/** The UTF-8 check of the text decoders, against the encoding RFC 3629 section 3 defines. */
module Utf8 {
  import opened Bytes

  /** A Unicode scalar value: a code point that is no surrogate. */
  type scalar = c: int | 0 <= c < 0xD800 || 0xE000 <= c < 0x11_0000

  function EncodeScalar(c: scalar): (b: bytes)
    ensures 1 <= |b| <= 4
  {
    if c < 0x80 then [c]
    else if c < 0x800 then [0xC0 + c / 0x40, 0x80 + c % 0x40]
    else if c < 0x1_0000 then [0xE0 + c / 0x1000, 0x80 + c / 0x40 % 0x40, 0x80 + c % 0x40]
    else [0xF0 + c / 0x4_0000, 0x80 + c / 0x1000 % 0x40, 0x80 + c / 0x40 % 0x40, 0x80 + c % 0x40]
  }

  function EncodeScalars(cs: seq<scalar>): bytes {
    if cs == [] then [] else EncodeScalar(cs[0]) + EncodeScalars(cs[1..])
  }

  /** The check finds the length of an encoded scalar, whatever follows it. */
  lemma ScalarFound(c: scalar, rest: bytes)
    ensures ScalarLength(EncodeScalar(c) + rest) == |EncodeScalar(c)|
  {
    var b := EncodeScalar(c);
    assert forall i :: 0 <= i < |b| ==> (b + rest)[i] == b[i];
    if 0x800 <= c < 0x1_0000 {
      ThreeBytes(c);
    } else if c >= 0x1_0000 {
      FourBytesOf(c);
    }
  }

  lemma ThreeBytes(c: scalar)
    requires 0x800 <= c < 0x1_0000
    ensures c / 0x1000 == 0 ==> c / 0x40 % 0x40 >= 0x20
    ensures c / 0x1000 == 0xD ==> c / 0x40 % 0x40 < 0x20
  {
    assert c / 0x40 == 0x40 * (c / 0x1000) + c / 0x40 % 0x40;
  }

  lemma FourBytesOf(c: scalar)
    requires c >= 0x1_0000
    ensures c / 0x4_0000 == 0 ==> c / 0x1000 % 0x40 >= 0x10
    ensures c / 0x4_0000 == 4 ==> c / 0x1000 % 0x40 < 0x10
    ensures c / 0x4_0000 <= 4
  {
    assert c / 0x1000 == 0x40 * (c / 0x4_0000) + c / 0x1000 % 0x40;
  }

  /** Whatever the check finds at the front is the encoding of a scalar. */
  lemma FoundScalar(s: bytes) returns (c: scalar)
    requires ScalarLength(s) > 0
    ensures s[..ScalarLength(s)] == EncodeScalar(c)
  {
    var n := ScalarLength(s);
    if n == 1 {
      c := s[0];
    } else if n == 2 {
      var hi: nat, lo: nat := s[0] - 0xC0, s[1] - 0x80;
      c := 0x40 * hi + lo;
    } else if n == 3 {
      var hi: nat, mid: nat, lo: nat := s[0] - 0xE0, s[1] - 0x80, s[2] - 0x80;
      Digits(0, hi, mid, lo);
      c := 0x1000 * hi + 0x40 * mid + lo;
    } else {
      var top: nat, hi: nat, mid: nat, lo: nat := s[0] - 0xF0, s[1] - 0x80, s[2] - 0x80, s[3] - 0x80;
      Digits(top, hi, mid, lo);
      c := 0x4_0000 * top + 0x1000 * hi + 0x40 * mid + lo;
    }
  }

  /** The digits of a number to the base 64. */
  lemma Digits(top: nat, hi: nat, mid: nat, lo: nat)
    requires hi < 0x40 && mid < 0x40 && lo < 0x40
    ensures var c := 0x4_0000 * top + 0x1000 * hi + 0x40 * mid + lo;
            && c / 0x4_0000 == top && c / 0x1000 == 0x40 * top + hi && c / 0x1000 % 0x40 == hi
            && c / 0x40 % 0x40 == mid && c % 0x40 == lo
  {
    var c2 := 0x40 * top + hi;
    var c1 := 0x40 * c2 + mid;
    var c := 0x40 * c1 + lo;
    Digit(top, hi);
    Digit(c2, mid);
    Digit(c1, lo);
    DivideAgain(c, 0x40);
    DivideAgain(c, 0x1000);
  }

  lemma Digit(q: nat, r: nat)
    requires r < 0x40
    ensures (0x40 * q + r) / 0x40 == q && (0x40 * q + r) % 0x40 == r
  {
  }

  lemma DivideAgain(n: nat, d: nat)
    requires d == 0x40 || d == 0x1000
    ensures n / d / 0x40 == n / (0x40 * d)
  {
    if d == 0x40 {
      assert n / 0x40 / 0x40 == n / 0x1000;
    } else {
      assert n / 0x1000 / 0x40 == n / 0x4_0000;
    }
  }

  lemma {:induction false} EncodedIsValid(cs: seq<scalar>)
    ensures ValidUtf8(EncodeScalars(cs))
  {
    hide EncodeScalar, ScalarLength;
    if cs != [] {
      var b, rest := EncodeScalar(cs[0]), EncodeScalars(cs[1..]);
      EncodedIsValid(cs[1..]);
      ScalarFound(cs[0], rest);
      assert (b + rest)[|b|..] == rest;
    }
  }

  lemma {:induction false} ValidIsEncoded(s: bytes) returns (cs: seq<scalar>)
    requires ValidUtf8(s)
    ensures s == EncodeScalars(cs)
    decreases |s|
  {
    hide EncodeScalar, ScalarLength;
    if s == [] {
      cs := [];
    } else {
      var n := ScalarLength(s);
      var c := FoundScalar(s);
      var rest := ValidIsEncoded(s[n..]);
      cs := [c] + rest;
      assert cs[1..] == rest;
      assert s == s[..n] + s[n..];
    }
  }

  /** The accepted byte strings are exactly the encodings of strings of scalar values. */
  lemma ValidExactly(s: bytes)
    ensures ValidUtf8(s) <==> exists cs: seq<scalar> :: s == EncodeScalars(cs)
  {
    if ValidUtf8(s) {
      var cs := ValidIsEncoded(s);
      assert s == EncodeScalars(cs);
    }
    if cs: seq<scalar> :| s == EncodeScalars(cs) {
      EncodedIsValid(cs);
    }
  }
}
