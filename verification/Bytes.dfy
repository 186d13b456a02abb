/** Bytes, fixed-width little-endian integers and UTF-8 validity. */
module Bytes {

  type byte = x: int | 0 <= x < 0x100
  type u32 = x: int | 0 <= x < 0x1_0000_0000
  type u64 = x: int | 0 <= x < 0x1_0000_0000_0000_0000
  type i64 = x: int | -0x8000_0000_0000_0000 <= x < 0x8000_0000_0000_0000
  type bytes = seq<byte>

  /** 256 to the power `width`: the number of values that fit in `width` bytes. */
  function Capacity(width: nat): (c: nat)
    ensures c > 0
  {
    if width == 0 then 1 else 0x100 * Capacity(width - 1)
  }

  lemma CapacityOfWords()
    ensures Capacity(4) == 0x1_0000_0000
    ensures Capacity(8) == 0x1_0000_0000_0000_0000
  {
    assert Capacity(4) == 0x100 * (0x100 * (0x100 * (0x100 * Capacity(0))));
    assert Capacity(8) == 0x100 * (0x100 * (0x100 * (0x100 * Capacity(4))));
  }

  /** The `width`-byte little-endian image of `n`, keeping the low bytes. */
  function Le(n: nat, width: nat): (b: bytes)
    ensures |b| == width
  {
    if width == 0 then [] else [n % 0x100] + Le(n / 0x100, width - 1)
  }

  function FromLe(b: bytes): nat {
    if b == [] then 0 else b[0] + 0x100 * FromLe(b[1..])
  }

  lemma {:induction false} FromLeBound(b: bytes)
    ensures FromLe(b) < Capacity(|b|)
  {
    if b != [] {
      FromLeBound(b[1..]);
    }
  }

  /** Reading back what was written gives the number, when it fits. */
  lemma {:induction false} LeThenFromLe(n: nat, width: nat)
    requires n < Capacity(width)
    ensures FromLe(Le(n, width)) == n
  {
    if width > 0 {
      LeThenFromLe(n / 0x100, width - 1);
      assert Le(n, width)[1..] == Le(n / 0x100, width - 1);
    }
  }

  /** Writing what was read gives the bytes back. */
  lemma {:induction false} FromLeThenLe(b: bytes)
    ensures Le(FromLe(b), |b|) == b
  {
    if b != [] {
      FromLeThenLe(b[1..]);
      assert FromLe(b) % 0x100 == b[0];
      assert FromLe(b) / 0x100 == FromLe(b[1..]);
      assert b == [b[0]] + b[1..];
    }
  }

  lemma FromLeInjective(a: bytes, b: bytes)
    requires |a| == |b| && FromLe(a) == FromLe(b)
    ensures a == b
  {
    FromLeThenLe(a);
    FromLeThenLe(b);
  }

  function Le4(n: u32): (b: bytes)
    ensures |b| == 4
  {
    Le(n, 4)
  }

  function Le8(n: u64): (b: bytes)
    ensures |b| == 8
  {
    Le(n, 8)
  }

  function FromLe4(b: bytes): u32
    requires |b| == 4
  {
    FromLeBound(b);
    CapacityOfWords();
    FromLe(b)
  }

  function FromLe8(b: bytes): u64
    requires |b| == 8
  {
    FromLeBound(b);
    CapacityOfWords();
    FromLe(b)
  }

  lemma Le4RoundTrip(n: u32)
    ensures FromLe4(Le4(n)) == n
  {
    CapacityOfWords();
    LeThenFromLe(n, 4);
  }

  lemma Le8RoundTrip(n: u64)
    ensures FromLe8(Le8(n)) == n
  {
    CapacityOfWords();
    LeThenFromLe(n, 8);
  }

  // ---- little-endian words at an offset ----

  /** The four bytes at `p`, least significant first. */
  function U32At(b: bytes, p: nat): nat
    requires p + 4 <= |b|
  {
    var b0: nat, b1: nat, b2: nat, b3: nat := b[p], b[p + 1], b[p + 2], b[p + 3];
    b0 + 0x100 * b1 + 0x1_0000 * b2 + 0x100_0000 * b3
  }

  function U64At(b: bytes, p: nat): nat
    requires p + 8 <= |b|
  {
    U32At(b, p) + 0x1_0000_0000 * U32At(b, p + 4)
  }

  /** The first four bytes of a number, and the rest. */
  lemma FirstWord(b: bytes)
    requires |b| >= 4
    ensures FromLe(b) == U32At(b, 0) + 0x1_0000_0000 * FromLe(b[4..])
  {
    assert b[1..][1..][1..][1..] == b[4..];
    assert FromLe(b[1..][1..][1..]) == b[3] + 0x100 * FromLe(b[4..]);
    assert FromLe(b[1..][1..]) == b[2] + 0x100 * FromLe(b[1..][1..][1..]);
    assert FromLe(b[1..]) == b[1] + 0x100 * FromLe(b[1..][1..]);
  }

  /** The decoders' reading of a word is the plain one. */
  lemma WordsAt(b: bytes, p: nat)
    ensures p + 4 <= |b| ==> FromLe4(b[p..p + 4]) == U32At(b, p)
    ensures p + 8 <= |b| ==> FromLe8(b[p..p + 8]) == U64At(b, p)
  {
    if p + 4 <= |b| {
      FirstWord(b[p..p + 4]);
    }
    if p + 8 <= |b| {
      FirstWord(b[p..p + 8]);
      FirstWord(b[p..p + 8][4..]);
    }
  }

  /** Bytes are those of a written word exactly when they read as its value. */
  lemma Word4At(b: bytes, p: nat, n: u32)
    requires p + 4 <= |b|
    ensures b[p..p + 4] == Le4(n) <==> U32At(b, p) == n
  {
    hide FromLe;
    WordsAt(b, p);
    Le4RoundTrip(n);
    if U32At(b, p) == n {
      FromLeInjective(b[p..p + 4], Le4(n));
    }
  }

  lemma Word8At(b: bytes, p: nat, n: u64)
    requires p + 8 <= |b|
    ensures b[p..p + 8] == Le8(n) <==> U64At(b, p) == n
  {
    hide FromLe;
    WordsAt(b, p);
    Le8RoundTrip(n);
    if U64At(b, p) == n {
      FromLeInjective(b[p..p + 8], Le8(n));
    }
  }

  /** The two's-complement bit pattern of a signed 64-bit integer, and back. */
  function ToBits(i: i64): u64 {
    if i < 0 then i + 0x1_0000_0000_0000_0000 else i
  }

  function OfBits(n: u64): (i: i64)
    ensures ToBits(i) == n
  {
    if n >= 0x8000_0000_0000_0000 then n - 0x1_0000_0000_0000_0000 else n
  }

  /** A Rust byte vector: its length fits in a 64-bit `usize`. */
  type blob = b: bytes | |b| < 0x1_0000_0000_0000_0000

  predicate Continuation(b: byte) {
    0x80 <= b < 0xC0
  }

  /** Length of the UTF-8 sequence at the front of `s` (RFC 3629 section 4), 0 if there is none. */
  function ScalarLength(s: bytes): (n: nat)
    ensures n <= |s|
  {
    if s == [] then 0
    else if s[0] < 0x80 then 1
    else if |s| >= 2 && 0xC2 <= s[0] < 0xE0 && Continuation(s[1]) then 2
    else if |s| >= 3 && 0xE0 <= s[0] < 0xF0 && Continuation(s[1]) && Continuation(s[2])
            && (s[0] == 0xE0 ==> s[1] >= 0xA0) && (s[0] == 0xED ==> s[1] < 0xA0) then 3
    else if |s| >= 4 && 0xF0 <= s[0] < 0xF5 && Continuation(s[1]) && Continuation(s[2]) && Continuation(s[3])
            && (s[0] == 0xF0 ==> s[1] >= 0x90) && (s[0] == 0xF4 ==> s[1] < 0x90) then 4
    else 0
  }

  /** Whether `String::from_utf8` accepts `s`. */
  predicate ValidUtf8(s: bytes) {
    s == [] || (ScalarLength(s) > 0 && ValidUtf8(s[ScalarLength(s)..]))
  }

  /** A Rust `String`, as its UTF-8 bytes. */
  type text = s: bytes | |s| < 0x1_0000_0000_0000_0000 && ValidUtf8(s)
}
