/**
  CRC-32 with the IEEE polynomial (IEEE 802.3 section 3.2.9, in the reflected form of
  RFC 1952 section 8), bit by bit, and what it detects.
 */
module Checksum {
  import opened Wrappers
  import opened Bytes
  import opened ShiftRegister

  /** The low `width` bits of `n`, least significant first. */
  function Bits(n: nat, width: nat): (bits: seq<bool>)
    ensures |bits| == width
    decreases width, n
  {
    if width == 0 then [] else [n % 2 == 1] + Bits(n / 2, width - 1)
  }

  /** The number that bits, least significant first, stand for. */
  function Number(bits: seq<bool>): nat {
    if bits == [] then 0 else (if bits[0] then 1 else 0) + 2 * Number(bits[1..])
  }

  function Repeat(bit: bool): (r: seq<bool>)
    ensures |r| == 32
  {
    seq(32, i => bit)
  }

  /** A 32-bit register, least significant bit first. */
  type register = r: seq<bool> | |r| == 32 witness Repeat(false)

  const ZERO: register := Repeat(false)


  /** The reflected generator polynomial, 0xEDB88320. */
  const POLYNOMIAL: register := [
      false, false, false, false, false, true, false, false,
      true, true, false, false, false, false, false, true,
      false, false, false, true, true, true, false, true,
      true, false, true, true, false, true, true, true
    ]

  const ALL_ONES: register := Repeat(true)

  function Xor(a: register, b: register): register {
    seq(32, (i: nat) requires i < 32 => a[i] != b[i])
  }

  /** One bit of the division by `p`: shift right, and subtract `p` if a one fell out. */
  function DivideBit(c: register, p: register): register {
    if c[0] then Xor(c[1..] + [false], p) else c[1..] + [false]
  }

  function BitStep(c: register): register {
    DivideBit(c, POLYNOMIAL)
  }

  function Up(y: register): register {
    [false] + y[..31]
  }

  /** The top `n` bits of `y` are clear. */
  predicate Room(y: register, n: nat) {
    n <= 32 && forall i :: 32 - n <= i < 32 ==> !y[i]
  }

  /** The CRC-32 register machine. */
  const CRC32: Machine<register> := Machine<register>.Machine(
      8,
      ZERO,
      (a: register, b: register) => Xor(a, b),
      (c: register) => BitStep(c),
      (y: register) => Up(y),
      (y: register, n: nat) => Room(y, n),
      (b: byte) => Bits(b, 32))

  /** The checksum of `s`: registers start at, and are finally combined with, all ones. */
  function Compute(s: bytes): u32 {
    var r := Xor(Fold(CRC32, ALL_ONES, s), ALL_ONES);
    NumberBound(r);
    PowerOfWord();
    Number(r)
  }

  /** Accepts `s` exactly when its checksum is `expected`. */
  function Verify(s: bytes, expected: u32): (r: Result<()>)
    ensures r.Success? <==> Compute(s) == expected
    ensures r.Failure? ==> r.error == ChecksumMismatch(expected, Compute(s))
  {
    if Compute(s) == expected then Success(()) else Failure(ChecksumMismatch(expected, Compute(s)))
  }

  // ---- numbers and bits ----

  function Power2(k: nat): (p: nat)
    ensures p > 0
  {
    if k == 0 then 1 else 2 * Power2(k - 1)
  }

  lemma PowerOfWord()
    ensures Power2(32) == 0x1_0000_0000
  {
    assert Power2(8) == 0x100;
    assert Power2(16) == 0x100 * Power2(8);
    assert Power2(24) == 0x100 * Power2(16);
  }

  lemma {:induction false} NumberBound(bits: seq<bool>)
    ensures Number(bits) < Power2(|bits|)
  {
    if bits != [] {
      NumberBound(bits[1..]);
    }
  }

  lemma {:induction false} BitsOfNumber(bits: seq<bool>)
    ensures Bits(Number(bits), |bits|) == bits
  {
    if bits != [] {
      BitsOfNumber(bits[1..]);
      assert Number(bits) / 2 == Number(bits[1..]);
      assert Number(bits) % 2 == 1 <==> bits[0];
      assert bits == [bits[0]] + bits[1..];
    }
  }

  lemma {:induction false} NumberOfBits(n: nat, width: nat)
    requires n < Power2(width)
    ensures Number(Bits(n, width)) == n
    decreases width
  {
    if width > 0 {
      NumberOfBits(n / 2, width - 1);
      assert Bits(n, width)[1..] == Bits(n / 2, width - 1);
    }
  }

  lemma {:induction false} HighBitsClear(n: nat, k: nat, width: nat)
    requires n < Power2(k) && k <= width
    ensures forall i :: k <= i < width ==> !Bits(n, width)[i]
    decreases width
  {
    if width > 0 {
      if k > 0 {
        HighBitsClear(n / 2, k - 1, width - 1);
      } else {
        HighBitsClear(0, 0, width - 1);
      }
      forall i | k <= i < width
        ensures !Bits(n, width)[i]
      {
        if i > 0 {
          assert Bits(n, width)[i] == Bits(n / 2, width - 1)[i - 1];
        }
      }
    }
  }

  function Digit(bits: seq<bool>, i: nat): nat
    requires i < |bits|
  {
    if bits[i] then 1 else 0
  }

  lemma NumberStep(bits: seq<bool>, i: nat)
    requires i < |bits|
    ensures Number(bits[i..]) == Digit(bits, i) + 2 * Number(bits[i + 1..])
  {
    assert bits[i..][1..] == bits[i + 1..];
  }

  /** Four bits of a number are one hexadecimal digit. */
  lemma NumberByDigit(bits: seq<bool>, i: nat)
    requires i + 4 <= |bits|
    ensures Number(bits[i..])
         == Digit(bits, i) + 2 * Digit(bits, i + 1) + 4 * Digit(bits, i + 2) + 8 * Digit(bits, i + 3)
            + 16 * Number(bits[i + 4..])
  {
    hide Number, Digit;
    NumberStep(bits, i);
    NumberStep(bits, i + 1);
    NumberStep(bits, i + 2);
    NumberStep(bits, i + 3);
  }

  lemma PolynomialHighByte()
    ensures Number(POLYNOMIAL[24..]) == 0xED
  {
    hide Number;
    NumberByDigit(POLYNOMIAL, 28);
    NumberByDigit(POLYNOMIAL, 24);
    NumberOfNothing();
    assert POLYNOMIAL[32..] == [];
  }

  lemma PolynomialHighHalf()
    ensures Number(POLYNOMIAL[16..]) == 0xEDB8
  {
    hide Number;
    PolynomialHighByte();
    NumberByDigit(POLYNOMIAL, 20);
    NumberByDigit(POLYNOMIAL, 16);
  }

  lemma NumberOfNothing()
    ensures Number([]) == 0
  {
  }

  lemma PolynomialNumber()
    ensures Number(POLYNOMIAL) == 0xEDB8_8320
  {
    hide Number;
    PolynomialHighHalf();
    NumberByDigit(POLYNOMIAL, 12);
    NumberByDigit(POLYNOMIAL, 8);
    NumberByDigit(POLYNOMIAL, 4);
    NumberByDigit(POLYNOMIAL, 0);
    assert POLYNOMIAL[0..] == POLYNOMIAL;
  }

  // ---- the register satisfies the shift-register laws ----

  lemma DivideBitInjective(a: register, b: register, p: register)
    requires p[31] && DivideBit(a, p) == DivideBit(b, p)
    ensures a == b
  {
    assert DivideBit(a, p)[31] == a[0] && DivideBit(b, p)[31] == b[0];
    forall i | 1 <= i < 32
      ensures a[i] == b[i]
    {
      assert DivideBit(a, p)[i - 1] == DivideBit(b, p)[i - 1];
    }
  }

  lemma XorLaws(a: register, b: register, c: register)
    ensures Xor(a, ZERO) == a
    ensures Xor(a, b) == Xor(b, a)
    ensures Xor(Xor(a, b), c) == Xor(a, Xor(b, c))
  {
  }

  lemma Crc32Additive()
    ensures Additive(CRC32)
  {
    forall a: register
      ensures CRC32.xor(a, CRC32.zero) == a
    {
      XorLaws(a, a, a);
    }
    forall a: register, b: register, c: register {:trigger CRC32.xor(CRC32.xor(a, b), c)}
      ensures CRC32.xor(CRC32.xor(a, b), c) == CRC32.xor(a, CRC32.xor(b, c))
    {
      XorLaws(a, b, c);
    }
    forall a, b, w {:trigger CRC32.xor(a, w), CRC32.xor(b, w)} | CRC32.xor(a, w) == CRC32.xor(b, w)
      ensures a == b
    {
      XorCancels(a, b, w);
    }
    forall a, b, w {:trigger CRC32.xor(w, a), CRC32.xor(w, b)} | CRC32.xor(w, a) == CRC32.xor(w, b)
      ensures a == b
    {
      XorLaws(w, a, a);
      XorLaws(w, b, b);
      XorCancels(a, b, w);
    }
  }

  lemma XorCancels(a: register, b: register, w: register)
    requires Xor(a, w) == Xor(b, w)
    ensures a == b
  {
    forall i | 0 <= i < 32
      ensures a[i] == b[i]
    {
      assert Xor(a, w)[i] == Xor(b, w)[i];
    }
  }

  lemma Crc32Reversible()
    ensures Reversible(CRC32)
  {
    forall a, b {:trigger CRC32.step(a), CRC32.step(b)} | CRC32.step(a) == CRC32.step(b)
      ensures a == b
    {
      DivideBitInjective(a, b, POLYNOMIAL);
    }
  }

  lemma StepOfSum(x: register, y: register, p: register)
    requires !y[31]
    ensures Xor(DivideBit(x, p), y) == DivideBit(Xor(x, Up(y)), p)
  {
  }

  lemma Crc32Linear()
    ensures Linear(CRC32)
  {
    forall x, y, n: nat {:trigger CRC32.room(y, n), CRC32.xor(CRC32.step(x), y)} | CRC32.room(y, n) && n > 0
      ensures CRC32.xor(CRC32.step(x), y) == CRC32.step(CRC32.xor(x, CRC32.up(y)))
    {
      StepOfSum(x, y, POLYNOMIAL);
    }
  }

  // ---- four bytes fit in the register, and are recoverable from it ----

  lemma {:induction false} RaiseMoves(y: register, n: nat)
    requires n <= 32
    ensures forall i :: 0 <= i < 32 ==> Raise(CRC32, y, n)[i] == (i >= n && y[i - n])
    decreases n
  {
    if n > 0 {
      RaiseMoves(Up(y), n - 1);
    }
  }

  /** A low byte and the bits above it can be read off their sum. */
  lemma PartsSeparate(v: register, w: register, t: register, u: register, p: register, q: register)
    requires forall i :: 8 <= i < 32 ==> !v[i] && !w[i]
    requires forall i :: 0 <= i < 32 ==> p[i] == (i >= 8 && t[i - 8]) && q[i] == (i >= 8 && u[i - 8])
    requires Room(t, 8) && Room(u, 8) && Xor(v, p) == Xor(w, q)
    ensures v == w && t == u
  {
    forall i | 0 <= i < 32
      ensures v[i] == w[i] && p[i] == q[i]
    {
      assert Xor(v, p)[i] == Xor(w, q)[i];
    }
    forall i | 0 <= i < 32
      ensures t[i] == u[i]
    {
      if i < 24 {
        assert p[i + 8] == q[i + 8];
      }
    }
  }

  lemma ByteBits(x: byte)
    ensures forall i :: 8 <= i < 32 ==> !Bits(x, 32)[i]
    ensures Number(Bits(x, 32)) == x
  {
    assert Power2(8) == 0x100;
    HighBitsClear(x, 8, 32);
    PowerOfWord();
    NumberOfBits(x, 32);
  }

  lemma BytesSeparate(x: byte, y: byte, t: register, u: register, p: register, q: register)
    requires p == Raise(CRC32, t, 8) && q == Raise(CRC32, u, 8)
    requires Room(t, 8) && Room(u, 8) && Xor(Bits(x, 32), p) == Xor(Bits(y, 32), q)
    ensures x == y && t == u
  {
    RaiseMoves(t, 8);
    RaiseMoves(u, 8);
    ByteBits(x);
    ByteBits(y);
    PartsSeparate(Bits(x, 32), Bits(y, 32), t, u, p, q);
  }

  lemma Crc32Separable()
    ensures Separable(CRC32)
  {
    forall x: byte, y: byte, t, u
      {:trigger CRC32.xor(CRC32.load(x), Raise(CRC32, t, CRC32.width)),
                CRC32.xor(CRC32.load(y), Raise(CRC32, u, CRC32.width))}
      | && CRC32.room(t, CRC32.width) && CRC32.room(u, CRC32.width)
        && CRC32.xor(CRC32.load(x), Raise(CRC32, t, CRC32.width))
        == CRC32.xor(CRC32.load(y), Raise(CRC32, u, CRC32.width))
      ensures x == y && t == u
    {
      BytesSeparate(x, y, t, u, Raise(CRC32, t, 8), Raise(CRC32, u, 8));
    }
  }

  lemma Crc32Lawful()
    ensures Lawful(CRC32)
  {
    Crc32Additive();
    Crc32Reversible();
    Crc32Linear();
    Crc32Separable();
  }

  lemma {:induction false} WordBits(w: bytes)
    requires |w| <= 4
    ensures forall i :: 8 * |w| <= i < 32 ==> !Word(CRC32, w)[i]
  {
    if w != [] {
      WordBits(w[1..]);
      RaiseMoves(Word(CRC32, w[1..]), 8);
      ByteBits(w[0]);
    }
  }

  lemma {:induction false} FourBytesFit(w: bytes)
    requires |w| <= 4
    ensures FitsWord(CRC32, w)
  {
    if w != [] {
      WordBits(w[1..]);
      FourBytesFit(w[1..]);
    }
  }

  /**
    Damage confined to at most four consecutive bytes, anywhere in a message of any
    length, always changes the checksum.
   */
  lemma BurstDetected(before: bytes, a: bytes, b: bytes, after: bytes)
    requires |a| == |b| <= 4 && a != b
    ensures Compute(before + a + after) != Compute(before + b + after)
  {
    FourBytesFit(a);
    FourBytesFit(b);
    Crc32Lawful();
    BurstChangesRegister(CRC32, ALL_ONES, before, a, b, after);
    var r, s := Fold(CRC32, ALL_ONES, before + a + after), Fold(CRC32, ALL_ONES, before + b + after);
    if Compute(before + a + after) == Compute(before + b + after) {
      BitsOfNumber(Xor(r, ALL_ONES));
      BitsOfNumber(Xor(s, ALL_ONES));
      XorCancels(r, s, ALL_ONES);
    }
  }

  /** Replacing one byte of a message by another changes its checksum. */
  lemma ByteChangeDetected(s: bytes, k: nat, x: byte)
    requires k < |s| && x != s[k]
    ensures Compute(s[k := x]) != Compute(s)
  {
    hide Compute;
    BurstDetected(s[..k], [x], [s[k]], s[k + 1..]);
    assert s == s[..k] + [s[k]] + s[k + 1..];
    assert s[k := x] == s[..k] + [x] + s[k + 1..];
  }

  /**
    A message is accepted against its own checksum, and with damage to at most four consecutive
    bytes is refused, the error naming the stored checksum and a different computed one.
   */
  lemma VerifyDetectsBurst(before: bytes, a: bytes, b: bytes, after: bytes)
    requires |a| == |b| <= 4
    ensures var stored, r := Compute(before + a + after), Verify(before + b + after, Compute(before + a + after));
            && (r.Success? <==> a == b)
            && (r.Failure? ==> r.error.ChecksumMismatch? && r.error.expected == stored != r.error.computed)
  {
    hide Compute;
    if a != b {
      BurstDetected(before, a, b, after);
    }
  }
}
