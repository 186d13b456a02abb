/**
  The checksum as IEEE 802.3 section 3.2.9 defines it: the complemented remainder of a division of
  polynomials over the two-element field. A polynomial is the set of the exponents it has.
 */
module Division {
  import opened Bytes
  import opened ShiftRegister
  import opened Checksum

  type poly = set<nat>

  /** x^32 + x^26 + x^23 + x^22 + x^16 + x^12 + x^11 + x^10 + x^8 + x^7 + x^5 + x^4 + x^2 + x + 1 */
  predicate InGenerator(e: int) {
    || e == 32 || e == 26 || e == 23 || e == 22 || e == 16 || e == 12 || e == 11 || e == 10
    || e == 8 || e == 7 || e == 5 || e == 4 || e == 2 || e == 1 || e == 0
  }

  /** Terms that occur twice cancel. */
  function Plus(a: poly, b: poly): poly {
    (a - b) + (b - a)
  }

  /** `a` times x^n. */
  function Shift(a: poly, n: nat): (r: poly)
    ensures forall e: nat :: e in r <==> e >= n && (e - n) in a
  {
    set e | e in a :: e + n
  }

  /**
    Whether the product of `q` and the generator has the term x^e: whether an odd number of pairs,
    one term of each, make it.
   */
  predicate InProduct(q: poly, e: int) {
    (FromHigh(q, e) != FromMiddle(q, e)) != FromLow(q, e)
  }

  predicate FromHigh(q: poly, e: int) {
    (((((e - 32) in q) != ((e - 26) in q)) != ((e - 23) in q)) != ((e - 22) in q)) != ((e - 16) in q)
  }

  predicate FromMiddle(q: poly, e: int) {
    (((((e - 12) in q) != ((e - 11) in q)) != ((e - 10) in q)) != ((e - 8) in q)) != ((e - 7) in q)
  }

  predicate FromLow(q: poly, e: int) {
    (((((e - 5) in q) != ((e - 4) in q)) != ((e - 2) in q)) != ((e - 1) in q)) != (e in q)
  }

  ghost predicate IsProduct(p: poly, q: poly) {
    forall e: nat :: e in p <==> InProduct(q, e)
  }

  ghost predicate Multiple(p: poly) {
    exists q: poly :: IsProduct(p, q)
  }

  // ---- what is divided ----

  function Below(n: nat): (r: poly)
    ensures forall e: nat :: e in r <==> e < n
  {
    if n == 0 then {} else Below(n - 1) + {n - 1}
  }

  const ALL: poly := Below(32)

  /** Bit `i` of `n`, counted from the least significant. */
  predicate BitOf(n: nat, i: nat) {
    if i == 0 then n % 2 == 1 else BitOf(n / 2, i - 1)
  }

  /** Bits go out least significant first, so bit `i` of `width` has the exponent `width - 1 - i`. */
  function NumberPoly(n: nat, width: nat): poly {
    set e | e in Below(width) && BitOf(n, width - 1 - e)
  }

  function MessagePoly(s: bytes): poly {
    if s == [] then {} else Plus(Shift(NumberPoly(s[0], 8), 8 * |s| - 8), MessagePoly(s[1..]))
  }

  /** The message behind 32 zero bits, with its first 32 bits complemented. */
  function Dividend(s: bytes): poly {
    Plus(Shift(ALL, 8 * |s|), Shift(MessagePoly(s), 32))
  }

  /** `r` is what the division of the dividend by the generator leaves. */
  ghost predicate Remainder(s: bytes, r: poly) {
    r <= ALL && Multiple(Plus(Dividend(s), r))
  }

  // ---- multiples ----

  lemma MultiplesAdd(a: poly, b: poly)
    requires Multiple(a) && Multiple(b)
    ensures Multiple(Plus(a, b))
  {
    var p: poly :| IsProduct(a, p);
    var q: poly :| IsProduct(b, q);
    ProductsAdd(a, p, b, q);
  }

  lemma ProductsAdd(a: poly, p: poly, b: poly, q: poly)
    requires IsProduct(a, p) && IsProduct(b, q)
    ensures IsProduct(Plus(a, b), Plus(p, q))
  {
    forall e: nat
      ensures e in Plus(a, b) <==> InProduct(Plus(p, q), e)
    {
      InSum(p, q, e);
    }
  }

  lemma InSum(p: poly, q: poly, e: int)
    ensures InProduct(Plus(p, q), e) <==> InProduct(p, e) != InProduct(q, e)
  {
    hide FromHigh, FromMiddle, FromLow;
    HighSum(p, q, e);
    MiddleSum(p, q, e);
    LowSum(p, q, e);
  }

  lemma HighSum(p: poly, q: poly, e: int)
    ensures FromHigh(Plus(p, q), e) <==> FromHigh(p, e) != FromHigh(q, e)
  {
  }

  lemma MiddleSum(p: poly, q: poly, e: int)
    ensures FromMiddle(Plus(p, q), e) <==> FromMiddle(p, e) != FromMiddle(q, e)
  {
  }

  lemma LowSum(p: poly, q: poly, e: int)
    ensures FromLow(Plus(p, q), e) <==> FromLow(p, e) != FromLow(q, e)
  {
  }

  lemma NothingIsMultiple()
    ensures Multiple({})
  {
    assert IsProduct({}, {});
  }

  /** The generator moved up by `n`. */
  lemma GeneratorIsMultiple(g: poly, n: nat)
    requires forall e: nat :: e in g <==> InGenerator(e - n)
    ensures Multiple(g)
  {
    assert IsProduct(g, {n});
  }

  /** A multiple of degree below 32 is zero. */
  lemma SmallMultipleIsZero(p: poly)
    requires p <= ALL && Multiple(p)
    ensures p == {}
  {
    var q: poly :| IsProduct(p, q);
    if q != {} {
      var m := Largest(q);
      assert InProduct(q, m + 32);
      assert false;
    }
  }

  lemma {:induction false} Largest(q: poly) returns (m: nat)
    requires q != {}
    ensures m in q && forall e :: e in q ==> e <= m
    decreases q
  {
    m :| m in q;
    var others := q - {m};
    assert q == others + {m};
    if others != {} {
      var k := Largest(others);
      m := if k > m then k else m;
    }
  }

  // ---- the register divides ----

  /** The polynomial a register holds. */
  function RegisterPoly(c: register): poly {
    set e | e in Below(32) && c[31 - e]
  }

  lemma GeneratorBits(i: nat)
    requires i < 32
    ensures POLYNOMIAL[i] <==> InGenerator(31 - i)
  {
  }

  /** One step of the register takes the generator off, or not, and moves up. */
  lemma StepDivides(c: register, n: nat)
    ensures Multiple(Plus(Shift(RegisterPoly(c), n + 1), Shift(RegisterPoly(BitStep(c)), n)))
  {
    hide BitStep, InGenerator, Multiple, RegisterPoly, Shift, Plus;
    var d := Plus(Shift(RegisterPoly(c), n + 1), Shift(RegisterPoly(BitStep(c)), n));
    forall e: nat
      ensures e in d <==> c[0] && InGenerator(e - n)
    {
      InPlus(Shift(RegisterPoly(c), n + 1), Shift(RegisterPoly(BitStep(c)), n), e);
      InShifted(c, n + 1, e);
      InShifted(BitStep(c), n, e);
      StepTerm(c, e - n);
    }
    if c[0] {
      GeneratorIsMultiple(d, n);
    } else {
      NoTerms(d);
    }
  }

  lemma InPlus(a: poly, b: poly, e: nat)
    ensures e in Plus(a, b) <==> (e in a) != (e in b)
  {
  }

  lemma InShifted(c: register, n: nat, e: nat)
    ensures e in Shift(RegisterPoly(c), n) <==> 0 <= e - n < 32 && c[31 - (e - n)]
  {
  }

  lemma NoTerms(p: poly)
    requires forall e: nat :: e !in p
    ensures Multiple(p)
  {
    hide Multiple;
    assert p == {};
    NothingIsMultiple();
  }

  /** Term by term: `f` is an exponent after the step. */
  lemma StepTerm(c: register, f: int)
    ensures (0 <= f - 1 < 32 && c[32 - f]) != (0 <= f < 32 && BitStep(c)[31 - f]) <==> c[0] && InGenerator(f)
  {
    if 0 <= f < 32 {
      GeneratorBits(31 - f);
    }
  }

  lemma {:induction false} StepsDivide(c: register, k: nat, n: nat)
    ensures Multiple(Plus(Shift(RegisterPoly(c), n + k), Shift(RegisterPoly(Iterate(CRC32, c, k)), n)))
    decreases k
  {
    hide BitStep, Multiple;
    var last := Iterate(CRC32, c, k);
    if k == 0 {
      assert Plus(Shift(RegisterPoly(c), n), Shift(RegisterPoly(last), n)) == {};
      NothingIsMultiple();
    } else {
      var before := Iterate(CRC32, c, k - 1);
      StepsDivide(c, k - 1, n + 1);
      StepDivides(before, n);
      SumThrough(Shift(RegisterPoly(c), n + k), Shift(RegisterPoly(before), n + 1), Shift(RegisterPoly(last), n));
    }
  }

  /** Congruence is transitive. */
  lemma SumThrough(a: poly, b: poly, c: poly)
    requires Multiple(Plus(a, b)) && Multiple(Plus(b, c))
    ensures Multiple(Plus(a, c))
  {
    hide Multiple;
    MultiplesAdd(Plus(a, b), Plus(b, c));
    assert Plus(Plus(a, b), Plus(b, c)) == Plus(a, c);
  }

  lemma {:induction false} BitAt(n: nat, width: nat, i: nat)
    requires i < width
    ensures Bits(n, width)[i] <==> BitOf(n, i)
    decreases width
  {
    if i > 0 {
      BitAt(n / 2, width - 1, i - 1);
    }
  }

  /** A byte enters at the top of the register. */
  lemma LoadedPoly(b: byte)
    ensures RegisterPoly(Bits(b, 32)) == Shift(NumberPoly(b, 8), 24)
  {
    hide Bits, BitOf, Number, Below;
    ByteBits(b);
    forall e: nat
      ensures e in RegisterPoly(Bits(b, 32)) <==> e in Shift(NumberPoly(b, 8), 24)
    {
      if 24 <= e < 32 {
        BitAt(b, 32, 31 - e);
      }
    }
  }

  lemma XorPoly(a: register, b: register)
    ensures RegisterPoly(Xor(a, b)) == Plus(RegisterPoly(a), RegisterPoly(b))
  {
  }

  lemma ShiftPlus(a: poly, b: poly, n: nat)
    ensures Shift(Plus(a, b), n) == Plus(Shift(a, n), Shift(b, n))
  {
  }

  lemma ShiftTwice(a: poly, n: nat, m: nat)
    ensures Shift(Shift(a, n), m) == Shift(a, n + m)
  {
  }

  /** Taking the bytes of a message in, from any register, divides register and message together. */
  lemma {:induction false} FoldDivides(c: register, s: bytes)
    ensures Multiple(Plus(Plus(Shift(RegisterPoly(c), 8 * |s|), Shift(MessagePoly(s), 32)),
                          RegisterPoly(Fold(CRC32, c, s))))
    decreases s
  {
    hide Multiple, RegisterPoly, NumberPoly, BitStep;
    var all := Plus(Shift(RegisterPoly(c), 8 * |s|), Shift(MessagePoly(s), 32));
    var last := RegisterPoly(Fold(CRC32, c, s));
    if s == [] {
      assert Plus(all, last) == {};
      NothingIsMultiple();
    } else {
      var n := 8 * |s| - 8;
      var loaded := Xor(c, Bits(s[0], 32));
      var next: register := Iterate(CRC32, loaded, 8);
      var rest := Shift(MessagePoly(s[1..]), 32);
      FoldDivides(next, s[1..]);
      StepsDivide(loaded, 8, n);
      ByteTakenIn(c, s);
      var mid := Plus(Shift(RegisterPoly(next), n), rest);
      assert Plus(all, mid) == Plus(Shift(RegisterPoly(loaded), n + 8), Shift(RegisterPoly(next), n));
      SumThrough(all, mid, last);
    }
  }

  lemma ByteTakenIn(c: register, s: bytes)
    requires s != []
    ensures Plus(Shift(RegisterPoly(c), 8 * |s|), Shift(MessagePoly(s), 32))
         == Plus(Shift(RegisterPoly(Xor(c, Bits(s[0], 32))), 8 * |s|), Shift(MessagePoly(s[1..]), 32))
  {
    hide RegisterPoly, NumberPoly;
    var byte := NumberPoly(s[0], 8);
    var n := 8 * |s| - 8;
    XorPoly(c, Bits(s[0], 32));
    LoadedPoly(s[0]);
    ShiftPlus(RegisterPoly(c), Shift(byte, 24), n + 8);
    ShiftTwice(byte, 24, n + 8);
    ShiftPlus(Shift(byte, n), MessagePoly(s[1..]), 32);
    ShiftTwice(byte, n, 32);
  }

  // ---- the checksum ----

  lemma ComputedPoly(s: bytes)
    ensures RegisterPoly(Fold(CRC32, ALL_ONES, s)) == Plus(ALL, NumberPoly(Compute(s), 32))
  {
    hide Fold, Bits, BitOf, Number, Below;
    var c := Fold(CRC32, ALL_ONES, s);
    BitsOfNumber(Xor(c, ALL_ONES));
    forall e: nat | e < 32
      ensures e in RegisterPoly(c) <==> e in Plus(ALL, NumberPoly(Compute(s), 32))
    {
      BitAt(Compute(s), 32, 31 - e);
      assert Xor(c, ALL_ONES)[31 - e] == (c[31 - e] != ALL_ONES[31 - e]);
    }
  }

  /**
    The checksum of any message is the complement of the remainder that dividing its dividend by
    the generator leaves, and there is no other remainder.
   */
  lemma ChecksumIsRemainder(s: bytes, r: poly)
    ensures Remainder(s, r) <==> r == Plus(ALL, NumberPoly(Compute(s), 32))
  {
    hide Multiple, RegisterPoly, NumberPoly, Compute, Fold;
    var rest := Plus(ALL, NumberPoly(Compute(s), 32));
    FoldDivides(ALL_ONES, s);
    ComputedPoly(s);
    OnesPoly();
    RegisterIsSmall(Fold(CRC32, ALL_ONES, s));
    if Remainder(s, r) {
      MultiplesAdd(Plus(Dividend(s), r), Plus(Dividend(s), rest));
      assert Plus(Plus(Dividend(s), r), Plus(Dividend(s), rest)) == Plus(r, rest);
      SmallMultipleIsZero(Plus(r, rest));
    }
  }

  lemma OnesPoly()
    ensures RegisterPoly(ALL_ONES) == ALL
  {
  }

  lemma RegisterIsSmall(c: register)
    ensures RegisterPoly(c) <= ALL
  {
  }
}
