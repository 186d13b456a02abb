/**
  Bit-serial division registers over an abstract register type `T`. The theory needs only the
  algebra of one step, so no proof here looks at a bit pattern.
 */
module ShiftRegister {
  import opened Bytes

  /**
    `width` is the number of bits in a byte, `step` divides by one bit, `load` places a byte in a
    register, `up` moves a register one bit towards the message, and `room(y, n)` says `y` can be
    moved up `n` bits without loss.
   */
  datatype Machine<!T> = Machine(
    width: nat,
    zero: T,
    xor: (T, T) -> T,
    step: T -> T,
    up: T -> T,
    room: (T, nat) -> bool,
    load: byte -> T)

  ghost predicate Additive<T(!new)>(m: Machine<T>) {
    && (forall a :: m.xor(a, m.zero) == a)
    && (forall a, b, c {:trigger m.xor(m.xor(a, b), c)} :: m.xor(m.xor(a, b), c) == m.xor(a, m.xor(b, c)))
    && (forall a, b, w {:trigger m.xor(a, w), m.xor(b, w)} :: m.xor(a, w) == m.xor(b, w) ==> a == b)
    && (forall a, b, w {:trigger m.xor(w, a), m.xor(w, b)} :: m.xor(w, a) == m.xor(w, b) ==> a == b)
  }

  ghost predicate Reversible<T(!new)>(m: Machine<T>) {
    forall a, b {:trigger m.step(a), m.step(b)} :: m.step(a) == m.step(b) ==> a == b
  }

  ghost predicate Linear<T(!new)>(m: Machine<T>) {
    && (forall y, n: nat {:trigger m.room(y, n), m.up(y)} :: m.room(y, n) && n > 0 ==> m.room(m.up(y), n - 1))
    && (forall x, y, n: nat {:trigger m.room(y, n), m.xor(m.step(x), y)} ::
          m.room(y, n) && n > 0 ==> m.xor(m.step(x), y) == m.step(m.xor(x, m.up(y))))
  }

  /** A byte, and what was moved up past it, can be told apart again. */
  ghost predicate Separable<T(!new)>(m: Machine<T>) {
    forall x: byte, y: byte, t, u
      {:trigger m.xor(m.load(x), Raise(m, t, m.width)), m.xor(m.load(y), Raise(m, u, m.width))} ::
      && m.room(t, m.width) && m.room(u, m.width)
      && m.xor(m.load(x), Raise(m, t, m.width)) == m.xor(m.load(y), Raise(m, u, m.width))
      ==> x == y && t == u
  }

  ghost predicate Lawful<T(!new)>(m: Machine<T>) {
    Additive(m) && Reversible(m) && Linear(m) && Separable(m)
  }

  function Iterate<T>(m: Machine<T>, c: T, n: nat): T
    decreases n, c
  {
    if n == 0 then c else m.step(Iterate(m, c, n - 1))
  }

  function Raise<T>(m: Machine<T>, y: T, n: nat): T
    decreases n, y
  {
    if n == 0 then y else Raise(m, m.up(y), n - 1)
  }

  /** The register after the bytes of `s` went in, starting from `c`. */
  function Fold<T>(m: Machine<T>, c: T, s: bytes): T
    decreases s
  {
    if s == [] then c else Fold(m, Iterate(m, m.xor(c, m.load(s[0])), m.width), s[1..])
  }

  /** The bytes of `w` side by side in one register. */
  function Word<T>(m: Machine<T>, w: bytes): T
    decreases w
  {
    if w == [] then m.zero else m.xor(m.load(w[0]), Raise(m, Word(m, w[1..]), m.width))
  }

  /** The bytes of `w` fit in one register. */
  predicate FitsWord<T>(m: Machine<T>, w: bytes)
    decreases w
  {
    w == [] || (m.room(Word(m, w[1..]), m.width) && FitsWord(m, w[1..]))
  }

  lemma {:induction false} IterateAdd<T>(m: Machine<T>, c: T, i: nat, j: nat)
    ensures Iterate(m, Iterate(m, c, i), j) == Iterate(m, c, i + j)
    decreases j
  {
    if j > 0 {
      IterateAdd(m, c, i, j - 1);
    }
  }

  lemma {:induction false} IterateInjective<T(!new)>(m: Machine<T>, a: T, b: T, n: nat)
    requires Lawful(m) && Iterate(m, a, n) == Iterate(m, b, n)
    ensures a == b
    decreases n
  {
    if n > 0 {
      IterateInjective(m, a, b, n - 1);
    }
  }

  /** What is added after `n` steps could have been added, moved up `n` bits, before them. */
  lemma {:induction false} IterateLinear<T(!new)>(m: Machine<T>, x: T, y: T, n: nat)
    requires Lawful(m) && m.room(y, n)
    ensures m.xor(Iterate(m, x, n), y) == Iterate(m, m.xor(x, Raise(m, y, n)), n)
    decreases n
  {
    if n > 0 {
      IterateLinear(m, x, m.up(y), n - 1);
    } else {
      assert Raise(m, y, 0) == y;
    }
  }

  lemma {:induction false} FoldAppend<T>(m: Machine<T>, c: T, a: bytes, b: bytes)
    ensures Fold(m, c, a + b) == Fold(m, Fold(m, c, a), b)
    decreases a
  {
    if a == [] {
      assert a + b == b;
    } else {
      FoldAppend(m, Iterate(m, m.xor(c, m.load(a[0])), m.width), a[1..], b);
      assert (a + b)[1..] == a[1..] + b;
    }
  }

  /** Registers that differ still differ after any message. */
  lemma {:induction false} FoldInjective<T(!new)>(m: Machine<T>, c: T, d: T, s: bytes)
    requires Lawful(m) && Fold(m, c, s) == Fold(m, d, s)
    ensures c == d
    decreases s
  {
    if s != [] {
      var w := m.load(s[0]);
      FoldInjective(m, Iterate(m, m.xor(c, w), m.width), Iterate(m, m.xor(d, w), m.width), s[1..]);
      IterateInjective(m, m.xor(c, w), m.xor(d, w), m.width);
    }
  }

  lemma LoadByte<T(!new)>(m: Machine<T>, c: T, v: T, t: T, n: nat)
    requires Lawful(m) && m.room(t, m.width)
    ensures Iterate(m, m.xor(Iterate(m, m.xor(c, v), m.width), t), n)
         == Iterate(m, m.xor(c, m.xor(v, Raise(m, t, m.width))), m.width + n)
  {
    var z := m.xor(c, v);
    IterateLinear(m, z, t, m.width);
    IterateAdd(m, m.xor(z, Raise(m, t, m.width)), m.width, n);
  }

  function BitCount<T>(m: Machine<T>, w: bytes): nat {
    if w == [] then 0 else m.width + BitCount(m, w[1..])
  }

  lemma {:induction false} BitCountOfLength<T>(m: Machine<T>, a: bytes, b: bytes)
    requires |a| == |b|
    ensures BitCount(m, a) == BitCount(m, b)
  {
    if a != [] {
      BitCountOfLength(m, a[1..], b[1..]);
    }
  }

  /** Bytes that fit in a register act like one word loaded at the start. */
  lemma {:induction false} FoldOfWord<T(!new)>(m: Machine<T>, c: T, w: bytes)
    requires Lawful(m) && FitsWord(m, w)
    ensures Fold(m, c, w) == Iterate(m, m.xor(c, Word(m, w)), BitCount(m, w))
    decreases w
  {
    if w != [] {
      FoldOfWord(m, Iterate(m, m.xor(c, m.load(w[0])), m.width), w[1..]);
      LoadByte(m, c, m.load(w[0]), Word(m, w[1..]), BitCount(m, w[1..]));
    }
  }

  lemma {:induction false} WordInjective<T(!new)>(m: Machine<T>, a: bytes, b: bytes)
    requires Lawful(m) && |a| == |b| && FitsWord(m, a) && FitsWord(m, b)
    requires Word(m, a) == Word(m, b)
    ensures a == b
    decreases a
  {
    if a != [] {
      var t, u := Word(m, a[1..]), Word(m, b[1..]);
      assert m.xor(m.load(a[0]), Raise(m, t, m.width)) == m.xor(m.load(b[0]), Raise(m, u, m.width));
      WordInjective(m, a[1..], b[1..]);
      assert a == [a[0]] + a[1..] && b == [b[0]] + b[1..];
    }
  }

  /** Two different words at the same place of a message leave different registers. */
  lemma BurstChangesRegister<T(!new)>(m: Machine<T>, c: T, before: bytes, a: bytes, b: bytes, after: bytes)
    requires Lawful(m) && |a| == |b| && FitsWord(m, a) && FitsWord(m, b)
    requires a != b
    ensures Fold(m, c, before + a + after) != Fold(m, c, before + b + after)
  {
    var d := Fold(m, c, before);
    FoldAppend(m, c, before, a);
    FoldAppend(m, c, before, b);
    FoldAppend(m, c, before + a, after);
    FoldAppend(m, c, before + b, after);
    if Fold(m, c, before + a + after) == Fold(m, c, before + b + after) {
      FoldInjective(m, Fold(m, d, a), Fold(m, d, b), after);
      BitCountOfLength(m, a, b);
      FoldOfWord(m, d, a);
      FoldOfWord(m, d, b);
      IterateInjective(m, m.xor(d, Word(m, a)), m.xor(d, Word(m, b)), BitCount(m, a));
      WordInjective(m, a, b);
    }
  }
}
