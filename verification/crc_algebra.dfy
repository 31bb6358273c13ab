/** Why a CRC register catches bursts, told of any register with the right algebra. The laws are
    all that the argument uses; module Crc shows that the 64-bit register obeys them. */
module CrcAlgebra {
  import opened Bytes

  /** Feeding bytes into a register. */
  function Fold<R>(f: (R, byte) -> R, r: R, data: Bytes): R
    decreases |data|
  {
    if data == [] then r else Fold(f, f(r, data[0]), data[1..])
  }

  /** A loop over the bytes folds them one after the other. */
  lemma {:induction false} FoldNext<R>(f: (R, byte) -> R, r: R, data: Bytes, i: nat)
    requires i < |data|
    ensures Fold(f, r, data[i..]) == Fold(f, f(r, data[i]), data[i + 1..])
  {
    assert data[i..][1..] == data[i + 1..];
  }

  lemma {:induction false} FoldFrom<R>(f: (R, byte) -> R, r: R, data: Bytes)
    ensures data[0..] == data && Fold(f, r, data[|data|..]) == r
  {
  }

  lemma {:induction false} FoldConcat<R>(f: (R, byte) -> R, r: R, a: Bytes, b: Bytes)
    ensures Fold(f, r, a + b) == Fold(f, Fold(f, r, a), b)
    decreases |a|
  {
    if a == [] {
      assert a + b == b;
    } else {
      assert (a + b)[1..] == a[1..] + b;
      FoldConcat(f, f(r, a[0]), a[1..], b);
    }
  }

  function Iterate<R>(f: R -> R, x: R, k: nat): R {
    if k == 0 then x else f(Iterate(f, x, k - 1))
  }

  lemma {:induction false} IterateLinear<R(!new)>(f: R -> R, xor: (R, R) -> R, a: R, b: R, k: nat)
    requires forall x, y :: f(xor(x, y)) == xor(f(x), f(y))
    ensures Iterate(f, xor(a, b), k) == xor(Iterate(f, a, k), Iterate(f, b, k))
  {
    if k > 0 {
      IterateLinear(f, xor, a, b, k - 1);
    }
  }

  lemma {:induction false} IterateInjective<R(!new)>(f: R -> R, a: R, b: R, k: nat)
    requires forall x, y :: f(x) == f(y) ==> x == y
    requires Iterate(f, a, k) == Iterate(f, b, k)
    ensures a == b
  {
    if k > 0 {
      IterateInjective(f, a, b, k - 1);
    }
  }

  /** xor of registers and bytes, eight bit steps, their inverse on small values, and
      "the value occupies at most k low bytes". */
  datatype Algebra<!R> = Algebra(zero: R, xor: (R, R) -> R, ofByte: byte -> R, turn: R -> R, lift: R -> R,
    fits: (R, nat) -> bool) {

    function Step(r: R, b: byte): R {
      turn(xor(r, ofByte(b)))
    }

    function Delta(a: byte, b: byte): R {
      xor(ofByte(a), ofByte(b))
    }
  }

  ghost predicate Lawful<R(!new)>(g: Algebra<R>) {
    && (forall x, y :: g.xor(x, y) == g.zero <==> x == y)
    && (forall x :: g.xor(g.zero, x) == x)
    && (forall x, y :: g.turn(x) == g.turn(y) ==> x == y)
    && (forall a, b :: g.ofByte(a) == g.ofByte(b) ==> a == b)
    && (forall r, q, a, b :: DiffLaw(g, r, q, a, b))
  }

  /** The difference of two runs evolves by itself. */
  ghost predicate DiffLaw<R(!new)>(g: Algebra<R>, r: R, q: R, a: byte, b: byte) {
    g.xor(g.Step(r, a), g.Step(q, b)) == g.turn(g.xor(g.xor(r, q), g.Delta(a, b)))
  }

  ghost predicate Commutative<R(!new)>(xor: (R, R) -> R) {
    && (forall x, y, z :: xor(xor(x, y), z) == xor(x, xor(y, z)))
    && (forall x, y, z :: xor(x, xor(y, z)) == xor(y, xor(x, z)))
  }

  ghost predicate Linear<R(!new)>(turn: R -> R, xor: (R, R) -> R) {
    forall x, y :: turn(xor(x, y)) == xor(turn(x), turn(y))
  }

  lemma {:induction false} Regroup<R(!new)>(xor: (R, R) -> R, x: R, y: R, p: R, q: R)
    requires Commutative(xor)
    ensures xor(xor(x, p), xor(y, q)) == xor(xor(x, y), xor(p, q))
  {
    assert xor(xor(x, p), xor(y, q)) == xor(x, xor(p, xor(y, q)));
    assert xor(p, xor(y, q)) == xor(y, xor(p, q));
  }

  lemma {:induction false} DifferenceStep<R(!new)>(g: Algebra<R>, r: R, q: R, a: byte, b: byte)
    requires Commutative(g.xor) && Linear(g.turn, g.xor)
    ensures DiffLaw(g, r, q, a, b)
  {
    Regroup(g.xor, r, q, g.ofByte(a), g.ofByte(b));
  }

  ghost predicate Sized<R(!new)>(g: Algebra<R>) {
    && (forall x :: g.fits(x, 0) <==> x == g.zero)
    && (forall a, b, k: nat :: 1 <= k ==> g.fits(g.Delta(a, b), k))
    && (forall x, y, k: nat :: XorLaw(g, x, y, k))
    && (forall y, k: nat :: LiftLaw(g, y, k))
  }

  ghost predicate XorLaw<R(!new)>(g: Algebra<R>, x: R, y: R, k: nat) {
    g.fits(y, k) && g.fits(g.xor(x, y), k) ==> g.fits(x, k)
  }

  /** A value of at most seven bytes comes back from its lift, which leaves the low byte empty. */
  ghost predicate LiftLaw<R(!new)>(g: Algebra<R>, y: R, k: nat) {
    k <= 7 && g.fits(y, k) ==>
      && g.turn(g.lift(y)) == y && g.fits(g.lift(y), k + 1)
      && (g.fits(g.lift(y), 1) ==> y == g.zero && g.lift(y) == g.zero)
  }

  /** The difference register driven by two byte strings. */
  ghost function Diff<R>(g: Algebra<R>, d: R, a: Bytes, b: Bytes): R
    requires |a| == |b|
    decreases |a|
  {
    if a == [] then d else Diff(g, g.turn(g.xor(d, g.Delta(a[0], b[0]))), a[1..], b[1..])
  }

  lemma {:induction false} DiffIsDifference<R(!new)>(g: Algebra<R>, f: (R, byte) -> R, r: R, q: R, a: Bytes, b: Bytes)
    requires Lawful(g) && |a| == |b| && forall x, c :: f(x, c) == g.Step(x, c)
    ensures g.xor(Fold(f, r, a), Fold(f, q, b)) == Diff(g, g.xor(r, q), a, b)
    decreases |a|
  {
    if a != [] {
      assert DiffLaw(g, r, q, a[0], b[0]);
      DiffIsDifference(g, f, f(r, a[0]), f(q, b[0]), a[1..], b[1..]);
    }
  }

  /** A difference that dies within m bytes has at most m low bytes. */
  lemma {:induction false} DyingDifferenceFits<R(!new)>(g: Algebra<R>, d: R, a: Bytes, b: Bytes)
    requires Lawful(g) && Sized(g) && |a| == |b| <= 8 && Diff(g, d, a, b) == g.zero
    ensures g.fits(d, |a|)
    decreases |a|
  {
    if a != [] {
      var delta := g.Delta(a[0], b[0]);
      var next := g.turn(g.xor(d, delta));
      DyingDifferenceFits(g, next, a[1..], b[1..]);
      assert LiftLaw(g, next, |a| - 1) && XorLaw(g, d, delta, |a|);
      assert g.xor(d, delta) == g.lift(next);
      assert g.fits(delta, |a|);
    }
  }

  /** Starting equal, at most eight bytes can end equal only if they are equal. */
  lemma {:induction false} WindowIsInjective<R(!new)>(g: Algebra<R>, a: Bytes, b: Bytes)
    requires Lawful(g) && Sized(g) && |a| == |b| <= 8 && Diff(g, g.zero, a, b) == g.zero
    ensures a == b
    decreases |a|
  {
    if a != [] {
      var delta := g.Delta(a[0], b[0]);
      var next := g.turn(g.xor(g.zero, delta));
      DyingDifferenceFits(g, next, a[1..], b[1..]);
      assert LiftLaw(g, next, |a| - 1);
      assert delta == g.lift(next);
      assert g.fits(delta, 1);
      assert next == g.zero && delta == g.zero;
      WindowIsInjective(g, a[1..], b[1..]);
      assert a == [a[0]] + a[1..] && b == [b[0]] + b[1..];
    }
  }

  lemma {:induction false} SuffixKeepsDifference<R(!new)>(g: Algebra<R>, f: (R, byte) -> R, r: R, q: R, s: Bytes)
    requires Lawful(g) && r != q && forall x, c :: f(x, c) == g.Step(x, c)
    ensures Fold(f, r, s) != Fold(f, q, s)
    decreases |s|
  {
    if s != [] {
      if g.Step(r, s[0]) == g.Step(q, s[0]) {
        StepIsInjective(g, r, q, s[0]);
      }
      SuffixKeepsDifference(g, f, f(r, s[0]), f(q, s[0]), s[1..]);
    }
  }

  lemma {:induction false} StepIsInjective<R(!new)>(g: Algebra<R>, r: R, q: R, c: byte)
    requires Lawful(g) && g.Step(r, c) == g.Step(q, c)
    ensures r == q
  {
    assert DiffLaw(g, r, q, c, c);
    assert DiffLaw(g, r, r, c, c);
  }

  /** A change inside one window of at most eight bytes changes the register for good. */
  lemma {:induction false} BurstChangesFold<R(!new)>(g: Algebra<R>, f: (R, byte) -> R, r: R, p: Bytes, a: Bytes,
                                              b: Bytes, s: Bytes)
    requires Lawful(g) && Sized(g) && |a| == |b| <= 8 && a != b
    requires forall x, c :: f(x, c) == g.Step(x, c)
    ensures Fold(f, r, p + a + s) != Fold(f, r, p + b + s)
  {
    FoldConcat(f, r, p + a, s);
    FoldConcat(f, r, p + b, s);
    FoldConcat(f, r, p, a);
    FoldConcat(f, r, p, b);
    var m := Fold(f, r, p);
    DiffIsDifference(g, f, m, m, a, b);
    if Fold(f, m, a) == Fold(f, m, b) {
      WindowIsInjective(g, a, b);
    }
    SuffixKeepsDifference(g, f, Fold(f, m, a), Fold(f, m, b), s);
  }
}
