/** The elliptic-curve arithmetic of the public-key accelerator, as parameters: all that is
    known of the points is the group they form. */
module Curves {
  import opened Residues

  /** A curve: the order of its base point, point arithmetic, the inverse the accelerator
      computes, and a point's first coordinate. */
  datatype Curve<!P> = Curve(n: nat, g: P, add: (P, P) -> P, mul: (nat, P) -> P, inv: nat -> nat,
                             x: P -> nat)

  /** The multiples of the base point form a cyclic group of order n. */
  ghost predicate Cyclic<P>(c: Curve<P>) {
    c.n > 1 && MultipleLaw(c) && SumLaw(c) && OrderLaw(c)
  }

  ghost predicate MultipleLaw<P>(c: Curve<P>) {
    forall a: nat, b: nat {:trigger c.mul(a, c.mul(b, c.g))} :: c.mul(a, c.mul(b, c.g)) == c.mul(Mul(a, b), c.g)
  }

  ghost predicate SumLaw<P>(c: Curve<P>) {
    forall a: nat, b: nat {:trigger c.add(c.mul(a, c.g), c.mul(b, c.g))} ::
      c.add(c.mul(a, c.g), c.mul(b, c.g)) == c.mul(a + b, c.g)
  }

  ghost predicate OrderLaw<P>(c: Curve<P>)
    requires c.n > 0
  {
    forall a: nat {:trigger c.mul(Rem(a, c.n), c.g)} :: c.mul(Rem(a, c.n), c.g) == c.mul(a, c.g)
  }

  /** For a prime order every number that is not a multiple of it has an inverse. */
  ghost predicate Inverts<P>(c: Curve<P>) {
    c.n > 1 && forall a: nat {:trigger c.inv(a)} :: Rem(a, c.n) != 0 ==> Rem(Mul(c.inv(a), a), c.n) == 1
  }

  /** Scalars with the same remainder give the same multiple. */
  lemma SameMultiple<P>(c: Curve<P>, a: nat, b: nat)
    requires Cyclic(c) && Rem(a, c.n) == Rem(b, c.n)
    ensures c.mul(a, c.g) == c.mul(b, c.g)
  {
    assert c.mul(Rem(a, c.n), c.g) == c.mul(a, c.g);
    assert c.mul(Rem(b, c.n), c.g) == c.mul(b, c.g);
  }

  /** A multiple of the base point plus a multiple of a multiple. */
  lemma SumOfMultiples<P>(c: Curve<P>, u1: nat, u2: nat, d: nat, m: nat)
    requires Cyclic(c) && Rem(u1 + Mul(u2, d), c.n) == Rem(m, c.n)
    ensures c.add(c.mul(u1, c.g), c.mul(u2, c.mul(d, c.g))) == c.mul(m, c.g)
  {
    var u2d := Mul(u2, d);
    assert c.mul(u2, c.mul(d, c.g)) == c.mul(u2d, c.g);
    assert c.add(c.mul(u1, c.g), c.mul(u2d, c.g)) == c.mul(u1 + u2d, c.g);
    SameMultiple(c, u1 + u2d, m);
  }

  /** There is such a group of every order: the residues themselves. */
  function ResidueCurve(n: nat, inv: nat -> nat): Curve<nat>
    requires n > 1
  {
    Curve(n, 1, (a, b) => Rem(a + b, n), (a, b) => Rem(Mul(a, b), n), inv, a => a)
  }

  lemma ResiduesAreCyclic(n: nat, inv: nat -> nat)
    requires n > 1
    ensures Cyclic(ResidueCurve(n, inv))
  {
    ResidueMultipleLaw(n, inv);
    ResidueSumLaw(n, inv);
    ResidueOrderLaw(n, inv);
  }

  lemma ResidueMultipleLaw(n: nat, inv: nat -> nat)
    requires n > 1
    ensures MultipleLaw(ResidueCurve(n, inv))
  {
    var c := ResidueCurve(n, inv);
    forall a: nat, b: nat ensures c.mul(a, c.mul(b, c.g)) == c.mul(Mul(a, b), c.g) {
      ResidueMultiple(n, inv, b);
      ResidueMultiple(n, inv, Mul(a, b));
      RemMul(b, a, n);
    }
  }

  lemma ResidueSumLaw(n: nat, inv: nat -> nat)
    requires n > 1
    ensures SumLaw(ResidueCurve(n, inv))
  {
    var c := ResidueCurve(n, inv);
    forall a: nat, b: nat ensures c.add(c.mul(a, c.g), c.mul(b, c.g)) == c.mul(a + b, c.g) {
      ResidueSum(n, inv, a, b);
    }
  }

  lemma ResidueOrderLaw(n: nat, inv: nat -> nat)
    requires n > 1
    ensures OrderLaw(ResidueCurve(n, inv))
  {
    var c := ResidueCurve(n, inv);
    forall a: nat ensures c.mul(Rem(a, n), c.g) == c.mul(a, c.g) {
      ResidueMultiple(n, inv, a);
      ResidueMultiple(n, inv, Rem(a, n));
      RemSmall(Rem(a, n), n);
    }
  }

  lemma ResidueMultiple(n: nat, inv: nat -> nat, a: nat)
    requires n > 1
    ensures var c := ResidueCurve(n, inv); c.mul(a, c.g) == Rem(a, n)
  {
    MulCommutes(a, 1);
    MulOne(a);
  }

  lemma ResidueSum(n: nat, inv: nat -> nat, a: nat, b: nat)
    requires n > 1
    ensures var c := ResidueCurve(n, inv);
      c.add(c.mul(a, c.g), c.mul(b, c.g)) == c.mul(a + b, c.g)
  {
    var c := ResidueCurve(n, inv);
    ResidueMultiple(n, inv, a);
    ResidueMultiple(n, inv, b);
    ResidueMultiple(n, inv, a + b);
    RemAdd(a, Rem(b, n), n);
    RemAdd(b, a, n);
    var x, y := Rem(a, n), Rem(b, n);
    assert c.add(x, y) == Rem(x + y, n);
  }
}
