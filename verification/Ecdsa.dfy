/** ECDSA as the driver computes it (tegra-se-elp.c), over any cyclic group with inverses. */
module Ecdsa {
  import opened Curves
  import opened Residues

  datatype Signed = TooShort(needed: nat) | Signature(r: nat, s: nat)

  /** tegra_se_ecdsa_sign, for a nonce k and a message hash z. */
  method Sign<P>(c: Curve<P>, nbytes: nat, dstLen: nat, d: nat, k: nat, z: nat) returns (res: Signed)
    requires c.n > 1
    ensures res.TooShort? <==> dstLen < 2 * nbytes
    ensures res.TooShort? ==> res.needed == 2 * nbytes
    ensures res.Signature? ==> IsSignature(c, d, k, z, res.r, res.s)
  {
    if dstLen < 2 * nbytes {
      return TooShort(2 * nbytes);
    }
    var x1y1 := c.mul(k, c.g);
    var r := Rem(c.x(x1y1), c.n);
    var kInv := c.inv(k);
    var dr := Rem(Mul(d, r), c.n);
    var zdr := Rem(z + dr, c.n);
    var s := Rem(Mul(kInv, zdr), c.n);
    RemAdd(Mul(d, r), z, c.n);
    RemMul(z + Mul(d, r), kInv, c.n);
    res := Signature(r, s);
  }

  /** The signature equations of section 4.1.3 of SEC 1: r from the nonce's point, and s the
      quotient of z + d r by the nonce. */
  ghost predicate IsSignature<P>(c: Curve<P>, d: nat, k: nat, z: nat, r: nat, s: nat)
    requires c.n > 0
  {
    r == Rem(c.x(c.mul(k, c.g)), c.n) && s == Rem(Mul(c.inv(k), z + Mul(d, r)), c.n)
  }

  /** tegra_se_ecdsa_verify, for a public point q: whichever secret it belongs to, the check
      passes exactly if r comes from the point (z + d r) / s. */
  method Verify<P>(c: Curve<P>, q: P, r: nat, s: nat, z: nat) returns (ok: bool)
    requires c.n > 0
    ensures ok <==> Accepts(c, q, r, s, z)
    ensures forall d: nat :: Cyclic(c) && q == c.mul(d, c.g) ==>
      (ok <==> Rem(c.x(c.mul(Mul(c.inv(s), z + Mul(d, r)), c.g)), c.n) == r)
  {
    var w := c.inv(s);
    var u1 := Rem(Mul(z, w), c.n);
    var u2 := Rem(Mul(r, w), c.n);
    var x2y2 := c.add(c.mul(u1, c.g), c.mul(u2, q));
    var v := Rem(c.x(x2y2), c.n);
    ok := v == r;
    forall d: nat | Cyclic(c) && q == c.mul(d, c.g)
      ensures ok <==> Rem(c.x(c.mul(Mul(c.inv(s), z + Mul(d, r)), c.g)), c.n) == r
    {
      VerifiedPoint(c, d, r, s, z);
    }
  }

  /** The check of section 4.1.4 of SEC 1. */
  predicate Accepts<P>(c: Curve<P>, q: P, r: nat, s: nat, z: nat)
    requires c.n > 0
  {
    var w := c.inv(s);
    Rem(c.x(c.add(c.mul(Rem(Mul(z, w), c.n), c.g), c.mul(Rem(Mul(r, w), c.n), q))), c.n) == r
  }

  /** What verifying looks at, whatever the signature: the point (z + d r) / s. */
  lemma VerifiedPoint<P>(c: Curve<P>, d: nat, r: nat, s: nat, z: nat)
    requires Cyclic(c)
    ensures Accepts(c, c.mul(d, c.g), r, s, z) <==>
      Rem(c.x(c.mul(Mul(c.inv(s), z + Mul(d, r)), c.g)), c.n) == r
  {
    var w := c.inv(s);
    var u1, u2 := Rem(Mul(z, w), c.n), Rem(Mul(r, w), c.n);
    var m := Mul(w, z + Mul(d, r));
    Combined(z, r, w, d, c.n);
    SumOfMultiples(c, u1, u2, d, m);
  }

  /** z w + (r w) d is w (z + d r). */
  lemma Combined(z: nat, r: nat, w: nat, d: nat, n: nat)
    requires n > 0
    ensures Rem(Rem(Mul(z, w), n) + Mul(Rem(Mul(r, w), n), d), n) == Rem(Mul(w, z + Mul(d, r)), n)
  {
    RemMul(Mul(r, w), d, n);
    SumOfReduced(Mul(z, w), Mul(Rem(Mul(r, w), n), d), Mul(Mul(r, w), d), n);
    MulCommutes(Mul(r, w), d);
    MulAssociates(d, r, w);
    MulAdd(z, Mul(d, r), w);
    MulCommutes(w, z + Mul(d, r));
  }

  /** Verify accepts every signature that Sign makes, for every key, nonce and hash with an
      invertible nonce and an invertible s: u1 + u2 d is the nonce again. */
  lemma VerifyAcceptsSign<P>(c: Curve<P>, d: nat, k: nat, z: nat, r: nat, s: nat)
    requires Cyclic(c) && Inverts(c) && Rem(k, c.n) != 0 && Rem(s, c.n) != 0
    requires IsSignature(c, d, k, z, r, s)
    ensures Accepts(c, c.mul(d, c.g), r, s, z)
  {
    VerifiedPoint(c, d, r, s, z);
    var m := z + Mul(d, r);
    NonceMultiple(c, k, s, m);
  }

  lemma NonceMultiple<P>(c: Curve<P>, k: nat, s: nat, m: nat)
    requires Cyclic(c) && Inverts(c) && Rem(k, c.n) != 0 && Rem(s, c.n) != 0
    requires s == Rem(Mul(c.inv(k), m), c.n)
    ensures c.mul(Mul(c.inv(s), m), c.g) == c.mul(k, c.g)
  {
    NonceAgain(c.n, k, s, m, c.inv(k), c.inv(s));
    SameMultiple(c, Mul(c.inv(s), m), k);
  }

  /** If s is m / k, then m / s is k. */
  lemma NonceAgain(n: nat, k: nat, s: nat, m: nat, v: nat, w: nat)
    requires n > 1 && Rem(Mul(v, k), n) == 1 && Rem(Mul(w, s), n) == 1 && s == Rem(Mul(v, m), n)
    ensures Rem(Mul(w, m), n) == Rem(k, n)
  {
    RemMul(Mul(v, m), Mul(w, k), n);
    Swap(w, k, v, m);
    RemMul(Mul(v, k), Mul(w, m), n);
    MulOne(Mul(w, m));
    SwapLast(w, k, s);
    RemMul(Mul(w, s), k, n);
    MulOne(k);
  }

  /** (w k) (v m) is (v k) (w m). */
  lemma Swap(w: nat, k: nat, v: nat, m: nat)
    ensures Mul(Mul(w, k), Mul(v, m)) == Mul(Mul(v, k), Mul(w, m))
  {
    MulAssociates(Mul(w, k), v, m);
    SwapLast(w, k, v);
    MulCommutes(w, v);
    SwapLast(v, w, k);
    MulAssociates(Mul(v, k), w, m);
  }

  /** (a b) c is (a c) b. */
  lemma SwapLast(a: nat, b: nat, c: nat)
    ensures Mul(Mul(a, b), c) == Mul(Mul(a, c), b)
  {
    MulAssociates(a, b, c);
    MulCommutes(b, c);
    MulAssociates(a, c, b);
  }
}
