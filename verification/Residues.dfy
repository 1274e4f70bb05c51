/** Products and remainders of the naturals, by repeated addition and subtraction, and how
    they go together. The public-key accelerator computes with numbers of any size; these
    are its multiplication and its reduction. */
module Residues {
  function Mul(a: nat, b: nat): nat {
    if b == 0 then 0 else Mul(a, b - 1) + a
  }

  function Rem(a: nat, n: nat): (r: nat)
    requires n > 0
    ensures r < n
  {
    if a < n then a else Rem(a - n, n)
  }

  /** They are the product and the remainder. */
  lemma {:induction false} MulIsProduct(a: nat, b: nat)
    ensures Mul(a, b) == a * b
  {
    if b > 0 {
      MulIsProduct(a, b - 1);
      assert a * b == a * (b - 1) + a;
    }
  }

  lemma {:induction false} RemIsRemainder(a: nat, n: nat)
    requires n > 0
    ensures exists q: nat :: a == Mul(n, q) + Rem(a, n)
  {
    if a < n {
      assert a == Mul(n, 0) + Rem(a, n);
    } else {
      RemIsRemainder(a - n, n);
      var q: nat :| a - n == Mul(n, q) + Rem(a - n, n);
      assert a == Mul(n, q + 1) + Rem(a, n);
    }
  }

  lemma {:induction false} MulAdd(a: nat, b: nat, c: nat)
    ensures Mul(a + b, c) == Mul(a, c) + Mul(b, c)
  {
    if c > 0 { MulAdd(a, b, c - 1); }
  }

  lemma {:induction false} MulZero(a: nat)
    ensures Mul(0, a) == 0
  {
    if a > 0 { MulZero(a - 1); }
  }

  lemma {:induction false} MulOne(a: nat)
    ensures Mul(1, a) == a
  {
    if a > 0 { MulOne(a - 1); }
  }

  lemma {:induction false} MulCommutes(a: nat, b: nat)
    ensures Mul(a, b) == Mul(b, a)
  {
    if b == 0 {
      MulZero(a);
    } else {
      MulCommutes(a, b - 1);
      MulAdd(b - 1, 1, a);
      MulOne(a);
    }
  }

  lemma {:induction false} MulAssociates(a: nat, b: nat, c: nat)
    ensures Mul(Mul(a, b), c) == Mul(a, Mul(b, c))
  {
    if c > 0 {
      MulAssociates(a, b, c - 1);
      MulCommutes(a, Mul(b, c));
      MulCommutes(a, Mul(b, c - 1));
      MulCommutes(a, b);
      MulAdd(Mul(b, c - 1), b, a);
    }
  }

  /** Reducing a summand first makes no difference. */
  lemma {:induction false} RemAdd(a: nat, b: nat, n: nat)
    requires n > 0
    ensures Rem(Rem(a, n) + b, n) == Rem(a + b, n)
    ensures Rem(b + Rem(a, n), n) == Rem(b + a, n)
    decreases a
  {
    if a >= n { RemAdd(a - n, b, n); }
  }

  /** Nor does reducing a factor. */
  lemma {:induction false} RemMul(a: nat, b: nat, n: nat)
    requires n > 0
    ensures Rem(Mul(Rem(a, n), b), n) == Rem(Mul(a, b), n)
    ensures Rem(Mul(b, Rem(a, n)), n) == Rem(Mul(b, a), n)
    decreases b
  {
    MulCommutes(Rem(a, n), b);
    MulCommutes(a, b);
    if b > 0 {
      RemMul(a, b - 1, n);
      RemAdd(Mul(Rem(a, n), b - 1), Rem(a, n), n);
      RemAdd(Mul(a, b - 1), Rem(a, n), n);
      RemAdd(a, Mul(a, b - 1), n);
    }
  }

  lemma SumOfReduced(a: nat, b: nat, b': nat, n: nat)
    requires n > 0 && Rem(b, n) == Rem(b', n)
    ensures Rem(Rem(a, n) + b, n) == Rem(a + b', n)
  {
    RemAdd(a, b, n);
    RemAdd(b, a, n);
    RemAdd(b', a, n);
  }

  lemma RemSmall(a: nat, n: nat)
    requires a < n
    ensures Rem(a, n) == a
  {
  }
}
