/** Division facts the other modules share. */
module Arith {

  lemma DivUnique(n: nat, b: nat, q: nat, r: nat)
    requires r < b && n == q * b + r
    ensures n / b == q && n % b == r
  {
    var q', r' := n / b, n % b;
    assert n == q' * b + r';
    if q < q' {
      MulGap(q, q', b);
    } else if q' < q {
      MulGap(q', q, b);
    }
  }

  lemma MulGap(a: nat, c: nat, b: nat)
    requires a < c
    ensures c * b >= a * b + b
  {
    MulMonotone(a + 1, c, b);
  }

  lemma MulMonotone(a: nat, c: nat, b: nat)
    requires a <= c
    ensures a * b <= c * b
  {
    assert c * b == a * b + (c - a) * b;
  }

  /** The largest multiple of `b` in `n`. */
  function RoundDown(n: nat, b: nat): (m: nat)
    requires b > 0
    ensures m <= n < m + b
  {
    if n < b then 0 else b + RoundDown(n - b, b)
  }

  lemma {:induction false} RoundDownIsMultiple(n: nat, b: nat)
    requires b > 0
    ensures RoundDown(n, b) == n / b * b
    ensures RoundDown(n, b) % b == 0
  {
    if n < b {
      DivUnique(n, b, 0, n);
      DivUnique(0, b, 0, 0);
    } else {
      RoundDownIsMultiple(n - b, b);
      var q, r := (n - b) / b, (n - b) % b;
      assert n == (q + 1) * b + r;
      DivUnique(n, b, q + 1, r);
      DivUnique((q + 1) * b, b, q + 1, 0);
    }
  }

  const TWO32 := 0x1_0000_0000

  /** Unsigned 32-bit arithmetic wraps around: the remainder by 2^32, as repeated
      subtraction (see Wrap32IsMod). */
  function Wrap32(n: nat): (r: nat)
    ensures r < TWO32
  {
    if n < TWO32 then n else Wrap32(n - TWO32)
  }

  lemma {:induction false} Wrap32IsMod(n: nat)
    ensures Wrap32(n) == n % 0x1_0000_0000
  {
    if n >= TWO32 { Wrap32IsMod(n - TWO32); }
  }

  lemma {:induction false} WrapSum(n: nat, b: nat)
    ensures Wrap32(Wrap32(n) + b) == Wrap32(n + b)
  {
    if n >= TWO32 { WrapSum(n - TWO32, b); }
  }
}
