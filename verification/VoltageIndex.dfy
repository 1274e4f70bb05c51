/** The voltage index table of tegra_cpufreq.c: for every clock divider the least voltage
    index that supports it, filled in one pass. */
module VoltageIndex {
  const MAX_NDIV := 512

  /** What the firmware sends: the divider each voltage index supports. */
  datatype Lut = Lut(vfloor: nat, vceil: nat, ndiv: seq<nat>)

  /** Does index `v` support divider `n`? Entries beyond the table do not count. */
  predicate Supports(lut: Lut, v: nat, n: nat)
    requires v < |lut.ndiv|
  {
    n <= lut.ndiv[v] < MAX_NDIV
  }

  predicate InRange(lut: Lut, v: nat) {
    lut.vfloor <= v <= lut.vceil
  }

  /** The index a divider is owed: the least one that supports it, or the highest one if none
      does. Nothing is assumed of the firmware's order. */
  ghost predicate Owed(lut: Lut, n: nat, v: nat)
    requires lut.vceil < |lut.ndiv|
  {
    || (InRange(lut, v) && Supports(lut, v, n) && NoneBelow(lut, n, v))
    || (v == lut.vceil && NoneBelow(lut, n, lut.vceil + 1))
  }

  ghost predicate NoneBelow(lut: Lut, n: nat, v: nat)
    requires lut.vceil < |lut.ndiv| && v <= lut.vceil + 1
  {
    forall u :: lut.vfloor <= u < v ==> !Supports(lut, u, n)
  }

  /** Each of the first `n` entries once, from the first on. */
  ghost predicate InOrder(writes: seq<nat>, n: nat) {
    |writes| == n && forall k :: 0 <= k < n ==> writes[k] == k
  }

  /** create_ndiv_to_vindex_table for one cluster. The index is a byte, so with a ceiling of
      255 the loop would not end. Every entry is written once, in order: `writes` lists the
      entries as they are written. */
  method CreateNdivToVindexTable(lut: Lut) returns (vindx: array<nat>, ghost writes: seq<nat>)
    requires lut.vceil < 255 && lut.vceil < |lut.ndiv|
    ensures fresh(vindx) && vindx.Length == MAX_NDIV
    ensures forall n :: 0 <= n < MAX_NDIV ==> Owed(lut, n, vindx[n])
    ensures InOrder(writes, MAX_NDIV)
  {
    vindx := new nat[MAX_NDIV];
    var i, v := 0, lut.vfloor;
    writes := [];
    while v <= lut.vceil
      invariant i <= MAX_NDIV && InOrder(writes, i) && lut.vfloor <= v && (v <= lut.vceil + 1 || v == lut.vfloor)
      invariant forall n :: 0 <= n < i ==> Owed(lut, n, vindx[n])
      invariant v <= lut.vceil + 1 ==> forall n :: i <= n < MAX_NDIV ==> NoneBelow(lut, n, v)
    {
      var midNdiv := lut.ndiv[v];
      while midNdiv < MAX_NDIV && i <= midNdiv
        invariant i <= MAX_NDIV && InOrder(writes, i)
        invariant forall n :: 0 <= n < i ==> Owed(lut, n, vindx[n])
        invariant forall n :: i <= n < MAX_NDIV ==> NoneBelow(lut, n, v)
      {
        vindx[i], writes := v, writes + [i];
        i := i + 1;
      }
      ghost var next := v + 1;
      forall n | i <= n < MAX_NDIV ensures NoneBelow(lut, n, next) {
        assert NoneBelow(lut, n, v) && !Supports(lut, v, n);
      }
      v := v + 1;
    }
    while i < MAX_NDIV
      invariant i <= MAX_NDIV && InOrder(writes, i)
      invariant forall n :: 0 <= n < i ==> Owed(lut, n, vindx[n])
    {
      vindx[i], writes := lut.vceil, writes + [i];
      i := i + 1;
    }
  }

  /** A divider is owed one index only. */
  lemma OwedUnique(lut: Lut, n: nat, v: nat, w: nat)
    requires lut.vceil < |lut.ndiv| && Owed(lut, n, v) && Owed(lut, n, w)
    ensures v == w
  {
  }

  /** The index never falls as the divider rises. */
  lemma OwedAscends(lut: Lut, n: nat, m: nat, v: nat, w: nat)
    requires lut.vceil < |lut.ndiv| && n <= m && Owed(lut, n, v) && Owed(lut, m, w)
    ensures v <= w
  {
    if w < v {
      assert Supports(lut, w, m);
      assert Supports(lut, w, n);
    }
  }

  /** An index that is owed supports the divider, unless no index does. */
  lemma OwedIsEnough(lut: Lut, n: nat, v: nat, u: nat)
    requires lut.vceil < |lut.ndiv| && Owed(lut, n, v) && InRange(lut, u) && Supports(lut, u, n)
    ensures Supports(lut, v, n) && v <= u
  {
  }
}
