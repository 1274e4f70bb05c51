/** The device page table of hmm_dmirror.c: four levels of table pages, and the walk that
    runs a callback over a range. Addresses are counted in pages, and masks and shifts are
    written as quotients and remainders. */
module MirrorTable {
  import opened MirrorFlat
  import opened Arith

  /** Slots in a table page, level by level. */
  datatype Dims = Dims(pte: nat, pmd: nat, pud: nat, pgd: nat)

  predicate Proper(d: Dims) {
    d.pte > 0 && d.pmd > 0 && d.pud > 0 && d.pgd > 0
  }

  function Span(d: Dims): nat {
    d.pgd * d.pud * d.pmd * d.pte
  }

  // ---------------------------------------------------------------- indices

  /** Which leaf table, middle table and upper table an address is in, counted over the whole
      span. */
  function LeafNo(d: Dims, a: nat): nat requires Proper(d) { a / d.pte }
  function MidNo(d: Dims, a: nat): nat requires Proper(d) { LeafNo(d, a) / d.pmd }
  function TopNo(d: Dims, a: nat): nat requires Proper(d) { MidNo(d, a) / d.pud }

  /** dmirror_pt_pte, dmirror_pt_pmd, dmirror_pt_pud and dmirror_pt_pgd */
  function PteIndex(d: Dims, a: nat): nat requires Proper(d) { a % d.pte }
  function PmdIndex(d: Dims, a: nat): nat requires Proper(d) { LeafNo(d, a) % d.pmd }
  function PudIndex(d: Dims, a: nat): nat requires Proper(d) { MidNo(d, a) % d.pud }
  function PgdIndex(d: Dims, a: nat): nat requires Proper(d) { TopNo(d, a) % d.pgd }

  /** dmirror_pt_pte_end, dmirror_pt_pmd_end and dmirror_pt_pud_end */
  function PteEnd(d: Dims, a: nat): nat requires Proper(d) { (LeafNo(d, a) + 1) * d.pte }
  function PmdEnd(d: Dims, a: nat): nat requires Proper(d) { (MidNo(d, a) + 1) * d.pmd * d.pte }
  function PudEnd(d: Dims, a: nat): nat requires Proper(d) { (TopNo(d, a) + 1) * d.pud * d.pmd * d.pte }

  /** A quotient that is followed by another one. */
  lemma Block(n: nat, b: nat, q: nat, c: nat)
    requires b > 0 && q == n / b && q * b <= c < (q + 1) * b
    ensures c / b == q && c % b == c - q * b
  {
    DivUnique(c, b, q, c - q * b);
  }

  /** The next block starts where this one ends. */
  lemma NextBlock(q: nat, b: nat)
    requires b > 0
    ensures ((q + 1) * b) / b == q + 1 && ((q + 1) * b) % b == 0
    ensures q / b == (q + 1) / b <==> q % b + 1 < b
    ensures q % b + 1 < b ==> (q + 1) % b == q % b + 1
    ensures q % b + 1 == b ==> q + 1 == (q / b + 1) * b
  {
    DivUnique((q + 1) * b, b, q + 1, 0);
    if q % b + 1 < b {
      DivUnique(q + 1, b, q / b, q % b + 1);
    } else {
      DivUnique(q + 1, b, q / b + 1, 0);
    }
  }

  lemma InBlock(n: nat, b: nat)
    requires b > 0
    ensures n / b * b <= n < (n / b + 1) * b
  {
  }

  /** Within its leaf table an address only moves its last index; behind the leaf table comes
      the next slot of the same middle table, or that one ends too. */
  lemma LeafRange(d: Dims, a: nat)
    requires Proper(d)
    ensures a < PteEnd(d, a)
    ensures forall b :: a <= b < PteEnd(d, a) ==>
      LeafNo(d, b) == LeafNo(d, a) && PteIndex(d, b) == PteIndex(d, a) + (b - a) < d.pte
    ensures PteEnd(d, a) <= PmdEnd(d, a)
    ensures if PmdIndex(d, a) + 1 < d.pmd
            then MidNo(d, PteEnd(d, a)) == MidNo(d, a) && PmdIndex(d, PteEnd(d, a)) == PmdIndex(d, a) + 1
            else PteEnd(d, a) == PmdEnd(d, a)
  {
    var p := LeafNo(d, a);
    InBlock(a, d.pte);
    forall b | a <= b < PteEnd(d, a) ensures LeafNo(d, b) == p && PteIndex(d, b) == b - p * d.pte {
      Block(a, d.pte, p, b);
    }
    Block(a, d.pte, p, a);
    NextBlock(p, d.pte);
    NextBlock(p, d.pmd);
    InBlock(p, d.pmd);
    MulMonotone(p + 1, (p / d.pmd + 1) * d.pmd, d.pte);
  }

  lemma MidRange(d: Dims, a: nat)
    requires Proper(d)
    ensures a < PmdEnd(d, a) <= PudEnd(d, a)
    ensures forall b :: a <= b < PmdEnd(d, a) ==> MidNo(d, b) == MidNo(d, a)
    ensures if PudIndex(d, a) + 1 < d.pud
            then TopNo(d, PmdEnd(d, a)) == TopNo(d, a) && PudIndex(d, PmdEnd(d, a)) == PudIndex(d, a) + 1
            else PmdEnd(d, a) == PudEnd(d, a)
    ensures PmdIndex(d, PmdEnd(d, a)) == 0
  {
    var q := MidNo(d, a);
    LeafRange(d, a);
    MidBlock(d, a);
    MidStart(d, q + 1);
    NextBlock(q, d.pud);
    InBlock(q, d.pud);
    MulMonotone(q + 1, (q / d.pud + 1) * d.pud, d.pmd);
    MulMonotone((q + 1) * d.pmd, (q / d.pud + 1) * d.pud * d.pmd, d.pte);
  }

  lemma MidBlock(d: Dims, a: nat)
    requires Proper(d)
    ensures forall b :: a <= b < PmdEnd(d, a) ==> MidNo(d, b) == MidNo(d, a)
  {
    var p, q := LeafNo(d, a), MidNo(d, a);
    forall b | a <= b < PmdEnd(d, a) ensures MidNo(d, b) == q {
      var p' := LeafNo(d, b);
      InBlock(a, d.pte);
      InBlock(b, d.pte);
      InBlock(p, d.pmd);
      if p' < p { MulMonotone(p' + 1, p, d.pte); }
      if p' >= (q + 1) * d.pmd { MulMonotone((q + 1) * d.pmd, p', d.pte); }
      Block(p, d.pmd, q, p');
    }
  }

  lemma MidStart(d: Dims, q: nat)
    requires Proper(d)
    ensures LeafNo(d, q * d.pmd * d.pte) == q * d.pmd && MidNo(d, q * d.pmd * d.pte) == q
    ensures PmdIndex(d, q * d.pmd * d.pte) == 0
  {
    DivUnique(q * d.pmd * d.pte, d.pte, q * d.pmd, 0);
    DivUnique(q * d.pmd, d.pmd, q, 0);
  }

  lemma TopRange(d: Dims, a: nat)
    requires Proper(d)
    ensures a < PudEnd(d, a)
    ensures forall b :: a <= b < PudEnd(d, a) ==> TopNo(d, b) == TopNo(d, a)
    ensures TopNo(d, PudEnd(d, a)) == TopNo(d, a) + 1
  {
    MidRange(d, a);
    var q, g := MidNo(d, a), TopNo(d, a);
    forall b | a <= b < PudEnd(d, a) ensures TopNo(d, b) == g {
      TopBlock(d, a, b);
    }
    MidStart(d, (g + 1) * d.pud);
    DivUnique((g + 1) * d.pud, d.pud, g + 1, 0);
  }

  lemma TopBlock(d: Dims, a: nat, b: nat)
    requires Proper(d) && a <= b < PudEnd(d, a)
    ensures TopNo(d, b) == TopNo(d, a)
  {
    var q, g, q' := MidNo(d, a), TopNo(d, a), MidNo(d, b);
    MidMonotone(d, a, b);
    InBlock(q, d.pud);
    if q' >= (g + 1) * d.pud {
      MidFloor(d, b);
      MulMonotone((g + 1) * d.pud, q', d.pmd);
      MulMonotone((g + 1) * d.pud * d.pmd, q' * d.pmd, d.pte);
    }
    Block(q, d.pud, g, q');
  }

  lemma MidFloor(d: Dims, a: nat)
    requires Proper(d)
    ensures MidNo(d, a) * d.pmd * d.pte <= a
  {
    InBlock(a, d.pte);
    InBlock(LeafNo(d, a), d.pmd);
    MulMonotone(MidNo(d, a) * d.pmd, LeafNo(d, a), d.pte);
  }

  lemma MidMonotone(d: Dims, a: nat, b: nat)
    requires Proper(d) && a <= b
    ensures MidNo(d, a) <= MidNo(d, b)
  {
    DivMonotone(a, b, d.pte);
    DivMonotone(LeafNo(d, a), LeafNo(d, b), d.pmd);
  }

  lemma DivMonotone(a: nat, b: nat, n: nat)
    requires n > 0 && a <= b
    ensures a / n <= b / n
  {
    InBlock(a, n);
    InBlock(b, n);
    if b / n < a / n { MulMonotone(b / n + 1, a / n, n); }
  }

  /** An address of the span is in one of the upper tables. */
  lemma TopBound(d: Dims, a: nat)
    requires Proper(d) && a < Span(d)
    ensures PgdIndex(d, a) == TopNo(d, a) < d.pgd
  {
    var g := TopNo(d, a);
    MidFloor(d, a);
    InBlock(MidNo(d, a), d.pud);
    MulMonotone(g * d.pud, MidNo(d, a), d.pmd);
    MulMonotone(g * d.pud * d.pmd, MidNo(d, a) * d.pmd, d.pte);
    if g >= d.pgd {
      MulMonotone(d.pgd, g, d.pud);
      MulMonotone(d.pgd * d.pud, g * d.pud, d.pmd);
      MulMonotone(d.pgd * d.pud * d.pmd, g * d.pud * d.pmd, d.pte);
    }
    DivUnique(g, d.pgd, 0, g);
  }

  /** The four indices tell addresses of the span apart. */
  lemma IndicesUnique(d: Dims, a: nat, b: nat)
    requires Proper(d) && a < Span(d) && b < Span(d)
    requires PgdIndex(d, a) == PgdIndex(d, b) && PudIndex(d, a) == PudIndex(d, b)
    requires PmdIndex(d, a) == PmdIndex(d, b)
    ensures LeafNo(d, a) == LeafNo(d, b)
    ensures PteIndex(d, a) == PteIndex(d, b) ==> a == b
  {
    TopBound(d, a);
    TopBound(d, b);
    SameQuotient(MidNo(d, a), MidNo(d, b), d.pud);
    SameQuotient(LeafNo(d, a), LeafNo(d, b), d.pmd);
    if PteIndex(d, a) == PteIndex(d, b) { SameQuotient(a, b, d.pte); }
  }

  lemma SameQuotient(a: nat, b: nat, n: nat)
    requires n > 0 && a / n == b / n && a % n == b % n
    ensures a == b
  {
    assert a == a / n * n + a % n;
    assert b == b / n * n + b % n;
  }

  /** The masks and shifts of the source are these quotients. */
  lemma ShiftForms(d: Dims, a: nat)
    requires Proper(d)
    ensures PteEnd(d, a) == a - a % d.pte + d.pte
    ensures MidNo(d, a) == a / (d.pmd * d.pte)
    ensures PmdEnd(d, a) == a - a % (d.pmd * d.pte) + d.pmd * d.pte
    ensures TopNo(d, a) == a / (d.pud * (d.pmd * d.pte))
    ensures PudEnd(d, a) == a - a % (d.pud * (d.pmd * d.pte)) + d.pud * (d.pmd * d.pte)
  {
    var n, p, q, g := d.pmd * d.pte, LeafNo(d, a), MidNo(d, a), TopNo(d, a);
    TwoShifts(a, d.pte, d.pmd);
    assert q == a / n;
    TwoShifts(a, n, d.pud);
    assert a == q * n + a % n;
    assert a == g * (d.pud * n) + a % (d.pud * n);
    Associate(q + 1, d.pmd, d.pte);
    Associate(g + 1, d.pud, d.pmd);
    Associate(g + 1, d.pud * d.pmd, d.pte);
    Associate(d.pud, d.pmd, d.pte);
    Distribute(q, 1, n);
    Distribute(g, 1, d.pud * n);
  }

  /** Dividing twice is dividing by the product. */
  lemma TwoShifts(a: nat, m: nat, n: nat)
    requires m > 0 && n > 0
    ensures n * m > 0 && a / m / n == a / (n * m)
  {
    var p := a / m;
    var q, r := p / n, p % n;
    assert a == p * m + a % m && p == q * n + r;
    Distribute(q * n, r, m);
    Associate(q, n, m);
    MulMonotone(r + 1, n, m);
    Distribute(r, 1, m);
    DivUnique(a, n * m, q, r * m + a % m);
  }

  lemma Associate(a: nat, b: nat, c: nat)
    ensures a * b * c == a * (b * c)
  {
  }

  lemma Distribute(a: nat, b: nat, c: nat)
    ensures (a + b) * c == a * c + b * c
  {
  }

  // ---------------------------------------------------------------- table pages

  function At(slots: seq<Entry>, i: nat): Entry {
    if i < |slots| then slots[i] else Vacant
  }

  function Down(tables: seq<seq<Entry>>, e: Entry, i: nat): Entry {
    if e.Lower? && e.table < |tables| then At(tables[e.table], i) else Vacant
  }

  /** The upper table, middle table and leaf table of an address, and its entry. */
  function TopEntry(d: Dims, pgd: seq<Entry>, a: nat): Entry requires Proper(d) {
    At(pgd, PgdIndex(d, a))
  }
  function MidEntry(d: Dims, pgd: seq<Entry>, tables: seq<seq<Entry>>, a: nat): Entry requires Proper(d) {
    Down(tables, TopEntry(d, pgd, a), PudIndex(d, a))
  }
  function LeafEntry(d: Dims, pgd: seq<Entry>, tables: seq<seq<Entry>>, a: nat): Entry requires Proper(d) {
    Down(tables, MidEntry(d, pgd, tables, a), PmdIndex(d, a))
  }
  function Lookup(d: Dims, pgd: seq<Entry>, tables: seq<seq<Entry>>, a: nat): Entry requires Proper(d) {
    Down(tables, LeafEntry(d, pgd, tables, a), PteIndex(d, a))
  }

  /** What the tables mean. */
  function Flat(d: Dims, pgd: seq<Entry>, tables: seq<seq<Entry>>): seq<Entry>
    requires Proper(d)
  {
    seq(Span(d), a requires 0 <= a => Lookup(d, pgd, tables, a))
  }

  /** How a table page is reached: the slots from the root on. */
  type Path = seq<nat>

  function Slots(d: Dims, level: nat): nat {
    if level == 1 then d.pud else if level == 2 then d.pmd else d.pte
  }

  ghost predicate SlotOk(paths: seq<Path>, path: Path, e: Entry, i: nat) {
    if |path| == 3 then !e.Lower?
    else e.Vacant? || (e.Lower? && e.table < |paths| && paths[e.table] == path + [i])
  }

  ghost predicate TableOk(d: Dims, paths: seq<Path>, path: Path, slots: seq<Entry>) {
    && 1 <= |path| <= 3 && |slots| == Slots(d, |path|)
    && forall i :: 0 <= i < |slots| ==> SlotOk(paths, path, slots[i], i)
  }

  /** A tree: every slot points to a page that is reached through that slot only. */
  ghost predicate Tree(d: Dims, pgd: seq<Entry>, tables: seq<seq<Entry>>, paths: seq<Path>) {
    && Proper(d) && |paths| == |tables|
    && |pgd| == d.pgd && (forall i :: 0 <= i < |pgd| ==> SlotOk(paths, [], pgd[i], i))
    && forall t :: 0 <= t < |tables| ==> TableOk(d, paths, paths[t], tables[t])
  }

  /** Upper and middle tables stay as they are. */
  ghost predicate SameUpper(paths: seq<Path>, tables: seq<seq<Entry>>, tables': seq<seq<Entry>>, level: nat) {
    && |tables| <= |tables'| && |paths| == |tables|
    && forall t :: 0 <= t < |tables| && |paths[t]| <= level ==> tables'[t] == tables[t]
  }

  lemma PathDown(d: Dims, pgd: seq<Entry>, tables: seq<seq<Entry>>, paths: seq<Path>, a: nat)
    requires Tree(d, pgd, tables, paths)
    ensures var e := TopEntry(d, pgd, a);
      e.Vacant? || (e.Lower? && e.table < |tables| && paths[e.table] == [PgdIndex(d, a)])
    ensures var e := MidEntry(d, pgd, tables, a);
      e.Vacant? || (e.Lower? && e.table < |tables| && paths[e.table] == [PgdIndex(d, a), PudIndex(d, a)])
    ensures var e := LeafEntry(d, pgd, tables, a);
      e.Vacant? || (e.Lower? && e.table < |tables|
        && paths[e.table] == [PgdIndex(d, a), PudIndex(d, a), PmdIndex(d, a)])
    ensures !Lookup(d, pgd, tables, a).Lower?
  {
    assert [] + [PgdIndex(d, a)] == [PgdIndex(d, a)];
    assert [PgdIndex(d, a)] + [PudIndex(d, a)] == [PgdIndex(d, a), PudIndex(d, a)];
    assert [PgdIndex(d, a), PudIndex(d, a)] + [PmdIndex(d, a)] == [PgdIndex(d, a), PudIndex(d, a), PmdIndex(d, a)];
  }

  /** Nothing above a level looks below it. */
  lemma UpperSame(d: Dims, pgd: seq<Entry>, tables: seq<seq<Entry>>, tables': seq<seq<Entry>>,
                  paths: seq<Path>, level: nat, a: nat)
    requires Tree(d, pgd, tables, paths) && SameUpper(paths, tables, tables', level)
    ensures level >= 1 ==> MidEntry(d, pgd, tables', a) == MidEntry(d, pgd, tables, a)
    ensures level >= 2 ==> LeafEntry(d, pgd, tables', a) == LeafEntry(d, pgd, tables, a)
  {
    PathDown(d, pgd, tables, paths, a);
  }

  /** Writing a leaf slot changes the one address that leads to it. */
  lemma LeafWrite(d: Dims, pgd: seq<Entry>, tables: seq<seq<Entry>>, paths: seq<Path>, a: nat, t: nat, e: Entry)
    requires Tree(d, pgd, tables, paths) && a < Span(d) && !e.Lower?
    requires LeafEntry(d, pgd, tables, a) == Lower(t)
    ensures t < |tables| && PteIndex(d, a) < |tables[t]|
    ensures tables[t][PteIndex(d, a)] == Flat(d, pgd, tables)[a]
    ensures var tables' := tables[t := tables[t][PteIndex(d, a) := e]];
      && Tree(d, pgd, tables', paths) && SameUpper(paths, tables, tables', 2)
      && Flat(d, pgd, tables') == Flat(d, pgd, tables)[a := e]
  {
    PathDown(d, pgd, tables, paths, a);
    var tables' := tables[t := tables[t][PteIndex(d, a) := e]];
    forall b | 0 <= b < Span(d)
      ensures Lookup(d, pgd, tables', b) == if b == a then e else Lookup(d, pgd, tables, b)
    {
      PathDown(d, pgd, tables, paths, b);
      UpperSame(d, pgd, tables, tables', paths, 2, b);
      if LeafEntry(d, pgd, tables, b) == Lower(t) && PteIndex(d, b) == PteIndex(d, a) {
        assert [PgdIndex(d, a), PudIndex(d, a), PmdIndex(d, a)] == [PgdIndex(d, b), PudIndex(d, b), PmdIndex(d, b)];
        assert paths[t][0] == PgdIndex(d, b) && paths[t][1] == PudIndex(d, b) && paths[t][2] == PmdIndex(d, b);
        IndicesUnique(d, a, b);
      }
    }
  }

  function Blank(n: nat): (slots: seq<Entry>)
    ensures |slots| == n && forall i :: 0 <= i < n ==> slots[i] == Vacant
  {
    seq(n, _ => Vacant)
  }

  /** alloc_page with zeros, and its address put into a vacant slot of a table page: the tree
      grows, and means what it meant. */
  lemma Grow(d: Dims, pgd: seq<Entry>, tables: seq<seq<Entry>>, paths: seq<Path>, t: nat, i: nat)
    requires Tree(d, pgd, tables, paths) && t < |tables| && |paths[t]| < 3 && i < |tables[t]|
    requires tables[t][i] == Vacant
    ensures var blank := Blank(Slots(d, |paths[t]| + 1));
      var tables' := tables[t := tables[t][i := Lower(|tables|)]] + [blank];
      && Tree(d, pgd, tables', paths + [paths[t] + [i]]) && SameUpper(paths, tables, tables', |paths[t]| - 1)
      && Flat(d, pgd, tables') == Flat(d, pgd, tables)
  {
    var blank := Blank(Slots(d, |paths[t]| + 1));
    var tables' := tables[t := tables[t][i := Lower(|tables|)]] + [blank];
    GrowTree(d, pgd, tables, paths, t, i);
    forall a | 0 <= a < Span(d) ensures Lookup(d, pgd, tables', a) == Lookup(d, pgd, tables, a) {
      PathDown(d, pgd, tables, paths, a);
      GrowLookup(d, pgd, tables, tables', blank, t, i, a);
    }
  }

  lemma GrowTree(d: Dims, pgd: seq<Entry>, tables: seq<seq<Entry>>, paths: seq<Path>, t: nat, i: nat)
    requires Tree(d, pgd, tables, paths) && t < |tables| && |paths[t]| < 3 && i < |tables[t]|
    ensures var blank := Blank(Slots(d, |paths[t]| + 1));
      Tree(d, pgd, tables[t := tables[t][i := Lower(|tables|)]] + [blank], paths + [paths[t] + [i]])
  {
    var blank := Blank(Slots(d, |paths[t]| + 1));
    var paths' := paths + [paths[t] + [i]];
    var tables' := tables[t := tables[t][i := Lower(|tables|)]] + [blank];
    forall u | 0 <= u < |tables'| ensures TableOk(d, paths', paths'[u], tables'[u]) {
      if u < |tables| {
        assert TableOk(d, paths, paths[u], tables[u]);
      }
    }
  }

  lemma GrowLookup(d: Dims, pgd: seq<Entry>, tables: seq<seq<Entry>>, tables': seq<seq<Entry>>,
                   blank: seq<Entry>, t: nat, i: nat, a: nat)
    requires Proper(d) && t < |tables| && i < |tables[t]| && tables[t][i] == Vacant
    requires tables' == tables[t := tables[t][i := Lower(|tables|)]] + [blank]
    requires forall k :: 0 <= k < |blank| ==> blank[k] == Vacant
    requires TopEntry(d, pgd, a).Lower? ==> TopEntry(d, pgd, a).table < |tables|
    requires MidEntry(d, pgd, tables, a).Lower? ==> MidEntry(d, pgd, tables, a).table < |tables|
    requires LeafEntry(d, pgd, tables, a).Lower? ==> LeafEntry(d, pgd, tables, a).table < |tables|
    requires LeafEntry(d, pgd, tables, a) != Lower(t)
    ensures Lookup(d, pgd, tables', a) == Lookup(d, pgd, tables, a)
  {
    GrowDown(tables, tables', blank, t, i, TopEntry(d, pgd, a), PudIndex(d, a));
    GrowDown(tables, tables', blank, t, i, MidEntry(d, pgd, tables, a), PmdIndex(d, a));
    GrowDown(tables, tables', blank, t, i, LeafEntry(d, pgd, tables, a), PteIndex(d, a));
  }

  lemma GrowDown(tables: seq<seq<Entry>>, tables': seq<seq<Entry>>, blank: seq<Entry>, t: nat, i: nat,
                 e: Entry, k: nat)
    requires t < |tables| && i < |tables[t]| && tables[t][i] == Vacant
    requires tables' == tables[t := tables[t][i := Lower(|tables|)]] + [blank]
    requires forall k :: 0 <= k < |blank| ==> blank[k] == Vacant
    requires e.Lower? ==> e.table < |tables|
    ensures Down(tables', e, k) == if e == Lower(t) && k == i then Lower(|tables|) else Down(tables, e, k)
    ensures e == Lower(t) && k == i ==> Down(tables, e, k) == Vacant
    ensures forall j: nat :: Down(tables', Lower(|tables|), j) == Vacant
  {
  }

  /** The same for the root. */
  lemma GrowRoot(d: Dims, pgd: seq<Entry>, tables: seq<seq<Entry>>, paths: seq<Path>, i: nat)
    requires Tree(d, pgd, tables, paths) && i < |pgd| && pgd[i] == Vacant
    ensures var pgd', tables' := pgd[i := Lower(|tables|)], tables + [Blank(d.pud)];
      && Tree(d, pgd', tables', paths + [[i]])
      && Flat(d, pgd', tables') == Flat(d, pgd, tables)
  {
    var pgd', tables' := pgd[i := Lower(|tables|)], tables + [Blank(d.pud)];
    var paths' := paths + [[i]];
    forall u | 0 <= u < |tables'| ensures TableOk(d, paths', paths'[u], tables'[u]) {
      if u < |tables| {
        assert TableOk(d, paths, paths[u], tables[u]);
      }
    }
    assert [] + [i] == [i];
    forall a | 0 <= a < Span(d) ensures Lookup(d, pgd', tables', a) == Lookup(d, pgd, tables, a) {
      PathDown(d, pgd, tables, paths, a);
    }
  }
}
