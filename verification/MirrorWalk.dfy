/** dummy_pt_walk and its callbacks (hmm_dmirror.c): over four levels of tables, filled in on
    the way where the caller wants that, a walk does what its callback does page by page. */
module MirrorWalk {
  import opened MirrorFlat
  import opened MirrorTable

  /** A run that has come to `b` without an error goes on from there. */
  lemma {:induction false} GoOn(kinds: Kinds, cb: Callback, w: World, a: nat, b: nat, c: nat)
    requires a <= b <= c && ServedAll(cb, w, a, c) && OnPages(kinds, cb, w, a, b).1 == Ok
    ensures ServedAll(cb, OnPages(kinds, cb, w, a, b).0, b, c)
    ensures OnPages(kinds, cb, w, a, c) == OnPages(kinds, cb, OnPages(kinds, cb, w, a, b).0, b, c)
    decreases c - b
  {
    StillServed(cb, w, OnPages(kinds, cb, w, a, b).0, a, c);
    if b < c { GoOn(kinds, cb, w, a, b, c - 1); }
  }

  lemma StillServed(cb: Callback, w: World, w': World, a: nat, c: nat)
    requires ServedAll(cb, w, a, c) && |w'.entries| == |w.entries| && SamePlan(w'.priv, w.priv)
    ensures ServedAll(cb, w', a, c)
  {
    forall i | a <= i < c ensures Served(cb, w'.priv, i) {
      assert Served(cb, w.priv, i);
    }
  }

  /** Invalidating pages that are not there does nothing. */
  lemma SkipVacant(kinds: Kinds, w: World, a: nat, b: nat)
    requires a <= b && ServedAll(Update, w, a, b)
    requires forall i :: a <= i < b ==> w.entries[i] == Vacant
    ensures OnPages(kinds, Update, w, a, b) == (w, Ok)
  {
    UpdateClears(kinds, w, a, b);
    assert OnPages(kinds, Update, w, a, b).0.entries == w.entries;
  }

  /** As long as the upper tables stay, so does the leaf table of a range. */
  lemma StillPoints(d: Dims, pgd: seq<Entry>, tables: seq<seq<Entry>>, tables': seq<seq<Entry>>,
                    paths: seq<Path>, from: nat, a: nat)
    requires Tree(d, pgd, tables, paths) && SameUpper(paths, tables, tables', 2)
    requires from <= a < PteEnd(d, from)
    ensures LeafEntry(d, pgd, tables', a) == LeafEntry(d, pgd, tables, from)
    ensures PteIndex(d, a) == PteIndex(d, from) + (a - from)
  {
    LeafRange(d, from);
    UpperSame(d, pgd, tables, tables', paths, 2, from);
  }

  lemma FaultOutcome(kinds: Kinds, w: World, n: nat, w': World)
    requires w.priv.faultStart + n <= |w.entries| && n <= |w.priv.pfns|
    requires w.priv.missing == 0 && !w.priv.invalid
    requires ServedAll(Fault, w, w.priv.faultStart, w.priv.faultStart + n)
    requires w' == OnPages(kinds, Fault, w, w.priv.faultStart, w.priv.faultStart + n).0
    ensures w'.memory == w.memory && InstalledAt(w.entries, w'.entries, w.priv.faultStart, w.priv.pfns[..n])
    ensures w'.priv.missing == MissingIn(w.priv.pfns[..n], w.priv.forWrite)
    ensures w'.priv.invalid == InvalidIn(w.priv.pfns[..n])
  {
    FaultInstalls(kinds, w, n);
    FaultCounts(kinds, w, n);
  }

  lemma ReadOutcome(kinds: Kinds, w: World, n: nat, w': World, r: Error)
    requires n == w.priv.bounceStart + |w.priv.bounce| <= |w.entries| && w.priv.copied == 0
    requires ServedAll(Read, w, w.priv.bounceStart, n)
    requires (w', r) == OnPages(kinds, Read, w, w.priv.bounceStart, n)
    ensures w'.entries == w.entries && w'.memory == w.memory && |w'.priv.bounce| == |w.priv.bounce|
    ensures r == Ok <==> AllReachable(kinds, w'.entries, false, w.priv.bounceStart, n)
    ensures r == Ok ==> w'.priv.copied == |w.priv.bounce| && Copied(kinds, w', w.priv.bounceStart, w'.priv.bounce)
  {
    ReadCopies(kinds, w, w.priv.bounceStart, n);
  }

  lemma WriteOutcome(kinds: Kinds, w: World, n: nat, w': World, r: Error)
    requires n == w.priv.bounceStart + |w.priv.bounce| <= |w.entries| && w.priv.copied == 0
    requires ServedAll(Write, w, w.priv.bounceStart, n)
    requires (w', r) == OnPages(kinds, Write, w, w.priv.bounceStart, n)
    ensures w'.entries == w.entries
    ensures r == Ok <==> AllReachable(kinds, w'.entries, true, w.priv.bounceStart, n)
    ensures r == Ok ==> w'.priv.copied == |w.priv.bounce|
    ensures r == Ok && OwnPages(kinds, w'.entries, w.priv.bounceStart, n) ==>
      Copied(kinds, w', w.priv.bounceStart, w.priv.bounce)
  {
    var s := w.priv.bounceStart;
    WriteCopies(kinds, w, s, n);
    if r == Ok && OwnPages(kinds, w.entries, s, n) {
      forall page: nat ensures Content(w'.memory, page) == Written(kinds, w, s, n, page) {
      }
      WrittenLeads(kinds, w, n, w');
    }
  }

  lemma WrittenLeads(kinds: Kinds, w: World, n: nat, w': World)
    requires n == w.priv.bounceStart + |w.priv.bounce| <= |w.entries| && w'.entries == w.entries
    requires ServedAll(Write, w, w.priv.bounceStart, n)
    requires AllReachable(kinds, w.entries, true, w.priv.bounceStart, n)
    requires OwnPages(kinds, w.entries, w.priv.bounceStart, n)
    requires forall page: nat :: Content(w'.memory, page) == Written(kinds, w, w.priv.bounceStart, n, page)
    ensures Copied(kinds, w', w.priv.bounceStart, w.priv.bounce)
  {
    var s := w.priv.bounceStart;
    ReadableToo(kinds, w.entries, s, n);
    forall i | 0 <= i < |w.priv.bounce| ensures Leads(kinds, w', s + i, w.priv.bounce[i]) {
      WrittenOnce(kinds, w, s, n, s + i);
    }
  }

  /** A range that was written, with a page of its own for every address, reads back as it was
      written. */
  lemma WriteThenRead(kinds: Kinds, w: World, start: nat, data: seq<Data>)
    requires start + |data| <= |w.entries| && AllReachable(kinds, w.entries, true, start, start + |data|)
    requires OwnPages(kinds, w.entries, start, start + |data|)
    requires w.priv.bounceStart == start && w.priv.bounce == data && w.priv.copied == 0
    ensures ServedAll(Write, w, start, start + |data|)
    ensures var w1 := OnPages(kinds, Write, w, start, start + |data|).0;
      && |w1.entries| == |w.entries| && ServedAll(Read, ReadAfter(w1, |data|), start, start + |data|)
      && var (w2, r) := OnPages(kinds, Read, ReadAfter(w1, |data|), start, start + |data|);
      && r == Ok && w2.priv.bounce == data
  {
    var (w1, r) := OnPages(kinds, Write, w, start, start + |data|);
    WriteOutcome(kinds, w, start + |data|, w1, r);
    ReadableToo(kinds, w.entries, start, start + |data|);
    ReadsAsCopied(kinds, ReadAfter(w1, |data|), data);
  }

  /** What a read starts from. */
  function ReadAfter(w: World, n: nat): World {
    w.(priv := w.priv.(bounce := seq(n, _ => 0), copied := 0))
  }

  lemma ReadsAsCopied(kinds: Kinds, w: World, data: seq<Data>)
    requires |w.priv.bounce| == |data| && w.priv.copied == 0
    requires w.priv.bounceStart + |data| <= |w.entries| && Copied(kinds, w, w.priv.bounceStart, data)
    ensures var s, n := w.priv.bounceStart, w.priv.bounceStart + |data|;
      && ServedAll(Read, w, s, n)
      && var (w', r) := OnPages(kinds, Read, w, s, n);
      && r == Ok && w'.priv.bounce == data
  {
    var s := w.priv.bounceStart;
    var (w', r) := OnPages(kinds, Read, w, s, s + |data|);
    ReadOutcome(kinds, w, s + |data|, w', r);
    forall i | s <= i < s + |data| ensures Target(kinds, w.entries[i], false).Page? {
      assert Leads(kinds, w, s + (i - s), data[i - s]);
    }
    CopiedElsewhere(kinds, w, w', s, data);
    CopiedOnce(kinds, w', s, data, w'.priv.bounce);
  }

  lemma CopiedElsewhere(kinds: Kinds, w: World, w': World, start: nat, data: seq<Data>)
    requires Copied(kinds, w, start, data) && w'.entries == w.entries && w'.memory == w.memory
    ensures Copied(kinds, w', start, data)
  {
    forall i | 0 <= i < |data| ensures Leads(kinds, w', start + i, data[i]) {
      assert Leads(kinds, w, start + i, data[i]);
    }
  }

  function Min(a: nat, b: nat): nat {
    if a < b then a else b
  }

  /** The next slot of a middle table, unless the range or the table ends. */
  lemma LeafStep(d: Dims, from: nat, addr: nat, end: nat)
    requires Proper(d) && from <= addr < Min(end, PmdEnd(d, from)) && MidNo(d, addr) == MidNo(d, from)
    ensures var next, pmdEnd := Min(end, PteEnd(d, addr)), Min(end, PmdEnd(d, from));
      && addr < next <= pmdEnd
      && (next < pmdEnd ==> MidNo(d, next) == MidNo(d, from) && PmdIndex(d, next) == PmdIndex(d, addr) + 1)
  {
    LeafRange(d, addr);
  }

  /** Table pages are only added, and those up to a level keep their slots. */
  ghost predicate Grew(paths: seq<Path>, tables: seq<seq<Entry>>, paths': seq<Path>,
                       tables': seq<seq<Entry>>, level: nat)
  {
    paths <= paths' && SameUpper(paths, tables, tables', level)
  }

  lemma GrewOn(paths: seq<Path>, tables: seq<seq<Entry>>, paths1: seq<Path>, tables1: seq<seq<Entry>>,
               paths2: seq<Path>, tables2: seq<seq<Entry>>, level: nat)
    requires Grew(paths, tables, paths1, tables1, level) && Grew(paths1, tables1, paths2, tables2, level)
    ensures Grew(paths, tables, paths2, tables2, level)
  {
  }

  lemma UpperIs(d: Dims, pgd: seq<Entry>, tables: seq<seq<Entry>>, paths: seq<Path>, a: nat, t: nat)
    requires Tree(d, pgd, tables, paths)
    ensures TopEntry(d, pgd, a) == Lower(t) ==> t < |tables| && |paths[t]| == 1 && |tables[t]| == d.pud
    ensures MidEntry(d, pgd, tables, a) == Lower(t) ==> t < |tables| && |paths[t]| == 2 && |tables[t]| == d.pmd
  {
    PathDown(d, pgd, tables, paths, a);
  }

  // ---------------------------------------------------------------- visited pages

  /** A page a callback was run on, and the leaf table it found the entry in. */
  datatype Visit = Visit(page: nat, table: nat)

  /** The pages of a leaf table's range, in order. */
  ghost function VisitsIn(table: nat, a: nat, b: nat): seq<Visit>
    requires a <= b
    decreases b - a
  {
    if a == b then [] else VisitsIn(table, a, b - 1) + [Visit(b - 1, table)]
  }

  /** The pages from `a` to `b` that have a leaf table, in order. */
  ghost function VisitsOf(d: Dims, pgd: seq<Entry>, tables: seq<seq<Entry>>, a: nat, b: nat): seq<Visit>
    requires Proper(d) && a <= b
    decreases b - a
  {
    if a == b then []
    else
      var e := LeafEntry(d, pgd, tables, b - 1);
      VisitsOf(d, pgd, tables, a, b - 1) + if e.Lower? then [Visit(b - 1, e.table)] else []
  }

  lemma {:induction false} VisitsJoin(d: Dims, pgd: seq<Entry>, tables: seq<seq<Entry>>, a: nat, b: nat, c: nat)
    requires Proper(d) && a <= b <= c
    ensures VisitsOf(d, pgd, tables, a, c) == VisitsOf(d, pgd, tables, a, b) + VisitsOf(d, pgd, tables, b, c)
    decreases c - b
  {
    if b < c { VisitsJoin(d, pgd, tables, a, b, c - 1); }
  }

  /** As long as the upper tables stay, so does what has a leaf table. */
  lemma {:induction false} VisitsSame(d: Dims, pgd: seq<Entry>, tables: seq<seq<Entry>>, tables': seq<seq<Entry>>,
                                      paths: seq<Path>, a: nat, b: nat)
    requires Tree(d, pgd, tables, paths) && SameUpper(paths, tables, tables', 2) && a <= b
    ensures VisitsOf(d, pgd, tables', a, b) == VisitsOf(d, pgd, tables, a, b)
    decreases b - a
  {
    if a < b {
      VisitsSame(d, pgd, tables, tables', paths, a, b - 1);
      UpperSame(d, pgd, tables, tables', paths, 2, b - 1);
    }
  }

  /** Where a single leaf table, or none, stands behind a range. */
  lemma {:induction false} VisitsUniform(d: Dims, pgd: seq<Entry>, tables: seq<seq<Entry>>, e: Entry, a: nat, b: nat)
    requires Proper(d) && a <= b && (forall i :: a <= i < b ==> LeafEntry(d, pgd, tables, i) == e)
    ensures VisitsOf(d, pgd, tables, a, b) == if e.Lower? then VisitsIn(e.table, a, b) else []
    decreases b - a
  {
    if a < b { VisitsUniform(d, pgd, tables, e, a, b - 1); }
  }

  /** Exactly the pages with a leaf table are visited, each once and in order. */
  lemma {:induction false} VisitsExactly(d: Dims, pgd: seq<Entry>, tables: seq<seq<Entry>>, a: nat, b: nat)
    requires Proper(d) && a <= b
    ensures var vs := VisitsOf(d, pgd, tables, a, b);
      && (forall i: nat, t: nat :: Visit(i, t) in vs <==> a <= i < b && LeafEntry(d, pgd, tables, i) == Lower(t))
      && (forall k, l :: 0 <= k < l < |vs| ==> vs[k].page < vs[l].page)
    decreases b - a
  {
    if a < b {
      VisitsExactly(d, pgd, tables, a, b - 1);
      var vs := VisitsOf(d, pgd, tables, a, b - 1);
      forall k | 0 <= k < |vs| ensures vs[k].page < b - 1 {
        assert Visit(vs[k].page, vs[k].table) in vs;
      }
    }
  }

  /** Where there is no leaf table there are no entries, and a walk that does not populate has
      nothing to do. */
  lemma LeafVacant(d: Dims, pgd: seq<Entry>, tables: seq<seq<Entry>>, a: nat, b: nat)
    requires Proper(d) && LeafEntry(d, pgd, tables, a) == Vacant && a <= b <= PteEnd(d, a) && b <= Span(d)
    ensures forall i :: a <= i < b ==> Flat(d, pgd, tables)[i] == Vacant
    ensures VisitsOf(d, pgd, tables, a, b) == []
  {
    LeafRange(d, a);
    VisitsUniform(d, pgd, tables, Vacant, a, b);
  }

  lemma MidVacant(d: Dims, pgd: seq<Entry>, tables: seq<seq<Entry>>, a: nat, b: nat)
    requires Proper(d) && MidEntry(d, pgd, tables, a) == Vacant && a <= b <= PmdEnd(d, a) && b <= Span(d)
    ensures forall i :: a <= i < b ==> Flat(d, pgd, tables)[i] == Vacant
    ensures VisitsOf(d, pgd, tables, a, b) == []
  {
    MidRange(d, a);
    VisitsUniform(d, pgd, tables, Vacant, a, b);
  }

  lemma TopVacant(d: Dims, pgd: seq<Entry>, tables: seq<seq<Entry>>, a: nat, b: nat)
    requires Proper(d) && TopEntry(d, pgd, a) == Vacant && a <= b <= PudEnd(d, a) && b <= Span(d)
    ensures forall i :: a <= i < b ==> Flat(d, pgd, tables)[i] == Vacant
    ensures VisitsOf(d, pgd, tables, a, b) == []
  {
    TopRange(d, a);
    VisitsUniform(d, pgd, tables, Vacant, a, b);
  }

  lemma LeafVisits(d: Dims, pgd: seq<Entry>, tables: seq<seq<Entry>>, a: nat, b: nat, t: nat)
    requires Proper(d) && LeafEntry(d, pgd, tables, a) == Lower(t) && a <= b <= PteEnd(d, a)
    ensures VisitsOf(d, pgd, tables, a, b) == VisitsIn(t, a, b)
  {
    LeafRange(d, a);
    VisitsUniform(d, pgd, tables, Lower(t), a, b);
  }

  /** The table pages of a mirror, what is left to allocate, and the visits so far. */
  datatype Account = Account(tables: seq<seq<Entry>>, paths: seq<Path>, pool: nat, visits: seq<Visit>)

  /** What a walk that does not populate does from `a` to `b`: no page is allocated, only leaf
      slots are written, and exactly what has a leaf table is visited. */
  ghost predicate Unallocated(d: Dims, pgd: seq<Entry>, s: Account, s': Account, a: nat, b: nat)
    requires Proper(d)
  {
    && s'.pool == s.pool && s'.paths == s.paths && SameUpper(s.paths, s.tables, s'.tables, 2)
    && a <= b && s'.visits == s.visits + VisitsOf(d, pgd, s'.tables, a, b)
  }

  lemma UnallocatedOn(d: Dims, pgd: seq<Entry>, s0: Account, s1: Account, s2: Account, a: nat, b: nat, c: nat)
    requires Tree(d, pgd, s1.tables, s1.paths)
    requires Unallocated(d, pgd, s0, s1, a, b) && Unallocated(d, pgd, s1, s2, b, c)
    ensures Unallocated(d, pgd, s0, s2, a, c)
  {
    VisitsSame(d, pgd, s1.tables, s2.tables, s1.paths, a, b);
    VisitsJoin(d, pgd, s2.tables, a, b, c);
  }

  /** Leaf tables stay where they are; more may come. */
  ghost predicate KeepsLeaves(d: Dims, pgd: seq<Entry>, tables: seq<seq<Entry>>, pgd': seq<Entry>,
                              tables': seq<seq<Entry>>)
    requires Proper(d)
  {
    forall i: nat {:trigger LeafEntry(d, pgd', tables', i)} ::
      LeafEntry(d, pgd, tables, i).Lower? ==> LeafEntry(d, pgd', tables', i) == LeafEntry(d, pgd, tables, i)
  }

  ghost predicate HaveLeaves(d: Dims, pgd: seq<Entry>, tables: seq<seq<Entry>>, a: nat, b: nat)
    requires Proper(d)
  {
    forall i :: a <= i < b ==> LeafEntry(d, pgd, tables, i).Lower?
  }

  /** What a walk that populates does from `a` to `b`: every page has a leaf table then and has
      been visited there. */
  ghost predicate Populated(d: Dims, pgd: seq<Entry>, s: Account, pgd': seq<Entry>, s': Account, a: nat, b: nat)
    requires Proper(d)
  {
    && KeepsLeaves(d, pgd, s.tables, pgd', s'.tables) && HaveLeaves(d, pgd', s'.tables, a, b)
    && a <= b && s'.visits == s.visits + VisitsOf(d, pgd', s'.tables, a, b)
  }

  lemma PopulatedOn(d: Dims, pgd0: seq<Entry>, s0: Account, pgd1: seq<Entry>, s1: Account,
                    pgd2: seq<Entry>, s2: Account, a: nat, b: nat, c: nat)
    requires Proper(d) && Populated(d, pgd0, s0, pgd1, s1, a, b) && Populated(d, pgd1, s1, pgd2, s2, b, c)
    ensures Populated(d, pgd0, s0, pgd2, s2, a, c)
  {
    VisitsKept(d, pgd1, s1.tables, pgd2, s2.tables, a, b);
    VisitsJoin(d, pgd2, s2.tables, a, b, c);
    KeptOn(d, pgd0, s0.tables, pgd1, s1.tables, pgd2, s2.tables);
    forall i | a <= i < b ensures LeafEntry(d, pgd2, s2.tables, i).Lower? {
      assert LeafEntry(d, pgd1, s1.tables, i).Lower?;
    }
  }

  lemma KeptOn(d: Dims, pgd0: seq<Entry>, tables0: seq<seq<Entry>>, pgd1: seq<Entry>, tables1: seq<seq<Entry>>,
               pgd2: seq<Entry>, tables2: seq<seq<Entry>>)
    requires Proper(d) && KeepsLeaves(d, pgd0, tables0, pgd1, tables1) && KeepsLeaves(d, pgd1, tables1, pgd2, tables2)
    ensures KeepsLeaves(d, pgd0, tables0, pgd2, tables2)
  {
    forall i: nat | LeafEntry(d, pgd0, tables0, i).Lower?
      ensures LeafEntry(d, pgd2, tables2, i) == LeafEntry(d, pgd0, tables0, i)
    {
      assert LeafEntry(d, pgd1, tables1, i) == LeafEntry(d, pgd0, tables0, i);
    }
  }

  lemma {:induction false} VisitsKept(d: Dims, pgd: seq<Entry>, tables: seq<seq<Entry>>, pgd': seq<Entry>,
                                      tables': seq<seq<Entry>>, a: nat, b: nat)
    requires Proper(d) && a <= b && KeepsLeaves(d, pgd, tables, pgd', tables') && HaveLeaves(d, pgd, tables, a, b)
    ensures VisitsOf(d, pgd', tables', a, b) == VisitsOf(d, pgd, tables, a, b)
    decreases b - a
  {
    if a < b {
      VisitsKept(d, pgd, tables, pgd', tables', a, b - 1);
      assert LeafEntry(d, pgd', tables', b - 1) == LeafEntry(d, pgd, tables, b - 1);
    }
  }

  /** A new table page in a vacant slot keeps the leaf tables. */
  lemma GrowKeeps(d: Dims, pgd: seq<Entry>, tables: seq<seq<Entry>>, t: nat, i: nat, e: Entry, page: seq<Entry>)
    requires Proper(d) && t < |tables| && i < |tables[t]| && tables[t][i] == Vacant
    ensures KeepsLeaves(d, pgd, tables, pgd, tables[t := tables[t][i := e]] + [page])
  {
    var tables' := tables[t := tables[t][i := e]] + [page];
    forall a: nat | LeafEntry(d, pgd, tables, a).Lower?
      ensures LeafEntry(d, pgd, tables', a) == LeafEntry(d, pgd, tables, a)
    {
      DownKept(tables, tables', t, i, TopEntry(d, pgd, a), PudIndex(d, a));
      DownKept(tables, tables', t, i, MidEntry(d, pgd, tables, a), PmdIndex(d, a));
    }
  }

  lemma DownKept(tables: seq<seq<Entry>>, tables': seq<seq<Entry>>, t: nat, i: nat, e: Entry, k: nat)
    requires t < |tables| < |tables'| && i < |tables[t]| && tables[t][i] == Vacant && |tables'[t]| == |tables[t]|
    requires forall u :: 0 <= u < |tables| && u != t ==> tables'[u] == tables[u]
    requires forall j :: 0 <= j < |tables[t]| && j != i ==> tables'[t][j] == tables[t][j]
    ensures Down(tables, e, k) != Vacant ==> Down(tables', e, k) == Down(tables, e, k)
  {
  }

  lemma GrowRootKeeps(d: Dims, pgd: seq<Entry>, tables: seq<seq<Entry>>, i: nat, e: Entry, page: seq<Entry>)
    requires Proper(d) && i < |pgd| && pgd[i] == Vacant
    ensures KeepsLeaves(d, pgd, tables, pgd[i := e], tables + [page])
  {
    forall a: nat | LeafEntry(d, pgd, tables, a).Lower?
      ensures LeafEntry(d, pgd[i := e], tables + [page], a) == LeafEntry(d, pgd, tables, a)
    {
      assert TopEntry(d, pgd[i := e], a) == TopEntry(d, pgd, a);
    }
  }

  lemma SameUpperKeeps(d: Dims, pgd: seq<Entry>, tables: seq<seq<Entry>>, tables': seq<seq<Entry>>, paths: seq<Path>)
    requires Tree(d, pgd, tables, paths) && SameUpper(paths, tables, tables', 2)
    ensures KeepsLeaves(d, pgd, tables, pgd, tables')
  {
    forall a: nat ensures LeafEntry(d, pgd, tables', a) == LeafEntry(d, pgd, tables, a) {
      UpperSame(d, pgd, tables, tables', paths, 2, a);
    }
  }

  /** What a walk does to the tables and visits from `a` to `b`. */
  ghost predicate Walked(populate: bool, d: Dims, pgd: seq<Entry>, s: Account, pgd': seq<Entry>, s': Account,
                         a: nat, b: nat)
    requires Proper(d)
  {
    if populate then Populated(d, pgd, s, pgd', s', a, b) else pgd' == pgd && Unallocated(d, pgd, s, s', a, b)
  }

  lemma WalkedOn(populate: bool, d: Dims, pgd0: seq<Entry>, s0: Account, pgd1: seq<Entry>, s1: Account,
                 pgd2: seq<Entry>, s2: Account, a: nat, b: nat, c: nat)
    requires Tree(d, pgd1, s1.tables, s1.paths)
    requires Walked(populate, d, pgd0, s0, pgd1, s1, a, b) && Walked(populate, d, pgd1, s1, pgd2, s2, b, c)
    ensures Walked(populate, d, pgd0, s0, pgd2, s2, a, c)
  {
    if populate {
      PopulatedOn(d, pgd0, s0, pgd1, s1, pgd2, s2, a, b, c);
    } else {
      UnallocatedOn(d, pgd0, s0, s1, s2, a, b, c);
    }
  }

  /** A callback run in one leaf table. */
  lemma LeafWalked(populate: bool, d: Dims, pgd: seq<Entry>, s0: Account, s: Account, s': Account,
                   a: nat, b: nat, t: nat)
    requires Tree(d, pgd, s.tables, s.paths) && SameUpper(s.paths, s.tables, s'.tables, 2)
    requires LeafEntry(d, pgd, s.tables, a) == Lower(t) && a <= b <= PteEnd(d, a)
    requires s'.visits == s.visits + VisitsIn(t, a, b) && s'.pool == s.pool && s'.paths == s.paths
    requires KeepsLeaves(d, pgd, s0.tables, pgd, s.tables) && s.visits == s0.visits
    requires !populate ==> s == s0
    ensures Walked(populate, d, pgd, s0, pgd, s', a, b)
  {
    UpperSame(d, pgd, s.tables, s'.tables, s.paths, 2, a);
    LeafVisits(d, pgd, s'.tables, a, b, t);
    if populate {
      SameUpperKeeps(d, pgd, s.tables, s'.tables, s.paths);
      KeptOn(d, pgd, s0.tables, pgd, s.tables, pgd, s'.tables);
      LeafRange(d, a);
    }
  }

  class Mirror {
    const d: Dims
    const kinds: Kinds
    var pgd: seq<Entry>
    var tables: seq<seq<Entry>>
    /** The walk's private data, CPU memory, and how many table pages can still be had. */
    var priv: Private
    var memory: Memory
    var pool: nat
    ghost var paths: seq<Path>
    /** On which pages walks have run their callbacks. */
    ghost var visits: seq<Visit>

    ghost predicate Valid()
      reads this
    {
      Tree(d, pgd, tables, paths)
    }

    ghost function View(): World
      reads this
      requires Proper(d)
    {
      World(Flat(d, pgd, tables), priv, memory)
    }

    constructor (d: Dims, kinds: Kinds, pool: nat)
      requires Proper(d)
      ensures Valid() && this.d == d && this.kinds == kinds && this.pool == pool
      ensures View().entries == Blank(Span(d))
    {
      this.d, this.kinds, this.pool := d, kinds, pool;
      pgd, tables, paths, visits := Blank(d.pgd), [], [], [];
      priv, memory := Private(0, [], false, 0, false, 0, [], 0), map[];
    }

    ghost function Books(): Account
      reads this
    {
      Account(tables, paths, pool, visits)
    }

    // -------------------------------------------------------------- callbacks

    /** Is slot `k` of leaf table `t` the entry of page `a`? */
    ghost predicate Points(t: nat, k: nat, a: nat)
      reads this
      requires Proper(d)
    {
      a < Span(d) && LeafEntry(d, pgd, tables, a) == Lower(t) && k == PteIndex(d, a)
    }

    method ReadSlot(t: nat, k: nat, ghost a: nat) returns (e: Entry)
      requires Valid() && Points(t, k, a)
      ensures e == View().entries[a]
    {
      LeafWrite(d, pgd, tables, paths, a, t, Vacant);
      e := tables[t][k];
    }

    method WriteSlot(t: nat, k: nat, ghost a: nat, e: Entry)
      requires Valid() && Points(t, k, a) && !e.Lower?
      modifies this`tables
      ensures Valid() && SameUpper(paths, old(tables), tables, 2)
      ensures View() == old(View()).(entries := old(View()).entries[a := e])
    {
      LeafWrite(d, pgd, tables, paths, a, t, e);
      tables := tables[t := tables[t][k := e]];
    }

    /** The range of a callback is inside one leaf table, and its slot is the first page's. */
    ghost predicate InLeaf(t: nat, k: nat, from: nat, to: nat)
      reads this
      requires Proper(d)
    {
      from < to <= Span(d) && to <= PteEnd(d, from) && Points(t, k, from)
    }

    /** The callback did its pages, or stopped where it had to. */
    ghost predicate Outcome(cb: Callback, w: World, from: nat, to: nat, ret: Error)
      reads this
      requires Proper(d)
    {
      from <= to && ServedAll(cb, w, from, to) && (View(), ret) == OnPages(kinds, cb, w, from, to)
    }

    /** dummy_do_update */
    method DoUpdate(t: nat, k: nat, from: nat, to: nat) returns (ret: Error)
      requires Valid() && InLeaf(t, k, from, to)
      modifies this`tables
      ensures Valid() && SameUpper(paths, old(tables), tables, 2)
      ensures Outcome(Update, old(View()), from, to, ret)
    {
      var addr, dpte := from, k;
      while addr < to
        invariant from <= addr <= to && dpte == k + (addr - from)
        invariant Valid() && SameUpper(paths, old(tables), tables, 2)
        invariant Outcome(Update, old(View()), from, addr, Ok)
      {
        StillPoints(d, pgd, old(tables), tables, paths, from, addr);
        WriteSlot(t, dpte, addr, Vacant);
        addr, dpte := addr + 1, dpte + 1;
      }
      ret := Ok;
    }

    /** dummy_do_fault */
    method DoFault(t: nat, k: nat, from: nat, to: nat) returns (ret: Error)
      requires Valid() && InLeaf(t, k, from, to) && ServedAll(Fault, View(), from, to)
      modifies this`tables, this`priv
      ensures Valid() && SameUpper(paths, old(tables), tables, 2)
      ensures Outcome(Fault, old(View()), from, to, ret)
    {
      assert Served(Fault, priv, from);
      var addr, dpte, idx := from, k, from - priv.faultStart;
      while addr < to
        invariant from <= addr <= to && dpte == k + (addr - from) && idx == addr - priv.faultStart
        invariant Valid() && SameUpper(paths, old(tables), tables, 2)
        invariant Outcome(Fault, old(View()), from, addr, Ok)
      {
        StillPoints(d, pgd, old(tables), tables, paths, from, addr);
        assert Served(Fault, old(priv), addr);
        FaultOne(t, dpte, addr, idx);
        addr, dpte, idx := addr + 1, dpte + 1, idx + 1;
      }
      ret := Ok;
    }

    method FaultOne(t: nat, dpte: nat, ghost addr: nat, idx: nat)
      requires Valid() && Points(t, dpte, addr) && Served(Fault, priv, addr) && idx == addr - priv.faultStart
      modifies this`tables, this`priv
      ensures Valid() && SameUpper(paths, old(tables), tables, 2)
      ensures (View(), Ok) == OnPage(kinds, Fault, old(View()), addr)
    {
      match priv.pfns[idx]
      case Invalid => priv := priv.(invalid := true);
      case Missing => priv := priv.(missing := priv.missing + 1);
      case Present(n, write) =>
        WriteSlot(t, dpte, addr, Page(n, write));
        if !write && priv.forWrite {
          priv := priv.(missing := priv.missing + 1);
        }
    }

    /** dummy_do_read */
    method DoRead(t: nat, k: nat, from: nat, to: nat) returns (ret: Error)
      requires Valid() && InLeaf(t, k, from, to) && ServedAll(Read, View(), from, to)
      modifies this`priv
      ensures Outcome(Read, old(View()), from, to, ret)
    {
      assert Served(Read, priv, from);
      var addr, dpte, ptr := from, k, from - priv.bounceStart;
      while addr < to
        invariant from <= addr <= to && dpte == k + (addr - from) && ptr == addr - priv.bounceStart
        invariant Outcome(Read, old(View()), from, addr, Ok)
      {
        StillPoints(d, pgd, old(tables), tables, paths, from, addr);
        assert Served(Read, old(priv), addr);
        ret := ReadOne(t, dpte, addr, ptr);
        assert (View(), ret) == OnPages(kinds, Read, old(View()), from, addr + 1);
        if ret != Ok {
          Sticky(kinds, Read, old(View()), from, addr + 1, to);
          return;
        }
        addr, dpte, ptr := addr + 1, dpte + 1, ptr + 1;
      }
      ret := Ok;
    }

    method ReadOne(t: nat, dpte: nat, ghost addr: nat, ptr: nat) returns (ret: Error)
      requires Valid() && Points(t, dpte, addr) && Served(Read, priv, addr) && ptr == addr - priv.bounceStart
      modifies this`priv
      ensures (View(), ret) == OnPage(kinds, Read, old(View()), addr)
    {
      var e := ReadSlot(t, dpte, addr);
      var target := Target(kinds, e, false);
      if target.Vacant? {
        return NoEntry;
      }
      priv := priv.(bounce := priv.bounce[ptr := Content(memory, target.number)], copied := priv.copied + 1);
      ret := Ok;
    }

    /** dummy_do_write */
    method DoWrite(t: nat, k: nat, from: nat, to: nat) returns (ret: Error)
      requires Valid() && InLeaf(t, k, from, to) && ServedAll(Write, View(), from, to)
      modifies this`priv, this`memory
      ensures Outcome(Write, old(View()), from, to, ret)
    {
      assert Served(Write, priv, from);
      var addr, dpte, ptr := from, k, from - priv.bounceStart;
      while addr < to
        invariant from <= addr <= to && dpte == k + (addr - from) && ptr == addr - priv.bounceStart
        invariant Outcome(Write, old(View()), from, addr, Ok)
      {
        StillPoints(d, pgd, old(tables), tables, paths, from, addr);
        assert Served(Write, old(priv), addr);
        ret := WriteOne(t, dpte, addr, ptr);
        assert (View(), ret) == OnPages(kinds, Write, old(View()), from, addr + 1);
        if ret != Ok {
          Sticky(kinds, Write, old(View()), from, addr + 1, to);
          return;
        }
        addr, dpte, ptr := addr + 1, dpte + 1, ptr + 1;
      }
      ret := Ok;
    }

    method WriteOne(t: nat, dpte: nat, ghost addr: nat, ptr: nat) returns (ret: Error)
      requires Valid() && Points(t, dpte, addr) && Served(Write, priv, addr) && ptr == addr - priv.bounceStart
      modifies this`priv, this`memory
      ensures (View(), ret) == OnPage(kinds, Write, old(View()), addr)
    {
      var e := ReadSlot(t, dpte, addr);
      var target := Target(kinds, e, true);
      if target.Vacant? {
        return NoEntry;
      }
      memory := memory[target.number := priv.bounce[ptr]];
      priv := priv.(copied := priv.copied + 1);
      ret := Ok;
    }

    method Run(cb: Callback, t: nat, k: nat, from: nat, to: nat) returns (ret: Error)
      requires Valid() && InLeaf(t, k, from, to) && ServedAll(cb, View(), from, to)
      modifies this`tables, this`priv, this`memory, this`visits
      ensures Valid() && SameUpper(paths, old(tables), tables, 2)
      ensures Outcome(cb, old(View()), from, to, ret) && visits == old(visits) + VisitsIn(t, from, to)
    {
      visits := visits + VisitsIn(t, from, to);
      match cb
      case Update => ret := DoUpdate(t, k, from, to);
      case Fault => ret := DoFault(t, k, from, to);
      case Read => ret := DoRead(t, k, from, to);
      case Write => ret := DoWrite(t, k, from, to);
    }

    // -------------------------------------------------------------- the walk

    /** A new table page of `n` slots for a vacant slot. */
    method NewTable(t: nat, i: nat, n: nat) returns (e: Entry)
      requires Valid() && t < |tables| && |paths[t]| < 3 && i < |tables[t]| && tables[t][i] == Vacant
      requires pool > 0 && n == Slots(d, |paths[t]| + 1)
      modifies this`tables, this`paths, this`pool
      ensures Valid() && View() == old(View())
      ensures Grew(old(paths), old(tables), paths, tables, |old(paths)[t]| - 1)
      ensures e == Lower(|old(tables)|) && t < |tables| && tables[t] == old(tables)[t][i := e]
      ensures KeepsLeaves(d, pgd, old(tables), pgd, tables)
    {
      Grow(d, pgd, tables, paths, t, i);
      GrowKeeps(d, pgd, tables, t, i, Lower(|tables|), Blank(n));
      pool := pool - 1;
      e := Lower(|tables|);
      tables := tables[t := tables[t][i := e]] + [Blank(n)];
      paths := paths + [paths[t] + [i]];
    }

    /** Where a walk that began in world `w` stands. An allocation failed only with nothing
        left to allocate. */
    ghost predicate Stands(cb: Callback, w: World, start: nat, a: nat, populate: bool, ret: Error)
      reads this
      requires Proper(d)
    {
      match ret
      case Ok => Outcome(cb, w, start, a, Ok)
      case NoEntry => Outcome(cb, w, start, a, NoEntry)
      case NoMemory => Outcome(cb, w, start, a, Ok) && populate && pool == 0
    }

    /** What the walk needs: the callers populate for everything but invalidation. */
    ghost predicate Walkable(cb: Callback, w: World, start: nat, end: nat, populate: bool)
      reads this
      requires Proper(d)
    {
      Valid() && end <= Span(d) && ServedAll(cb, w, start, end) && |w.entries| == Span(d) && (populate || cb.Update?)
    }

    /** The table page behind a slot of `t`; if there is none, and the walk populates, a new
        one of `n` slots. */
    method GetTable(t: nat, i: nat, n: nat, populate: bool) returns (err: Error, e: Entry)
      requires Valid() && t < |tables| && |paths[t]| < 3 && i < |tables[t]| && n == Slots(d, |paths[t]| + 1)
      modifies this`tables, this`paths, this`pool
      ensures Valid() && View() == old(View()) && (err == Ok || err == NoMemory)
      ensures Grew(old(paths), old(tables), paths, tables, |old(paths)[t]| - 1)
      ensures !populate ==> paths == old(paths) && tables == old(tables) && pool == old(pool)
      ensures KeepsLeaves(d, pgd, old(tables), pgd, tables)
      ensures t < |tables| && i < |tables[t]|
      ensures err == Ok ==> e == tables[t][i] && (e.Vacant? ==> !populate)
      ensures err == NoMemory ==> pool == 0 && populate
    {
      err, e := Ok, tables[t][i];
      if e.Vacant? && populate {
        if pool == 0 {
          return NoMemory, e;
        }
        e := NewTable(t, i, n);
      }
    }

    /** One slot of a middle table: its leaf table's part of the range. */
    method VisitLeaf(cb: Callback, end: nat, populate: bool, t: nat, dpmd: nat, addr: nat) returns (ret: Error)
      requires Proper(d) && Walkable(cb, View(), addr, end, populate) && addr < end
      requires MidEntry(d, pgd, tables, addr) == Lower(t) && dpmd == PmdIndex(d, addr)
      modifies this`tables, this`priv, this`memory, this`pool, this`paths, this`visits
      ensures Valid() && Grew(old(paths), old(tables), paths, tables, 1)
      ensures Stands(cb, old(View()), addr, if ret == NoMemory then addr else Min(end, PteEnd(d, addr)), populate, ret)
      ensures Walked(populate, d, old(pgd), old(Books()), pgd, Books(), addr,
                     if ret == NoMemory then addr else Min(end, PteEnd(d, addr)))
    {
      UpperIs(d, pgd, tables, paths, addr, t);
      var e: Entry;
      ret, e := GetTable(t, dpmd, d.pte, populate);
      if ret != Ok {
        return;
      }
      UpperSame(d, pgd, old(tables), tables, old(paths), 1, addr);
      PathDown(d, pgd, tables, paths, addr);
      LeafRange(d, addr);
      var pteEnd := Min(end, PteEnd(d, addr));
      if e.Vacant? {
        LeafVacant(d, pgd, tables, addr, pteEnd);
        SkipVacant(kinds, View(), addr, pteEnd);
      } else {
        ghost var books := Books();
        ret := Run(cb, e.table, PteIndex(d, addr), addr, pteEnd);
        LeafWalked(populate, d, pgd, old(Books()), books, Books(), addr, pteEnd, e.table);
      }
    }

    /** The innermost loop, over the slots of one middle table. */
    method WalkLeaves(cb: Callback, end: nat, populate: bool, t: nat, from: nat)
      returns (ret: Error, addr: nat)
      requires Proper(d) && Walkable(cb, View(), from, end, populate) && from < end
      requires MidEntry(d, pgd, tables, from) == Lower(t)
      modifies this`tables, this`priv, this`memory, this`pool, this`paths, this`visits
      ensures Valid() && Grew(old(paths), old(tables), paths, tables, 1)
      ensures Stands(cb, old(View()), from, addr, populate, ret)
      ensures Walked(populate, d, old(pgd), old(Books()), pgd, Books(), from, addr)
      ensures addr <= end && (ret == Ok ==> addr == Min(end, PmdEnd(d, from)))
    {
      var pmdEnd := Min(end, PmdEnd(d, from));
      MidRange(d, from);
      var dpmd := PmdIndex(d, from);
      addr := from;
      while addr != pmdEnd
        invariant from <= addr <= pmdEnd
        invariant Valid() && Grew(old(paths), old(tables), paths, tables, 1)
        invariant Outcome(cb, old(View()), from, addr, Ok)
        invariant Walked(populate, d, old(pgd), old(Books()), pgd, Books(), from, addr)
        invariant addr < pmdEnd ==> MidNo(d, addr) == MidNo(d, from) && PmdIndex(d, addr) == dpmd
        decreases pmdEnd - addr
      {
        ghost var next := Min(end, PteEnd(d, addr));
        LeafStep(d, from, addr, end);
        GoOn(kinds, cb, old(View()), from, addr, next);
        StillServed(cb, old(View()), View(), from, end);
        UpperSame(d, pgd, old(tables), tables, old(paths), 1, from);
        ghost var books := Books();
        ret := VisitLeaf(cb, end, populate, t, dpmd, addr);
        GrewOn(old(paths), old(tables), books.paths, books.tables, paths, tables, 1);
        WalkedOn(populate, d, pgd, old(Books()), pgd, books, pgd, Books(), from, addr,
                 if ret == NoMemory then addr else next);
        if ret == NoMemory {
          return;
        }
        addr := Min(end, PteEnd(d, addr));
        if ret != Ok {
          return;
        }
        dpmd := dpmd + 1;
      }
      ret := Ok;
    }

    /** One slot of an upper table: its middle table's part of the range. */
    method VisitMid(cb: Callback, end: nat, populate: bool, t: nat, dpud: nat, addr: nat)
      returns (ret: Error, next: nat)
      requires Proper(d) && Walkable(cb, View(), addr, end, populate) && addr < end
      requires TopEntry(d, pgd, addr) == Lower(t) && dpud == PudIndex(d, addr)
      modifies this`tables, this`priv, this`memory, this`pool, this`paths, this`visits
      ensures Valid() && Grew(old(paths), old(tables), paths, tables, 0)
      ensures Stands(cb, old(View()), addr, next, populate, ret)
      ensures Walked(populate, d, old(pgd), old(Books()), pgd, Books(), addr, next)
      ensures next <= end && (ret == Ok ==> next == Min(end, PmdEnd(d, addr)))
    {
      UpperIs(d, pgd, tables, paths, addr, t);
      var e: Entry;
      ret, e := GetTable(t, dpud, d.pmd, populate);
      if ret != Ok {
        return ret, addr;
      }
      MidRange(d, addr);
      PathDown(d, pgd, tables, paths, addr);
      if e.Vacant? {
        next := Min(end, PmdEnd(d, addr));
        MidVacant(d, pgd, tables, addr, next);
        SkipVacant(kinds, View(), addr, next);
      } else {
        ret, next := WalkLeaves(cb, end, populate, e.table, addr);
      }
    }

    /** The middle loop, over the slots of one upper table. */
    method WalkMids(cb: Callback, end: nat, populate: bool, t: nat, from: nat)
      returns (ret: Error, addr: nat)
      requires Proper(d) && Walkable(cb, View(), from, end, populate) && from < end
      requires TopEntry(d, pgd, from) == Lower(t)
      modifies this`tables, this`priv, this`memory, this`pool, this`paths, this`visits
      ensures Valid()
      ensures Stands(cb, old(View()), from, addr, populate, ret)
      ensures Walked(populate, d, old(pgd), old(Books()), pgd, Books(), from, addr)
      ensures addr <= end && (ret == Ok ==> addr == Min(end, PudEnd(d, from)))
    {
      var pudEnd := Min(end, PudEnd(d, from));
      TopRange(d, from);
      var dpud := PudIndex(d, from);
      addr := from;
      while addr != pudEnd
        invariant from <= addr <= pudEnd
        invariant Valid()
        invariant Outcome(cb, old(View()), from, addr, Ok)
        invariant Walked(populate, d, old(pgd), old(Books()), pgd, Books(), from, addr)
        invariant addr < pudEnd ==> TopNo(d, addr) == TopNo(d, from) && PudIndex(d, addr) == dpud
        decreases pudEnd - addr
      {
        MidRange(d, addr);
        assert PudEnd(d, addr) == PudEnd(d, from);
        ghost var w := View();
        StillServed(cb, old(View()), w, from, end);
        ghost var before, books := addr, Books();
        ret, addr := VisitMid(cb, end, populate, t, dpud, addr);
        GoOn(kinds, cb, old(View()), from, before, addr);
        WalkedOn(populate, d, pgd, old(Books()), pgd, books, pgd, Books(), from, before, addr);
        if ret != Ok {
          return;
        }
        dpud := dpud + 1;
      }
      ret := Ok;
    }

    /** One slot of the root: its upper table's part of the range. */
    method VisitTop(cb: Callback, end: nat, populate: bool, dpgd: nat, addr: nat)
      returns (ret: Error, next: nat)
      requires Proper(d) && Walkable(cb, View(), addr, end, populate) && addr < end
      requires dpgd == PgdIndex(d, addr)
      modifies this`pgd, this`tables, this`priv, this`memory, this`pool, this`paths, this`visits
      ensures Valid()
      ensures Stands(cb, old(View()), addr, next, populate, ret)
      ensures Walked(populate, d, old(pgd), old(Books()), pgd, Books(), addr, next)
      ensures next <= end && (ret == Ok ==> next == Min(end, PudEnd(d, addr)))
    {
      TopBound(d, addr);
      TopRange(d, addr);
      PathDown(d, pgd, tables, paths, addr);
      if pgd[dpgd].Vacant? {
        if !populate {
          next := Min(end, PudEnd(d, addr));
          TopVacant(d, pgd, tables, addr, next);
          SkipVacant(kinds, View(), addr, next);
          return Ok, next;
        }
        if pool == 0 {
          return NoMemory, addr;
        }
        NewTop(dpgd);
      }
      ret, next := WalkMids(cb, end, populate, pgd[dpgd].table, addr);
    }

    method NewTop(i: nat)
      requires Valid() && i < |pgd| && pgd[i] == Vacant && pool > 0
      modifies this`pgd, this`tables, this`paths, this`pool
      ensures Valid() && View() == old(View()) && pgd == old(pgd)[i := Lower(|old(tables)|)]
      ensures KeepsLeaves(d, old(pgd), old(tables), pgd, tables)
    {
      GrowRoot(d, pgd, tables, paths, i);
      GrowRootKeeps(d, pgd, tables, i, Lower(|tables|), Blank(d.pud));
      pool := pool - 1;
      pgd := pgd[i := Lower(|tables|)];
      tables := tables + [Blank(d.pud)];
      paths := paths + [[i]];
    }

    /** dummy_pt_walk over a range that is not empty: the callback has run on its pages one by
        one, in order, up to the end or to its first error; only an allocation that fails
        stops a walk somewhere else, before the end. */
    method Walk(cb: Callback, start: nat, end: nat, populate: bool) returns (ret: Error, ghost reached: nat)
      requires Proper(d) && Walkable(cb, View(), start, end, populate) && start < end
      modifies this`pgd, this`tables, this`priv, this`memory, this`pool, this`paths, this`visits
      ensures Valid() && reached <= end
      ensures ret == Ok ==> reached == end
      ensures ret != NoMemory ==> (View(), ret) == OnPages(kinds, cb, old(View()), start, end)
      ensures ret == NoMemory ==> populate && pool == 0
      ensures ret != NoEntry ==> Outcome(cb, old(View()), start, reached, Ok)
      ensures Walked(populate, d, old(pgd), old(Books()), pgd, Books(), start, reached)
    {
      var dpgd, addr := PgdIndex(d, start), start;
      TopBound(d, start);
      while addr != end
        invariant start <= addr <= end
        invariant Valid()
        invariant Outcome(cb, old(View()), start, addr, Ok)
                invariant Walked(populate, d, old(pgd), old(Books()), pgd, Books(), start, addr)
        invariant addr < end ==> PgdIndex(d, addr) == dpgd
        decreases end - addr
      {
        TopRange(d, addr);
        TopBound(d, addr);
        StillServed(cb, old(View()), View(), start, end);
        ghost var before, root, books := addr, pgd, Books();
        ret, addr := VisitTop(cb, end, populate, dpgd, addr);
        GoOn(kinds, cb, old(View()), start, before, addr);
        WalkedOn(populate, d, old(pgd), old(Books()), root, books, pgd, Books(), start, before, addr);
        if ret == NoMemory {
          return ret, addr;
        }
        if ret != Ok {
          Sticky(kinds, cb, old(View()), start, addr, end);
          return ret, addr;
        }
        if addr < end {
          TopBound(d, addr);
        }
        dpgd := dpgd + 1;
      }
      return Ok, end;
    }

    // -------------------------------------------------------------- the mirror's operations

    /** dummy_update: exactly the range is cleared, without a single allocation, and the pages
        visited are those that had a leaf table before. */
    method Invalidate(start: nat, end: nat)
      requires Valid() && start < end <= Span(d)
      modifies this`pgd, this`tables, this`priv, this`memory, this`pool, this`paths, this`visits
      ensures pgd == old(pgd) && paths == old(paths) && pool == old(pool) && SameUpper(paths, old(tables), tables, 2)
      ensures visits == old(visits) + VisitsOf(d, old(pgd), old(tables), start, end)
      ensures Valid() && priv == old(priv) && memory == old(memory)
      ensures forall i :: 0 <= i < Span(d) ==>
        View().entries[i] == if start <= i < end then Vacant else old(View()).entries[i]
    {
      UpdateClears(kinds, View(), start, end);
      var ret, reached := Walk(Update, start, end, false);
      VisitsSame(d, pgd, old(tables), tables, paths, start, end);
    }

    /** The walk of dummy_fault, for the pages the CPU side reported: exactly the ones that are
        there are installed, all of them unless an allocation fails, and otherwise those in front
        of the page that needed it. The caller learns whether anything was missing for its kind
        of access or invalid. */
    method Install(start: nat, pfns: seq<Pfn>, write: bool)
      returns (ret: Error, missing: nat, invalid: bool, ghost done: nat)
      requires Valid() && pfns != [] && start + |pfns| <= Span(d)
      modifies this`pgd, this`tables, this`priv, this`memory, this`pool, this`paths, this`visits
      ensures Valid() && memory == old(memory)
      ensures ret == Ok || (ret == NoMemory && pool == 0)
      ensures done <= |pfns| && (ret == Ok ==> done == |pfns|)
      ensures InstalledAt(old(View()).entries, View().entries, start, pfns[..done])
      ensures missing == MissingIn(pfns[..done], write) && invalid == InvalidIn(pfns[..done])
    {
      priv := Private(start, pfns, write, 0, false, priv.bounceStart, priv.bounce, priv.copied);
      ghost var w := View();
      assert w.entries == old(View()).entries;
      ret, done := InstallAll(start, |pfns|);
      FaultOutcome(kinds, w, done, View());
      missing, invalid := priv.missing, priv.invalid;
    }

    /** The walk itself, when the private data are set up. */
    method InstallAll(start: nat, n: nat) returns (ret: Error, ghost done: nat)
      requires Valid() && 0 < n && start + n <= Span(d) && ServedAll(Fault, View(), start, start + n)
      modifies this`pgd, this`tables, this`priv, this`memory, this`pool, this`paths, this`visits
      ensures Valid() && done <= n && Outcome(Fault, old(View()), start, start + done, Ok)
      ensures if ret == Ok then done == n else ret == NoMemory && pool == 0
    {
      FaultGoesOn(kinds, View(), start, start + n);
      ghost var reached;
      ret, reached := Walk(Fault, start, start + n, true);
      done := reached - start;
    }

    /** The walk of dummy_read: it succeeds only if every page of the range can be read, and
        then the caller has each of them in its place; otherwise it must fault them in, or
        there was no memory. */
    method ReadPages(start: nat, n: nat) returns (ret: Error, data: seq<Data>)
      requires Valid() && 0 < n && start + n <= Span(d)
      modifies this`pgd, this`tables, this`priv, this`memory, this`pool, this`paths, this`visits
      ensures Valid() && (ret == NoMemory ==> pool == 0)
      ensures ret != NoMemory ==> View().entries == old(View()).entries && memory == old(memory)
      ensures ret != NoMemory ==> (ret == Ok <==> AllReachable(kinds, View().entries, false, start, start + n))
      ensures ret == Ok ==> priv.copied == |data| == n && Copied(kinds, View(), start, data)
    {
      priv := priv.(bounceStart := start, bounce := seq(n, _ => 0), copied := 0);
      ghost var w := View();
      assert w.entries == old(View()).entries;
      ghost var reached;
      ret, reached := Walk(Read, start, start + n, true);
      if ret != NoMemory { ReadOutcome(kinds, w, start + n, View(), ret); }
      data := priv.bounce;
    }

    /** The walk of dummy_write: it succeeds only if every page of the range may be written, and
        then memory holds what was to be written, if every address has a page of its own. */
    method WritePages(start: nat, data: seq<Data>) returns (ret: Error)
      requires Valid() && data != [] && start + |data| <= Span(d)
      modifies this`pgd, this`tables, this`priv, this`memory, this`pool, this`paths, this`visits
      ensures Valid() && (ret == NoMemory ==> pool == 0)
      ensures ret != NoMemory ==> View().entries == old(View()).entries
      ensures ret != NoMemory ==>
        (ret == Ok <==> AllReachable(kinds, View().entries, true, start, start + |data|))
      ensures ret == Ok ==> priv.copied == |data|
      ensures ret == Ok && OwnPages(kinds, View().entries, start, start + |data|) ==>
        Copied(kinds, View(), start, data)
    {
      priv := priv.(bounceStart := start, bounce := data, copied := 0);
      ghost var w := View();
      assert w.entries == old(View()).entries;
      ghost var reached;
      ret, reached := Walk(Write, start, start + |data|, true);
      if ret != NoMemory { WriteOutcome(kinds, w, start + |data|, View(), ret); }
    }
  }
}
