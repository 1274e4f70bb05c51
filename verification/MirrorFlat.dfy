/** What the device page table of hmm_dmirror.c means: a flat sequence of entries, one for
    every page of the span, and what each walk callback does to it, page by page. */
module MirrorFlat {
  /** What a page holds; nothing looks inside. */
  type Data = nat

  /** A slot of a table page. Upper tables point to lower ones, leaf slots to pages. */
  datatype Entry = Vacant | Lower(table: nat) | Page(number: nat, write: bool)

  /** What the CPU side says about a page: special or bad memory, not there, or there. */
  datatype Pfn = Invalid | Missing | Present(number: nat, write: bool)

  /** Ordinary memory, device memory of this mirror with the page behind it, or of another. */
  datatype Kind = Host | Mine(behind: nat) | Foreign

  type Kinds = map<nat, Kind>

  type Memory = map<nat, Data>

  datatype Error = Ok | NoEntry | NoMemory

  datatype Callback = Update | Fault | Read | Write

  /** dummy_fault and dummy_bounce: what a callback is given besides the table. Offsets are
      counted in pages. */
  datatype Private = Private(faultStart: nat, pfns: seq<Pfn>, forWrite: bool, missing: nat, invalid: bool,
                             bounceStart: nat, bounce: seq<Data>, copied: nat)

  datatype World = World(entries: seq<Entry>, priv: Private, memory: Memory)

  function KindOf(kinds: Kinds, page: nat): Kind {
    if page in kinds then kinds[page] else Host
  }

  function Content(memory: Memory, page: nat): Data {
    if page in memory then memory[page] else 0
  }

  /** The page a read or write goes to, if it may. */
  function Target(kinds: Kinds, e: Entry, write: bool): (t: Entry)
    ensures t.Vacant? || t.Page?
  {
    if !e.Page? || (write && !e.write) then Vacant
    else
      match KindOf(kinds, e.number)
      case Host => e
      case Mine(behind) => e.(number := behind)
      case Foreign => Vacant
  }

  /** Can the callback look at this page's private data? */
  predicate Served(cb: Callback, p: Private, a: nat) {
    match cb
    case Update => true
    case Fault => p.faultStart <= a < p.faultStart + |p.pfns|
    case Read => p.bounceStart <= a < p.bounceStart + |p.bounce|
    case Write => p.bounceStart <= a < p.bounceStart + |p.bounce|
  }

  /** What no callback changes of the private data. */
  predicate SamePlan(p: Private, q: Private) {
    && p.faultStart == q.faultStart && p.pfns == q.pfns && p.forWrite == q.forWrite
    && p.bounceStart == q.bounceStart && |p.bounce| == |q.bounce|
  }

  /** One callback on one page. */
  function OnPage(kinds: Kinds, cb: Callback, w: World, a: nat): (r: (World, Error))
    requires a < |w.entries| && Served(cb, w.priv, a)
    ensures |r.0.entries| == |w.entries| && SamePlan(r.0.priv, w.priv) && r.1 != NoMemory
  {
    var p := w.priv;
    match cb
    case Update => (w.(entries := w.entries[a := Vacant]), Ok)
    case Fault => (
      match p.pfns[a - p.faultStart]
      case Invalid => (w.(priv := p.(invalid := true)), Ok)
      case Missing => (w.(priv := p.(missing := p.missing + 1)), Ok)
      case Present(n, write) =>
        (w.(entries := w.entries[a := Page(n, write)],
            priv := if !write && p.forWrite then p.(missing := p.missing + 1) else p), Ok)
    )
    case Read =>
      var t := Target(kinds, w.entries[a], false);
      if t.Vacant? then (w, NoEntry)
      else
        (w.(priv := p.(bounce := p.bounce[a - p.bounceStart := Content(w.memory, t.number)],
                       copied := p.copied + 1)), Ok)
    case Write =>
      var t := Target(kinds, w.entries[a], true);
      if t.Vacant? then (w, NoEntry)
      else
        (w.(memory := w.memory[t.number := p.bounce[a - p.bounceStart]], priv := p.(copied := p.copied + 1)), Ok)
  }

  ghost predicate ServedAll(cb: Callback, w: World, a: nat, b: nat) {
    b <= |w.entries| && forall i :: a <= i < b ==> Served(cb, w.priv, i)
  }

  /** The callback on the pages from `a` to `b`, in order, up to the first error. */
  ghost function OnPages(kinds: Kinds, cb: Callback, w: World, a: nat, b: nat): (r: (World, Error))
    requires a <= b && ServedAll(cb, w, a, b)
    ensures |r.0.entries| == |w.entries| && SamePlan(r.0.priv, w.priv) && r.1 != NoMemory
    decreases b - a
  {
    if a == b then (w, Ok)
    else
      var (w1, r1) := OnPages(kinds, cb, w, a, b - 1);
      assert Served(cb, w.priv, b - 1);
      if r1 != Ok then (w1, r1) else OnPage(kinds, cb, w1, b - 1)
  }

  /** Stopping at an error: later pages do not matter. */
  lemma {:induction false} Sticky(kinds: Kinds, cb: Callback, w: World, a: nat, b: nat, c: nat)
    requires a <= b <= c && ServedAll(cb, w, a, c) && OnPages(kinds, cb, w, a, b).1 != Ok
    ensures OnPages(kinds, cb, w, a, c) == OnPages(kinds, cb, w, a, b)
    decreases c - b
  {
    if b < c { Sticky(kinds, cb, w, a, b, c - 1); }
  }

  // ---------------------------------------------------------------- update

  /** Invalidating clears exactly its range and nothing else. */
  lemma {:induction false} UpdateClears(kinds: Kinds, w: World, a: nat, b: nat)
    requires a <= b && ServedAll(Update, w, a, b)
    ensures var (w', r) := OnPages(kinds, Update, w, a, b);
      && r == Ok && w'.priv == w.priv && w'.memory == w.memory
      && forall i :: 0 <= i < |w.entries| ==> w'.entries[i] == if a <= i < b then Vacant else w.entries[i]
    decreases b - a
  {
    if a < b { UpdateClears(kinds, w, a, b - 1); }
  }

  // ---------------------------------------------------------------- fault

  function MissingIn(pfns: seq<Pfn>, write: bool): nat {
    if pfns == [] then 0
    else
      var p := pfns[|pfns| - 1];
      MissingIn(pfns[..|pfns| - 1], write) + if p.Missing? || (p.Present? && !p.write && write) then 1 else 0
  }

  function InvalidIn(pfns: seq<Pfn>): bool {
    pfns != [] && (InvalidIn(pfns[..|pfns| - 1]) || pfns[|pfns| - 1].Invalid?)
  }

  lemma CountOneMore(pfns: seq<Pfn>, n: nat, write: bool)
    requires 0 < n <= |pfns|
    ensures MissingIn(pfns[..n], write)
         == MissingIn(pfns[..n - 1], write)
          + if pfns[n - 1].Missing? || (pfns[n - 1].Present? && !pfns[n - 1].write && write) then 1 else 0
    ensures InvalidIn(pfns[..n]) <==> InvalidIn(pfns[..n - 1]) || pfns[n - 1].Invalid?
  {
    assert pfns[..n][..n - 1] == pfns[..n - 1];
  }

  /** A fault installs exactly the pages that are there. */
  lemma {:induction false} FaultInstalls(kinds: Kinds, w: World, n: nat)
    requires n <= |w.priv.pfns| && w.priv.faultStart + n <= |w.entries|
    requires ServedAll(Fault, w, w.priv.faultStart, w.priv.faultStart + n)
    ensures var p := w.priv;
      var (w', r) := OnPages(kinds, Fault, w, p.faultStart, p.faultStart + n);
      && r == Ok && w'.memory == w.memory && w'.priv.bounce == p.bounce
      && forall i :: 0 <= i < |w.entries| ==>
        w'.entries[i] == if p.faultStart <= i < p.faultStart + n && p.pfns[i - p.faultStart].Present?
                         then Page(p.pfns[i - p.faultStart].number, p.pfns[i - p.faultStart].write)
                         else w.entries[i]
    decreases n
  {
    if n > 0 { FaultInstalls(kinds, w, n - 1); }
  }

  lemma {:induction false} FaultGoesOn(kinds: Kinds, w: World, a: nat, b: nat)
    requires a <= b && ServedAll(Fault, w, a, b)
    ensures OnPages(kinds, Fault, w, a, b).1 == Ok
    decreases b - a
  {
    if a < b { FaultGoesOn(kinds, w, a, b - 1); }
  }

  /** It counts what is missing for the kind of access, and notes whether anything was
      invalid. */
  lemma {:induction false} FaultCounts(kinds: Kinds, w: World, n: nat)
    requires n <= |w.priv.pfns| && w.priv.faultStart + n <= |w.entries|
    requires ServedAll(Fault, w, w.priv.faultStart, w.priv.faultStart + n)
    ensures var p := w.priv;
      var p' := OnPages(kinds, Fault, w, p.faultStart, p.faultStart + n).0.priv;
      && p'.missing == p.missing + MissingIn(p.pfns[..n], p.forWrite)
      && (p'.invalid <==> p.invalid || InvalidIn(p.pfns[..n]))
    decreases n
  {
    if n > 0 {
      FaultCounts(kinds, w, n - 1);
      FaultGoesOn(kinds, w, w.priv.faultStart, w.priv.faultStart + n - 1);
      CountOneMore(w.priv.pfns, n, w.priv.forWrite);
    }
  }

  // ---------------------------------------------------------------- read and write

  ghost predicate AllReachable(kinds: Kinds, entries: seq<Entry>, write: bool, a: nat, b: nat)
    requires b <= |entries|
  {
    forall i :: a <= i < b ==> Target(kinds, entries[i], write).Page?
  }

  /** A read succeeds exactly when every page of the range can be read; then every page has
      been copied to its own place, and nothing else of the bounce buffer has changed. */
  lemma {:induction false} ReadCopies(kinds: Kinds, w: World, a: nat, b: nat)
    requires a <= b && ServedAll(Read, w, a, b) && w.priv.bounceStart <= a
    ensures var p := w.priv;
      var (w', r) := OnPages(kinds, Read, w, a, b);
      && w'.entries == w.entries && w'.memory == w.memory
      && (r == Ok || r == NoEntry)
      && (r == Ok <==> AllReachable(kinds, w.entries, false, a, b))
      && (r == Ok ==>
            && w'.priv.copied == p.copied + (b - a)
            && forall i :: 0 <= i < |p.bounce| ==>
              w'.priv.bounce[i] == if a <= p.bounceStart + i < b
                                   then Content(w.memory, Target(kinds, w.entries[p.bounceStart + i], false).number)
                                   else p.bounce[i])
    decreases b - a
  {
    if a < b { ReadCopies(kinds, w, a, b - 1); }
  }

  /** A write succeeds exactly when every page of the range may be written. Then a page that
      a single address of the range leads to holds what was meant for that address, and
      pages that none leads to are untouched. */
  lemma {:induction false} WriteCopies(kinds: Kinds, w: World, a: nat, b: nat)
    requires a <= b && ServedAll(Write, w, a, b) && w.priv.bounceStart <= a
    ensures var p := w.priv;
      var (w', r) := OnPages(kinds, Write, w, a, b);
      && w'.entries == w.entries && w'.priv == p.(copied := w'.priv.copied)
      && (r == Ok || r == NoEntry)
      && (r == Ok <==> AllReachable(kinds, w.entries, true, a, b))
      && (r == Ok ==> w'.priv.copied == p.copied + (b - a))
    ensures forall page: nat | OnPages(kinds, Write, w, a, b).1 == Ok ::
      Content(OnPages(kinds, Write, w, a, b).0.memory, page) == Written(kinds, w, a, b, page)
    decreases b - a
  {
    if a < b { WriteCopies(kinds, w, a, b - 1); }
  }

  /** What a page holds after the pages from `a` to `b` were written: what the last address
      that leads to it was to get. */
  function Written(kinds: Kinds, w: World, a: nat, b: nat, page: nat): Data
    requires a <= b <= |w.entries| && forall i :: a <= i < b ==> Served(Write, w.priv, i)
    decreases b - a
  {
    if a == b then Content(w.memory, page)
    else
      var t := Target(kinds, w.entries[b - 1], true);
      assert Served(Write, w.priv, b - 1);
      if t.Page? && t.number == page then w.priv.bounce[b - 1 - w.priv.bounceStart]
      else Written(kinds, w, a, b - 1, page)
  }

  /** No two addresses of the range lead to the same page. */
  ghost predicate OwnPages(kinds: Kinds, entries: seq<Entry>, a: nat, b: nat)
    requires b <= |entries|
  {
    forall i, j :: a <= i < j < b ==> !SamePage(Target(kinds, entries[i], true), Target(kinds, entries[j], true))
  }

  predicate SamePage(s: Entry, t: Entry) {
    s.Page? && t.Page? && s.number == t.number
  }

  lemma ReadableToo(kinds: Kinds, entries: seq<Entry>, a: nat, b: nat)
    requires b <= |entries| && AllReachable(kinds, entries, true, a, b)
    ensures AllReachable(kinds, entries, false, a, b)
    ensures forall i :: a <= i < b ==> Target(kinds, entries[i], false) == Target(kinds, entries[i], true)
  {
  }

  lemma {:induction false} WrittenOnce(kinds: Kinds, w: World, a: nat, b: nat, i: nat)
    requires a <= i < b && ServedAll(Write, w, a, b)
    requires AllReachable(kinds, w.entries, true, a, b) && OwnPages(kinds, w.entries, a, b)
    ensures Served(Write, w.priv, i)
    ensures Written(kinds, w, a, b, Target(kinds, w.entries[i], true).number)
         == w.priv.bounce[i - w.priv.bounceStart]
    decreases b - a
  {
    if i < b - 1 { WrittenOnce(kinds, w, a, b - 1, i); }
  }

  /** Exactly the pages that are there are installed. */
  ghost predicate InstalledAt(entries: seq<Entry>, entries': seq<Entry>, start: nat, pfns: seq<Pfn>) {
    && |entries'| == |entries| && start + |pfns| <= |entries|
    && forall i :: 0 <= i < |entries| ==>
      entries'[i] == if start <= i < start + |pfns| && pfns[i - start].Present?
                     then Page(pfns[i - start].number, pfns[i - start].write)
                     else entries[i]
  }

  /** The data are what the pages hold that the addresses from `start` on lead to. */
  ghost predicate Copied(kinds: Kinds, w: World, start: nat, data: seq<Data>) {
    && start + |data| <= |w.entries|
    && forall i :: 0 <= i < |data| ==> Leads(kinds, w, start + i, data[i])
  }

  predicate Leads(kinds: Kinds, w: World, a: nat, x: Data)
    requires a < |w.entries|
  {
    var t := Target(kinds, w.entries[a], false);
    t.Page? && Content(w.memory, t.number) == x
  }

  /** What a read has copied is determined by what the mirror and memory hold. */
  lemma CopiedOnce(kinds: Kinds, w: World, start: nat, written: seq<Data>, read: seq<Data>)
    requires Copied(kinds, w, start, written) && Copied(kinds, w, start, read) && |written| == |read|
    ensures written == read
  {
    forall i | 0 <= i < |read| ensures written[i] == read[i] {
      assert Leads(kinds, w, start + i, written[i]) && Leads(kinds, w, start + i, read[i]);
    }
  }

  /** After a fault that found nothing missing or invalid, the pages it was for can be read,
      and written if it was a fault for writing, unless one is another mirror's device
      memory; and each address leads to the CPU's page. */
  lemma FaultedIsReachable(kinds: Kinds, entries: seq<Entry>, entries': seq<Entry>, start: nat,
                           pfns: seq<Pfn>, write: bool)
    requires InstalledAt(entries, entries', start, pfns)
    requires MissingIn(pfns, write) == 0 && !InvalidIn(pfns)
    requires forall i :: 0 <= i < |pfns| && pfns[i].Present? ==> !KindOf(kinds, pfns[i].number).Foreign?
    ensures AllReachable(kinds, entries', write, start, start + |pfns|)
    ensures forall i :: 0 <= i < |pfns| ==> pfns[i].Present?
    ensures forall i :: 0 <= i < |pfns| ==>
      Target(kinds, entries'[start + i], write) == Page(Behind(kinds, pfns[i].number), pfns[i].write)
  {
    NothingMissing(pfns, write);
    forall i | start <= i < start + |pfns| ensures Target(kinds, entries'[i], write).Page? {
      assert entries'[i] == Page(pfns[i - start].number, pfns[i - start].write);
    }
  }

  function Behind(kinds: Kinds, page: nat): nat {
    if KindOf(kinds, page).Mine? then KindOf(kinds, page).behind else page
  }

  lemma {:induction false} NothingMissing(pfns: seq<Pfn>, write: bool)
    requires MissingIn(pfns, write) == 0 && !InvalidIn(pfns)
    ensures forall i :: 0 <= i < |pfns| ==> pfns[i].Present? && (write ==> pfns[i].write)
    decreases |pfns|
  {
    if pfns != [] { NothingMissing(pfns[..|pfns| - 1], write); }
  }
}
