/** What every step of the DMA channel keeps, whatever order clients, interrupts and the
    tasklet come in. */
module DmaSafety {
  import opened DmaSpec

  // ---------------------------------------------------------------- bookkeeping

  /** Every segment request is in exactly one list, once: the free list, the pending list or
      one descriptor's transfer list. */
  ghost predicate SgsOnce(n: nat, freeSg: seq<nat>, pending: seq<nat>, descs: seq<Desc>) {
    forall s: nat :: Count(freeSg, s) + Count(pending, s) + TxCount(descs, s) == if s < n then 1 else 0
  }

  /** Every descriptor is free once, or submitted and its last segment pending once, or with
      the client. */
  ghost predicate DescsOnce(n: nat, freeDesc: seq<nat>, ends: seq<nat>) {
    forall d: nat :: Count(freeDesc, d) + Count(ends, d) <= if d < n then 1 else 0
  }

  /** A descriptor is on the callback list once if it is owed callbacks, and else not. */
  ghost predicate CallbacksOnce(descs: seq<Desc>, cbDesc: seq<nat>) {
    forall d: nat :: Count(cbDesc, d) == if d < |descs| && descs[d].cbCount > 0 then 1 else 0
  }

  /** Is a transfer list complete, that is, what a prepare function has returned? */
  predicate Prepared(sgs: seq<SgReq>, tx: seq<nat>)
    requires Within(sgs, tx)
  {
    tx != [] && sgs[tx[|tx| - 1]].lastSg
  }

  ghost predicate TxOk(sgs: seq<SgReq>, d: nat, desc: Desc) {
    && Within(sgs, desc.txList)
    && (forall i :: 0 <= i < |desc.txList| ==> sgs[desc.txList[i]].desc == d)
    && (forall i :: 0 <= i < |desc.txList| - 1 ==> !sgs[desc.txList[i]].lastSg)
    && (Prepared(sgs, desc.txList) ==>
          desc.requested == SumLen(sgs, desc.txList) && desc.transferred == 0)
  }

  ghost predicate AllTxOk(sgs: seq<SgReq>, descs: seq<Desc>) {
    forall d :: 0 <= d < |descs| ==> TxOk(sgs, d, descs[d])
  }

  /** A free or submitted descriptor has no transfer list. */
  ghost predicate IdleEmpty(descs: seq<Desc>, freeDesc: seq<nat>, ends: seq<nat>) {
    forall d :: 0 <= d < |descs| && Count(freeDesc, d) + Count(ends, d) > 0 ==> descs[d].txList == []
  }

  ghost predicate Books(c: Channel) {
    && Ranges(c)
    && SgsOnce(|c.sgs|, c.freeSg, c.pending, c.descs)
    && DescsOnce(|c.descs|, c.freeDesc, Ends(c.sgs, c.pending))
    && CallbacksOnce(c.descs, c.cbDesc)
    && AllTxOk(c.sgs, c.descs)
    && IdleEmpty(c.descs, c.freeDesc, Ends(c.sgs, c.pending))
  }

  // ---------------------------------------------------------------- whole transfers

  /** Every pending segment's descriptor has its last segment pending. */
  ghost predicate Chained(c: Channel)
    requires Ranges(c)
  {
    forall i :: 0 <= i < |c.pending| ==> Count(Ends(c.sgs, c.pending), c.sgs[c.pending[i]].desc) > 0
  }

  /** A descriptor's segments are neighbours, up to its last one. */
  ghost predicate Adjacent(sgs: seq<SgReq>, p: seq<nat>)
    requires Within(sgs, p)
  {
    forall i :: 0 <= i < |p| && !sgs[p[i]].lastSg ==> i + 1 < |p| && sgs[p[i + 1]].desc == sgs[p[i]].desc
  }

  /** What a submitted descriptor has transferred and what it still has pending is what was
      requested. */
  ghost predicate Balanced(c: Channel)
    requires Ranges(c)
  {
    forall d :: 0 <= d < |c.descs| && Count(Ends(c.sgs, c.pending), d) > 0 ==>
      && c.descs[d].transferred + Owed(c.sgs, c.pending, d) == c.descs[d].requested
      && (c.handler == Absent ==> c.descs[d].transferred == 0)
  }

  ghost predicate Modes(c: Channel) {
    && (c.handler == Once ==> !c.cyclic)
    && (c.handler == Cyclic ==> c.cyclic)
    && (c.busy ==> c.pending != [])
  }

  ghost predicate Inv(c: Channel) {
    && Books(c) && Chained(c) && Modes(c)
    && (c.handler != Cyclic ==> Adjacent(c.sgs, c.pending) && Balanced(c))
  }

  /** The descriptor is with the client: a prepare function has taken it. */
  predicate Held(c: Channel, d: nat)
    requires Within(c.sgs, c.pending)
  {
    d < |c.descs| && Count(c.freeDesc, d) == 0 && Count(Ends(c.sgs, c.pending), d) == 0
  }

  /** A channel as it is after probe, with nothing allocated yet. */
  predicate Empty(c: Channel) {
    && c.sgs == [] && c.descs == [] && c.freeSg == [] && c.pending == []
    && c.freeDesc == [] && c.cbDesc == [] && !c.busy && c.handler == Absent
  }

  lemma EmptyInv(c: Channel)
    requires Empty(c)
    ensures Inv(c)
  {
  }

  // ---------------------------------------------------------------- frames

  /** Requests that agree where a list looks give it the same ends and bytes. */
  ghost predicate Agree(a: seq<SgReq>, b: seq<SgReq>, p: seq<nat>) {
    && Within(a, p) && Within(b, p)
    && forall i :: 0 <= i < |p| ==> Same(a[p[i]], b[p[i]])
  }

  predicate Same(x: SgReq, y: SgReq) {
    x.reqLen == y.reqLen && x.lastSg == y.lastSg && x.desc == y.desc
  }

  lemma {:induction false} AgreeOn(a: seq<SgReq>, b: seq<SgReq>, p: seq<nat>)
    requires Agree(a, b, p)
    ensures Ends(a, p) == Ends(b, p)
    ensures forall d :: Owed(a, p, d) == Owed(b, p, d)
  {
    if p != [] { AgreeOn(a, b, p[1..]); }
  }

  lemma {:induction false} AgreeSum(a: seq<SgReq>, b: seq<SgReq>, p: seq<nat>)
    requires Agree(a, b, p)
    ensures SumLen(a, p) == SumLen(b, p)
    decreases |p|
  {
    if p != [] { AgreeSum(a, b, p[..|p| - 1]); }
  }

  lemma TxAgree(a: seq<SgReq>, b: seq<SgReq>, d: nat, desc: Desc)
    requires TxOk(a, d, desc) && Agree(a, b, desc.txList)
    ensures TxOk(b, d, desc)
  {
    AgreeSum(a, b, desc.txList);
  }

  /** Flags do not matter to the bookkeeping. */
  ghost predicate SameShape(a: seq<SgReq>, b: seq<SgReq>) {
    |a| == |b| && forall s :: 0 <= s < |a| ==> Same(a[s], b[s])
  }

  lemma FlagsKeep(c: Channel, sgs: seq<SgReq>)
    requires Inv(c) && SameShape(c.sgs, sgs)
    ensures Inv(c.(sgs := sgs)) && Ends(sgs, c.pending) == Ends(c.sgs, c.pending)
  {
    AgreeOn(c.sgs, sgs, c.pending);
    forall d | 0 <= d < |c.descs| ensures TxOk(sgs, d, c.descs[d]) {
      TxAgree(c.sgs, sgs, d, c.descs[d]);
    }
  }

  /** Updating a descriptor without touching its transfer list keeps every list. */
  lemma DescKeeps(c: Channel, d: nat, x: Desc)
    requires Books(c) && d < |c.descs| && x.txList == c.descs[d].txList
    requires x.txList == [] || (x.requested == c.descs[d].requested && x.transferred == c.descs[d].transferred)
    ensures SgsOnce(|c.sgs|, c.freeSg, c.pending, c.descs[d := x])
    ensures AllTxOk(c.sgs, c.descs[d := x])
    ensures IdleEmpty(c.descs[d := x], c.freeDesc, Ends(c.sgs, c.pending))
  {
    forall s: nat ensures TxCount(c.descs[d := x], s) == TxCount(c.descs, s) {
      TxUpdate(c.descs, d, x, s);
    }
  }

  lemma NotifyCounts(c: Channel, d: nat)
    requires CallbacksOnce(c.descs, c.cbDesc) && d < |c.descs|
    ensures CallbacksOnce(Notify(c, d).descs, Notify(c, d).cbDesc)
  {
    forall e: nat ensures Count(c.cbDesc + [d], e) == Count(c.cbDesc, e) + if d == e then 1 else 0 {
      CountAppend(c.cbDesc, [d], e);
    }
  }

  lemma NotifyBooks(c: Channel, d: nat)
    requires Books(c) && d < |c.descs|
    ensures Books(Notify(c, d))
  {
    NotifyCounts(c, d);
    DescKeeps(c, d, Notify(c, d).descs[d]);
  }

  lemma CreditBooks(c: Channel, d: nat, bytes: int)
    requires Books(c) && d < |c.descs| && c.descs[d].txList == []
    ensures Books(Credit(c, d, bytes))
  {
    DescKeeps(c, d, Credit(c, d, bytes).descs[d]);
  }

  lemma StatusBooks(c: Channel, d: nat, status: Status)
    requires Books(c) && d < |c.descs|
    ensures Books(c.(descs := c.descs[d := c.descs[d].(status := status)]))
  {
    DescKeeps(c, d, c.descs[d].(status := status));
  }

  // ---------------------------------------------------------------- taking the head

  lemma MoveHeadBooks(c: Channel)
    requires Books(c) && c.pending != []
    ensures Books(MoveHead(c))
    ensures Ends(c.sgs, c.pending)
         == (if c.sgs[c.pending[0]].lastSg then [c.sgs[c.pending[0]].desc] else []) + Ends(c.sgs, c.pending[1..])
    ensures c.sgs[c.pending[0]].lastSg ==> Held(MoveHead(c), c.sgs[c.pending[0]].desc)
    ensures c.sgs[c.pending[0]].lastSg ==> c.descs[c.sgs[c.pending[0]].desc].txList == []
  {
    var h := c.pending[0];
    forall s: nat ensures Count(c.freeSg + [h], s) == Count(c.freeSg, s) + if h == s then 1 else 0 {
      CountAppend(c.freeSg, [h], s);
    }
    var first := if c.sgs[h].lastSg then [c.sgs[h].desc] else [];
    forall d: nat
      ensures Count(Ends(c.sgs, c.pending), d) == Count(first, d) + Count(Ends(c.sgs, c.pending[1..]), d)
    {
      CountAppend(first, Ends(c.sgs, c.pending[1..]), d);
    }
  }

  lemma RetireBooks(c: Channel, d: nat, status: Status)
    requires Books(c) && Held(c, d) && c.descs[d].txList == []
    ensures Books(Retire(c, d, status))
  {
    StatusBooks(c, d, status);
    var c' := c.(descs := c.descs[d := c.descs[d].(status := status)]);
    NotifyBooks(c', d);
    forall e: nat ensures Count(c.freeDesc + [d], e) == Count(c.freeDesc, e) + if d == e then 1 else 0 {
      CountAppend(c.freeDesc, [d], e);
    }
  }

  lemma LeaveBooks(c: Channel, status: Status)
    requires Books(c) && c.pending != []
    ensures Books(Leave(c, status))
  {
    MoveHeadBooks(c);
    if c.sgs[c.pending[0]].lastSg {
      RetireBooks(MoveHead(c), c.sgs[c.pending[0]].desc, status);
    }
  }

  // ---------------------------------------------------------------- aborting

  /** All callbacks owed. */
  function SumCb(descs: seq<Desc>): nat {
    if descs == [] then 0 else SumCb(descs[..|descs| - 1]) + descs[|descs| - 1].cbCount
  }

  lemma {:induction false} SumCbUpdate(descs: seq<Desc>, d: nat, x: Desc)
    requires d < |descs|
    ensures SumCb(descs[d := x]) + descs[d].cbCount == SumCb(descs) + x.cbCount
    ensures descs[d].cbCount <= SumCb(descs)
    decreases |descs|
  {
    var n := |descs| - 1;
    var descs' := descs[d := x];
    if d < n {
      SumCbUpdate(descs[..n], d, x);
      assert descs'[..n] == descs[..n][d := x];
    } else {
      assert descs'[..n] == descs[..n];
    }
  }

  lemma {:induction false} AbortBooks(c: Channel)
    requires Books(c)
    ensures Books(AbortAll(c))
    decreases |c.pending|
  {
    if c.pending != [] {
      LeaveBooks(c, Error);
      AbortBooks(Leave(c, Error));
    }
  }

  /** Aborting empties the pending list: every segment goes to the free list and every
      submitted descriptor becomes free, in their order. */
  lemma {:induction false} AbortFrees(c: Channel)
    requires Ranges(c)
    ensures var c' := AbortAll(c);
      && c'.pending == [] && c'.handler == Absent
      && c'.freeSg == c.freeSg + c.pending
      && c'.freeDesc == c.freeDesc + Ends(c.sgs, c.pending)
    decreases |c.pending|
  {
    if c.pending == [] {
      assert c.freeSg + [] == c.freeSg && c.freeDesc + [] == c.freeDesc;
    } else {
      AbortFrees(Leave(c, Error));
      var first := if c.sgs[c.pending[0]].lastSg then [c.sgs[c.pending[0]].desc] else [];
      var ends := Ends(c.sgs, c.pending[1..]);
      Regroup(c.freeSg, [c.pending[0]], c.pending[1..]);
      assert [c.pending[0]] + c.pending[1..] == c.pending;
      Regroup(c.freeDesc, first, ends);
    }
  }

  lemma Regroup(a: seq<nat>, b: seq<nat>, c: seq<nat>)
    ensures a + b + c == a + (b + c)
  {
  }

  /** And each of them is an error now and owed one callback more. */
  lemma {:induction false} AbortMarks(c: Channel, d: nat)
    requires Books(c) && d < |c.descs|
    ensures AbortAll(c).descs[d]
         == if Count(Ends(c.sgs, c.pending), d) > 0
            then c.descs[d].(status := Error, cbCount := c.descs[d].cbCount + 1) else c.descs[d]
    decreases |c.pending|
  {
    if c.pending != [] {
      var sg := c.sgs[c.pending[0]];
      MoveHeadBooks(c);
      LeaveBooks(c, Error);
      AbortMarks(Leave(c, Error), d);
      CountAppend(if sg.lastSg then [sg.desc] else [], Ends(c.sgs, c.pending[1..]), d);
    }
  }

  lemma {:induction false} AbortOwes(c: Channel)
    requires Ranges(c)
    ensures SumCb(AbortAll(c).descs) == SumCb(c.descs) + |Ends(c.sgs, c.pending)|
    decreases |c.pending|
  {
    if c.pending != [] {
      AbortOwes(Leave(c, Error));
      LeaveOwes(c, Error);
    }
  }

  lemma LeaveOwes(c: Channel, status: Status)
    requires Ranges(c) && c.pending != []
    ensures SumCb(Leave(c, status).descs) == SumCb(c.descs) + if c.sgs[c.pending[0]].lastSg then 1 else 0
  {
    if c.sgs[c.pending[0]].lastSg { RetireOwes(MoveHead(c), c.sgs[c.pending[0]].desc, status); }
  }

  lemma RetireOwes(c: Channel, d: nat, status: Status)
    requires d < |c.descs|
    ensures SumCb(Retire(c, d, status).descs) == SumCb(c.descs) + 1
  {
    var x := c.descs[d].(status := status, cbCount := c.descs[d].cbCount + 1);
    SumCbUpdate(c.descs, d, x);
    assert Retire(c, d, status).descs == c.descs[d := x];
  }

  lemma AbortInv(c: Channel)
    requires Books(c) && !c.busy
    ensures Inv(AbortAll(c))
  {
    AbortBooks(c);
  }

  // ---------------------------------------------------------------- interrupts

  lemma {:induction false} EndBehind(sgs: seq<SgReq>, p: seq<nat>, i: nat)
    requires Within(sgs, p) && Adjacent(sgs, p) && i < |p|
    ensures Count(Ends(sgs, p), sgs[p[i]].desc) > 0
    decreases |p|
  {
    var d := sgs[p[i]].desc;
    var first := if sgs[p[0]].lastSg then [sgs[p[0]].desc] else [];
    CountAppend(first, Ends(sgs, p[1..]), d);
    if i > 0 {
      EndBehind(sgs, p[1..], i - 1);
    } else if !sgs[p[0]].lastSg {
      EndBehind(sgs, p[1..], 0);
    }
  }

  /** The head's descriptor is submitted, so it has no transfer list of its own. */
  lemma HeadSubmitted(c: Channel)
    requires Books(c) && Chained(c) && c.pending != []
    ensures c.descs[c.sgs[c.pending[0]].desc].txList == []
  {
  }

  lemma OnceInv(c: Channel, toTerminate: bool)
    requires Inv(c) && c.handler == Once && c.pending != []
    ensures Inv(HandleOnce(c, toTerminate))
  {
    var sg := c.sgs[c.pending[0]];
    var c' := Leave(Credit(c.(busy := false), sg.desc, sg.reqLen), Complete);
    DoneBooks(c);
    LeaveBalanced(c, c');
    AdjacentChained(c');
    if !toTerminate && c'.pending != [] {
      StartInv(c');
    }
  }

  lemma DoneBooks(c: Channel)
    requires Books(c) && Chained(c) && c.pending != []
    ensures var sg := c.sgs[c.pending[0]];
      Books(Leave(Credit(c.(busy := false), sg.desc, sg.reqLen), Complete))
  {
    HeadSubmitted(c);
    var sg := c.sgs[c.pending[0]];
    CreditBooks(c.(busy := false), sg.desc, sg.reqLen);
    LeaveBooks(Credit(c.(busy := false), sg.desc, sg.reqLen), Complete);
  }

  lemma AdjacentChained(c: Channel)
    requires Ranges(c) && Adjacent(c.sgs, c.pending)
    ensures Chained(c)
  {
    forall i | 0 <= i < |c.pending| ensures Count(Ends(c.sgs, c.pending), c.sgs[c.pending[i]].desc) > 0 {
      EndBehind(c.sgs, c.pending, i);
    }
  }

  lemma LeaveBalanced(c: Channel, c': Channel)
    requires Inv(c) && c.handler == Once && c.pending != [] && Ranges(c')
    requires c' == Leave(Credit(c.(busy := false), c.sgs[c.pending[0]].desc, c.sgs[c.pending[0]].reqLen), Complete)
    ensures Balanced(c')
  {
    MoveHeadBooks(c);
    var ends, ends' := Ends(c.sgs, c.pending), Ends(c.sgs, c.pending[1..]);
    var sg := c.sgs[c.pending[0]];
    forall d | 0 <= d < |c.descs| && Count(ends', d) > 0
      ensures c'.descs[d].transferred + Owed(c'.sgs, c'.pending, d) == c'.descs[d].requested
    {
      CountAppend(if sg.lastSg then [sg.desc] else [], ends', d);
      assert Count(ends, d) > 0;
    }
  }

  lemma StartInv(c: Channel)
    requires Inv(c) && c.pending != []
    ensures Inv(StartHead(c))
  {
    FlagsKeep(c, StartHead(c).sgs);
  }

  lemma ConfigureInv(c: Channel, eoc: bool)
    requires Inv(c)
    ensures Inv(ConfigureNext(c, eoc))
  {
    if |c.pending| >= 2 { FlagsKeep(c, ConfigureNext(c, eoc).sgs); }
  }

  lemma RotateCounts(sgs: seq<SgReq>, p: seq<nat>)
    requires Within(sgs, p)
    ensures Within(sgs, Rotate(p))
    ensures forall x :: Count(Rotate(p), x) == Count(p, x)
    ensures forall d :: Count(Ends(sgs, Rotate(p)), d) == Count(Ends(sgs, p), d)
    ensures |Ends(sgs, Rotate(p))| == |Ends(sgs, p)|
  {
    if p != [] {
      var first := if sgs[p[0]].lastSg then [sgs[p[0]].desc] else [];
      EndsAppend(sgs, p[1..], [p[0]]);
      assert Ends(sgs, [p[0]]) == first + [] == first;
      forall x ensures Count(Rotate(p), x) == Count(p, x) {
        CountAppend(p[1..], [p[0]], x);
      }
      forall d ensures Count(Ends(sgs, Rotate(p)), d) == Count(Ends(sgs, p), d) {
        CountAppend(Ends(sgs, p[1..]), first, d);
        CountAppend(first, Ends(sgs, p[1..]), d);
      }
    }
  }

  lemma RotateInv(c: Channel)
    requires Inv(c) && c.handler == Cyclic
    ensures Inv(c.(pending := Rotate(c.pending)))
  {
    RotateCounts(c.sgs, c.pending);
  }

  /** The credit and the notification of a finished period. */
  function Count1(c: Channel): Channel
    requires Ranges(c) && c.pending != []
  {
    var sg := c.sgs[c.pending[0]];
    Notify(Credit(c, sg.desc, sg.reqLen), sg.desc)
  }

  lemma PeriodInv(c: Channel)
    requires Inv(c) && c.handler == Cyclic && c.pending != []
    ensures Inv(Count1(c))
  {
    var sg := c.sgs[c.pending[0]];
    HeadSubmitted(c);
    CreditBooks(c, sg.desc, sg.reqLen);
    NotifyBooks(Credit(c, sg.desc, sg.reqLen), sg.desc);
  }

  /** The next period's request, after a rotation with its flags cleared. */
  function Turned(c: Channel): Channel
    requires Ranges(c) && c.pending != []
  {
    var h := c.pending[0];
    var c1 := Count1(c);
    c1.(pending := Rotate(c.pending), sgs := c.sgs[h := c.sgs[h].(configured := false, skipped := false)])
  }

  lemma TurnedInv(c: Channel)
    requires Inv(c) && c.handler == Cyclic && c.pending != []
    ensures Inv(Turned(c))
  {
    PeriodInv(c);
    RotateInv(Count1(c));
    FlagsKeep(Count1(c).(pending := Rotate(c.pending)), Turned(c).sgs);
  }

  /** The cyclic handler gives up exactly when there is a next request and the hardware has
      not been programmed for it. */
  predicate Stuck(c: Channel)
    requires Ranges(c) && c.pending != []
  {
    |c.pending| > 1 && !InFlight(c.sgs[c.pending[1]])
  }

  lemma CyclicCases(c: Channel, toTerminate: bool, eoc: bool)
    requires Inv(c) && c.handler == Cyclic && c.pending != []
    ensures var c' := HandleCyclic(c, toTerminate, eoc);
      var d := c.sgs[c.pending[0]].desc;
      if |c.pending| == 1 then c' == Count1(c)
      else if Stuck(c) then
        var c1 := AbortAll(Turned(c).(busy := false));
        c' == c1.(descs := c1.descs[d := c1.descs[d].(status := Error)])
      else if toTerminate then c' == Turned(c)
      else c' == ConfigureNext(Turned(c), eoc)
  {
    if |c.pending| > 1 {
      CountMember(c.pending, 0);
      NextElse(c);
      assert Turned(c).pending[0] == c.pending[1];
    }
  }

  /** The second pending request is not the first one. */
  lemma NextElse(c: Channel)
    requires Books(c) && |c.pending| > 1
    ensures c.pending[0] != c.pending[1]
  {
    CountMember(c.pending[1..], 0);
    assert Count(c.freeSg, c.pending[0]) + Count(c.pending, c.pending[0]) <= 1;
  }

  lemma CyclicInv(c: Channel, toTerminate: bool, eoc: bool)
    requires Inv(c) && c.handler == Cyclic && c.pending != []
    ensures Inv(HandleCyclic(c, toTerminate, eoc))
  {
    CyclicCases(c, toTerminate, eoc);
    PeriodInv(c);
    TurnedInv(c);
    ConfigureInv(Turned(c), eoc);
    if Stuck(c) {
      var c1 := Turned(c).(busy := false);
      AbortInv(c1);
      StatusBooks(AbortAll(c1), c.sgs[c.pending[0]].desc, Error);
    }
  }

  lemma HandleInv(c: Channel, toTerminate: bool, eoc: bool)
    requires Inv(c) && c.pending != []
    ensures Inv(Handle(c, toTerminate, eoc))
  {
    match c.handler
    case Absent =>
    case Once => OnceInv(c, toTerminate);
    case Cyclic => CyclicInv(c, toTerminate, eoc);
  }

  // ---------------------------------------------------------------- submitting

  lemma {:induction false} PreparedEnds(sgs: seq<SgReq>, tx: seq<nat>, d: nat)
    requires Within(sgs, tx) && Prepared(sgs, tx)
    requires forall i :: 0 <= i < |tx| ==> sgs[tx[i]].desc == d
    requires forall i :: 0 <= i < |tx| - 1 ==> !sgs[tx[i]].lastSg
    ensures Ends(sgs, tx) == [d] && Adjacent(sgs, tx)
    decreases |tx|
  {
    if |tx| > 1 { PreparedEnds(sgs, tx[1..], d); }
  }

  lemma {:induction false} OwedAll(sgs: seq<SgReq>, tx: seq<nat>, d: nat)
    requires Within(sgs, tx) && forall i :: 0 <= i < |tx| ==> sgs[tx[i]].desc == d
    ensures Owed(sgs, tx, d) == SumLen(sgs, tx)
    decreases |tx|
  {
    if tx != [] {
      var n := |tx| - 1;
      OwedAll(sgs, tx[..n], d);
      OwedAppend(sgs, tx[..n], [tx[n]], d);
      assert tx == tx[..n] + [tx[n]];
    }
  }

  lemma {:induction false} OwedNone(sgs: seq<SgReq>, p: seq<nat>, d: nat)
    requires Within(sgs, p) && forall i :: 0 <= i < |p| ==> sgs[p[i]].desc != d
    ensures Owed(sgs, p, d) == 0
  {
    if p != [] { OwedNone(sgs, p[1..], d); }
  }

  lemma SubmitInv(c: Channel, d: nat)
    requires Inv(c) && Held(c, d) && Prepared(c.sgs, c.descs[d].txList)
    ensures Inv(Submit(c, d))
    ensures Ends(c.sgs, Submit(c, d).pending) == Ends(c.sgs, c.pending) + [d]
  {
    var tx := c.descs[d].txList;
    PreparedEnds(c.sgs, tx, d);
    EndsAppend(c.sgs, c.pending, tx);
    forall e: nat
      ensures Count(Ends(c.sgs, c.pending) + [d], e) == Count(Ends(c.sgs, c.pending), e) + if d == e then 1 else 0
    {
      CountAppend(Ends(c.sgs, c.pending), [d], e);
    }
    SubmitBooks(c, d);
    if c.handler != Cyclic {
      SubmitBalanced(c, d);
    }
  }

  lemma SubmitBooks(c: Channel, d: nat)
    requires Books(c) && Held(c, d) && Prepared(c.sgs, c.descs[d].txList)
    requires Ends(c.sgs, Submit(c, d).pending) == Ends(c.sgs, c.pending) + [d]
    ensures Books(Submit(c, d))
  {
    var c' := Submit(c, d);
    var tx := c.descs[d].txList;
    forall s: nat
      ensures Count(c'.pending, s) + TxCount(c'.descs, s) == Count(c.pending, s) + TxCount(c.descs, s)
    {
      CountAppend(c.pending, tx, s);
      TxUpdate(c.descs, d, c'.descs[d], s);
    }
    forall e: nat
      ensures Count(Ends(c.sgs, c'.pending), e) == Count(Ends(c.sgs, c.pending), e) + if d == e then 1 else 0
    {
      CountAppend(Ends(c.sgs, c.pending), [d], e);
    }
  }

  lemma SubmitBalanced(c: Channel, d: nat)
    requires Inv(c) && c.handler != Cyclic && Held(c, d) && Prepared(c.sgs, c.descs[d].txList)
    requires Ends(c.sgs, Submit(c, d).pending) == Ends(c.sgs, c.pending) + [d]
    ensures var c' := Submit(c, d); Ranges(c') && Adjacent(c'.sgs, c'.pending) && Balanced(c')
  {
    var c' := Submit(c, d);
    var tx := c.descs[d].txList;
    PreparedEnds(c.sgs, tx, d);
    forall e | 0 <= e < |c.descs| && Count(Ends(c.sgs, c'.pending), e) > 0
      ensures c'.descs[e].transferred + Owed(c.sgs, c'.pending, e) == c'.descs[e].requested
      ensures c.handler == Absent ==> c'.descs[e].transferred == 0
    {
      SubmitOwes(c, d, e);
    }
  }

  lemma SubmitOwes(c: Channel, d: nat, e: nat)
    requires Inv(c) && c.handler != Cyclic && Held(c, d) && Prepared(c.sgs, c.descs[d].txList) && e < |c.descs|
    requires Ranges(Submit(c, d)) && Count(Ends(c.sgs, c.pending) + [d], e) > 0
    ensures c.descs[e].transferred + Owed(c.sgs, Submit(c, d).pending, e) == c.descs[e].requested
    ensures c.handler == Absent ==> c.descs[e].transferred == 0
  {
    var tx := c.descs[d].txList;
    CountAppend(Ends(c.sgs, c.pending), [d], e);
    OwedAppend(c.sgs, c.pending, tx, e);
    if e == d {
      OwedAll(c.sgs, tx, d);
      OwedNone(c.sgs, c.pending, d);
    } else {
      OwedNone(c.sgs, tx, e);
    }
  }

  // ---------------------------------------------------------------- preparing

  lemma {:induction false} FreeMember(s: seq<nat>, x: nat)
    requires Count(s, x) == 0
    ensures forall i :: 0 <= i < |s| ==> s[i] != x
  {
    if s != [] { FreeMember(s[1..], x); }
  }

  lemma CountRemove(s: seq<nat>, i: nat, x: nat)
    requires i < |s|
    ensures Count(s[..i] + s[i + 1..], x) == Count(s, x) - if s[i] == x then 1 else 0
  {
    CountAppend(s[..i], s[i + 1..], x);
    CountAppend(s[..i], s[i..], x);
    assert s == s[..i] + s[i..] && s[i..][1..] == s[i + 1..];
  }

  /** tegra_dma_desc_get hands out a descriptor nobody else has. */
  lemma GetDescInv(c: Channel, memory: bool)
    requires Inv(c)
    ensures var (c', d) := GetDesc(c, memory);
      Inv(c') && (d.Some? ==> Held(c', d.value) && c'.descs[d.value].txList == [])
    ensures GetDesc(c, memory).1.None? <==>
      !memory && forall i :: 0 <= i < |c.freeDesc| && c.freeDesc[i] < |c.descs| ==> !c.descs[c.freeDesc[i]].ack
  {
    var i := FirstAcked(c.descs, c.freeDesc);
    if i < |c.freeDesc| {
      var d := c.freeDesc[i];
      CountMember(c.freeDesc, i);
      forall x: nat
        ensures Count(c.freeDesc[..i] + c.freeDesc[i + 1..], x) == Count(c.freeDesc, x) - if d == x then 1 else 0
      {
        CountRemove(c.freeDesc, i, x);
      }
      DescKeeps(c, d, c.descs[d].(ack := false));
    } else if memory {
      NewDesc(c, Desc(0, 0, 0, Complete, [], 0, false));
    }
  }

  lemma NewDesc(c: Channel, x: Desc)
    requires Inv(c) && x.txList == [] && x.cbCount == 0
    ensures var c' := c.(descs := c.descs + [x]); Inv(c') && Held(c', |c.descs|)
  {
    assert (c.descs + [x])[..|c.descs|] == c.descs;
    forall s: nat ensures TxCount(c.descs + [x], s) == TxCount(c.descs, s) {
    }
  }

  /** Starting over with a descriptor keeps the callback accounts exactly when it is not owed
      callbacks any more; the driver does not look. */
  lemma ResetInv(c: Channel, d: nat, cyclic: bool, requested: nat)
    requires Inv(c) && Held(c, d) && c.descs[d].txList == []
    ensures CallbacksOnce(Reset(c, d, cyclic, requested).descs, c.cbDesc) <==> c.descs[d].cbCount == 0
    ensures c.descs[d].cbCount == 0 ==> Inv(Reset(c, d, cyclic, requested))
  {
    var c' := Reset(c, d, cyclic, requested);
    assert Count(c.cbDesc, d) == if c.descs[d].cbCount > 0 then 1 else 0;
    if c.descs[d].cbCount == 0 {
      DescKeeps(c, d, c'.descs[d]);
    }
  }

  /** A descriptor a prepare function is still adding segments to. */
  ghost predicate Building(c: Channel, d: nat)
    requires Within(c.sgs, c.pending)
  {
    Held(c, d) && Within(c.sgs, c.descs[d].txList) && !Prepared(c.sgs, c.descs[d].txList)
  }

  lemma AddSegmentInv(c: Channel, d: nat, len: nat, cyclic: bool)
    requires Inv(c) && Building(c, d)
    ensures Inv(AddSegment(c, d, len, cyclic)) && Building(AddSegment(c, d, len, cyclic), d)
    ensures Untouched(c.sgs, AddSegment(c, d, len, cyclic).sgs, c.pending)
  {
    var sg := SgReq(len, false, false, false, d);
    StockInv(c, sg);
    ListSegment(Stock(c, sg), d, Requested(c.descs[d], len, cyclic));
  }

  lemma StockInv(c: Channel, sg: SgReq)
    requires Inv(c) && sg.desc < |c.descs|
    requires Building(c, sg.desc)
    ensures var c' := Stock(c, sg);
      && Inv(c') && Building(c', sg.desc) && Untouched(c.sgs, c'.sgs, c.pending) && AgreeTx(c, c'.sgs)
      && c'.freeSg != [] && c'.freeSg[0] < |c'.sgs| && c'.sgs[c'.freeSg[0]] == sg
  {
    if c.freeSg == [] {
      NewSegment(c, sg);
    } else {
      CountMember(c.freeSg, 0);
      FreeSegment(c, c.freeSg[0], sg);
    }
  }

  /** A new segment request, for now in the free list. */
  lemma NewSegment(c: Channel, sg: SgReq)
    requires Inv(c) && c.freeSg == [] && sg.desc < |c.descs|
    ensures var c' := c.(sgs := c.sgs + [sg], freeSg := [|c.sgs|]);
      && Inv(c') && Ends(c'.sgs, c'.pending) == Ends(c.sgs, c.pending)
      && AgreeTx(c, c'.sgs) && Untouched(c.sgs, c'.sgs, c.pending)
  {
    var sgs := c.sgs + [sg];
    AgreeOn(c.sgs, sgs, c.pending);
    forall e | 0 <= e < |c.descs| ensures TxOk(sgs, e, c.descs[e]) {
      TxAgree(c.sgs, sgs, e, c.descs[e]);
    }
  }

  /** The pending requests are what they were. */
  ghost predicate Untouched(a: seq<SgReq>, b: seq<SgReq>, p: seq<nat>) {
    Within(a, p) && Within(b, p) && forall i :: 0 <= i < |p| ==> a[p[i]] == b[p[i]]
  }

  ghost predicate AgreeTx(c: Channel, sgs: seq<SgReq>) {
    forall e :: 0 <= e < |c.descs| ==> Agree(c.sgs, sgs, c.descs[e].txList)
  }

  /** A segment request in the free list may change. */
  lemma FreeSegment(c: Channel, s: nat, sg: SgReq)
    requires Inv(c) && Count(c.freeSg, s) > 0 && sg.desc < |c.descs|
    ensures s < |c.sgs|
    ensures var c' := c.(sgs := c.sgs[s := sg]);
      && Inv(c') && Ends(c'.sgs, c'.pending) == Ends(c.sgs, c.pending)
      && AgreeTx(c, c'.sgs) && Untouched(c.sgs, c'.sgs, c.pending)
  {
    assert Count(c.freeSg, s) + Count(c.pending, s) + TxCount(c.descs, s) == if s < |c.sgs| then 1 else 0;
    var sgs := c.sgs[s := sg];
    FreeMember(c.pending, s);
    AgreeOn(c.sgs, sgs, c.pending);
    forall e | 0 <= e < |c.descs| ensures Agree(c.sgs, sgs, c.descs[e].txList) && TxOk(sgs, e, c.descs[e]) {
      TxUpdate(c.descs, e, c.descs[e], s);
      FreeMember(c.descs[e].txList, s);
      assert TxOk(c.sgs, e, c.descs[e]);
      TxAgree(c.sgs, sgs, e, c.descs[e]);
    }
  }

  lemma ListSegment(c: Channel, d: nat, requested: nat)
    requires Inv(c) && Building(c, d)
    requires c.freeSg != [] && c.freeSg[0] < |c.sgs|
    requires c.sgs[c.freeSg[0]].desc == d && !c.sgs[c.freeSg[0]].lastSg
    ensures var c' := Listed(c, d, requested);
      Inv(c') && Building(c', d)
  {
    var c' := Listed(c, d, requested);
    TxGrows(c, d, c.freeSg[0], c'.descs[d]);
    forall t: nat
      ensures TxCount(c'.descs, t) + Count(c'.freeSg, t) == TxCount(c.descs, t) + Count(c.freeSg, t)
    {
      TxUpdate(c.descs, d, c'.descs[d], t);
      CountAppend(c.descs[d].txList, [c.freeSg[0]], t);
    }
  }

  lemma TxGrows(c: Channel, d: nat, s: nat, x: Desc)
    requires d < |c.descs| && TxOk(c.sgs, d, c.descs[d]) && !Prepared(c.sgs, c.descs[d].txList)
    requires s < |c.sgs| && c.sgs[s].desc == d && !c.sgs[s].lastSg && x.txList == c.descs[d].txList + [s]
    ensures TxOk(c.sgs, d, x) && !Prepared(c.sgs, x.txList)
  {
  }

  /** Handing a descriptor back returns its segments too. */
  lemma PutDescInv(c: Channel, d: nat)
    requires Inv(c) && Held(c, d)
    ensures Inv(PutDesc(c, d))
  {
    var c' := PutDesc(c, d);
    var tx := c.descs[d].txList;
    forall s: nat
      ensures Count(c'.freeSg, s) + TxCount(c'.descs, s) == Count(c.freeSg, s) + TxCount(c.descs, s)
    {
      CountAppend(tx, c.freeSg, s);
      TxUpdate(c.descs, d, c'.descs[d], s);
    }
    forall e: nat ensures Count(c.freeDesc + [d], e) == Count(c.freeDesc, e) + if d == e then 1 else 0 {
      CountAppend(c.freeDesc, [d], e);
    }
  }

  /** A prepare function ends with a complete transfer list, or hands everything back. */
  lemma FinishInv(c: Channel, d: nat, cyclic: bool, ack: bool)
    requires Inv(c) && Building(c, d) && c.descs[d].txList != []
    requires c.descs[d].requested == SumLen(c.sgs, c.descs[d].txList) && c.descs[d].transferred == 0
    ensures var (c', ok) := Finish(c, d, cyclic, ack);
      && Inv(c')
      && (ok <==> c.handler == Absent || c.cyclic == cyclic)
      && (ok ==> Held(c', d) && Prepared(c'.sgs, c'.descs[d].txList))
      && (!ok ==> Count(c'.freeDesc, d) == 1)
    ensures Untouched(c.sgs, Finish(c, d, cyclic, ack).0.sgs, c.pending)
  {
    MarkLast(c, d);
    var c1 := c.(sgs := Marked(c, d));
    AckInv(c1, d, ack || c.descs[d].ack);
    if c.handler != Absent && c.cyclic != cyclic {
      PutDescInv(c1.(descs := c.descs[d := c.descs[d].(ack := ack || c.descs[d].ack)]), d);
      CountAppend(c.freeDesc, [d], d);
    }
  }

  lemma AckInv(c: Channel, d: nat, ack: bool)
    requires Inv(c) && d < |c.descs|
    ensures Inv(c.(descs := c.descs[d := c.descs[d].(ack := ack)]))
  {
    DescKeeps(c, d, c.descs[d].(ack := ack));
  }

  /** The segment requests with the last one of a transfer list marked. */
  function Marked(c: Channel, d: nat): seq<SgReq>
    requires d < |c.descs| && c.descs[d].txList != [] && Within(c.sgs, c.descs[d].txList)
  {
    var tx := c.descs[d].txList;
    var l := tx[|tx| - 1];
    c.sgs[l := c.sgs[l].(lastSg := true)]
  }

  lemma MarkLast(c: Channel, d: nat)
    requires Inv(c) && Building(c, d) && c.descs[d].txList != []
    requires c.descs[d].requested == SumLen(c.sgs, c.descs[d].txList) && c.descs[d].transferred == 0
    ensures var c' := c.(sgs := Marked(c, d));
      && Inv(c') && Ends(c'.sgs, c'.pending) == Ends(c.sgs, c.pending)
      && Prepared(c'.sgs, c.descs[d].txList) && Untouched(c.sgs, c'.sgs, c.pending)
  {
    var tx := c.descs[d].txList;
    var n := |tx| - 1;
    var sgs := Marked(c, d);
    CountMember(tx, n);
    MarkApart(c, d, tx[n]);
    AgreeOn(c.sgs, sgs, c.pending);
    forall e | 0 <= e < |c.descs| ensures TxOk(sgs, e, c.descs[e]) {
      if e != d {
        TxAgree(c.sgs, sgs, e, c.descs[e]);
      } else {
        OnceIn(tx, n);
        SumMarked(c.sgs, sgs, tx);
      }
    }
  }

  /** A segment of one transfer list is nowhere else. */
  lemma MarkApart(c: Channel, d: nat, s: nat)
    requires Books(c) && d < |c.descs| && Count(c.descs[d].txList, s) > 0
    ensures s < |c.sgs| && Count(c.descs[d].txList, s) == 1
    ensures forall i :: 0 <= i < |c.pending| ==> c.pending[i] != s
    ensures forall e, i :: 0 <= e < |c.descs| && e != d && 0 <= i < |c.descs[e].txList| ==> c.descs[e].txList[i] != s
  {
    TxUpdate(c.descs, d, c.descs[d], s);
    assert Count(c.freeSg, s) + Count(c.pending, s) + TxCount(c.descs, s) == if s < |c.sgs| then 1 else 0;
    FreeMember(c.pending, s);
    forall e | 0 <= e < |c.descs| && e != d
      ensures forall i :: 0 <= i < |c.descs[e].txList| ==> c.descs[e].txList[i] != s
    {
      TxApart(c.descs, d, e, s);
      FreeMember(c.descs[e].txList, s);
    }
  }

  lemma {:induction false} SumMarked(a: seq<SgReq>, b: seq<SgReq>, p: seq<nat>)
    requires Within(a, p) && Within(b, p) && forall s :: 0 <= s < |a| && s < |b| ==> a[s].reqLen == b[s].reqLen
    ensures SumLen(a, p) == SumLen(b, p)
    decreases |p|
  {
    if p != [] { SumMarked(a, b, p[..|p| - 1]); }
  }

  lemma OnceIn(s: seq<nat>, n: nat)
    requires n < |s| && Count(s, s[n]) <= 1
    ensures forall i :: 0 <= i < n ==> s[i] != s[n]
  {
    CountAppend(s[..n], s[n..], s[n]);
    assert s == s[..n] + s[n..];
    CountMember(s[n..], 0);
    FreeMember(s[..n], s[n]);
    forall i | 0 <= i < n ensures s[i] != s[n] {
      assert s[..n][i] == s[i];
    }
  }

  lemma {:induction false} TxApart(descs: seq<Desc>, d: nat, e: nat, s: nat)
    requires d < |descs| && e < |descs| && d != e
    ensures Count(descs[d].txList, s) + Count(descs[e].txList, s) <= TxCount(descs, s)
    decreases |descs|
  {
    var n := |descs| - 1;
    if d < n && e < n {
      TxApart(descs[..n], d, e, s);
    } else if d == n {
      TxUpdate(descs[..n], e, descs[e], s);
    } else {
      TxUpdate(descs[..n], d, descs[d], s);
    }
  }

  // ---------------------------------------------------------------- issuing, tasklet, terminating

  lemma IssueInv(c: Channel, eoc: bool)
    requires Inv(c)
    ensures Inv(IssuePending(c, eoc))
  {
    if c.pending != [] && !c.busy {
      StartInv(c);
      if c.cyclic {
        ConfigureInv(StartHead(c), eoc);
      }
    }
  }

  lemma TakeInv(c: Channel)
    requires Inv(c) && c.cbDesc != []
    ensures c.cbDesc[0] < |c.descs| && c.descs[c.cbDesc[0]].cbCount > 0 && Inv(Take(c))
    ensures SumCb(Take(c).descs) + c.descs[c.cbDesc[0]].cbCount == SumCb(c.descs)
  {
    var d := c.cbDesc[0];
    CountMember(c.cbDesc, 0);
    DescKeeps(c, d, c.descs[d].(cbCount := 0));
    SumCbUpdate(c.descs, d, c.descs[d].(cbCount := 0));
  }

  /** Dropping the callbacks of every descriptor on the list leaves none owed. */
  lemma {:induction false} DropAll(descs: seq<Desc>, cbs: seq<nat>)
    requires forall d :: 0 <= d < |descs| && descs[d].cbCount > 0 ==> Count(cbs, d) > 0
    ensures forall d :: 0 <= d < |descs| ==> DropCallbacks(descs, cbs)[d] == descs[d].(cbCount := 0)
    decreases |cbs|
  {
    if cbs != [] {
      if cbs[0] < |descs| {
        DropAll(descs[cbs[0] := descs[cbs[0]].(cbCount := 0)], cbs[1..]);
      } else {
        DropAll(descs, cbs[1..]);
      }
    }
  }

  lemma {:induction false} SumCbNone(descs: seq<Desc>)
    requires forall d :: 0 <= d < |descs| ==> descs[d].cbCount == 0
    ensures SumCb(descs) == 0
    decreases |descs|
  {
    if descs != [] { SumCbNone(descs[..|descs| - 1]); }
  }

  lemma {:induction false} SameTx(a: seq<Desc>, b: seq<Desc>, s: nat)
    requires |a| == |b| && forall d :: 0 <= d < |a| ==> a[d].txList == b[d].txList
    ensures TxCount(a, s) == TxCount(b, s)
    decreases |a|
  {
    if a != [] { SameTx(a[..|a| - 1], b[..|b| - 1], s); }
  }

  /** The last part of tegra_dma_terminate_all. */
  function Silenced(c: Channel): Channel {
    c.(cbDesc := [], descs := DropCallbacks(c.descs, c.cbDesc))
  }

  lemma SilencedInv(c: Channel)
    requires Inv(c)
    ensures Inv(Silenced(c)) && SumCb(Silenced(c).descs) == 0
    ensures forall d :: 0 <= d < |c.descs| ==> Silenced(c).descs[d] == c.descs[d].(cbCount := 0)
  {
    DropAll(c.descs, c.cbDesc);
    var descs := Silenced(c).descs;
    SumCbNone(descs);
    forall s: nat ensures TxCount(descs, s) == TxCount(c.descs, s) {
      SameTx(c.descs, descs, s);
    }
    forall d | 0 <= d < |c.descs| ensures TxOk(c.sgs, d, descs[d]) {
      assert TxOk(c.sgs, d, c.descs[d]);
    }
  }

  lemma StopBooks(c: Channel, pendingIrq: bool, eoc: bool, left: nat)
    requires Inv(c) && c.pending != []
    ensures Books(Stop(c, pendingIrq, eoc, left)) && !Stop(c, pendingIrq, eoc, left).busy
  {
    if pendingIrq {
      HandleInv(c, true, eoc);
      HaltBooks(Handle(c, true, eoc), left);
    } else {
      HaltBooks(c, left);
    }
  }

  lemma HaltBooks(c: Channel, left: nat)
    requires Inv(c)
    ensures Books(Halt(c, left)) && !Halt(c, left).busy
  {
    var c1 := c.(busy := false);
    assert Books(c1);
    if c.busy && c.pending != [] {
      HeadSubmitted(c1);
      var sg := c.sgs[c.pending[0]];
      CreditBooks(c1, sg.desc, sg.reqLen - left);
      assert Halt(c, left) == Credit(c1, sg.desc, sg.reqLen - left);
    }
  }

  /** What terminating stops before it aborts. */
  function Stopped(c: Channel, pendingIrq: bool, eoc: bool, left: nat): Channel
    requires Ranges(c)
  {
    if c.pending != [] && c.busy then Stop(c, pendingIrq, eoc, left) else c
  }

  /** Terminating leaves nothing pending and no callback owed. What was pending when the
      hardware had stopped is free: the segments, and each descriptor once, as an error. The
      channel forgets its mode exactly when something was pending. */
  lemma TerminateFrees(c: Channel, pendingIrq: bool, eoc: bool, left: nat)
    requires Inv(c)
    ensures Inv(Terminate(c, pendingIrq, eoc, left))
    ensures var c1, c' := Stopped(c, pendingIrq, eoc, left), Terminate(c, pendingIrq, eoc, left);
      && c'.pending == [] && c'.cbDesc == [] && SumCb(c'.descs) == 0 && !c'.busy
      && c'.freeSg == c1.freeSg + c1.pending
      && c'.freeDesc == c1.freeDesc + Ends(c1.sgs, c1.pending)
      && (c'.handler == Absent <==> c.handler == Absent || c.pending != [])
  {
    var c1, c' := Stopped(c, pendingIrq, eoc, left), Terminate(c, pendingIrq, eoc, left);
    if c.pending == [] {
      SilencedInv(c);
      assert c.freeSg + [] == c.freeSg && c.freeDesc + [] == c.freeDesc;
      assert c' == Silenced(c);
    } else {
      StoppedBooks(c, pendingIrq, eoc, left);
      AbortInv(c1);
      AbortFrees(c1);
      SilencedInv(AbortAll(c1));
      assert c' == Silenced(AbortAll(c1));
    }
  }

  lemma StoppedBooks(c: Channel, pendingIrq: bool, eoc: bool, left: nat)
    requires Inv(c)
    ensures Books(Stopped(c, pendingIrq, eoc, left)) && !Stopped(c, pendingIrq, eoc, left).busy
  {
    if c.pending != [] && c.busy { StopBooks(c, pendingIrq, eoc, left); }
  }

  /** Terminating, on a channel that has stopped. */
  lemma HaltedMarks(c: Channel, d: nat)
    requires Books(c) && !c.busy && d < |c.descs|
    requires Count(c.freeDesc, d) + Count(Ends(c.sgs, c.pending), d) > 0
    ensures var c' := Silenced(AbortAll(c));
      && Count(c'.freeDesc, d) == 1 && c'.descs[d].cbCount == 0
      && c'.descs[d].status == if Count(Ends(c.sgs, c.pending), d) > 0 then Error else c.descs[d].status
  {
    AbortMarks(c, d);
    AbortFrees(c);
    AbortInv(c);
    SilencedInv(AbortAll(c));
    CountAppend(c.freeDesc, Ends(c.sgs, c.pending), d);
  }

  /** A pending interrupt completes the head's descriptor. */
  predicate Completes(c: Channel, pendingIrq: bool, d: nat)
    requires Ranges(c) && c.pending != []
  {
    var sg := c.sgs[c.pending[0]];
    c.busy && pendingIrq && c.handler == Once && sg.lastSg && sg.desc == d
  }

  /** The handler leaves a submitted descriptor submitted, or frees it: complete in one-shot
      mode, at its last segment, and as an error in cyclic mode. */
  lemma HandledPlace(c: Channel, eoc: bool, d: nat)
    requires Inv(c) && c.pending != [] && d < |c.descs| && Count(Ends(c.sgs, c.pending), d) > 0
    ensures var c', n := Handle(c, true, eoc), Count(Ends(c.sgs, c.pending), d);
      var n' := Count(Ends(c'.sgs, c'.pending), d);
      && Count(c'.freeDesc, d) + n' > 0
      && (n' == 0 ==> c'.descs[d].status == if c.handler == Once then Complete else Error)
      && (c.handler == Once ==> (n' == 0 <==> c.sgs[c.pending[0]].lastSg && c.sgs[c.pending[0]].desc == d))
  {
    match c.handler
    case Absent =>
    case Once => OncePlace(c, d);
    case Cyclic =>
      TurnedPlace(c, d);
      CyclicCases(c, true, eoc);
      if Stuck(c) { StuckPlace(c, d); }
  }

  lemma OncePlace(c: Channel, d: nat)
    requires Inv(c) && c.handler == Once && c.pending != [] && d < |c.descs| && Count(Ends(c.sgs, c.pending), d) > 0
    ensures var c', sg := HandleOnce(c, true), c.sgs[c.pending[0]];
      if sg.lastSg && sg.desc == d
      then Count(c'.freeDesc, d) > 0 && Count(Ends(c'.sgs, c'.pending), d) == 0 && c'.descs[d].status == Complete
      else Count(Ends(c'.sgs, c'.pending), d) > 0
  {
    var sg := c.sgs[c.pending[0]];
    OnceCompletes(c, true);
    CountAppend(if sg.lastSg then [sg.desc] else [], Ends(c.sgs, c.pending[1..]), d);
    CountAppend(c.freeDesc, [sg.desc], d);
    assert Count(c.freeDesc, d) + Count(Ends(c.sgs, c.pending), d) <= 1;
  }

  lemma TurnedPlace(c: Channel, d: nat)
    requires Inv(c) && c.handler == Cyclic && c.pending != []
    ensures Inv(Turned(c)) && Inv(Count1(c))
    ensures Count(Ends(Turned(c).sgs, Turned(c).pending), d) == Count(Ends(c.sgs, c.pending), d)
    ensures Ends(Count1(c).sgs, Count1(c).pending) == Ends(c.sgs, c.pending)
  {
    TurnedInv(c);
    PeriodInv(c);
    AgreeOn(c.sgs, Turned(c).sgs, Rotate(c.pending));
    RotateCounts(c.sgs, c.pending);
  }

  lemma StuckPlace(c: Channel, d: nat)
    requires Inv(c) && c.handler == Cyclic && c.pending != [] && Inv(Turned(c)) && d < |c.descs|
    requires Count(Ends(Turned(c).sgs, Turned(c).pending), d) > 0
    ensures var c' := AbortAll(Turned(c).(busy := false));
      && Count(c'.freeDesc, d) > 0 && c'.pending == [] && c'.descs[d].status == Error
  {
    var c1 := Turned(c).(busy := false);
    assert Books(c1);
    AbortFrees(c1);
    AbortMarks(c1, d);
    CountAppend(c1.freeDesc, Ends(c1.sgs, c1.pending), d);
  }

  /** Every descriptor that was submitted is then free exactly once and owed nothing: as an
      error, whoever aborted it, unless an interrupt that came with the termination was the one
      that completes it. */
  lemma TerminateMarks(c: Channel, pendingIrq: bool, eoc: bool, left: nat, d: nat)
    requires Inv(c) && c.pending != [] && d < |c.descs| && Count(Ends(c.sgs, c.pending), d) > 0
    ensures var c' := Terminate(c, pendingIrq, eoc, left);
      && Count(c'.freeDesc, d) == 1 && c'.descs[d].cbCount == 0
      && c'.descs[d].status == if Completes(c, pendingIrq, d) then Complete else Error
  {
    var c1 := Stopped(c, pendingIrq, eoc, left);
    StoppedBooks(c, pendingIrq, eoc, left);
    StoppedPlace(c, pendingIrq, eoc, left, d);
    HaltedMarks(c1, d);
    assert Terminate(c, pendingIrq, eoc, left) == Silenced(AbortAll(c1));
  }

  lemma StoppedPlace(c: Channel, pendingIrq: bool, eoc: bool, left: nat, d: nat)
    requires Inv(c) && c.pending != [] && d < |c.descs| && Count(Ends(c.sgs, c.pending), d) > 0
    ensures var c' := Stopped(c, pendingIrq, eoc, left);
      var n := Count(Ends(c'.sgs, c'.pending), d);
      && Count(c'.freeDesc, d) + n > 0
      && (n == 0 ==> c'.descs[d].status == if Completes(c, pendingIrq, d) then Complete else Error)
      && (n > 0 ==> !Completes(c, pendingIrq, d))
  {
    if c.busy && pendingIrq {
      HandledPlace(c, eoc, d);
      HaltKeeps(Handle(c, true, eoc), left, d);
    } else {
      HaltKeeps(c, left, d);
    }
  }

  lemma HaltKeeps(c: Channel, left: nat, d: nat)
    requires Ranges(c) && d < |c.descs|
    ensures var c' := Halt(c, left);
      && c'.sgs == c.sgs && c'.pending == c.pending && c'.freeDesc == c.freeDesc
      && c'.descs[d].status == c.descs[d].status
  {
  }

  // ---------------------------------------------------------------- one-shot transfers

  /** An interrupt in one-shot mode completes the head's descriptor exactly when that was its
      last pending segment; then everything requested has been transferred and the
      descriptor is free. Otherwise it goes on with its next segment. */
  lemma OnceCompletes(c: Channel, toTerminate: bool)
    requires Inv(c) && c.handler == Once && c.pending != []
    ensures var sg := c.sgs[c.pending[0]];
      var c' := HandleOnce(c, toTerminate);
      && c'.pending == c.pending[1..]
      && c'.descs[sg.desc].transferred == c.descs[sg.desc].transferred + sg.reqLen
      && (if sg.lastSg then
            && c'.descs[sg.desc].status == Complete
            && c'.descs[sg.desc].transferred == c.descs[sg.desc].requested
            && c'.freeDesc == c.freeDesc + [sg.desc]
          else
            && c'.descs[sg.desc].status == c.descs[sg.desc].status && c'.freeDesc == c.freeDesc
            && c'.pending != [] && c'.sgs[c'.pending[0]].desc == sg.desc)
  {
    var sg := c.sgs[c.pending[0]];
    CountAppend(if sg.lastSg then [sg.desc] else [], Ends(c.sgs, c.pending[1..]), sg.desc);
    if sg.lastSg { NoneLeft(c); }
  }

  /** Behind a last segment none of its descriptor is pending. */
  lemma NoneLeft(c: Channel)
    requires Inv(c) && c.handler == Once && c.pending != [] && c.sgs[c.pending[0]].lastSg
    ensures var d := c.sgs[c.pending[0]].desc;
      && (forall i :: 1 <= i < |c.pending| ==> c.sgs[c.pending[i]].desc != d)
      && c.descs[d].transferred + c.sgs[c.pending[0]].reqLen == c.descs[d].requested
  {
    var d, rest := c.sgs[c.pending[0]].desc, c.pending[1..];
    CountAppend([d], Ends(c.sgs, rest), d);
    assert Count(c.freeDesc, d) + Count(Ends(c.sgs, c.pending), d) <= 1;
    forall i | 0 <= i < |rest| ensures c.sgs[rest[i]].desc != d {
      EndBehind(c.sgs, rest, i);
    }
    OwedNone(c.sgs, rest, d);
    assert forall i :: 1 <= i < |c.pending| ==> c.pending[i] == rest[i - 1];
  }

  /** Pending segments, cut behind every last one. */
  function Groups(sgs: seq<SgReq>, p: seq<nat>): seq<seq<nat>>
    requires Within(sgs, p)
  {
    if p == [] then []
    else
      var rest := Groups(sgs, p[1..]);
      if sgs[p[0]].lastSg || rest == [] then [[p[0]]] + rest
      else [[p[0]] + rest[0]] + rest[1..]
  }

  /** In one-shot mode the pending list is one group per submitted descriptor, in the order
      of their ends: its remaining segments, the last one marked. */
  lemma {:induction false} GroupsAre(sgs: seq<SgReq>, p: seq<nat>)
    requires Within(sgs, p) && Adjacent(sgs, p)
    ensures |Groups(sgs, p)| == |Ends(sgs, p)|
    ensures Join(Groups(sgs, p)) == p
    ensures forall i :: 0 <= i < |Ends(sgs, p)| ==> GroupOf(sgs, Groups(sgs, p)[i], Ends(sgs, p)[i])
  {
    JoinGroups(sgs, p);
    if p != [] {
      GroupsAre(sgs, p[1..]);
      if !sgs[p[0]].lastSg {
        var rest := Groups(sgs, p[1..]);
        GroupGrows(sgs, p, rest[0], rest[1..], Ends(sgs, p)[0]);
      }
    }
  }

  lemma {:induction false} JoinGroups(sgs: seq<SgReq>, p: seq<nat>)
    requires Within(sgs, p)
    ensures Join(Groups(sgs, p)) == p
  {
    if p != [] {
      JoinGroups(sgs, p[1..]);
      var rest := Groups(sgs, p[1..]);
      if !sgs[p[0]].lastSg && rest != [] {
        Regroup([p[0]], rest[0], Join(rest[1..]));
      }
    }
  }

  lemma GroupGrows(sgs: seq<SgReq>, p: seq<nat>, g: seq<nat>, rest: seq<seq<nat>>, d: nat)
    requires Within(sgs, p) && Adjacent(sgs, p) && p != [] && !sgs[p[0]].lastSg
    requires GroupOf(sgs, g, d) && p[1..] == g + Join(rest)
    ensures GroupOf(sgs, [p[0]] + g, d)
  {
    assert p[1] == p[1..][0] == g[0];
  }

  function Join(groups: seq<seq<nat>>): seq<nat> {
    if groups == [] then [] else groups[0] + Join(groups[1..])
  }

  ghost predicate GroupOf(sgs: seq<SgReq>, g: seq<nat>, d: nat) {
    && g != [] && Within(sgs, g)
    && (forall i :: 0 <= i < |g| ==> sgs[g[i]].desc == d && (sgs[g[i]].lastSg <==> i == |g| - 1))
  }
}
