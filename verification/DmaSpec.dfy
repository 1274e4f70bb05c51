/** The DMA channel of tegra186-gpc-dma.c as a state machine: each section under the channel
    lock is one step, and what every step keeps. */
module DmaSpec {
  /** Segment requests and descriptors are numbered in the order of their allocation. */
  datatype SgReq = SgReq(reqLen: nat, configured: bool, skipped: bool, lastSg: bool, desc: nat)

  datatype Status = InProgress | Complete | Error

  datatype Desc = Desc(requested: nat, transferred: int, total: int, status: Status,
                       txList: seq<nat>, cbCount: nat, ack: bool)

  datatype Handler = Absent | Once | Cyclic

  datatype Channel = Channel(sgs: seq<SgReq>, descs: seq<Desc>, freeSg: seq<nat>, pending: seq<nat>,
                             freeDesc: seq<nat>, cbDesc: seq<nat>,
                             busy: bool, cyclic: bool, handler: Handler)

  datatype Option<T> = None | Some(value: T)

  // ---------------------------------------------------------------- counting

  function Count(s: seq<nat>, x: nat): nat {
    if s == [] then 0 else (if s[0] == x then 1 else 0) + Count(s[1..], x)
  }

  lemma {:induction false} CountAppend(a: seq<nat>, b: seq<nat>, x: nat)
    ensures Count(a + b, x) == Count(a, x) + Count(b, x)
  {
    if a == [] {
      assert a + b == b;
    } else {
      CountAppend(a[1..], b, x);
      assert (a + b)[1..] == a[1..] + b;
    }
  }

  lemma {:induction false} CountMember(s: seq<nat>, i: nat)
    requires i < |s|
    ensures Count(s, s[i]) > 0
  {
    if i > 0 { CountMember(s[1..], i - 1); }
  }

  /** In how many transfer lists a segment request is. */
  function TxCount(descs: seq<Desc>, s: nat): nat {
    if descs == [] then 0
    else TxCount(descs[..|descs| - 1], s) + Count(descs[|descs| - 1].txList, s)
  }

  lemma {:induction false} TxUpdate(descs: seq<Desc>, d: nat, desc: Desc, s: nat)
    requires d < |descs|
    ensures TxCount(descs[d := desc], s) + Count(descs[d].txList, s)
         == TxCount(descs, s) + Count(desc.txList, s)
    ensures Count(descs[d].txList, s) <= TxCount(descs, s)
    decreases |descs|
  {
    var n := |descs| - 1;
    var descs' := descs[d := desc];
    if d < n {
      TxUpdate(descs[..n], d, desc, s);
      assert descs'[..n] == descs[..n][d := desc];
    } else {
      assert descs'[..n] == descs[..n];
    }
  }

  /** The descriptors whose last segment is in the list, in order. */
  function Ends(sgs: seq<SgReq>, p: seq<nat>): seq<nat>
    requires Within(sgs, p)
  {
    if p == [] then []
    else (if sgs[p[0]].lastSg then [sgs[p[0]].desc] else []) + Ends(sgs, p[1..])
  }

  predicate Within(sgs: seq<SgReq>, p: seq<nat>) {
    forall i :: 0 <= i < |p| ==> p[i] < |sgs|
  }

  lemma {:induction false} EndsAppend(sgs: seq<SgReq>, a: seq<nat>, b: seq<nat>)
    requires Within(sgs, a) && Within(sgs, b)
    ensures Ends(sgs, a + b) == Ends(sgs, a) + Ends(sgs, b)
  {
    if a == [] {
      assert a + b == b;
    } else {
      EndsAppend(sgs, a[1..], b);
      assert (a + b)[1..] == a[1..] + b;
      var first := if sgs[a[0]].lastSg then [sgs[a[0]].desc] else [];
      assert first + (Ends(sgs, a[1..]) + Ends(sgs, b)) == Ends(sgs, a) + Ends(sgs, b);
    }
  }

  function SumLen(sgs: seq<SgReq>, p: seq<nat>): nat
    requires Within(sgs, p)
  {
    if p == [] then 0 else SumLen(sgs, p[..|p| - 1]) + sgs[p[|p| - 1]].reqLen
  }

  /** The bytes of a descriptor that are still in the list. */
  function Owed(sgs: seq<SgReq>, p: seq<nat>, d: nat): nat
    requires Within(sgs, p)
  {
    if p == [] then 0
    else (if sgs[p[0]].desc == d then sgs[p[0]].reqLen else 0) + Owed(sgs, p[1..], d)
  }

  lemma {:induction false} OwedAppend(sgs: seq<SgReq>, a: seq<nat>, b: seq<nat>, d: nat)
    requires Within(sgs, a) && Within(sgs, b)
    ensures Owed(sgs, a + b, d) == Owed(sgs, a, d) + Owed(sgs, b, d)
  {
    if a == [] {
      assert a + b == b;
    } else {
      OwedAppend(sgs, a[1..], b, d);
      assert (a + b)[1..] == a[1..] + b;
    }
  }

  // ---------------------------------------------------------------- steps

  /** Ids are in range: what every access of the driver needs. */
  ghost predicate Ranges(c: Channel) {
    && Within(c.sgs, c.pending)
    && (forall s :: 0 <= s < |c.sgs| ==> c.sgs[s].desc < |c.descs|)
  }

  /** Record one more callback owed; the descriptor enters the callback list with the first. */
  function Notify(c: Channel, d: nat): Channel
    requires d < |c.descs|
  {
    var x := c.descs[d];
    c.(cbDesc := if x.cbCount == 0 then c.cbDesc + [d] else c.cbDesc,
       descs := c.descs[d := x.(cbCount := x.cbCount + 1)])
  }

  function Credit(c: Channel, d: nat, bytes: int): Channel
    requires d < |c.descs|
  {
    var x := c.descs[d];
    c.(descs := c.descs[d := x.(transferred := x.transferred + bytes, total := x.total + bytes)])
  }

  /** A descriptor leaves: its status is final, a callback is owed and it is free. */
  function Retire(c: Channel, d: nat, status: Status): Channel
    requires d < |c.descs|
  {
    var c' := Notify(c.(descs := c.descs[d := c.descs[d].(status := status)]), d);
    c'.(freeDesc := c'.freeDesc + [d])
  }

  /** tdc_start_head_req */
  function StartHead(c: Channel): Channel
    requires Within(c.sgs, c.pending)
  {
    if c.pending == [] then c
    else
      var h := c.pending[0];
      c.(sgs := c.sgs[h := c.sgs[h].(configured := true, skipped := false)], busy := true)
  }

  /** tdc_configure_next_head_desc; `eoc` says that an interrupt is pending just then. */
  function ConfigureNext(c: Channel, eoc: bool): Channel
    requires Within(c.sgs, c.pending)
  {
    if |c.pending| < 2 then c
    else
      var n := c.pending[1];
      c.(sgs := c.sgs[n := if eoc then c.sgs[n].(skipped := true)
                           else c.sgs[n].(configured := true, skipped := false)])
  }

  /** The head segment leaves for the free list, and its descriptor with it if that was its
      last segment. */
  function Leave(c: Channel, status: Status): Channel
    requires Ranges(c) && c.pending != []
  {
    var sg := c.sgs[c.pending[0]];
    if sg.lastSg then Retire(MoveHead(c), sg.desc, status) else MoveHead(c)
  }

  function MoveHead(c: Channel): Channel
    requires c.pending != []
  {
    c.(pending := c.pending[1..], freeSg := c.freeSg + [c.pending[0]])
  }

  /** handle_once_dma_done */
  function HandleOnce(c: Channel, toTerminate: bool): (c': Channel)
    requires Ranges(c) && c.pending != []
    ensures Ranges(c') && |c'.sgs| == |c.sgs| && |c'.descs| == |c.descs|
  {
    var sg := c.sgs[c.pending[0]];
    var c1 := Leave(Credit(c.(busy := false), sg.desc, sg.reqLen), Complete);
    if toTerminate then c1 else StartHead(c1)
  }

  /** tegra_dma_abort_all */
  function AbortAll(c: Channel): (c': Channel)
    requires Ranges(c)
    ensures c'.sgs == c.sgs && |c'.descs| == |c.descs|
    ensures c'.pending == [] && c'.handler == Absent && c'.busy == c.busy && c'.cyclic == c.cyclic
    decreases |c.pending|
  {
    if c.pending == [] then c.(handler := Absent) else AbortAll(Leave(c, Error))
  }

  function Rotate(p: seq<nat>): seq<nat> {
    if p == [] then [] else p[1..] + [p[0]]
  }

  predicate InFlight(sg: SgReq) {
    sg.configured || sg.skipped
  }

  /** handle_cont_sngl_cycle_dma_done with handle_continuous_head_request */
  function HandleCyclic(c: Channel, toTerminate: bool, eoc: bool): (c': Channel)
    requires Ranges(c) && c.pending != []
    ensures Ranges(c') && |c'.sgs| == |c.sgs| && |c'.descs| == |c.descs|
  {
    var h := c.pending[0];
    var sg := c.sgs[h];
    var c1 := Notify(Credit(c, sg.desc, sg.reqLen), sg.desc);
    if |c.pending| == 1 then c1
    else
      var c2 := c1.(pending := Rotate(c.pending),
                    sgs := c.sgs[h := sg.(configured := false, skipped := false)]);
      if !InFlight(c2.sgs[c2.pending[0]]) then
        var c3 := AbortAll(c2.(busy := false));
        c3.(descs := c3.descs[sg.desc := c3.descs[sg.desc].(status := Error)])
      else if toTerminate then c2
      else ConfigureNext(c2, eoc)
  }

  function Handle(c: Channel, toTerminate: bool, eoc: bool): (c': Channel)
    requires Ranges(c) && c.pending != []
    ensures Ranges(c') && |c'.sgs| == |c.sgs| && |c'.descs| == |c.descs|
  {
    match c.handler
    case Absent => c
    case Once => HandleOnce(c, toTerminate)
    case Cyclic => HandleCyclic(c, toTerminate, eoc)
  }

  /** tegra_dma_isr: without a handler the interrupt is only acknowledged. */
  function Interrupt(c: Channel, eoc: bool): Channel
    requires Ranges(c) && c.pending != []
  {
    Handle(c, false, eoc)
  }

  /** tegra_dma_issue_pending */
  function IssuePending(c: Channel, eoc: bool): Channel
    requires Within(c.sgs, c.pending)
  {
    if c.pending == [] || c.busy then c
    else if c.cyclic then ConfigureNext(StartHead(c), eoc)
    else StartHead(c)
  }

  /** tegra_dma_tx_submit */
  function Submit(c: Channel, d: nat): Channel
    requires d < |c.descs|
  {
    var x := c.descs[d];
    c.(pending := c.pending + x.txList, descs := c.descs[d := x.(status := InProgress, txList := [])])
  }

  /** The hardware stops. The head is credited with what was moved of it; `left` is what was
      not. */
  function Halt(c: Channel, left: nat): (c': Channel)
    requires Ranges(c)
    ensures Ranges(c') && |c'.sgs| == |c.sgs| && |c'.descs| == |c.descs|
  {
    var c1 := c.(busy := false);
    if c.busy && c.pending != [] then
      var sg := c.sgs[c.pending[0]];
      Credit(c1, sg.desc, sg.reqLen - left)
    else c1
  }

  /** The part of tegra_dma_terminate_all that stops a running transfer. An interrupt that
      is pending is handled first. */
  function Stop(c: Channel, pendingIrq: bool, eoc: bool, left: nat): (c': Channel)
    requires Ranges(c) && c.pending != []
    ensures Ranges(c') && |c'.sgs| == |c.sgs| && |c'.descs| == |c.descs|
  {
    Halt(if pendingIrq then Handle(c, true, eoc) else c, left)
  }

  function DropCallbacks(descs: seq<Desc>, cbs: seq<nat>): (descs': seq<Desc>)
    ensures |descs'| == |descs|
    decreases |cbs|
  {
    if cbs == [] then descs
    else if cbs[0] < |descs| then
      DropCallbacks(descs[cbs[0] := descs[cbs[0]].(cbCount := 0)], cbs[1..])
    else DropCallbacks(descs, cbs[1..])
  }

  /** tegra_dma_terminate_all */
  function Terminate(c: Channel, pendingIrq: bool, eoc: bool, left: nat): Channel
    requires Ranges(c)
  {
    var c1 := if c.pending == [] then c
              else
                AbortAll(if c.busy then Stop(c, pendingIrq, eoc, left) else c);
    c1.(cbDesc := [], descs := DropCallbacks(c1.descs, c1.cbDesc))
  }

  /** The tasklet takes the next descriptor that is owed callbacks, and its count. */
  function Take(c: Channel): Channel
    requires c.cbDesc != [] && c.cbDesc[0] < |c.descs|
  {
    var d := c.cbDesc[0];
    c.(cbDesc := c.cbDesc[1..], descs := c.descs[d := c.descs[d].(cbCount := 0)])
  }

  // ---------------------------------------------------------------- preparing

  function FirstAcked(descs: seq<Desc>, free: seq<nat>): (i: nat)
    ensures i <= |free|
    ensures i < |free| ==> free[i] < |descs| && descs[free[i]].ack
    ensures forall j :: 0 <= j < i ==> !(free[j] < |descs| && descs[free[j]].ack)
  {
    if free == [] || (free[0] < |descs| && descs[free[0]].ack) then 0
    else 1 + FirstAcked(descs, free[1..])
  }

  /** tegra_dma_desc_get: the first acknowledged free descriptor, or a new one. */
  function GetDesc(c: Channel, memory: bool): (Channel, Option<nat>) {
    var i := FirstAcked(c.descs, c.freeDesc);
    if i < |c.freeDesc| then
      var d := c.freeDesc[i];
      (c.(freeDesc := c.freeDesc[..i] + c.freeDesc[i + 1..], descs := c.descs[d := c.descs[d].(ack := false)]),
       Some(d))
    else if memory then
      (c.(descs := c.descs + [Desc(0, 0, 0, Complete, [], 0, false)]), Some(|c.descs|))
    else (c, None)
  }

  /** The fresh fields a prepare function gives its descriptor. A cyclic transfer knows its
      length from the start and leaves the status to the submission. */
  function Reset(c: Channel, d: nat, cyclic: bool, requested: nat): Channel
    requires d < |c.descs|
  {
    var x := c.descs[d];
    c.(descs := c.descs[d := x.(requested := requested, transferred := 0, total := 0, txList := [],
                                cbCount := 0, status := if cyclic then x.status else InProgress)])
  }

  /** tegra_dma_sg_req_get, with the request filled in: the first of the free list, or a new
      one. */
  function Stock(c: Channel, sg: SgReq): (c': Channel)
    ensures c'.freeSg != [] && c'.descs == c.descs
  {
    if c.freeSg == [] then c.(sgs := c.sgs + [sg], freeSg := [|c.sgs|])
    else if c.freeSg[0] < |c.sgs| then c.(sgs := c.sgs[c.freeSg[0] := sg])
    else c
  }

  /** It goes to the end of a transfer list. */
  function Listed(c: Channel, d: nat, requested: nat): Channel
    requires c.freeSg != [] && d < |c.descs|
  {
    var x := c.descs[d];
    c.(freeSg := c.freeSg[1..],
       descs := c.descs[d := x.(txList := x.txList + [c.freeSg[0]], requested := requested)])
  }

  /** One segment of a transfer that is being prepared; without memory it needs a free one. */
  function AddSegment(c: Channel, d: nat, len: nat, cyclic: bool): Channel
    requires d < |c.descs|
  {
    Listed(Stock(c, SgReq(len, false, false, false, d)), d, Requested(c.descs[d], len, cyclic))
  }

  /** A one-shot transfer grows with its segments. */
  function Requested(x: Desc, len: nat, cyclic: bool): nat {
    if cyclic then x.requested else x.requested + len
  }

  /** tegra_dma_desc_put */
  function PutDesc(c: Channel, d: nat): Channel
    requires d < |c.descs|
  {
    var x := c.descs[d];
    c.(freeSg := x.txList + c.freeSg, freeDesc := c.freeDesc + [d],
       descs := c.descs[d := x.(txList := [], ack := true)])
  }

  /** The end of a prepare function: the last segment is marked, and a channel in the other
      mode refuses the descriptor. */
  function Finish(c: Channel, d: nat, cyclic: bool, ack: bool): (Channel, bool)
    requires d < |c.descs| && c.descs[d].txList != [] && Within(c.sgs, c.descs[d].txList)
  {
    var x := c.descs[d];
    var l := x.txList[|x.txList| - 1];
    var c1 := c.(sgs := c.sgs[l := c.sgs[l].(lastSg := true)],
                 descs := c.descs[d := x.(ack := ack || x.ack)]);
    if c.handler == Absent then (c1.(handler := if cyclic then Cyclic else Once, cyclic := cyclic), true)
    else if c.cyclic == cyclic then (c1, true)
    else (PutDesc(c1, d), false)
  }
}
