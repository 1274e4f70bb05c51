/** The DMA channel object of tegra186-gpc-dma.c. Every method that runs under the channel
    lock does exactly its step of the state machine; the prepare functions are proved as a
    whole. */
module DmaChannel {
  import opened DmaSpec
  import opened DmaSafety
  import Arith

  const MAX_DMA_COUNT := 1024 * 1024 * 1024

  /** One entry of a client's scatter list. */
  datatype Segment = Segment(address: nat, length: nat)

  predicate Acceptable(sg: Segment) {
    sg.length % 4 == 0 && sg.address % 4 == 0 && sg.length <= MAX_DMA_COUNT
  }

  /** dma_transfer_direction, and the cases get_transfer_param knows. */
  datatype Direction = MemToMem | MemToDev | DevToMem | DevToDev | TransferNone

  predicate Supported(direction: Direction) {
    direction.MemToMem? || direction.MemToDev? || direction.DevToMem?
  }

  predicate AllAcceptable(sgl: seq<Segment>) {
    forall i :: 0 <= i < |sgl| ==> Acceptable(sgl[i])
  }

  /** The lengths a transfer list asks for, and those a client wants. */
  function Lengths(sgs: seq<SgReq>, tx: seq<nat>): seq<nat>
    requires Within(sgs, tx)
  {
    if tx == [] then [] else Lengths(sgs, tx[..|tx| - 1]) + [sgs[tx[|tx| - 1]].reqLen]
  }

  function Wanted(sgl: seq<Segment>): seq<nat> {
    if sgl == [] then [] else Wanted(sgl[..|sgl| - 1]) + [sgl[|sgl| - 1].length]
  }

  function Repeated(x: nat, n: nat): seq<nat> {
    if n == 0 then [] else Repeated(x, n - 1) + [x]
  }

  lemma {:induction false} AgreeLengths(a: seq<SgReq>, b: seq<SgReq>, tx: seq<nat>)
    requires Agree(a, b, tx)
    ensures Lengths(a, tx) == Lengths(b, tx)
    decreases |tx|
  {
    if tx != [] { AgreeLengths(a, b, tx[..|tx| - 1]); }
  }

  /** A segment request is at hand: in the free list, or in memory. */
  function AllocationsFor(c: Channel, segments: nat): nat {
    (if FirstAcked(c.descs, c.freeDesc) == |c.freeDesc| then 1 else 0)
    + (if segments <= |c.freeSg| then 0 else segments - |c.freeSg|)
  }

  /** The descriptor that is handed out next is not owed callbacks any more. */
  predicate ReuseSafe(c: Channel) {
    var i := FirstAcked(c.descs, c.freeDesc);
    i < |c.freeDesc| ==> c.descs[c.freeDesc[i]].cbCount == 0
  }

  /** What a prepare function has built so far. */
  ghost predicate Built(c: Channel, d: nat, lengths: seq<nat>) {
    && Inv(c) && Building(c, d) && c.descs[d].transferred == 0
    && Lengths(c.sgs, c.descs[d].txList) == lengths && |c.descs[d].txList| == |lengths|
  }

  /** One segment more. */
  lemma BuiltMore(c: Channel, d: nat, lengths: seq<nat>, len: nat, cyclic: bool)
    requires Built(c, d, lengths)
    ensures var c' := AddSegment(c, d, len, cyclic);
      Built(c', d, lengths + [len])
        && SumLen(c'.sgs, c'.descs[d].txList) == SumLen(c.sgs, c.descs[d].txList) + len
  {
    var sg := SgReq(len, false, false, false, d);
    StockInv(c, sg);
    AddSegmentInv(c, d, len, cyclic);
    LongerList(c.sgs, Stock(c, sg).sgs, c.descs[d].txList, Stock(c, sg).freeSg[0]);
  }

  lemma LongerList(a: seq<SgReq>, b: seq<SgReq>, tx: seq<nat>, s: nat)
    requires Agree(a, b, tx) && s < |b|
    ensures SumLen(b, tx + [s]) == SumLen(a, tx) + b[s].reqLen
    ensures Lengths(b, tx + [s]) == Lengths(a, tx) + [b[s].reqLen]
  {
    AgreeSum(a, b, tx);
    AgreeLengths(a, b, tx);
    assert (tx + [s])[..|tx|] == tx;
  }

  /** All of them, one after the other. */
  function AddAll(c: Channel, d: nat, lens: seq<nat>, cyclic: bool): (c': Channel)
    requires d < |c.descs|
    ensures |c'.descs| == |c.descs|
    decreases |lens|
  {
    if lens == [] then c
    else AddSegment(AddAll(c, d, lens[..|lens| - 1], cyclic), d, lens[|lens| - 1], cyclic)
  }

  lemma AddAllNext(c: Channel, d: nat, lens: seq<nat>, len: nat, cyclic: bool)
    requires d < |c.descs|
    ensures AddAll(c, d, lens + [len], cyclic) == AddSegment(AddAll(c, d, lens, cyclic), d, len, cyclic)
  {
    assert (lens + [len])[..|lens|] == lens;
  }

  function Sum(lens: seq<nat>): nat {
    if lens == [] then 0 else Sum(lens[..|lens| - 1]) + lens[|lens| - 1]
  }

  lemma {:induction false} AddAllBuilt(c: Channel, d: nat, lens: seq<nat>, cyclic: bool)
    requires Built(c, d, [])
    ensures var c' := AddAll(c, d, lens, cyclic);
      Built(c', d, lens) && SumLen(c'.sgs, c'.descs[d].txList) == Sum(lens)
    decreases |lens|
  {
    if lens != [] {
      var n := |lens| - 1;
      assert lens == lens[..n] + [lens[n]];
      AddAllBuilt(c, d, lens[..n], cyclic);
      BuiltMore(AddAll(c, d, lens[..n], cyclic), d, lens[..n], lens[n], cyclic);
    }
  }

  lemma {:induction false} AddAllRequests(c: Channel, d: nat, lens: seq<nat>, cyclic: bool)
    requires d < |c.descs|
    ensures AddAll(c, d, lens, cyclic).descs[d].requested
         == c.descs[d].requested + if cyclic then 0 else Sum(lens)
    decreases |lens|
  {
    if lens != [] { AddAllRequests(c, d, lens[..|lens| - 1], cyclic); }
  }

  lemma {:induction false} SumRepeated(x: nat, n: nat)
    ensures Sum(Repeated(x, n)) == n * x && |Repeated(x, n)| == n
  {
    if n > 0 {
      SumRepeated(x, n - 1);
      assert Repeated(x, n)[..n - 1] == Repeated(x, n - 1);
    }
  }

  /** A complete transfer: prepared, not submitted, with the lengths that were asked for. */
  ghost predicate Ready(c: Channel, d: nat, lengths: seq<nat>) {
    && Inv(c) && Held(c, d) && Within(c.sgs, c.descs[d].txList) && Prepared(c.sgs, c.descs[d].txList)
    && Lengths(c.sgs, c.descs[d].txList) == lengths
  }

  lemma {:induction false} WantedLength(sgl: seq<Segment>)
    ensures |Wanted(sgl)| == |sgl|
    decreases |sgl|
  {
    if sgl != [] { WantedLength(sgl[..|sgl| - 1]); }
  }

  lemma WantedNext(sgl: seq<Segment>, n: nat)
    requires n < |sgl|
    ensures Wanted(sgl[..n + 1]) == Wanted(sgl[..n]) + [sgl[n].length]
  {
    assert sgl[..n + 1][..n] == sgl[..n];
  }

  lemma BuiltReady(c: Channel, d: nat, lengths: seq<nat>, cyclic: bool, ack: bool)
    requires Built(c, d, lengths) && lengths != []
    requires c.descs[d].requested == SumLen(c.sgs, c.descs[d].txList)
    ensures var (c', ok) := Finish(c, d, cyclic, ack);
      && Inv(c') && c'.pending == c.pending && c'.busy == c.busy
      && (ok <==> c.handler == Absent || c.cyclic == cyclic)
      && (ok ==> Ready(c', d, lengths))
  {
    FinishInv(c, d, cyclic, ack);
    var sgs := Marked(c, d);
    SameLengths(c.sgs, sgs, c.descs[d].txList);
  }

  lemma {:induction false} SameLengths(a: seq<SgReq>, b: seq<SgReq>, tx: seq<nat>)
    requires Within(a, tx) && Within(b, tx)
    requires forall s :: 0 <= s < |a| && s < |b| ==> a[s].reqLen == b[s].reqLen
    ensures Lengths(a, tx) == Lengths(b, tx)
    decreases |tx|
  {
    if tx != [] { SameLengths(a, b, tx[..|tx| - 1]); }
  }

  class TegraDmaChannel {
    var sgs: seq<SgReq>
    var descs: seq<Desc>
    var freeSg: seq<nat>
    var pending: seq<nat>
    var freeDesc: seq<nat>
    var cbDesc: seq<nat>
    var busy: bool
    var cyclic: bool
    var handler: Handler
    var configInit: bool

    ghost function View(): Channel
      reads this
    {
      Channel(sgs, descs, freeSg, pending, freeDesc, cbDesc, busy, cyclic, handler)
    }

    constructor ()
      ensures Empty(View())
    {
      sgs, descs, freeSg, pending, freeDesc, cbDesc := [], [], [], [], [], [];
      busy, cyclic, handler, configInit := false, false, Absent, false;
    }

    method AddCallback(d: nat)
      requires d < |descs|
      modifies this`cbDesc, this`descs
      ensures View() == Notify(old(View()), d)
    {
      if descs[d].cbCount == 0 {
        cbDesc := cbDesc + [d];
      }
      descs := descs[d := descs[d].(cbCount := descs[d].cbCount + 1)];
    }

    method AddBytes(d: nat, bytes: int)
      requires d < |descs|
      modifies this`descs
      ensures View() == Credit(old(View()), d, bytes)
    {
      descs := descs[d := descs[d].(transferred := descs[d].transferred + bytes, total := descs[d].total + bytes)];
    }

    /** tdc_start_head_req */
    method StartHeadReq()
      requires Within(sgs, pending)
      modifies this`sgs, this`busy
      ensures View() == StartHead(old(View()))
    {
      if pending != [] {
        var h := pending[0];
        sgs := sgs[h := sgs[h].(configured := true, skipped := false)];
        busy := true;
      }
    }

    /** tdc_configure_next_head_desc and tegra_dma_configure_for_next */
    method ConfigureNextHead(eoc: bool)
      requires Within(sgs, pending)
      modifies this`sgs
      ensures View() == ConfigureNext(old(View()), eoc)
    {
      if |pending| > 1 {
        var n := pending[1];
        if eoc {
          sgs := sgs[n := sgs[n].(skipped := true)];
        } else {
          sgs := sgs[n := sgs[n].(configured := true, skipped := false)];
        }
      }
    }

    /** The head goes to the free list; with a last segment its descriptor goes too. */
    method Drop(status: Status)
      requires Ranges(View()) && pending != []
      modifies this`pending, this`freeSg, this`descs, this`freeDesc, this`cbDesc
      ensures View() == Leave(old(View()), status)
    {
      var h := pending[0];
      pending, freeSg := pending[1..], freeSg + [h];
      if sgs[h].lastSg {
        var d := sgs[h].desc;
        descs := descs[d := descs[d].(status := status)];
        freeDesc := freeDesc + [d];
        AddCallback(d);
      }
    }

    /** tegra_dma_abort_all */
    method AbortEverything()
      requires Ranges(View())
      modifies this`pending, this`freeSg, this`descs, this`freeDesc, this`cbDesc, this`handler
      ensures View() == AbortAll(old(View()))
    {
      while pending != []
        invariant Ranges(View()) && AbortAll(View()) == AbortAll(old(View()))
        decreases |pending|
      {
        Drop(Error);
      }
      handler := Absent;
    }

    /** handle_once_dma_done */
    method OnceDone(toTerminate: bool)
      requires Ranges(View()) && pending != []
      modifies this`busy, this`sgs, this`pending, this`freeSg, this`descs, this`freeDesc, this`cbDesc
      ensures View() == HandleOnce(old(View()), toTerminate)
    {
      var sg := sgs[pending[0]];
      busy := false;
      AddBytes(sg.desc, sg.reqLen);
      Drop(Complete);
      if toTerminate || pending == [] {
        return;
      }
      StartHeadReq();
    }

    /** handle_continuous_head_request, with a request pending */
    method ContinueHead(toTerminate: bool, eoc: bool) returns (ok: bool)
      requires Ranges(View()) && pending != []
      modifies this`busy, this`sgs, this`pending, this`freeSg, this`descs, this`freeDesc, this`cbDesc,
        this`handler
      ensures ok == InFlight(old(sgs)[old(pending)[0]])
      ensures View() == if !ok then AbortAll(old(View()).(busy := false))
                        else if toTerminate then old(View()) else ConfigureNext(old(View()), eoc)
    {
      if !InFlight(sgs[pending[0]]) {
        busy := false;
        AbortEverything();
        return false;
      }
      if !toTerminate {
        ConfigureNextHead(eoc);
      }
      ok := true;
    }

    /** handle_cont_sngl_cycle_dma_done */
    method CycleDone(toTerminate: bool, eoc: bool)
      requires Ranges(View()) && pending != []
      modifies this`busy, this`sgs, this`pending, this`freeSg, this`descs, this`freeDesc, this`cbDesc,
        this`handler
      ensures View() == HandleCyclic(old(View()), toTerminate, eoc)
    {
      var h := pending[0];
      var sg := sgs[h];
      AddBytes(sg.desc, sg.reqLen);
      AddCallback(sg.desc);
      if |pending| > 1 {
        pending := pending[1..] + [h];
        sgs := sgs[h := sg.(configured := false, skipped := false)];
        var ok := ContinueHead(toTerminate, eoc);
        if !ok {
          descs := descs[sg.desc := descs[sg.desc].(status := Error)];
        }
      }
    }

    /** The installed handler, from tegra_dma_isr or tegra_dma_terminate_all. */
    method CallHandler(toTerminate: bool, eoc: bool)
      requires Ranges(View()) && pending != []
      modifies this`busy, this`sgs, this`pending, this`freeSg, this`descs, this`freeDesc, this`cbDesc,
        this`handler
      ensures View() == Handle(old(View()), toTerminate, eoc)
    {
      match handler
      case Absent =>
      case Once => OnceDone(toTerminate);
      case Cyclic => CycleDone(toTerminate, eoc);
    }

    /** tegra_dma_issue_pending */
    method Issue(eoc: bool)
      requires Within(sgs, pending)
      modifies this`busy, this`sgs
      ensures View() == IssuePending(old(View()), eoc)
    {
      if pending == [] {
        return;
      }
      if !busy {
        StartHeadReq();
        if cyclic {
          ConfigureNextHead(eoc);
        }
      }
    }

    /** tegra_dma_tx_submit */
    method TxSubmit(d: nat)
      requires d < |descs|
      modifies this`pending, this`descs
      ensures View() == Submit(old(View()), d)
    {
      var tx := descs[d].txList;
      descs := descs[d := descs[d].(status := InProgress, txList := [])];
      pending := pending + tx;
    }

    /** tegra_dma_terminate_all; the channel pauses without a timeout. */
    method TerminateAll(pendingIrq: bool, eoc: bool, left: nat)
      requires Ranges(View())
      modifies this`busy, this`sgs, this`pending, this`freeSg, this`descs, this`freeDesc, this`cbDesc,
        this`handler
      ensures View() == Terminate(old(View()), pendingIrq, eoc, left)
    {
      if pending != [] {
        if busy {
          StopTransfer(pendingIrq, eoc, left);
        }
        AbortEverything();
      }
      ForgetCallbacks();
    }

    method StopTransfer(pendingIrq: bool, eoc: bool, left: nat)
      requires Ranges(View()) && pending != []
      modifies this`busy, this`sgs, this`pending, this`freeSg, this`descs, this`freeDesc, this`cbDesc,
        this`handler
      ensures View() == Stop(old(View()), pendingIrq, eoc, left)
    {
      if pendingIrq {
        CallHandler(true, eoc);
      }
      var wasBusy := busy;
      busy := false;
      if pending != [] && wasBusy {
        var sg := sgs[pending[0]];
        AddBytes(sg.desc, sg.reqLen - left);
      }
    }

    method ForgetCallbacks()
      modifies this`cbDesc, this`descs
      ensures View() == old(View()).(cbDesc := [], descs := DropCallbacks(old(descs), old(cbDesc)))
    {
      while cbDesc != []
        invariant DropCallbacks(descs, cbDesc) == DropCallbacks(old(descs), old(cbDesc))
        decreases |cbDesc|
      {
        var d := cbDesc[0];
        cbDesc := cbDesc[1..];
        if d < |descs| {
          descs := descs[d := descs[d].(cbCount := 0)];
        }
      }
    }

    /** The locked part of one turn of tegra_dma_tasklet. */
    method NextCallbacks() returns (count: nat)
      requires cbDesc != [] && cbDesc[0] < |descs|
      modifies this`cbDesc, this`descs
      ensures View() == Take(old(View())) && count == old(descs)[old(cbDesc)[0]].cbCount
    {
      var d := cbDesc[0];
      cbDesc := cbDesc[1..];
      count := descs[d].cbCount;
      descs := descs[d := descs[d].(cbCount := 0)];
    }

    // -------------------------------------------------------------- preparing

    /** tegra_dma_desc_get */
    method DescGet(memory: bool) returns (d: Option<nat>)
      modifies this`freeDesc, this`descs
      ensures (View(), d) == GetDesc(old(View()), memory)
    {
      var i := 0;
      while i < |freeDesc|
        invariant i <= |freeDesc|
        invariant FirstAcked(descs, freeDesc) == i + FirstAcked(descs, freeDesc[i..])
      {
        var f := freeDesc[i];
        assert freeDesc[i..][1..] == freeDesc[i + 1..];
        if f < |descs| && descs[f].ack {
          freeDesc := freeDesc[..i] + freeDesc[i + 1..];
          descs := descs[f := descs[f].(ack := false)];
          return Some(f);
        }
        i := i + 1;
      }
      if !memory {
        return None;
      }
      d := Some(|descs|);
      descs := descs + [Desc(0, 0, 0, Complete, [], 0, false)];
    }

    /** The fresh fields of a descriptor. */
    method DescInit(d: nat, cyc: bool, requested: nat)
      requires d < |descs|
      modifies this`descs
      ensures View() == Reset(old(View()), d, cyc, requested)
    {
      var x := descs[d];
      descs := descs[d := x.(requested := requested, transferred := 0, total := 0, txList := [], cbCount := 0,
                             status := if cyc then x.status else InProgress)];
    }

    /** tegra_dma_sg_req_get, and the request filled in and listed. */
    method SegmentAdd(d: nat, len: nat, cyc: bool)
      requires d < |descs|
      modifies this`sgs, this`freeSg, this`descs
      ensures View() == AddSegment(old(View()), d, len, cyc)
    {
      var sg := SgReq(len, false, false, false, d);
      var s := |sgs|;
      if freeSg == [] {
        sgs := sgs + [sg];
      } else {
        s := freeSg[0];
        freeSg := freeSg[1..];
        if s < |sgs| {
          sgs := sgs[s := sg];
        }
      }
      var x := descs[d];
      descs := descs[d := x.(txList := x.txList + [s], requested := Requested(x, len, cyc))];
    }

    /** tegra_dma_desc_put */
    method DescPut(d: nat)
      requires d < |descs|
      modifies this`freeSg, this`descs, this`freeDesc
      ensures View() == PutDesc(old(View()), d)
    {
      freeSg := descs[d].txList + freeSg;
      descs := descs[d := descs[d].(txList := [], ack := true)];
      freeDesc := freeDesc + [d];
    }

    /** The end of a prepare function. */
    method PrepEnd(d: nat, cyc: bool, ack: bool) returns (ok: bool)
      requires d < |descs| && descs[d].txList != [] && Within(sgs, descs[d].txList)
      modifies this`sgs, this`descs, this`freeSg, this`freeDesc, this`handler, this`cyclic
      ensures (View(), ok) == Finish(old(View()), d, cyc, ack)
    {
      var tx := descs[d].txList;
      var l := tx[|tx| - 1];
      sgs := sgs[l := sgs[l].(lastSg := true)];
      descs := descs[d := descs[d].(ack := ack || descs[d].ack)];
      if handler == Absent {
        handler, cyclic := if cyc then Cyclic else Once, cyc;
        return true;
      }
      if cyclic == cyc {
        return true;
      }
      DescPut(d);
      ok := false;
    }

    /** A new descriptor for a prepare function, if there is one to be had. */
    method DescNew(memory: nat, cyc: bool, requested: nat) returns (d: Option<nat>, memory': nat)
      requires Inv(View()) && ReuseSafe(View())
      modifies this`freeDesc, this`descs
      ensures Inv(View()) && sgs == old(sgs) && freeSg == old(freeSg)
      ensures d.None? <==> AllocationsFor(old(View()), 0) > memory
      ensures d.Some? ==> Built(View(), d.value, []) && memory' == memory - AllocationsFor(old(View()), 0)
      ensures d.Some? ==> descs[d.value].requested == requested
    {
      GetDescInv(View(), memory > 0);
      var before := |descs|;
      d := DescGet(memory > 0);
      if d.None? {
        return d, memory;
      }
      memory' := if |descs| > before then memory - 1 else memory;
      ResetInv(View(), d.value, cyc, requested);
      DescInit(d.value, cyc, requested);
    }

    /** tegra_dma_prep_slave_sg: exactly for a configured channel that is not in cyclic mode,
        a non-empty list of acceptable segments, a supported direction and enough memory it
        returns a descriptor for all of them; else the channel keeps nothing of the attempt. */
    method PrepSlaveSg(sgl: seq<Segment>, direction: Direction, ack: bool, memory: nat) returns (d: Option<nat>)
      requires Inv(View()) && ReuseSafe(View())
      modifies this`sgs, this`descs, this`freeSg, this`freeDesc, this`handler, this`cyclic
      ensures Inv(View())
      ensures d.Some? <==>
        && configInit && sgl != [] && Supported(direction) && AllAcceptable(sgl)
        && AllocationsFor(old(View()), |sgl|) <= memory
        && (old(handler) == Absent || !old(cyclic))
      ensures d.Some? ==> Ready(View(), d.value, Wanted(sgl))
    {
      if !configInit || sgl == [] || !Supported(direction) {
        return None;
      }
      d := PrepSegments(sgl, ack, memory);
    }

    method PrepSegments(sgl: seq<Segment>, ack: bool, memory: nat) returns (d: Option<nat>)
      requires Inv(View()) && ReuseSafe(View()) && sgl != []
      modifies this`sgs, this`descs, this`freeSg, this`freeDesc, this`handler, this`cyclic
      ensures Inv(View())
      ensures d.Some? <==>
        && AllAcceptable(sgl) && AllocationsFor(old(View()), |sgl|) <= memory
        && (old(handler) == Absent || !old(cyclic))
      ensures d.Some? ==> Ready(View(), d.value, Wanted(sgl))
    {
      var left: nat;
      d, left := DescNew(memory, false, 0);
      if d.Some? {
        var ok := AddSegments(d.value, sgl, left);
        ok := Conclude(d.value, ok, Wanted(sgl), false, ack);
        d := if ok then d else None;
      }
    }

    /** Both prepare functions end alike: with a complete descriptor, or with nothing. */
    method Conclude(id: nat, built: bool, ghost lens: seq<nat>, cyc: bool, ack: bool) returns (ok: bool)
      requires Inv(View()) && Held(View(), id)
      requires built ==> Built(View(), id, lens) && lens != []
      requires built ==> descs[id].requested == SumLen(sgs, descs[id].txList)
      modifies this`sgs, this`descs, this`freeSg, this`freeDesc, this`handler, this`cyclic
      ensures Inv(View())
      ensures ok <==> built && (old(handler) == Absent || old(cyclic) == cyc)
      ensures ok ==> Ready(View(), id, lens)
    {
      if built {
        BuiltReady(View(), id, lens, cyc, ack);
        ok := PrepEnd(id, cyc, ack);
      } else {
        PutDescInv(View(), id);
        DescPut(id);
        ok := false;
      }
    }

    /** The loop over the client's segments. */
    method AddSegments(id: nat, sgl: seq<Segment>, memory: nat) returns (ok: bool)
      requires Built(View(), id, []) && descs[id].requested == 0
      modifies this`sgs, this`descs, this`freeSg
      ensures Inv(View()) && Held(View(), id)
      ensures ok <==> AllAcceptable(sgl) && |sgl| <= |old(freeSg)| + memory
      ensures ok ==> Built(View(), id, Wanted(sgl)) && |Wanted(sgl)| == |sgl|
      ensures ok ==> descs[id].requested == SumLen(sgs, descs[id].txList)
    {
      ghost var c := View();
      var n;
      ok, n := TakeSegments(id, sgl, memory);
      AddAllBuilt(c, id, Wanted(sgl[..n]), false);
      AddAllRequests(c, id, Wanted(sgl[..n]), false);
      WantedLength(sgl);
      assert sgl[..|sgl|] == sgl;
    }

    method TakeSegments(id: nat, sgl: seq<Segment>, memory: nat) returns (ok: bool, n: nat)
      requires id < |descs|
      modifies this`sgs, this`descs, this`freeSg
      ensures n <= |sgl| && View() == AddAll(old(View()), id, Wanted(sgl[..n]), false)
      ensures ok <==> AllAcceptable(sgl) && |sgl| <= |old(freeSg)| + memory
      ensures ok ==> n == |sgl|
    {
      var left := memory;
      n := 0;
      while n < |sgl|
        invariant n <= |sgl| && id < |descs|
        invariant View() == AddAll(old(View()), id, Wanted(sgl[..n]), false)
        invariant AllAcceptable(sgl[..n])
        invariant n + |freeSg| + left == |old(freeSg)| + memory
      {
        if !Acceptable(sgl[n]) {
          return false, n;
        }
        WantedNext(sgl, n);
        ok, left := TakeOne(old(View()), Wanted(sgl[..n]), id, sgl[n].length, false, left);
        if !ok {
          return false, n;
        }
        n := n + 1;
      }
      assert sgl[..|sgl|] == sgl;
      ok := true;
    }

    /** One segment, unless the free list and the memory are used up. */
    method TakeOne(ghost c: Channel, ghost lens: seq<nat>, id: nat, len: nat, cyc: bool, memory: nat)
      returns (ok: bool, left: nat)
      requires id < |c.descs| && id < |descs| && View() == AddAll(c, id, lens, cyc)
      modifies this`sgs, this`descs, this`freeSg
      ensures |descs| == old(|descs|)
      ensures ok <==> old(|freeSg|) + memory > 0
      ensures ok ==> View() == AddAll(c, id, lens + [len], cyc) && |freeSg| + left + 1 == old(|freeSg|) + memory
      ensures !ok ==> View() == old(View())
    {
      left := memory;
      if freeSg == [] {
        if left == 0 {
          return false, left;
        }
        left := left - 1;
      }
      AddAllNext(c, id, lens, len, cyc);
      SegmentAdd(id, len, cyc);
      ok := true;
    }

    /** tegra_dma_prep_dma_cyclic: exactly for a configured channel that does not run and is
        not in one-shot mode, a buffer of whole periods, an acceptable period, a supported
        direction and enough memory it returns a descriptor with one segment a period. */
    method PrepDmaCyclic(addr: nat, bufLen: nat, period: nat, direction: Direction, ack: bool, memory: nat)
      returns (d: Option<nat>)
      requires Inv(View()) && ReuseSafe(View())
      requires bufLen < 0x8000_0000 && period < 0x8000_0000
      modifies this`sgs, this`descs, this`freeSg, this`freeDesc, this`handler, this`cyclic
      ensures Inv(View())
      ensures d.Some? <==>
        && bufLen > 0 && period > 0 && configInit && !busy && bufLen % period == 0
        && Acceptable(Segment(addr, period)) && Supported(direction)
        && AllocationsFor(old(View()), bufLen / period) <= memory
        && (old(handler) == Absent || old(cyclic))
      ensures d.Some? ==> Ready(View(), d.value, Repeated(period, bufLen / period))
    {
      if bufLen == 0 || period == 0 || !configInit || busy || bufLen % period != 0 {
        return None;
      }
      if period % 4 != 0 || addr % 4 != 0 || period > MAX_DMA_COUNT || !Supported(direction) {
        return None;
      }
      d := PrepPeriods(bufLen, period, ack, memory);
    }

    method PrepPeriods(bufLen: nat, period: nat, ack: bool, memory: nat) returns (d: Option<nat>)
      requires Inv(View()) && ReuseSafe(View()) && period > 0 && bufLen > 0 && bufLen % period == 0
      modifies this`sgs, this`descs, this`freeSg, this`freeDesc, this`handler, this`cyclic
      ensures Inv(View())
      ensures d.Some? <==>
        && AllocationsFor(old(View()), bufLen / period) <= memory
        && (old(handler) == Absent || old(cyclic))
      ensures d.Some? ==> Ready(View(), d.value, Repeated(period, bufLen / period))
    {
      var left: nat;
      d, left := DescNew(memory, true, bufLen);
      if d.Some? {
        var ok := AddPeriods(d.value, bufLen, period, left);
        ok := Conclude(d.value, ok, Repeated(period, bufLen / period), true, ack);
        d := if ok then d else None;
      }
    }

    /** The loop that splits the buffer into periods. */
    method AddPeriods(id: nat, bufLen: nat, period: nat, memory: nat) returns (ok: bool)
      requires Built(View(), id, []) && descs[id].requested == bufLen
      requires period > 0 && bufLen > 0 && bufLen % period == 0
      modifies this`sgs, this`descs, this`freeSg
      ensures Inv(View()) && Held(View(), id)
      ensures ok <==> bufLen / period <= |old(freeSg)| + memory
      ensures ok ==> Built(View(), id, Repeated(period, bufLen / period)) && Repeated(period, bufLen / period) != []
      ensures ok ==> descs[id].requested == SumLen(sgs, descs[id].txList)
    {
      ghost var c, n, k := View(), bufLen / period, 0;
      TimesAll(bufLen, period);
      ok, k := TakePeriods(id, n, bufLen, period, memory);
      AddAllBuilt(c, id, Repeated(period, k), true);
      AddAllRequests(c, id, Repeated(period, k), true);
      SumRepeated(period, n);
    }

    method TakePeriods(id: nat, ghost n: nat, bufLen: nat, period: nat, memory: nat)
      returns (ok: bool, ghost k: nat)
      requires id < |descs| && period > 0 && Times(n, period, bufLen)
      modifies this`sgs, this`descs, this`freeSg
      ensures View() == AddAll(old(View()), id, Repeated(period, k), true)
      ensures ok <==> n <= |old(freeSg)| + memory
      ensures ok ==> k == n
    {
      var left: nat, remain: nat := memory, bufLen;
      k := 0;
      while remain > 0
        invariant id < |descs| && View() == AddAll(old(View()), id, Repeated(period, k), true)
        invariant k <= n && Times(n - k, period, remain)
        invariant k + |freeSg| + left == |old(freeSg)| + memory
        decreases remain
      {
        TimesLess(n - k, period, remain);
        ok, left := TakeOne(old(View()), Repeated(period, k), id, period, true, left);
        if !ok {
          return false, k;
        }
        k := k + 1;
        remain := remain - period;
      }
      TimesNone(n - k, period);
      ok := true;
    }
  }

  ghost predicate Times(k: nat, x: nat, n: nat) {
    n == k * x
  }

  lemma TimesLess(k: nat, x: nat, n: nat)
    requires Times(k, x, n) && n > 0
    ensures k > 0 && n >= x && Times(k - 1, x, n - x)
  {
    assert k * x == (k - 1) * x + x;
  }

  lemma TimesAll(n: nat, x: nat)
    requires x > 0 && n % x == 0
    ensures Times(n / x, x, n)
    ensures n > 0 ==> n / x > 0
  {
  }

  lemma TimesNone(k: nat, x: nat)
    requires Times(k, x, 0) && x > 0
    ensures k == 0
  {
  }
}
