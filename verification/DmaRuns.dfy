/** Whole runs of the DMA channel: clients, interrupts and the tasklet, which drops the lock
    while it calls back, in any order. */
module DmaRuns {
  import opened DmaSpec
  import opened DmaSafety
  import Arith

  /** A submitted transfer list, as it was submitted, and how many of its segments are done. */
  datatype Transfer = Transfer(list: seq<nat>, done: nat)

  /** The channel, and what a run has seen. `local` is the tasklet's own count of callbacks
      still to make; callbacks have run, been recorded and been dropped; since the last
      submission `ring` has been turned `turns` times; and `transfers` are the one-shot
      transfers that are not through, in the order of their submission. */
  datatype System = System(chan: Channel, local: nat, ran: nat, recorded: nat, dropped: nat,
                           ring: seq<nat>, turns: nat, transfers: seq<Transfer>)

  datatype Step =
    | Get(memory: bool)
    | Init(d: nat, cyclic: bool, requested: nat)
    | Add(d: nat, len: nat, cyclic: bool, memory: bool)
    | Put(d: nat)
    | End(d: nat, cyclic: bool, ack: bool)
    | Acknowledge(d: nat)
    | Submission(d: nat)
    | Issue(eoc: bool)
    | Irq(eoc: bool)
    | TakeDesc(callback: bool)
    | Call
    | Termination(pendingIrq: bool, eoc: bool, left: nat)

  /** When a step can happen. The prepare functions' steps work on the descriptor they hold,
      a client submits what a prepare function returned, and the hardware interrupts only
      while it runs. A descriptor is started over only when it is not owed callbacks, which
      the driver itself does not check. */
  ghost predicate Enabled(s: System, step: Step)
    requires Ranges(s.chan)
  {
    var c := s.chan;
    match step
    case Get(_) => true
    case Init(d, _, _) => Held(c, d) && c.descs[d].txList == [] && c.descs[d].cbCount == 0
    case Add(d, _, _, memory) => Building(c, d) && (c.freeSg != [] || memory)
    case Put(d) => Held(c, d)
    case End(d, _, _) => Complete(c, d)
    case Acknowledge(d) => d < |c.descs|
    case Submission(d) => Held(c, d) && Within(c.sgs, c.descs[d].txList) && Prepared(c.sgs, c.descs[d].txList)
    case Issue(_) => true
    case Irq(_) => c.busy && c.pending != []
    case TakeDesc(_) => s.local == 0 && c.cbDesc != [] && c.cbDesc[0] < |c.descs|
    case Call => s.local > 0
    case Termination(pendingIrq, _, _) => c.busy && pendingIrq ==> c.handler != Absent
  }

  ghost predicate Complete(c: Channel, d: nat)
    requires Ranges(c)
  {
    && Building(c, d) && c.descs[d].txList != []
    && c.descs[d].requested == SumLen(c.sgs, c.descs[d].txList) && c.descs[d].transferred == 0
  }

  /** How many completions an interrupt records: one-shot, the end of a descriptor; cyclic,
      the period, and if the handler gives up everything that is aborted. */
  function Records(c: Channel): nat
    requires Ranges(c) && c.pending != []
  {
    match c.handler
    case Absent => 0
    case Once => if c.sgs[c.pending[0]].lastSg then 1 else 0
    case Cyclic => 1 + if Stuck(c) then |Ends(c.sgs, c.pending)| else 0
  }

  /** And terminating: an interrupt that is handled first, and everything that is aborted. */
  function TerminateRecords(c: Channel, pendingIrq: bool, eoc: bool, left: nat): nat
    requires Ranges(c)
  {
    if c.pending == [] then 0
    else
      var c1 := Stopped(c, pendingIrq, eoc, left);
      (if c.busy && pendingIrq then Records(c) else 0) + |Ends(c1.sgs, c1.pending)|
  }

  /** What terminating makes of the channel before it drops the callbacks. */
  function Quieted(c: Channel, pendingIrq: bool, eoc: bool, left: nat): Channel
    requires Ranges(c)
  {
    if c.pending == [] then c else AbortAll(Stopped(c, pendingIrq, eoc, left))
  }

  ghost function Next(s: System, step: Step): System
    requires Ranges(s.chan) && Enabled(s, step)
  {
    var c := s.chan;
    match step
    case Get(memory) => s.(chan := GetDesc(c, memory).0)
    case Init(d, cyclic, requested) => s.(chan := Reset(c, d, cyclic, requested))
    case Add(d, len, cyclic, _) => s.(chan := AddSegment(c, d, len, cyclic))
    case Put(d) => s.(chan := PutDesc(c, d))
    case End(d, cyclic, ack) => s.(chan := Finish(c, d, cyclic, ack).0)
    case Acknowledge(d) => s.(chan := c.(descs := c.descs[d := c.descs[d].(ack := true)]))
    case Submission(d) =>
      s.(chan := Submit(c, d), ring := Submit(c, d).pending, turns := 0,
         transfers := s.transfers + [Transfer(c.descs[d].txList, 0)])
    case Issue(eoc) => s.(chan := IssuePending(c, eoc))
    case Irq(eoc) =>
      var c' := Interrupt(c, eoc);
      var s' := s.(chan := c', recorded := s.recorded + Records(c));
      if c.handler == Cyclic && !Stuck(c) then s'.(turns := s.turns + 1)
      else
        s'.(ring := c'.pending, turns := 0,
            transfers := if c.handler == Once then HeadDone(s.transfers)
                         else if c.handler == Cyclic then [] else s.transfers)
    case TakeDesc(callback) =>
      var n := c.descs[c.cbDesc[0]].cbCount;
      if callback then s.(chan := Take(c), local := n) else s.(chan := Take(c), dropped := s.dropped + n)
    case Call => s.(local := s.local - 1, ran := s.ran + 1)
    case Termination(pendingIrq, eoc, left) =>
      var records := TerminateRecords(c, pendingIrq, eoc, left);
      s.(chan := Terminate(c, pendingIrq, eoc, left), recorded := s.recorded + records,
         dropped := s.dropped + SumCb(Quieted(c, pendingIrq, eoc, left).descs), ring := [], turns := 0, transfers := [])
  }

  /** One segment more of the first transfer. */
  function HeadDone(ts: seq<Transfer>): seq<Transfer> {
    if ts == [] then []
    else if ts[0].done + 1 < |ts[0].list| then ts[0 := ts[0].(done := ts[0].done + 1)]
    else ts[1..]
  }

  // ---------------------------------------------------------------- every step

  lemma StepInv(s: System, step: Step)
    requires Inv(s.chan) && Enabled(s, step)
    ensures Inv(Next(s, step).chan)
  {
    var c := s.chan;
    match step
    case Get(memory) => GetDescInv(c, memory);
    case Init(d, cyclic, requested) => ResetInv(c, d, cyclic, requested);
    case Add(d, len, cyclic, _) => AddSegmentInv(c, d, len, cyclic);
    case Put(d) => PutDescInv(c, d);
    case End(d, cyclic, ack) => FinishInv(c, d, cyclic, ack);
    case Acknowledge(d) => AckInv(c, d, true);
    case Submission(d) => SubmitInv(c, d);
    case Issue(eoc) => IssueInv(c, eoc);
    case Irq(eoc) => HandleInv(c, false, eoc);
    case TakeDesc(_) => TakeInv(c);
    case Call =>
    case Termination(pendingIrq, eoc, left) => TerminateFrees(c, pendingIrq, eoc, left);
  }

  // ---------------------------------------------------------------- callbacks

  /** Completions recorded are callbacks run, callbacks owed, on the channel and in the
      tasklet's hands, and callbacks dropped. */
  ghost predicate Accounted(s: System) {
    s.recorded == s.ran + SumCb(s.chan.descs) + s.local + s.dropped
  }

  lemma HandleOwes(c: Channel, toTerminate: bool, eoc: bool)
    requires Inv(c) && c.pending != []
    ensures SumCb(Handle(c, toTerminate, eoc).descs) == SumCb(c.descs) + Records(c)
  {
    match c.handler
    case Absent =>
    case Once =>
      var sg := c.sgs[c.pending[0]];
      CreditOwes(c.(busy := false), sg.desc, sg.reqLen);
      LeaveOwes(Credit(c.(busy := false), sg.desc, sg.reqLen), DmaSpec.Complete);
    case Cyclic =>
      CyclicCases(c, toTerminate, eoc);
      PeriodOwes(c);
      if Stuck(c) {
        StuckOwes(c);
      }
  }

  lemma CreditOwes(c: Channel, d: nat, bytes: int)
    requires d < |c.descs|
    ensures SumCb(Credit(c, d, bytes).descs) == SumCb(c.descs)
  {
    SumCbUpdate(c.descs, d, Credit(c, d, bytes).descs[d]);
  }

  lemma PeriodOwes(c: Channel)
    requires Ranges(c) && c.pending != []
    ensures SumCb(Count1(c).descs) == SumCb(c.descs) + 1
  {
    var sg := c.sgs[c.pending[0]];
    var c1 := Credit(c, sg.desc, sg.reqLen);
    CreditOwes(c, sg.desc, sg.reqLen);
    SumCbUpdate(c1.descs, sg.desc, Notify(c1, sg.desc).descs[sg.desc]);
  }

  lemma StuckOwes(c: Channel)
    requires Inv(c) && c.handler == Cyclic && c.pending != []
    ensures var d := c.sgs[c.pending[0]].desc;
      var c1 := AbortAll(Turned(c).(busy := false));
      SumCb(c1.descs[d := c1.descs[d].(status := Error)])
        == SumCb(Count1(c).descs) + |Ends(c.sgs, c.pending)|
  {
    var d := c.sgs[c.pending[0]].desc;
    var c0 := Turned(c).(busy := false);
    var c1 := AbortAll(c0);
    AbortOwes(c0);
    SumCbUpdate(c1.descs, d, c1.descs[d].(status := Error));
    RotateCounts(c.sgs, c.pending);
    assert Agree(c.sgs, c0.sgs, c0.pending);
    AgreeOn(c.sgs, c0.sgs, c0.pending);
  }

  lemma StepAccounted(s: System, step: Step)
    requires Inv(s.chan) && Enabled(s, step) && Accounted(s)
    ensures Accounted(Next(s, step))
  {
    var c := s.chan;
    match step
    case Irq(eoc) => HandleOwes(c, false, eoc);
    case TakeDesc(_) => TakeInv(c);
    case Termination(pendingIrq, eoc, left) =>
      TerminateFrees(c, pendingIrq, eoc, left);
      TerminateDrops(c, pendingIrq, eoc, left);
    case _ => QuietStep(s, step);
  }

  /** The other steps record nothing and take nothing. */
  lemma QuietStep(s: System, step: Step)
    requires Ranges(s.chan) && Enabled(s, step)
    requires !step.Irq? && !step.TakeDesc? && !step.Termination?
    ensures SumCb(Next(s, step).chan.descs) == SumCb(s.chan.descs)
  {
    var c := s.chan;
    var c' := Next(s, step).chan;
    match step
    case Get(memory) => QuietGet(c, memory);
    case Init(d, _, _) => SumCbUpdate(c.descs, d, c'.descs[d]);
    case Add(d, _, _, _) => SumCbUpdate(c.descs, d, c'.descs[d]);
    case Put(d) => SumCbUpdate(c.descs, d, c'.descs[d]);
    case End(d, cyclic, ack) => QuietEnd(c, d, cyclic, ack);
    case Acknowledge(d) => SumCbUpdate(c.descs, d, c'.descs[d]);
    case Submission(d) => SumCbUpdate(c.descs, d, c'.descs[d]);
    case Issue(_) =>
    case Call =>
  }

  lemma QuietGet(c: Channel, memory: bool)
    ensures SumCb(GetDesc(c, memory).0.descs) == SumCb(c.descs)
  {
    var i := FirstAcked(c.descs, c.freeDesc);
    if i < |c.freeDesc| {
      var d := c.freeDesc[i];
      SumCbUpdate(c.descs, d, c.descs[d].(ack := false));
    } else if memory {
      var x := Desc(0, 0, 0, DmaSpec.Complete, [], 0, false);
      assert (c.descs + [x])[..|c.descs|] == c.descs;
    }
  }

  lemma QuietEnd(c: Channel, d: nat, cyclic: bool, ack: bool)
    requires d < |c.descs| && c.descs[d].txList != [] && Within(c.sgs, c.descs[d].txList)
    ensures SumCb(Finish(c, d, cyclic, ack).0.descs) == SumCb(c.descs)
  {
    var x := c.descs[d].(ack := ack || c.descs[d].ack);
    var descs := c.descs[d := x];
    SumCbUpdate(c.descs, d, x);
    SumCbUpdate(descs, d, x.(txList := [], ack := true));
  }

  /** How many callbacks terminating drops: those owed before and those it records itself. */
  lemma TerminateDrops(c: Channel, pendingIrq: bool, eoc: bool, left: nat)
    requires Inv(c)
    ensures SumCb(Quieted(c, pendingIrq, eoc, left).descs)
         == SumCb(c.descs) + TerminateRecords(c, pendingIrq, eoc, left)
  {
    if c.pending != [] {
      AbortOwes(Stopped(c, pendingIrq, eoc, left));
      if c.busy {
        if pendingIrq { HandleOwes(c, true, eoc); }
        HaltOwes(if pendingIrq then Handle(c, true, eoc) else c, left);
      }
    }
  }

  lemma HaltOwes(c: Channel, left: nat)
    requires Ranges(c)
    ensures SumCb(Halt(c, left).descs) == SumCb(c.descs)
  {
    if c.busy && c.pending != [] {
      var sg := c.sgs[c.pending[0]];
      CreditOwes(c.(busy := false), sg.desc, sg.reqLen - left);
    }
  }

  // ---------------------------------------------------------------- the ring

  function Turn(p: seq<nat>, k: nat): seq<nat> {
    if k == 0 then p else Rotate(Turn(p, k - 1))
  }

  /** Turning k times: the first k elements, counted round and round, go behind the others. */
  lemma {:induction false} TurnIs(p: seq<nat>, k: nat)
    requires p != []
    ensures Turn(p, k) == p[k % |p|..] + p[..k % |p|]
  {
    if k > 0 {
      TurnIs(p, k - 1);
      var i := (k - 1) % |p|;
      if i + 1 < |p| {
        assert k % |p| == i + 1 by { ModNext(k - 1, |p|); }
        assert p[i..] == [p[i]] + p[i + 1..];
        assert p[..i + 1] == p[..i] + [p[i]];
      } else {
        assert k % |p| == 0 by { ModNext(k - 1, |p|); }
        assert p[i..] == [p[i]];
        assert p[..i] + [p[i]] == p;
      }
    }
  }

  lemma ModNext(k: nat, n: nat)
    requires n > 0
    ensures (k + 1) % n == if k % n + 1 < n then k % n + 1 else 0
  {
    var q, r := k / n, k % n;
    if r + 1 < n {
      Arith.DivUnique(k + 1, n, q, r + 1);
    } else {
      Arith.DivUnique(k + 1, n, q + 1, 0);
    }
  }

  /** Every pending segment belongs to one descriptor and has one length. */
  predicate Uniform(c: Channel, d: nat, period: nat)
    requires Within(c.sgs, c.pending)
  {
    c.pending != [] && forall i :: 0 <= i < |c.pending| ==>
      c.sgs[c.pending[i]].desc == d && c.sgs[c.pending[i]].reqLen == period
  }

  /** The pending list is the list as it was at the last submission, rotated once for every
      cyclic interrupt since; and a single cyclic descriptor has transferred one period for
      each. */
  ghost predicate Turning(s: System)
    requires Ranges(s.chan)
  {
    && s.chan.pending == Turn(s.ring, s.turns)
    && (s.chan.handler != Cyclic ==> s.turns == 0)
    && (s.chan.handler == Cyclic ==> forall d: nat, period: nat ::
          d < |s.chan.descs| && Uniform(s.chan, d, period) ==> s.chan.descs[d].transferred == period * s.turns)
  }

  /** The steps of the prepare functions, and the client's acknowledgement, leave everything
      submitted alone. */
  predicate Preparing(step: Step) {
    step.Get? || step.Init? || step.Add? || step.Put? || step.End? || step.Acknowledge?
  }

  ghost predicate Spared(c: Channel, c': Channel)
    requires Ranges(c)
  {
    && c'.pending == c.pending && Untouched(c.sgs, c'.sgs, c.pending) && c'.busy == c.busy
    && |c'.descs| >= |c.descs|
    && forall i :: 0 <= i < |c.pending| ==> SameBytes(c, c', c.sgs[c.pending[i]].desc)
  }

  predicate SameBytes(c: Channel, c': Channel, d: nat) {
    d < |c.descs| && d < |c'.descs| && c'.descs[d].transferred == c.descs[d].transferred
  }

  lemma PreparingSpares(s: System, step: Step)
    requires Inv(s.chan) && Enabled(s, step) && Preparing(step)
    ensures Spared(s.chan, Next(s, step).chan)
  {
    var c := s.chan;
    match step
    case Init(d, _, _) => OnlyHeld(c, Next(s, step).chan, d);
    case Put(d) => OnlyHeld(c, Next(s, step).chan, d);
    case Add(d, len, cyclic, _) => AddSpares(c, d, len, cyclic);
    case End(d, cyclic, ack) => EndSpares(c, d, cyclic, ack);
    case _ =>
  }

  lemma AddSpares(c: Channel, d: nat, len: nat, cyclic: bool)
    requires Inv(c) && Building(c, d)
    ensures Spared(c, AddSegment(c, d, len, cyclic))
  {
    AddSegmentInv(c, d, len, cyclic);
    AddLeaves(c, d, len, cyclic);
    OnlyHeld(c, AddSegment(c, d, len, cyclic), d);
  }

  lemma AddLeaves(c: Channel, d: nat, len: nat, cyclic: bool)
    requires d < |c.descs|
    ensures var c' := AddSegment(c, d, len, cyclic);
      && c'.pending == c.pending && c'.busy == c.busy
      && |c'.descs| == |c.descs| && c'.descs == c.descs[d := c'.descs[d]]
  {
  }

  lemma EndSpares(c: Channel, d: nat, cyclic: bool, ack: bool)
    requires Inv(c) && Complete(c, d)
    ensures Spared(c, Finish(c, d, cyclic, ack).0)
  {
    FinishInv(c, d, cyclic, ack);
    OnlyHeld(c, Finish(c, d, cyclic, ack).0, d);
  }

  /** A held descriptor has no pending segments. */
  lemma OnlyHeld(c: Channel, c': Channel, d: nat)
    requires Inv(c) && Held(c, d)
    requires c'.pending == c.pending && Untouched(c.sgs, c'.sgs, c.pending) && c'.busy == c.busy
    requires |c'.descs| == |c.descs| && c'.descs == c.descs[d := c'.descs[d]]
    ensures Spared(c, c')
  {
  }

  lemma StepTurning(s: System, step: Step)
    requires Inv(s.chan) && Enabled(s, step) && Turning(s)
    ensures Inv(Next(s, step).chan) && Turning(Next(s, step))
  {
    StepInv(s, step);
    if Preparing(step) || step.Call? {
      PreparingTurning(s, step);
    } else {
      match step
      case Submission(d) => SubmissionTurning(s, d);
      case Issue(eoc) => IssueTurning(s, eoc);
      case Irq(eoc) => IrqTurning(s, eoc);
      case TakeDesc(_) => TakeTurning(s, step);
      case Termination(pendingIrq, eoc, left) => TerminateFrees(s.chan, pendingIrq, eoc, left);
    }
  }

  lemma PreparingTurning(s: System, step: Step)
    requires Inv(s.chan) && Enabled(s, step) && Turning(s) && (Preparing(step) || step.Call?)
    ensures Inv(Next(s, step).chan) && Turning(Next(s, step))
  {
    StepInv(s, step);
    if step.Call? { return; }
    PreparingSpares(s, step);
    SparedTurning(s, Next(s, step));
  }

  lemma TakeTurning(s: System, step: Step)
    requires Inv(s.chan) && Enabled(s, step) && Turning(s) && step.TakeDesc?
    ensures Inv(Next(s, step).chan) && Turning(Next(s, step))
  {
    StepInv(s, step);
    SparedTurning(s, Next(s, step));
  }

  lemma SparedTurning(s: System, s': System)
    requires Inv(s.chan) && Inv(s'.chan) && Turning(s) && Spared(s.chan, s'.chan)
    requires s'.ring == s.ring && s'.turns == s.turns
    requires s'.chan.handler == s.chan.handler || s.chan.handler == Absent
    ensures Turning(s')
  {
    var c, c' := s.chan, s'.chan;
    if c'.handler == Cyclic {
      forall d: nat, period: nat | d < |c'.descs| && Uniform(c', d, period)
        ensures c'.descs[d].transferred == period * s.turns
      {
        assert SameBytes(c, c', c.sgs[c.pending[0]].desc);
        assert Uniform(c, d, period);
        if c.handler == Absent {
          assert Count(Ends(c.sgs, c.pending), d) > 0;
        }
      }
    }
  }

  lemma SubmissionTurning(s: System, d: nat)
    requires Inv(s.chan) && Turning(s) && Enabled(s, Submission(d))
    ensures Ranges(Next(s, Submission(d)).chan) && Turning(Next(s, Submission(d)))
  {
    var c := s.chan;
    var c' := Submit(c, d);
    var tx := c.descs[d].txList;
    SubmitInv(c, d);
    assert c'.pending[|c.pending|] == tx[0];
    forall e: nat, period: nat | e < |c'.descs| && Uniform(c', e, period)
      ensures c'.descs[e].transferred == 0
    {
      assert TxOk(c.sgs, d, c.descs[d]);
      assert e == d;
    }
  }

  lemma IssueTurning(s: System, eoc: bool)
    requires Inv(s.chan) && Turning(s)
    ensures Ranges(Next(s, Issue(eoc)).chan) && Turning(Next(s, Issue(eoc)))
  {
    var c := s.chan;
    var c' := IssuePending(c, eoc);
    assert SameShape(c.sgs, c'.sgs) && c'.descs == c.descs && c'.pending == c.pending;
    SameUniform(c, c');
  }

  lemma SameUniform(c: Channel, c': Channel)
    requires Ranges(c) && Ranges(c') && SameShape(c.sgs, c'.sgs) && c'.pending == c.pending
    ensures forall d: nat, period: nat :: Uniform(c', d, period) ==> Uniform(c, d, period)
  {
  }

  lemma IrqTurning(s: System, eoc: bool)
    requires Inv(s.chan) && Turning(s) && Enabled(s, Irq(eoc))
    requires Inv(Next(s, Irq(eoc)).chan)
    ensures Turning(Next(s, Irq(eoc)))
  {
    var c := s.chan;
    if c.handler == Cyclic && !Stuck(c) {
      PeriodTurning(s, eoc);
    } else if c.handler == Cyclic {
      GivesUp(c, false, eoc);
    }
  }

  lemma PeriodTurning(s: System, eoc: bool)
    requires Inv(s.chan) && Turning(s) && Enabled(s, Irq(eoc))
    requires s.chan.handler == Cyclic && !Stuck(s.chan) && Inv(Next(s, Irq(eoc)).chan)
    ensures Turning(Next(s, Irq(eoc)))
  {
    var c, s' := s.chan, Next(s, Irq(eoc));
    PeriodTurns(c, eoc);
    PeriodCounts(c, s'.chan, s.turns);
    assert s'.ring == s.ring && s'.turns == s.turns + 1;
  }

  /** The cyclic handler aborts everything exactly when it is stuck. */
  lemma GivesUp(c: Channel, toTerminate: bool, eoc: bool)
    requires Inv(c) && c.handler == Cyclic && c.pending != []
    ensures var c' := HandleCyclic(c, toTerminate, eoc);
      if Stuck(c) then c'.handler == Absent && c'.pending == [] && !c'.busy
      else c'.handler == Cyclic && c'.pending != []
  {
    CyclicCases(c, toTerminate, eoc);
  }

  lemma PeriodCounts(c: Channel, c': Channel, turns: nat)
    requires Ranges(c) && Ranges(c') && c.pending != [] && c'.pending == Rotate(c.pending)
    requires SameShape(c.sgs, c'.sgs) && |c'.descs| == |c.descs|
    requires var sg := c.sgs[c.pending[0]];
      c'.descs[sg.desc].transferred == c.descs[sg.desc].transferred + sg.reqLen
    requires forall d: nat, period: nat ::
      d < |c.descs| && Uniform(c, d, period) ==> c.descs[d].transferred == period * turns
    ensures forall d: nat, period: nat ::
      d < |c'.descs| && Uniform(c', d, period) ==> c'.descs[d].transferred == period * (turns + 1)
  {
    forall d: nat, period: nat | d < |c'.descs| && Uniform(c', d, period)
      ensures c'.descs[d].transferred == period * (turns + 1)
    {
      UniformBack(c, c', d, period);
    }
  }

  /** A period's interrupt rotates the pending list and credits the head's descriptor. */
  lemma PeriodTurns(c: Channel, eoc: bool)
    requires Inv(c) && c.handler == Cyclic && c.pending != [] && !Stuck(c)
    ensures var sg, c' := c.sgs[c.pending[0]], HandleCyclic(c, false, eoc);
      && c'.pending == Rotate(c.pending) && SameShape(c.sgs, c'.sgs) && c'.handler == Cyclic
      && |c'.descs| == |c.descs| && c'.busy == c.busy
      && c'.descs[sg.desc].transferred == c.descs[sg.desc].transferred + sg.reqLen
  {
    CyclicCases(c, false, eoc);
    if |c.pending| == 1 {
      assert Rotate(c.pending) == c.pending;
    }
  }

  lemma UniformBack(c: Channel, c': Channel, d: nat, period: nat)
    requires Ranges(c) && Ranges(c') && c.pending != [] && c'.pending == Rotate(c.pending)
    requires SameShape(c.sgs, c'.sgs) && Uniform(c', d, period)
    ensures Uniform(c, d, period)
  {
    var n := |c.pending|;
    forall i | 0 <= i < n ensures Same(c.sgs[c.pending[i]], c'.sgs[c.pending[i]]) && c.pending[i] in c'.pending {
      assert c.pending[i] == c'.pending[if i == 0 then n - 1 else i - 1];
    }
  }

  // ---------------------------------------------------------------- one-shot runs

  /** What is left of every transfer. */
  function Remaining(ts: seq<Transfer>): seq<seq<nat>>
    requires forall i :: 0 <= i < |ts| ==> ts[i].done < |ts[i].list|
  {
    seq(|ts|, i requires 0 <= i < |ts| => ts[i].list[ts[i].done..])
  }

  /** Only the first transfer has begun, and none is through. */
  predicate Queued(ts: seq<Transfer>) {
    forall i :: 0 <= i < |ts| ==> ts[i].done < |ts[i].list| && (i > 0 ==> ts[i].done == 0)
  }

  /** Outside cyclic mode the pending list, cut behind every last segment, is in the order of
      submission what is left of the submitted lists: a suffix of the first one and then whole
      ones. */
  ghost predicate Ordered(s: System)
    requires Ranges(s.chan)
  {
    s.chan.handler != Cyclic ==>
      Queued(s.transfers) && Groups(s.chan.sgs, s.chan.pending) == Remaining(s.transfers)
  }

  lemma {:induction false} GroupsAgree(a: seq<SgReq>, b: seq<SgReq>, p: seq<nat>)
    requires Agree(a, b, p)
    ensures Groups(a, p) == Groups(b, p)
  {
    if p != [] { GroupsAgree(a, b, p[1..]); }
  }

  lemma {:induction false} GroupOfPrepared(sgs: seq<SgReq>, tx: seq<nat>)
    requires Within(sgs, tx) && Prepared(sgs, tx)
    requires forall i :: 0 <= i < |tx| - 1 ==> !sgs[tx[i]].lastSg
    ensures Groups(sgs, tx) == [tx]
  {
    if |tx| > 1 {
      GroupOfPrepared(sgs, tx[1..]);
      assert [tx[0]] + tx[1..] == tx;
    } else {
      assert tx == [tx[0]] && Groups(sgs, tx[1..]) == [];
    }
  }

  /** A submission adds one group. */
  lemma {:induction false} GroupsAppend(sgs: seq<SgReq>, p: seq<nat>, tx: seq<nat>)
    requires Within(sgs, p) && Adjacent(sgs, p) && Within(sgs, tx) && Prepared(sgs, tx)
    requires forall i :: 0 <= i < |tx| - 1 ==> !sgs[tx[i]].lastSg
    ensures Groups(sgs, p + tx) == Groups(sgs, p) + [tx]
  {
    if p == [] {
      GroupOfPrepared(sgs, tx);
      assert p + tx == tx;
    } else {
      GroupsAppend(sgs, p[1..], tx);
      assert (p + tx)[1..] == p[1..] + tx && (p + tx)[0] == p[0];
      var rest := Groups(sgs, p[1..]);
      if !sgs[p[0]].lastSg {
        assert p[1..] != [] && rest != [];
        assert (rest + [tx])[1..] == rest[1..] + [tx];
      }
    }
  }

  /** Taking the head shortens the first group. */
  lemma GroupsPop(sgs: seq<SgReq>, p: seq<nat>)
    requires Within(sgs, p) && Adjacent(sgs, p) && p != []
    ensures var g := Groups(sgs, p);
      g != [] && g[0] != [] &&
      Groups(sgs, p[1..]) == if |g[0]| == 1 then g[1..] else [g[0][1..]] + g[1..]
  {
    var rest := Groups(sgs, p[1..]);
    GroupsAre(sgs, p);
    if !sgs[p[0]].lastSg {
      assert p[1..] != [];
      GroupsAre(sgs, p[1..]);
      assert rest == [rest[0]] + rest[1..];
    }
  }

  lemma RemainingPop(ts: seq<Transfer>)
    requires Queued(ts) && ts != []
    ensures Queued(HeadDone(ts))
    ensures var g := Remaining(ts);
      Remaining(HeadDone(ts)) == if |g[0]| == 1 then g[1..] else [g[0][1..]] + g[1..]
  {
  }

  lemma StepOrdered(s: System, step: Step)
    requires Inv(s.chan) && Enabled(s, step) && Ordered(s)
    ensures Ranges(Next(s, step).chan) && Ordered(Next(s, step))
  {
    StepInv(s, step);
    if Preparing(step) {
      PreparingOrdered(s, step);
    } else {
      match step
      case Submission(d) => SubmissionOrdered(s, d);
      case Issue(eoc) => IssueOrdered(s, eoc);
      case Irq(eoc) => IrqOrdered(s, eoc);
      case TakeDesc(_) => QuietOrdered(s, step);
      case Call => QuietOrdered(s, step);
      case Termination(pendingIrq, eoc, left) => TerminateFrees(s.chan, pendingIrq, eoc, left);
    }
  }

  /** The tasklet does not touch what is pending. */
  lemma QuietOrdered(s: System, step: Step)
    requires Inv(s.chan) && Enabled(s, step) && Ordered(s) && (step.TakeDesc? || step.Call?)
    requires Inv(Next(s, step).chan)
    ensures Ordered(Next(s, step))
  {
    var s' := Next(s, step);
    assert s'.chan.sgs == s.chan.sgs && s'.chan.pending == s.chan.pending && s'.transfers == s.transfers;
  }

  lemma PreparingOrdered(s: System, step: Step)
    requires Inv(s.chan) && Enabled(s, step) && Ordered(s) && Preparing(step)
    requires Inv(Next(s, step).chan)
    ensures Ordered(Next(s, step))
  {
    PreparingSpares(s, step);
    PreparingModes(s, step);
    GroupsAgree(s.chan.sgs, Next(s, step).chan.sgs, s.chan.pending);
  }

  lemma IssueOrdered(s: System, eoc: bool)
    requires Inv(s.chan) && Ordered(s)
    ensures Ranges(Next(s, Issue(eoc)).chan) && Ordered(Next(s, Issue(eoc)))
  {
    var c := s.chan;
    assert SameShape(c.sgs, IssuePending(c, eoc).sgs);
    GroupsAgree(c.sgs, IssuePending(c, eoc).sgs, c.pending);
  }

  /** Preparing changes the mode from none only. */
  lemma PreparingModes(s: System, step: Step)
    requires Inv(s.chan) && Enabled(s, step) && Preparing(step)
    ensures Next(s, step).chan.handler == s.chan.handler || s.chan.handler == Absent
  {
  }

  lemma SubmissionOrdered(s: System, d: nat)
    requires Inv(s.chan) && Ordered(s) && Enabled(s, Submission(d))
    ensures Ranges(Next(s, Submission(d)).chan) && Ordered(Next(s, Submission(d)))
  {
    var c, tx := s.chan, s.chan.descs[d].txList;
    SubmitInv(c, d);
    if c.handler != Cyclic {
      assert TxOk(c.sgs, d, c.descs[d]);
      GroupsAppend(c.sgs, c.pending, tx);
      assert Remaining(s.transfers + [Transfer(tx, 0)]) == Remaining(s.transfers) + [tx];
    }
  }

  lemma IrqOrdered(s: System, eoc: bool)
    requires Inv(s.chan) && Ordered(s) && Enabled(s, Irq(eoc)) && Inv(Next(s, Irq(eoc)).chan)
    ensures Ordered(Next(s, Irq(eoc)))
  {
    var c := s.chan;
    match c.handler
    case Absent =>
    case Cyclic => GivesUp(c, false, eoc);
    case Once => OnceOrdered(s, eoc);
  }

  lemma OnceOrdered(s: System, eoc: bool)
    requires Inv(s.chan) && Ordered(s) && Enabled(s, Irq(eoc)) && s.chan.handler == Once
    ensures Ranges(Next(s, Irq(eoc)).chan) && Ordered(Next(s, Irq(eoc)))
  {
    var c := s.chan;
    var c' := HandleOnce(c, false);
    var rest := c.pending[1..];
    GroupsPop(c.sgs, c.pending);
    RemainingPop(s.transfers);
    assert c'.pending == rest && Agree(c.sgs, c'.sgs, rest);
    GroupsAgree(c.sgs, c'.sgs, rest);
  }

  // ---------------------------------------------------------------- cyclic runs

  /** While a cyclic transfer runs, the hardware knows the head request and the one behind. */
  ghost predicate Primed(c: Channel)
    requires Ranges(c)
  {
    c.handler == Cyclic && c.busy && c.pending != [] ==>
      && InFlight(c.sgs[c.pending[0]])
      && (|c.pending| > 1 ==> InFlight(c.sgs[c.pending[1]]))
  }

  /** Segments that are not submitted yet have not been programmed. */
  ghost predicate Idle(c: Channel) {
    forall s: nat :: s < |c.sgs| && TxCount(c.descs, s) > 0 ==> !InFlight(c.sgs[s])
  }

  /** The clients' part: a running cyclic channel takes submissions only when there is a second
      request already, and a running channel without a mode does not become cyclic.
      (Preparing a cyclic transfer is refused while the channel runs.) */
  predicate Orderly(s: System, step: Step) {
    && (step.Submission? && s.chan.handler == Cyclic && s.chan.busy ==> |s.chan.pending| > 1)
    && (step.End? && step.cyclic && s.chan.handler == Absent ==> !s.chan.busy)
  }

  lemma StepPrimed(s: System, step: Step)
    requires Inv(s.chan) && Enabled(s, step) && Primed(s.chan) && Orderly(s, step)
    ensures Ranges(Next(s, step).chan) && Primed(Next(s, step).chan)
  {
    var c := s.chan;
    StepInv(s, step);
    if Preparing(step) {
      PreparingSpares(s, step);
      PreparingPrimed(s, step);
    } else {
      match step
      case Irq(eoc) => IrqPrimed(c, eoc);
      case Termination(pendingIrq, eoc, left) => TerminateFrees(c, pendingIrq, eoc, left);
      case _ =>
    }
  }

  lemma PreparingPrimed(s: System, step: Step)
    requires Inv(s.chan) && Enabled(s, step) && Primed(s.chan) && Orderly(s, step) && Preparing(step)
    requires Spared(s.chan, Next(s, step).chan) && Inv(Next(s, step).chan)
    ensures Primed(Next(s, step).chan)
  {
  }

  lemma IrqPrimed(c: Channel, eoc: bool)
    requires Inv(c) && c.busy && c.pending != [] && Primed(c)
    ensures Primed(Handle(c, false, eoc))
  {
    if c.handler == Cyclic {
      CyclicCases(c, false, eoc);
      if |c.pending| > 1 {
        TurnedInv(c);
        NextElse(c);
        TurnedPrimed(Turned(c), eoc);
      }
    }
  }

  lemma TurnedPrimed(c: Channel, eoc: bool)
    requires Inv(c) && |c.pending| > 1 && InFlight(c.sgs[c.pending[0]])
    ensures Primed(ConfigureNext(c, eoc))
  {
    NextElse(c);
  }

  /** A submission while a cyclic transfer runs is harmless exactly when there is already a
      second request; to a single one it adds a neighbour nobody programs, and the next
      interrupt aborts everything. */
  lemma LateSubmission(c: Channel, d: nat)
    requires Inv(c) && Held(c, d) && Within(c.sgs, c.descs[d].txList) && Prepared(c.sgs, c.descs[d].txList)
    requires Idle(c) && Primed(c) && c.handler == Cyclic && c.busy
    ensures Inv(Submit(c, d))
    ensures Primed(Submit(c, d)) <==> |c.pending| > 1
    ensures Stuck(Submit(c, d)) <==> |c.pending| == 1
  {
    SubmitInv(c, d);
    var c' := Submit(c, d);
    var tx := c.descs[d].txList;
    assert c'.pending[0] == c.pending[0];
    if |c.pending| > 1 {
      assert c'.pending[1] == c.pending[1];
    } else {
      assert c'.pending[1] == tx[0];
      CountMember(tx, 0);
      TxUpdate(c.descs, d, c.descs[d], tx[0]);
    }
  }

  /** What a step programs is pending; what it does not program is not in flight or as it
      was. */
  ghost predicate Programs(c: Channel, c': Channel) {
    && |c'.sgs| == |c.sgs| && |c'.descs| == |c.descs|
    && (forall s: nat :: s < |c.sgs| ==> c'.sgs[s] == c.sgs[s] || Count(c.pending, s) > 0 || !InFlight(c'.sgs[s]))
    && (forall d: nat :: d < |c.descs| ==> c'.descs[d].txList == c.descs[d].txList)
  }

  lemma ProgramsIdle(c: Channel, c': Channel)
    requires Inv(c) && Idle(c) && Programs(c, c')
    ensures Idle(c')
  {
    forall s: nat | s < |c.sgs| && TxCount(c'.descs, s) > 0 ensures !InFlight(c'.sgs[s]) {
      SameTx(c'.descs, c.descs, s);
      assert Count(c.freeSg, s) + Count(c.pending, s) + TxCount(c.descs, s) == 1;
    }
  }

  lemma StepIdle(s: System, step: Step)
    requires Inv(s.chan) && Enabled(s, step) && Idle(s.chan)
    ensures Idle(Next(s, step).chan)
  {
    var c, c' := s.chan, Next(s, step).chan;
    match step
    case Issue(eoc) =>
      IssueFlags(c, eoc);
      ProgramsIdle(c, c');
    case Irq(eoc) =>
      HandleFlags(c, false, eoc);
      ProgramsIdle(c, c');
    case Termination(pendingIrq, eoc, left) =>
      TerminateFlags(c, pendingIrq, eoc, left);
      ProgramsIdle(c, c');
    case TakeDesc(_) => DescIdle(c, c.cbDesc[0], c'.descs[c.cbDesc[0]]);
    case Call =>
    case Submission(d) => DescIdle(c, d, c'.descs[d]);
    case _ => PreparingIdle(s, step);
  }

  /** Updating a descriptor with the same or no transfer list. */
  lemma DescIdle(c: Channel, d: nat, x: Desc)
    requires Idle(c) && d < |c.descs| && (x.txList == c.descs[d].txList || x.txList == [])
    ensures forall s: nat :: s < |c.sgs| && TxCount(c.descs[d := x], s) > 0 ==> !InFlight(c.sgs[s])
  {
    forall s: nat | s < |c.sgs| && TxCount(c.descs[d := x], s) > 0 ensures !InFlight(c.sgs[s]) {
      TxUpdate(c.descs, d, x, s);
    }
  }

  lemma PreparingIdle(s: System, step: Step)
    requires Inv(s.chan) && Enabled(s, step) && Idle(s.chan) && Preparing(step)
    ensures Idle(Next(s, step).chan)
  {
    var c, c' := s.chan, Next(s, step).chan;
    match step
    case Get(memory) => GetIdle(c, memory);
    case Init(d, _, _) => DescIdle(c, d, c'.descs[d]);
    case Add(d, len, cyclic, _) => AddIdle(c, d, len, cyclic);
    case Put(d) => DescIdle(c, d, c'.descs[d]);
    case End(d, cyclic, ack) => EndIdle(c, d, cyclic, ack);
    case Acknowledge(d) => DescIdle(c, d, c'.descs[d]);
  }

  lemma EndIdle(c: Channel, d: nat, cyclic: bool, ack: bool)
    requires Idle(c) && Ranges(c) && Complete(c, d)
    ensures Idle(Finish(c, d, cyclic, ack).0)
  {
    var c' := Finish(c, d, cyclic, ack).0;
    DescIdle(c, d, c'.descs[d]);
    assert c'.descs == c.descs[d := c'.descs[d]];
    assert forall s: nat :: s < |c.sgs| ==> InFlight(c'.sgs[s]) == InFlight(c.sgs[s]);
  }

  lemma GetIdle(c: Channel, memory: bool)
    requires Idle(c)
    ensures Idle(GetDesc(c, memory).0)
  {
    var i := FirstAcked(c.descs, c.freeDesc);
    if i < |c.freeDesc| {
      var d := c.freeDesc[i];
      DescIdle(c, d, c.descs[d].(ack := false));
    } else {
      var x := Desc(0, 0, 0, DmaSpec.Complete, [], 0, false);
      assert (c.descs + [x])[..|c.descs|] == c.descs;
    }
  }

  lemma AddIdle(c: Channel, d: nat, len: nat, cyclic: bool)
    requires Inv(c) && Building(c, d) && Idle(c)
    ensures Idle(AddSegment(c, d, len, cyclic))
  {
    var c' := AddSegment(c, d, len, cyclic);
    var s := Stock(c, SgReq(len, false, false, false, d)).freeSg[0];
    forall t: nat | t < |c'.sgs| && TxCount(c'.descs, t) > 0 ensures !InFlight(c'.sgs[t]) {
      TxUpdate(c.descs, d, c'.descs[d], t);
      CountAppend(c.descs[d].txList, [s], t);
      FreshSegment(c, SgReq(len, false, false, false, d), t);
    }
  }

  /** Getting a segment request sets that one; a new one is in no list. */
  lemma FreshSegment(c: Channel, sg: SgReq, t: nat)
    requires Books(c)
    ensures var c' := Stock(c, sg);
      t < |c'.sgs| ==> if t == c'.freeSg[0] then c'.sgs[t] == sg else t < |c.sgs| && c'.sgs[t] == c.sgs[t]
  {
    if c.freeSg != [] {
      CountMember(c.freeSg, 0);
    }
  }

  lemma IssueFlags(c: Channel, eoc: bool)
    requires Inv(c)
    ensures Programs(c, IssuePending(c, eoc))
  {
    if c.pending != [] { CountMember(c.pending, 0); }
    if |c.pending| > 1 { CountMember(c.pending, 1); }
  }

  lemma HandleFlags(c: Channel, toTerminate: bool, eoc: bool)
    requires Inv(c) && c.pending != []
    ensures Programs(c, Handle(c, toTerminate, eoc))
  {
    if |c.pending| > 1 { CountMember(c.pending, 1); }
    match c.handler
    case Absent =>
    case Once =>
    case Cyclic =>
      if Stuck(c) {
        StuckFlags(c, toTerminate, eoc);
      } else {
        CyclicFlags(c, toTerminate, eoc);
      }
  }

  lemma StuckFlags(c: Channel, toTerminate: bool, eoc: bool)
    requires Inv(c) && c.pending != [] && c.handler == Cyclic && Stuck(c)
    ensures Programs(c, HandleCyclic(c, toTerminate, eoc))
  {
    CyclicCases(c, toTerminate, eoc);
    TurnedInv(c);
    AbortTx(Turned(c).(busy := false));
  }

  lemma AbortTx(c: Channel)
    requires Books(c)
    ensures forall d: nat :: d < |c.descs| ==> AbortAll(c).descs[d].txList == c.descs[d].txList
  {
    forall d: nat | d < |c.descs| ensures AbortAll(c).descs[d].txList == c.descs[d].txList {
      AbortMarks(c, d);
    }
  }

  lemma CyclicFlags(c: Channel, toTerminate: bool, eoc: bool)
    requires Inv(c) && c.pending != [] && c.handler == Cyclic && !Stuck(c)
    ensures Programs(c, HandleCyclic(c, toTerminate, eoc))
  {
    CyclicCases(c, toTerminate, eoc);
    if |c.pending| > 1 {
      var n := if |c.pending| == 2 then 0 else 2;
      CountMember(c.pending, n);
      assert Turned(c).pending[1] == c.pending[n];
    }
  }

  lemma TerminateFlags(c: Channel, pendingIrq: bool, eoc: bool, left: nat)
    requires Inv(c)
    ensures Programs(c, Terminate(c, pendingIrq, eoc, left))
  {
    var c1 := Stopped(c, pendingIrq, eoc, left);
    StoppedFlags(c, pendingIrq, eoc, left);
    StoppedBooks(c, pendingIrq, eoc, left);
    if c.pending != [] {
      AbortTx(c1);
      AbortInv(c1);
    }
    SilencedInv(Quieted(c, pendingIrq, eoc, left));
  }

  lemma StoppedFlags(c: Channel, pendingIrq: bool, eoc: bool, left: nat)
    requires Inv(c)
    ensures Programs(c, Stopped(c, pendingIrq, eoc, left))
  {
    if c.pending != [] && c.busy {
      var c1 := if pendingIrq then Handle(c, true, eoc) else c;
      if pendingIrq { HandleFlags(c, true, eoc); }
      HaltFlags(c1, left);
    }
  }

  lemma HaltFlags(c: Channel, left: nat)
    requires Ranges(c)
    ensures Halt(c, left).sgs == c.sgs && |Halt(c, left).descs| == |c.descs|
    ensures forall d: nat :: d < |c.descs| ==> Halt(c, left).descs[d].txList == c.descs[d].txList
  {
  }

  // ---------------------------------------------------------------- runs

  ghost predicate Possible(s: System, steps: seq<Step>)
    decreases |steps|
  {
    steps == [] ||
    (Ranges(s.chan) && Enabled(s, steps[0]) && Possible(Next(s, steps[0]), steps[1..]))
  }

  ghost function After(s: System, steps: seq<Step>): System
    requires Possible(s, steps)
    decreases |steps|
  {
    if steps == [] then s else After(Next(s, steps[0]), steps[1..])
  }

  ghost predicate Sound(s: System) {
    Inv(s.chan) && Accounted(s) && Turning(s) && Ordered(s) && Idle(s.chan)
  }

  predicate Fresh(s: System) {
    && Empty(s.chan)
    && s.local == s.ran == s.recorded == s.dropped == s.turns == 0 && s.ring == [] && s.transfers == []
  }

  lemma FreshSound(s: System)
    requires Fresh(s)
    ensures Sound(s) && Primed(s.chan)
  {
    EmptyInv(s.chan);
  }

  /** Everything holds after every run: segment requests and descriptors are where they
      belong, callbacks add up, the pending list is in order and so are the byte counts. */
  lemma {:induction false} RunSound(s: System, steps: seq<Step>)
    requires Sound(s) && Possible(s, steps)
    ensures Sound(After(s, steps))
    decreases |steps|
  {
    if steps != [] {
      StepTurning(s, steps[0]);
      StepAccounted(s, steps[0]);
      StepOrdered(s, steps[0]);
      StepIdle(s, steps[0]);
      RunSound(Next(s, steps[0]), steps[1..]);
    }
  }

  ghost predicate OrderlyRun(s: System, steps: seq<Step>)
    requires Possible(s, steps)
    decreases |steps|
  {
    steps == [] || (Orderly(s, steps[0]) && OrderlyRun(Next(s, steps[0]), steps[1..]))
  }

  /** In an orderly run no cyclic transfer is ever aborted by its handler: whatever comes, the
      next interrupt finds its request in flight. */
  lemma {:induction false} NeverStuck(s: System, steps: seq<Step>)
    requires Sound(s) && Primed(s.chan) && Possible(s, steps) && OrderlyRun(s, steps)
    ensures var c := After(s, steps).chan;
      && Ranges(c) && Primed(c)
      && (c.handler == Cyclic && c.busy && c.pending != [] ==> !Stuck(c))
    decreases |steps|
  {
    if steps != [] {
      StepTurning(s, steps[0]);
      StepAccounted(s, steps[0]);
      StepOrdered(s, steps[0]);
      StepIdle(s, steps[0]);
      StepPrimed(s, steps[0]);
      NeverStuck(Next(s, steps[0]), steps[1..]);
    }
  }

  /** A channel after probe keeps all of this over every run. */
  lemma FreshRun(s: System, steps: seq<Step>)
    requires Fresh(s) && Possible(s, steps)
    ensures Sound(After(s, steps))
  {
    FreshSound(s);
    RunSound(s, steps);
  }

  /** And over every orderly one it is never stuck. */
  lemma FreshNeverStuck(s: System, steps: seq<Step>)
    requires Fresh(s) && Possible(s, steps) && OrderlyRun(s, steps)
    ensures var c := After(s, steps).chan;
      Ranges(c) && (c.handler == Cyclic && c.busy && c.pending != [] ==> !Stuck(c))
  {
    FreshSound(s);
    NeverStuck(s, steps);
  }

  // ---------------------------------------------------------------- residue

  /** A count kept in a 32-bit int. */
  function Int32(x: int): int {
    (x + 0x8000_0000) % 0x1_0000_0000 - 0x8000_0000
  }

  /** The remainder of C's `%`, with the sign of the dividend. */
  function CRem(a: int, b: int): int
    requires b > 0
  {
    if a >= 0 then a % b else -((-a) % b)
  }

  /** The residue tegra_dma_tx_status reports. */
  function Residue(desc: Desc): int
    requires 0 < desc.requested
  {
    desc.requested - CRem(Int32(desc.transferred), desc.requested)
  }

  /** The residue is in 1..requested exactly while the 32-bit count has not wrapped to a
      negative number that is no multiple of the length. */
  lemma ResidueRange(desc: Desc)
    requires 0 < desc.requested
    ensures 1 <= Residue(desc) <= desc.requested <==>
      Int32(desc.transferred) >= 0 || -Int32(desc.transferred) % desc.requested == 0
    ensures 0 <= desc.transferred < 0x8000_0000 ==>
      Residue(desc) == desc.requested - desc.transferred % desc.requested
  {
  }

  /** After 2 GiB of a ring of 12 bytes the residue reported is 20. */
  lemma ResidueWraps(desc: Desc)
    requires desc.requested == 12 && desc.transferred == 0x8000_0000
    ensures Residue(desc) == 20
  {
  }
}
