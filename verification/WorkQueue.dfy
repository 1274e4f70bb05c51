/** The AES request queue and its worker (tegra-se-nvhost.c). Callers enqueue under a lock
    and, if nobody has, set work_q_busy and queue the work item after letting the lock go;
    the worker drains the queue in batches and reads work_q_busy again without the lock.
    Every lock-held section is one step; all interleavings are runs of this machine. */
module WorkQueue {

  const MAX_BATCH := 64

  /** Where the (single, non-reentrant) work item is: not running, about to take the lock,
      processing the batch it took, or about to read work_q_busy at the end of its loop. */
  datatype Worker = Idle | Collecting | Processing(batch: seq<int>) | Checking

  /** `toQueue` callers have set work_q_busy and not yet queued the work item; `pending` says
      that the item is queued. `accepted` and `handled` are the histories of requests put on
      the queue and of batches processed. */
  datatype State = State(
    queue: seq<int>, busy: bool, toQueue: nat, pending: bool, worker: Worker,
    accepted: seq<int>, handled: seq<seq<int>>)

  const Init := State([], false, 0, false, Idle, [], [])

  datatype Step =
    | Enqueue(request: int, room: bool)
    | QueueWork
    | StartWorker
    | Collect
    | Process
    | Check

  ghost predicate Enabled(s: State, step: Step) {
    match step
    case Enqueue(_, _) => true
    case QueueWork => s.toQueue > 0
    case StartWorker => s.pending && s.worker.Idle?
    case Collect => s.worker.Collecting?
    case Process => s.worker.Processing?
    case Check => s.worker.Checking?
  }

  function Min(a: nat, b: nat): nat { if a < b then a else b }

  ghost function Next(s: State, step: Step): State
    requires Enabled(s, step)
  {
    match step
    case Enqueue(r, room) =>
      var s' := if room then s.(queue := s.queue + [r], accepted := s.accepted + [r]) else s;
      if s.busy then s' else s'.(busy := true, toQueue := s.toQueue + 1)
    case QueueWork => s.(toQueue := s.toQueue - 1, pending := true)
    case StartWorker => s.(pending := false, worker := Collecting)
    case Collect =>
      var n := Min(|s.queue|, MAX_BATCH);
      if n == 0 then s.(busy := false, worker := Checking)
      else s.(queue := s.queue[n..], worker := Processing(s.queue[..n]))
    case Process => s.(worker := Checking, handled := s.handled + [s.worker.batch])
    case Check => s.(worker := if s.busy then Collecting else Idle)
  }

  // ---------------------------------------------------------------- the driver's code

  /** The shared part of the device: the crypto queue, its bound, the flag, and the request
      array the worker fills. */
  class Device {
    var queue: seq<int>
    var busy: bool
    const maxQlen: nat
    const reqs: array<int>
    var reqCnt: nat

    ghost predicate Valid()
      reads this
    {
      reqs.Length == MAX_BATCH && reqCnt <= MAX_BATCH
    }

    constructor (maxQlen: nat)
      ensures Valid() && queue == [] && !busy && reqCnt == 0 && this.maxQlen == maxQlen
      ensures fresh(reqs)
    {
      queue, busy, reqCnt := [], false, 0;
      this.maxQlen := maxQlen;
      reqs := new int[MAX_BATCH];
    }

    /** tegra_se_aes_queue_req up to the unlock: the request goes on the queue when there is
        room or it may wait in the backlog; the caller must queue the work item when it is
        the one that set the flag. */
    method QueueReq(request: int, mayBacklog: bool, ghost s: State)
      returns (room: bool, mustQueue: bool)
      requires s.queue == queue && s.busy == busy
      modifies this`queue, this`busy
      ensures room <==> |old(queue)| < maxQlen || mayBacklog
      ensures Next(s, Enqueue(request, room)) ==
        s.(queue := queue, busy := busy, toQueue := s.toQueue + (if mustQueue then 1 else 0),
           accepted := s.accepted + if room then [request] else [])
    {
      assert s.accepted + [] == s.accepted;
      room := |queue| < maxQlen || mayBacklog;
      if room {
        queue := queue + [request];
      }
      mustQueue := !busy;
      if !busy {
        busy := true;
      }
    }

    /** The lock-held loop of tegra_se_work_handler: up to 64 requests in queue order, and
        the flag is cleared exactly when there was none. */
    method CollectBatch(ghost s: State) returns (processRequests: bool)
      requires Valid() && reqCnt == 0
      requires s.queue == queue && s.busy == busy && s.worker == Collecting
      modifies this`queue, this`busy, this`reqCnt, reqs
      ensures Valid()
      ensures Next(s, Collect) ==
        s.(queue := queue, busy := busy,
           worker := if processRequests then Processing(reqs[..reqCnt]) else Checking)
    {
      processRequests := false;
      var go := true;
      while go
        invariant Valid()
        invariant reqCnt <= |old(queue)| && queue == old(queue)[reqCnt..]
        invariant reqs[..reqCnt] == old(queue)[..reqCnt]
        invariant processRequests <==> reqCnt > 0
        invariant if reqCnt == 0 && !go then old(queue) == [] && !busy else busy == old(busy)
        invariant go ==> reqCnt < MAX_BATCH && (reqCnt > 0 ==> queue != [])
        invariant !go ==> queue == [] || reqCnt == MAX_BATCH
        decreases go, |queue|
      {
        if queue == [] {
          busy := false;
          break;
        }
        reqs[reqCnt] := queue[0];
        queue := queue[1..];
        reqCnt := reqCnt + 1;
        processRequests := true;
        go := queue != [] && reqCnt < MAX_BATCH;
      }
    }
  }

  // ---------------------------------------------------------------- safety

  function Flat(batches: seq<seq<int>>): seq<int> {
    if batches == [] then [] else Flat(batches[..|batches| - 1]) + batches[|batches| - 1]
  }

  function Taken(w: Worker): seq<int> { if w.Processing? then w.batch else [] }

  /** A non-empty queue has the flag up, the flag up has somebody who will act on it, and
      requests leave in order, in batches of 1 to 64. */
  ghost predicate Inv(s: State) {
    && (s.queue != [] ==> s.busy)
    && (s.worker.Processing? ==> s.busy)
    && (s.busy ==> s.toQueue > 0 || s.pending || !s.worker.Idle?)
    && Flat(s.handled) + Taken(s.worker) + s.queue == s.accepted
    && (forall b :: b in s.handled ==> 1 <= |b| <= MAX_BATCH)
    && (s.worker.Processing? ==> 1 <= |s.worker.batch| <= MAX_BATCH)
  }

  lemma InvInit()
    ensures Inv(Init)
  {
  }

  lemma InvStep(s: State, step: Step)
    requires Inv(s) && Enabled(s, step)
    ensures Inv(Next(s, step))
  {
    match step {
      case Enqueue(r, room) => assert Flat(s.handled) + Taken(s.worker) + (s.queue + [r]) == s.accepted + [r];
      case Collect => InvCollect(s);
      case Process => InvProcess(s);
      case _ =>
    }
  }

  lemma InvCollect(s: State)
    requires Inv(s) && s.worker.Collecting?
    ensures Inv(Next(s, Collect))
  {
    var n := Min(|s.queue|, MAX_BATCH);
    var before := Flat(s.handled);
    assert before + [] + s.queue == before + s.queue;
    if n > 0 {
      assert before + s.queue[..n] + s.queue[n..] == before + s.queue;
    }
  }

  lemma InvProcess(s: State)
    requires Inv(s) && s.worker.Processing?
    ensures Inv(Next(s, Process))
  {
    var handled := s.handled + [s.worker.batch];
    assert handled[..|s.handled|] == s.handled;
    assert Flat(handled) + [] + s.queue == Flat(s.handled) + s.worker.batch + s.queue;
  }

  // ---------------------------------------------------------------- runs

  /** Steps that can be taken one after the other, and where they lead. */
  ghost predicate Runs(s: State, steps: seq<Step>)
    decreases |steps|
  {
    steps == [] || (Enabled(s, steps[0]) && Runs(Next(s, steps[0]), steps[1..]))
  }

  ghost function After(s: State, steps: seq<Step>): State
    requires Runs(s, steps)
    decreases |steps|
  {
    if steps == [] then s else After(Next(s, steps[0]), steps[1..])
  }

  lemma {:induction false} InvRun(s: State, steps: seq<Step>)
    requires Inv(s) && Runs(s, steps)
    ensures Inv(After(s, steps))
    decreases |steps|
  {
    if steps != [] {
      InvStep(s, steps[0]);
      InvRun(Next(s, steps[0]), steps[1..]);
    }
  }

  /** Safety over every run from the start: nobody is stranded and nothing is lost,
      duplicated or reordered. */
  lemma NeverStranded(steps: seq<Step>)
    requires Runs(Init, steps)
    ensures var s := After(Init, steps);
      && (s.queue != [] ==> s.toQueue > 0 || s.pending || !s.worker.Idle?)
      && Flat(s.handled) + Taken(s.worker) + s.queue == s.accepted
      && (forall b :: b in s.handled ==> 1 <= |b| <= MAX_BATCH)
  {
    InvInit();
    InvRun(Init, steps);
  }

  // ---------------------------------------------------------------- progress

  /** What is left to do: a bound on the steps before the device rests, if nobody enqueues. */
  ghost function Work(s: State): nat {
    4 * s.toQueue + (if s.pending then 3 else 0) + 3 * |s.queue|
    + (match s.worker
       case Idle => 0
       case Collecting => 2
       case Processing(_) => 4
       case Checking => if s.busy then 3 else 1)
  }

  lemma StepWorks(s: State, step: Step)
    requires Inv(s) && Enabled(s, step) && !step.Enqueue?
    ensures Work(Next(s, step)) < Work(s)
  {
  }

  /** No step but an enqueue is possible only when the device rests: queue empty, flag down. */
  lemma RestingIsDone(s: State)
    requires Inv(s)
    requires forall step: Step :: Enabled(s, step) ==> step.Enqueue?
    ensures s.queue == [] && !s.busy && s.worker.Idle? && Flat(s.handled) == s.accepted
  {
    assert !Enabled(s, QueueWork) && !Enabled(s, StartWorker) && !Enabled(s, Collect);
    assert !Enabled(s, Process) && !Enabled(s, Check);
  }

  lemma {:induction false} RunIsShort(s: State, steps: seq<Step>)
    requires Inv(s) && Runs(s, steps)
    requires forall i :: 0 <= i < |steps| ==> !steps[i].Enqueue?
    ensures |steps| + Work(After(s, steps)) <= Work(s)
    ensures After(s, steps).accepted == s.accepted
    decreases |steps|
  {
    if steps != [] {
      StepWorks(s, steps[0]);
      InvStep(s, steps[0]);
      RunIsShort(Next(s, steps[0]), steps[1..]);
    }
  }

  /** Every request is handled: from any reachable state, any run without further enqueues
      takes at most Work(s) steps, and one that cannot go on has handled everything that was
      accepted, in order. */
  lemma EverythingIsHandled(before: seq<Step>, steps: seq<Step>)
    requires Runs(Init, before) && Runs(After(Init, before), steps)
    requires forall i :: 0 <= i < |steps| ==> !steps[i].Enqueue?
    ensures var s, s' := After(Init, before), After(After(Init, before), steps);
      && |steps| <= Work(s)
      && ((forall step: Step :: Enabled(s', step) ==> step.Enqueue?) ==>
          s'.queue == [] && !s'.busy && Flat(s'.handled) == s.accepted)
  {
    var s := After(Init, before);
    InvInit();
    InvRun(Init, before);
    RunIsShort(s, steps);
    InvRun(s, steps);
    if forall step: Step :: Enabled(After(s, steps), step) ==> step.Enqueue? {
      RestingIsDone(After(s, steps));
    }
  }
}
