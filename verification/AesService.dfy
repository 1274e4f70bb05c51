/** The way of a request from the queue through its batch to its answer (tegra-se-nvhost.c):
    the worker's batches, in order, are what the engine is given. */
module AesService {
  import ScatterList
  import Q = WorkQueue
  import opened AesBatch
  import opened AesLedger

  /** The queue knows requests by number. */
  type Naming = int -> Request

  function Named(name: Naming, numbers: seq<int>): seq<Request> {
    seq(|numbers|, i requires 0 <= i < |numbers| => name(numbers[i]))
  }

  function NamedAll(name: Naming, batches: seq<seq<int>>): seq<seq<Request>> {
    seq(|batches|, i requires 0 <= i < |batches| => Named(name, batches[i]))
  }

  /** The batches that arrive in the request array over a run. */
  function Enlistments(steps: seq<Step>): seq<seq<Request>> {
    if steps == [] then []
    else (if steps[0].Enlist? then [steps[0].batch] else []) + Enlistments(steps[1..])
  }

  function Joined(batches: seq<seq<Request>>): seq<Request> {
    if batches == [] then [] else batches[0] + Joined(batches[1..])
  }

  lemma {:induction false} JoinedSnoc(batches: seq<seq<Request>>, batch: seq<Request>)
    ensures Joined(batches + [batch]) == Joined(batches) + batch
  {
    if batches == [] {
      assert batches + [batch] == [batch] && Joined([]) == [];
    } else {
      JoinedSnoc(batches[1..], batch);
      assert (batches + [batch])[1..] == batches[1..] + [batch];
      Associate(batches[0], Joined(batches[1..]), batch);
    }
  }

  lemma Associate(a: seq<Request>, b: seq<Request>, c: seq<Request>)
    ensures a + (b + c) == a + b + c
  {
  }

  /** The engine's history is what was enlisted. */
  lemma {:induction false} AcceptedIs(cipher: Cipher, v: Device, steps: seq<Step>)
    requires Possible(cipher, v, steps)
    ensures After(cipher, v, steps).accepted == v.accepted + Joined(Enlistments(steps))
    decreases |steps|
  {
    if steps != [] {
      var v1 := Next(cipher, v, steps[0]);
      StepAccepted(cipher, v, steps[0]);
      AcceptedIs(cipher, v1, steps[1..]);
      if steps[0].Enlist? {
        assert Enlistments(steps)[1..] == Enlistments(steps[1..]);
        Associate(v.accepted, steps[0].batch, Joined(Enlistments(steps[1..])));
      } else {
        assert Enlistments(steps) == Enlistments(steps[1..]);
      }
    }
  }

  lemma StepAccepted(cipher: Cipher, v: Device, step: Step)
    requires Inv(cipher, v) && Enabled(cipher, v, step)
    ensures Next(cipher, v, step).accepted == if step.Enlist? then v.accepted + step.batch else v.accepted
  {
    match step
    case Process(memory, k, node) =>
      var (v1, buf, error) := Acquired(Sized(v), memory, k);
      if buf.Some? { ContinuedAccepted(v1, buf.value, node); }
    case _ =>
  }

  lemma ContinuedAccepted(v: Device, buf: Buffer, node: nat)
    requires |v.cmdbufs| == |v.cmdbufFree| == CHAIN && node < CHAIN
    ensures Continued(v, buf, node).0.accepted == v.accepted
  {
  }

  lemma {:induction false} NamedFlat(name: Naming, batches: seq<seq<int>>)
    ensures Named(name, Q.Flat(batches)) == Joined(NamedAll(name, batches))
    decreases |batches|
  {
    if batches != [] {
      var n := |batches| - 1;
      NamedFlat(name, batches[..n]);
      JoinedSnoc(NamedAll(name, batches[..n]), Named(name, batches[n]));
      assert NamedAll(name, batches) == NamedAll(name, batches[..n]) + [Named(name, batches[n])];
      NamedAppend(name, Q.Flat(batches[..n]), batches[n]);
    }
  }

  lemma NamedAppend(name: Naming, a: seq<int>, b: seq<int>)
    ensures Named(name, a + b) == Named(name, a) + Named(name, b)
  {
  }

  /** The engine has been given exactly the batches the worker is through with. */
  ghost predicate InStep(name: Naming, s: Q.State, steps: seq<Step>) {
    Enlistments(steps) == NamedAll(name, s.handled)
  }

  lemma EngineAccepted(name: Naming, s: Q.State, cipher: Cipher, start: Device, steps: seq<Step>)
    requires IsFresh(start) && Possible(cipher, start, steps) && InStep(name, s, steps)
    ensures After(cipher, start, steps).accepted == Named(name, Q.Flat(s.handled))
  {
    AcceptedIs(cipher, start, steps);
    NamedFlat(name, s.handled);
  }

  /** Whatever the interleaving, every request that was put on the queue is in one place, as
      often as it was put there: still queued, in the worker's hands, in the request array,
      under way, or back with its owner. */
  lemma EveryRequestIsSomewhere(name: Naming, qsteps: seq<Q.Step>, cipher: Cipher, start: Device,
                                steps: seq<Step>, r: Request)
    requires Q.Runs(Q.Init, qsteps) && LengthPreserving(cipher) && IsFresh(start) && Possible(cipher, start, steps)
    requires InStep(name, Q.After(Q.Init, qsteps), steps)
    ensures var s, v := Q.After(Q.Init, qsteps), After(cipher, start, steps);
      Occurs(Named(name, s.accepted), r)
        == Returned(v.done, r) + UnderWay(v.jobs, r) + Occurs(v.reqs, r)
         + Occurs(Named(name, Q.Taken(s.worker)), r) + Occurs(Named(name, s.queue), r)
  {
    var s, v := Q.After(Q.Init, qsteps), After(cipher, start, steps);
    Q.NeverStranded(qsteps);
    FreshInv(cipher, start);
    RunInv(cipher, start, steps);
    EngineAccepted(name, s, cipher, start, steps);
    var handled, taken := Q.Flat(s.handled), Q.Taken(s.worker);
    NamedAppend(name, handled, taken);
    NamedAppend(name, handled + taken, s.queue);
    OccursAppend(Named(name, handled), Named(name, taken), r);
    OccursAppend(Named(name, handled) + Named(name, taken), Named(name, s.queue), r);
  }

  /** And when queue, worker and engine have nothing left, a request that was queued once has
      been answered once: untouched if it failed, and with its own result otherwise, if the
      engine's run was without harm. */
  lemma QueuedIsAnswered(name: Naming, qsteps: seq<Q.Step>, cipher: Cipher, start: Device,
                         steps: seq<Step>, r: Request)
    returns (i: nat)
    requires Q.Runs(Q.Init, qsteps) && LengthPreserving(cipher) && IsFresh(start) && Possible(cipher, start, steps)
    requires InStep(name, Q.After(Q.Init, qsteps), steps)
    requires var s := Q.After(Q.Init, qsteps);
      s.queue == [] && !s.worker.Processing? && Occurs(Named(name, s.accepted), r) == 1
    requires var v := After(cipher, start, steps); v.jobs == [] && v.reqs == []
    ensures var done := After(cipher, start, steps).done;
      && i < |done| && done[i].req == r
      && (forall j :: 0 <= j < |done| && done[j].req == r ==> j == i)
      && r.Valid() && (done[i].error == Ok ==> r.slot.Some?)
      && (!HarmfulRun(cipher, start, steps) ==> done[i].dst.Some?)
      && (done[i].dst.Some? ==>
            if done[i].error != Ok then done[i].dst.value == r.dst
            else ScatterList.Flat(done[i].dst.value) == Output(cipher, r) + ScatterList.Flat(r.dst)[r.nbytes..])
  {
    var s := Q.After(Q.Init, qsteps);
    Q.NeverStranded(qsteps);
    assert Q.Flat(s.handled) + [] + [] == Q.Flat(s.handled);
    EngineAccepted(name, s, cipher, start, steps);
    i := AnsweredOnce(cipher, start, steps, r);
  }
}
