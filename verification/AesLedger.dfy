/** The books of the AES batch engine (tegra-se-nvhost.c): which batch owns which command slot
    and which buffer, what every buffer holds, and where every request is. Each thing the
    driver or the hardware does is a step on these books; the lemmas show what all steps
    keep, and when a batch loses its buffer. */
module AesLedger {
  import opened ScatterList
  import opened AesBatch

  const CHAIN := 10
  const AESBUFS := 128
  const GATHER_SIZE := 32768
  const STATIC_NBYTES := 512
  const CMDBUF_TIMEOUT := 200 * 10
  const AESBUF_TIMEOUT := 20 * 128

  datatype Error = Ok | Timeout | NoMemory | Invalid

  /** What a submission registers for its completion callback (tegra_se_priv_data); a key
      load has no requests and no buffer. `executed` says that the hardware is through, and
      `intact` that nothing has happened to the buffer meanwhile. */
  datatype Job = Job(reqs: seq<Request>, buf: Buffer, node: nat, executed: bool, intact: bool)

  /** A request handed back to its owner, with its destination as it then is, if that is
      known. */
  datatype Completion = Completion(req: Request, error: Error, dst: Option<Segments>)

  /** How often a request occurs in an array, in the batches under way, and among those
      handed back. */
  ghost function Occurs(reqs: seq<Request>, r: Request): nat {
    if reqs == [] then 0
    else Occurs(reqs[..|reqs| - 1], r) + if reqs[|reqs| - 1] == r then 1 else 0
  }

  ghost function UnderWay(jobs: seq<Job>, r: Request): nat {
    if jobs == [] then 0 else UnderWay(jobs[..|jobs| - 1], r) + Occurs(jobs[|jobs| - 1].reqs, r)
  }

  ghost function Returned(done: seq<Completion>, r: Request): nat {
    if done == [] then 0
    else Returned(done[..|done| - 1], r) + if done[|done| - 1].req == r then 1 else 0
  }

  lemma {:induction false} OccursAppend(a: seq<Request>, b: seq<Request>, r: Request)
    ensures Occurs(a + b, r) == Occurs(a, r) + Occurs(b, r)
    decreases |b|
  {
    if b == [] {
      assert a + b == a;
    } else {
      OccursAppend(a, b[..|b| - 1], r);
      assert (a + b)[..|a + b| - 1] == a + b[..|b| - 1];
    }
  }

  ghost predicate NoOperation(cmds: seq<Command>) {
    forall i :: 0 <= i < |cmds| ==> !cmds[i].Start?
  }

  // ---------------------------------------------------------------- invariants

  /** A command slot is marked busy exactly while one submission owns it. */
  ghost predicate Slots(jobs: seq<Job>, free: seq<bool>) {
    && |free| == CHAIN
    && (forall j :: 0 <= j < |jobs| ==> jobs[j].node < CHAIN)
    && (forall i, j :: 0 <= i < j < |jobs| ==> jobs[i].node != jobs[j].node)
    && (forall k :: 0 <= k < CHAIN ==> (!free[k] <==> OwnsSlot(jobs, k)))
  }

  ghost predicate OwnsSlot(jobs: seq<Job>, k: nat) {
    exists j :: 0 <= j < |jobs| && jobs[j].node == k
  }

  /** No two batches under way share a buffer, and a static buffer is marked busy exactly
      while a batch owns it or it is on the list of unowned ones. */
  ghost predicate Buffers(jobs: seq<Job>, free: seq<bool>, unowned: set<nat>, next: nat) {
    && |free| == AESBUFS
    && (forall j :: 0 <= j < |jobs| && jobs[j].reqs != [] ==> InRange(jobs[j].buf, unowned, next))
    && (forall i, j :: 0 <= i < j < |jobs| && jobs[i].reqs != [] && jobs[j].reqs != [] ==>
         jobs[i].buf != jobs[j].buf)
    && (forall k :: 0 <= k < AESBUFS ==>
         (!free[k] <==> k in unowned || OwnsBuffer(jobs, Static(k))))
  }

  ghost predicate InRange(buf: Buffer, unowned: set<nat>, next: nat) {
    match buf
    case Static(k) => k < AESBUFS && k !in unowned
    case Dynamic(n) => n < next
  }

  ghost predicate OwnsBuffer(jobs: seq<Job>, buf: Buffer) {
    exists j :: 0 <= j < |jobs| && jobs[j].reqs != [] && jobs[j].buf == buf
  }

  ghost predicate StaticBuffers(mem: map<Buffer, seq<Byte>>) {
    forall k :: 0 <= k < AESBUFS ==> Static(k) in mem && |mem[Static(k)]| == GATHER_SIZE
  }

  ghost predicate JobsOk(cipher: Cipher, jobs: seq<Job>, cmdbufs: seq<seq<Command>>,
                         mem: map<Buffer, seq<Byte>>)
    requires LengthPreserving(cipher)
  {
    && |cmdbufs| == CHAIN
    && forall j :: 0 <= j < |jobs| ==>
      jobs[j].node < CHAIN && JobOk(cipher, jobs[j], cmdbufs[jobs[j].node], mem)
  }

  /** A batch under way: its commands are in its slot, and its buffer, if it is intact, holds
      the inputs before the hardware has run them and the results afterwards. */
  ghost predicate JobOk(cipher: Cipher, job: Job, cmds: seq<Command>, mem: map<Buffer, seq<Byte>>)
    requires LengthPreserving(cipher)
  {
    JobFrame(job, cmds, mem) && (job.reqs != [] && job.intact ==> InBuffer(cipher, job, mem[job.buf]))
  }

  ghost predicate JobFrame(job: Job, cmds: seq<Command>, mem: map<Buffer, seq<Byte>>) {
    && |job.reqs| <= MAX_TASKS && ValidBatch(job.reqs) && HaveSlots(job.reqs)
    && (job.reqs == [] ==> NoOperation(cmds))
    && (job.reqs != [] ==> job.buf in mem)
    && (job.reqs != [] && !job.executed ==> cmds == Commands(job.reqs, job.buf) + [IncrSyncpt])
  }

  ghost predicate InBuffer(cipher: Cipher, job: Job, m: seq<Byte>)
    requires LengthPreserving(cipher) && ValidBatch(job.reqs) && HaveSlots(job.reqs)
  {
    if job.executed then Outputs(cipher, job.reqs) <= m else Inputs(job.reqs) <= m
  }

  ghost predicate CompletionsOk(cipher: Cipher, done: seq<Completion>) {
    forall i :: 0 <= i < |done| ==> CompletionOk(cipher, done[i])
  }

  /** A request that completed without error has its own result in its destination, if that
      is known, and nothing behind it was touched; one that failed has its destination as it
      was. */
  ghost predicate CompletionOk(cipher: Cipher, c: Completion) {
    && c.req.Valid()
    && if c.error != Ok then c.dst == Some(c.req.dst)
       else
         && c.req.slot.Some?
         && (c.dst.Some? ==> Flat(c.dst.value) == Output(cipher, c.req) + Flat(c.req.dst)[c.req.nbytes..])
  }

  /** Nothing under way has lost its buffer, and every destination is known. */
  ghost predicate Undisturbed(jobs: seq<Job>, done: seq<Completion>) {
    && (forall j :: 0 <= j < |jobs| ==> jobs[j].intact)
    && (forall i :: 0 <= i < |done| ==> done[i].dst.Some?)
  }

  /** Every request taken in is with its owner again, under way, or in the request array;
      each exactly as often as it came in. */
  ghost predicate Conserved(done: seq<Completion>, jobs: seq<Job>, reqs: seq<Request>,
                            accepted: seq<Request>)
  {
    forall r: Request :: Occurs(accepted, r) == Returned(done, r) + UnderWay(jobs, r) + Occurs(reqs, r)
  }

  lemma ConservedTaken(done: seq<Completion>, jobs: seq<Job>, batch: seq<Request>,
                       accepted: seq<Request>)
    requires Conserved(done, jobs, [], accepted)
    ensures Conserved(done, jobs, batch, accepted + batch)
  {
    forall r: Request
      ensures Occurs(accepted + batch, r) == Returned(done, r) + UnderWay(jobs, r) + Occurs(batch, r)
    {
      OccursAppend(accepted, batch, r);
    }
  }

  /** Handing the request array back. */
  lemma ConservedReturned(done: seq<Completion>, jobs: seq<Job>, batch: seq<Request>,
                          accepted: seq<Request>, answers: seq<Completion>)
    requires Conserved(done, jobs, batch, accepted) && Answers(answers, batch)
    ensures Conserved(done + answers, jobs, [], accepted)
  {
    forall r: Request
      ensures Occurs(accepted, r) == Returned(done + answers, r) + UnderWay(jobs, r) + Occurs([], r)
    {
      AnsweredReturned(done, answers, batch, r);
    }
  }

  // ---------------------------------------------------------------- keeping the invariants

  lemma SlotsAdd(jobs: seq<Job>, free: seq<bool>, job: Job)
    requires Slots(jobs, free) && job.node < CHAIN && free[job.node]
    ensures Slots(jobs + [job], free[job.node := false])
  {
    var jobs' := jobs + [job];
    assert jobs'[|jobs|] == job;
    forall k | 0 <= k < CHAIN ensures OwnsSlot(jobs', k) <==> OwnsSlot(jobs, k) || k == job.node {
      if OwnsSlot(jobs, k) {
        var j :| 0 <= j < |jobs| && jobs[j].node == k;
        assert jobs'[j].node == k;
      }
    }
  }

  lemma BuffersAdd(jobs: seq<Job>, free: seq<bool>, unowned: set<nat>, next: nat, job: Job)
    requires Buffers(jobs, free, unowned, next) && job.reqs != [] && !OwnsBuffer(jobs, job.buf)
    requires if job.buf.Static? then job.buf.index < AESBUFS && job.buf.index in unowned
             else job.buf.number < next
    ensures Buffers(jobs + [job], free,
                    if job.buf.Static? then unowned - {job.buf.index} else unowned, next)
  {
    var jobs' := jobs + [job];
    assert jobs'[|jobs|] == job;
    forall b: Buffer ensures OwnsBuffer(jobs', b) <==> OwnsBuffer(jobs, b) || b == job.buf {
      if OwnsBuffer(jobs, b) {
        var j :| 0 <= j < |jobs| && jobs[j].reqs != [] && jobs[j].buf == b;
        assert jobs'[j].buf == b;
      }
    }
  }

  lemma BuffersReserve(jobs: seq<Job>, free: seq<bool>, unowned: set<nat>, next: nat, k: nat)
    requires Buffers(jobs, free, unowned, next) && k < AESBUFS && free[k]
    ensures Buffers(jobs, free[k := false], unowned + {k}, next)
    ensures !OwnsBuffer(jobs, Static(k)) && k !in unowned
  {
  }

  /** Writing to a buffer no job owns leaves every job as it was. */
  lemma JobsElsewhere(cipher: Cipher, jobs: seq<Job>, cmdbufs: seq<seq<Command>>,
                      mem: map<Buffer, seq<Byte>>, buf: Buffer, bytes: seq<Byte>)
    requires LengthPreserving(cipher) && JobsOk(cipher, jobs, cmdbufs, mem)
    requires !OwnsBuffer(jobs, buf)
    ensures JobsOk(cipher, jobs, cmdbufs, mem[buf := bytes])
  {
  }

  /** A new job in a free slot. */
  lemma JobsAdd(cipher: Cipher, jobs: seq<Job>, cmdbufs: seq<seq<Command>>,
                mem: map<Buffer, seq<Byte>>, job: Job, cmds: seq<Command>, free: seq<bool>)
    requires LengthPreserving(cipher) && JobsOk(cipher, jobs, cmdbufs, mem)
    requires Slots(jobs, free) && job.node < CHAIN && free[job.node]
    requires JobOk(cipher, job, cmds, mem)
    ensures JobsOk(cipher, jobs + [job], cmdbufs[job.node := cmds], mem)
    ensures Slots(jobs + [job], free[job.node := false])
  {
    SlotsAdd(jobs, free, job);
    forall j | 0 <= j < |jobs| ensures jobs[j].node != job.node {
      assert OwnsSlot(jobs, jobs[j].node);
    }
  }

  lemma ConservedSubmitted(done: seq<Completion>, jobs: seq<Job>, batch: seq<Request>,
                           accepted: seq<Request>, job: Job)
    requires Conserved(done, jobs, batch, accepted) && job.reqs == batch
    ensures Conserved(done, jobs + [job], [], accepted)
  {
    assert (jobs + [job])[..|jobs|] == jobs;
  }

  /** A static batch fits its buffer: 64 requests of 512 bytes. */
  lemma StaticSize(reqs: seq<Request>)
    requires StaticBatch(reqs) && |reqs| <= MAX_TASKS
    ensures Total(reqs) <= GATHER_SIZE
  {
    StaticTotal(reqs);
  }

  lemma {:induction false} StaticTotal(reqs: seq<Request>)
    requires StaticBatch(reqs)
    ensures Total(reqs) == STATIC_NBYTES * |reqs|
  {
    if reqs != [] { StaticTotal(reqs[..|reqs| - 1]); }
  }

  predicate StaticBatch(reqs: seq<Request>) {
    forall i :: 0 <= i < |reqs| ==> reqs[i].nbytes == STATIC_NBYTES
  }

  function Failed(reqs: seq<Request>, error: Error): (failed: seq<Completion>)
    ensures Answers(failed, reqs) && forall i :: 0 <= i < |failed| ==> failed[i].dst.Some?
  {
    if reqs == [] then []
    else
      var r := reqs[|reqs| - 1];
      Failed(reqs[..|reqs| - 1], error) + [Completion(r, error, Some(r.dst))]
  }

  /** Answers to a batch, one per request in order, hand every request back once. */
  lemma {:induction false} AnsweredReturned(done: seq<Completion>, answers: seq<Completion>,
                                            reqs: seq<Request>, r: Request)
    requires Answers(answers, reqs)
    ensures Returned(done + answers, r) == Returned(done, r) + Occurs(reqs, r)
    decreases |reqs|
  {
    if reqs == [] {
      assert done + answers == done;
    } else {
      var n := |reqs| - 1;
      AnsweredReturned(done, answers[..n], reqs[..n], r);
      assert done + answers == done + answers[..n] + [answers[n]];
      ReturnedSnoc(done + answers[..n], answers[n], r);
    }
  }

  lemma ReturnedSnoc(done: seq<Completion>, c: Completion, r: Request)
    ensures Returned(done + [c], r) == Returned(done, r) + if c.req == r then 1 else 0
  {
    assert (done + [c])[..|done|] == done;
  }

  ghost predicate Answers(answers: seq<Completion>, reqs: seq<Request>) {
    |answers| == |reqs| && forall i :: 0 <= i < |reqs| ==> answers[i].req == reqs[i]
  }

  lemma {:induction false} FailedOk(cipher: Cipher, done: seq<Completion>, reqs: seq<Request>, error: Error)
    requires error != Ok && ValidBatch(reqs) && CompletionsOk(cipher, done)
    ensures CompletionsOk(cipher, done + Failed(reqs, error))
  {
    if reqs == [] {
      assert done + [] == done;
    } else {
      var n := |reqs| - 1;
      FailedOk(cipher, done, reqs[..n], error);
      var c := Completion(reqs[n], error, Some(reqs[n].dst));
      assert done + Failed(reqs, error) == done + Failed(reqs[..n], error) + [c];
    }
  }

  /** What a batch's callback hands back; without an intact buffer nothing is known of the
      destinations. */
  ghost function Finished(cipher: Cipher, reqs: seq<Request>, intact: bool): (finished: seq<Completion>)
    requires LengthPreserving(cipher) && ValidBatch(reqs) && HaveSlots(reqs)
    ensures Answers(finished, reqs)
    ensures intact ==> forall i :: 0 <= i < |finished| ==> finished[i].dst.Some?
    ensures !intact || reqs == [] ==> finished == Unknown(reqs)
  {
    if reqs == [] then []
    else
      var r := reqs[|reqs| - 1];
      Finished(cipher, reqs[..|reqs| - 1], intact)
      + [Completion(r, Ok, if intact then Some(Scatter(r.dst, Output(cipher, r))) else None)]
  }

  function Unknown(reqs: seq<Request>): seq<Completion> {
    if reqs == [] then []
    else Unknown(reqs[..|reqs| - 1]) + [Completion(reqs[|reqs| - 1], Ok, None)]
  }

  lemma {:induction false} FinishedOk(cipher: Cipher, done: seq<Completion>, reqs: seq<Request>, intact: bool)
    requires LengthPreserving(cipher) && ValidBatch(reqs) && HaveSlots(reqs)
    requires CompletionsOk(cipher, done)
    ensures CompletionsOk(cipher, done + Finished(cipher, reqs, intact))
    decreases |reqs|
  {
    if reqs == [] {
      assert done + [] == done;
    } else {
      var n := |reqs| - 1;
      var r := reqs[n];
      FinishedOk(cipher, done, reqs[..n], intact);
      var c := Completion(r, Ok, if intact then Some(Scatter(r.dst, Output(cipher, r))) else None);
      ScatterFills(r.dst, Output(cipher, r));
      assert done + Finished(cipher, reqs, intact) == done + Finished(cipher, reqs[..n], intact) + [c];
    }
  }

  // ---------------------------------------------------------------- what can go wrong

  predicate GotBuffer(batch: seq<Request>, free: seq<bool>, memory: bool) {
    if StaticBatch(batch) then true in free else memory
  }

  /** A batch that gets a static buffer; if it fails behind that point, the buffer is lost. */
  predicate Strands(batch: seq<Request>, free: seq<bool>) {
    StaticBatch(batch) && true in free
  }

  predicate IsDynamic(job: Job) {
    job.reqs != [] && job.buf.Dynamic?
  }

  /** Once the allocator has been given a buffer that is still in use, or that it had already,
      it may hand out the same memory twice: no dynamic buffer counts any more. */
  function Spoiled(jobs: seq<Job>): seq<Job> {
    seq(|jobs|, j requires 0 <= j < |jobs| => if IsDynamic(jobs[j]) then jobs[j].(intact := false) else jobs[j])
  }

  function Lost(jobs: seq<Job>): seq<Job> {
    seq(|jobs|, j requires 0 <= j < |jobs| => jobs[j].(intact := false))
  }

  /** The jobs are what they were exactly if there is no intact dynamic one. */
  lemma SpoiledIs(jobs: seq<Job>)
    ensures Spoiled(jobs) == jobs <==> forall j :: 0 <= j < |jobs| && IsDynamic(jobs[j]) ==> !jobs[j].intact
    ensures SameJobs(jobs, Spoiled(jobs))
  {
    forall j | 0 <= j < |jobs| && IsDynamic(jobs[j]) && jobs[j].intact ensures Spoiled(jobs)[j] != jobs[j] { }
  }

  /** A job that is not intact any more asks less. */
  lemma SpoiledOk(cipher: Cipher, jobs: seq<Job>, cmdbufs: seq<seq<Command>>, mem: map<Buffer, seq<Byte>>)
    requires LengthPreserving(cipher) && JobsOk(cipher, jobs, cmdbufs, mem)
    ensures JobsOk(cipher, Spoiled(jobs), cmdbufs, mem)
  {
    forall j | 0 <= j < |jobs|
      ensures JobOk(cipher, Spoiled(jobs)[j], cmdbufs[jobs[j].node], mem)
    {
      assert JobOk(cipher, jobs[j], cmdbufs[jobs[j].node], mem);
    }
  }

  /** With every buffer in doubt there is nothing to show but the commands. */
  lemma LostOk(cipher: Cipher, jobs: seq<Job>, cmdbufs: seq<seq<Command>>, mem: map<Buffer, seq<Byte>>)
    requires LengthPreserving(cipher) && |cmdbufs| == CHAIN
    requires forall j :: 0 <= j < |jobs| ==> jobs[j].node < CHAIN && JobFrame(jobs[j], cmdbufs[jobs[j].node], mem)
    ensures JobsOk(cipher, Lost(jobs), cmdbufs, mem)
  {
    forall j | 0 <= j < |jobs| ensures JobOk(cipher, Lost(jobs)[j], cmdbufs[jobs[j].node], mem) {
      assert JobFrame(jobs[j], cmdbufs[jobs[j].node], mem);
    }
  }

  /** All operations work in one buffer. */
  ghost predicate OnlyAt(cmds: seq<Command>, buf: Buffer) {
    forall i :: 0 <= i < |cmds| && cmds[i].Start? ==> cmds[i].buf == buf
  }

  predicate Honest(cmds: seq<Command>) {
    forall i :: 0 <= i < |cmds| && cmds[i].Start? ==> cmds[i].len < MAX_ENTRY
  }

  /** Only the buffer that is worked in changes, and keeps its size. */
  ghost predicate SameElsewhere(mem: map<Buffer, seq<Byte>>, mem': map<Buffer, seq<Byte>>, buf: Buffer) {
    && mem'.Keys == mem.Keys
    && (forall b :: b in mem && b != buf ==> mem'[b] == mem[b])
    && (buf in mem ==> |mem'[buf]| == |mem[buf]|)
  }

  /** Commands stop exactly at a spoilt word; else they change nothing but their buffer. */
  lemma {:induction false} RunFrame(cipher: Cipher, hw: Hardware, cmds: seq<Command>, buf: Buffer)
    requires LengthPreserving(cipher) && OnlyAt(cmds, buf)
    ensures Run(cipher, hw, cmds).Some? <==> Honest(cmds)
    ensures Run(cipher, hw, cmds).Some? ==> SameElsewhere(hw.mem, Run(cipher, hw, cmds).value.mem, buf)
    decreases |cmds|
  {
    if cmds != [] {
      var n := |cmds| - 1;
      RunFrame(cipher, hw, cmds[..n], buf);
      assert Honest(cmds) <==> Honest(cmds[..n]) && (cmds[n].Start? ==> cmds[n].len < MAX_ENTRY);
      if Honest(cmds[..n]) {
        ExecuteFrame(cipher, Run(cipher, hw, cmds[..n]).value, cmds[n], buf);
      }
    }
  }

  lemma ExecuteFrame(cipher: Cipher, hw: Hardware, c: Command, buf: Buffer)
    requires LengthPreserving(cipher) && (c.Start? ==> c.buf == buf)
    ensures Execute(cipher, hw, c).Some? ==> SameElsewhere(hw.mem, Execute(cipher, hw, c).value.mem, buf)
  {
    if c.Start? && buf in hw.mem && c.off + c.len <= |hw.mem[buf]| {
      var m := hw.mem[buf];
      assert |cipher(c.params, VectorFor(hw, c.params), m[c.off..c.off + c.len])| == c.len;
    }
  }

  /** A batch's commands work in its buffer, and are honest exactly if its requests are short. */
  lemma {:induction false} CommandsAt(reqs: seq<Request>, buf: Buffer)
    requires HaveSlots(reqs)
    ensures OnlyAt(Commands(reqs, buf), buf) && (Honest(Commands(reqs, buf)) <==> AllShort(reqs))
    decreases |reqs|
  {
    if reqs != [] {
      var before, r := reqs[..|reqs| - 1], reqs[|reqs| - 1];
      CommandsAt(before, buf);
      assert before + [r] == reqs;
      ShortSnoc(before, r);
      var cmds := Commands(before, buf);
      var load, data := VectorCommands(r, cmds == []), DataCommands(r, buf, Total(before));
      HonestAppend(cmds, load, buf);
      HonestAppend(cmds + load, data, buf);
      GroupsHonest(r, buf, Total(before), cmds == []);
    }
  }

  lemma GroupsHonest(r: Request, buf: Buffer, off: nat, first: bool)
    requires r.slot.Some?
    ensures OnlyAt(VectorCommands(r, first), buf) && Honest(VectorCommands(r, first))
    ensures OnlyAt(DataCommands(r, buf, off), buf)
    ensures Honest(DataCommands(r, buf, off)) <==> r.nbytes < MAX_ENTRY
  {
    if r.nbytes > 0 { assert DataCommands(r, buf, off)[0].len == r.nbytes; }
  }

  lemma HonestAppend(a: seq<Command>, b: seq<Command>, buf: Buffer)
    ensures Honest(a + b) <==> Honest(a) && Honest(b)
    ensures OnlyAt(a + b, buf) <==> OnlyAt(a, buf) && OnlyAt(b, buf)
  {
    assert forall i :: 0 <= i < |a| ==> (a + b)[i] == a[i];
    assert forall i :: 0 <= i < |b| ==> (a + b)[|a| + i] == b[i];
  }

  /** Running one submission's commands fails exactly at an over-long request; else it changes
      its own buffer only. */
  lemma CommandsRun(cipher: Cipher, hw: Hardware, job: Job, cmds: seq<Command>)
    requires LengthPreserving(cipher) && JobFrame(job, cmds, hw.mem) && !job.executed
    ensures Run(cipher, hw, cmds).Some? <==> AllShort(job.reqs)
    ensures AllShort(job.reqs) ==> SameElsewhere(hw.mem, Run(cipher, hw, cmds).value.mem, job.buf)
  {
    if job.reqs != [] {
      CommandsAt(job.reqs, job.buf);
      HonestAppend(Commands(job.reqs, job.buf), [IncrSyncpt], job.buf);
    }
    RunFrame(cipher, hw, cmds, job.buf);
  }

  /** And that buffer, if it is intact, from inputs to results. */
  lemma BatchCompletes(cipher: Cipher, hw: Hardware, job: Job, cmds: seq<Command>)
    requires LengthPreserving(cipher) && JobOk(cipher, job, cmds, hw.mem) && !job.executed
    requires job.reqs != [] && job.intact && AllShort(job.reqs)
    ensures var run := Run(cipher, hw, cmds);
      run.Some? && job.buf in run.value.mem && Outputs(cipher, job.reqs) <= run.value.mem[job.buf]
  {
    var m := hw.mem[job.buf];
    var tail := m[Total(job.reqs)..];
    assert m == Inputs(job.reqs) + tail;
    BatchRuns(cipher, hw, job.reqs, job.buf, tail);
    RunAppend(cipher, hw, Commands(job.reqs, job.buf), [IncrSyncpt]);
    RunOne(cipher, Run(cipher, hw, Commands(job.reqs, job.buf)).value, IncrSyncpt);
  }

  lemma JobRuns(cipher: Cipher, jobs: seq<Job>, k: nat, cmdbufs: seq<seq<Command>>,
                free: seq<bool>, unowned: set<nat>, next: nat, hw: Hardware)
    requires LengthPreserving(cipher) && JobsOk(cipher, jobs, cmdbufs, hw.mem)
    requires Buffers(jobs, free, unowned, next) && StaticBuffers(hw.mem)
    requires k < |jobs| && !jobs[k].executed && AllShort(jobs[k].reqs)
    ensures var run := Run(cipher, hw, cmdbufs[jobs[k].node]);
      && run.Some? && JobsOk(cipher, jobs[k := jobs[k].(executed := true)], cmdbufs, run.value.mem)
      && StaticBuffers(run.value.mem)
  {
    var job := jobs[k];
    var cmds := cmdbufs[job.node];
    CommandsRun(cipher, hw, job, cmds);
    var mem := Run(cipher, hw, cmds).value.mem;
    var jobs' := jobs[k := job.(executed := true)];
    if job.reqs != [] && job.intact { BatchCompletes(cipher, hw, job, cmds); }
    forall j | 0 <= j < |jobs| ensures JobOk(cipher, jobs'[j], cmdbufs[jobs'[j].node], mem) {
      assert JobOk(cipher, jobs[j], cmdbufs[jobs[j].node], hw.mem);
      if job.reqs == [] { IdleRun(cipher, hw, cmds); }
    }
  }

  /** Commands without an operation leave memory alone. */
  lemma {:induction false} IdleRun(cipher: Cipher, hw: Hardware, cmds: seq<Command>)
    requires NoOperation(cmds)
    ensures Run(cipher, hw, cmds).Some? && Run(cipher, hw, cmds).value.mem == hw.mem
    decreases |cmds|
  {
    if cmds != [] { IdleRun(cipher, hw, cmds[..|cmds| - 1]); }
  }

  /** The other bookkeeping does not look at who has executed or is intact. */
  lemma FlagsKeepBooks(done: seq<Completion>, jobs: seq<Job>, jobs': seq<Job>, reqs: seq<Request>,
                       accepted: seq<Request>, slotFree: seq<bool>, free: seq<bool>, unowned: set<nat>, next: nat)
    requires Conserved(done, jobs, reqs, accepted) && Slots(jobs, slotFree)
    requires Buffers(jobs, free, unowned, next) && SameJobs(jobs, jobs')
    ensures Conserved(done, jobs', reqs, accepted) && Slots(jobs', slotFree)
    ensures Buffers(jobs', free, unowned, next)
  {
    forall r: Request ensures UnderWay(jobs', r) == UnderWay(jobs, r) {
      SameUnderWay(jobs, jobs', r);
    }
    forall i ensures OwnsSlot(jobs', i) <==> OwnsSlot(jobs, i) {
      SameOwner(jobs, jobs', i, Static(0));
      SameOwner(jobs', jobs, i, Static(0));
    }
    forall b ensures OwnsBuffer(jobs', b) <==> OwnsBuffer(jobs, b) {
      SameOwner(jobs, jobs', 0, b);
      SameOwner(jobs', jobs, 0, b);
    }
  }

  ghost predicate SameJobs(a: seq<Job>, b: seq<Job>) {
    && |a| == |b|
    && forall i :: 0 <= i < |a| ==> a[i].reqs == b[i].reqs && a[i].buf == b[i].buf && a[i].node == b[i].node
  }

  lemma SameOwner(a: seq<Job>, b: seq<Job>, k: nat, buf: Buffer)
    requires SameJobs(a, b)
    ensures OwnsSlot(a, k) ==> OwnsSlot(b, k)
    ensures OwnsBuffer(a, buf) ==> OwnsBuffer(b, buf)
  {
  }

  lemma {:induction false} SameUnderWay(a: seq<Job>, b: seq<Job>, r: Request)
    requires SameJobs(a, b)
    ensures UnderWay(a, r) == UnderWay(b, r)
    decreases |a|
  {
    if a != [] { SameUnderWay(a[..|a| - 1], b[..|a| - 1], r); }
  }

  lemma BuffersIdle(jobs: seq<Job>, free: seq<bool>, unowned: set<nat>, next: nat, job: Job)
    requires Buffers(jobs, free, unowned, next) && job.reqs == []
    ensures Buffers(jobs + [job], free, unowned, next)
  {
    var jobs' := jobs + [job];
    forall b ensures OwnsBuffer(jobs', b) <==> OwnsBuffer(jobs, b) {
      if OwnsBuffer(jobs, b) {
        var j :| 0 <= j < |jobs| && jobs[j].reqs != [] && jobs[j].buf == b;
        assert jobs'[j].buf == b;
      }
    }
  }

  lemma SlotsRemove(jobs: seq<Job>, free: seq<bool>, k: nat)
    requires Slots(jobs, free) && k < |jobs|
    ensures Slots(jobs[..k] + jobs[k + 1..], free[jobs[k].node := true])
  {
    var jobs' := jobs[..k] + jobs[k + 1..];
    forall i | 0 <= i < CHAIN ensures OwnsSlot(jobs', i) <==> OwnsSlot(jobs, i) && i != jobs[k].node {
      if OwnsSlot(jobs, i) && i != jobs[k].node {
        var j :| 0 <= j < |jobs| && jobs[j].node == i;
        assert jobs'[if j < k then j else j - 1].node == i;
      }
    }
  }

  lemma BuffersRemove(jobs: seq<Job>, free: seq<bool>, unowned: set<nat>, next: nat, k: nat)
    requires Buffers(jobs, free, unowned, next) && k < |jobs|
    ensures Buffers(jobs[..k] + jobs[k + 1..],
                    if jobs[k].reqs != [] && jobs[k].buf.Static? then free[jobs[k].buf.index := true]
                    else free, unowned, next)
  {
    var jobs' := jobs[..k] + jobs[k + 1..];
    forall b
      ensures OwnsBuffer(jobs', b) <==> OwnsBuffer(jobs, b) && (jobs[k].reqs == [] || b != jobs[k].buf)
    {
      if OwnsBuffer(jobs, b) && (jobs[k].reqs == [] || b != jobs[k].buf) {
        var j :| 0 <= j < |jobs| && jobs[j].reqs != [] && jobs[j].buf == b;
        var j' := if j < k then j else j - 1;
        assert jobs'[j'].buf == b && jobs'[j'].reqs != [];
      }
    }
  }

  lemma ConservedCalledBack(done: seq<Completion>, jobs: seq<Job>, reqs: seq<Request>,
                            accepted: seq<Request>, k: nat, answers: seq<Completion>)
    requires Conserved(done, jobs, reqs, accepted) && k < |jobs| && Answers(answers, jobs[k].reqs)
    ensures Conserved(done + answers, jobs[..k] + jobs[k + 1..], reqs, accepted)
  {
    forall r: Request
      ensures Returned(done + answers, r) + UnderWay(jobs[..k] + jobs[k + 1..], r)
           == Returned(done, r) + UnderWay(jobs, r)
    {
      AnsweredReturned(done, answers, jobs[k].reqs, r);
      UnderWayRemove(jobs, k, r);
    }
  }

  lemma {:induction false} UnderWayRemove(jobs: seq<Job>, k: nat, r: Request)
    requires k < |jobs|
    ensures UnderWay(jobs[..k] + jobs[k + 1..], r) + Occurs(jobs[k].reqs, r) == UnderWay(jobs, r)
    decreases |jobs|
  {
    var n := |jobs| - 1;
    var rest := jobs[..k] + jobs[k + 1..];
    if k == n {
      assert rest == jobs[..n];
    } else {
      UnderWayRemove(jobs[..n], k, r);
      assert rest[..n - 1] == jobs[..n][..k] + jobs[..n][k + 1..];
    }
  }

  // ---------------------------------------------------------------- steps

  /** The device: the request array and its counts, the free flags, command memory, the
      hardware, what is under way and what has been handed back; and three histories: every
      request ever taken in, the static buffers marked busy that no batch under way owns (one
      being filled right now, or lost by a failure), whether a buffer was freed under a batch or
      twice, and whether anything at all has gone wrong that the driver does not notice. */
  datatype Device = Device(
    reqs: seq<Request>, gatherBufSz: nat, dynamicMem: bool, aesbufEntry: nat,
    cmdbufListEntry: nat, cmdbufCnt: nat, aesBufFree: seq<bool>, cmdbufFree: seq<bool>,
    nextDynamic: nat, aesBuf: Option<Buffer>, cmdbufs: seq<seq<Command>>, hw: Hardware,
    jobs: seq<Job>, done: seq<Completion>,
    accepted: seq<Request>, unowned: set<nat>, wild: bool, trouble: bool)

  ghost predicate Inv(cipher: Cipher, v: Device) {
    && LengthPreserving(cipher)
    && StaticBuffers(v.hw.mem)
    && Slots(v.jobs, v.cmdbufFree)
    && Buffers(v.jobs, v.aesBufFree, v.unowned, v.nextDynamic)
    && JobsOk(cipher, v.jobs, v.cmdbufs, v.hw.mem)
    && CompletionsOk(cipher, v.done)
    && Conserved(v.done, v.jobs, v.reqs, v.accepted)
    && (!v.trouble ==> !v.wild && Undisturbed(v.jobs, v.done))
  }

  /** Between submissions the request array and the running counts are empty. */
  predicate Rested(v: Device) {
    v.reqs == [] && v.gatherBufSz == 0 && v.cmdbufCnt == 0 && !v.dynamicMem
  }

  /** The worker has put a batch in the request array. */
  ghost predicate Ready(v: Device) {
    Loaded(v) && v.cmdbufCnt == 0 && !v.dynamicMem
  }

  ghost predicate Loaded(v: Device) {
    ValidBatch(v.reqs) && 0 < |v.reqs| <= MAX_TASKS && v.gatherBufSz == Total(v.reqs)
  }

  function Enlisted(v: Device, batch: seq<Request>): Device {
    v.(reqs := batch, gatherBufSz := Total(batch), accepted := v.accepted + batch)
  }

  function Written(v: Device, buf: Buffer, bytes: seq<Byte>): Device {
    v.(hw := v.hw.(mem := v.hw.mem[buf := bytes]))
  }

  /** A static buffer is taken and filled. */
  ghost function StaticTaken(v: Device, k: nat): Device
    requires ValidBatch(v.reqs) && Static(k) in v.hw.mem && k < |v.aesBufFree|
    requires Total(v.reqs) <= |v.hw.mem[Static(k)]|
  {
    Written(v.(aesbufEntry := k, aesBufFree := v.aesBufFree[k := false], unowned := v.unowned + {k}),
            Static(k), Inputs(v.reqs) + v.hw.mem[Static(k)][Total(v.reqs)..])
  }

  /** A fresh one is; the device remembers it. */
  ghost function DynamicTaken(v: Device): Device
    requires ValidBatch(v.reqs)
  {
    Written(v.(nextDynamic := v.nextDynamic + 1, aesBuf := Some(Dynamic(v.nextDynamic))),
            Dynamic(v.nextDynamic), Inputs(v.reqs))
  }

  function StartedOver(v: Device): Device {
    v.(reqs := [], gatherBufSz := 0, cmdbufCnt := 0, dynamicMem := false)
  }

  /** tegra_se_channel_submit_gather: the callback gets a copy of the request array. */
  function Submitted(v: Device, buf: Buffer, node: nat, cmds: seq<Command>): Device
    requires node < |v.cmdbufs| && node < |v.cmdbufFree|
  {
    v.(jobs := v.jobs + [Job(v.reqs, buf, node, false, buf.Static? || !v.wild)],
       cmdbufs := v.cmdbufs[node := cmds + [IncrSyncpt]], cmdbufFree := v.cmdbufFree[node := false])
  }

  function BatchSubmitted(v: Device, buf: Buffer, node: nat): Device
    requires node < |v.cmdbufs| && node < |v.cmdbufFree| && HaveSlots(v.reqs)
  {
    StartedOver(Submitted(v, buf, node, Commands(v.reqs, buf)).(
      cmdbufListEntry := node,
      unowned := if buf.Static? then v.unowned - {buf.index} else v.unowned))
  }

  function KeyLoad(slot: nat, keylen: nat): seq<Command> { [Dummy, LoadKey(slot, keylen), Dummy] }

  function KeySubmitted(v: Device, slot: nat, keylen: nat, node: nat): Device
    requires node < |v.cmdbufs| && node < |v.cmdbufFree|
  {
    StartedOver(Submitted(v, Static(v.aesbufEntry), node, KeyLoad(slot, keylen)).(cmdbufListEntry := node))
  }

  /** Every request of the batch is completed with the error. */
  function AllFailed(v: Device, error: Error): Device {
    StartedOver(v.(done := v.done + Failed(v.reqs, error)))
  }

  /** The failure path frees aes_buf. A failing dynamic batch gives back what it has just got.
      A static one frees what an earlier dynamic batch left there, which is either in use or
      free already. */
  function AesBufFreed(v: Device, own: bool): Device {
    if own || v.aesBuf.None? then v else v.(jobs := Spoiled(v.jobs), wild := true, trouble := true)
  }

  /** What a try for a buffer leaves, and the buffer or the error. */
  ghost function Acquired(v: Device, memory: bool, k: nat): (Device, Option<Buffer>, Error)
    requires Loaded(v) && StaticBuffers(v.hw.mem) && |v.aesBufFree| == AESBUFS && k < AESBUFS
  {
    if StaticBatch(v.reqs) then
      StaticSize(v.reqs);
      if true in v.aesBufFree then (StaticTaken(v, k), Some(Static(k)), Ok) else (v, None, Timeout)
    else if memory then (DynamicTaken(v), Some(Dynamic(v.nextDynamic)), Ok)
    else (v.(aesBuf := None), None, NoMemory)
  }

  /** tegra_se_process_new_req, when the scans come to buffer `k` and slot `node`. */
  ghost function Processed(v: Device, memory: bool, k: nat, node: nat): (Device, Error)
    requires Ready(v) && StaticBuffers(v.hw.mem) && |v.aesBufFree| == AESBUFS && k < AESBUFS
    requires |v.cmdbufs| == |v.cmdbufFree| == CHAIN && node < CHAIN
  {
    var (v1, buf, error) := Acquired(Sized(v), memory, k);
    if buf.None? then (AllFailed(v1, error), error) else Continued(v1, buf.value, node)
  }

  /** The first loop: a batch with a request of another size needs its own memory. */
  function Sized(v: Device): Device {
    v.(dynamicMem := !StaticBatch(v.reqs))
  }

  /** The rest of it, when the batch has its buffer. */
  function Continued(v: Device, buf: Buffer, node: nat): (Device, Error)
    requires |v.cmdbufs| == |v.cmdbufFree| == CHAIN && node < CHAIN
  {
    if true !in v.cmdbufFree then (AllFailed(AesBufFreed(v, buf.Dynamic?), NoMemory), NoMemory)
    else if !HaveSlots(v.reqs) then
      (AllFailed(AesBufFreed(v.(cmdbufListEntry := node), buf.Dynamic?), Invalid), Invalid)
    else (BatchSubmitted(v, buf, node), Ok)
  }

  /** The hardware executes a submission. If a command word is spoilt, nothing is known of the
      buffers of anything under way. */
  function Executed(cipher: Cipher, v: Device, k: nat): Device
    requires k < |v.jobs| && v.jobs[k].node < |v.cmdbufs|
  {
    var job := v.jobs[k].(executed := true);
    var run := Run(cipher, v.hw, v.cmdbufs[job.node]);
    if run.Some? then v.(hw := run.value, jobs := v.jobs[k := job])
    else v.(jobs := Lost(v.jobs[k := job]), trouble := true)
  }

  /** tegra_se_aes_complete_callback: slot and buffer are free again, and every request of the
      batch is completed with its own part of the buffer in its destination. */
  ghost function CalledBack(cipher: Cipher, v: Device, k: nat): Device
    requires LengthPreserving(cipher) && k < |v.jobs|
    requires ValidBatch(v.jobs[k].reqs) && HaveSlots(v.jobs[k].reqs) && v.jobs[k].node < |v.cmdbufFree|
  {
    Released(v, k, Finished(cipher, v.jobs[k].reqs, v.jobs[k].intact))
  }

  function Released(v: Device, k: nat, finished: seq<Completion>): Device
    requires k < |v.jobs| && v.jobs[k].node < |v.cmdbufFree|
  {
    var job := v.jobs[k];
    v.(jobs := v.jobs[..k] + v.jobs[k + 1..], done := v.done + finished,
       cmdbufFree := v.cmdbufFree[job.node := true],
       aesBufFree := if job.reqs != [] && job.buf.Static? && job.buf.index < |v.aesBufFree|
                     then v.aesBufFree[job.buf.index := true] else v.aesBufFree)
  }

  // ---------------------------------------------------------------- what every step keeps

  lemma EnlistedInv(cipher: Cipher, v: Device, batch: seq<Request>)
    requires Inv(cipher, v) && Rested(v)
    ensures Inv(cipher, Enlisted(v, batch))
  {
    ConservedTaken(v.done, v.jobs, batch, v.accepted);
  }

  lemma StaticTakenInv(cipher: Cipher, v: Device, k: nat)
    requires Inv(cipher, v) && ValidBatch(v.reqs) && k < AESBUFS && v.aesBufFree[k]
    requires Total(v.reqs) <= GATHER_SIZE
    ensures var v' := StaticTaken(v, k);
      Inv(cipher, v') && Filled(v', Static(k)) && k !in v.unowned
  {
    BuffersReserve(v.jobs, v.aesBufFree, v.unowned, v.nextDynamic, k);
    JobsElsewhere(cipher, v.jobs, v.cmdbufs, v.hw.mem, Static(k),
                  Inputs(v.reqs) + v.hw.mem[Static(k)][Total(v.reqs)..]);
  }

  lemma DynamicTakenInv(cipher: Cipher, v: Device)
    requires Inv(cipher, v) && ValidBatch(v.reqs)
    ensures Inv(cipher, DynamicTaken(v)) && Filled(DynamicTaken(v), Dynamic(v.nextDynamic))
  {
    JobsElsewhere(cipher, v.jobs, v.cmdbufs, v.hw.mem, Dynamic(v.nextDynamic), Inputs(v.reqs));
  }

  /** A buffer nobody else works in, filled with the inputs. */
  ghost predicate Filled(v: Device, buf: Buffer)
    requires ValidBatch(v.reqs)
  {
    && buf in v.hw.mem && Inputs(v.reqs) <= v.hw.mem[buf] && !OwnsBuffer(v.jobs, buf)
    && (if buf.Static? then buf.index < AESBUFS && buf.index in v.unowned else buf.number < v.nextDynamic)
  }

  lemma BatchSubmittedInv(cipher: Cipher, v: Device, buf: Buffer, node: nat)
    requires Inv(cipher, v) && ValidBatch(v.reqs) && HaveSlots(v.reqs) && 0 < |v.reqs| <= MAX_TASKS
    requires Filled(v, buf) && node < CHAIN && v.cmdbufFree[node]
    ensures Inv(cipher, BatchSubmitted(v, buf, node))
  {
    var job := Job(v.reqs, buf, node, false, buf.Static? || !v.wild);
    JobsAdd(cipher, v.jobs, v.cmdbufs, v.hw.mem, job, Commands(v.reqs, buf) + [IncrSyncpt], v.cmdbufFree);
    BuffersAdd(v.jobs, v.aesBufFree, v.unowned, v.nextDynamic, job);
    ConservedSubmitted(v.done, v.jobs, v.reqs, v.accepted, job);
  }

  lemma KeySubmittedInv(cipher: Cipher, v: Device, slot: nat, keylen: nat, node: nat)
    requires Inv(cipher, v) && Rested(v) && node < CHAIN && v.cmdbufFree[node]
    ensures Inv(cipher, KeySubmitted(v, slot, keylen, node))
  {
    var job := Job([], Static(v.aesbufEntry), node, false, true);
    JobsAdd(cipher, v.jobs, v.cmdbufs, v.hw.mem, job, KeyLoad(slot, keylen) + [IncrSyncpt], v.cmdbufFree);
    BuffersIdle(v.jobs, v.aesBufFree, v.unowned, v.nextDynamic, job);
    ConservedSubmitted(v.done, v.jobs, v.reqs, v.accepted, job);
  }

  lemma AllFailedInv(cipher: Cipher, v: Device, error: Error)
    requires Inv(cipher, v) && ValidBatch(v.reqs) && error != Ok
    ensures Inv(cipher, AllFailed(v, error)) && Rested(AllFailed(v, error))
  {
    ConservedReturned(v.done, v.jobs, v.reqs, v.accepted, Failed(v.reqs, error));
    FailedOk(cipher, v.done, v.reqs, error);
  }

  lemma AesBufFreedInv(cipher: Cipher, v: Device, own: bool)
    requires Inv(cipher, v)
    ensures Inv(cipher, AesBufFreed(v, own))
  {
    SpoiledIs(v.jobs);
    FlagsKeepBooks(v.done, v.jobs, Spoiled(v.jobs), v.reqs, v.accepted, v.cmdbufFree,
                   v.aesBufFree, v.unowned, v.nextDynamic);
    SpoiledOk(cipher, v.jobs, v.cmdbufs, v.hw.mem);
  }

  lemma ExecutedInv(cipher: Cipher, v: Device, k: nat)
    requires Inv(cipher, v) && k < |v.jobs| && !v.jobs[k].executed
    ensures Inv(cipher, Executed(cipher, v, k))
    ensures Run(cipher, v.hw, v.cmdbufs[v.jobs[k].node]).Some? <==> AllShort(v.jobs[k].reqs)
  {
    var job, v' := v.jobs[k], Executed(cipher, v, k);
    CommandsRun(cipher, v.hw, job, v.cmdbufs[job.node]);
    if AllShort(job.reqs) {
      JobRuns(cipher, v.jobs, k, v.cmdbufs, v.aesBufFree, v.unowned, v.nextDynamic, v.hw);
    } else {
      LostOk(cipher, v.jobs[k := job.(executed := true)], v.cmdbufs, v.hw.mem);
    }
    FlagsKeepBooks(v.done, v.jobs, v'.jobs, v.reqs, v.accepted, v.cmdbufFree, v.aesBufFree, v.unowned,
                   v.nextDynamic);
  }

  lemma CalledBackInv(cipher: Cipher, v: Device, k: nat)
    requires Inv(cipher, v) && k < |v.jobs| && v.jobs[k].executed
    ensures Inv(cipher, CalledBack(cipher, v, k))
  {
    var job := v.jobs[k];
    SlotsRemove(v.jobs, v.cmdbufFree, k);
    BuffersRemove(v.jobs, v.aesBufFree, v.unowned, v.nextDynamic, k);
    FinishedOk(cipher, v.done, job.reqs, job.intact);
    ConservedCalledBack(v.done, v.jobs, v.reqs, v.accepted, k, Finished(cipher, job.reqs, job.intact));
  }

  /** When a batch can be processed, and the scans say what is free. */
  ghost predicate CanProcess(cipher: Cipher, v: Device, k: nat, node: nat) {
    && Inv(cipher, v) && Ready(v) && k < AESBUFS && node < CHAIN
    && (true in v.aesBufFree ==> v.aesBufFree[k]) && (true in v.cmdbufFree ==> v.cmdbufFree[node])
  }

  lemma AcquiredInv(cipher: Cipher, v: Device, memory: bool, k: nat, node: nat)
    requires CanProcess(cipher, v, k, node)
    ensures var (v1, buf, error) := Acquired(Sized(v), memory, k);
      && Inv(cipher, v1) && v1.reqs == v.reqs && v1.jobs == v.jobs && v1.done == v.done
      && v1.cmdbufFree == v.cmdbufFree && v1.trouble == v.trouble
      && (buf.Some? <==> GotBuffer(v.reqs, v.aesBufFree, memory))
      && (buf.None? ==> error != Ok && v1.unowned == v.unowned)
      && (buf.Some? ==> Filled(v1, buf.value))
  {
    assert Inv(cipher, Sized(v));
    if StaticBatch(v.reqs) {
      StaticSize(v.reqs);
      if true in v.aesBufFree { StaticTakenInv(cipher, Sized(v), k); }
    } else if memory {
      DynamicTakenInv(cipher, Sized(v));
    }
  }

  /** A batch is submitted exactly when there are a buffer, a command slot and everybody's key
      slot; otherwise every request fails once. */
  lemma ProcessedInv(cipher: Cipher, v: Device, memory: bool, k: nat, node: nat)
    requires CanProcess(cipher, v, k, node)
    ensures var (v', err) := Processed(v, memory, k, node);
      && Inv(cipher, v') && Rested(v')
      && (err == Ok <==> GotBuffer(v.reqs, v.aesBufFree, memory) && true in v.cmdbufFree && HaveSlots(v.reqs))
      && v'.done == if err == Ok then v.done else v.done + Failed(v.reqs, err)
  {
    AcquiredInv(cipher, v, memory, k, node);
    var (v1, buf, error) := Acquired(Sized(v), memory, k);
    if buf.None? {
      AllFailedInv(cipher, v1, error);
    } else {
      ContinuedInv(cipher, v1, buf.value, node);
    }
  }

  lemma ContinuedInv(cipher: Cipher, v: Device, buf: Buffer, node: nat)
    requires Inv(cipher, v) && ValidBatch(v.reqs) && 0 < |v.reqs| <= MAX_TASKS && Filled(v, buf)
    requires node < CHAIN && (true in v.cmdbufFree ==> v.cmdbufFree[node])
    ensures var (v', err) := Continued(v, buf, node);
      && Inv(cipher, v') && Rested(v')
      && (err == Ok <==> true in v.cmdbufFree && HaveSlots(v.reqs))
      && v'.done == if err == Ok then v.done else v.done + Failed(v.reqs, err)
  {
    var own := buf.Dynamic?;
    if true !in v.cmdbufFree {
      AesBufFreedInv(cipher, v, own);
      AllFailedInv(cipher, AesBufFreed(v, own), NoMemory);
    } else if !HaveSlots(v.reqs) {
      var v1 := v.(cmdbufListEntry := node);
      AesBufFreedInv(cipher, v1, own);
      AllFailedInv(cipher, AesBufFreed(v1, own), Invalid);
    } else {
      BatchSubmittedInv(cipher, v, buf, node);
    }
  }

  /** A failure does no harm exactly if the failing batch is dynamic or had no buffer yet, or
      if nothing is left of an earlier dynamic batch; else every dynamic batch under way loses
      its buffer. And the failing batch's own static buffer stays marked busy for good, exactly
      if it had one. */
  lemma FailureSpares(cipher: Cipher, v: Device, memory: bool, k: nat, node: nat)
    requires CanProcess(cipher, v, k, node) && Processed(v, memory, k, node).1 != Ok
    ensures var v', harm := Processed(v, memory, k, node).0, Strands(v.reqs, v.aesBufFree) && v.aesBuf.Some?;
      && v'.jobs == (if harm then Spoiled(v.jobs) else v.jobs)
      && v'.wild == (v.wild || harm) && v'.trouble == (v.trouble || harm)
      && v'.unowned == if Strands(v.reqs, v.aesBufFree) then v.unowned + {k} else v.unowned
  {
    AcquiredInv(cipher, v, memory, k, node);
    var (v1, buf, error) := Acquired(Sized(v), memory, k);
    if buf.Some? { ContinuedSpares(v1, buf.value, node); }
  }

  lemma ContinuedSpares(v: Device, buf: Buffer, node: nat)
    requires |v.cmdbufs| == |v.cmdbufFree| == CHAIN && node < CHAIN && Continued(v, buf, node).1 != Ok
    ensures var v', harm := Continued(v, buf, node).0, buf.Static? && v.aesBuf.Some?;
      && v'.jobs == (if harm then Spoiled(v.jobs) else v.jobs)
      && v'.wild == (v.wild || harm) && v'.trouble == (v.trouble || harm) && v'.unowned == v.unowned
  {
    var v1 := if true !in v.cmdbufFree then v else v.(cmdbufListEntry := node);
    FreedSpares(v1, buf.Dynamic?, Continued(v, buf, node).1);
  }

  lemma FreedSpares(v: Device, own: bool, error: Error)
    ensures var v', harm := AllFailed(AesBufFreed(v, own), error), !own && v.aesBuf.Some?;
      && v'.jobs == (if harm then Spoiled(v.jobs) else v.jobs)
      && v'.wild == (v.wild || harm) && v'.trouble == (v.trouble || harm) && v'.unowned == v.unowned
  {
  }

  // ---------------------------------------------------------------- whole runs

  datatype Step =
    | Enlist(batch: seq<Request>)
    | Process(memory: bool, k: nat, node: nat)
    | KeyStep(slot: nat, keylen: nat, node: nat)
    | Engine(k: nat)
    | Completed(k: nat)

  ghost predicate Enabled(cipher: Cipher, v: Device, step: Step)
    requires Inv(cipher, v)
  {
    match step
    case Enlist(batch) => Rested(v) && ValidBatch(batch) && 0 < |batch| <= MAX_TASKS
    case Process(_, k, node) => CanProcess(cipher, v, k, node)
    case KeyStep(_, _, node) => Rested(v) && node < CHAIN && v.cmdbufFree[node]
    case Engine(k) => k < |v.jobs| && !v.jobs[k].executed
    case Completed(k) => k < |v.jobs| && v.jobs[k].executed
  }

  ghost function Next(cipher: Cipher, v: Device, step: Step): Device
    requires Inv(cipher, v) && Enabled(cipher, v, step)
  {
    match step
    case Enlist(batch) => Enlisted(v, batch)
    case Process(memory, k, node) => Processed(v, memory, k, node).0
    case KeyStep(slot, keylen, node) => KeySubmitted(v, slot, keylen, node)
    case Engine(k) => Executed(cipher, v, k)
    case Completed(k) => CalledBack(cipher, v, k)
  }

  lemma StepInv(cipher: Cipher, v: Device, step: Step)
    requires Inv(cipher, v) && Enabled(cipher, v, step)
    ensures Inv(cipher, Next(cipher, v, step))
  {
    match step
    case Enlist(batch) => EnlistedInv(cipher, v, batch);
    case Process(memory, k, node) => ProcessedInv(cipher, v, memory, k, node);
    case KeyStep(slot, keylen, node) => KeySubmittedInv(cipher, v, slot, keylen, node);
    case Engine(k) => ExecutedInv(cipher, v, k);
    case Completed(k) => CalledBackInv(cipher, v, k);
  }

  ghost predicate Possible(cipher: Cipher, v: Device, steps: seq<Step>)
    decreases |steps|
  {
    steps == [] ||
    (Inv(cipher, v) && Enabled(cipher, v, steps[0]) && Possible(cipher, Next(cipher, v, steps[0]), steps[1..]))
  }

  ghost function After(cipher: Cipher, v: Device, steps: seq<Step>): Device
    requires Possible(cipher, v, steps)
    decreases |steps|
  {
    if steps == [] then v else After(cipher, Next(cipher, v, steps[0]), steps[1..])
  }

  /** The device after probe. */
  ghost predicate IsFresh(v: Device) {
    && Rested(v) && v.jobs == [] && v.done == [] && v.accepted == [] && v.unowned == {} && !v.wild && !v.trouble
    && v.aesBuf == None && StaticBuffers(v.hw.mem) && |v.cmdbufs| == CHAIN
    && v.aesBufFree == seq(AESBUFS, _ => true) && v.cmdbufFree == seq(CHAIN, _ => true)
  }

  lemma FreshInv(cipher: Cipher, v: Device)
    requires LengthPreserving(cipher) && IsFresh(v)
    ensures Inv(cipher, v)
  {
  }

  /** A step the driver does not notice the harm of: an over-long request goes to the engine,
      or a failing batch with a static buffer frees what an earlier dynamic one has left. */
  ghost predicate Harmful(cipher: Cipher, v: Device, step: Step)
    requires Inv(cipher, v) && Enabled(cipher, v, step)
  {
    match step
    case Engine(k) => !AllShort(v.jobs[k].reqs)
    case Process(memory, k, node) =>
      Processed(v, memory, k, node).1 != Ok && Strands(v.reqs, v.aesBufFree) && v.aesBuf.Some?
    case _ => false
  }

  lemma StepTrouble(cipher: Cipher, v: Device, step: Step)
    requires Inv(cipher, v) && Enabled(cipher, v, step)
    ensures Next(cipher, v, step).trouble <==> v.trouble || Harmful(cipher, v, step)
  {
    match step
    case Engine(k) => ExecutedInv(cipher, v, k);
    case Process(memory, k, node) =>
      AcquiredInv(cipher, v, memory, k, node);
      if Processed(v, memory, k, node).1 != Ok { FailureSpares(cipher, v, memory, k, node); }
    case _ =>
  }

  ghost predicate HarmfulRun(cipher: Cipher, v: Device, steps: seq<Step>)
    requires Possible(cipher, v, steps)
    decreases |steps|
  {
    steps != [] && (Harmful(cipher, v, steps[0]) || HarmfulRun(cipher, Next(cipher, v, steps[0]), steps[1..]))
  }

  /** Every run keeps the books, and there is trouble exactly after a harmful step. */
  lemma {:induction false} RunInv(cipher: Cipher, v: Device, steps: seq<Step>)
    requires Inv(cipher, v) && Possible(cipher, v, steps)
    ensures Inv(cipher, After(cipher, v, steps))
    ensures After(cipher, v, steps).trouble <==> v.trouble || HarmfulRun(cipher, v, steps)
    decreases |steps|
  {
    if steps != [] {
      StepInv(cipher, v, steps[0]);
      StepTrouble(cipher, v, steps[0]);
      RunInv(cipher, Next(cipher, v, steps[0]), steps[1..]);
    }
  }

  /** Over every run: once nothing is under way, a request that came in once has come back
      exactly once. If it failed its destination is as it was. If not, and no step of the run
      was harmful, its destination holds its own result and is otherwise as it was. */
  lemma AnsweredOnce(cipher: Cipher, start: Device, steps: seq<Step>, r: Request) returns (i: nat)
    requires LengthPreserving(cipher) && IsFresh(start) && Possible(cipher, start, steps)
    requires var v := After(cipher, start, steps);
      v.jobs == [] && v.reqs == [] && Occurs(v.accepted, r) == 1
    ensures var done := After(cipher, start, steps).done;
      && i < |done| && done[i].req == r
      && (forall j :: 0 <= j < |done| && done[j].req == r ==> j == i)
      && r.Valid() && (!HarmfulRun(cipher, start, steps) ==> done[i].dst.Some?)
      && (done[i].error != Ok ==> done[i].dst == Some(r.dst))
      && (done[i].error == Ok ==> r.slot.Some?)
      && (done[i].error == Ok && done[i].dst.Some? ==>
            Flat(done[i].dst.value) == Output(cipher, r) + Flat(r.dst)[r.nbytes..])
  {
    FreshInv(cipher, start);
    RunInv(cipher, start, steps);
    var v := After(cipher, start, steps);
    i := ReturnedOnce(v.done, r);
    assert CompletionOk(cipher, v.done[i]);
  }

  ghost predicate Takes(cipher: Cipher, v: Device, step: Step, v': Device) {
    Inv(cipher, v) && Enabled(cipher, v, step) && v' == Next(cipher, v, step)
  }

  /** Four steps from a fresh device: a dynamic batch is under way, and a static one comes with
      a request whose context has no key slot. It fails, and the batch under way loses its
      buffer. */
  lemma StaleBuffer(cipher: Cipher, start: Device, r: Request, q: Request)
    returns (v1: Device, v2: Device, v3: Device, v4: Device)
    requires LengthPreserving(cipher) && IsFresh(start)
    requires r.Valid() && r.nbytes != STATIC_NBYTES && r.slot.Some?
    requires q.Valid() && q.nbytes == STATIC_NBYTES && q.slot.None?
    ensures Takes(cipher, start, Enlist([r]), v1) && Takes(cipher, v1, Process(true, 0, 0), v2)
    ensures Takes(cipher, v2, Enlist([q]), v3) && Takes(cipher, v3, Process(true, 0, 1), v4)
    ensures |v2.jobs| == 1 && v2.jobs[0].reqs == [r] && v2.jobs[0].intact
    ensures |v4.jobs| == 1 && v4.jobs[0].reqs == [r] && !v4.jobs[0].intact && v4.wild
  {
    FreshInv(cipher, start);
    v1, v2 := LargeUnderWay(cipher, start, r);
    v3 := Enlisted(v2, [q]);
    OneRequest(q);
    EnlistedInv(cipher, v2, [q]);
    v4 := SmallFails(cipher, v3, q);
  }

  /** And four with nothing under way: a dynamic batch whose context has no key slot fails and
      frees its buffer; a static one fails likewise, and the same buffer is freed again. */
  lemma FreedTwice(cipher: Cipher, start: Device, r: Request, q: Request)
    returns (v1: Device, v2: Device, v3: Device, v4: Device)
    requires LengthPreserving(cipher) && IsFresh(start)
    requires r.Valid() && r.nbytes != STATIC_NBYTES && r.slot.None?
    requires q.Valid() && q.nbytes == STATIC_NBYTES && q.slot.None?
    ensures Takes(cipher, start, Enlist([r]), v1) && Takes(cipher, v1, Process(true, 0, 0), v2)
    ensures Takes(cipher, v2, Enlist([q]), v3) && Takes(cipher, v3, Process(true, 0, 1), v4)
    ensures v2.jobs == [] && v2.aesBuf == Some(Dynamic(start.nextDynamic)) && !v2.trouble
    ensures v4.wild && v4.trouble
  {
    FreshInv(cipher, start);
    v1, v2 := LargeFails(cipher, start, r);
    v3 := Enlisted(v2, [q]);
    OneRequest(q);
    EnlistedInv(cipher, v2, [q]);
    v4 := SmallFails(cipher, v3, q);
  }

  lemma DynamicFails(v: Device)
    requires Ready(v) && StaticBuffers(v.hw.mem) && |v.aesBufFree| == AESBUFS && |v.cmdbufs| == |v.cmdbufFree| == CHAIN
    requires !StaticBatch(v.reqs) && !HaveSlots(v.reqs) && true in v.cmdbufFree
    ensures var v' := Processed(v, true, 0, 0).0;
      && v'.jobs == v.jobs && v'.aesBuf == Some(Dynamic(v.nextDynamic)) && v'.trouble == v.trouble
      && v'.aesBufFree == v.aesBufFree && v'.cmdbufFree == v.cmdbufFree
  {
  }

  lemma LargeFails(cipher: Cipher, start: Device, r: Request) returns (v1: Device, v2: Device)
    requires LengthPreserving(cipher) && IsFresh(start) && Inv(cipher, start)
    requires r.Valid() && r.nbytes != STATIC_NBYTES && r.slot.None?
    ensures Takes(cipher, start, Enlist([r]), v1) && Takes(cipher, v1, Process(true, 0, 0), v2)
    ensures Inv(cipher, v2) && Rested(v2) && v2.aesBufFree == start.aesBufFree && v2.cmdbufFree[1]
    ensures v2.jobs == [] && v2.aesBuf == Some(Dynamic(start.nextDynamic)) && !v2.trouble
  {
    v1 := FirstBatch(cipher, start, r);
    ProcessedInv(cipher, v1, true, 0, 0);
    v2 := Processed(v1, true, 0, 0).0;
    DynamicFails(v1);
  }

  /** The last one. */
  lemma SmallFails(cipher: Cipher, v3: Device, q: Request) returns (v4: Device)
    requires Inv(cipher, v3) && v3.reqs == [q] && v3.gatherBufSz == q.nbytes && v3.cmdbufCnt == 0 && !v3.dynamicMem
    requires v3.aesBufFree == seq(AESBUFS, _ => true) && v3.cmdbufFree[1]
    requires q.Valid() && q.nbytes == STATIC_NBYTES && q.slot.None?
    requires v3.aesBuf.Some?
    ensures Takes(cipher, v3, Process(true, 0, 1), v4)
    ensures v4.jobs == Spoiled(v3.jobs) && v4.wild && v4.trouble
  {
    OneRequest(q);
    assert v3.aesBufFree[0];
    FailureSpares(cipher, v3, true, 0, 1);
    v4 := Processed(v3, true, 0, 1).0;
  }

  /** The first one. */
  lemma FirstBatch(cipher: Cipher, start: Device, r: Request) returns (v1: Device)
    requires LengthPreserving(cipher) && IsFresh(start) && Inv(cipher, start)
    requires r.Valid() && r.nbytes != STATIC_NBYTES
    ensures Takes(cipher, start, Enlist([r]), v1) && v1 == Enlisted(start, [r])
    ensures CanProcess(cipher, v1, 0, 0) && !StaticBatch(v1.reqs) && (HaveSlots(v1.reqs) <==> r.slot.Some?)
    ensures v1.cmdbufFree[0] && v1.cmdbufFree[1]
  {
    v1 := Enlisted(start, [r]);
    EnlistedInv(cipher, start, [r]);
    OneRequest(r);
    assert start.cmdbufFree[0] && start.cmdbufFree[1] && start.aesBufFree[0];
  }

  /** The first two of them. */
  lemma LargeUnderWay(cipher: Cipher, start: Device, r: Request) returns (v1: Device, v2: Device)
    requires LengthPreserving(cipher) && IsFresh(start) && Inv(cipher, start)
    requires r.Valid() && r.nbytes != STATIC_NBYTES && r.slot.Some?
    ensures Takes(cipher, start, Enlist([r]), v1) && Takes(cipher, v1, Process(true, 0, 0), v2)
    ensures Inv(cipher, v2) && Rested(v2) && v2.aesBufFree == start.aesBufFree && v2.cmdbufFree[1]
    ensures |v2.jobs| == 1 && v2.jobs[0].reqs == [r] && v2.jobs[0].intact && v2.jobs[0].buf.Dynamic?
    ensures v2.aesBuf == Some(v2.jobs[0].buf)
  {
    v1 := FirstBatch(cipher, start, r);
    ProcessedInv(cipher, v1, true, 0, 0);
    v2 := Processed(v1, true, 0, 0).0;
  }

  lemma OneRequest(r: Request)
    requires r.Valid()
    ensures ValidBatch([r]) && (StaticBatch([r]) <==> r.nbytes == STATIC_NBYTES)
    ensures HaveSlots([r]) <==> r.slot.Some?
    ensures Total([r]) == r.nbytes
  {
    assert [r][0] == r && [r][..0] == [];
  }

  lemma {:induction false} ReturnedOnce(done: seq<Completion>, r: Request) returns (i: nat)
    requires Returned(done, r) == 1
    ensures i < |done| && done[i].req == r
    ensures forall j :: 0 <= j < |done| && done[j].req == r ==> j == i
    decreases |done|
  {
    var n := |done| - 1;
    if done[n].req == r {
      i := n;
      forall j | 0 <= j < n && done[j].req == r ensures false {
        ReturnedSome(done[..n], j);
      }
    } else {
      i := ReturnedOnce(done[..n], r);
      forall j | 0 <= j < |done| && done[j].req == r ensures j == i {
        assert j < n && done[..n][j].req == r;
      }
    }
  }

  lemma {:induction false} ReturnedSome(done: seq<Completion>, j: nat)
    requires j < |done|
    ensures Returned(done, done[j].req) > 0
    decreases |done|
  {
    if j < |done| - 1 { ReturnedSome(done[..|done| - 1], j); }
  }
}
