/** The AES batch engine (tegra-se-nvhost.c): batches are gathered into a static or a freshly
    allocated buffer, commanded through one of ten command-buffer slots, and finished by a
    completion callback that scatters the results, while later batches are already under
    way and reuse the device's request array. Every method of the device is one of the
    steps that the books know. */
module AesEngine {
  import opened ScatterList
  import opened AesBatch
  import opened AesLedger

  /** The cyclic scan of tegra_se_get_free_cmdbuf and tegra_se_setup_ablk_req: up to `tries`
      polls from `start` on. It fails exactly when nothing is free. */
  method FindFree(free: seq<bool>, start: nat, tries: nat) returns (found: bool, index: nat)
    requires 0 < |free| <= tries
    ensures found ==> index < |free| && free[index]
    ensures !found ==> forall j :: 0 <= j < |free| ==> !free[j]
  {
    var n := |free|;
    index := start % n;
    ghost var first := index;
    for i := 0 to tries
      invariant index < n
      invariant i < n ==> index == if first + i < n then first + i else first + i - n
      invariant forall j :: 0 <= j < n && (if j < first then j + n - first else j - first) < i ==> !free[j]
    {
      if free[index] {
        return true, index;
      }
      index := if index + 1 == n then 0 else index + 1;
    }
    found := false;
  }

  /** The request's bytes, copied the way the driver does it: straight from a single entry,
      or through the list. */
  method CopyIn(r: Request) returns (data: seq<Byte>)
    requires r.Valid()
    ensures data == r.Input()
  {
    var num := CountSgs(r.src, r.nbytes);
    if num == 1 {
      assert Flat(r.src[..1]) == r.src[0] + Flat(r.src[..1][1..]) == r.src[0];
      FlatPrefix(r.src, 1);
      data := r.src[0][..r.nbytes];
    } else {
      FlatPrefix(r.src, num);
      PrefixSlice(r.src, num, 0, r.nbytes);
      data := Flat(r.src[..num])[..r.nbytes];
    }
  }

  /** And back into the destination. */
  method CopyOut(r: Request, data: seq<Byte>) returns (dst: Segments)
    requires r.Valid() && |data| == r.nbytes
    ensures dst == Scatter(r.dst, data)
  {
    var num := CountSgs(r.dst, r.nbytes);
    if num == 1 {
      assert Flat(r.dst[..1]) == r.dst[0] + Flat(r.dst[..1][1..]) == r.dst[0];
      dst := r.dst[0 := data + r.dst[0][r.nbytes..]];
      ScatterNothing(r.dst[1..]);
      assert data[..r.nbytes] == data && data[r.nbytes..] == [];
      assert dst == [data + r.dst[0][r.nbytes..]] + r.dst[1..];
    } else {
      dst := Scatter(r.dst, data);
    }
  }

  lemma {:induction false} ScatterNothing(dst: Segments)
    ensures Scatter(dst, []) == dst
  {
    if dst != [] {
      var none: seq<Byte> := [];
      ScatterNothing(dst[1..]);
      assert none[0..] == none && none + dst[0][0..] == dst[0];
    }
  }

  /** The gather loop of tegra_se_setup_ablk_req: the inputs, one behind the other. */
  method Gather(reqs: seq<Request>, buffer: seq<Byte>) returns (bytes: seq<Byte>)
    requires ValidBatch(reqs) && Total(reqs) <= |buffer|
    ensures bytes == Inputs(reqs) + buffer[Total(reqs)..]
  {
    bytes := buffer;
    var at := 0;
    for i := 0 to |reqs|
      invariant at == Total(reqs[..i]) <= |buffer|
      invariant bytes == Inputs(reqs[..i]) + buffer[at..]
    {
      TotalPrefix(reqs, i);
      var data := CopyIn(reqs[i]);
      GatherStep(reqs, i, buffer);
      bytes := bytes[..at] + data + bytes[at + reqs[i].nbytes..];
      at := at + reqs[i].nbytes;
    }
    assert reqs[..|reqs|] == reqs;
  }

  lemma GatherStep(reqs: seq<Request>, i: nat, buffer: seq<Byte>)
    requires ValidBatch(reqs) && i < |reqs| && Total(reqs[..i]) + reqs[i].nbytes <= |buffer|
    ensures var at, data := Total(reqs[..i]), reqs[i].Input();
      var bytes := Inputs(reqs[..i]) + buffer[at..];
      bytes[..at] + data + bytes[at + reqs[i].nbytes..] == Inputs(reqs[..i + 1]) + buffer[at + reqs[i].nbytes..]
  {
    assert reqs[..i + 1][..i] == reqs[..i];
    assert Inputs(reqs[..i + 1]) == Inputs(reqs[..i]) + reqs[i].Input();
    PutBehind(Inputs(reqs[..i]), reqs[i].Input(), buffer[Total(reqs[..i])..]);
  }

  lemma PutBehind(done: seq<Byte>, data: seq<Byte>, rest: seq<Byte>)
    requires |data| <= |rest|
    ensures (done + rest)[..|done|] == done
    ensures (done + rest)[|done| + |data|..] == rest[|data|..]
  {
  }

  /** tegra_se_send_ctr_seed or tegra_se_send_key_data for an updated vector. */
  method SendVector(cmds: seq<Command>, count: nat, r: Request)
    returns (cmds': seq<Command>, count': nat)
    requires r.slot.Some? && count == WordsOf(cmds)
    ensures cmds' == cmds + VectorCommands(r, cmds == []) && count' == WordsOf(cmds')
  {
    cmds', count' := cmds, count;
    if r.info.Some? {
      if r.mode == Ctr || r.mode == Xts {
        cmds', count' := Emit(cmds', count', LoadCounter(r.info.value));
      } else {
        if cmds == [] {
          cmds', count' := Emit(cmds', count', Dummy);
        }
        cmds', count' := Emit(cmds', count', LoadIv(r.slot.value, r.info.value));
      }
    }
  }

  /** tegra_se_send_data for a request: its list is one entry, so its loop runs at most once. */
  method SendData(cmds: seq<Command>, count: nat, r: Request, buf: Buffer, curAddr: nat)
    returns (cmds': seq<Command>, count': nat)
    requires r.slot.Some? && count == WordsOf(cmds)
    ensures cmds' == cmds + DataCommands(r, buf, curAddr) && count' == WordsOf(cmds')
  {
    cmds', count' := cmds, count;
    if r.nbytes > 0 {
      cmds', count' := Emit(cmds', count', Start(r.nbytes / BLOCK - 1, r.Settings(), buf, curAddr, r.nbytes));
    }
  }

  /** tegra_se_prepare_cmdbuf, with the running word count of the command buffer; a request
      without a key slot stops it. */
  method PrepareCmdbuf(reqs: seq<Request>, buf: Buffer)
    returns (ok: bool, cmds: seq<Command>, cmdbufCnt: nat)
    requires ValidBatch(reqs) && |reqs| <= MAX_TASKS
    ensures ok <==> HaveSlots(reqs)
    ensures ok ==> cmds == Commands(reqs, buf)
    ensures ok ==> cmdbufCnt == WordsOf(cmds) && cmdbufCnt + 2 <= SLOT_WORDS
  {
    cmds, cmdbufCnt := [], 0;
    var curAddr := 0;
    for i := 0 to |reqs|
      invariant HaveSlots(reqs[..i])
      invariant cmds == Commands(reqs[..i], buf) && cmdbufCnt == WordsOf(cmds)
      invariant curAddr == Total(reqs[..i])
    {
      var r := reqs[i];
      if r.slot.None? {
        return false, cmds, cmdbufCnt;
      }
      CommandsStep(reqs, i, buf);
      cmds, cmdbufCnt := SendVector(cmds, cmdbufCnt, r);
      cmds, cmdbufCnt := SendData(cmds, cmdbufCnt, r, buf, curAddr);
      curAddr := curAddr + r.nbytes;
    }
    assert reqs[..|reqs|] == reqs;
    WordBound(reqs, buf);
    ok := true;
  }

  method Emit(cmds: seq<Command>, count: nat, c: Command) returns (cmds': seq<Command>, count': nat)
    ensures cmds' == cmds + [c] && count' == count + Words(c)
    ensures WordsOf(cmds') == WordsOf(cmds) + Words(c)
  {
    WordsSnoc(cmds, c);
    cmds', count' := cmds + [c], count + Words(c);
  }

  lemma CommandsStep(reqs: seq<Request>, i: nat, buf: Buffer)
    requires i < |reqs| && HaveSlots(reqs[..i]) && reqs[i].slot.Some?
    ensures HaveSlots(reqs[..i + 1])
    ensures var before := Commands(reqs[..i], buf);
      Commands(reqs[..i + 1], buf)
        == before + VectorCommands(reqs[i], before == []) + DataCommands(reqs[i], buf, Total(reqs[..i]))
    ensures Total(reqs[..i + 1]) == Total(reqs[..i]) + reqs[i].nbytes
  {
    assert reqs[..i + 1][..i] == reqs[..i];
    assert reqs[..i + 1] == reqs[..i] + [reqs[i]];
  }

  // ---------------------------------------------------------------- the device

  class SeDevice {
    const cipher: Cipher
    var reqs: seq<Request>
    var gatherBufSz: nat
    var dynamicMem: bool
    var aesbufEntry: nat
    var cmdbufListEntry: nat
    var cmdbufCnt: nat
    var aesBufFree: seq<bool>
    var cmdbufFree: seq<bool>
    var nextDynamic: nat
    /** The buffer of the last dynamic batch; it is never forgotten. */
    var aesBuf: Option<Buffer>
    /** Command memory, by slot, and the hardware with its buffers. */
    var cmdbufs: seq<seq<Command>>
    var hw: Hardware
    /** Submitted and not yet called back. */
    var jobs: seq<Job>
    var done: seq<Completion>
    /** Dynamic memory cannot be relied on any more. */
    var wild: bool
    ghost var accepted: seq<Request>
    ghost var unowned: set<nat>
    ghost var trouble: bool

    ghost function View(): Device
      reads this
    {
      Device(reqs, gatherBufSz, dynamicMem, aesbufEntry, cmdbufListEntry, cmdbufCnt, aesBufFree,
             cmdbufFree, nextDynamic, aesBuf, cmdbufs, hw, jobs, done, accepted, unowned, wild, trouble)
    }

    /** What the methods below need of the device to run at all. */
    ghost predicate Shape()
      reads this
    {
      StaticBuffers(hw.mem) && |aesBufFree| == AESBUFS && |cmdbufFree| == |cmdbufs| == CHAIN
    }

    constructor (cipher: Cipher)
      ensures this.cipher == cipher && IsFresh(View())
    {
      this.cipher := cipher;
      reqs, gatherBufSz, dynamicMem, aesbufEntry := [], 0, false, 0;
      cmdbufListEntry, cmdbufCnt, nextDynamic, aesBuf := 0, 0, 0, None;
      aesBufFree, cmdbufFree := seq(AESBUFS, _ => true), seq(CHAIN, _ => true);
      cmdbufs := seq(CHAIN, _ => []);
      var bytes := new Byte[GATHER_SIZE];
      hw := Hardware(map[], NoVector, map k | 0 <= k < AESBUFS :: Static(k) := bytes[..]);
      jobs, done := [], [];
      accepted, unowned, wild, trouble := [], {}, false, false;
    }

    /** The worker's batch arrives in the request array. */
    method Enlist(batch: seq<Request>)
      modifies this`reqs, this`gatherBufSz, this`accepted
      ensures View() == Enlisted(old(View()), batch)
    {
      var size := SumBytes(batch);
      reqs, gatherBufSz, accepted := batch, size, accepted + batch;
    }

    static method SumBytes(batch: seq<Request>) returns (size: nat)
      ensures size == Total(batch)
    {
      size := 0;
      for i := 0 to |batch|
        invariant size == Total(batch[..i])
      {
        TotalPrefix(batch, i);
        size := size + batch[i].nbytes;
      }
      assert batch[..|batch|] == batch;
    }

    /** The first loop of tegra_se_process_new_req. */
    method NeedsDynamic() returns (dynamic: bool)
      ensures dynamic <==> !StaticBatch(reqs)
    {
      for i := 0 to |reqs|
        invariant StaticBatch(reqs[..i])
      {
        if reqs[i].nbytes != STATIC_NBYTES {
          return true;
        }
      }
      assert reqs[..|reqs|] == reqs;
      dynamic := false;
    }

    /** The failure path: every request of the batch is completed with the error. */
    method FailAll(error: Error)
      modifies this`done, this`reqs, this`gatherBufSz, this`cmdbufCnt, this`dynamicMem
      ensures View() == AllFailed(old(View()), error)
    {
      var failed := CompleteAll(reqs, error);
      done := done + failed;
      StartOver();
    }

    static method CompleteAll(batch: seq<Request>, error: Error) returns (failed: seq<Completion>)
      ensures failed == Failed(batch, error)
    {
      failed := [];
      for i := 0 to |batch|
        invariant failed == Failed(batch[..i], error)
      {
        assert batch[..i + 1][..i] == batch[..i];
        failed := failed + [Completion(batch[i], error, Some(batch[i].dst))];
      }
      assert batch[..|batch|] == batch;
    }

    method StartOver()
      modifies this`reqs, this`gatherBufSz, this`cmdbufCnt, this`dynamicMem
      ensures View() == StartedOver(old(View()))
    {
      reqs, gatherBufSz, cmdbufCnt, dynamicMem := [], 0, 0, false;
    }

    /** The inputs are copied into a buffer. */
    method Fill(buf: Buffer, was: seq<Byte>)
      requires ValidBatch(reqs) && Total(reqs) <= |was|
      modifies this`hw
      ensures View() == AesLedger.Written(old(View()), buf, Inputs(reqs) + was[Total(reqs)..])
    {
      var filled := Gather(reqs, was);
      hw := hw.(mem := hw.mem[buf := filled]);
    }

    /** tegra_se_setup_ablk_req for memory that must be allocated, which may fail. */
    method SetupDynamic(memory: bool) returns (buf: Option<Buffer>)
      requires ValidBatch(reqs) && gatherBufSz == Total(reqs)
      modifies this`nextDynamic, this`hw, this`aesBuf
      ensures buf == if memory then Some(Dynamic(old(nextDynamic))) else None
      ensures View() == if memory then DynamicTaken(old(View())) else old(View()).(aesBuf := None)
    {
      if !memory {
        aesBuf := None;
        return None;
      }
      var bytes := Allocate(gatherBufSz);
      aesBuf := Some(Dynamic(nextDynamic));
      nextDynamic := nextDynamic + 1;
      NothingBehind(Inputs(reqs), bytes);
      Fill(aesBuf.value, bytes);
      buf := aesBuf;
    }

    static method Allocate(size: nat) returns (bytes: seq<Byte>)
      ensures |bytes| == size
    {
      var memory := new Byte[size];
      bytes := memory[..];
    }

    /** And for static memory: a scan for a buffer nobody works in, filled with the inputs. */
    method SetupStatic() returns (buf: Option<Buffer>, ghost k: nat)
      requires Shape() && ValidBatch(reqs) && Total(reqs) <= GATHER_SIZE
      modifies this`aesbufEntry, this`aesBufFree, this`hw, this`unowned
      ensures k < AESBUFS && (buf.Some? <==> true in old(aesBufFree))
      ensures buf.Some? ==> buf.value == Static(k) && old(aesBufFree)[k]
      ensures View() == if buf.Some? then StaticTaken(old(View()), k) else old(View())
    {
      var found, index := FindFree(aesBufFree, aesbufEntry + 1, AESBUF_TIMEOUT);
      if !found {
        return None, 0;
      }
      aesbufEntry := index;
      aesBufFree := aesBufFree[index := false];
      unowned := unowned + {index};
      Fill(Static(index), hw.mem[Static(index)]);
      buf, k := Some(Static(index)), index;
    }

    /** tegra_se_setup_ablk_req */
    method SetupAblkReq(memory: bool) returns (err: Error, buf: Option<Buffer>, ghost k: nat)
      requires Shape() && Loaded(View()) && (dynamicMem <==> !StaticBatch(reqs))
      modifies this`aesbufEntry, this`aesBufFree, this`nextDynamic, this`hw, this`unowned, this`aesBuf
      ensures k < AESBUFS && (StaticBatch(reqs) && true in old(aesBufFree) ==> old(aesBufFree)[k])
      ensures (View(), buf, err) == Acquired(old(View()), memory, k)
    {
      k := 0;
      if dynamicMem {
        buf := SetupDynamic(memory);
        err := if buf.Some? then Ok else NoMemory;
      } else {
        StaticSize(reqs);
        buf, k := SetupStatic();
        err := if buf.Some? then Ok else Timeout;
      }
    }

    /** tegra_se_channel_submit_gather: the commands are closed with a syncpoint increment and
        the callback gets a copy of the request array. */
    method SubmitGather(buf: Buffer, node: nat, cmds: seq<Command>)
      requires node < |cmdbufs| && node < |cmdbufFree|
      modifies this`jobs, this`cmdbufs, this`cmdbufFree, this`reqs, this`gatherBufSz, this`cmdbufCnt,
        this`dynamicMem
      ensures View() == StartedOver(Submitted(old(View()), buf, node, cmds))
    {
      cmdbufs := cmdbufs[node := cmds + [IncrSyncpt]];
      cmdbufFree := cmdbufFree[node := false];
      jobs := jobs + [Job(reqs, buf, node, false, buf.Static? || !wild)];
      StartOver();
    }

    /** The failure path's kfree: `own` says that the buffer is the failing batch's. */
    method FreeAesBuf(own: bool)
      modifies this`jobs, this`wild, this`trouble
      ensures View() == AesBufFreed(old(View()), own)
    {
      if aesBuf.Some? && !own {
        jobs, wild, trouble := Spoiled(jobs), true, true;
      }
    }

    /** tegra_se_process_new_req */
    method ProcessNewReq(memory: bool) returns (err: Error, ghost k: nat, ghost node: nat)
      requires Shape() && Ready(View())
      modifies this
      ensures k < AESBUFS && (StaticBatch(old(reqs)) && true in old(aesBufFree) ==> old(aesBufFree)[k])
      ensures node < CHAIN && (true in old(cmdbufFree) ==> old(cmdbufFree)[node])
      ensures (View(), err) == Processed(old(View()), memory, k, node)
    {
      dynamicMem := NeedsDynamic();
      var buf: Option<Buffer>;
      err, buf, k := SetupAblkReq(memory);
      if buf.Some? {
        err, node := SubmitOrFail(buf.value);
      } else {
        node := FreeOf(cmdbufFree);
        FailAll(err);
      }
    }

    /** The rest of it, when the batch has its buffer. */
    method SubmitOrFail(buf: Buffer) returns (err: Error, ghost node: nat)
      requires |cmdbufs| == |cmdbufFree| == CHAIN && ValidBatch(reqs) && |reqs| <= MAX_TASKS
      modifies this`jobs, this`cmdbufs, this`cmdbufFree, this`cmdbufListEntry, this`reqs,
        this`gatherBufSz, this`cmdbufCnt, this`dynamicMem, this`unowned, this`done,
        this`wild, this`trouble
      ensures node < CHAIN && (true in old(cmdbufFree) ==> old(cmdbufFree)[node])
      ensures (View(), err) == Continued(old(View()), buf, node)
    {
      err, node := SubmitFrom(buf);
      if err != Ok {
        FreeAesBuf(buf.Dynamic?);
        FailAll(err);
      }
    }

    method SubmitFrom(buf: Buffer) returns (err: Error, ghost node: nat)
      requires |cmdbufs| == |cmdbufFree| == CHAIN && ValidBatch(reqs) && |reqs| <= MAX_TASKS
      modifies this`jobs, this`cmdbufs, this`cmdbufFree, this`cmdbufListEntry, this`reqs,
        this`gatherBufSz, this`cmdbufCnt, this`dynamicMem, this`unowned
      ensures node < CHAIN && (true in old(cmdbufFree) ==> old(cmdbufFree)[node])
      ensures err == if true !in old(cmdbufFree) then NoMemory else if HaveSlots(old(reqs)) then Ok else Invalid
      ensures err == Ok ==> View() == BatchSubmitted(old(View()), buf, node)
      ensures err == NoMemory ==> View() == old(View())
      ensures err == Invalid ==> View() == old(View()).(cmdbufListEntry := node, cmdbufCnt := cmdbufCnt)
    {
      var found, index := FindFree(cmdbufFree, cmdbufListEntry + 1, CMDBUF_TIMEOUT);
      if !found {
        return NoMemory, 0;
      }
      node := index;
      cmdbufListEntry := index;
      var ok, cmds, count := PrepareCmdbuf(reqs, buf);
      cmdbufCnt := count;
      if !ok {
        return Invalid, node;
      }
      BatchSubmittedIs(old(View()), View(), buf, index);
      SubmitPrepared(buf, index, cmds);
      err := Ok;
    }

    /** The batch's commands are there. */
    method SubmitPrepared(buf: Buffer, node: nat, cmds: seq<Command>)
      requires node < |cmdbufs| && node < |cmdbufFree| && HaveSlots(reqs) && cmds == Commands(reqs, buf)
      requires cmdbufListEntry == node
      modifies this`jobs, this`cmdbufs, this`cmdbufFree, this`reqs, this`gatherBufSz, this`cmdbufCnt,
        this`dynamicMem, this`unowned
      ensures View() == BatchSubmitted(old(View()), buf, node)
    {
      SubmitGather(buf, node, cmds);
      unowned := if buf.Static? then unowned - {buf.index} else unowned;
    }

    /** tegra_se_aes_setkey from the point where the key slot is there, for a key that is not
        an XTS pair: the load goes out in a command slot of its own, if one is free. */
    method LoadKeyInto(slot: nat, keylen: nat) returns (err: Error, ghost node: nat)
      requires Shape() && Rested(View()) && keylen in {16, 24, 32}
      modifies this`jobs, this`cmdbufs, this`cmdbufFree, this`cmdbufListEntry, this`reqs, this`gatherBufSz,
        this`cmdbufCnt, this`dynamicMem
      ensures err == if true in old(cmdbufFree) then Ok else NoMemory
      ensures err == Ok ==> node < CHAIN && old(cmdbufFree)[node]
      ensures View() == if err == Ok then KeySubmitted(old(View()), slot, keylen, node) else old(View())
    {
      var found, index := FindFree(cmdbufFree, cmdbufListEntry + 1, CMDBUF_TIMEOUT);
      if !found {
        return NoMemory, 0;
      }
      cmdbufListEntry := index;
      SubmitGather(Static(aesbufEntry), index, [Dummy, LoadKey(slot, keylen), Dummy]);
      err, node := Ok, index;
    }

    /** The hardware executes a submission's command slot, whichever is next. */
    method HardwareRuns(k: nat)
      requires k < |jobs| && jobs[k].node < |cmdbufs|
      modifies this`hw, this`jobs, this`trouble
      ensures View() == Executed(cipher, old(View()), k)
    {
      var job := jobs[k].(executed := true);
      var run := Run(cipher, hw, cmdbufs[job.node]);
      if run.Some? {
        hw, jobs := run.value, jobs[k := job];
      } else {
        jobs, trouble := Lost(jobs[k := job]), true;
      }
    }

    /** tegra_se_aes_complete_callback */
    method Callback(k: nat)
      requires Inv(cipher, View()) && k < |jobs| && jobs[k].executed
      modifies this`jobs, this`done, this`cmdbufFree, this`aesBufFree
      ensures View() == CalledBack(cipher, old(View()), k)
    {
      assert JobOk(cipher, jobs[k], cmdbufs[jobs[k].node], hw.mem);
      FinishJob(k);
    }

    /** What the callback does with a batch that is in order. */
    method FinishJob(k: nat)
      requires LengthPreserving(cipher) && k < |jobs| && jobs[k].executed
      requires ValidBatch(jobs[k].reqs) && HaveSlots(jobs[k].reqs) && jobs[k].node < |cmdbufFree|
      requires jobs[k].reqs != [] && jobs[k].buf.Static? ==> jobs[k].buf.index < |aesBufFree|
      requires jobs[k].reqs != [] && jobs[k].intact ==>
        jobs[k].buf in hw.mem && InBuffer(cipher, jobs[k], hw.mem[jobs[k].buf])
      modifies this`jobs, this`done, this`cmdbufFree, this`aesBufFree
      ensures View() == CalledBack(cipher, old(View()), k)
    {
      var job := jobs[k];
      var finished := CompleteJob(job);
      ReleaseJob(k, finished);
    }

    /** The slot and the buffer are free, and the requests are with their owners. */
    method ReleaseJob(k: nat, finished: seq<Completion>)
      requires k < |jobs| && jobs[k].node < |cmdbufFree|
      requires jobs[k].reqs != [] && jobs[k].buf.Static? ==> jobs[k].buf.index < |aesBufFree|
      modifies this`jobs, this`done, this`cmdbufFree, this`aesBufFree
      ensures View() == Released(old(View()), k, finished)
    {
      var job := jobs[k];
      cmdbufFree := cmdbufFree[job.node := true];
      done := done + finished;
      if job.reqs != [] && job.buf.Static? {
        aesBufFree := aesBufFree[job.buf.index := true];
      }
      jobs := jobs[..k] + jobs[k + 1..];
    }

    /** The completions of a batch whose buffer is intact, or of one of which nothing is known. */
    method CompleteJob(job: Job) returns (finished: seq<Completion>)
      requires LengthPreserving(cipher) && ValidBatch(job.reqs) && HaveSlots(job.reqs) && job.executed
      requires job.reqs != [] && job.intact ==> job.buf in hw.mem && InBuffer(cipher, job, hw.mem[job.buf])
      ensures finished == Finished(cipher, job.reqs, job.intact)
    {
      if job.intact && job.reqs != [] {
        finished := ScatterResults(cipher, job.reqs, hw.mem[job.buf]);
      } else {
        finished := Unknown(job.reqs);
      }
    }

    static method ScatterResults(cipher: Cipher, reqs: seq<Request>, buffer: seq<Byte>)
      returns (finished: seq<Completion>)
      requires LengthPreserving(cipher) && ValidBatch(reqs) && HaveSlots(reqs)
      requires Outputs(cipher, reqs) <= buffer
      ensures finished == Finished(cipher, reqs, true)
    {
      finished := [];
      var at := 0;
      for i := 0 to |reqs|
        invariant at == Total(reqs[..i])
        invariant finished == Finished(cipher, reqs[..i], true)
      {
        TotalPrefix(reqs, i);
        OutputAt(cipher, reqs, i);
        SliceOfPrefix(Outputs(cipher, reqs), buffer, at, reqs[i].nbytes);
        var dst := CopyOut(reqs[i], buffer[at..at + reqs[i].nbytes]);
        assert reqs[..i + 1][..i] == reqs[..i];
        finished := finished + [Completion(reqs[i], Ok, Some(dst))];
        at := at + reqs[i].nbytes;
      }
      assert reqs[..|reqs|] == reqs;
    }
  }

  lemma BatchSubmittedIs(v: Device, v': Device, buf: Buffer, node: nat)
    requires node < |v.cmdbufs| && node < |v.cmdbufFree| && HaveSlots(v.reqs)
    requires v' == v.(cmdbufListEntry := node, cmdbufCnt := v'.cmdbufCnt)
    ensures BatchSubmitted(v', buf, node) == BatchSubmitted(v, buf, node)
  {
  }

  lemma NothingBehind(data: seq<Byte>, was: seq<Byte>)
    requires |was| == |data|
    ensures data + was[|data|..] == data
  {
  }

  ghost function FreeOf(free: seq<bool>): (k: nat)
    requires |free| == CHAIN
    ensures k < CHAIN && (true in free ==> free[k])
  {
    if true in free then var k: nat :| k < |free| && free[k]; k else 0
  }
}
