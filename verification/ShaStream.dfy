/** SHA streaming (tegra-se-nvhost.c): updates of any size are cut into whole blocks for
    the engine, the rest is kept in a residual buffer, and a closing call sends what is
    left. The engine reads memory when a submission runs, which is why the residue is
    moved to a second buffer before the first one is refilled. */
module ShaStream {
  import opened Arith
  import opened ScatterList

  const MAX_BLOCK := 128

  // ---------------------------------------------------------------- submissions

  /** What a submission asks of the engine: the message length and message left registers,
      the hash-initialisation bit, a data stream, and whether the digest goes where it
      should. `Garbled` stands for a buffer chain the engine cannot follow. */
  datatype Submission =
    | Job(msgLength: nat, msgLeft: nat, initHash: bool, data: seq<Byte>, directed: bool)
    | Garbled

  /** The engine's reading of the registers and a buffer chain, at the time it runs. */
  ghost function Meaning(msgLength: nat, msgLeft: nat, initHash: bool, chain: seq<Link>, mem: Memory): Submission {
    if WellFormed(chain)
    then Job(msgLength, msgLeft, initHash, mem.ReadAll(Sources(chain)), Directed(chain))
    else Garbled
  }

  // ---------------------------------------------------------------- specification

  /** A hash stream: block size, bytes kept back, the 32-bit byte counter, the
      first-submission flag and every submission made so far. */
  datatype Stream = Stream(blk: nat, residue: seq<Byte>, total: nat, first: bool,
                           log: seq<Submission>)

  /** What a call gives back to its caller: nothing yet, the canned digest of the empty
      message, a submission whose digest will be written, or an error. Two are no replies of
      the driver, which does not check for them. `Misdirected` is a submission whose digest
      goes to some other address, because the destination's length spilt into it; what memory
      holds once the engine has run is not known. `Overrun` is a request that needs more entries
      than there is room for; nothing is known from then on. */
  datatype Reply = Completed | EmptyDigest | Submitted | Misdirected | Einval | Overrun

  /** The reply to a submission whose destination was mapped with so many bytes. */
  function Sent(dst: nat): Reply { if dst < MAX_ENTRY then Submitted else Misdirected }

  /** The words of a command buffer of 4096 bytes, and what a submission of `n` entries takes
      of them: registers and the first entry, the further entries, the syncpoint. */
  const CMDBUF_WORDS := 1024

  function ShaWords(n: nat): nat { if n == 0 then 2 else 18 + 7 * (n - 1) + 2 }

  /** The command buffer holds 144 entries and not one more. */
  lemma ShaWordBound(n: nat)
    ensures ShaWords(n) <= CMDBUF_WORDS <==> n <= 144
  {
  }

  /** Is there room for `n` entries, in the list and as commands? */
  predicate Room(n: nat) { n <= LIST_ROOM && ShaWords(n) <= CMDBUF_WORDS }

  function LengthRegister(total: nat): nat { Wrap32(total * 8) }

  /** The message-left register: 8 bits more than the data when more is to come. */
  function LeftRegister(count: nat, last: bool): nat {
    var bits := Wrap32(count * 8);
    if last then bits else Wrap32(bits + 8)
  }

  /** An update. `fits` says that no mapped part overflows an entry's length field; when one
      does, the call fails after the counters and the residue have moved on. */
  function UpdateSpec(s: Stream, msg: seq<Byte>, fits: bool): (Stream, Reply)
    requires s.blk > 0
  {
    var cur := s.residue + msg;
    var take := RoundDown(|cur|, s.blk);
    if msg == [] then (s, Completed)
    else if take <= s.blk then (s.(residue := cur), Completed)
    else
      var total := Wrap32(s.total + take);
      var dst := InRequest(s, |msg|);
      var job := Job(LengthRegister(total), LeftRegister(take, false), s.first, cur[..take], dst < MAX_ENTRY);
      if fits
      then (Stream(s.blk, cur[take..], total, false, s.log + [job]), Sent(dst))
      else (Stream(s.blk, cur[take..], total, s.first, s.log), Einval)
  }

  /** The bytes an update takes from its own request, when it takes any. */
  function InRequest(s: Stream, nbytes: nat): nat
    requires s.blk > 0
  {
    var take := RoundDown(|s.residue| + nbytes, s.blk);
    if take < |s.residue| then 0 else take - |s.residue|
  }

  /** A closing submission over `data`, with a destination of `dst` bytes. */
  function CloseSpec(s: Stream, data: seq<Byte>, dst: nat, fits: bool): (Stream, Reply) {
    var total := Wrap32(s.total + |data|);
    var job := Job(LengthRegister(total), LeftRegister(|data|, true), s.first, data, dst < MAX_ENTRY);
    if fits
    then (Stream(s.blk, s.residue, total, false, s.log + [job]), Sent(dst))
    else (Stream(s.blk, s.residue, total, s.first, s.log), Einval)
  }

  /** A call whose request holds no bytes never reaches the engine. */
  function EmptyRequestSpec(s: Stream, last: bool): (Stream, Reply) {
    (s, if last && s.total == 0 then EmptyDigest else Completed)
  }

  /** finup and digest: close with the residue and the request. */
  function FinupSpec(s: Stream, msg: seq<Byte>, fits: bool): (Stream, Reply) {
    if msg == [] then EmptyRequestSpec(s, true) else CloseSpec(s, s.residue + msg, |msg|, fits)
  }

  /** final: the request's bytes are not used, only how many it has. */
  function FinalSpec(s: Stream, nbytes: nat): (Stream, Reply) {
    if nbytes == 0 then EmptyRequestSpec(s, true)
    else if s.residue == [] then (s, Completed)
    else CloseSpec(s, s.residue, nbytes, true)
  }

  // ---------------------------------------------------------------- the driver's context

  /** An asynchronous hash request: a scatter list and how many of its bytes count. */
  datatype Request = Request(src: Segments, nbytes: nat) {
    /** What the crypto layer guarantees: the list holds the bytes, and no request makes
        the driver's 32-bit sums of residue and request wrap. */
    ghost predicate Valid() {
      && nbytes <= |Flat(src)|
      && nbytes + 2 * MAX_BLOCK < TWO32
      && (nbytes > 0 ==> src != [] && src[0] != [])
    }

    ghost function Message(): seq<Byte>
      requires Valid()
    {
      Flat(src)[..nbytes]
    }

    /** The entries of a submission: all of the request's list, behind kept bytes. */
    function Entries(kept: nat): nat { |src| + if kept > 0 then 1 else 0 }

    /** No mapped part of the first `n` bytes overflows an entry's 24-bit length. */
    ghost predicate Fits(n: nat) {
      forall i :: 0 <= i < |src| ==> MappedLength(src, n, i) < MAX_ENTRY
    }
  }

  class ShaContext {
    var isFirst: bool
    var totalCount: nat
    var residualBytes: nat
    var blkSize: nat
    const buf0: array<Byte>
    const buf1: array<Byte>
    /** The bytes kept back, and the submissions the engine was given. */
    ghost var residue: seq<Byte>
    ghost var log: seq<Submission>

    ghost predicate Valid()
      reads this, buf0
    {
      && Shape()
      && |residue| == residualBytes < 2 * blkSize
      && buf0[..residualBytes] == residue
    }

    ghost predicate Shape()
      reads this
    {
      && buf0 != buf1 && buf0.Length == buf1.Length == 2 * MAX_BLOCK
      && 0 < blkSize <= MAX_BLOCK
    }

    ghost function View(): Stream
      reads this
    {
      Stream(blkSize, residue, totalCount, isFirst, log)
    }

    ghost function Mem(src: Segments): Memory
      reads buf0, buf1
    {
      Memory([buf0[..], buf1[..]], src)
    }

    /** tegra_se_sha_init, with the context's buffers allocated beforehand. */
    constructor (blk: nat)
      requires 0 < blk <= MAX_BLOCK
      ensures Valid() && fresh(buf0) && fresh(buf1)
      ensures View() == Stream(blk, [], 0, true, [])
    {
      buf0 := new Byte[2 * MAX_BLOCK];
      buf1 := new Byte[2 * MAX_BLOCK];
      isFirst, totalCount, residualBytes, blkSize := true, 0, 0, blk;
      residue, log := [], [];
    }

    /** tegra_se_send_sha_data and its caller's last lines: chain the buffers and, if that
        works, let the engine run on memory as it is now. */
    method Submit(lls: seq<LinkedEntry>, src: Segments, dst: nat, count: nat, last: bool)
      returns (reply: Reply)
      requires Covered(lls) == count > 0 && lls[0].dataLen > 0 && Room(|lls|)
      modifies this`log, this`isFirst
      ensures reply == if AllFit(lls) then Sent(dst) else Einval
      ensures isFirst == (reply == Einval && old(isFirst))
      ensures log == if reply == Einval then old(log) else
        old(log) + [Job(LengthRegister(totalCount), LeftRegister(count, last), old(isFirst),
                        Mem(src).ReadAll(lls), dst < MAX_ENTRY)]
    {
      var ok, chain := ChainBuffers(lls, count, Result(dst), true);
      if !ok {
        return Einval;
      }
      assert ShaWords(|chain|) <= CMDBUF_WORDS;
      var msgLength := Wrap32(totalCount * 8);
      var msgLeft := if last then Wrap32(count * 8) else Wrap32(Wrap32(count * 8) + 8);
      log := log + [Meaning(msgLength, msgLeft, isFirst, chain, Mem(src))];
      isFirst := false;
      reply := Sent(dst);
    }

    /** The one entry of the destination, a buffer mapped as `nbytes` long and cut to `n`. */
    static function DestinationLength(nbytes: nat, n: nat): nat { if nbytes < n then nbytes else n }

    /** The list for a submission: `kept` bytes of one of the context's buffers, when there
        are any, then the first `n` bytes of the request. */
    static method BuildList(req: Request, n: nat, which: nat, kept: nat) returns (lls: seq<LinkedEntry>)
      requires req.Valid() && 0 < n <= req.nbytes && which < 2 && kept <= 2 * MAX_BLOCK
      ensures Covered(lls) == kept + n && lls != [] && lls[0].dataLen > 0
      ensures |lls| == req.Entries(kept)
      ensures AllFit(lls) <==> req.Fits(n)
      ensures forall bufs: seq<seq<Byte>> :: |bufs| == 2 && |bufs[which]| == 2 * MAX_BLOCK ==>
        Memory(bufs, req.src).ReadAll(lls) == bufs[which][..kept] + Flat(req.src)[..n]
    {
      var mapped := MapSg(req.src, n);
      MappedFits(req, n, mapped);
      lls := mapped;
      if kept > 0 {
        var e := LinkedEntry(Buffer(which), kept);
        lls := [e] + mapped;
        InFront(e, mapped);
        forall bufs: seq<seq<Byte>> | |bufs| == 2 && |bufs[which]| == 2 * MAX_BLOCK
          ensures Memory(bufs, req.src).ReadAll(lls) == bufs[which][..kept] + Flat(req.src)[..n]
        {
          assert Memory(bufs, req.src).Read(e) == bufs[which][..kept];
        }
      }
    }

    /** The whole blocks in `n` bytes: how many, and how many bytes they make. */
    method BlocksIn(n: nat) returns (numBlks: nat, bytes: nat)
      requires Shape()
      ensures bytes == RoundDown(n, blkSize)
      ensures if numBlks <= 1 then bytes <= blkSize else bytes >= 2 * blkSize
    {
      numBlks := n / blkSize;
      bytes := numBlks * blkSize;
      RoundDownIsMultiple(n, blkSize);
      if numBlks <= 1 {
        MulMonotone(numBlks, 1, blkSize);
      } else {
        MulMonotone(2, numBlks, blkSize);
      }
    }

    /** tegra_se_sha_copy_residual_data: the request's last bytes become the residue. */
    method CopyResidualData(req: Request, bytesToCopy: nat)
      requires req.Valid() && bytesToCopy <= req.nbytes && bytesToCopy <= buf0.Length
      modifies buf0
      ensures buf0[..bytesToCopy] == Flat(req.src)[req.nbytes - bytesToCopy..req.nbytes]
    {
      var num := CountSgs(req.src, req.nbytes);
      PrefixSlice(req.src, num, req.nbytes - bytesToCopy, req.nbytes);
      CopyTail(req.src[..num], req.nbytes, bytesToCopy, buf0);
    }

    /** Moves the residue to the second buffer and puts the request's rest in the first. */
    method TurnBuffers(req: Request, rest: nat)
      requires Valid() && req.Valid() && rest <= req.nbytes && rest < 2 * blkSize
      modifies buf0, buf1, this`residualBytes, this`residue
      ensures Valid() && residue == Flat(req.src)[req.nbytes - rest..req.nbytes]
      ensures buf1[..][..old(residualBytes)] == old(residue)
    {
      ghost var kept := residue;
      if residualBytes > 0 {
        CopyInto(buf0[..residualBytes], buf1, 0, buf1.Length);
      }
      assert buf1[..][..|kept|] == kept;
      residualBytes := rest;
      CopyResidualData(req, rest);
      residue := buf0[..rest];
    }

    /** tegra_se_sha_process_buf for an update. */
    method ProcessUpdate(req: Request) returns (reply: Reply)
      requires Valid() && req.Valid() && req.nbytes > 0
      modifies this, buf0, buf1
      ensures reply == Overrun <==> UpdateOverruns(old(View()), req)
      ensures reply != Overrun ==> Valid()
      ensures reply != Overrun ==>
        (View(), reply) == UpdateSpec(old(View()), req.Message(),
                                      req.Fits(InRequest(old(View()), req.nbytes)))
    {
      ghost var cur := residue + req.Message();
      var currentTotal := req.nbytes + residualBytes;
      assert |cur| == currentTotal;
      var numBlks, whole := BlocksIn(currentTotal);
      if numBlks <= 1 {
        KeepAll(req);
        return Completed;
      }
      reply := SendBlocks(req, whole);
    }

    /** The request is short enough to be kept as a whole. */
    method KeepAll(req: Request)
      requires Valid() && req.Valid() && |residue| + req.nbytes < 2 * blkSize
      modifies this`residualBytes, this`residue, buf0
      ensures Valid() && residue == old(residue) + req.Message()
    {
      CopyInto(Flat(req.src)[..req.nbytes], buf0, residualBytes, buf0.Length);
      residualBytes := residualBytes + req.nbytes;
      residue := residue + req.Message();
    }

    /** The second half of an update: `whole` bytes go to the engine, the rest is kept. */
    method SendBlocks(req: Request, whole: nat) returns (reply: Reply)
      requires Valid() && req.Valid()
      requires 2 * blkSize <= whole <= residualBytes + req.nbytes < whole + blkSize
      modifies this, buf0, buf1
      ensures reply == Overrun <==> !Room(req.Entries(|old(residue)|))
      ensures reply != Overrun ==> Valid() && blkSize == old(blkSize)
      ensures reply != Overrun ==> totalCount == Wrap32(old(totalCount) + whole)
      ensures reply != Overrun ==> residue == (old(residue) + req.Message())[whole..]
      ensures reply != Overrun ==> reply == if req.Fits(whole - |old(residue)|)
        then Sent(whole - |old(residue)|) else Einval
      ensures reply != Overrun ==> isFirst == (reply == Einval && old(isFirst))
      ensures reply != Overrun ==> log == if reply == Einval then old(log) else
        old(log) + [Job(LengthRegister(totalCount), LeftRegister(whole, false), old(isFirst),
                        (old(residue) + req.Message())[..whole], whole - |old(residue)| < MAX_ENTRY)]
    {
      UpdateCut(residue, Flat(req.src), req.nbytes, whole);
      var kept := residualBytes;
      var inReq := whole - kept;
      WrapSum(totalCount + inReq, kept);
      totalCount := Wrap32(totalCount + inReq);
      totalCount := Wrap32(totalCount + kept);
      var lls := BuildList(req, inReq, 1, kept);
      if !Room(|lls|) {
        return Overrun;
      }
      TurnBuffers(req, kept + req.nbytes - whole);
      reply := Submit(lls, req.src, DestinationLength(req.nbytes, inReq), whole, false);
    }

    /** tegra_se_sha_process_buf for a closing call that brings bytes. */
    method ProcessFinup(req: Request) returns (reply: Reply)
      requires Valid() && req.Valid() && req.nbytes > 0
      modifies this
      ensures reply == Overrun <==> FinupOverruns(old(View()), req)
      ensures reply != Overrun ==> Valid()
      ensures reply != Overrun ==>
        (View(), reply) == FinupSpec(old(View()), req.Message(), req.Fits(req.nbytes))
    {
      var lls := BuildList(req, req.nbytes, 0, residualBytes);
      if !Room(|lls|) {
        return Overrun;
      }
      var currentTotal := req.nbytes + residualBytes;
      totalCount := Wrap32(totalCount + currentTotal);
      assert Mem(req.src).ReadAll(lls) == residue + req.Message();
      reply := Submit(lls, req.src, DestinationLength(req.nbytes, req.nbytes), currentTotal, true);
    }

    /** tegra_se_sha_process_buf for a closing call that does not. */
    method ProcessFinal(req: Request) returns (reply: Reply)
      requires Valid() && req.Valid() && req.nbytes > 0
      modifies this
      ensures Valid()
      ensures (View(), reply) == FinalSpec(old(View()), req.nbytes)
    {
      var currentTotal := residualBytes;
      if currentTotal == 0 {
        return Completed;
      }
      totalCount := Wrap32(totalCount + currentTotal);
      var lls := [LinkedEntry(Buffer(0), residualBytes)];
      assert Mem(req.src).ReadAll(lls) == residue;
      reply := Submit(lls, req.src, DestinationLength(req.nbytes, req.nbytes), currentTotal, true);
    }

    /** tegra_se_sha_update. */
    method Update(req: Request) returns (reply: Reply)
      requires Valid() && req.Valid()
      modifies this, buf0, buf1
      ensures reply == Overrun <==> UpdateOverruns(old(View()), req)
      ensures reply != Overrun ==> Valid()
      ensures reply != Overrun ==>
        (View(), reply) == UpdateSpec(old(View()), req.Message(),
                                      req.Fits(InRequest(old(View()), req.nbytes)))
    {
      if req.nbytes == 0 {
        return Completed;
      }
      reply := ProcessUpdate(req);
    }

    /** tegra_se_sha_finup; tegra_se_sha_digest is the same on a fresh context. */
    method Finup(req: Request) returns (reply: Reply)
      requires Valid() && req.Valid()
      modifies this
      ensures reply == Overrun <==> FinupOverruns(old(View()), req)
      ensures reply != Overrun ==> Valid()
      ensures reply != Overrun ==>
        (View(), reply) == FinupSpec(old(View()), req.Message(), req.Fits(req.nbytes))
    {
      if req.nbytes == 0 {
        reply := if totalCount > 0 then Completed else EmptyDigest;
        return;
      }
      reply := ProcessFinup(req);
    }

    /** tegra_se_sha_final. */
    method Final(req: Request) returns (reply: Reply)
      requires Valid() && req.Valid()
      modifies this
      ensures Valid()
      ensures (View(), reply) == FinalSpec(old(View()), req.nbytes)
    {
      if req.nbytes == 0 {
        reply := if totalCount > 0 then Completed else EmptyDigest;
        return;
      }
      reply := ProcessFinal(req);
    }
  }

  lemma MappedFits(req: Request, n: nat, mapped: seq<LinkedEntry>)
    requires mapped == Mapped(req.src, n, |req.src|)
    ensures AllFit(mapped) <==> req.Fits(n)
  {
    assert forall i :: 0 <= i < |mapped| ==> mapped[i].dataLen == MappedLength(req.src, n, i);
  }

  /** A short entry in front of a list. */
  lemma InFront(e: LinkedEntry, lls: seq<LinkedEntry>)
    requires e.dataLen < MAX_ENTRY
    ensures Covered([e] + lls) == e.dataLen + Covered(lls) && (AllFit([e] + lls) <==> AllFit(lls))
    ensures forall mem: Memory :: mem.ReadAll([e] + lls) == mem.Read(e) + mem.ReadAll(lls)
  {
    assert ([e] + lls)[1..] == lls;
    assert forall i :: 0 <= i < |lls| ==> ([e] + lls)[i + 1] == lls[i];
  }

  /** An update that reaches the engine with more entries than there is room for. */
  predicate UpdateOverruns(s: Stream, req: Request)
    requires s.blk > 0
  {
    req.nbytes > 0 && RoundDown(|s.residue| + req.nbytes, s.blk) > s.blk && !Room(req.Entries(|s.residue|))
  }

  /** And a closing call with bytes. */
  predicate FinupOverruns(s: Stream, req: Request) {
    req.nbytes > 0 && !Room(req.Entries(|s.residue|))
  }

  /** Cutting residue plus request after `whole` bytes: what is mapped from the request,
      and what its tail holds. */
  lemma UpdateCut(residue: seq<Byte>, flat: seq<Byte>, nbytes: nat, whole: nat)
    requires nbytes <= |flat|
    requires |residue| <= whole <= |residue| + nbytes
    ensures residue + flat[..whole - |residue|] == (residue + flat[..nbytes])[..whole]
    ensures flat[whole - |residue|..nbytes] == (residue + flat[..nbytes])[whole..]
  {
  }

  // ---------------------------------------------------------------- whole runs

  function Fresh(blk: nat): Stream { Stream(blk, [], 0, true, []) }

  /** Any number of updates, none with an oversized part. */
  function Run(s: Stream, msgs: Segments): (s': Stream)
    requires s.blk > 0
    ensures s'.blk == s.blk
    decreases |msgs|
  {
    if msgs == [] then s
    else UpdateSpec(Run(s, msgs[..|msgs| - 1]), msgs[|msgs| - 1], true).0
  }

  /** The bytes the engine was given, in order. */
  function Data(log: seq<Submission>): seq<Byte> {
    if log == [] then []
    else Data(log[..|log| - 1]) + (match log[|log| - 1] case Job(_, _, _, d, _) => d case Garbled => [])
  }

  /** What holds after the bytes `received` have come in and the stream is still open. */
  ghost predicate Open(s: Stream, received: seq<Byte>) {
    && 0 < s.blk
    && |s.residue| < 2 * s.blk
    && Data(s.log) + s.residue == received
    && s.total == Wrap32(|Data(s.log)|)
    && (s.first <==> s.log == [])
    && OpenJobs(s.log, s.blk)
  }

  ghost predicate OpenJobs(log: seq<Submission>, blk: nat)
    requires blk > 0
  {
    forall i :: 0 <= i < |log| ==> OpenJob(log[i], blk, i == 0)
  }

  /** A submission that leaves the hash open: whole blocks only, initialising the hash
      exactly when it is the first, and announcing more data than it carries. */
  ghost predicate OpenJob(job: Submission, blk: nat, first: bool)
    requires blk > 0
  {
    && job.Job?
    && RoundDown(|job.data|, blk) == |job.data| >= 2 * blk
    && job.initHash == first
    && job.msgLeft == LeftRegister(|job.data|, false)
  }

  lemma RoundDownTwice(n: nat, b: nat)
    requires b > 0
    ensures RoundDown(RoundDown(n, b), b) == RoundDown(n, b)
  {
    if n >= b { RoundDownTwice(n - b, b); }
  }

  lemma UpdateKeepsOpen(s: Stream, received: seq<Byte>, msg: seq<Byte>)
    requires Open(s, received)
    ensures Open(UpdateSpec(s, msg, true).0, received + msg)
  {
    var cur := s.residue + msg;
    var take := RoundDown(|cur|, s.blk);
    RoundDownTwice(|cur|, s.blk);
    assert received + msg == Data(s.log) + cur;
    if msg == [] {
      assert received + msg == received;
    } else if take > s.blk {
      AtLeastTwo(|cur|, s.blk);
      SendKeepsOpen(s, received, cur, take, InRequest(s, |msg|) < MAX_ENTRY, UpdateSpec(s, msg, true).0);
      assert Data(s.log) + cur == received + msg;
    }
  }

  lemma SendKeepsOpen(s: Stream, received: seq<Byte>, cur: seq<Byte>, take: nat, directed: bool, s': Stream)
    requires Open(s, received)
    requires RoundDown(take, s.blk) == take >= 2 * s.blk && take <= |cur| < take + s.blk
    requires s' == Stream(s.blk, cur[take..], Wrap32(s.total + take), false,
                          s.log + [Job(LengthRegister(Wrap32(s.total + take)),
                                       LeftRegister(take, false), s.first, cur[..take], directed)])
    ensures Open(s', Data(s.log) + cur)
  {
    var job := s'.log[|s.log|];
    DataSnoc(s.log, job);
    OpenJobsSnoc(s.log, job, s.blk);
    WrapSum(|Data(s.log)|, take);
    assert cur == cur[..take] + cur[take..];
    assert Data(s'.log) + s'.residue == Data(s.log) + (cur[..take] + cur[take..]);
  }

  lemma OpenJobsSnoc(log: seq<Submission>, job: Submission, blk: nat)
    requires blk > 0 && OpenJob(job, blk, log == []) && OpenJobs(log, blk)
    ensures OpenJobs(log + [job], blk)
  {
  }

  lemma DataSnoc(log: seq<Submission>, job: Submission)
    requires job.Job?
    ensures Data(log + [job]) == Data(log) + job.data
  {
    assert (log + [job])[..|log|] == log;
  }

  lemma AtLeastTwo(n: nat, b: nat)
    requires b > 0 && RoundDown(n, b) > b
    ensures RoundDown(n, b) >= 2 * b
  {
  }

  lemma {:induction false} RunStaysOpen(blk: nat, msgs: Segments)
    requires blk > 0
    ensures Open(Run(Fresh(blk), msgs), Flat(msgs))
  {
    if msgs != [] {
      var n := |msgs| - 1;
      RunStaysOpen(blk, msgs[..n]);
      UpdateKeepsOpen(Run(Fresh(blk), msgs[..n]), Flat(msgs[..n]), msgs[n]);
      FlatSnoc(msgs, n);
      assert msgs[..n + 1] == msgs;
    }
  }

  // ---------------------------------------------------------------- what the digest is

  /** A block hash: initial value, compression of one block, and the last step that takes
      the bytes behind the last whole block and the message length in bits. */
  datatype HashFunction<!H, D> = HashFunction(
    iv: H, compress: (H, seq<Byte>) -> H, finish: (H, seq<Byte>, nat) -> D)

  function Chain<H, D>(f: HashFunction<H, D>, blk: nat, h: H, data: seq<Byte>): H
    requires blk > 0
    decreases |data|
  {
    if |data| < blk then h else Chain(f, blk, f.compress(h, data[..blk]), data[blk..])
  }

  /** The hash of a message, all at once. */
  function Digest<H, D>(f: HashFunction<H, D>, blk: nat, msg: seq<Byte>): D
    requires blk > 0
  {
    f.finish(Chain(f, blk, f.iv, msg), msg[RoundDown(|msg|, blk)..], 8 * |msg|)
  }

  datatype Option<T> = None | Some(value: T)

  /** One submission on the engine: continue the kept hash value or start afresh, and
      finish exactly when the announced rest is the data itself. */
  function Execute<H, D>(f: HashFunction<H, D>, blk: nat, h: H, job: Submission): (H, Option<D>)
    requires blk > 0
  {
    match job
    case Garbled => (h, None)
    case Job(msgLength, msgLeft, initHash, data, _) =>
      var h' := Chain(f, blk, if initHash then f.iv else h, data);
      (h', if msgLeft == 8 * |data|
           then Some(f.finish(h', data[RoundDown(|data|, blk)..], msgLength)) else None)
  }

  function ExecuteAll<H, D>(f: HashFunction<H, D>, blk: nat, h: H, log: seq<Submission>): (H, Option<D>)
    requires blk > 0
  {
    if log == [] then (h, None)
    else Execute(f, blk, ExecuteAll(f, blk, h, log[..|log| - 1]).0, log[|log| - 1])
  }

  lemma {:induction false} ChainAppend<H, D>(f: HashFunction<H, D>, blk: nat, h: H,
                                             a: seq<Byte>, b: seq<Byte>)
    requires blk > 0 && RoundDown(|a|, blk) == |a|
    ensures Chain(f, blk, h, a + b) == Chain(f, blk, Chain(f, blk, h, a), b)
    ensures RoundDown(|a| + |b|, blk) == |a| + RoundDown(|b|, blk)
    decreases |a|
  {
    if a == [] {
      assert a + b == b;
    } else {
      assert (a + b)[..blk] == a[..blk] && (a + b)[blk..] == a[blk..] + b;
      ChainAppend(f, blk, f.compress(h, a[..blk]), a[blk..], b);
    }
  }

  /** Over an open stream the engine holds the chained value of all the data so far. */
  lemma {:induction false} OpenChain<H, D>(f: HashFunction<H, D>, blk: nat, h: H, log: seq<Submission>)
    requires blk > 0 && OpenJobs(log, blk)
    ensures RoundDown(|Data(log)|, blk) == |Data(log)|
    ensures log != [] ==> ExecuteAll(f, blk, h, log).0 == Chain(f, blk, f.iv, Data(log))
  {
    if log != [] {
      var before, job := log[..|log| - 1], log[|log| - 1];
      OpenChain(f, blk, h, before);
      assert OpenJob(job, blk, before == []);
      var sent := Data(before);
      assert before == [] ==> sent == [];
      ChainStep(f, blk, ExecuteAll(f, blk, h, before).0, sent, job);
    }
  }

  /** A submission on the chained value of what was sent before. */
  lemma ChainStep<H, D>(f: HashFunction<H, D>, blk: nat, h: H, sent: seq<Byte>, job: Submission)
    requires blk > 0 && job.Job? && RoundDown(|sent|, blk) == |sent| && RoundDown(|job.data|, blk) == |job.data|
    requires job.initHash ==> sent == []
    requires !job.initHash ==> h == Chain(f, blk, f.iv, sent)
    ensures RoundDown(|sent + job.data|, blk) == |sent + job.data|
    ensures Execute(f, blk, h, job).0 == Chain(f, blk, f.iv, sent + job.data)
  {
    ChainAppend(f, blk, f.iv, sent, job.data);
    if sent == [] { assert sent + job.data == job.data; }
  }

  const MAX_MESSAGE := 0x2000_0000

  lemma SmallRegisters(sent: nat, n: nat)
    requires sent + n < MAX_MESSAGE
    ensures LengthRegister(Wrap32(Wrap32(sent) + n)) == 8 * (sent + n)
    ensures LeftRegister(n, true) == 8 * n
  {
  }

  /** The length registers say the truth exactly below 2^29 bytes. */
  lemma RegistersExact(n: nat)
    ensures LengthRegister(Wrap32(n)) == 8 * n <==> n < MAX_MESSAGE
    ensures LeftRegister(n, true) == 8 * n <==> n < MAX_MESSAGE
  {
    Wrap32IsMod(n);
    Wrap32IsMod(n * 8);
    Wrap32IsMod(Wrap32(n) * 8);
  }

  /** The digest the engine makes for a stream closed over `data` is the one-shot hash of
      everything received, as long as the bit count fits the 32-bit length register. */
  lemma ClosedDigest<H, D>(f: HashFunction<H, D>, h: H, s: Stream, received: seq<Byte>, data: seq<Byte>, dst: nat)
    requires Open(s, received) && |Data(s.log) + data| < MAX_MESSAGE
    ensures ExecuteAll(f, s.blk, h, CloseSpec(s, data, dst, true).0.log).1
         == Some(Digest(f, s.blk, Data(s.log) + data))
  {
    var sent := Data(s.log);
    var log := CloseSpec(s, data, dst, true).0.log;
    var job := log[|s.log|];
    assert log[..|log| - 1] == s.log;
    SmallRegisters(|sent|, |data|);
    OpenChain(f, s.blk, h, s.log);
    assert job.initHash || ExecuteAll(f, s.blk, h, s.log).0 == Chain(f, s.blk, f.iv, sent);
    ClosingJob(f, s.blk, ExecuteAll(f, s.blk, h, s.log).0, sent, job);
  }

  /** A closing job run on the chained value of `sent` finishes the hash of it all. */
  lemma ClosingJob<H, D>(f: HashFunction<H, D>, blk: nat, h: H, sent: seq<Byte>, job: Submission)
    requires blk > 0 && job.Job? && RoundDown(|sent|, blk) == |sent|
    requires job.initHash ==> sent == []
    requires !job.initHash ==> h == Chain(f, blk, f.iv, sent)
    requires job.msgLeft == 8 * |job.data| && job.msgLength == 8 * |sent + job.data|
    ensures Execute(f, blk, h, job).1 == Some(Digest(f, blk, sent + job.data))
  {
    ChainAppend(f, blk, f.iv, sent, job.data);
    var k := RoundDown(|job.data|, blk);
    assert (sent + job.data)[|sent| + k..] == job.data[k..];
    if sent == [] {
      assert sent + job.data == job.data;
    }
  }

  // ---------------------------------------------------------------- where it goes

  /** Every submission's digest goes where it should. */
  ghost predicate AllDirected(log: seq<Submission>) {
    forall i :: 0 <= i < |log| ==> log[i].Job? && log[i].directed
  }

  /** What is known to be in the caller's buffer when the engine is through: the last digest,
      unless some digest went to another place. */
  ghost function Delivered<H, D>(f: HashFunction<H, D>, blk: nat, h: H, log: seq<Submission>): Option<D>
    requires blk > 0
  {
    if AllDirected(log) then ExecuteAll(f, blk, h, log).1 else None
  }

  /** An update that takes 2^24 bytes or more of its request to the engine. */
  predicate UpdateMisdirects(s: Stream, nbytes: nat)
    requires s.blk > 0
  {
    nbytes > 0 && RoundDown(|s.residue| + nbytes, s.blk) > s.blk && InRequest(s, nbytes) >= MAX_ENTRY
  }

  /** No update of a run does. */
  predicate RunDirected(blk: nat, msgs: Segments)
    requires blk > 0
    decreases |msgs|
  {
    msgs == [] ||
    (RunDirected(blk, msgs[..|msgs| - 1])
     && !UpdateMisdirects(Run(Fresh(blk), msgs[..|msgs| - 1]), |msgs[|msgs| - 1]|))
  }

  /** The replies that are misdirected, exactly. */
  lemma MisdirectedExactly(s: Stream, msg: seq<Byte>, fits: bool, nbytes: nat)
    requires s.blk > 0
    ensures UpdateSpec(s, msg, fits).1 == Misdirected <==> fits && UpdateMisdirects(s, |msg|)
    ensures FinupSpec(s, msg, fits).1 == Misdirected <==> fits && |msg| >= MAX_ENTRY
    ensures FinalSpec(s, nbytes).1 == Misdirected <==> s.residue != [] && nbytes >= MAX_ENTRY
  {
  }

  lemma DirectedSnoc(log: seq<Submission>, job: Submission)
    ensures AllDirected(log + [job]) <==> AllDirected(log) && job.Job? && job.directed
  {
    assert (log + [job])[|log|] == job;
    assert forall i :: 0 <= i < |log| ==> (log + [job])[i] == log[i];
  }

  /** Over every run, all submissions are directed exactly when no update misdirects. */
  lemma {:induction false} DirectedRun(blk: nat, msgs: Segments)
    requires blk > 0
    ensures AllDirected(Run(Fresh(blk), msgs).log) <==> RunDirected(blk, msgs)
    decreases |msgs|
  {
    if msgs != [] {
      var before, msg := msgs[..|msgs| - 1], msgs[|msgs| - 1];
      DirectedRun(blk, before);
      DirectedUpdate(Run(Fresh(blk), before), msg);
    }
  }

  lemma DirectedUpdate(s: Stream, msg: seq<Byte>)
    requires s.blk > 0
    ensures AllDirected(UpdateSpec(s, msg, true).0.log) <==> AllDirected(s.log) && !UpdateMisdirects(s, |msg|)
  {
    var s' := UpdateSpec(s, msg, true).0;
    if |s'.log| > |s.log| { DirectedSnoc(s.log, s'.log[|s.log|]); }
  }

  /** Updates of less than 2^24 bytes do not. */
  lemma {:induction false} SmallUpdates(blk: nat, msgs: Segments)
    requires blk > 0 && forall i :: 0 <= i < |msgs| ==> |msgs[i]| < MAX_ENTRY
    ensures RunDirected(blk, msgs)
    decreases |msgs|
  {
    if msgs != [] { SmallUpdates(blk, msgs[..|msgs| - 1]); }
  }

  lemma DirectedClose(blk: nat, updates: Segments, data: seq<Byte>, dst: nat)
    requires blk > 0
    ensures AllDirected(CloseSpec(Run(Fresh(blk), updates), data, dst, true).0.log)
      <==> RunDirected(blk, updates) && dst < MAX_ENTRY
  {
    var s := Run(Fresh(blk), updates);
    DirectedRun(blk, updates);
    DirectedSnoc(s.log, CloseSpec(s, data, dst, true).0.log[|s.log|]);
  }

  /** One finup of two segments of 2^23 bytes: every check passes, and the digest goes
      somewhere else. */
  lemma TwoHalves(blk: nat, half: seq<Byte>, req: Request)
    requires blk > 0 && |half| == 0x80_0000 && req == Request([half, half], 0x100_0000)
    ensures req.Valid() && req.Fits(req.nbytes) && !FinupOverruns(Fresh(blk), req)
    ensures FinupSpec(Fresh(blk), req.Message(), req.Fits(req.nbytes)).1 == Misdirected
  {
    assert Flat([half]) == half + Flat([]) == half;
    assert [half, half][1..] == [half];
    assert Flat(req.src) == half + half;
  }

  /** SHA streaming: however a message is cut into updates and a non-empty closing request,
      the digest delivered is the one-shot hash of the message. */
  lemma StreamedHash<H, D>(f: HashFunction<H, D>, blk: nat, h: H, updates: Segments, last: seq<Byte>)
    requires blk > 0 && last != [] && |Flat(updates) + last| < MAX_MESSAGE
    requires RunDirected(blk, updates) && |last| < MAX_ENTRY
    ensures var (s, reply) := FinupSpec(Run(Fresh(blk), updates), last, true);
      && reply == Submitted
      && Delivered(f, blk, h, s.log) == Some(Digest(f, blk, Flat(updates) + last))
  {
    WithLast(blk, updates, last);
    ClosedStream(f, blk, h, updates, Run(Fresh(blk), updates).residue + last, |last|);
  }

  lemma ClosedStream<H, D>(f: HashFunction<H, D>, blk: nat, h: H, updates: Segments, data: seq<Byte>, dst: nat)
    requires blk > 0 && |Data(Run(Fresh(blk), updates).log) + data| < MAX_MESSAGE
    requires RunDirected(blk, updates) && dst < MAX_ENTRY
    ensures var s := Run(Fresh(blk), updates);
      Delivered(f, blk, h, CloseSpec(s, data, dst, true).0.log) == Some(Digest(f, blk, Data(s.log) + data))
  {
    RunStaysOpen(blk, updates);
    ClosedDigest(f, h, Run(Fresh(blk), updates), Flat(updates), data, dst);
    DirectedClose(blk, updates, data, dst);
  }

  /** The message is what was submitted, what was kept and what comes last. */
  lemma WithLast(blk: nat, updates: Segments, last: seq<Byte>)
    requires blk > 0
    ensures var s := Run(Fresh(blk), updates); Data(s.log) + (s.residue + last) == Flat(updates) + last
  {
    RunStaysOpen(blk, updates);
  }

  /** A hash whose last step tells lengths apart, as SHA's padding does. */
  ghost predicate TellsLengths<H(!new), D>(f: HashFunction<H, D>) {
    forall h, tail, m: nat, n: nat {:trigger f.finish(h, tail, m), f.finish(h, tail, n)} ::
      f.finish(h, tail, m) == f.finish(h, tail, n) ==> m == n
  }

  /** Over every run, the closing submission announces the message's true length exactly when
      the message is below 2^29 bytes. */
  lemma AnnouncedLength(blk: nat, updates: Segments, last: seq<Byte>)
    requires blk > 0 && last != []
    ensures var log := FinupSpec(Run(Fresh(blk), updates), last, true).0.log;
      && log != [] && log[|log| - 1].Job?
      && (log[|log| - 1].msgLength == 8 * |Flat(updates) + last| <==> |Flat(updates) + last| < MAX_MESSAGE)
  {
    RunStaysOpen(blk, updates);
    var s := Run(Fresh(blk), updates);
    var n := |s.residue + last|;
    WrapSum(|Data(s.log)|, n);
    assert |Data(s.log)| + n == |Flat(updates) + last|;
    RegistersExact(|Flat(updates) + last|);
  }

  /** What is delivered is the hash of the message, if the hash tells lengths apart, exactly
      when in addition no submission takes 2^24 bytes of its request. */
  lemma StreamedHashExact<H(!new), D>(f: HashFunction<H, D>, blk: nat, h: H, updates: Segments, last: seq<Byte>)
    requires blk > 0 && last != [] && TellsLengths(f)
    ensures var s, msg := FinupSpec(Run(Fresh(blk), updates), last, true).0, Flat(updates) + last;
      Delivered(f, blk, h, s.log) == Some(Digest(f, blk, msg))
      <==> |msg| < MAX_MESSAGE && RunDirected(blk, updates) && |last| < MAX_ENTRY
  {
    var s, msg := Run(Fresh(blk), updates), Flat(updates) + last;
    DirectedClose(blk, updates, s.residue + last, |last|);
    if |msg| >= MAX_MESSAGE {
      RunStaysOpen(blk, updates);
      AnnouncedLength(blk, updates, last);
      ClosedWrongly(f, h, s, Flat(updates), last, msg);
    } else if RunDirected(blk, updates) && |last| < MAX_ENTRY {
      StreamedHash(f, blk, h, updates, last);
    }
  }

  lemma ClosedWrongly<H(!new), D>(f: HashFunction<H, D>, h: H, s: Stream, received: seq<Byte>,
                                  last: seq<Byte>, msg: seq<Byte>)
    requires Open(s, received) && TellsLengths(f) && last != [] && msg == received + last
    requires var log := FinupSpec(s, last, true).0.log;
      log[|log| - 1].msgLength != 8 * |msg|
    ensures ExecuteAll(f, s.blk, h, FinupSpec(s, last, true).0.log).1 != Some(Digest(f, s.blk, msg))
  {
    assert Data(s.log) + (s.residue + last) == msg;
    WrongLength(f, s.blk, h, s, s.residue + last, |last|, msg);
  }

  lemma WrongLength<H(!new), D>(f: HashFunction<H, D>, blk: nat, h: H, s: Stream,
                                data: seq<Byte>, dst: nat, msg: seq<Byte>)
    requires blk == s.blk > 0 && OpenJobs(s.log, blk) && TellsLengths(f) && (s.first <==> s.log == [])
    requires msg == Data(s.log) + data
    requires var log := CloseSpec(s, data, dst, true).0.log;
      log[|s.log|].msgLength != 8 * |msg|
    ensures ExecuteAll(f, blk, h, CloseSpec(s, data, dst, true).0.log).1 != Some(Digest(f, blk, msg))
  {
    var sent, log := Data(s.log), CloseSpec(s, data, dst, true).0.log;
    var job := log[|s.log|];
    assert log[..|log| - 1] == s.log;
    OpenChain(f, blk, h, s.log);
    ChainAppend(f, blk, f.iv, sent, data);
    var k := RoundDown(|data|, blk);
    assert (sent + data)[|sent| + k..] == data[k..];
    var end := Chain(f, blk, f.iv, sent + data);
    assert f.finish(end, data[k..], job.msgLength) != f.finish(end, data[k..], 8 * |sent + data|);
  }

  /** A message of 2^29 bytes is announced as empty, however small the calls. */
  lemma HalfGigabyte(blk: nat, updates: Segments, last: seq<Byte>)
    requires blk > 0 && last != [] && |Flat(updates) + last| == 0x2000_0000
    ensures var log := FinupSpec(Run(Fresh(blk), updates), last, true).0.log;
      log != [] && log[|log| - 1].Job? && log[|log| - 1].msgLength == 0
  {
    RunStaysOpen(blk, updates);
    var s := Run(Fresh(blk), updates);
    WrapSum(|Data(s.log)|, |s.residue + last|);
    assert |Data(s.log)| + |s.residue + last| == 0x2000_0000;
    Wrap32IsMod(0x2000_0000);
    Wrap32IsMod(0x1_0000_0000);
  }

  // ---------------------------------------------------------------- what a caller gets

  /** What a closing call makes available to its caller: the digest of some bytes, none, or
      something else, because a length was announced wrongly or a digest misdirected. */
  datatype Answer = DigestOf(bytes: seq<Byte>) | NoDigest | SomethingElse

  /** The last submission of a log announces the log's true length. */
  ghost predicate Announces(log: seq<Submission>) {
    log != [] && log[|log| - 1].Job? && log[|log| - 1].msgLength == 8 * |Data(log)|
  }

  ghost function AnswerOf(closed: (Stream, Reply)): Answer {
    match closed.1
    case Submitted =>
      if Announces(closed.0.log) && AllDirected(closed.0.log) then DigestOf(Data(closed.0.log)) else SomethingElse
    case Misdirected => SomethingElse
    case EmptyDigest => DigestOf([])
    case _ => NoDigest
  }

  lemma ClosedAnswer(blk: nat, updates: Segments, data: seq<Byte>, dst: nat)
    requires blk > 0
    ensures var s := Run(Fresh(blk), updates);
      AnswerOf(CloseSpec(s, data, dst, true))
        == if |Data(s.log) + data| < MAX_MESSAGE && RunDirected(blk, updates) && dst < MAX_ENTRY
           then DigestOf(Data(s.log) + data) else SomethingElse
  {
    RunStaysOpen(blk, updates);
    var s := Run(Fresh(blk), updates);
    DirectedClose(blk, updates, data, dst);
    CloseData(s, data, dst);
    WrapSum(|Data(s.log)|, |data|);
    RegistersExact(|Data(s.log) + data|);
  }

  /** finup answers for the whole message exactly when its request has bytes, the message's
      length can be announced and no call takes 2^24 bytes of its request, or when the message
      is empty; an empty finup behind earlier data never reaches the engine. */
  lemma FinupAnswer(blk: nat, updates: Segments, last: seq<Byte>)
    requires blk > 0
    ensures AnswerOf(FinupSpec(Run(Fresh(blk), updates), last, true)) == DigestOf(Flat(updates) + last)
      <==> if last == [] then Flat(updates) == []
           else |Flat(updates) + last| < MAX_MESSAGE && RunDirected(blk, updates) && |last| < MAX_ENTRY
  {
    if last == [] {
      RunStaysOpen(blk, updates);
      assert Flat(updates) + last == Flat(updates);
    } else {
      WithLast(blk, updates, last);
      ClosedAnswer(blk, updates, Run(Fresh(blk), updates).residue + last, |last|);
    }
  }

  /** final answers for the whole message exactly when the guards it tests let it, with a
      request that has bytes it needs a residue, without one the message must be empty, and
      under the conditions of finup. */
  lemma FinalAnswer(blk: nat, updates: Segments, nbytes: nat)
    requires blk > 0
    ensures var s := Run(Fresh(blk), updates);
      AnswerOf(FinalSpec(s, nbytes)) == DigestOf(Flat(updates))
      <==> if nbytes == 0 then Flat(updates) == []
           else s.residue != [] && |Flat(updates)| < MAX_MESSAGE && RunDirected(blk, updates) && nbytes < MAX_ENTRY
  {
    RunStaysOpen(blk, updates);
    var s := Run(Fresh(blk), updates);
    ClosedAnswer(blk, updates, s.residue, nbytes);
  }

  lemma CloseData(s: Stream, data: seq<Byte>, dst: nat)
    ensures Data(CloseSpec(s, data, dst, true).0.log) == Data(s.log) + data
  {
    DataSnoc(s.log, CloseSpec(s, data, dst, true).0.log[|s.log|]);
  }

  /** A message of two blocks, hashed by one update and a final: no digest is delivered. */
  lemma FinalLosesWholeBlocks(block: seq<Byte>)
    requires |block| == 2 * 64
    ensures AnswerOf(FinalSpec(Run(Fresh(64), [block]), |block|)) == NoDigest
  {
    var s := Run(Fresh(64), []);
    assert [block][..0] == [];
    assert s.residue + block == block;
    assert RoundDown(128, 64) == 64 + RoundDown(64, 64);
  }
}
