/** What the AES batch engine is meant to do (tegra-se-nvhost.c), as functions: the bytes a
    batch gathers, the commands it needs, the hardware's reading of those commands, and the
    bytes that come back. */
module AesBatch {
  import opened ScatterList

  const MAX_TASKS := 64
  const BLOCK := 16
  const SLOT_WORDS := 4096

  type Iv = s: seq<Byte> | |s| == 16 witness [0, 0, 0, 0, 0, 0, 0, 0, 0, 0, 0, 0, 0, 0, 0, 0]

  datatype Option<T> = None | Some(value: T)

  datatype Mode = Ecb | Cbc | Ctr | Ofb | Xts

  /** The engine's configuration words: mode, direction, key length and key slot. */
  datatype Params = Params(mode: Mode, encrypt: bool, keylen: nat, slot: nat)

  /** The hardware cipher of one key slot setting, for given configuration and vector. */
  type Cipher = (Params, Iv, seq<Byte>) -> seq<Byte>

  ghost predicate LengthPreserving(cipher: Cipher) {
    forall p, iv, data :: |cipher(p, iv, data)| == |data|
  }

  /** An ablkcipher request. `slot` is the key slot of its context, if it has one. */
  datatype Request = Request(id: nat, mode: Mode, encrypt: bool, keylen: nat, slot: Option<nat>,
                             info: Option<Iv>, src: Segments, dst: Segments, nbytes: nat) {
    /** What the crypto layer guarantees: lists that hold the bytes, whole blocks (every
        cipher is registered with the AES block size) and a vector where the mode has one. */
    ghost predicate Valid() {
      && nbytes <= |Flat(src)| && nbytes <= |Flat(dst)|
      && nbytes % BLOCK == 0
      && (mode != Ecb ==> info.Some?)
    }

    function Settings(): Params
      requires slot.Some?
    {
      Params(mode, encrypt, keylen, slot.value)
    }

    function Input(): seq<Byte>
      requires nbytes <= |Flat(src)|
    {
      Flat(src)[..nbytes]
    }

    /** The vector the hardware is to use; ECB uses none. */
    function Vector(): Iv
      requires mode != Ecb ==> info.Some?
    {
      if mode == Ecb then NoVector else info.value
    }
  }

  const NoVector: Iv := [0, 0, 0, 0, 0, 0, 0, 0, 0, 0, 0, 0, 0, 0, 0, 0]

  ghost predicate ValidBatch(reqs: seq<Request>) {
    forall i :: 0 <= i < |reqs| ==> reqs[i].Valid()
  }

  predicate HaveSlots(reqs: seq<Request>) {
    forall i :: 0 <= i < |reqs| ==> reqs[i].slot.Some?
  }

  /** The result a request is owed. */
  ghost function Output(cipher: Cipher, r: Request): seq<Byte>
    requires r.Valid() && r.slot.Some?
  {
    cipher(r.Settings(), r.Vector(), r.Input())
  }

  // ---------------------------------------------------------------- gather and scatter

  function Total(reqs: seq<Request>): nat {
    if reqs == [] then 0 else Total(reqs[..|reqs| - 1]) + reqs[|reqs| - 1].nbytes
  }

  ghost function Inputs(reqs: seq<Request>): (data: seq<Byte>)
    requires ValidBatch(reqs)
    ensures |data| == Total(reqs)
  {
    if reqs == [] then [] else Inputs(reqs[..|reqs| - 1]) + reqs[|reqs| - 1].Input()
  }

  ghost function Outputs(cipher: Cipher, reqs: seq<Request>): (data: seq<Byte>)
    requires ValidBatch(reqs) && HaveSlots(reqs) && LengthPreserving(cipher)
    ensures |data| == Total(reqs)
  {
    if reqs == [] then []
    else Outputs(cipher, reqs[..|reqs| - 1]) + Output(cipher, reqs[|reqs| - 1])
  }

  lemma {:induction false} TotalPrefix(reqs: seq<Request>, i: nat)
    requires i <= |reqs|
    ensures Total(reqs[..i]) <= Total(reqs)
    ensures i < |reqs| ==> Total(reqs[..i]) + reqs[i].nbytes == Total(reqs[..i + 1]) <= Total(reqs)
    decreases |reqs|
  {
    if i < |reqs| {
      var n := |reqs| - 1;
      assert reqs[..i + 1][..i] == reqs[..i];
      if i == n {
        assert reqs[..n + 1] == reqs;
      } else {
        TotalPrefix(reqs[..n], i);
        assert reqs[..n][..i] == reqs[..i] && reqs[..n][..i + 1] == reqs[..i + 1];
      }
    } else {
      assert reqs[..i] == reqs;
    }
  }

  /** Where a request's result lies in the batch's results: behind those of the requests
      before it. */
  lemma {:induction false} OutputAt(cipher: Cipher, reqs: seq<Request>, i: nat)
    requires i < |reqs| && ValidBatch(reqs) && HaveSlots(reqs) && LengthPreserving(cipher)
    ensures Total(reqs[..i]) + reqs[i].nbytes <= Total(reqs)
    ensures Slice(Outputs(cipher, reqs), Total(reqs[..i]), reqs[i].nbytes) == Output(cipher, reqs[i])
    decreases |reqs|
  {
    var n := |reqs| - 1;
    if i < n {
      OutputAt(cipher, reqs[..n], i);
      assert reqs[..n][..i] == reqs[..i];
      SliceOfPrefix(Outputs(cipher, reqs[..n]), Outputs(cipher, reqs), Total(reqs[..i]), reqs[i].nbytes);
    }
  }

  function Slice(data: seq<Byte>, at: nat, n: nat): seq<Byte>
    requires at + n <= |data|
  {
    data[at..at + n]
  }

  lemma SliceOfPrefix(a: seq<Byte>, b: seq<Byte>, at: nat, n: nat)
    requires a <= b && at + n <= |a|
    ensures Slice(a, at, n) == Slice(b, at, n)
  {
  }

  /** sg_copy_from_buffer: fill the segments in order, leave what is behind the data. */
  function Scatter(dst: Segments, data: seq<Byte>): Segments {
    if dst == [] then []
    else
      var n := Min(|dst[0]|, |data|);
      [data[..n] + dst[0][n..]] + Scatter(dst[1..], data[n..])
  }

  lemma {:induction false} ScatterFills(dst: Segments, data: seq<Byte>)
    requires |data| <= |Flat(dst)|
    ensures Flat(Scatter(dst, data)) == data + Flat(dst)[|data|..]
    decreases |dst|
  {
    if dst != [] {
      var n := Min(|dst[0]|, |data|);
      var head := data[..n] + dst[0][n..];
      ScatterFills(dst[1..], data[n..]);
      assert Scatter(dst, data) == [head] + Scatter(dst[1..], data[n..]);
      ScatterStep(dst[0], Flat(dst[1..]), data, n);
    }
  }

  lemma ScatterStep(first: seq<Byte>, rest: seq<Byte>, data: seq<Byte>, n: nat)
    requires n == Min(|first|, |data|) && |data| <= |first + rest|
    ensures data[..n] + first[n..] + (data[n..] + rest[|data| - n..])
         == data + (first + rest)[|data|..]
  {
  }

  // ---------------------------------------------------------------- commands

  /** A buffer the engine works in: one of the static ones, or one allocated for a batch. */
  datatype Buffer = Static(index: nat) | Dynamic(number: nat)

  /** The driver's command groups. `Start` is one in-place operation on a region. */
  datatype Command =
    | Dummy
    | LoadIv(slot: nat, iv: Iv)
    | LoadCounter(iv: Iv)
    | LoadKey(slot: nat, keylen: nat)
    | Start(lastBlock: int, params: Params, buf: Buffer, off: nat, len: nat)
    | IncrSyncpt

  /** The words a group takes in a command buffer: opcode and data words. */
  function Words(c: Command): nat {
    match c
    case Dummy => 2
    case LoadIv(_, _) => 4 * 4
    case LoadCounter(_) => 2 + 5
    case LoadKey(_, keylen) => keylen / 4 * 4
    case Start(_, _, _, _, _) => 2 + 7 + 2
    case IncrSyncpt => 2
  }

  function WordsOf(cmds: seq<Command>): nat {
    if cmds == [] then 0 else WordsOf(cmds[..|cmds| - 1]) + Words(cmds[|cmds| - 1])
  }

  lemma WordsSnoc(cmds: seq<Command>, c: Command)
    ensures WordsOf(cmds + [c]) == WordsOf(cmds) + Words(c)
  {
    assert (cmds + [c])[..|cmds|] == cmds;
  }

  /** The commands for one request: its vector, then its operation. Only the first vector of
      a command buffer is preceded by a dummy operation. */
  function VectorCommands(r: Request, first: bool): seq<Command>
    requires r.slot.Some?
  {
    if r.info.None? then []
    else if r.mode == Ctr || r.mode == Xts then [LoadCounter(r.info.value)]
    else (if first then [Dummy] else []) + [LoadIv(r.slot.value, r.info.value)]
  }

  function DataCommands(r: Request, buf: Buffer, off: nat): seq<Command>
    requires r.slot.Some?
  {
    if r.nbytes == 0 then []
    else [Start(r.nbytes / BLOCK - 1, r.Settings(), buf, off, r.nbytes)]
  }

  function Commands(reqs: seq<Request>, buf: Buffer): seq<Command>
    requires HaveSlots(reqs)
  {
    if reqs == [] then []
    else
      var before, r := reqs[..|reqs| - 1], reqs[|reqs| - 1];
      var cmds := Commands(before, buf);
      cmds + VectorCommands(r, cmds == []) + DataCommands(r, buf, Total(before))
  }

  // ---------------------------------------------------------------- hardware

  /** The vector registers of the key slots, the counter register and memory. */
  datatype Hardware = Hardware(ivs: map<nat, Iv>, counter: Iv, mem: map<Buffer, seq<Byte>>)

  function VectorFor(hw: Hardware, p: Params): Iv {
    match p.mode
    case Ecb => NoVector
    case Ctr => hw.counter
    case Xts => hw.counter
    case _ => if p.slot in hw.ivs then hw.ivs[p.slot] else NoVector
  }

  /** One command. An operation whose block count does not match its length, or whose region
      is not in memory, does nothing. A length that spills into the address bits of its
      command word leaves nothing known. */
  function Execute(cipher: Cipher, hw: Hardware, c: Command): Option<Hardware> {
    match c
    case Dummy => Some(hw)
    case IncrSyncpt => Some(hw)
    case LoadKey(_, _) => Some(hw)
    case LoadIv(slot, iv) => Some(hw.(ivs := hw.ivs[slot := iv]))
    case LoadCounter(iv) => Some(hw.(counter := iv))
    case Start(lastBlock, p, buf, off, len) =>
      if len >= MAX_ENTRY then None
      else if buf in hw.mem && off + len <= |hw.mem[buf]| && (lastBlock + 1) * BLOCK == len then
        var m := hw.mem[buf];
        var out := cipher(p, VectorFor(hw, p), m[off..off + len]);
        Some(hw.(mem := hw.mem[buf := m[..off] + out + m[off + len..]]))
      else Some(hw)
  }

  function Run(cipher: Cipher, hw: Hardware, cmds: seq<Command>): Option<Hardware> {
    if cmds == [] then Some(hw)
    else
      var before := Run(cipher, hw, cmds[..|cmds| - 1]);
      if before.None? then None else Execute(cipher, before.value, cmds[|cmds| - 1])
  }

  lemma {:induction false} RunAppend(cipher: Cipher, hw: Hardware, a: seq<Command>, b: seq<Command>)
    ensures Run(cipher, hw, a + b) ==
      if Run(cipher, hw, a).None? then None else Run(cipher, Run(cipher, hw, a).value, b)
    decreases |b|
  {
    if b == [] {
      assert a + b == a;
    } else {
      var n := |b| - 1;
      RunAppend(cipher, hw, a, b[..n]);
      assert (a + b)[..|a| + n] == a + b[..n];
    }
  }

  /** Every request's length goes in the length field. */
  predicate AllShort(reqs: seq<Request>) {
    forall i :: 0 <= i < |reqs| ==> reqs[i].nbytes < MAX_ENTRY
  }

  /** The vector commands set the vector the request asked for and touch no memory. */
  lemma VectorLoaded(cipher: Cipher, hw: Hardware, r: Request, first: bool)
    requires r.Valid() && r.slot.Some?
    ensures var hw' := Run(cipher, hw, VectorCommands(r, first));
      hw'.Some? && hw'.value.mem == hw.mem && VectorFor(hw'.value, r.Settings()) == r.Vector()
  {
    if r.info.Some? {
      RunOne(cipher, hw, Dummy);
      if r.mode == Ctr || r.mode == Xts {
        RunOne(cipher, hw, LoadCounter(r.info.value));
      } else {
        var load := LoadIv(r.slot.value, r.info.value);
        RunOne(cipher, hw, load);
        RunAppend(cipher, hw, [Dummy], [load]);
        assert [] + [load] == [load];
      }
    }
  }

  lemma RunOne(cipher: Cipher, hw: Hardware, c: Command)
    ensures Run(cipher, hw, [c]) == Execute(cipher, hw, c)
  {
    assert [c][..0] == [];
  }

  /** Did the commands run as meant, and leave that in the buffer? */
  ghost predicate Leaves(run: Option<Hardware>, hw: Hardware, buf: Buffer, bytes: seq<Byte>) {
    run.Some? && run.value.mem == hw.mem[buf := bytes]
  }

  /** Running a batch's commands turns the gathered inputs into the results, in place, exactly
      if every request is shorter than 2^24 bytes: every request's region then holds its own
      result, whatever the batch, whatever lies behind it in the buffer and whatever was
      loaded in the hardware before. */
  lemma {:induction false} BatchRuns(cipher: Cipher, hw: Hardware, reqs: seq<Request>, buf: Buffer,
                                     tail: seq<Byte>)
    requires ValidBatch(reqs) && HaveSlots(reqs) && LengthPreserving(cipher)
    requires buf in hw.mem && hw.mem[buf] == Inputs(reqs) + tail
    ensures var run := Run(cipher, hw, Commands(reqs, buf));
      if AllShort(reqs) then Leaves(run, hw, buf, Outputs(cipher, reqs) + tail) else run == None
    decreases |reqs|
  {
    if reqs != [] {
      var before, r := reqs[..|reqs| - 1], reqs[|reqs| - 1];
      assert before + [r] == reqs;
      ShortSnoc(before, r);
      Regroup(Inputs(before), r.Input(), tail);
      BatchRuns(cipher, hw, before, buf, r.Input() + tail);
      BatchStep(cipher, hw, before, r, buf, tail);
    } else {
      assert hw.mem == hw.mem[buf := hw.mem[buf]];
    }
  }

  lemma ShortSnoc(reqs: seq<Request>, r: Request)
    ensures AllShort(reqs + [r]) <==> AllShort(reqs) && r.nbytes < MAX_ENTRY
  {
    assert (reqs + [r])[|reqs|] == r;
    assert forall i :: 0 <= i < |reqs| ==> (reqs + [r])[i] == reqs[i];
  }

  /** One request more. */
  lemma BatchStep(cipher: Cipher, hw: Hardware, before: seq<Request>, r: Request, buf: Buffer, tail: seq<Byte>)
    requires ValidBatch(before) && HaveSlots(before) && LengthPreserving(cipher)
    requires r.Valid() && r.slot.Some? && buf in hw.mem
    requires var run := Run(cipher, hw, Commands(before, buf));
      if AllShort(before) then Leaves(run, hw, buf, Outputs(cipher, before) + (r.Input() + tail)) else run == None
    ensures var run := Run(cipher, hw, Commands(before + [r], buf));
      if AllShort(before) && r.nbytes < MAX_ENTRY
      then Leaves(run, hw, buf, Outputs(cipher, before) + Output(cipher, r) + tail) else run == None
  {
    var cmds, done := Commands(before, buf), Outputs(cipher, before);
    var load, data := VectorCommands(r, cmds == []), DataCommands(r, buf, |done|);
    var run := Run(cipher, hw, cmds);
    assert (before + [r])[..|before|] == before;
    RunAppend(cipher, hw, cmds, load + data);
    assert cmds + load + data == cmds + (load + data);
    if run.Some? {
      RequestRuns(cipher, run.value, r, buf, cmds == [], done, tail);
      UpdateTwice(hw.mem, buf, done + (r.Input() + tail), done + Output(cipher, r) + tail);
    }
  }

  /** Both command groups of one request, behind `done` bytes of results. */
  lemma RequestRuns(cipher: Cipher, hw: Hardware, r: Request, buf: Buffer, first: bool,
                    done: seq<Byte>, tail: seq<Byte>)
    requires r.Valid() && r.slot.Some? && LengthPreserving(cipher)
    requires buf in hw.mem && hw.mem[buf] == done + (r.Input() + tail)
    ensures var run := Run(cipher, hw, VectorCommands(r, first) + DataCommands(r, buf, |done|));
      if r.nbytes < MAX_ENTRY then Leaves(run, hw, buf, done + Output(cipher, r) + tail) else run == None
  {
    var load := VectorCommands(r, first);
    VectorLoaded(cipher, hw, r, first);
    OperationRuns(cipher, Run(cipher, hw, load).value, r, buf, done, tail);
    RunAppend(cipher, hw, load, DataCommands(r, buf, |done|));
  }

  lemma UpdateTwice(mem: map<Buffer, seq<Byte>>, buf: Buffer, a: seq<Byte>, b: seq<Byte>)
    ensures mem[buf := a][buf := b] == mem[buf := b]
  {
  }

  /** One request's operation. */
  lemma OperationRuns(cipher: Cipher, hw: Hardware, r: Request, buf: Buffer,
                      done: seq<Byte>, tail: seq<Byte>)
    requires r.Valid() && r.slot.Some? && LengthPreserving(cipher)
    requires buf in hw.mem && hw.mem[buf] == done + (r.Input() + tail)
    requires VectorFor(hw, r.Settings()) == r.Vector()
    ensures var run := Run(cipher, hw, DataCommands(r, buf, |done|));
      if r.nbytes < MAX_ENTRY then Leaves(run, hw, buf, done + Output(cipher, r) + tail) else run == None
  {
    var m := hw.mem[buf];
    var cmds := DataCommands(r, buf, |done|);
    if r.nbytes == 0 {
      assert Output(cipher, r) == [] && r.Input() == [];
      assert done + [] + tail == done + ([] + tail);
      assert hw.mem == hw.mem[buf := m];
    } else {
      RunOne(cipher, hw, cmds[0]);
      Parts(done, r.Input(), tail);
    }
  }

  lemma Parts(a: seq<Byte>, b: seq<Byte>, c: seq<Byte>)
    ensures var m := a + (b + c); m[..|a|] == a && m[|a|..|a| + |b|] == b && m[|a| + |b|..] == c
  {
  }

  /** A request of exactly 2^24 bytes is valid and does not run as meant. */
  lemma LongRequestStops(cipher: Cipher, hw: Hardware, data: seq<Byte>, buf: Buffer)
    requires LengthPreserving(cipher) && |data| == MAX_ENTRY
    requires buf in hw.mem && hw.mem[buf] == data
    ensures var r := Request(0, Ecb, true, 16, Some(0), None, [data], [data], MAX_ENTRY);
      r.Valid() && Run(cipher, hw, Commands([r], buf)) == None
  {
    var r := Request(0, Ecb, true, 16, Some(0), None, [data], [data], MAX_ENTRY);
    assert Flat([data]) == data + Flat([]) == data;
    assert [r][..0] == [];
    assert Inputs([r]) == [] + data == data && data + [] == data;
    assert !AllShort([r]) by { assert [r][0].nbytes == MAX_ENTRY; }
    BatchRuns(cipher, hw, [r], buf, []);
  }

  /** A batch of n requests takes at most 27 words a request and one dummy operation, so
      with the closing syncpoint increment it fits its slot. */
  lemma {:induction false} WordBound(reqs: seq<Request>, buf: Buffer)
    requires HaveSlots(reqs)
    ensures WordsOf(Commands(reqs, buf)) <= 27 * |reqs| + 2
    ensures Commands(reqs, buf) == [] ==> WordsOf(Commands(reqs, buf)) <= 27 * |reqs|
    decreases |reqs|
  {
    if reqs != [] {
      var before, r := reqs[..|reqs| - 1], reqs[|reqs| - 1];
      WordBound(before, buf);
      var cmds := Commands(before, buf);
      var load, data := VectorCommands(r, cmds == []), DataCommands(r, buf, Total(before));
      WordsAppend(cmds, load);
      WordsAppend(cmds + load, data);
      RequestWords(r, buf, Total(before), cmds == []);
    }
  }

  lemma RequestWords(r: Request, buf: Buffer, off: nat, first: bool)
    requires r.slot.Some?
    ensures WordsOf(VectorCommands(r, first)) <= if first then 18 else 16
    ensures WordsOf(DataCommands(r, buf, off)) <= 11
  {
    if r.info.Some? {
      var load := if r.mode == Ctr || r.mode == Xts then LoadCounter(r.info.value)
                  else LoadIv(r.slot.value, r.info.value);
      WordsOne(load);
      WordsOne(Dummy);
      WordsSnoc([Dummy], load);
      assert [] + [load] == [load];
    }
    if r.nbytes > 0 { WordsOne(DataCommands(r, buf, off)[0]); }
  }

  lemma WordsOne(c: Command)
    ensures WordsOf([c]) == Words(c)
  {
    assert [c][..0] == [];
  }

  lemma {:induction false} WordsAppend(a: seq<Command>, b: seq<Command>)
    ensures WordsOf(a + b) == WordsOf(a) + WordsOf(b)
    decreases |b|
  {
    if b == [] {
      assert a + b == a;
    } else {
      var n := |b| - 1;
      WordsAppend(a, b[..n]);
      assert (a + b)[..|a| + n] == a + b[..n];
    }
  }
}
