/** Scatter lists, the memory they describe and the three ways the Security Engine
    driver walks them: counting the entries a request covers, mapping a prefix of the
    bytes for the engine, and copying the last bytes of a request into a small buffer. */
module ScatterList {

  type Byte = bv8

  /** The segments of a scatter list, each with the bytes it points at. */
  type Segments = seq<seq<Byte>>

  function Min(a: nat, b: nat): nat { if a < b then a else b }

  /** The bytes a scatter list stands for. */
  function Flat(segs: Segments): seq<Byte> {
    if segs == [] then [] else segs[0] + Flat(segs[1..])
  }

  lemma {:induction false} FlatAppend(a: Segments, b: Segments)
    ensures Flat(a + b) == Flat(a) + Flat(b)
  {
    if a == [] {
      assert a + b == b;
    } else {
      FlatAppend(a[1..], b);
      assert (a + b)[1..] == a[1..] + b;
    }
  }

  lemma FlatSnoc(segs: Segments, i: nat)
    requires i < |segs|
    ensures Flat(segs[..i + 1]) == Flat(segs[..i]) + segs[i]
  {
    FlatAppend(segs[..i], [segs[i]]);
    assert segs[..i + 1] == segs[..i] + [segs[i]];
    assert Flat([segs[i]]) == segs[i] + Flat([]);
  }

  lemma FlatPrefix(segs: Segments, i: nat)
    requires i <= |segs|
    ensures |Flat(segs[..i])| <= |Flat(segs)|
    ensures Flat(segs[..i]) == Flat(segs)[..|Flat(segs[..i])|]
  {
    FlatAppend(segs[..i], segs[i..]);
    assert segs == segs[..i] + segs[i..];
  }

  lemma PrefixSlice(segs: Segments, n: nat, a: nat, b: nat)
    requires n <= |segs| && a <= b <= |Flat(segs[..n])|
    ensures b <= |Flat(segs)| && Flat(segs[..n])[a..b] == Flat(segs)[a..b]
  {
    FlatPrefix(segs, n);
    PrefixCut(Flat(segs), Flat(segs[..n]), a, b);
  }

  lemma PrefixCut(s: seq<Byte>, p: seq<Byte>, a: nat, b: nat)
    requires p <= s && a <= b <= |p|
    ensures p[a..b] == s[a..b]
  {
  }

  /** The number of leading entries a request of `nbytes` touches: the fewest that hold
      it, but at least one, and all of them when the list is too short. */
  method CountSgs(sl: Segments, nbytes: nat) returns (n: nat)
    ensures n <= |sl| && (sl != [] ==> n > 0)
    ensures nbytes <= |Flat(sl)| ==> nbytes <= |Flat(sl[..n])|
    ensures n > 1 ==> |Flat(sl[..n - 1])| < nbytes
  {
    n := 0;
    var left := nbytes;
    while n < |sl|
      invariant n <= |sl|
      invariant left == nbytes - Min(nbytes, |Flat(sl[..n])|)
      invariant n > 0 ==> left > 0
      invariant n > 1 ==> |Flat(sl[..n - 1])| < nbytes
    {
      FlatSnoc(sl, n);
      left := left - Min(|sl[n]|, left);
      n := n + 1;
      if left == 0 { break; }
    }
    if n == |sl| { assert sl[..n] == sl; }
  }

  /** Where the engine finds a run of bytes: one of the driver's own buffers, or an entry
      of the request's scatter list. */
  datatype Address = Buffer(which: nat) | Segment(index: nat)

  /** One entry of the linked list handed to the engine (tegra_se_ll). */
  datatype LinkedEntry = LinkedEntry(addr: Address, dataLen: nat)

  /** Memory at the moment the engine runs. */
  datatype Memory = Memory(buffers: seq<seq<Byte>>, segs: Segments) {
    /** The bytes an entry names; an entry that names no memory reads as nothing. */
    function Read(e: LinkedEntry): seq<Byte> {
      match e.addr
      case Buffer(w) =>
        if w < |buffers| && e.dataLen <= |buffers[w]| then buffers[w][..e.dataLen] else []
      case Segment(i) =>
        if i < |segs| && e.dataLen <= |segs[i]| then segs[i][..e.dataLen] else []
    }

    function ReadAll(lls: seq<LinkedEntry>): seq<Byte> {
      if lls == [] then [] else Read(lls[0]) + ReadAll(lls[1..])
    }
  }

  lemma {:induction false} ReadAllAppend(mem: Memory, a: seq<LinkedEntry>, b: seq<LinkedEntry>)
    ensures mem.ReadAll(a + b) == mem.ReadAll(a) + mem.ReadAll(b)
  {
    if a == [] {
      assert a + b == b;
    } else {
      var first, rest := mem.Read(a[0]), a[1..];
      ReadAllAppend(mem, rest, b);
      assert (a + b)[0] == a[0] && (a + b)[1..] == rest + b;
      assert mem.ReadAll(a + b) == first + mem.ReadAll(rest + b);
      Regroup(first, mem.ReadAll(rest), mem.ReadAll(b));
    }
  }

  lemma Regroup(a: seq<Byte>, b: seq<Byte>, c: seq<Byte>)
    ensures a + b + c == a + (b + c)
  {
  }

  /** The bytes the entries of a linked list add up to. */
  function Covered(lls: seq<LinkedEntry>): nat {
    if lls == [] then 0 else lls[0].dataLen + Covered(lls[1..])
  }

  lemma {:induction false} CoveredAppend(a: seq<LinkedEntry>, b: seq<LinkedEntry>)
    ensures Covered(a + b) == Covered(a) + Covered(b)
  {
    if a == [] {
      assert a + b == b;
    } else {
      CoveredAppend(a[1..], b);
      assert (a + b)[1..] == a[1..] + b;
    }
  }

  /** The part of segment `i` that lies in the first `total` bytes. */
  function MappedLength(segs: Segments, total: nat, i: nat): (n: nat)
    requires i < |segs|
  {
    Min(|segs[i]|, total - Min(total, |Flat(segs[..i])|))
  }

  /** The entries for the first `n` segments of a mapping of `total` bytes. */
  function Mapped(segs: Segments, total: nat, n: nat): seq<LinkedEntry>
    requires n <= |segs|
  {
    seq(n, i requires 0 <= i < n => LinkedEntry(Segment(i), MappedLength(segs, total, i)))
  }

  /** Reading a mapping in order gives exactly the bytes that were to be mapped. */
  lemma {:induction false} ReadMapped(segs: Segments, total: nat, n: nat, buffers: seq<seq<Byte>>)
    requires n <= |segs|
    ensures Memory(buffers, segs).ReadAll(Mapped(segs, total, n))
         == Flat(segs[..n])[..Min(total, |Flat(segs[..n])|)]
  {
    if n > 0 {
      ReadMapped(segs, total, n - 1, buffers);
      FlatSnoc(segs, n - 1);
      var e := LinkedEntry(Segment(n - 1), MappedLength(segs, total, n - 1));
      var before := Mapped(segs, total, n - 1);
      assert Mapped(segs, total, n) == before + [e];
      var mem := Memory(buffers, segs);
      ReadAllAppend(mem, before, [e]);
      assert mem.ReadAll([e]) == mem.Read(e) + mem.ReadAll([]) == segs[n - 1][..e.dataLen];
      CutSnoc(Flat(segs[..n - 1]), segs[n - 1], total);
    }
  }

  lemma {:induction false} CoveredMapped(segs: Segments, total: nat, n: nat)
    requires n <= |segs|
    ensures Covered(Mapped(segs, total, n)) == Min(total, |Flat(segs[..n])|)
  {
    if n > 0 {
      CoveredMapped(segs, total, n - 1);
      FlatSnoc(segs, n - 1);
      var e := LinkedEntry(Segment(n - 1), MappedLength(segs, total, n - 1));
      var before := Mapped(segs, total, n - 1);
      assert Mapped(segs, total, n) == before + [e];
      CoveredAppend(before, [e]);
      assert Covered([e]) == e.dataLen + Covered([]);
    }
  }

  lemma CutSnoc(a: seq<Byte>, b: seq<Byte>, total: nat)
    ensures (a + b)[..Min(total, |a + b|)]
         == a[..Min(total, |a|)] + b[..Min(|b|, total - Min(total, |a|))]
  {
  }

  /** tegra_map_sg: one entry per segment, the lengths cut off once the total is reached. */
  method MapSg(segs: Segments, total: nat) returns (lls: seq<LinkedEntry>)
    requires total <= |Flat(segs)|
    ensures lls == Mapped(segs, total, |segs|)
    ensures Covered(lls) == total
    ensures forall buffers :: Memory(buffers, segs).ReadAll(lls) == Flat(segs)[..total]
  {
    lls := [];
    var left := total;
    var i := 0;
    while i < |segs|
      invariant i <= |segs|
      invariant left == total - Min(total, |Flat(segs[..i])|)
      invariant lls == Mapped(segs, total, i)
    {
      FlatSnoc(segs, i);
      lls := lls + [LinkedEntry(Segment(i), Min(|segs[i]|, left))];
      left := left - Min(|segs[i]|, left);
      i := i + 1;
    }
    assert segs[..|segs|] == segs;
    CoveredMapped(segs, total, |segs|);
    forall buffers ensures Memory(buffers, segs).ReadAll(lls) == Flat(segs)[..total] {
      ReadMapped(segs, total, |segs|, buffers);
    }
  }

  // ---------------------------------------------------------------- buffer chains

  /** The length field of a command word has 24 bits, with address bits above it. */
  const MAX_ENTRY := 0x100_0000

  /** The engine's list has room for so many entries. */
  const LIST_ROOM := 50

  /** Every entry's length goes in the engine's 24-bit length field. */
  ghost predicate AllFit(lls: seq<LinkedEntry>) {
    forall i :: 0 <= i < |lls| ==> lls[i].dataLen < MAX_ENTRY
  }

  /** Where an operation's result goes: a register of the engine, or memory, whose length is
      in every command again. */
  datatype Destination = Register | Result(len: nat)

  /** One command of an operation, for one buffer: the first one starts it, the others
      continue it, and one is marked as the last. */
  datatype Link = Link(start: bool, src: LinkedEntry, dst: Destination, lastBuf: bool)

  /** A chain the engine can follow: one start, then restarts, the last marked as such, and
      no length that spills into the address. */
  predicate WellFormed(chain: seq<Link>) {
    && chain != []
    && forall i :: 0 <= i < |chain| ==>
      && (chain[i].start <==> i == 0) && (chain[i].lastBuf <==> i == |chain| - 1)
      && chain[i].src.dataLen < MAX_ENTRY
  }

  /** No destination's length spills into its address. */
  predicate Directed(chain: seq<Link>) {
    forall i :: 0 <= i < |chain| && chain[i].dst.Result? ==> chain[i].dst.len < MAX_ENTRY
  }

  function Sources(chain: seq<Link>): seq<LinkedEntry> {
    seq(|chain|, i requires 0 <= i < |chain| => chain[i].src)
  }

  lemma {:induction false} CoveredPositive(lls: seq<LinkedEntry>, i: nat)
    requires i < |lls|
    ensures Covered(lls) >= lls[i].dataLen
  {
    if i > 0 { CoveredPositive(lls[1..], i - 1); }
  }

  lemma {:induction false} ReadPastEnd(mem: Memory, lls: seq<LinkedEntry>)
    requires Covered(lls) == 0
    ensures mem.ReadAll(lls) == []
  {
    if lls != [] { ReadPastEnd(mem, lls[1..]); }
  }

  /** The command loop of tegra_se_send_sha_data and tegra_se_send_data: one command per
      entry until `count` bytes are named. With the length check on it fails exactly when an
      entry does not fit; the chain names the bytes of the whole list, and it is well formed
      exactly when the first entry is not empty and every entry fits. The destination's length
      is never checked: its result goes where it should exactly when that length fits too. */
  method ChainBuffers(lls: seq<LinkedEntry>, count: nat, dst: Destination, checked: bool)
    returns (ok: bool, chain: seq<Link>)
    requires Covered(lls) == count > 0
    ensures ok <==> !checked || AllFit(lls)
    ensures ok ==> (WellFormed(chain) <==> lls[0].dataLen > 0 && AllFit(lls))
    ensures ok ==> 0 < |chain| <= |lls|
    ensures ok ==> (Directed(chain) <==> (dst.Result? ==> dst.len < MAX_ENTRY))
    ensures ok ==> forall mem: Memory :: mem.ReadAll(Sources(chain)) == mem.ReadAll(lls)
  {
    chain := [];
    var total, k := count, 0;
    while total > 0
      invariant k == |chain| <= |lls|
      invariant total == Covered(lls[k..])
      invariant Sources(chain) == lls[..k]
      invariant forall i :: 0 <= i < k ==> chain[i].dst == dst
      invariant checked ==> forall i :: 0 <= i < k ==> lls[i].dataLen < MAX_ENTRY
      invariant lls[0].dataLen > 0 ==> forall i :: 0 <= i < k ==> (chain[i].start <==> i == 0)
      invariant lls[0].dataLen > 0 && k > 0 ==> total < count
      invariant lls[0].dataLen == 0 && k > 1 ==> chain[1].start
      invariant lls[0].dataLen == 0 && k == 1 ==> total == count
      invariant forall i :: 0 <= i < k ==> (chain[i].lastBuf <==> i == k - 1 && total == 0)
      decreases |lls| - k
    {
      var e := lls[k];
      if checked && e.dataLen >= MAX_ENTRY {
        return false, chain;
      }
      assert lls[k..] == [e] + lls[k + 1..];
      var link := Link(total == count, e, dst, total == e.dataLen);
      assert Sources(chain + [link]) == Sources(chain) + [e];
      chain := chain + [link];
      total := total - e.dataLen;
      k := k + 1;
    }
    ok := true;
    assert chain[0].dst == dst;
    assert forall i :: 0 <= i < k ==> chain[i].src == Sources(chain)[i] == lls[i];
    EmptyBehind(lls, k);
  }

  lemma ShortBehind(lls: seq<LinkedEntry>, k: nat)
    requires k <= |lls| && Covered(lls[k..]) == 0
    ensures AllFit(lls) <==> AllFit(lls[..k])
  {
    forall i | k <= i < |lls| ensures lls[i].dataLen < MAX_ENTRY {
      CoveredPositive(lls[k..], i - k);
    }
    forall i | 0 <= i < k ensures lls[..k][i] == lls[i] { }
  }

  /** Entries behind the last byte are empty. */
  lemma EmptyBehind(lls: seq<LinkedEntry>, k: nat)
    requires k <= |lls| && Covered(lls[k..]) == 0
    ensures AllFit(lls) <==> AllFit(lls[..k])
    ensures forall mem: Memory :: mem.ReadAll(lls[..k]) == mem.ReadAll(lls)
  {
    ShortBehind(lls, k);
    forall mem: Memory ensures mem.ReadAll(lls[..k]) == mem.ReadAll(lls) {
      ReadAllAppend(mem, lls[..k], lls[k..]);
      ReadPastEnd(mem, lls[k..]);
      assert lls == lls[..k] + lls[k..];
    }
  }

  /** Copies the last `tail` of the first `nbytes` bytes of a scatter list to the front of
      `buf`, leaving the rest of `buf` alone. The pieces are whatever the mapping iterator
      hands out: any splitting of the segments that were counted for the request. */
  method CopyTail(pieces: Segments, nbytes: nat, tail: nat, buf: array<Byte>)
    requires tail <= nbytes <= |Flat(pieces)|
    requires tail <= buf.Length
    modifies buf
    ensures buf[..tail] == Flat(pieces)[nbytes - tail..nbytes]
    ensures buf[tail..] == old(buf[tail..])
  {
    var total, last, at, i := 0, tail, 0, 0;
    ghost var msg, from := Flat(pieces), nbytes - tail;
    while i < |pieces| && total < nbytes
      invariant i <= |pieces|
      invariant total == Min(nbytes, |Flat(pieces[..i])|)
      invariant last == Min(tail, nbytes - total)
      invariant at == tail - last
      invariant buf[..at] == msg[from..from + at]
      invariant buf[tail..] == old(buf[tail..])
    {
      var len := Min(|pieces[i]|, nbytes - total);
      PieceInMessage(pieces, i, nbytes, total, len);
      if nbytes - (total + len) <= last {
        var bytesToCopy := last - (nbytes - (total + len));
        var src := pieces[i][len - bytesToCopy..len];
        SliceOfSlice(msg, pieces[i], total, len, bytesToCopy, from, at);
        CopyInto(src, buf, at, tail);
        last := last - bytesToCopy;
        at := at + bytesToCopy;
        assert buf[..at] == msg[from..from + at];
      }
      total := total + len;
      i := i + 1;
    }
    if i == |pieces| { assert pieces[..i] == pieces; }
  }

  /** The last `n` bytes of a slice extend the run of the message that ends where they start. */
  lemma SliceOfSlice(msg: seq<Byte>, piece: seq<Byte>, total: nat, len: nat, n: nat,
                     from: nat, at: nat)
    requires n <= len <= |piece| && total + len <= |msg|
    requires piece[..len] == msg[total..total + len]
    requires from + at == total + len - n
    ensures msg[from..from + (at + n)] == msg[from..from + at] + piece[len - n..len]
  {
    assert forall k :: len - n <= k < len ==> piece[k] == piece[..len][k] == msg[total + k];
  }

  /** The part of a piece that lies inside the request sits at its own offset in it. */
  lemma PieceInMessage(pieces: Segments, i: nat, nbytes: nat, total: nat, len: nat)
    requires i < |pieces| && nbytes <= |Flat(pieces)|
    requires total == |Flat(pieces[..i])| <= nbytes
    requires len == Min(|pieces[i]|, nbytes - total)
    ensures total + len <= nbytes
    ensures pieces[i][..len] == Flat(pieces)[total..total + len]
    ensures total + len == Min(nbytes, |Flat(pieces[..i + 1])|)
  {
    FlatSnoc(pieces, i);
    FlatPrefix(pieces, i + 1);
    var p := Flat(pieces[..i + 1]);
    assert p[total..total + len] == pieces[i][..len];
    PrefixCut(Flat(pieces), p, total, total + len);
  }

  /** memcpy into a buffer at an offset; `keep` marks a part behind it that stays. */
  method CopyInto(src: seq<Byte>, buf: array<Byte>, at: nat, ghost keep: nat)
    requires at + |src| <= keep <= buf.Length
    modifies buf
    ensures buf[..at + |src|] == old(buf[..at]) + src
    ensures buf[keep..] == old(buf[keep..])
  {
    forall k | 0 <= k < |src| {
      buf[at + k] := src[k];
    }
  }
}
