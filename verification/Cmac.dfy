/** AES-CMAC (tegra-se-nvhost.c): subkeys made by shifting bytes in place, and a message
    authenticated in two engine runs, all blocks but the last straight from the scatter
    list and then the masked last block. The reference is section 2.3 and section 2.4 of
    RFC 4493, for any block function. */
module Cmac {
  import opened Arith
  import opened ScatterList

  const BLOCK := 16

  type Block = s: seq<Byte> | |s| == 16 witness seq(16, _ => 0)

  const Zero: Block := seq(16, _ => 0)

  function XorByte(a: Byte, b: Byte): Byte { a ^ b }

  function Xor(a: Block, b: Block): Block { seq(16, i requires 0 <= i < 16 => XorByte(a[i], b[i])) }

  // ---------------------------------------------------------------- reference: RFC 4493

  /** Bit `i` of a block, counted from the most significant one. */
  predicate Bit(b: seq<Byte>, i: nat)
    requires i < 8 * |b|
  {
    ByteBit(b[i / 8], i % 8)
  }

  predicate ByteBit(b: Byte, k: nat)
    requires k < 8
  {
    b & (if k == 0 then 0x80 else if k == 1 then 0x40 else if k == 2 then 0x20
         else if k == 3 then 0x10 else if k == 4 then 0x08 else if k == 5 then 0x04
         else if k == 6 then 0x02 else 0x01) != 0
  }

  /** Multiplication by x in GF(2^128), most significant coefficient first, modulo
      x^128 + x^7 + x^2 + x + 1. */
  ghost predicate IsDouble(d: Block, b: Block) {
    forall i: nat :: i < 128 ==>
      (Bit(d, i) <==> ((i < 127 && Bit(b, i + 1)) != (Bit(b, 0) && i in {120, 125, 126, 127})))
  }

  function Pad(part: seq<Byte>): Block
    requires |part| < 16
  {
    part + [0x80] + seq(15 - |part|, _ => 0)
  }

  /** X after `n` rounds of CBC-MAC over the leading blocks of a message. */
  function Rounds(E: Block -> Block, msg: seq<Byte>, n: nat): Block
    requires 16 * n <= |msg|
  {
    if n == 0 then Zero
    else E(Xor(Rounds(E, msg, n - 1), msg[16 * (n - 1)..16 * n]))
  }

  /** Section 2.4: the number of blocks, whether the last one is complete, the masked last
      block, and the final round. */
  function BlockCount(len: nat): nat { if len == 0 then 1 else (len + 15) / 16 }

  predicate Complete(len: nat) { len > 0 && len % 16 == 0 }

  function Mac(E: Block -> Block, k1: Block, k2: Block, msg: seq<Byte>): Block {
    var n := BlockCount(|msg|);
    var last := msg[16 * (n - 1)..];
    var masked := if Complete(|msg|) then Xor(last, k1) else Xor(Pad(last), k2);
    E(Xor(masked, Rounds(E, msg, n - 1)))
  }

  // ---------------------------------------------------------------- subkeys

  /** Every byte moved up one bit, taking the top bit of the byte behind it. */
  function ShiftLeft(s: seq<Byte>): (r: seq<Byte>)
    ensures |r| == |s|
  {
    ShiftInto(s, 0)
  }

  function ShiftInto(s: seq<Byte>, next: Byte): (r: seq<Byte>)
    ensures |r| == |s|
  {
    seq(|s|, i requires 0 <= i < |s| => ShiftByte(s[i], if i + 1 < |s| then s[i + 1] else next))
  }

  function Up(a: Byte): Byte { a << 1 }

  function Top(a: Byte): Byte { a >> 7 }

  function ShiftByte(a: Byte, b: Byte): Byte { Up(a) | Top(b) }

  /** tegra_se_leftshift_onebit. */
  method LeftShiftOneBit(buf: array<Byte>) returns (msb: Byte)
    requires buf.Length > 0
    modifies buf
    ensures msb == old(buf[0]) >> 7
    ensures buf[..] == ShiftLeft(old(buf[..]))
  {
    ghost var was := buf[..];
    msb := Top(buf[0]);
    buf[0] := Up(buf[0]);
    var i := 1;
    while i < buf.Length
      invariant 1 <= i <= buf.Length
      invariant buf[..] == Shifting(was, i)
    {
      ShiftingNext(was, i);
      ghost var before := buf[..];
      var carry := Top(buf[i]);
      buf[i - 1] := buf[i - 1] | carry;
      buf[i] := Up(buf[i]);
      assert buf[..] == before[i - 1 := before[i - 1] | carry][i := Up(before[i])];
      i := i + 1;
    }
    ShiftingDone(was);
  }

  /** The buffer when the first `i` bytes have been moved up, the last of them without the bit
      of the byte behind it. */
  function Shifting(was: seq<Byte>, i: nat): (r: seq<Byte>)
    requires 0 < i <= |was|
    ensures |r| == |was|
  {
    seq(|was|, j requires 0 <= j < |was| =>
      if j < i - 1 then ShiftByte(was[j], was[j + 1]) else if j == i - 1 then Up(was[j]) else was[j])
  }

  lemma ShiftingNext(was: seq<Byte>, i: nat)
    requires 0 < i < |was|
    ensures var r := Shifting(was, i);
      Shifting(was, i + 1) == r[i - 1 := r[i - 1] | Top(r[i])][i := Up(r[i])]
  {
  }

  lemma ShiftingDone(was: seq<Byte>)
    requires was != []
    ensures Shifting(was, |was|) == ShiftLeft(was)
  {
    LastBitZero(was[|was| - 1]);
  }

  lemma LastBitZero(a: Byte)
    ensures ShiftByte(a, 0) == Up(a)
  {
  }

  /** The unsigned value of a byte and of a big-endian buffer. */
  function ByteValue(b: Byte): (v: nat)
    ensures v < 256
  {
    (if ByteBit(b, 0) then 128 else 0) + (if ByteBit(b, 1) then 64 else 0)
    + (if ByteBit(b, 2) then 32 else 0) + (if ByteBit(b, 3) then 16 else 0)
    + (if ByteBit(b, 4) then 8 else 0) + (if ByteBit(b, 5) then 4 else 0)
    + (if ByteBit(b, 6) then 2 else 0) + (if ByteBit(b, 7) then 1 else 0)
  }

  function Value(s: seq<Byte>): nat {
    if s == [] then 0 else Value(s[..|s| - 1]) * 256 + ByteValue(s[|s| - 1])
  }

  function Power256(n: nat): nat { if n == 0 then 1 else 256 * Power256(n - 1) }

  /** The bits of a shifted byte. */
  lemma ShiftedByte(a: Byte, b: Byte)
    ensures forall k :: 0 <= k < 8 ==>
      (ByteBit(ShiftByte(a, b), k) <==> if k < 7 then ByteBit(a, k + 1) else ByteBit(b, 0))
  {
  }

  lemma ShiftedValue(a: Byte, b: Byte)
    ensures ByteValue(ShiftByte(a, b)) + 256 * (if ByteBit(a, 0) then 1 else 0)
         == 2 * ByteValue(a) + if ByteBit(b, 0) then 1 else 0
  {
    ShiftedByte(a, b);
  }

  /** The byte-wise shift is doubling modulo 2^(8n), for a buffer of any size n: what is
      lost is the top bit. `carry` is the top bit of whatever follows the buffer. */
  lemma {:induction false} ShiftDoubles(s: seq<Byte>)
    requires s != []
    ensures Value(ShiftLeft(s)) + Power256(|s|) * (if Bit(s, 0) then 1 else 0) == 2 * Value(s)
  {
    ShiftWithCarry(s, 0);
  }

  lemma {:induction false} ShiftWithCarry(s: seq<Byte>, next: Byte)
    requires s != []
    ensures Value(ShiftInto(s, next)) + Power256(|s|) * (if Bit(s, 0) then 1 else 0)
         == 2 * Value(s) + if ByteBit(next, 0) then 1 else 0
  {
    var n := |s| - 1;
    var last := s[n];
    var r := ShiftInto(s, next);
    ShiftedValue(last, next);
    if n == 0 {
      assert r[..0] == [] && s[..0] == [];
      assert Power256(1) == 256 * Power256(0);
    } else {
      ShiftWithCarry(s[..n], last);
      assert r[..n] == ShiftInto(s[..n], last);
      assert Bit(s[..n], 0) == Bit(s, 0);
    }
  }

  /** The constant Rb of section 2.3, and the conditional xor of the last byte. */
  function Subkey(b: Block): Block {
    var s := ShiftLeft(b);
    if b[0] >> 7 != 0 then s[15 := s[15] ^ 0x87] else s
  }

  lemma RbByte(b: Byte)
    ensures forall k :: 0 <= k < 8 ==>
      (ByteBit(b ^ 0x87, k) <==> (ByteBit(b, k) != (k in {0, 5, 6, 7})))
  {
  }

  lemma TopBit(b: Byte)
    ensures b >> 7 != 0 <==> ByteBit(b, 0)
    ensures (b >> 7) | (0 as Byte) == b >> 7
  {
  }

  /** The driver's subkey step is doubling in GF(2^128). */
  lemma SubkeyDoubles(b: Block)
    ensures IsDouble(Subkey(b), b)
  {
    forall i: nat | i < 128
      ensures Bit(Subkey(b), i) <==> ((i < 127 && Bit(b, i + 1)) != (Bit(b, 0) && i in {120, 125, 126, 127}))
    {
      ShiftedBit(b, i);
      FoldedBit(b, i);
    }
  }

  lemma ShiftedBit(b: Block, i: nat)
    requires i < 128
    ensures Bit(ShiftLeft(b), i) <==> i < 127 && Bit(b, i + 1)
  {
    var j, k := i / 8, i % 8;
    ShiftedByte(b[j], if j < 15 then b[j + 1] else 0);
    if k < 7 {
      assert (i + 1) / 8 == j && (i + 1) % 8 == k + 1;
    } else {
      assert (i + 1) / 8 == j + 1 && (i + 1) % 8 == 0;
    }
  }

  lemma FoldedBit(b: Block, i: nat)
    requires i < 128
    ensures Bit(Subkey(b), i) <==> (Bit(ShiftLeft(b), i) != (Bit(b, 0) && i in {120, 125, 126, 127}))
  {
    TopBit(b[0]);
    RbByte(ShiftLeft(b)[15]);
    assert i == 8 * (i / 8) + i % 8;
  }

  // ---------------------------------------------------------------- the engine

  datatype Option<T> = None | Some(value: T)

  /** CBC-MAC of whole blocks from an initial vector. */
  function CbcMac(E: Block -> Block, iv: Block, data: seq<Byte>): Block
    requires |data| % 16 == 0
  {
    if data == [] then iv
    else
      var n := |data| - 16;
      E(Xor(CbcMac(E, iv, data[..n]), data[n..]))
  }

  /** The engine with one key loaded: two initial-vector registers and a CMAC operation that
      follows a buffer chain. */
  class CmacEngine {
    const E: Block -> Block
    var orgIv: Block
    var updatedIv: Block

    constructor (E: Block -> Block)
      ensures this.E == E
    {
      this.E := E;
      orgIv, updatedIv := Zero, Zero;
    }

    method LoadIv(original: bool, iv: Block)
      modifies this
      ensures orgIv == (if original then iv else old(orgIv))
      ensures updatedIv == (if original then old(updatedIv) else iv)
    {
      if original { orgIv := iv; } else { updatedIv := iv; }
    }

    /** One operation: `lastBlock` is the number of blocks less one. On a chain that the
        engine cannot follow, or that does not hold those blocks, nothing is known of it. */
    method Run(chain: seq<Link>, mem: Memory, lastBlock: nat, useOrgIv: bool) returns (mac: Option<Block>)
      ensures mac == if WellFormed(chain) && |mem.ReadAll(Sources(chain))| == 16 * (lastBlock + 1)
                     then Some(CbcMac(E, if useOrgIv then orgIv else updatedIv, mem.ReadAll(Sources(chain))))
                     else None
    {
      var data := mem.ReadAll(Sources(chain));
      mac := if WellFormed(chain) && |data| == 16 * (lastBlock + 1)
             then Some(CbcMac(E, if useOrgIv then orgIv else updatedIv, data)) else None;
    }
  }

  // ---------------------------------------------------------------- setkey

  /** The subkey part of tegra_se_aes_cmac_setkey, from the engine's encryption of zero. */
  method SetKey(engine: CmacEngine) returns (k1: Block, k2: Block)
    modifies engine
    ensures k1 == Subkey(engine.E(Zero)) && k2 == Subkey(k1)
  {
    engine.LoadIv(true, Zero);
    var chain := [Link(true, LinkedEntry(Buffer(0), 16), Register, true)];
    var mem := Memory([Zero], []);
    OneEntry(mem);
    var encrypted := engine.Run(chain, mem, 0, true);
    assert Zero[..0] == [] && Zero[0..] == Zero;
    XorZero(Zero);
    k1 := MakeSubkey(encrypted.value);
    k2 := MakeSubkey(k1);
  }

  /** Copy, shift in place, and fold Rb into the last byte. */
  method MakeSubkey(from: Block) returns (k: Block)
    ensures k == Subkey(from)
  {
    var buf := new Byte[16];
    CopyInto(from, buf, 0, 16);
    assert buf[..] == from;
    var msb := LeftShiftOneBit(buf);
    if msb != 0 {
      buf[15] := buf[15] ^ 0x87;
    }
    k := buf[..];
  }

  lemma OneEntry(mem: Memory)
    requires |mem.buffers| > 0 && |mem.buffers[0]| == 16
    ensures mem.ReadAll(Sources([Link(true, LinkedEntry(Buffer(0), 16), Register, true)])) == mem.buffers[0]
  {
    var e := LinkedEntry(Buffer(0), 16);
    assert Sources([Link(true, e, Register, true)]) == [e];
    assert mem.ReadAll([e]) == mem.Read(e) + mem.ReadAll([]);
  }

  lemma XorZero(b: Block)
    ensures Xor(Zero, b) == b
  {
  }

  /** Both subkeys are doublings in GF(2^128) of the encrypted zero block. */
  lemma SubkeysDouble(E: Block -> Block)
    ensures IsDouble(Subkey(E(Zero)), E(Zero))
    ensures IsDouble(Subkey(Subkey(E(Zero))), Subkey(E(Zero)))
  {
    SubkeyDoubles(E(Zero));
    SubkeyDoubles(Subkey(E(Zero)));
  }

  // ---------------------------------------------------------------- final

  /** `Lost` is no reply of the driver: its list or its command words could not hold what the
      first run needs, which is not checked, and nothing is known of the value. */
  datatype Reply = Done(mac: Block) | Edom | Lost

  /** The list of a request: long enough, and not starting with an empty entry. */
  ghost predicate ValidRequest(src: Segments, nbytes: nat) {
    nbytes <= |Flat(src)| && (nbytes > 0 ==> src != [] && src[0] != [])
  }

  /** More entries hold the request than the engine's list has room for. */
  predicate TooManySgs(src: Segments, nbytes: nat) {
    |src| > LIST_ROOM && |Flat(src[..LIST_ROOM])| < nbytes
  }

  /** The first run's mapping has one entry for every element of the request's list, used or
      not; they must fit the list, and their lengths the command words. */
  predicate Mappable(src: Segments, total: nat) {
    |src| <= LIST_ROOM && forall i :: 0 <= i < |src| ==> MappedLength(src, total, i) < MAX_ENTRY
  }

  /** The reply to a request: all blocks but the last need a first run, which the driver
      refuses only when the request itself covers too many entries. */
  function FinalReply(E: Block -> Block, k1: Block, k2: Block, src: Segments, nbytes: nat): Reply
    requires nbytes <= |Flat(src)|
  {
    var leading := BlockCount(nbytes) - 1;
    if leading > 0 && TooManySgs(src, nbytes) then Edom
    else if leading > 0 && !Mappable(src, 16 * leading) then Lost
    else Done(Mac(E, k1, k2, Flat(src)[..nbytes]))
  }

  /** One segment of 2^24 bytes and a block: the value is lost. */
  lemma LongSegmentLoses(E: Block -> Block, k1: Block, k2: Block, segment: seq<Byte>)
    requires |segment| == MAX_ENTRY + 16
    ensures Flat([segment]) == segment && ValidRequest([segment], |segment|)
    ensures FinalReply(E, k1, k2, [segment], |segment|) == Lost
  {
    assert Flat([segment]) == segment + Flat([]) == segment;
    assert [segment][..0] == [];
    assert MappedLength([segment], MAX_ENTRY, 0) == MAX_ENTRY;
  }

  /** All blocks but the last: the lengths of the two parts of tegra_se_aes_cmac_final. */
  method SplitMessage(nbytes: nat) returns (blocks: nat, last: nat, padding: bool)
    ensures blocks == BlockCount(nbytes) - 1
    ensures 16 * blocks + last == nbytes && last <= 16
    ensures padding <==> !Complete(nbytes)
    ensures if padding then last < 16 else last == 16
  {
    blocks := nbytes / 16;
    last, padding := 0, false;
    if nbytes % 16 != 0 || blocks == 0 {
      padding := true;
      last := nbytes % 16;
    } else {
      blocks := blocks - 1;
      last := if blocks > 0 then nbytes - blocks * 16 else nbytes;
    }
  }

  /** The first run: every block but the last, from a zero vector. */
  method RunLeading(engine: CmacEngine, src: Segments, blocks: nat) returns (x: Option<Block>)
    requires blocks > 0 && 16 * blocks <= |Flat(src)| && src[0] != []
    modifies engine
    ensures x == if Mappable(src, 16 * blocks) then Some(Rounds(engine.E, Flat(src), blocks)) else None
  {
    var chain := LeadingChain(src, 16 * blocks);
    if chain.None? {
      return None;
    }
    engine.LoadIv(true, Zero);
    CbcIsRounds(engine.E, Flat(src), blocks);
    x := engine.Run(chain.value, Memory([], src), blocks - 1, true);
  }

  /** The commands for the first `total` bytes, if the list has room for the mapping. */
  method LeadingChain(src: Segments, total: nat) returns (chain: Option<seq<Link>>)
    requires 0 < total <= |Flat(src)| && src[0] != []
    ensures chain.None? <==> |src| > LIST_ROOM
    ensures chain.Some? ==> (WellFormed(chain.value) <==> Mappable(src, total))
    ensures chain.Some? ==> Memory([], src).ReadAll(Sources(chain.value)) == Flat(src)[..total]
  {
    var lls := MapSg(src, total);
    if |lls| > LIST_ROOM {
      return None;
    }
    MappedFit(src, total, lls);
    var ok, links := ChainBuffers(lls, total, Register, false);
    chain := Some(links);
  }

  lemma MappedFit(src: Segments, total: nat, lls: seq<LinkedEntry>)
    requires lls == Mapped(src, total, |src|)
    ensures AllFit(lls) <==> forall i :: 0 <= i < |src| ==> MappedLength(src, total, i) < MAX_ENTRY
  {
    assert forall i :: 0 <= i < |src| ==> lls[i].dataLen == MappedLength(src, total, i);
  }

  lemma {:induction false} CbcIsRounds(E: Block -> Block, msg: seq<Byte>, n: nat)
    requires 16 * n <= |msg|
    ensures CbcMac(E, Zero, msg[..16 * n]) == Rounds(E, msg, n)
  {
    if n > 0 {
      CbcIsRounds(E, msg, n - 1);
      var data := msg[..16 * n];
      assert data[..|data| - 16] == msg[..16 * (n - 1)];
      assert data[|data| - 16..] == msg[16 * (n - 1)..16 * n];
    }
  }

  /** The masked last block, in a buffer: the message's tail, padded and xored with K2, or
      complete and xored with K1. */
  method MaskLast(buf: array<Byte>, last: nat, padding: bool, k1: Block, k2: Block)
    requires buf.Length == 16 && last <= 16 && (padding ==> last < 16) && (!padding ==> last == 16)
    modifies buf
    ensures buf[..] == if padding then Xor(Pad(old(buf[..last])), k2) else Xor(old(buf[..last]), k1)
  {
    ghost var tail := buf[..last];
    if padding {
      buf[last] := 0x80;
      for i := last + 1 to 16
        invariant buf[..last] == tail && buf[last] == 0x80
        invariant forall j :: last < j < i ==> buf[j] == 0
      {
        buf[i] := 0;
      }
      assert buf[..] == Pad(tail);
      XorInto(buf, k2);
    } else {
      XorInto(buf, k1);
    }
  }

  method XorInto(buf: array<Byte>, k: Block)
    requires buf.Length == 16
    modifies buf
    ensures buf[..] == Xor(old(buf[..]), k)
  {
    for i := 0 to 16
      invariant forall j :: 0 <= j < i ==> buf[j] == XorByte(old(buf[j]), k[j])
      invariant forall j :: i <= j < 16 ==> buf[j] == old(buf[j])
    {
      buf[i] := buf[i] ^ k[i];
    }
  }

  /** The second run: the masked last block, chained onto the value of the first. */
  method RunLast(engine: CmacEngine, k1: Block, k2: Block, src: Segments, nbytes: nat, num: nat,
                 last: nat, padding: bool, piv: Block, useOrgIv: bool)
    returns (mac: Block)
    requires num <= |src| && last <= nbytes <= |Flat(src[..num])|
    requires if padding then last < 16 else last == 16
    modifies engine
    ensures var tail := Flat(src[..num])[nbytes - last..nbytes];
      mac == engine.E(Xor(if padding then Xor(Pad(tail), k2) else Xor(tail, k1), piv))
  {
    var buf := new Byte[16];
    CopyTail(src[..num], nbytes, last, buf);
    MaskLast(buf, last, padding, k1, k2);
    mac := Encipher(engine, buf[..], src, piv, useOrgIv);
  }

  /** One block, chained onto a vector. */
  method Encipher(engine: CmacEngine, masked: Block, src: Segments, piv: Block, useOrgIv: bool)
    returns (mac: Block)
    modifies engine
    ensures mac == engine.E(Xor(masked, piv))
  {
    engine.LoadIv(useOrgIv, piv);
    var chain := [Link(true, LinkedEntry(Buffer(0), 16), Register, true)];
    var mem := Memory([masked], src);
    OneEntry(mem);
    var value := engine.Run(chain, mem, 0, useOrgIv);
    mac := value.value;
    assert masked[..0] == [] && masked[0..] == masked;
    XorCommutes(piv, masked);
  }

  /** tegra_se_aes_cmac_final: the AES-CMAC value of the message, for any block function and
      any scatter list, exactly as far as the first run's mapping fits. */
  method Final(engine: CmacEngine, k1: Block, k2: Block, src: Segments, nbytes: nat)
    returns (reply: Reply)
    requires ValidRequest(src, nbytes)
    modifies engine
    ensures reply == FinalReply(engine.E, k1, k2, src, nbytes)
    ensures reply == Done(Mac(engine.E, k1, k2, Flat(src)[..nbytes]))
      <==> BlockCount(nbytes) == 1 || Mappable(src, 16 * (BlockCount(nbytes) - 1))
  {
    var blocks, last, padding := SplitMessage(nbytes);
    var num := CountSgs(src, nbytes);
    var piv: Option<Block> := None;
    if blocks > 0 {
      LongList(src, nbytes, num);
      if num > LIST_ROOM {
        return Edom;
      }
      piv := RunLeading(engine, src, blocks);
      if piv.None? {
        return Lost;
      }
    }
    var mac := FinishMac(engine, k1, k2, src, nbytes, num, blocks, last, padding, piv);
    reply := Done(mac);
  }

  /** The last block, behind the first run's value if there was one. */
  method FinishMac(engine: CmacEngine, k1: Block, k2: Block, src: Segments, nbytes: nat, num: nat,
                   ghost blocks: nat, last: nat, padding: bool, leading: Option<Block>)
    returns (mac: Block)
    requires num <= |src| && nbytes <= |Flat(src[..num])| && nbytes <= |Flat(src)|
    requires blocks == BlockCount(nbytes) - 1 && 16 * blocks + last == nbytes
    requires padding <==> !Complete(nbytes)
    requires if padding then last < 16 else last == 16
    requires leading == if blocks > 0 then Some(Rounds(engine.E, Flat(src), blocks)) else None
    modifies engine
    ensures mac == Mac(engine.E, k1, k2, Flat(src)[..nbytes])
  {
    var piv := if leading.Some? then leading.value else Zero;
    RoundsPrefix(engine.E, Flat(src), nbytes, blocks);
    LastPart(src, num, nbytes, last);
    MacOfParts(engine.E, k1, k2, Flat(src)[..nbytes], blocks);
    mac := RunLast(engine, k1, k2, src, nbytes, num, last, padding, piv, leading.None?);
  }

  lemma MacOfParts(E: Block -> Block, k1: Block, k2: Block, msg: seq<Byte>, blocks: nat)
    requires blocks == BlockCount(|msg|) - 1
    ensures var tail := msg[16 * blocks..];
      && 16 * blocks <= |msg| && (Complete(|msg|) <==> |tail| == 16) && |tail| <= 16
      && Mac(E, k1, k2, msg)
         == E(Xor(if Complete(|msg|) then Xor(tail, k1) else Xor(Pad(tail), k2), Rounds(E, msg, blocks)))
  {
  }

  lemma LastPart(src: Segments, num: nat, nbytes: nat, last: nat)
    requires num <= |src| && last <= nbytes <= |Flat(src[..num])| && nbytes <= |Flat(src)|
    ensures Flat(src[..num])[nbytes - last..nbytes] == Flat(src)[..nbytes][nbytes - last..]
  {
    PrefixSlice(src, num, nbytes - last, nbytes);
  }

  lemma LongList(src: Segments, nbytes: nat, num: nat)
    requires num <= |src| && nbytes <= |Flat(src)|
    requires nbytes <= |Flat(src[..num])|
    requires num > 1 ==> |Flat(src[..num - 1])| < nbytes
    ensures num > LIST_ROOM <==> TooManySgs(src, nbytes)
  {
    if num > LIST_ROOM {
      FlatPrefix(src[..num - 1], LIST_ROOM);
      assert src[..num - 1][..LIST_ROOM] == src[..LIST_ROOM];
    } else if |src| > LIST_ROOM {
      FlatPrefix(src[..LIST_ROOM], num);
      assert src[..LIST_ROOM][..num] == src[..num];
    }
  }

  lemma {:induction false} RoundsPrefix(E: Block -> Block, flat: seq<Byte>, nbytes: nat, n: nat)
    requires 16 * n <= nbytes <= |flat|
    ensures Rounds(E, flat, n) == Rounds(E, flat[..nbytes], n)
  {
    if n > 0 {
      RoundsPrefix(E, flat, nbytes, n - 1);
      assert flat[..nbytes][16 * (n - 1)..16 * n] == flat[16 * (n - 1)..16 * n];
    }
  }

  lemma XorCommutes(a: Block, b: Block)
    ensures Xor(a, b) == Xor(b, a)
  {
    forall i | 0 <= i < 16 ensures XorByte(a[i], b[i]) == XorByte(b[i], a[i]) { }
  }
}
