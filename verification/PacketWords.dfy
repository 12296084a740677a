/** How the packet shader reads a packet: fields taken from packed words
    (src/packet/packet.wgsl:55-85 and 502-541) are the fields the host parses from bytes. */
module PacketWords {
  import opened Bits
  import opened Wire
  import opened WireLayouts
  import opened Packing
  import Cpu = CpuEngine

  // ----- the byte swap

  lemma AndDouble(a: nat, bit: nat, m: nat)
    requires bit <= 1
    ensures And(2 * a + bit, 2 * m) == 2 * And(a, m)
  {
  }

  /** A mask with k low zero bits ignores the k low bits. */
  lemma {:induction false} AndShifted(a: nat, r: nat, m: nat, am: nat, k: nat, p: nat, pa: nat, pm: nat, pr: nat)
    requires p == Pow2(k) && r < p && am == And(a, m) && pa == p * a && pm == p * m && pr == p * am
    ensures And(pa + r, pm) == pr
  {
    if k > 0 {
      var h := Pow2(k - 1);
      var ha, hm, hr := h * a, h * m, h * am;
      MulAssociates(2, h, a);
      MulAssociates(2, h, m);
      MulAssociates(2, h, am);
      AndShifted(a, r / 2, m, am, k - 1, h, ha, hm, hr);
      AndDouble(ha + r / 2, r % 2, hm);
    } else {
      assert r == 0 && p == 1;
    }
  }

  lemma AndOfByte(a: nat, b: u8)
    ensures And(0x100 * a + b, 0xff) == b
  {
    assert Pow2(8) == 0x100;
    AndMask(0x100 * a + b, 8);
    DivModUnique(0x100 * a + b, 0x100, a, b);
  }

  lemma Pow2OfBytes()
    ensures Pow2(8) == 0x100 && Pow2(16) == 0x1_0000 && Pow2(24) == 0x100_0000
  {
    assert Pow2(8) == 0x100;
    assert Pow2(16) == 0x1_0000;
  }

  /** A byte of a word, masked in place: `rest` above it, `low` below it. */
  lemma MaskByte(rest: nat, b: u8, low: nat, x: nat, k: nat, p: nat, px: nat, mask: nat, kept: nat)
    requires x == 0x100 * rest + b && p == Pow2(k) && low < p && px == p * x && mask == p * 0xff && kept == p * b
    ensures And(px + low, mask) == kept
  {
    AndOfByte(rest, b);
    AndShifted(x, low, 0xff, b, k, p, px, mask, kept);
  }

  lemma MaskByte1(b0: u8, b1: u8, b2: u8, b3: u8, w: u32)
    requires w == LeSum(b0, b1, b2, b3)
    ensures And(w, 0xff00) == 0x100 * b1
  {
    Pow2OfBytes();
    var x := Be32(0, b3, b2, b1);
    MaskByte(Be16(b3, b2), b1, b0, x, 8, 0x100, 0x100 * x, 0xff00, 0x100 * b1);
  }

  lemma MaskByte2(b0: u8, b1: u8, b2: u8, b3: u8, w: u32)
    requires w == LeSum(b0, b1, b2, b3)
    ensures And(w, 0xff_0000) == 0x1_0000 * b2
  {
    Pow2OfBytes();
    var x := Be16(b3, b2);
    MaskByte(b3, b2, Be16(b1, b0), x, 16, 0x1_0000, 0x1_0000 * x, 0xff_0000, 0x1_0000 * b2);
  }

  lemma MaskByte3(b0: u8, b1: u8, b2: u8, b3: u8, w: u32)
    requires w == LeSum(b0, b1, b2, b3)
    ensures And(w, 0xff00_0000) == 0x100_0000 * b3
  {
    Pow2OfBytes();
    MaskByte(0, b3, Be32(0, b2, b1, b0), b3, 24, 0x100_0000, 0x100_0000 * b3, 0xff00_0000, 0x100_0000 * b3);
  }

  /** A byte mask keeps one byte of a word in place. */
  lemma ByteMasks(b0: u8, b1: u8, b2: u8, b3: u8)
    ensures And(LeSum(b0, b1, b2, b3), 0xff) == LeSum(b0, 0, 0, 0)
    ensures And(LeSum(b0, b1, b2, b3), 0xff00) == LeSum(0, b1, 0, 0)
    ensures And(LeSum(b0, b1, b2, b3), 0xff_0000) == LeSum(0, 0, b2, 0)
    ensures And(LeSum(b0, b1, b2, b3), 0xff00_0000) == LeSum(0, 0, 0, b3)
  {
    var w := LeSum(b0, b1, b2, b3);
    AndOfByte(Be32(0, b3, b2, b1), b0);
    MaskByte1(b0, b1, b2, b3, w);
    MaskByte2(b0, b1, b2, b3, w);
    MaskByte3(b0, b1, b2, b3, w);
  }

  function ByteSwap(v: u32): u32 {
    AndBound(v, 0xff);
    AndBound(v, 0xff00);
    AndBound(v, 0xff_0000);
    AndBound(v, 0xff00_0000);
    OrU32(OrU32(OrU32(ShlBytes(And(v, 0xff), 3), ShlBytes(And(v, 0xff00), 1)),
                ShrBytes(And(v, 0xff_0000), 1)),
          ShrBytes(And(v, 0xff00_0000), 3))
  }

  lemma SwapParts(b0: u8, b1: u8, b2: u8, b3: u8)
    ensures ShlBytes(LeSum(b0, 0, 0, 0), 3) == LeSum(0, 0, 0, b0)
    ensures ShlBytes(LeSum(0, b1, 0, 0), 1) == LeSum(0, 0, b1, 0)
    ensures ShrBytes(LeSum(0, 0, b2, 0), 1) == LeSum(0, b2, 0, 0)
    ensures ShrBytes(LeSum(0, 0, 0, b3), 3) == LeSum(b3, 0, 0, 0)
  {
    ShlWord(b0, 0, 0, 0, 3);
    ShlWord(0, b1, 0, 0, 1);
    ShrWord(0, 0, b2, 0, 1);
    ShrWord(0, 0, 0, b3, 3);
  }

  /** Swapping exchanges little- and big-endian order. */
  lemma ByteSwapReverses(b0: u8, b1: u8, b2: u8, b3: u8)
    ensures ByteSwap(LeSum(b0, b1, b2, b3)) == LeSum(b3, b2, b1, b0)
  {
    ByteMasks(b0, b1, b2, b3);
    SwapParts(b0, b1, b2, b3);
    OrWord3(0, 0, b1, b0);
    OrWord2(0, b2, b1, b0);
    OrWord1(b3, b2, b1, b0);
  }

  // ----- reads

  /** The input words hold the packet from its word offset on, and their positions fit u32. */
  ghost predicate Input(words: seq<u32>, inputBase: nat, bytes: seq<u8>) {
    |words| <= 0x1_0000_0000 && HoldsBytes(words, 4 * inputBase, bytes)
  }

  lemma ByteIsThere(words: seq<u32>, inputBase: nat, bytes: seq<u8>, i: nat, q: nat, r: nat)
    requires Input(words, inputBase, bytes) && i < |bytes| && i == 4 * q + r && r <= 3
    ensures inputBase + q < |words| && ByteOf(words[inputBase + q], r) == bytes[i]
  {
    DivModUnique(4 * inputBase + i, 4, inputBase + q, r);
    assert HeldAt(words, 4 * inputBase, bytes, i);
  }

  method ReadByte(words: seq<u32>, inputBase: nat, index: nat, ghost bytes: seq<u8>) returns (value: u8)
    requires Input(words, inputBase, bytes) && index < |bytes|
    ensures value == bytes[index]
  {
    ByteIsThere(words, inputBase, bytes, index, index / 4, index % 4);
    var word := words[inputBase + index / 4];
    value := ByteOf(word, index % 4);
  }

  lemma LowPair(b0: u8, b1: u8, b2: u8, b3: u8)
    ensures LeSum(b0, b1, b2, b3) % 0x1_0000 == Be16(b1, b0)
  {
    DivModUnique(LeSum(b0, b1, b2, b3), 0x1_0000, Be16(b3, b2), Be16(b1, b0));
  }

  lemma HighPair(b0: u8, b1: u8, b2: u8, b3: u8)
    ensures LeSum(b0, b1, b2, b3) / 0x1_0000 % 0x1_0000 == Be16(b3, b2)
  {
    DivModUnique(LeSum(b0, b1, b2, b3), 0x1_0000, Be16(b3, b2), Be16(b1, b0));
    DivModUnique(Be16(b3, b2), 0x1_0000, 0, Be16(b3, b2));
  }

  lemma PairOfWord(word: u32, k: nat)
    requires k == 0 || k == 2
    ensures ShrBytes(word, k) % 0x1_0000 == Be16(ByteOf(word, k + 1), ByteOf(word, k))
  {
    WordOfBytes(word);
    LowPair(ByteOf(word, 0), ByteOf(word, 1), ByteOf(word, 2), ByteOf(word, 3));
    HighPair(ByteOf(word, 0), ByteOf(word, 1), ByteOf(word, 2), ByteOf(word, 3));
  }

  lemma SwapPair(high: u8, low: u8, pair: nat)
    requires pair == Be16(high, low)
    ensures pair % 0x100 == low && pair / 0x100 == high
  {
    DivModUnique(pair, 0x100, high, low);
  }

  lemma JoinSwapped(high: u8, low: u8, shifted: u32)
    requires shifted == ShlBytes(low, 1)
    ensures Or(shifted, high) == Be16(low, high)
  {
    ShiftedByte(low, shifted);
    OrBytes(shifted, high, 1);
  }

  lemma ShiftedByte(low: u8, shifted: u32)
    requires shifted == ShlBytes(low, 1)
    ensures shifted == 0x100 * low && shifted % Pow256(1) == 0
  {
  }

  /** `(word >> ((offset & 2) * 8)) & 0xffff`, its two bytes exchanged. */
  method ReadU16Be(words: seq<u32>, inputBase: nat, offset: nat, ghost bytes: seq<u8>) returns (value: u16)
    requires Input(words, inputBase, bytes) && offset + 2 <= |bytes| && offset % 2 == 0
    ensures value == Read16(bytes, offset)
  {
    var k := offset / 2 % 2 * 2;
    ByteIsThere(words, inputBase, bytes, offset, offset / 4, k);
    ByteIsThere(words, inputBase, bytes, offset + 1, offset / 4, k + 1);
    var word := words[inputBase + offset / 4];
    PairOfWord(word, k);
    var pair: nat := ShrBytes(word, k) % 0x1_0000;
    SwapPair(bytes[offset + 1], bytes[offset], pair);
    JoinSwapped(bytes[offset + 1], bytes[offset], ShlBytes(pair % 0x100, 1));
    value := Or(ShlBytes(pair % 0x100, 1), pair / 0x100);
  }

  method ReadU32Be(words: seq<u32>, inputBase: nat, offset: nat, ghost bytes: seq<u8>) returns (value: u32)
    requires Input(words, inputBase, bytes) && offset + 4 <= |bytes| && offset % 4 == 0
    ensures value == Read32(bytes, offset)
  {
    ByteIsThere(words, inputBase, bytes, offset, offset / 4, 0);
    ByteIsThere(words, inputBase, bytes, offset + 1, offset / 4, 1);
    ByteIsThere(words, inputBase, bytes, offset + 2, offset / 4, 2);
    ByteIsThere(words, inputBase, bytes, offset + 3, offset / 4, 3);
    var word := words[inputBase + offset / 4];
    WordOfBytes(word);
    ByteSwapReverses(bytes[offset], bytes[offset + 1], bytes[offset + 2], bytes[offset + 3]);
    value := ByteSwap(word);
  }

  // ----- parsing

  datatype Frame = Frame(tcpOffset: nat, dataOffset: nat, totalLen: nat)

  /** The frame of a packet the host's parser accepts. */
  ghost predicate Frames(f: Frame, bytes: seq<u8>) {
    && |bytes| >= 40
    && f.tcpOffset == bytes[0] % 16 * 4 && f.totalLen == Read16(bytes, 2)
    && f.tcpOffset + 20 <= f.tcpOffset + f.dataOffset <= f.totalLen <= |bytes|
    && f.dataOffset == bytes[f.tcpOffset + 12] / 16 * 4
  }

  /** The checks on the IP header: its length, when the packet may hold a TCP segment. */
  function IpHeaderLen(bytes: seq<u8>): Option<nat> {
    if |bytes| < 40 || bytes[0] / 16 != 4 || bytes[9] != 6 then None
    else
      var len := bytes[0] % 16 * 4;
      if len < 20 || len + 20 > |bytes| || Read16(bytes, 6) % 0x4000 != 0 then None else Some(len)
  }

  /** The checks on the lengths. */
  function FrameAt(bytes: seq<u8>, tcpOffset: nat): Option<Frame>
    requires 40 <= |bytes| && tcpOffset + 20 <= |bytes|
  {
    var totalLen, dataOffset := Read16(bytes, 2), bytes[tcpOffset + 12] / 16 * 4;
    if totalLen > |bytes| || totalLen < tcpOffset + 20 || dataOffset < 20 || tcpOffset + dataOffset > totalLen then None
    else Some(Frame(tcpOffset, dataOffset, totalLen))
  }

  /** They accept what the host's parser accepts. */
  lemma FrameIsParsed(bytes: seq<u8>)
    ensures ParseIpv4Tcp(bytes).Some? <==> IpHeaderLen(bytes).Some? && FrameAt(bytes, IpHeaderLen(bytes).value).Some?
  {
  }

  method LocateIp(words: seq<u32>, inputBase: nat, inputLen: nat, ghost bytes: seq<u8>) returns (len: Option<nat>)
    requires Input(words, inputBase, bytes) && |bytes| == inputLen
    ensures len == IpHeaderLen(bytes)
  {
    if inputLen < 40 { return None; }
    var versionIhl := ReadByte(words, inputBase, 0, bytes);
    var protocol := ReadByte(words, inputBase, 9, bytes);
    if versionIhl / 16 != 4 || protocol != 6 { return None; }
    var ipHeaderLen := versionIhl % 16 * 4;
    if ipHeaderLen < 20 || ipHeaderLen + 20 > inputLen { return None; }
    var fragment := ReadU16Be(words, inputBase, 6, bytes);
    if fragment % 0x4000 != 0 { return None; }
    len := Some(ipHeaderLen);
  }

  method LocateTcp(words: seq<u32>, inputBase: nat, inputLen: nat, tcpOffset: nat, ghost bytes: seq<u8>)
    returns (frame: Option<Frame>)
    requires Input(words, inputBase, bytes) && 40 <= |bytes| == inputLen && tcpOffset + 20 <= inputLen
    ensures frame == FrameAt(bytes, tcpOffset)
  {
    var totalLen: nat := ReadU16Be(words, inputBase, 2, bytes);
    if totalLen > inputLen || totalLen < tcpOffset + 20 { return None; }
    var offsetByte := ReadByte(words, inputBase, tcpOffset + 12, bytes);
    var dataOffset: nat := offsetByte / 16 * 4;
    if dataOffset < 20 || tcpOffset + dataOffset > totalLen { return None; }
    frame := Some(Frame(tcpOffset, dataOffset, totalLen));
  }

  /** The length and protocol checks at the start of the shader's `main`. */
  method LocatePacket(words: seq<u32>, inputBase: nat, inputLen: nat, ghost bytes: seq<u8>)
    returns (frame: Option<Frame>)
    requires Input(words, inputBase, bytes) && |bytes| == inputLen
    ensures frame.Some? <==> ParseIpv4Tcp(bytes).Some?
    ensures frame.Some? ==> Frames(frame.value, bytes)
  {
    FrameIsParsed(bytes);
    var tcpOffset := LocateIp(words, inputBase, inputLen, bytes);
    if tcpOffset.None? { return None; }
    frame := LocateTcp(words, inputBase, inputLen, tcpOffset.value, bytes);
  }

  /** The fields the shader takes from a packet it accepts; the payload stays in the input words. */
  datatype Located = Located(key: FlowKey, seqno: u32, ack: u32, flags: u8, payloadOffset: nat, payloadLen: nat)

  function SegmentOf(f: Located, bytes: seq<u8>): Tcp
    requires f.payloadOffset + f.payloadLen <= |bytes|
  {
    Tcp(f.key, f.seqno, f.ack, f.flags, bytes[f.payloadOffset..f.payloadOffset + f.payloadLen])
  }

  /** The fields of a segment, read at the frame's offsets. */
  ghost predicate FieldsRead(f: Located, bytes: seq<u8>, frame: Frame)
    requires Frames(frame, bytes)
  {
    && f.key == FlowKey(Read32(bytes, 12), Read32(bytes, 16), Read16(bytes, frame.tcpOffset),
      Read16(bytes, frame.tcpOffset + 2))
    && f.seqno == Read32(bytes, frame.tcpOffset + 4) && f.ack == Read32(bytes, frame.tcpOffset + 8)
    && f.flags == bytes[frame.tcpOffset + 13]
    && f.payloadOffset == frame.tcpOffset + frame.dataOffset && f.payloadLen == frame.totalLen - f.payloadOffset
  }

  /** What the host parses, by the frame's offsets. */
  function FrameSegment(frame: Frame, bytes: seq<u8>): Tcp
    requires Frames(frame, bytes)
  {
    var t := frame.tcpOffset;
    Tcp(FlowKey(Read32(bytes, 12), Read32(bytes, 16), Read16(bytes, t), Read16(bytes, t + 2)),
        Read32(bytes, t + 4), Read32(bytes, t + 8), bytes[t + 13], bytes[t + frame.dataOffset..frame.totalLen])
  }

  lemma ParsedInFrame(bytes: seq<u8>, frame: Frame)
    requires ParseIpv4Tcp(bytes).Some? && Frames(frame, bytes)
    ensures ParseIpv4Tcp(bytes) == Some(FrameSegment(frame, bytes)) && frame.tcpOffset >= 20
  {
  }

  lemma SegmentInFrame(listenPort: u16, bytes: seq<u8>, frame: Frame, f: Located)
    requires ParseIpv4Tcp(bytes).Some? && Frames(frame, bytes) && FieldsRead(f, bytes, frame)
    ensures Cpu.Receive(listenPort, bytes) == if f.key.dstPort == listenPort then Some(SegmentOf(f, bytes)) else None
  {
    ParsedInFrame(bytes, frame);
  }

  /** A located segment is in the input words. */
  ghost predicate Reads(words: seq<u32>, inputBase: nat, bytes: seq<u8>, f: Located, tcp: Tcp) {
    && Input(words, inputBase, bytes)
    && f.payloadOffset + f.payloadLen <= |bytes| && f.payloadLen < 0x1_0000
    && tcp == SegmentOf(f, bytes)
  }

  lemma PortDecides(listenPort: u16, bytes: seq<u8>, frame: Frame)
    requires ParseIpv4Tcp(bytes).Some? && Frames(frame, bytes)
    ensures frame.tcpOffset >= 20 && frame.tcpOffset % 4 == 0
    ensures Cpu.Receive(listenPort, bytes).Some? <==> Read16(bytes, frame.tcpOffset + 2) == listenPort
  {
    ParsedInFrame(bytes, frame);
    FourDivides(bytes[0] % 16);
  }

  lemma FourDivides(n: nat)
    ensures n * 4 % 4 == 0
  {
  }

  method ReadPorts(words: seq<u32>, inputBase: nat, tcpOffset: nat, ghost bytes: seq<u8>)
    returns (srcPort: u16, dstPort: u16)
    requires Input(words, inputBase, bytes) && tcpOffset + 4 <= |bytes| && tcpOffset % 4 == 0
    ensures srcPort == Read16(bytes, tcpOffset) && dstPort == Read16(bytes, tcpOffset + 2)
  {
    srcPort := ReadU16Be(words, inputBase, tcpOffset, bytes);
    dstPort := ReadU16Be(words, inputBase, tcpOffset + 2, bytes);
  }

  method ReadNumbers(words: seq<u32>, inputBase: nat, tcpOffset: nat, ghost bytes: seq<u8>)
    returns (seqno: u32, ack: u32, flags: u8)
    requires Input(words, inputBase, bytes) && tcpOffset + 20 <= |bytes| && tcpOffset % 4 == 0
    ensures seqno == Read32(bytes, tcpOffset + 4) && ack == Read32(bytes, tcpOffset + 8)
    ensures flags == bytes[tcpOffset + 13]
  {
    seqno := ReadU32Be(words, inputBase, tcpOffset + 4, bytes);
    ack := ReadU32Be(words, inputBase, tcpOffset + 8, bytes);
    flags := ReadByte(words, inputBase, tcpOffset + 13, bytes);
  }

  method ReadFields(words: seq<u32>, inputBase: nat, frame: Frame, listenPort: u16, ghost bytes: seq<u8>)
    returns (found: Option<Located>)
    requires Input(words, inputBase, bytes) && Frames(frame, bytes) && frame.tcpOffset >= 20
             && frame.tcpOffset % 4 == 0
    ensures found.Some? <==> Read16(bytes, frame.tcpOffset + 2) == listenPort
    ensures found.Some? ==> FieldsRead(found.value, bytes, frame)
  {
    var tcpOffset, payloadOffset := frame.tcpOffset, frame.tcpOffset + frame.dataOffset;
    var srcIp := ReadU32Be(words, inputBase, 12, bytes);
    var dstIp := ReadU32Be(words, inputBase, 16, bytes);
    var srcPort, dstPort := ReadPorts(words, inputBase, tcpOffset, bytes);
    if dstPort != listenPort { return None; }
    var seqno, ack, flags := ReadNumbers(words, inputBase, tcpOffset, bytes);
    return Some(Located(FlowKey(srcIp, dstIp, srcPort, dstPort), seqno, ack, flags, payloadOffset,
      frame.totalLen - payloadOffset));
  }

  /** The shader accepts exactly the packets the host receives, and reads the same segment. */
  method ParsePacket(words: seq<u32>, inputBase: nat, inputLen: nat, listenPort: u16, ghost bytes: seq<u8>)
    returns (found: Option<Located>)
    requires Input(words, inputBase, bytes) && |bytes| == inputLen
    ensures found.Some? <==> Cpu.Receive(listenPort, bytes).Some?
    ensures found.Some? ==>
              && found.value.payloadOffset + found.value.payloadLen <= inputLen && found.value.payloadLen < 0x1_0000
              && Cpu.Receive(listenPort, bytes) == Some(SegmentOf(found.value, bytes))
    ensures found.Some? ==> IsLaid(bytes, SegmentOf(found.value, bytes)) && found.value.key.dstPort == listenPort
    ensures found.None? ==> forall t :: IsLaid(bytes, t) ==> t.key.dstPort != listenPort
  {
    IgnoresExactly(listenPort, bytes);
    var frame := LocatePacket(words, inputBase, inputLen, bytes);
    if frame.None? { return None; }
    PortDecides(listenPort, bytes, frame.value);
    found := ReadFields(words, inputBase, frame.value, listenPort, bytes);
    if found.Some? {
      SegmentInFrame(listenPort, bytes, frame.value, found.value);
      ReceivesExactly(listenPort, bytes, SegmentOf(found.value, bytes));
    }
  }
}
