/** What holds of every built packet: it parses back to its fields, and both checksums validate. */
module WireTheorems {
  import opened Bits
  import opened Checksum
  import opened Wire

  lemma Be16Split(v: u16)
    ensures Be16(Byte1(v), Byte0(v)) == v
  {
  }

  lemma Be32Split(v: u32)
    ensures Be32(Byte3(v), Byte2(v), Byte1(v), Byte0(v)) == v
    ensures Be16(Byte3(v), Byte2(v)) == v / 0x1_0000
    ensures Be16(Byte1(v), Byte0(v)) == v % 0x1_0000
  {
    assert v / 0x1_0000 == 0x100 * (v / 0x100_0000) + v / 0x1_0000 % 0x100;
    assert v % 0x1_0000 == 0x100 * (v / 0x100 % 0x100) + v % 0x100;
  }

  lemma Layout(t: Tcp)
    requires Fits(t)
    ensures var b := PacketBytes(t); var total := 40 + |t.payload|;
            && b[..20] == IpHeader(total, t.key.srcIp, t.key.dstIp, IpChecksum(total, t.key.srcIp, t.key.dstIp))
            && b[20..40] == TcpHeader(t.key.srcPort, t.key.dstPort, t.seqno, t.ack, t.flags, TcpChecksum(t))
            && b[40..] == t.payload
            && b[20..] == b[20..40] + b[40..]
  {
  }

  /** The header fields the parsers read, at their offsets. */
  predicate IpFieldsAre(b: seq<u8>, t: Tcp) {
    && |b| == 40 + |t.payload|
    && b[0] == 0x45 && b[9] == 6
    && Read16(b, 2) == |b| && Read16(b, 6) == 0x4000
    && Read32(b, 12) == t.key.srcIp && Read32(b, 16) == t.key.dstIp
  }

  predicate TcpFieldsAre(b: seq<u8>, t: Tcp) {
    && |b| == 40 + |t.payload|
    && Read16(b, 20) == t.key.srcPort && Read16(b, 22) == t.key.dstPort
    && Read32(b, 24) == t.seqno && Read32(b, 28) == t.ack
    && b[32] == 0x50 && b[33] == t.flags
    && b[40..] == t.payload
  }

  lemma IpFields(t: Tcp)
    requires Fits(t)
    ensures IpFieldsAre(PacketBytes(t), t)
  {
    Layout(t);
    var b := PacketBytes(t);
    var h := b[..20];
    assert forall i :: 0 <= i < 20 ==> b[i] == h[i];
    Be16Split(40 + |t.payload|);
    Be32Split(t.key.srcIp);
    Be32Split(t.key.dstIp);
  }

  lemma TcpFields(t: Tcp)
    requires Fits(t)
    ensures TcpFieldsAre(PacketBytes(t), t)
  {
    Layout(t);
    var b := PacketBytes(t);
    var h := b[20..40];
    assert b[20] == h[0] && b[21] == h[1] && b[22] == h[2] && b[23] == h[3];
    assert b[24] == h[4] && b[25] == h[5] && b[26] == h[6] && b[27] == h[7];
    assert b[28] == h[8] && b[29] == h[9] && b[30] == h[10] && b[31] == h[11];
    assert b[32] == h[12] && b[33] == h[13];
    Be16Split(t.key.srcPort);
    Be16Split(t.key.dstPort);
    Be32Split(t.seqno);
    Be32Split(t.ack);
  }

  lemma FieldsParse(b: seq<u8>, t: Tcp)
    requires IpFieldsAre(b, t) && TcpFieldsAre(b, t) && Fits(t)
    ensures ParseIpv4Tcp(b) == Some(t)
    ensures SchedulingFlowKey(b) == Some(t.key)
  {
    assert 0x45 / 16 == 4 && 0x45 % 16 * 4 == 20 && 0x50 / 16 * 4 == 20;
    assert 0x4000 % 0x4000 == 0;
    assert b[40..|b|] == b[40..];
  }

  /** Parsing inverts building, for the engine's parser and for the scheduler's. */
  lemma BuildParses(t: Tcp)
    requires Fits(t)
    ensures ParseIpv4Tcp(PacketBytes(t)) == Some(t)
    ensures SchedulingFlowKey(PacketBytes(t)) == Some(t.key)
  {
    IpFields(t);
    TcpFields(t);
    FieldsParse(PacketBytes(t), t);
  }

  lemma IpHeaderSum(total: u16, src: u32, dst: u32, c: u16)
    ensures SumPairs(IpHeader(total, src, dst, c)) == 0x4500 + total + 0x4000 + 0x4006 + c + Halves(src) + Halves(dst)
  {
    SumTwenty(IpHeader(total, src, dst, c));
    Be16Split(total);
    Be16Split(c);
    Be32Split(src);
    Be32Split(dst);
  }

  lemma TcpHeaderSum(srcPort: u16, dstPort: u16, seqno: u32, ack: u32, flags: u8, c: u16)
    ensures SumPairs(TcpHeader(srcPort, dstPort, seqno, ack, flags, c)) ==
              srcPort + dstPort + Halves(seqno) + Halves(ack) + (0x5000 + flags) + 0xffff + c
  {
    SumTwenty(TcpHeader(srcPort, dstPort, seqno, ack, flags, c));
    Be16Split(srcPort);
    Be16Split(dstPort);
    Be16Split(c);
    Be32Split(seqno);
    Be32Split(ack);
  }

  lemma TcpSegmentSum(t: Tcp, c: u16)
    ensures SumPairs(TcpHeader(t.key.srcPort, t.key.dstPort, t.seqno, t.ack, t.flags, c) + t.payload) ==
              t.key.srcPort + t.key.dstPort + Halves(t.seqno) + Halves(t.ack) + (0x5000 + t.flags) + 0xffff + c
              + SumPairs(t.payload)
  {
    SumPairsConcat(TcpHeader(t.key.srcPort, t.key.dstPort, t.seqno, t.ack, t.flags, c), t.payload);
    TcpHeaderSum(t.key.srcPort, t.key.dstPort, t.seqno, t.ack, t.flags, c);
  }

  lemma IpHeaderValidates(total: u16, src: u32, dst: u32)
    ensures RegionChecksum(IpHeader(total, src, dst, IpChecksum(total, src, dst))) == 0
  {
    IpHeaderSum(total, src, dst, 0);
    IpHeaderSum(total, src, dst, IpChecksum(total, src, dst));
    FilledFieldValidates(SumPairs(IpHeader(total, src, dst, 0)),
                         SumPairs(IpHeader(total, src, dst, IpChecksum(total, src, dst))));
  }

  lemma TcpSegmentValidates(t: Tcp)
    ensures SegmentChecksum(t.key.srcIp, t.key.dstIp,
                            TcpHeader(t.key.srcPort, t.key.dstPort, t.seqno, t.ack, t.flags, TcpChecksum(t))
                              + t.payload) == 0
  {
    var empty := TcpHeader(t.key.srcPort, t.key.dstPort, t.seqno, t.ack, t.flags, 0) + t.payload;
    var filled := TcpHeader(t.key.srcPort, t.key.dstPort, t.seqno, t.ack, t.flags, TcpChecksum(t)) + t.payload;
    var pseudo := PseudoSum(t.key.srcIp, t.key.dstIp, 20 + |t.payload|);
    TcpSegmentSum(t, 0);
    TcpSegmentSum(t, TcpChecksum(t));
    FilledFieldValidates(pseudo + SumPairs(empty), pseudo + SumPairs(filled));
  }

  lemma FieldsValidate(b: seq<u8>, t: Tcp)
    requires IpFieldsAre(b, t)
    requires RegionChecksum(b[..20]) == 0 && SegmentChecksum(t.key.srcIp, t.key.dstIp, b[20..]) == 0
    ensures ValidateChecksums(b) == Valid
  {
    assert b[20..|b|] == b[20..];
  }

  /** Both checksums of a built packet validate. */
  lemma BuildValidates(t: Tcp)
    requires Fits(t)
    ensures ValidateChecksums(PacketBytes(t)) == Valid
  {
    Layout(t);
    IpFields(t);
    IpHeaderValidates(40 + |t.payload|, t.key.srcIp, t.key.dstIp);
    TcpSegmentValidates(t);
    FieldsValidate(PacketBytes(t), t);
  }

  // ----- what the checksums say of the bytes

  /** The pseudo-header of section 3.1 of RFC 9293: both addresses, zero, the protocol, the length. */
  function PseudoHeader(addresses: seq<u8>, tcpLen: u16): (h: seq<u8>)
    requires |addresses| == 8
    ensures |h| == 12
  {
    addresses + [0, 6, tcpLen / 0x100, tcpLen % 0x100]
  }

  lemma SumTwelve(s: seq<u8>)
    requires |s| == 12
    ensures SumPairs(s) == WordAt(s, 0) + WordAt(s, 2) + WordAt(s, 4) + WordAt(s, 6) + WordAt(s, 8) + WordAt(s, 10)
  {
    assert s[0..] == s;
    SumStep(s, 0); SumStep(s, 2); SumStep(s, 4); SumStep(s, 6); SumStep(s, 8); SumStep(s, 10);
  }

  lemma PseudoHeaderSum(b: seq<u8>, tcpLen: u16)
    requires |b| == 8
    ensures SumPairs(PseudoHeader(b, tcpLen)) == PseudoSum(Read32(b, 0), Read32(b, 4), tcpLen)
  {
    SumTwelve(PseudoHeader(b, tcpLen));
    ReadHalves(b, 0);
    ReadHalves(b, 4);
  }

  lemma ReadHalves(b: seq<u8>, i: nat)
    requires i + 4 <= |b|
    ensures Halves(Read32(b, i)) == Be16(b[i], b[i + 1]) + Be16(b[i + 2], b[i + 3])
  {
    DivModUnique(Read32(b, i), 0x1_0000, Be16(b[i], b[i + 1]), Be16(b[i + 2], b[i + 3]));
  }

  lemma JoinedSum(head: seq<u8>, segment: seq<u8>, whole: seq<u8>, sum: nat)
    requires |head| % 2 == 0 && sum == SumPairs(head) && whole == head + segment
    ensures SumPairs(whole) == sum + SumPairs(segment)
  {
    SumPairsConcat(head, segment);
  }

  lemma HoldsJoined(head: seq<u8>, segment: seq<u8>, whole: seq<u8>, sum: nat)
    requires |head| % 2 == 0 && sum == SumPairs(head) && whole == head + segment
    ensures Complement(sum + SumPairs(segment)) == 0 <==> ChecksumHolds(whole)
  {
    JoinedSum(head, segment, whole, sum);
    HoldsExactly(whole);
  }

  lemma SumOfSegment(src: u32, dst: u32, head: seq<u8>, segment: seq<u8>)
    requires |head| % 2 == 0 && SumPairs(head) == PseudoSum(src, dst, |segment|)
    ensures SegmentChecksum(src, dst, segment) == 0 <==> ChecksumHolds(head + segment)
  {
    HoldsJoined(head, segment, head + segment, PseudoSum(src, dst, |segment|));
  }

  /** A segment's checksum comes out as zero exactly when pseudo-header and segment together denote
      a multiple of 0xffff. */
  lemma SegmentHoldsExactly(b: seq<u8>, segment: seq<u8>)
    requires |b| == 8 && |segment| < 0x1_0000
    ensures SegmentChecksum(Read32(b, 0), Read32(b, 4), segment) == 0
            <==> ChecksumHolds(PseudoHeader(b, |segment|) + segment)
  {
    PseudoHeaderSum(b, |segment|);
    SumOfSegment(Read32(b, 0), Read32(b, 4), PseudoHeader(b, |segment|), segment);
  }

  lemma ReadPart(b: seq<u8>, i: nat, part: seq<u8>, k: nat)
    requires i + |part| <= |b| && part == b[i..i + |part|] && k + 4 <= |part|
    ensures Read32(part, k) == Read32(b, i + k)
  {
  }

  lemma SegmentOfPacket(b: seq<u8>, addresses: seq<u8>, segment: seq<u8>)
    requires |b| >= 20 && addresses == b[12..20] && |segment| < 0x1_0000
    ensures SegmentChecksum(Read32(b, 12), Read32(b, 16), segment) == 0
            <==> ChecksumHolds(PseudoHeader(addresses, |segment|) + segment)
  {
    ReadPart(b, 12, addresses, 0);
    ReadPart(b, 12, addresses, 4);
    SegmentHoldsExactly(addresses, segment);
  }

  /** The header's lengths, by their bytes. */
  predicate LengthsHold(b: seq<u8>, headerLen: nat, totalLen: nat) {
    && |b| >= 40 && headerLen == b[0] % 16 * 4 && totalLen == Be16(b[2], b[3])
    && 20 <= headerLen <= totalLen <= |b|
  }

  lemma ValidByLengths(b: seq<u8>, headerLen: nat, totalLen: nat)
    requires LengthsHold(b, headerLen, totalLen)
    ensures ValidateChecksums(b) == Valid <==>
              && RegionChecksum(b[..headerLen]) == 0
              && SegmentChecksum(Read32(b, 12), Read32(b, 16), b[headerLen..totalLen]) == 0
  {
  }

  /** A packet validates exactly when its lengths hold and its header, and its segment behind the
      pseudo-header, denote multiples of 0xffff. */
  lemma ValidExactly(b: seq<u8>, headerLen: nat, totalLen: nat)
    requires |b| >= 40 && headerLen == b[0] % 16 * 4 && totalLen == Be16(b[2], b[3])
    ensures ValidateChecksums(b) == Valid <==>
              && LengthsHold(b, headerLen, totalLen)
              && ChecksumHolds(b[..headerLen])
              && ChecksumHolds(PseudoHeader(b[12..20], totalLen - headerLen) + b[headerLen..totalLen])
  {
    if LengthsHold(b, headerLen, totalLen) {
      ValidByLengths(b, headerLen, totalLen);
      HoldsExactly(b[..headerLen]);
      SegmentOfPacket(b, b[12..20], b[headerLen..totalLen]);
    }
  }

  /** A packet any receiver accepts: version, lengths, protocol, no fragment, and both checksums. */
  predicate SoundPacket(b: seq<u8>) {
    && 40 <= |b| < 0x1_0000
    && b[0] == 0x45 && Be16(b[2], b[3]) == |b| && b[6] == 0x40 && b[7] == 0 && b[8] == 64 && b[9] == 6 && b[32] == 0x50
    && ChecksumHolds(b[..20]) && ChecksumHolds(PseudoHeader(b[12..20], |b| - 20) + b[20..])
  }

  lemma FixedBytes(t: Tcp)
    requires Fits(t)
    ensures var b := PacketBytes(t); b[6] == 0x40 && b[7] == 0 && b[8] == 64
  {
  }

  /** Every built packet is one. */
  lemma BuiltIsSound(t: Tcp)
    requires Fits(t)
    ensures SoundPacket(PacketBytes(t))
  {
    var b := PacketBytes(t);
    BuildValidates(t);
    IpFields(t);
    TcpFields(t);
    FixedBytes(t);
    assert 0x45 % 16 * 4 == 20;
    ValidExactly(b, 20, |b|);
    assert b[20..|b|] == b[20..];
  }

  // ----- hashes

  /** One step of FNV-1a, with its 32-bit prime. */
  function FnvStep(hash: u32, value: u32): u32 {
    Xor(hash, value) * 0x0100_0193 % 0x1_0000_0000
  }

  lemma FnvMore(front: seq<u32>, last: u32)
    ensures Fnv1a(front + [last]) == FnvStep(Fnv1a(front), last)
    ensures Fnv1a([]) == 0x811c_9dc5
  {
    assert (front + [last])[..|front|] == front;
  }

  /** The hash of a flow: four steps from the offset basis. */
  lemma FlowHashIs(key: FlowKey)
    ensures FlowHash(key)
            == FnvStep(FnvStep(FnvStep(FnvStep(0x811c_9dc5, key.srcIp), key.dstIp), key.srcPort), key.dstPort)
  {
    FnvMore([], key.srcIp);
    FnvMore([key.srcIp], key.dstIp);
    FnvMore([key.srcIp, key.dstIp], key.srcPort);
    FnvMore([key.srcIp, key.dstIp, key.srcPort], key.dstPort);
    assert [] + [key.srcIp] == [key.srcIp];
    assert [key.srcIp] + [key.dstIp] == [key.srcIp, key.dstIp];
    assert [key.srcIp, key.dstIp] + [key.srcPort] == [key.srcIp, key.dstIp, key.srcPort];
    assert [key.srcIp, key.dstIp, key.srcPort] + [key.dstPort]
           == [key.srcIp, key.dstIp, key.srcPort, key.dstPort];
  }

  /** The server's initial number and the flow's hash differ in a fixed pattern of bits. */
  lemma ServerIsnIs(key: FlowKey)
    ensures Xor(FlowHash(key), ServerIsn(key)) == 0xa5a5_5a5a
  {
    XorTwice(FlowHash(key), 0xa5a5_5a5a);
  }
}
