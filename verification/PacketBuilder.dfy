/** `build_ipv4_tcp_packet` writing into its buffer (src/packet/wire.rs:58-93). */
module PacketBuilder {
  import opened Bits
  import opened Checksum
  import opened Wire
  import opened WireTheorems

  method Write16(packet: array<u8>, offset: nat, value: u16)
    requires offset + 2 <= packet.Length
    modifies packet
    ensures packet[offset] == Byte1(value) && packet[offset + 1] == Byte0(value)
    ensures forall i :: 0 <= i < packet.Length && !(offset <= i < offset + 2) ==> packet[i] == old(packet[i])
  {
    packet[offset], packet[offset + 1] := Byte1(value), Byte0(value);
  }

  method Write32(packet: array<u8>, offset: nat, value: u32)
    requires offset + 4 <= packet.Length
    modifies packet
    ensures packet[offset] == Byte3(value) && packet[offset + 1] == Byte2(value)
    ensures packet[offset + 2] == Byte1(value) && packet[offset + 3] == Byte0(value)
    ensures forall i :: 0 <= i < packet.Length && !(offset <= i < offset + 4) ==> packet[i] == old(packet[i])
  {
    packet[offset], packet[offset + 1] := Byte3(value), Byte2(value);
    packet[offset + 2], packet[offset + 3] := Byte1(value), Byte0(value);
  }

  method WriteIpFixedFields(packet: array<u8>)
    requires 40 <= packet.Length < 0x1_0000
    requires forall i :: 0 <= i < 12 ==> packet[i] == 0
    modifies packet
    ensures packet[..12] == IpHeader(packet.Length, 0, 0, 0)[..12]
    ensures forall i :: 12 <= i < packet.Length ==> packet[i] == old(packet[i])
  {
    packet[0] := 0x45;
    Write16(packet, 2, packet.Length);
    Write16(packet, 6, 0x4000);
    packet[8] := 64;
    packet[9] := 6;
  }

  method WriteIpHeader(packet: array<u8>, key: FlowKey)
    requires 40 <= packet.Length < 0x1_0000
    requires forall i :: 0 <= i < 12 ==> packet[i] == 0
    modifies packet
    ensures packet[..20] == IpHeader(packet.Length, key.srcIp, key.dstIp, 0)
    ensures packet[20..] == old(packet[20..])
  {
    WriteIpFixedFields(packet);
    ghost var fixed := packet[..12];
    Write32(packet, 12, key.srcIp);
    Write32(packet, 16, key.dstIp);
    assert packet[..12] == fixed;
    assert packet[..20] == packet[..12] + packet[12..20];
  }

  method WriteTcpNumbers(packet: array<u8>, t: Tcp)
    requires 40 <= packet.Length
    modifies packet
    ensures packet[20..32] == TcpHeader(t.key.srcPort, t.key.dstPort, t.seqno, t.ack, 0, 0)[..12]
    ensures forall i :: 0 <= i < packet.Length && !(20 <= i < 32) ==> packet[i] == old(packet[i])
  {
    Write16(packet, 20, t.key.srcPort);
    Write16(packet, 22, t.key.dstPort);
    Write32(packet, 24, t.seqno);
    Write32(packet, 28, t.ack);
  }

  lemma TcpHeaderParts(t: Tcp)
    ensures TcpHeader(t.key.srcPort, t.key.dstPort, t.seqno, t.ack, t.flags, 0) ==
              TcpHeader(t.key.srcPort, t.key.dstPort, t.seqno, t.ack, 0, 0)[..12]
              + [0x50, t.flags, 0xff, 0xff, 0, 0, 0, 0]
  {
  }

  method WriteTcpHeader(packet: array<u8>, t: Tcp)
    requires 40 <= packet.Length
    requires forall i :: 32 <= i < 40 ==> packet[i] == 0
    modifies packet
    ensures packet[20..40] == TcpHeader(t.key.srcPort, t.key.dstPort, t.seqno, t.ack, t.flags, 0)
    ensures packet[..20] == old(packet[..20])
    ensures packet[40..] == old(packet[40..])
  {
    WriteTcpNumbers(packet, t);
    ghost var numbers := packet[20..32];
    packet[32] := 0x50;
    packet[33] := t.flags;
    Write16(packet, 34, 0xffff);
    assert packet[20..32] == numbers;
    TcpHeaderParts(t);
    assert packet[32..40] == [0x50, t.flags, 0xff, 0xff, 0, 0, 0, 0];
    assert packet[20..40] == packet[20..32] + packet[32..40];
  }

  /** `checksum(&packet[..20])`, stored in its field. */
  method StoreIpChecksum(packet: array<u8>, key: FlowKey)
    requires 40 <= packet.Length < 0x1_0000
    requires packet[..20] == IpHeader(packet.Length, key.srcIp, key.dstIp, 0)
    modifies packet
    ensures packet[..20] ==
              IpHeader(packet.Length, key.srcIp, key.dstIp, IpChecksum(packet.Length, key.srcIp, key.dstIp))
    ensures packet[20..] == old(packet[20..])
  {
    ghost var header := packet[..20];
    var sum := SumChunks(packet[..20], 0, -1);
    var c := FoldChecksum(sum);
    Write16(packet, 10, c);
    assert forall i :: 0 <= i < 20 && i != 10 && i != 11 ==> packet[i] == header[i];
  }

  /** `tcp_checksum(&packet, 20, true)`: the pseudo-header, then the segment without its checksum word. */
  method SegmentSum(packet: array<u8>) returns (sum: u32)
    requires 40 <= packet.Length <= MAX_RAW_PACKET_BYTES
    requires packet[36] == 0 && packet[37] == 0
    ensures sum == PseudoSum(Read32(packet[..], 12), Read32(packet[..], 16), packet.Length - 20)
            + SumPairs(packet[20..])
  {
    var whole := packet[..];
    HalvesOfRead(whole, 12);
    HalvesOfRead(whole, 16);
    var pseudo: nat := Read16(whole, 12);
    pseudo := pseudo + Read16(whole, 14);
    pseudo := pseudo + Read16(whole, 16);
    pseudo := pseudo + Read16(whole, 18);
    pseudo := pseudo + 6 + (packet.Length - 20);
    sum := SumChunks(packet[20..], pseudo, 8);
  }

  lemma HalvesOfRead(b: seq<u8>, offset: nat)
    requires offset + 4 <= |b|
    ensures Halves(Read32(b, offset)) == Read16(b, offset) + Read16(b, offset + 2)
  {
    DivModUnique(Read32(b, offset), 0x1_0000, Read16(b, offset), Read16(b, offset + 2));
  }

  method SegmentField(packet: array<u8>, ghost src: u32, ghost dst: u32) returns (c: u16)
    requires 40 <= packet.Length <= MAX_RAW_PACKET_BYTES
    requires packet[36] == 0 && packet[37] == 0
    requires Read32(packet[..], 12) == src && Read32(packet[..], 16) == dst
    ensures c == SegmentChecksum(src, dst, packet[20..])
  {
    var sum := SegmentSum(packet);
    c := FoldChecksum(sum);
  }

  method StoreTcpChecksum(packet: array<u8>, t: Tcp)
    requires packet.Length == 40 + |t.payload| <= MAX_RAW_PACKET_BYTES
    requires Read32(packet[..], 12) == t.key.srcIp && Read32(packet[..], 16) == t.key.dstIp
    requires packet[20..40] == TcpHeader(t.key.srcPort, t.key.dstPort, t.seqno, t.ack, t.flags, 0)
    requires packet[40..] == t.payload
    modifies packet
    ensures packet[20..40] == TcpHeader(t.key.srcPort, t.key.dstPort, t.seqno, t.ack, t.flags, TcpChecksum(t))
    ensures packet[40..] == t.payload
    ensures packet[..20] == old(packet[..20])
  {
    ghost var header := TcpHeader(t.key.srcPort, t.key.dstPort, t.seqno, t.ack, t.flags, 0);
    var c := StoreSegmentField(packet, t.key.srcIp, t.key.dstIp, header, t.payload);
    ChecksumField(t, c);
  }

  method StoreSegmentField(packet: array<u8>, ghost src: u32, ghost dst: u32, ghost header: seq<u8>,
      ghost payload: seq<u8>)
    returns (c: u16)
    requires 40 <= packet.Length <= MAX_RAW_PACKET_BYTES
    requires |header| == 20 && header[16] == 0 && header[17] == 0
    requires Read32(packet[..], 12) == src && Read32(packet[..], 16) == dst
    requires packet[20..40] == header && packet[40..] == payload
    modifies packet
    ensures c == SegmentChecksum(src, dst, header + payload)
    ensures packet[20..40] == header[16 := Byte1(c)][17 := Byte0(c)]
    ensures packet[40..] == payload
    ensures packet[..20] == old(packet[..20])
  {
    assert packet[36] == header[16] && packet[37] == header[17];
    assert packet[20..] == header + payload;
    c := SegmentField(packet, src, dst);
    Write16(packet, 36, c);
  }

  lemma ChecksumField(t: Tcp, c: u16)
    ensures TcpHeader(t.key.srcPort, t.key.dstPort, t.seqno, t.ack, t.flags, 0)[16 := Byte1(c)][17 := Byte0(c)] ==
              TcpHeader(t.key.srcPort, t.key.dstPort, t.seqno, t.ack, t.flags, c)
  {
  }

  datatype BuildResult = Built(bytes: seq<u8>) | PacketTooLarge

  lemma AddressesAt(b: seq<u8>, total: u16, key: FlowKey, c: u16)
    requires |b| >= 20 && b[..20] == IpHeader(total, key.srcIp, key.dstIp, c)
    ensures Read32(b, 12) == key.srcIp && Read32(b, 16) == key.dstIp
  {
    var h := b[..20];
    assert forall i :: 0 <= i < 20 ==> b[i] == h[i];
    Be32Split(key.srcIp);
    Be32Split(key.dstIp);
  }

  method WriteContents(packet: array<u8>, t: Tcp)
    requires packet.Length == 40 + |t.payload| <= MAX_RAW_PACKET_BYTES
    requires forall i :: 0 <= i < 40 ==> packet[i] == 0
    modifies packet
    ensures packet[..20] == IpHeader(packet.Length, t.key.srcIp, t.key.dstIp, 0)
    ensures packet[20..40] == TcpHeader(t.key.srcPort, t.key.dstPort, t.seqno, t.ack, t.flags, 0)
    ensures packet[40..] == t.payload
  {
    WriteIpHeader(packet, t.key);
    WriteTcpHeader(packet, t);
    ghost var headers := packet[..40];
    assert headers[..20] == packet[..20] && headers[20..] == packet[20..40];
    forall i | 0 <= i < |t.payload| {
      packet[40 + i] := t.payload[i];
    }
    assert packet[..40] == headers;
  }

  method StoreChecksums(packet: array<u8>, t: Tcp)
    requires packet.Length == 40 + |t.payload| <= MAX_RAW_PACKET_BYTES
    requires packet[..20] == IpHeader(packet.Length, t.key.srcIp, t.key.dstIp, 0)
    requires packet[20..40] == TcpHeader(t.key.srcPort, t.key.dstPort, t.seqno, t.ack, t.flags, 0)
    requires packet[40..] == t.payload
    modifies packet
    ensures packet[..] == PacketBytes(t)
  {
    ghost var segment := packet[20..];
    assert segment[..20] == packet[20..40] && segment[20..] == packet[40..];
    StoreIpChecksum(packet, t.key);
    assert packet[20..40] == segment[..20] && packet[40..] == segment[20..];
    StoreLastChecksum(packet, t);
  }

  lemma Assembled(b: seq<u8>, t: Tcp)
    requires Fits(t) && |b| == 40 + |t.payload|
    requires b[..20] == IpHeader(|b|, t.key.srcIp, t.key.dstIp, IpChecksum(|b|, t.key.srcIp, t.key.dstIp))
    requires b[20..40] == TcpHeader(t.key.srcPort, t.key.dstPort, t.seqno, t.ack, t.flags, TcpChecksum(t))
    requires b[40..] == t.payload
    ensures b == PacketBytes(t)
  {
    assert b == b[..20] + b[20..40] + b[40..];
  }

  method StoreLastChecksum(packet: array<u8>, t: Tcp)
    requires packet.Length == 40 + |t.payload| <= MAX_RAW_PACKET_BYTES
    requires packet[..20] ==
               IpHeader(packet.Length, t.key.srcIp, t.key.dstIp, IpChecksum(packet.Length, t.key.srcIp, t.key.dstIp))
    requires packet[20..40] == TcpHeader(t.key.srcPort, t.key.dstPort, t.seqno, t.ack, t.flags, 0)
    requires packet[40..] == t.payload
    modifies packet
    ensures packet[..] == PacketBytes(t)
  {
    AddressesAt(packet[..], packet.Length, t.key, IpChecksum(packet.Length, t.key.srcIp, t.key.dstIp));
    StoreTcpChecksum(packet, t);
    Assembled(packet[..], t);
  }

  /** The builder produces exactly the specified bytes, or refuses what does not fit a raw packet. */
  method BuildIpv4TcpPacket(t: Tcp) returns (r: BuildResult)
    ensures r == if Fits(t) then Built(PacketBytes(t)) else PacketTooLarge
  {
    var total := 40 + |t.payload|;
    if total > MAX_RAW_PACKET_BYTES {
      return PacketTooLarge;
    }
    var packet := new u8[total](i => 0);
    WriteContents(packet, t);
    StoreChecksums(packet, t);
    r := Built(packet[..]);
  }
}
