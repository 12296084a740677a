/** Where a reply goes and what it carries, in bytes (src/packet/cpu.rs:237-243, the calls of
    `emit_packet` in src/packet/packet.wgsl:543-697). */
module ReplyBytes {
  import opened Bits
  import opened Wire
  import opened WireTheorems
  import opened Responses

  /** The reply's addresses and ports are the packet's, exchanged. */
  predicate AddressedBack(packet: seq<u8>, reply: seq<u8>) {
    && |packet| >= 20 && |reply| >= 40
    && var t := packet[0] % 16 * 4;
    && t + 4 <= |packet|
    && reply[12..16] == packet[16..20] && reply[16..20] == packet[12..16]
    && reply[20..22] == packet[t + 2..t + 4] && reply[22..24] == packet[t..t + 2]
  }

  /** The flags of a reply are ACK, SYN and ACK, or PSH and ACK; those last exactly when it carries a
      response text; SYN and ACK only answers a SYN that is not an ACK. */
  predicate FlagsFit(packet: seq<u8>, reply: seq<u8>) {
    && |packet| >= 20 && |reply| >= 40
    && var t := packet[0] % 16 * 4;
    && t + 14 <= |packet|
    && (reply[33] == 0x10 || reply[33] == 0x12 || reply[33] == 0x18)
    && (reply[33] == 0x18 <==> |reply| > 40)
    && (reply[33] == 0x12 ==> packet[t + 13] / 2 % 2 == 1 && packet[t + 13] / 16 % 2 == 0)
  }

  /** Nothing after the header, or one of the response texts. */
  predicate CarriesResponse(texts: seq<seq<u8>>, reply: seq<u8>) {
    |reply| >= 40 && (reply[40..] == [] || exists id :: 0 <= id < |texts| && reply[40..] == texts[id])
  }

  /** A packet the sender of another receives: addressed back, with valid checksums, carrying a
      response or nothing. */
  predicate ReachesSender(texts: seq<seq<u8>>, packet: seq<u8>, reply: seq<u8>) {
    AddressedBack(packet, reply) && SoundPacket(reply) && CarriesResponse(texts, reply)
  }

  /** With the flags of a reply. */
  predicate RepliesTo(texts: seq<seq<u8>>, packet: seq<u8>, reply: seq<u8>) {
    ReachesSender(texts, packet, reply) && FlagsFit(packet, reply)
  }

  lemma WordBytes(b: seq<u8>, i: nat, v: u32)
    requires i + 4 <= |b| && v == Read32(b, i)
    ensures b[i..i + 4] == [Byte3(v), Byte2(v), Byte1(v), Byte0(v)]
  {
    var b3, b2, b1, b0 := b[i], b[i + 1], b[i + 2], b[i + 3];
    DivModUnique(v, 0x100_0000, b3, Be32(0, b2, b1, b0));
    DivModUnique(v, 0x1_0000, Be16(b3, b2), Be16(b1, b0));
    DivModUnique(v, 0x100, Be32(0, b3, b2, b1), b0);
    DivModUnique(Be16(b3, b2), 0x100, b3, b2);
    DivModUnique(Be32(0, b3, b2, b1), 0x100, Be16(b3, b2), b1);
  }

  lemma HalfBytes(b: seq<u8>, i: nat, v: u16)
    requires i + 2 <= |b| && v == Read16(b, i)
    ensures b[i..i + 2] == [Byte1(v), Byte0(v)]
  {
    DivModUnique(v, 0x100, b[i], b[i + 1]);
  }

  lemma BuiltAddresses(t: Tcp)
    requires Fits(t)
    ensures var b := PacketBytes(t); var src, dst := t.key.srcIp, t.key.dstIp;
            && b[12..16] == [Byte3(src), Byte2(src), Byte1(src), Byte0(src)]
            && b[16..20] == [Byte3(dst), Byte2(dst), Byte1(dst), Byte0(dst)]
            && b[20..22] == [Byte1(t.key.srcPort), Byte0(t.key.srcPort)]
            && b[22..24] == [Byte1(t.key.dstPort), Byte0(t.key.dstPort)]
            && b[33] == t.flags && b[40..] == t.payload
  {
  }

  lemma ParsedAddresses(packet: seq<u8>, tcp: Tcp)
    requires ParseIpv4Tcp(packet) == Some(tcp)
    ensures |packet| >= 40
    ensures var t := packet[0] % 16 * 4;
            && 20 <= t && t + 20 <= |packet|
            && tcp.key.srcIp == Read32(packet, 12) && tcp.key.dstIp == Read32(packet, 16)
            && tcp.key.srcPort == Read16(packet, t) && tcp.key.dstPort == Read16(packet, t + 2)
            && tcp.flags == packet[t + 13]
  {
  }

  lemma GoesBack(table: ResponseTable, packet: seq<u8>, tcp: Tcp, r: Reply)
    requires ParseIpv4Tcp(packet) == Some(tcp)
    ensures AddressedBack(packet, PacketBytes(ReplyPacket(table, tcp.key, r)))
  {
    var t := packet[0] % 16 * 4;
    ParsedAddresses(packet, tcp);
    BuiltAddresses(ReplyPacket(table, tcp.key, r));
    WordBytes(packet, 12, tcp.key.srcIp);
    WordBytes(packet, 16, tcp.key.dstIp);
    HalfBytes(packet, t, tcp.key.srcPort);
    HalfBytes(packet, t + 2, tcp.key.dstPort);
  }

  /** The control bits of section 3.1 of RFC 9293, by their places in the byte. */
  lemma FlagBits(flags: u8)
    ensures HasFlag(flags, TCP_FIN) <==> flags % 2 == 1
    ensures HasFlag(flags, TCP_SYN) <==> flags / 2 % 2 == 1
    ensures HasFlag(flags, TCP_RST) <==> flags / 4 % 2 == 1
    ensures HasFlag(flags, TCP_PSH) <==> flags / 8 % 2 == 1
    ensures HasFlag(flags, TCP_ACK) <==> flags / 16 % 2 == 1
  {
  }

  /** The flags a reply to this segment may have. */
  predicate FlagsOf(flags: u8, r: Reply) {
    && (r.flags == TCP_ACK || r.flags == TCP_SYN + TCP_ACK || r.flags == TCP_ACK + TCP_PSH)
    && (r.flags == TCP_ACK + TCP_PSH <==> r.response.Some?)
    && (r.flags == TCP_SYN + TCP_ACK ==> BareSyn(flags))
  }

  lemma ReplyCarries(table: ResponseTable, r: Reply, reply: seq<u8>, payload: seq<u8>)
    requires |reply| >= 40 && reply[40..] == payload
    requires payload == if r.response.Some? then table[r.response.value] else []
    ensures CarriesResponse(table, reply) && (|reply| > 40 <==> r.response.Some?)
  {
  }

  /** The packet any reply becomes is one the sender receives. */
  lemma ReplyReaches(table: ResponseTable, packet: seq<u8>, tcp: Tcp, r: Reply)
    requires ParseIpv4Tcp(packet) == Some(tcp)
    ensures ReachesSender(table, packet, PacketBytes(ReplyPacket(table, tcp.key, r)))
  {
    var t := ReplyPacket(table, tcp.key, r);
    GoesBack(table, packet, tcp, r);
    BuiltIsSound(t);
    BuiltAddresses(t);
    ReplyCarries(table, r, PacketBytes(t), t.payload);
  }

  lemma ReplyIsReceived(table: ResponseTable, packet: seq<u8>, tcp: Tcp, r: Reply)
    requires ParseIpv4Tcp(packet) == Some(tcp) && FlagsOf(tcp.flags, r)
    ensures RepliesTo(table, packet, PacketBytes(ReplyPacket(table, tcp.key, r)))
  {
    var t := ReplyPacket(table, tcp.key, r);
    ReplyReaches(table, packet, tcp, r);
    ParsedAddresses(packet, tcp);
    BuiltAddresses(t);
    ReplyCarries(table, r, PacketBytes(t), t.payload);
  }
}
