/** Building, parsing and validating IPv4/TCP packets (src/packet/wire.rs;
    section 3.1 of RFC 791 and section 3.1 of RFC 9293). */
module Wire {
  import opened Bits
  import opened Checksum

  datatype FlowKey = FlowKey(srcIp: u32, dstIp: u32, srcPort: u16, dstPort: u16)

  /** A parsed segment, or the fields a packet is built from. */
  datatype Tcp = Tcp(key: FlowKey, seqno: u32, ack: u32, flags: u8, payload: seq<u8>)

  const TCP_FIN: u8 := 0x01
  const TCP_SYN: u8 := 0x02
  const TCP_RST: u8 := 0x04
  const TCP_PSH: u8 := 0x08
  const TCP_ACK: u8 := 0x10

  const MAX_RAW_PACKET_BYTES := 1536

  /** The FNV-1a fold over a sequence of values (one byte each in its usual form). */
  function Fnv1a(xs: seq<u32>): u32 {
    if xs == [] then 2166136261
    else Xor(Fnv1a(xs[..|xs| - 1]), xs[|xs| - 1]) * 16777619 % 0x1_0000_0000
  }

  function FlowHash(key: FlowKey): u32 {
    Fnv1a([key.srcIp, key.dstIp, key.srcPort, key.dstPort])
  }

  /** The server's initial sequence number for a flow. */
  function ServerIsn(key: FlowKey): u32 {
    Pow2Of32();
    XorBound(FlowHash(key), 0xa5a5_5a5a, 32);
    Xor(FlowHash(key), 0xa5a5_5a5a)
  }

  /** The same flow seen from the other end. */
  function Reverse(key: FlowKey): FlowKey {
    FlowKey(key.dstIp, key.srcIp, key.dstPort, key.srcPort)
  }

  // ----- big-endian fields

  function Byte3(v: u32): u8 { v / 0x100_0000 }
  function Byte2(v: u32): u8 { v / 0x1_0000 % 0x100 }
  function Byte1(v: u32): u8 { v / 0x100 % 0x100 }
  function Byte0(v: u32): u8 { v % 0x100 }

  function Read16(bytes: seq<u8>, offset: nat): u16
    requires offset + 2 <= |bytes|
  {
    Be16(bytes[offset], bytes[offset + 1])
  }

  function Read32(bytes: seq<u8>, offset: nat): u32
    requires offset + 4 <= |bytes|
  {
    Be32(bytes[offset], bytes[offset + 1], bytes[offset + 2], bytes[offset + 3])
  }

  // ----- the layout of a built packet

  function IpHeader(total: u16, src: u32, dst: u32, checksum: u16): (h: seq<u8>)
    ensures |h| == 20
  {
    [0x45, 0, Byte1(total), Byte0(total), 0, 0, 0x40, 0, 64, 6, Byte1(checksum), Byte0(checksum),
     Byte3(src), Byte2(src), Byte1(src), Byte0(src), Byte3(dst), Byte2(dst), Byte1(dst), Byte0(dst)]
  }

  function TcpHeader(srcPort: u16, dstPort: u16, seqno: u32, ack: u32, flags: u8, checksum: u16): (h: seq<u8>)
    ensures |h| == 20
  {
    [Byte1(srcPort), Byte0(srcPort), Byte1(dstPort), Byte0(dstPort),
     Byte3(seqno), Byte2(seqno), Byte1(seqno), Byte0(seqno), Byte3(ack), Byte2(ack), Byte1(ack), Byte0(ack),
     0x50, flags, 0xff, 0xff, Byte1(checksum), Byte0(checksum), 0, 0]
  }

  /** The high and low half of a word, added. */
  function Halves(v: u32): nat {
    v / 0x1_0000 + v % 0x1_0000
  }

  /** The pseudo-header sum. */
  function PseudoSum(src: u32, dst: u32, tcpLen: nat): nat {
    Halves(src) + Halves(dst) + 6 + tcpLen
  }

  function RegionChecksum(bytes: seq<u8>): u16 {
    Complement(SumPairs(bytes))
  }

  function SegmentChecksum(src: u32, dst: u32, segment: seq<u8>): u16 {
    Complement(PseudoSum(src, dst, |segment|) + SumPairs(segment))
  }

  function IpChecksum(total: u16, src: u32, dst: u32): u16 {
    RegionChecksum(IpHeader(total, src, dst, 0))
  }

  function TcpChecksum(t: Tcp): u16 {
    SegmentChecksum(t.key.srcIp, t.key.dstIp,
                    TcpHeader(t.key.srcPort, t.key.dstPort, t.seqno, t.ack, t.flags, 0) + t.payload)
  }

  predicate Fits(t: Tcp) {
    40 + |t.payload| <= MAX_RAW_PACKET_BYTES
  }

  /** The bytes on the wire. */
  function PacketBytes(t: Tcp): (b: seq<u8>)
    requires Fits(t)
    ensures |b| == 40 + |t.payload|
  {
    var total := 40 + |t.payload|;
    IpHeader(total, t.key.srcIp, t.key.dstIp, IpChecksum(total, t.key.srcIp, t.key.dstIp))
    + TcpHeader(t.key.srcPort, t.key.dstPort, t.seqno, t.ack, t.flags, TcpChecksum(t))
    + t.payload
  }

  // ----- parsing

  function ParseIpv4Tcp(bytes: seq<u8>): Option<Tcp> {
    if |bytes| < 40 || bytes[0] / 16 != 4 || bytes[9] != 6 then None
    else
      var ipHeaderLen := bytes[0] % 16 * 4;
      if ipHeaderLen < 20 || ipHeaderLen + 20 > |bytes| then None
      else if Read16(bytes, 6) % 0x4000 != 0 then None
      else
        var totalLen := Read16(bytes, 2);
        if totalLen < ipHeaderLen + 20 || totalLen > |bytes| then None
        else
          var tcpHeaderLen := bytes[ipHeaderLen + 12] / 16 * 4;
          if tcpHeaderLen < 20 || ipHeaderLen + tcpHeaderLen > totalLen then None
          else Some(Tcp(
                      FlowKey(Read32(bytes, 12), Read32(bytes, 16),
                              Read16(bytes, ipHeaderLen), Read16(bytes, ipHeaderLen + 2)),
                      Read32(bytes, ipHeaderLen + 4),
                      Read32(bytes, ipHeaderLen + 8),
                      bytes[ipHeaderLen + 13],
                      bytes[ipHeaderLen + tcpHeaderLen..totalLen]))
  }

  /** The scheduler looks at less of the packet than the parser does. */
  function SchedulingFlowKey(bytes: seq<u8>): Option<FlowKey> {
    if |bytes| < 24 || bytes[0] / 16 != 4 || bytes[9] != 6 then None
    else
      var ipHeaderLen := bytes[0] % 16 * 4;
      if ipHeaderLen < 20 || ipHeaderLen + 4 > |bytes| then None
      else Some(FlowKey(Read32(bytes, 12), Read32(bytes, 16),
                        Read16(bytes, ipHeaderLen), Read16(bytes, ipHeaderLen + 2)))
  }

  lemma SchedulerSeesParsedKey(bytes: seq<u8>)
    ensures ParseIpv4Tcp(bytes).Some? ==>
              SchedulingFlowKey(bytes) == Some(ParseIpv4Tcp(bytes).value.key)
  {
  }

  datatype Validity = Valid | TooSmall | BadHeaderLength | BadTotalLength | BadIpChecksum | BadTcpChecksum

  /** The verdict of `validate_ipv4_tcp_checksums`.  A total length shorter than the header makes
      the original slice out of range; it is never reached for a packet that parses. */
  function ValidateChecksums(bytes: seq<u8>): Validity {
    if |bytes| < 40 then TooSmall
    else
      var headerLen := bytes[0] % 16 * 4;
      var totalLen := Read16(bytes, 2);
      if headerLen < 20 || headerLen > |bytes| then BadHeaderLength
      else if totalLen > |bytes| || totalLen < headerLen then BadTotalLength
      else if RegionChecksum(bytes[..headerLen]) != 0 then BadIpChecksum
      else if SegmentChecksum(Read32(bytes, 12), Read32(bytes, 16), bytes[headerLen..totalLen]) != 0 then BadTcpChecksum
      else Valid
  }
}
