/** Which packets parse, and to what: every layout of an IPv4 packet that carries a TCP segment, with
    options of both headers and bytes behind the packet, and nothing else (src/packet/wire.rs:127-163;
    section 3.1 of RFC 791 and section 3.1 of RFC 9293). */
module WireLayouts {
  import opened Bits
  import opened Wire
  import Cpu = CpuEngine

  /** What a packet holds besides the fields that are parsed: `fragment` has the two bits above the
      fragment offset and its flag. */
  datatype Extras = Extras(tos: u8, id: u16, fragment: u16, ttl: u8, ipChecksum: u16, ipOptions: seq<u8>,
                           reserved: u8, window: u16, tcpChecksum: u16, urgent: u16, tcpOptions: seq<u8>,
                           padding: seq<u8>)

  /** Options are up to forty bytes in whole words. */
  predicate OptionBytes(options: seq<u8>) {
    |options| <= 40 && |options| % 4 == 0
  }

  function HeaderLen(options: seq<u8>): nat {
    20 + |options|
  }

  function TotalLen(t: Tcp, x: Extras): nat {
    HeaderLen(x.ipOptions) + HeaderLen(x.tcpOptions) + |t.payload|
  }

  /** The packet is not a fragment, and its lengths fit their fields. */
  predicate Fitting(t: Tcp, x: Extras) {
    && OptionBytes(x.ipOptions) && OptionBytes(x.tcpOptions)
    && x.fragment % 0x4000 == 0 && x.reserved < 16 && TotalLen(t, x) < 0x1_0000
  }

  function Two(v: u16): seq<u8> {
    [v / 0x100, v % 0x100]
  }

  function Four(v: u32): seq<u8> {
    [v / 0x100_0000, v / 0x1_0000 % 0x100, v / 0x100 % 0x100, v % 0x100]
  }

  function IpFixed(t: Tcp, x: Extras): (h: seq<u8>)
    requires Fitting(t, x)
    ensures |h| == 20
  {
    [0x45 + |x.ipOptions| / 4, x.tos] + Two(TotalLen(t, x)) + Two(x.id) + Two(x.fragment) + [x.ttl, 6]
    + Two(x.ipChecksum) + Four(t.key.srcIp) + Four(t.key.dstIp)
  }

  function TcpFixed(t: Tcp, x: Extras): (h: seq<u8>)
    requires Fitting(t, x)
    ensures |h| == 20
  {
    Two(t.key.srcPort) + Two(t.key.dstPort) + Four(t.seqno) + Four(t.ack)
    + [0x50 + 16 * (|x.tcpOptions| / 4) + x.reserved, t.flags] + Two(x.window) + Two(x.tcpChecksum) + Two(x.urgent)
  }

  /** The whole packet: both headers with their options, the payload, and what lies behind. */
  function Laid(t: Tcp, x: Extras): (b: seq<u8>)
    requires Fitting(t, x)
  {
    IpFixed(t, x) + x.ipOptions + TcpFixed(t, x) + x.tcpOptions + t.payload + x.padding
  }

  // ----- a packet cut into its parts

  /** The parts of b, for header lengths h and d and total length n. */
  predicate PartsAre(b: seq<u8>, h: nat, d: nat, n: nat, ip: seq<u8>, ipOptions: seq<u8>, tcp: seq<u8>,
      tcpOptions: seq<u8>, payload: seq<u8>, padding: seq<u8>)
    requires 20 <= h && 20 <= d && h + d <= n <= |b|
  {
    && b[..20] == ip && b[20..h] == ipOptions && b[h..h + 20] == tcp && b[h + 20..h + d] == tcpOptions
    && b[h + d..n] == payload && b[n..] == padding
  }

  lemma PartsOfJoin(b: seq<u8>, h: nat, d: nat, n: nat, ip: seq<u8>, ipOptions: seq<u8>, tcp: seq<u8>,
      tcpOptions: seq<u8>, payload: seq<u8>, padding: seq<u8>)
    requires b == ip + ipOptions + tcp + tcpOptions + payload + padding && |ip| == |tcp| == 20
    requires h == 20 + |ipOptions| && d == 20 + |tcpOptions| && n == h + d + |payload|
    ensures n <= |b| && PartsAre(b, h, d, n, ip, ipOptions, tcp, tcpOptions, payload, padding)
  {
  }

  lemma JoinOfParts(b: seq<u8>, h: nat, d: nat, n: nat, ip: seq<u8>, ipOptions: seq<u8>, tcp: seq<u8>,
      tcpOptions: seq<u8>, payload: seq<u8>, padding: seq<u8>)
    requires 20 <= h && 20 <= d && h + d <= n <= |b|
    requires PartsAre(b, h, d, n, ip, ipOptions, tcp, tcpOptions, payload, padding)
    ensures b == ip + ipOptions + tcp + tcpOptions + payload + padding
  {
  }

  lemma TwoIs(v: u16)
    ensures Be16(Two(v)[0], Two(v)[1]) == v
  {
  }

  lemma FourIs(v: u32)
    ensures Be32(Four(v)[0], Four(v)[1], Four(v)[2], Four(v)[3]) == v
  {
    var q1, r0 := v / 0x100, v % 0x100;
    var q2, r1 := q1 / 0x100, q1 % 0x100;
    var q3, r2 := q2 / 0x100, q2 % 0x100;
    DivModUnique(v, 0x1_0000, q2, Be16(r1, r0));
    DivModUnique(v, 0x100_0000, q3, Be32(0, r2, r1, r0));
  }

  lemma TwoOf(v: u16, b1: u8, b0: u8)
    requires v == Be16(b1, b0)
    ensures Two(v) == [b1, b0]
  {
    DivModUnique(v, 0x100, b1, b0);
  }

  lemma FourOf(v: u32, b3: u8, b2: u8, b1: u8, b0: u8)
    requires v == Be32(b3, b2, b1, b0)
    ensures Four(v) == [b3, b2, b1, b0]
  {
    DivModUnique(v, 0x100_0000, b3, Be32(0, b2, b1, b0));
    DivModUnique(v, 0x1_0000, Be16(b3, b2), Be16(b1, b0));
    DivModUnique(v, 0x100, Be32(0, b3, b2, b1), b0);
    DivModUnique(Be16(b3, b2), 0x100, b3, b2);
    DivModUnique(Be32(0, b3, b2, b1), 0x100, Be16(b3, b2), b1);
  }

  // ----- a laid packet parses

  /** What the parser finds in the fixed part of the IP header. */
  predicate IpReads(b: seq<u8>, h: nat, n: nat, fragment: u16, key: FlowKey)
    requires |b| >= 20
  {
    && b[0] / 16 == 4 && b[0] % 16 * 4 == h && b[9] == 6
    && Read16(b, 2) == n && Read16(b, 6) == fragment
    && Read32(b, 12) == key.srcIp && Read32(b, 16) == key.dstIp
  }

  predicate TcpReads(b: seq<u8>, h: nat, d: nat, t: Tcp)
    requires |b| >= h + 20
  {
    && b[h + 12] / 16 * 4 == d && b[h + 13] == t.flags
    && Read16(b, h) == t.key.srcPort && Read16(b, h + 2) == t.key.dstPort
    && Read32(b, h + 4) == t.seqno && Read32(b, h + 8) == t.ack
  }

  lemma NibblesAre(words: nat, low: nat)
    requires words <= 10 && low < 16
    ensures (0x45 + words) / 16 == 4 && (0x45 + words) % 16 * 4 == 20 + 4 * words
    ensures (0x50 + 16 * words + low) / 16 * 4 == 20 + 4 * words
  {
  }

  lemma IpFixedReads(t: Tcp, x: Extras)
    requires Fitting(t, x)
    ensures IpReads(IpFixed(t, x), HeaderLen(x.ipOptions), TotalLen(t, x), x.fragment, t.key)
  {
    NibblesAre(|x.ipOptions| / 4, 0);
    TwoIs(TotalLen(t, x));
    TwoIs(x.fragment);
    FourIs(t.key.srcIp);
    FourIs(t.key.dstIp);
  }

  lemma TcpFixedReads(t: Tcp, x: Extras)
    requires Fitting(t, x)
    ensures TcpReads(TcpFixed(t, x), 0, HeaderLen(x.tcpOptions), t)
  {
    NibblesAre(|x.tcpOptions| / 4, x.reserved);
    TwoIs(t.key.srcPort);
    TwoIs(t.key.dstPort);
    FourIs(t.seqno);
    FourIs(t.ack);
  }

  /** Reading a part is reading the whole. */
  lemma IpReadsInWhole(b: seq<u8>, ip: seq<u8>, h: nat, n: nat, fragment: u16, key: FlowKey)
    requires |b| >= 20 && |ip| == 20 && b[..20] == ip
    ensures IpReads(ip, h, n, fragment, key) == IpReads(b, h, n, fragment, key)
  {
    assert forall i :: 0 <= i < 20 ==> ip[i] == b[i];
  }

  lemma TcpReadsInWhole(b: seq<u8>, tcp: seq<u8>, h: nat, d: nat, t: Tcp)
    requires |b| >= h + 20 && |tcp| == 20 && b[h..h + 20] == tcp
    ensures TcpReads(tcp, 0, d, t) == TcpReads(b, h, d, t)
  {
    assert forall i :: 0 <= i < 20 ==> tcp[i] == b[h + i];
  }

  /** The parser's decisions, on what it reads. */
  lemma ReadsParse(b: seq<u8>, h: nat, d: nat, n: nat, fragment: u16, t: Tcp)
    requires 20 <= h && 20 <= d && h + d <= n <= |b| && fragment % 0x4000 == 0
    requires IpReads(b, h, n, fragment, t.key) && TcpReads(b, h, d, t) && b[h + d..n] == t.payload
    ensures ParseIpv4Tcp(b) == Some(t)
  {
  }

  /** Every layout of a segment parses to it, whatever the options and the bytes behind. */
  lemma LaidParses(t: Tcp, x: Extras)
    requires Fitting(t, x)
    ensures ParseIpv4Tcp(Laid(t, x)) == Some(t)
  {
    var b, ip, tcp := Laid(t, x), IpFixed(t, x), TcpFixed(t, x);
    var h, d, n := HeaderLen(x.ipOptions), HeaderLen(x.tcpOptions), TotalLen(t, x);
    PartsOfJoin(b, h, d, n, ip, x.ipOptions, tcp, x.tcpOptions, t.payload, x.padding);
    IpFixedReads(t, x);
    TcpFixedReads(t, x);
    IpReadsInWhole(b, ip, h, n, x.fragment, t.key);
    TcpReadsInWhole(b, tcp, h, d, t);
    ReadsParse(b, h, d, n, x.fragment, t);
  }

  // ----- what parses is laid so

  /** A header length of a nibble of words. */
  predicate NibbleLen(h: nat) {
    20 <= h <= 60 && h % 4 == 0
  }

  lemma NibbleLenIs(words: nat)
    requires words < 16
    ensures words * 4 % 4 == 0 && words * 4 <= 60
  {
  }

  /** The lengths of a packet that parses. */
  lemma ParsedReads(b: seq<u8>, t: Tcp) returns (h: nat, d: nat, n: nat, fragment: u16)
    requires ParseIpv4Tcp(b) == Some(t)
    ensures NibbleLen(h) && NibbleLen(d) && h + d <= n <= |b| && n < 0x1_0000
    ensures fragment % 0x4000 == 0 && IpReads(b, h, n, fragment, t.key) && TcpReads(b, h, d, t)
    ensures b[h + d..n] == t.payload
  {
    var ihl := b[0] % 16;
    h, n, fragment := ihl * 4, Read16(b, 2), Read16(b, 6);
    var words := b[h + 12] / 16;
    d := words * 4;
    NibbleLenIs(ihl);
    NibbleLenIs(words);
  }

  /** What lies beside the fields. */
  function ExtrasOf(b: seq<u8>, h: nat, d: nat, n: nat, fragment: u16): Extras
    requires 20 <= h && 20 <= d && h + d <= n <= |b|
  {
    Extras(b[1], Read16(b, 4), fragment, b[8], Read16(b, 10), b[20..h],
           b[h + 12] % 16, Read16(b, h + 14), Read16(b, h + 16), Read16(b, h + 18), b[h + 20..h + d], b[n..])
  }

  lemma TwentyBytes(s: seq<u8>, r: seq<u8>)
    requires |s| == |r| == 20
    requires s[0] == r[0] && s[1] == r[1] && s[2] == r[2] && s[3] == r[3] && s[4] == r[4] && s[5] == r[5]
    requires s[6] == r[6] && s[7] == r[7] && s[8] == r[8] && s[9] == r[9] && s[10] == r[10] && s[11] == r[11]
    requires s[12] == r[12] && s[13] == r[13] && s[14] == r[14] && s[15] == r[15]
    requires s[16] == r[16] && s[17] == r[17] && s[18] == r[18] && s[19] == r[19]
    ensures s == r
  {
  }

  lemma IpIsFixed(b: seq<u8>, t: Tcp, x: Extras, h: nat, n: nat)
    requires |b| >= 20 && Fitting(t, x) && h == HeaderLen(x.ipOptions) && n == TotalLen(t, x)
    requires IpReads(b, h, n, x.fragment, t.key)
    requires x.tos == b[1] && x.id == Read16(b, 4) && x.ttl == b[8] && x.ipChecksum == Read16(b, 10)
    ensures b[..20] == IpFixed(t, x)
  {
    TwoOf(n, b[2], b[3]);
    TwoOf(x.id, b[4], b[5]);
    TwoOf(x.fragment, b[6], b[7]);
    TwoOf(x.ipChecksum, b[10], b[11]);
    FourOf(t.key.srcIp, b[12], b[13], b[14], b[15]);
    FourOf(t.key.dstIp, b[16], b[17], b[18], b[19]);
    assert b[0] == 0x45 + |x.ipOptions| / 4;
    TwentyBytes(b[..20], IpFixed(t, x));
  }

  lemma TcpIsFixed(b: seq<u8>, t: Tcp, x: Extras, h: nat, d: nat)
    requires |b| >= h + 20 && Fitting(t, x) && d == HeaderLen(x.tcpOptions) && TcpReads(b, h, d, t)
    requires x.reserved == b[h + 12] % 16 && x.window == Read16(b, h + 14)
    requires x.tcpChecksum == Read16(b, h + 16) && x.urgent == Read16(b, h + 18)
    ensures b[h..h + 20] == TcpFixed(t, x)
  {
    TwoOf(t.key.srcPort, b[h], b[h + 1]);
    TwoOf(t.key.dstPort, b[h + 2], b[h + 3]);
    FourOf(t.seqno, b[h + 4], b[h + 5], b[h + 6], b[h + 7]);
    FourOf(t.ack, b[h + 8], b[h + 9], b[h + 10], b[h + 11]);
    TwoOf(x.window, b[h + 14], b[h + 15]);
    TwoOf(x.tcpChecksum, b[h + 16], b[h + 17]);
    TwoOf(x.urgent, b[h + 18], b[h + 19]);
    assert b[h + 12] == 0x50 + 16 * (|x.tcpOptions| / 4) + x.reserved;
    TwentyBytes(b[h..h + 20], TcpFixed(t, x));
  }

  lemma ExtrasFit(b: seq<u8>, t: Tcp, x: Extras, h: nat, d: nat, n: nat, fragment: u16)
    requires NibbleLen(h) && NibbleLen(d) && h + d <= n <= |b| && n < 0x1_0000 && fragment % 0x4000 == 0
    requires |t.payload| == n - (h + d) && x == ExtrasOf(b, h, d, n, fragment)
    ensures Fitting(t, x) && TotalLen(t, x) == n && HeaderLen(x.ipOptions) == h && HeaderLen(x.tcpOptions) == d
  {
    LessTwenty(h);
    LessTwenty(d);
  }

  lemma LessTwenty(h: nat)
    requires NibbleLen(h)
    ensures (h - 20) % 4 == 0
  {
  }

  /** Nothing else parses. */
  lemma ParsedIsLaid(b: seq<u8>, t: Tcp) returns (x: Extras)
    requires ParseIpv4Tcp(b) == Some(t)
    ensures Fitting(t, x) && b == Laid(t, x)
  {
    var h, d, n, fragment := ParsedReads(b, t);
    x := ExtrasOf(b, h, d, n, fragment);
    ExtrasFit(b, t, x, h, d, n, fragment);
    IpIsFixed(b, t, x, h, n);
    TcpIsFixed(b, t, x, h, d);
    JoinOfParts(b, h, d, n, IpFixed(t, x), x.ipOptions, TcpFixed(t, x), x.tcpOptions, t.payload, x.padding);
  }

  /** The bytes are some layout of this segment. */
  ghost predicate IsLaid(b: seq<u8>, t: Tcp) {
    exists x :: Fitting(t, x) && b == Laid(t, x)
  }

  /** A packet parses to a segment exactly when it is a layout of that segment. */
  lemma ParsesExactly(b: seq<u8>, t: Tcp)
    ensures ParseIpv4Tcp(b) == Some(t) <==> IsLaid(b, t)
  {
    if ParseIpv4Tcp(b) == Some(t) {
      var x := ParsedIsLaid(b, t);
    }
    if IsLaid(b, t) {
      var x :| Fitting(t, x) && b == Laid(t, x);
      LaidParses(t, x);
    }
  }

  /** An engine receives a segment exactly when the packet is a layout of it and its destination port
      is the one listened on. */
  lemma ReceivesExactly(listenPort: u16, b: seq<u8>, t: Tcp)
    ensures Cpu.Receive(listenPort, b) == Some(t) <==> IsLaid(b, t) && t.key.dstPort == listenPort
  {
    ParsesExactly(b, t);
  }

  /** It ignores exactly the packets that are no layout of any segment to that port. */
  lemma IgnoresExactly(listenPort: u16, b: seq<u8>)
    ensures Cpu.Receive(listenPort, b) == None <==> forall t :: IsLaid(b, t) ==> t.key.dstPort != listenPort
  {
    forall t ensures Cpu.Receive(listenPort, b) == Some(t) <==> IsLaid(b, t) && t.key.dstPort == listenPort {
      ReceivesExactly(listenPort, b, t);
    }
    if Cpu.Receive(listenPort, b).Some? {
      assert IsLaid(b, Cpu.Receive(listenPort, b).value);
    }
  }
}
