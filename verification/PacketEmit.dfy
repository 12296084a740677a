/** How the packet shader writes a reply into its output slot, word by word
    (src/packet/packet.wgsl:87-103 and 195-340): the words hold exactly the bytes the host
    would have built. */
module PacketEmit {
  import opened Bits
  import opened Checksum
  import opened Wire
  import opened WireTheorems
  import opened Responses
  import opened Packing
  import opened PacketWords

  /** The word whose bytes in memory order are four consecutive bytes of a string. */
  function WordAtByte(b: seq<u8>, j: nat): u32
    requires 4 * j + 4 <= |b|
  {
    LeSum(b[4 * j], b[4 * j + 1], b[4 * j + 2], b[4 * j + 3])
  }

  predicate WordWritten(words: seq<u32>, base: nat, b: seq<u8>, j: nat)
    requires 4 * j + 4 <= |b| && base + |b| / 4 <= |words|
  {
    words[base + j] == WordAtByte(b, j)
  }

  /** Whole words written one by one hold the string. */
  lemma WrittenHolds(words: seq<u32>, base: nat, b: seq<u8>)
    requires |b| % 4 == 0 && base + |b| / 4 <= |words|
    requires forall j :: 0 <= j < |b| / 4 ==> WordWritten(words, base, b, j)
    ensures HoldsBytes(words, 4 * base, b)
  {
    forall i | 0 <= i < |b| ensures HeldAt(words, 4 * base, b, i) {
      ByteWritten(words, base, b, i / 4, i % 4);
    }
  }

  lemma ByteWritten(words: seq<u32>, base: nat, b: seq<u8>, j: nat, k: nat)
    requires 4 * j + 4 <= |b| && base + |b| / 4 <= |words| && 4 * base + |b| <= 4 * |words| && k <= 3
    requires WordWritten(words, base, b, j)
    ensures HeldAt(words, 4 * base, b, 4 * j + k)
  {
    DivModUnique(4 * base + (4 * j + k), 4, base + j, k);
    ByteOfLeSum(b[4 * j], b[4 * j + 1], b[4 * j + 2], b[4 * j + 3]);
  }

  lemma HoldsConcat(words: seq<u32>, start: nat, a: seq<u8>, b: seq<u8>)
    requires HoldsBytes(words, start, a) && HoldsBytes(words, start + |a|, b)
    ensures HoldsBytes(words, start, a + b)
  {
    forall i | 0 <= i < |a + b| ensures HeldAt(words, start, a + b, i) {
      if i < |a| {
        assert HeldAt(words, start, a, i);
      } else {
        assert HeldAt(words, start + |a|, b, i - |a|);
      }
    }
  }

  // ----- single writes

  function BigEndianWord(v: u32): u32 {
    LeSum(Byte3(v), Byte2(v), Byte1(v), Byte0(v))
  }

  lemma SwapIsBigEndian(v: u32)
    ensures ByteSwap(v) == BigEndianWord(v)
  {
    Be32Split(v);
    ByteSwapReverses(Byte0(v), Byte1(v), Byte2(v), Byte3(v));
  }

  method WriteWord(output: array<u32>, index: nat, value: u32)
    requires index < output.Length
    modifies output
    ensures output[..] == old(output[..])[index := BigEndianWord(value)]
  {
    SwapIsBigEndian(value);
    output[index] := ByteSwap(value);
  }

  /** The two bytes at a half-word replaced, the others kept. */
  function HalfReplaced(w: u32, half: nat, v: u16): u32
    requires half <= 1
  {
    if half == 0 then LeSum(Byte1(v), Byte0(v), ByteOf(w, 2), ByteOf(w, 3))
    else LeSum(ByteOf(w, 0), ByteOf(w, 1), Byte1(v), Byte0(v))
  }

  /** Bits above the k lowest, masked in place. */
  lemma MaskHigh(x: nat, low: nat, k: nat, p: nat, px: nat, mask: nat)
    requires p == Pow2(k) && x < p && low < p && px == p * x && mask == p * (p - 1)
    ensures And(px + low, mask) == px
  {
    AndMask(x, k);
    DivModUnique(x, p, 0, x);
    AndShifted(x, low, p - 1, x, k, p, px, mask, px);
  }

  lemma KeepHigh(b0: u8, b1: u8, b2: u8, b3: u8)
    ensures And(LeSum(b0, b1, b2, b3), 0xffff_0000) == LeSum(0, 0, b2, b3)
  {
    Pow2OfBytes();
    var x := Be16(b3, b2);
    MaskHigh(x, Be16(b1, b0), 16, 0x1_0000, 0x1_0000 * x, 0xffff_0000);
  }

  lemma KeepLow(b0: u8, b1: u8, b2: u8, b3: u8)
    ensures And(LeSum(b0, b1, b2, b3), 0xffff) == LeSum(b0, b1, 0, 0)
  {
    Pow2OfBytes();
    AndMask(LeSum(b0, b1, b2, b3), 16);
    DivModUnique(LeSum(b0, b1, b2, b3), 0x1_0000, Be16(b3, b2), Be16(b1, b0));
  }

  /** `((value & 0xff) << 8) | ((value >> 8) & 0xff)` */
  function Swapped(v: u16): u32 {
    OrBytes(ShlBytes(v % 0x100, 1), v / 0x100 % 0x100, 1);
    Or(ShlBytes(v % 0x100, 1), v / 0x100 % 0x100)
  }

  lemma OrPair(low: u8, high: u8, shifted: nat)
    requires shifted == ShlBytes(low, 1)
    ensures Or(shifted, high) == LeSum(high, low, 0, 0)
  {
    DivModUnique(low * 0x100, 0x1_0000_0000, 0, 0x100 * low);
    DivModUnique(shifted, 0x100, low, 0);
    OrBytes(shifted, high, 1);
  }

  lemma SwappedIs(v: u16)
    ensures Swapped(v) == LeSum(Byte1(v), Byte0(v), 0, 0)
    ensures ShlBytes(Swapped(v), 2) == LeSum(0, 0, Byte1(v), Byte0(v))
  {
    OrPair(Byte0(v), Byte1(v), ShlBytes(v % 0x100, 1));
    ShlWord(Byte1(v), Byte0(v), 0, 0, 2);
  }

  lemma MaskedWrite(w: u32, half: nat, v: u16)
    requires half <= 1
    ensures var kept := And(w, 0xffff_ffff - ShlBytes(0xffff, 2 * half)); var placed := ShlBytes(Swapped(v), 2 * half);
            Or(kept, placed) == HalfReplaced(w, half, v)
  {
    WordOfBytes(w);
    SwappedIs(v);
    var b0, b1, b2, b3 := ByteOf(w, 0), ByteOf(w, 1), ByteOf(w, 2), ByteOf(w, 3);
    if half == 0 {
      KeepHigh(b0, b1, b2, b3);
      OrWord2(Byte1(v), Byte0(v), b2, b3);
    } else {
      assert ShlBytes(0xffff, 2) == 0xffff_0000;
      KeepLow(b0, b1, b2, b3);
      OrWord2(b0, b1, Byte1(v), Byte0(v));
    }
  }

  /** `write_u16_be` keeps the other half of the word. */
  method WriteHalf(output: array<u32>, index: nat, half: nat, value: u16)
    requires index < output.Length && half <= 1
    modifies output
    ensures output[..] == old(output[..])[index := HalfReplaced(old(output[index]), half, value)]
  {
    ghost var word := output[index];
    var mask := ShlBytes(0xffff, 2 * half);
    var kept := And(output[index], 0xffff_ffff - mask);
    var placed := ShlBytes(Swapped(value), 2 * half);
    MaskedWrite(output[index], half, value);
    output[index] := Or(kept, placed);
  }

  // ----- headers

  lemma BigEndianOf(b3: u8, b2: u8, b1: u8, b0: u8)
    ensures BigEndianWord(Be32(b3, b2, b1, b0)) == LeSum(b3, b2, b1, b0)
  {
    var v := Be32(b3, b2, b1, b0);
    DivModUnique(v, 0x100_0000, b3, Be32(0, b2, b1, b0));
    DivModUnique(v, 0x1_0000, Be16(b3, b2), Be16(b1, b0));
    DivModUnique(Be16(b3, b2), 0x100, b3, b2);
    DivModUnique(v, 0x100, Be32(0, b3, b2, b1), b0);
    DivModUnique(Be32(0, b3, b2, b1), 0x100, Be16(b3, b2), b1);
  }

  function Words4(b: seq<u8>): (w: seq<u32>)
    requires |b| == 20
    ensures |w| == 5
  {
    [WordAtByte(b, 0), WordAtByte(b, 1), WordAtByte(b, 2), WordAtByte(b, 3), WordAtByte(b, 4)]
  }

  lemma Words4Hold(words: seq<u32>, base: nat, b: seq<u8>)
    requires |b| == 20 && base + 5 <= |words| && words[base..base + 5] == Words4(b)
    ensures HoldsBytes(words, 4 * base, b)
  {
    var five := words[base..base + 5];
    forall j | 0 <= j < 5 ensures WordWritten(words, base, b, j) {
      assert words[base + j] == five[j];
    }
    WrittenHolds(words, base, b);
  }

  lemma IpWords(total: u16, src: u32, dst: u32, c: u16)
    ensures Words4(IpHeader(total, src, dst, c)) ==
              [LeSum(0x45, 0, Byte1(total), Byte0(total)), LeSum(0, 0, 0x40, 0), LeSum(64, 6, Byte1(c), Byte0(c)),
               BigEndianWord(src), BigEndianWord(dst)]
  {
  }

  /** The words of a TCP header before its checksum. */
  function TcpLead(srcPort: u16, dstPort: u16, seqno: u32, ack: u32, flags: u8): (w: seq<u32>)
    ensures |w| == 4
  {
    [LeSum(Byte1(srcPort), Byte0(srcPort), Byte1(dstPort), Byte0(dstPort)), BigEndianWord(seqno),
     BigEndianWord(ack), LeSum(0x50, flags, 0xff, 0xff)]
  }

  /** Its last word: the checksum and no urgent pointer. */
  function ChecksumWord(c: u16): u32 {
    LeSum(Byte1(c), Byte0(c), 0, 0)
  }

  lemma ZeroChecksum(zero: u16)
    requires zero == 0
    ensures ChecksumWord(zero) == 0
  {
  }

  lemma TcpWords(srcPort: u16, dstPort: u16, seqno: u32, ack: u32, flags: u8, c: u16)
    ensures Words4(TcpHeader(srcPort, dstPort, seqno, ack, flags, c)) ==
              TcpLead(srcPort, dstPort, seqno, ack, flags) + [ChecksumWord(c)]
  {
  }

  lemma HeaderWords(srcPort: u16, dstPort: u16, seqno: u32, ack: u32, flags: u8, c: u16, last: u32)
    requires last == ChecksumWord(c)
    ensures Words4(TcpHeader(srcPort, dstPort, seqno, ack, flags, c)) ==
              [LeSum(Byte1(srcPort), Byte0(srcPort), Byte1(dstPort), Byte0(dstPort)), BigEndianWord(seqno),
               BigEndianWord(ack), LeSum(0x50, flags, 0xff, 0xff), last]
  {
    TcpWords(srcPort, dstPort, seqno, ack, flags, c);
  }

  lemma FiveUpdates(before: seq<u32>, after: seq<u32>, b: nat, v0: u32, v1: u32, v2: u32, v3: u32, v4: u32)
    requires b + 5 <= |before|
    requires after == before[b := v0][b + 1 := v1][b + 2 := v2][b + 3 := v3][b + 4 := v4]
    ensures after[b..b + 5] == [v0, v1, v2, v3, v4] && Only(before, after, b, b + 5)
  {
  }

  lemma LengthOr(total: u16, high: nat)
    requires high == 0x4500_0000
    ensures Or(high, total) == Be32(0x45, 0, Byte1(total), Byte0(total))
  {
    OrBytes(high, total, 2);
    Be16Split(total);
  }

  lemma LengthWord(total: u16)
    ensures var v := Or(0x4500_0000, total);
            0 <= v < 0x1_0000_0000 && BigEndianWord(v) == LeSum(0x45, 0, Byte1(total), Byte0(total))
  {
    LengthOr(total, 0x4500_0000);
    BigEndianOf(0x45, 0, Byte1(total), Byte0(total));
  }

  method WriteIpv4(output: array<u32>, base: nat, total: u16, src: u32, dst: u32)
    requires base + 5 <= output.Length
    modifies output
    ensures output[base..base + 5] == Words4(IpHeader(total, src, dst, 0))
    ensures Only(old(output[..]), output[..], base, base + 5)
  {
    ghost var before := output[..];
    LengthWord(total);
    BigEndianOf(0, 0, 0x40, 0);
    BigEndianOf(64, 6, 0, 0);
    var first := Or(0x4500_0000, total);
    WriteWord(output, base, first);
    WriteWord(output, base + 1, 0x4000);
    WriteWord(output, base + 2, 0x4006_0000);
    WriteWord(output, base + 3, src);
    WriteWord(output, base + 4, dst);
    FiveUpdates(before, output[..], base, LeSum(0x45, 0, Byte1(total), Byte0(total)), LeSum(0, 0, 0x40, 0),
                LeSum(64, 6, 0, 0), BigEndianWord(src), BigEndianWord(dst));
    IpWords(total, src, dst, 0);
  }

  lemma PortsOr(srcPort: u16, dstPort: u16, high: nat)
    requires high == ShlBytes(srcPort, 2)
    ensures Or(high, dstPort) == Be32(Byte1(srcPort), Byte0(srcPort), Byte1(dstPort), Byte0(dstPort))
  {
    DivModUnique(srcPort * 0x1_0000, 0x1_0000_0000, 0, 0x1_0000 * srcPort);
    DivModUnique(high, 0x1_0000, srcPort, 0);
    OrBytes(high, dstPort, 2);
    Be16Split(srcPort);
    Be16Split(dstPort);
  }

  lemma PortsWord(srcPort: u16, dstPort: u16)
    ensures var v := Or(ShlBytes(srcPort, 2), dstPort);
            0 <= v < 0x1_0000_0000 && BigEndianWord(v) == LeSum(Byte1(srcPort), Byte0(srcPort), Byte1(dstPort),
              Byte0(dstPort))
  {
    PortsOr(srcPort, dstPort, ShlBytes(srcPort, 2));
    BigEndianOf(Byte1(srcPort), Byte0(srcPort), Byte1(dstPort), Byte0(dstPort));
  }

  lemma FlagsOrHigh(flags: u8, high: nat, middle: nat)
    requires high == 0x5000_0000 && middle == 0x1_0000 * flags
    ensures Or(high, middle) == Be32(0x50, flags, 0, 0)
  {
    OrBytes(high, middle, 3);
  }

  lemma FlagsOrLow(flags: u8, high: nat, low: nat)
    requires high == Be32(0x50, flags, 0, 0) && low == 0xffff
    ensures Or(high, low) == Be32(0x50, flags, 0xff, 0xff)
  {
    DivModUnique(high, 0x1_0000, Be16(0x50, flags), 0);
    OrBytes(high, low, 2);
  }

  lemma FlagsWord(flags: u8)
    ensures var v := Or(Or(0x5000_0000, ShlBytes(flags, 2)), 0xffff);
            0 <= v < 0x1_0000_0000 && BigEndianWord(v) == LeSum(0x50, flags, 0xff, 0xff)
  {
    DivModUnique(flags * 0x1_0000, 0x1_0000_0000, 0, 0x1_0000 * flags);
    FlagsOrHigh(flags, 0x5000_0000, ShlBytes(flags, 2));
    FlagsOrLow(flags, Be32(0x50, flags, 0, 0), 0xffff);
    BigEndianOf(0x50, flags, 0xff, 0xff);
  }

  method WriteTcp(output: array<u32>, base: nat, srcPort: u16, dstPort: u16, seqno: u32, ack: u32, flags: u8)
    requires base + 10 <= output.Length
    modifies output
    ensures output[base + 5..base + 10] == Words4(TcpHeader(srcPort, dstPort, seqno, ack, flags, 0))
    ensures Only(old(output[..]), output[..], base + 5, base + 10)
  {
    ghost var before := output[..];
    PortsWord(srcPort, dstPort);
    FlagsWord(flags);
    WriteWord(output, base + 5, Or(ShlBytes(srcPort, 2), dstPort));
    WriteWord(output, base + 6, seqno);
    WriteWord(output, base + 7, ack);
    var offsetFlagsWindow := Or(Or(0x5000_0000, ShlBytes(flags, 2)), 0xffff);
    WriteWord(output, base + 8, offsetFlagsWindow);
    output[base + 9] := 0;
    FiveUpdates(before, output[..], base + 5, LeSum(Byte1(srcPort), Byte0(srcPort), Byte1(dstPort), Byte0(dstPort)),
                BigEndianWord(seqno), BigEndianWord(ack), LeSum(0x50, flags, 0xff, 0xff), 0);
    ZeroChecksum(0);
    HeaderWords(srcPort, dstPort, seqno, ack, flags, 0, 0);
  }

  // ----- the response tables

  /** The constants generated into the shader (src/packet/mod.rs:908-984). */
  datatype ShaderTables = ShaderTables(wordOffsets: seq<nat>, wordCounts: seq<nat>, lengths: seq<nat>,
                                       checksumSums: seq<nat>, words: seq<u32>)

  /** The entries of one response. */
  predicate EntryFor(tables: ShaderTables, response: seq<u8>, id: nat) {
    && id < |tables.wordOffsets| && id < |tables.wordCounts| && id < |tables.lengths| && id < |tables.checksumSums|
    && tables.wordCounts[id] == (|response| + 3) / 4 && tables.lengths[id] == |response|
    && tables.checksumSums[id] == SumPairs(response)
    && tables.wordOffsets[id] + tables.wordCounts[id] <= |tables.words|
    && tables.words[tables.wordOffsets[id]..tables.wordOffsets[id] + tables.wordCounts[id]] == Pack(response)
  }

  ghost predicate TablesFor(tables: ShaderTables, table: ResponseTable) {
    forall id :: 0 <= id < RESPONSE_COUNT ==> EntryFor(tables, table[id], id)
  }

  /** The packet with the reply's fields; its payload is the response it draws, or empty. */
  predicate Draws(tables: ShaderTables, t: Tcp, key: FlowKey, r: Reply) {
    && t == Tcp(key, r.seqno, r.ack, r.flags, t.payload)
    && match r.response
       case Some(id) => EntryFor(tables, t.payload, id)
       case None => t.payload == []
  }

  // ----- checksums

  method ShaderIpChecksum(total: u16, src: u32, dst: u32) returns (c: u16)
    ensures c == IpChecksum(total, src, dst)
  {
    IpHeaderSum(total, src, dst, 0);
    var sum: u32 := 0x4500 + total + 0x4000 + 0x4006;
    sum := sum + Halves(src);
    sum := sum + Halves(dst);
    c := ShaderFold(sum);
  }

  /** The sum of a packet's fields and its payload. */
  function FieldSum(t: Tcp, payloadSum: nat): nat {
    Halves(t.key.srcIp) + Halves(t.key.dstIp) + 6 + (20 + |t.payload|) + t.key.srcPort + t.key.dstPort
    + Halves(t.seqno) + Halves(t.ack) + (0x5000 + t.flags) + 0xffff + payloadSum
  }

  lemma PayloadSumBound(payload: seq<u8>)
    requires 40 + |payload| <= MAX_RAW_PACKET_BYTES
    ensures SumPairs(payload) <= 800 * 0xffff
  {
    SumPairsBound(payload);
  }

  lemma ChecksumOfFields(t: Tcp, payloadSum: nat)
    requires Fits(t) && payloadSum == SumPairs(t.payload)
    ensures TcpChecksum(t) == Complement(FieldSum(t, payloadSum)) && payloadSum <= 800 * 0xffff
  {
    PayloadSumBound(t.payload);
    TcpSegmentSum(t, 0);
    var segment := TcpHeader(t.key.srcPort, t.key.dstPort, t.seqno, t.ack, t.flags, 0) + t.payload;
    assert |segment| == 20 + |t.payload|;
    assert PseudoSum(t.key.srcIp, t.key.dstIp, |segment|) + SumPairs(segment) == FieldSum(t, payloadSum);
  }

  /** The precomputed sum of the payload stands for the payload. */
  method ShaderTcpChecksum(tables: ShaderTables, key: FlowKey, r: Reply, tcpLen: nat, ghost t: Tcp) returns (c: u16)
    requires tcpLen == 20 + |t.payload| && Fits(t) && Draws(tables, t, key, r)
    ensures c == TcpChecksum(t)
  {
    ghost var payloadSum := SumPairs(t.payload);
    ChecksumOfFields(t, payloadSum);
    var sum: u32 := Halves(key.srcIp) + Halves(key.dstIp) + 6 + tcpLen;
    sum := sum + (key.srcPort + key.dstPort);
    sum := sum + (Halves(r.seqno) + Halves(r.ack));
    FlagsSum(r.flags);
    var offsetAndFlags := Or(0x5000, r.flags);
    sum := sum + offsetAndFlags;
    sum := sum + 0xffff;
    if r.response.Some? {
      sum := sum + tables.checksumSums[r.response.value];
    }
    assert sum == FieldSum(t, payloadSum);
    c := ShaderFold(sum);
  }

  lemma FlagsSum(flags: u8)
    ensures Or(0x5000, flags) == 0x5000 + flags
  {
    OrBytes(0x5000, flags, 1);
  }

  // ----- the payload

  lemma PackedHolds(words: seq<u32>, base: nat, payload: seq<u8>)
    requires base + PayloadWords(payload) <= |words|
    requires words[base..base + PayloadWords(payload)] == Pack(payload)
    ensures HoldsBytes(words, 4 * base, payload)
  {
    PackHolds(payload);
    forall i | 0 <= i < |payload| ensures HeldAt(words, 4 * base, payload, i) {
      assert HeldAt(Pack(payload), 0, payload, i);
      var n := PayloadWords(payload);
      SameByteInSlice(words, base, words[base..base + n], n, i / 4, i % 4);
      assert i == 4 * (i / 4) + i % 4 && i / 4 < n;
    }
  }

  /** Moving whole words moves their bytes. */
  lemma SameByteInSlice(words: seq<u32>, base: nat, part: seq<u32>, n: nat, q: nat, k: nat)
    requires base + n <= |words| && part == words[base..base + n] && q < n && k <= 3
    ensures (4 * base + (4 * q + k)) / 4 == base + q && (4 * q + k) / 4 == q
    ensures LoadByte(words, 4 * base + (4 * q + k)) == LoadByte(part, 4 * q + k)
  {
    DivModUnique(4 * base + (4 * q + k), 4, base + q, k);
    DivModUnique(4 * q + k, 4, q, k);
  }

  method WriteHttpResponse(output: array<u32>, base: nat, tables: ShaderTables, id: ResponseId,
      ghost payload: seq<u8>)
    requires EntryFor(tables, payload, id) && base + 10 + PayloadWords(payload) <= output.Length
    modifies output
    ensures output[base + 10..base + 10 + PayloadWords(payload)] == Pack(payload)
    ensures Only(old(output[..]), output[..], base + 10, base + 10 + PayloadWords(payload))
  {
    var sourceBase, wordCount := tables.wordOffsets[id], tables.wordCounts[id];
    var outputBase := base + 10;
    ghost var before := output[..];
    var wordIndex := 0;
    while wordIndex < wordCount
      invariant wordIndex <= wordCount
      invariant forall k :: 0 <= k < wordIndex ==> Copied(output[..], outputBase, tables.words, sourceBase, k)
      invariant forall k :: 0 <= k < output.Length && !(outputBase <= k < outputBase + wordCount) ==>
                  output[k] == before[k]
    {
      ghost var last := output[..];
      output[outputBase + wordIndex] := tables.words[sourceBase + wordIndex];
      CopyOne(last, output[..], outputBase, tables.words, sourceBase, wordIndex);
      wordIndex := wordIndex + 1;
    }
    CopiedSlice(output[..], outputBase, tables.words, sourceBase, wordCount);
  }

  predicate Copied(a: seq<u32>, i: nat, b: seq<u32>, j: nat, k: nat) {
    i + k < |a| && j + k < |b| && a[i + k] == b[j + k]
  }

  lemma CopyOne(before: seq<u32>, after: seq<u32>, i: nat, b: seq<u32>, j: nat, n: nat)
    requires i + n < |before| && j + n < |b| && after == before[i + n := b[j + n]]
    requires forall k :: 0 <= k < n ==> Copied(before, i, b, j, k)
    ensures forall k :: 0 <= k < n + 1 ==> Copied(after, i, b, j, k)
  {
    forall k | 0 <= k < n + 1 ensures Copied(after, i, b, j, k) {
      assert k < n ==> Copied(before, i, b, j, k);
    }
  }

  lemma CopiedSlice(a: seq<u32>, i: nat, b: seq<u32>, j: nat, n: nat)
    requires i + n <= |a| && j + n <= |b| && forall k :: 0 <= k < n ==> Copied(a, i, b, j, k)
    ensures a[i..i + n] == b[j..j + n]
  {
    var a', b' := a[i..i + n], b[j..j + n];
    forall k | 0 <= k < n ensures a'[k] == b'[k] {
      assert Copied(a, i, b, j, k);
    }
  }

  // ----- the whole packet

  lemma FilledIp(total: u16, src: u32, dst: u32, c: u16)
    ensures var w := Words4(IpHeader(total, src, dst, 0));
            Words4(IpHeader(total, src, dst, c)) == w[2 := HalfReplaced(w[2], 1, c)]
  {
    IpWords(total, src, dst, 0);
    IpWords(total, src, dst, c);
    ByteOfLeSum(64, 6, 0, 0);
  }

  lemma LastReplaced(lead: seq<u32>, before: u32, after: u32)
    requires |lead| == 4
    ensures (lead + [before])[4] == before && (lead + [before])[4 := after] == lead + [after]
  {
  }

  lemma FilledTcp(srcPort: u16, dstPort: u16, seqno: u32, ack: u32, flags: u8, c: u16)
    ensures var w := Words4(TcpHeader(srcPort, dstPort, seqno, ack, flags, 0));
            Words4(TcpHeader(srcPort, dstPort, seqno, ack, flags, c)) == w[4 := HalfReplaced(w[4], 0, c)]
  {
    TcpWords(srcPort, dstPort, seqno, ack, flags, 0);
    TcpWords(srcPort, dstPort, seqno, ack, flags, c);
    ChecksumReplaced(0, c);
    LastReplaced(TcpLead(srcPort, dstPort, seqno, ack, flags), ChecksumWord(0), ChecksumWord(c));
  }

  lemma ChecksumReplaced(before: u16, after: u16)
    ensures HalfReplaced(ChecksumWord(before), 0, after) == ChecksumWord(after)
  {
    ByteOfLeSum(Byte1(before), Byte0(before), 0, 0);
  }

  function IpPart(t: Tcp, c: u16): (h: seq<u8>)
    requires Fits(t)
    ensures |h| == 20
  {
    IpHeader(40 + |t.payload|, t.key.srcIp, t.key.dstIp, c)
  }

  function TcpPart(t: Tcp, c: u16): (h: seq<u8>)
    ensures |h| == 20
  {
    TcpHeader(t.key.srcPort, t.key.dstPort, t.seqno, t.ack, t.flags, c)
  }

  function IpSumOf(t: Tcp): u16
    requires Fits(t)
  {
    IpChecksum(40 + |t.payload|, t.key.srcIp, t.key.dstIp)
  }

  function PayloadWords(payload: seq<u8>): nat {
    (|payload| + 3) / 4
  }

  /** Two headers and a payload, laid out in words. */
  predicate PartsWritten(words: seq<u32>, base: nat, ip: seq<u8>, tcp: seq<u8>, payload: seq<u8>, end: nat) {
    && |ip| == 20 && |tcp| == 20 && end == base + 10 + PayloadWords(payload) && end <= |words|
    && words[base..base + 5] == Words4(ip)
    && words[base + 5..base + 10] == Words4(tcp)
    && words[base + 10..end] == Pack(payload)
  }

  lemma PartsHold(words: seq<u32>, base: nat, ip: seq<u8>, tcp: seq<u8>, payload: seq<u8>, end: nat)
    requires PartsWritten(words, base, ip, tcp, payload, end)
    ensures HoldsBytes(words, 4 * base, ip + tcp + payload)
  {
    Words4Hold(words, base, ip);
    Words4Hold(words, base + 5, tcp);
    PackedHolds(words, base + 10, payload);
    HoldsConcat(words, 4 * base, ip, tcp);
    HoldsConcat(words, 4 * base, ip + tcp, payload);
  }

  lemma PartsArePacket(t: Tcp)
    requires Fits(t)
    ensures PacketBytes(t) == IpPart(t, IpSumOf(t)) + TcpPart(t, TcpChecksum(t)) + t.payload
  {
  }

  /** One header replaced. */
  lemma HeaderReplaced(before: seq<u32>, after: seq<u32>, base: nat, ip: seq<u8>, tcp: seq<u8>, payload: seq<u8>,
      end: nat, ip': seq<u8>, tcp': seq<u8>, i: nat, v: u32)
    requires PartsWritten(before, base, ip, tcp, payload, end) && |ip'| == 20 && |tcp'| == 20
    requires base <= i < base + 10 && after == before[i := v]
    requires i < base + 5 ==> tcp' == tcp && Words4(ip') == Words4(ip)[i - base := v]
    requires i >= base + 5 ==> ip' == ip && Words4(tcp') == Words4(tcp)[i - base - 5 := v]
    ensures PartsWritten(after, base, ip', tcp', payload, end)
    ensures Only(before, after, base, end)
  {
    UpdateInSlice(before, i, v, base, end);
    if i < base + 5 {
      UpdateInSlice(before, i, v, base, base + 5);
      SliceKept(before, after, base, base + 5, base + 5, base + 10);
      SliceKept(before, after, base, base + 5, base + 10, end);
    } else {
      UpdateInSlice(before, i, v, base + 5, base + 10);
      SliceKept(before, after, base + 5, base + 10, base, base + 5);
      SliceKept(before, after, base + 5, base + 10, base + 10, end);
    }
  }

  method WriteIpChecksum(output: array<u32>, base: nat, packetLen: u16, key: FlowKey, ghost t: Tcp, ghost end: nat)
    requires Fits(t) && packetLen == 40 + |t.payload| && key == t.key
    requires PartsWritten(output[..], base, IpPart(t, 0), TcpPart(t, 0), t.payload, end)
    modifies output
    ensures PartsWritten(output[..], base, IpPart(t, IpSumOf(t)), TcpPart(t, 0), t.payload, end)
    ensures Only(old(output[..]), output[..], base, end)
  {
    ghost var before := output[..];
    var c := ShaderIpChecksum(packetLen, key.srcIp, key.dstIp);
    FilledIp(40 + |t.payload|, t.key.srcIp, t.key.dstIp, c);
    assert output[base + 2] == output[base..base + 5][2];
    ghost var v := HalfReplaced(output[base + 2], 1, c);
    WriteHalf(output, base + 2, 1, c);
    HeaderReplaced(before, output[..], base, IpPart(t, 0), TcpPart(t, 0), t.payload, end,
                   IpPart(t, c), TcpPart(t, 0), base + 2, v);
  }

  method WriteTcpChecksum(output: array<u32>, base: nat, packetLen: u16, key: FlowKey, r: Reply,
      tables: ShaderTables, ghost t: Tcp, ghost ip: seq<u8>, ghost end: nat)
    requires Fits(t) && packetLen == 40 + |t.payload| && Draws(tables, t, key, r)
    requires PartsWritten(output[..], base, ip, TcpPart(t, 0), t.payload, end)
    modifies output
    ensures PartsWritten(output[..], base, ip, TcpPart(t, TcpChecksum(t)), t.payload, end)
    ensures Only(old(output[..]), output[..], base, end)
  {
    ghost var before := output[..];
    var c := ShaderTcpChecksum(tables, key, r, packetLen - 20, t);
    FilledTcp(t.key.srcPort, t.key.dstPort, t.seqno, t.ack, t.flags, c);
    assert output[base + 9] == output[base + 5..base + 10][4];
    ghost var v := HalfReplaced(output[base + 9], 0, c);
    WriteHalf(output, base + 9, 0, c);
    HeaderReplaced(before, output[..], base, ip, TcpPart(t, 0), t.payload, end, ip, TcpPart(t, c), base + 9, v);
  }

  method WriteHeaders(output: array<u32>, base: nat, packetLen: u16, key: FlowKey, r: Reply, ghost t: Tcp)
    requires Fits(t) && base + 10 <= output.Length
    requires packetLen == 40 + |t.payload| && t == Tcp(key, r.seqno, r.ack, r.flags, t.payload)
    modifies output
    ensures output[base..base + 5] == Words4(IpPart(t, 0)) && output[base + 5..base + 10] == Words4(TcpPart(t, 0))
    ensures Only(old(output[..]), output[..], base, base + 10)
  {
    ghost var s0 := output[..];
    WriteIpv4(output, base, packetLen, key.srcIp, key.dstIp);
    ghost var s1 := output[..];
    WriteTcp(output, base, key.srcPort, key.dstPort, r.seqno, r.ack, r.flags);
    SliceKept(s1, output[..], base + 5, base + 10, base, base + 5);
    OnlyChain(s0, s1, output[..], base, base + 5, base + 10);
  }

  /** Headers without checksums, and the payload. */
  method WriteParts(output: array<u32>, base: nat, packetLen: u16, key: FlowKey, r: Reply, tables: ShaderTables,
      ghost t: Tcp, ghost end: nat)
    requires Fits(t) && end == base + 10 + PayloadWords(t.payload) && end <= output.Length
    requires packetLen == 40 + |t.payload| && Draws(tables, t, key, r)
    modifies output
    ensures PartsWritten(output[..], base, IpPart(t, 0), TcpPart(t, 0), t.payload, end)
    ensures Only(old(output[..]), output[..], base, end)
  {
    ghost var s0 := output[..];
    WriteHeaders(output, base, packetLen, key, r, t);
    ghost var s1 := output[..];
    if r.response.Some? {
      WriteHttpResponse(output, base, tables, r.response.value, t.payload);
      SliceKept(s1, output[..], base + 10, end, base, base + 5);
      SliceKept(s1, output[..], base + 10, end, base + 5, base + 10);
      OnlyChain(s0, s1, output[..], base, base + 10, end);
    }
  }

  /** Changes in adjacent ranges. */
  lemma OnlyChain(a: seq<u32>, b: seq<u32>, c: seq<u32>, from: nat, mid: nat, to: nat)
    requires Only(a, b, from, mid) && Only(b, c, mid, to)
    ensures Only(a, c, from, to)
  {
    SliceKept(a, b, from, mid, to, |a|);
    SliceKept(b, c, mid, to, 0, from);
  }

  /** The shader's packet is, byte for byte, the packet the host builds from the same fields. */
  method EmitPacket(output: array<u32>, base: nat, key: FlowKey, r: Reply, tables: ShaderTables, ghost t: Tcp,
      ghost end: nat)
    returns (packetLen: nat)
    requires Fits(t) && end == base + 10 + PayloadWords(t.payload) && end <= output.Length && Draws(tables, t, key, r)
    modifies output
    ensures packetLen == 40 + |t.payload| && HoldsBytes(output[..], 4 * base, PacketBytes(t))
    ensures Only(old(output[..]), output[..], base, end)
  {
    var payloadLen := if r.response.Some? then tables.lengths[r.response.value] else 0;
    packetLen := 40 + payloadLen;
    ghost var s0 := output[..];
    WriteParts(output, base, packetLen, key, r, tables, t, end);
    ghost var s1 := output[..];
    WriteIpChecksum(output, base, packetLen, key, t, end);
    ghost var s2 := output[..];
    OnlyTwice(s0, s1, s2, base, end);
    WriteTcpChecksum(output, base, packetLen, key, r, tables, t, IpPart(t, IpSumOf(t)), end);
    OnlyTwice(s0, s2, output[..], base, end);
    PartsHold(output[..], base, IpPart(t, IpSumOf(t)), TcpPart(t, TcpChecksum(t)), t.payload, end);
    PartsArePacket(t);
  }
}
