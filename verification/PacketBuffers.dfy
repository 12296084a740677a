/** The host side of a wave: generating the response tables, packing the input words and reading
    the replies back (src/packet/mod.rs:908-984, 1071-1126 and 1163-1188). */
module PacketBuffers {
  import opened Bits
  import opened Checksum
  import opened Collections
  import opened Wire
  import opened Responses
  import opened Packing
  import opened PacketWords
  import opened PacketEmit
  import opened PacketMain
  import opened OutputSlots
  import opened FlowOrder

  // ----- response tables

  predicate SameByte(bytes: seq<u8>, from: nat, response: seq<u8>, p: nat) {
    ByteOrZero(bytes, from + p) == ByteOrZero(response, p)
  }

  /** The response starts at a word boundary, and only zeros share its last word. */
  ghost predicate InWords(bytes: seq<u8>, offset: nat, response: seq<u8>) {
    && 4 * offset + |response| <= |bytes|
    && forall p :: 0 <= p < 4 * PayloadWords(response) ==> SameByte(bytes, 4 * offset, response, p)
  }

  lemma StaysInWords(bytes: seq<u8>, more: seq<u8>, offset: nat, response: seq<u8>)
    requires InWords(bytes, offset, response)
    requires |bytes| % 4 == 0 || more == [0]
    ensures InWords(bytes + more, offset, response)
  {
    forall p | 0 <= p < 4 * PayloadWords(response) ensures SameByte(bytes + more, 4 * offset, response, p) {
      assert SameByte(bytes, 4 * offset, response, p);
      if |bytes| % 4 == 0 {
        RoundedEnd(|bytes|, offset, |response|);
      }
    }
  }

  lemma RoundedEnd(n: nat, offset: nat, len: nat)
    requires n % 4 == 0 && 4 * offset + len <= n
    ensures 4 * offset + 4 * ((len + 3) / 4) <= n
  {
  }

  lemma AppendedInWords(bytes: seq<u8>, response: seq<u8>)
    requires |bytes| % 4 == 0
    ensures InWords(bytes + response, |bytes| / 4, response)
  {
    forall p | 0 <= p < 4 * PayloadWords(response) ensures SameByte(bytes + response, 4 * (|bytes| / 4), response, p) {
    }
  }

  lemma SameWords(a: seq<u8>, b: seq<u8>)
    requires |a| <= 4 && |b| <= 4 && forall k :: 0 <= k < 4 ==> ByteOrZero(a, k) == ByteOrZero(b, k)
    ensures LeWord(a) == LeWord(b)
  {
    assert ByteOrZero(a, 0) == ByteOrZero(b, 0) && ByteOrZero(a, 1) == ByteOrZero(b, 1);
    assert ByteOrZero(a, 2) == ByteOrZero(b, 2) && ByteOrZero(a, 3) == ByteOrZero(b, 3);
  }

  lemma ChunkByte(bytes: seq<u8>, j: nat, k: nat)
    requires k < 4
    ensures ByteOrZero(Chunk(bytes, |bytes|, j), k) == ByteOrZero(bytes, 4 * j + k)
  {
  }

  /** Packed, such a response occupies exactly its own words. */
  lemma PackedInWords(bytes: seq<u8>, offset: nat, response: seq<u8>)
    requires InWords(bytes, offset, response)
    ensures offset + PayloadWords(response) <= |Pack(bytes)|
    ensures Pack(bytes)[offset..offset + PayloadWords(response)] == Pack(response)
  {
    var n := PayloadWords(response);
    var part := Pack(bytes)[offset..offset + n];
    forall w | 0 <= w < n ensures part[w] == Pack(response)[w] {
      PackWord(bytes, offset + w);
      PackWord(response, w);
      SameChunks(bytes, offset, response, w);
    }
  }

  lemma SameChunks(bytes: seq<u8>, offset: nat, response: seq<u8>, w: nat)
    requires InWords(bytes, offset, response) && w < PayloadWords(response)
    ensures LeWord(Chunk(bytes, |bytes|, offset + w)) == LeWord(Chunk(response, |response|, w))
  {
    forall k | 0 <= k < 4
      ensures ByteOrZero(Chunk(bytes, |bytes|, offset + w), k) == ByteOrZero(Chunk(response, |response|, w), k)
    {
      ChunkByte(bytes, offset + w, k);
      ChunkByte(response, w, k);
      assert SameByte(bytes, 4 * offset, response, 4 * w + k);
    }
    SameWords(Chunk(bytes, |bytes|, offset + w), Chunk(response, |response|, w));
  }

  /** The scalar entries of the tables for the first n responses. */
  ghost predicate ListedUpTo(t: ShaderTables, bytes: seq<u8>, table: ResponseTable, n: nat) {
    && n <= RESPONSE_COUNT && |t.wordOffsets| == |t.wordCounts| == |t.lengths| == |t.checksumSums| == n
    && forall id :: 0 <= id < n ==> Listed(t, bytes, table[id], id)
  }

  ghost predicate Listed(t: ShaderTables, bytes: seq<u8>, response: seq<u8>, id: nat) {
    && id < |t.wordOffsets| && id < |t.wordCounts| && id < |t.lengths| && id < |t.checksumSums|
    && t.wordCounts[id] == PayloadWords(response) && t.lengths[id] == |response|
    && t.checksumSums[id] == SumPairs(response)
    && InWords(bytes, t.wordOffsets[id], response)
  }

  lemma StaysListed(t: ShaderTables, bytes: seq<u8>, more: seq<u8>, table: ResponseTable, n: nat)
    requires ListedUpTo(t, bytes, table, n) && (|bytes| % 4 == 0 || more == [0])
    ensures ListedUpTo(t, bytes + more, table, n)
  {
    forall id | 0 <= id < n ensures Listed(t, bytes + more, table[id], id) {
      assert Listed(t, bytes, table[id], id);
      StaysInWords(bytes, more, t.wordOffsets[id], table[id]);
    }
  }

  lemma ListOne(t: ShaderTables, bytes: seq<u8>, table: ResponseTable, n: nat, t': ShaderTables)
    requires ListedUpTo(t, bytes, table, n) && |bytes| % 4 == 0 && n < RESPONSE_COUNT
    requires t' == t.(wordOffsets := t.wordOffsets + [|bytes| / 4],
                      wordCounts := t.wordCounts + [PayloadWords(table[n])],
                      lengths := t.lengths + [|table[n]|], checksumSums := t.checksumSums + [SumPairs(table[n])])
    ensures ListedUpTo(t', bytes + table[n], table, n + 1)
  {
    StaysListed(t, bytes, table[n], table, n);
    AppendedInWords(bytes, table[n]);
    forall id | 0 <= id < n + 1 ensures Listed(t', bytes + table[n], table[id], id) {
      if id < n {
        assert Listed(t, bytes + table[n], table[id], id);
      }
    }
  }

  lemma ListedAreTables(t: ShaderTables, bytes: seq<u8>, table: ResponseTable)
    requires ListedUpTo(t, bytes, table, RESPONSE_COUNT) && t.words == Pack(bytes)
    ensures TablesFor(t, table)
  {
    forall id | 0 <= id < RESPONSE_COUNT ensures EntryFor(t, table[id], id) {
      assert Listed(t, bytes, table[id], id);
      PackedInWords(bytes, t.wordOffsets[id], table[id]);
    }
  }

  /** The tables generated for the shader describe the responses exactly. */
  method BuildResponseTables(table: ResponseTable) returns (tables: ShaderTables)
    ensures TablesFor(tables, table)
  {
    var bytes: seq<u8> := [];
    tables := ShaderTables([], [], [], [], []);
    var id := 0;
    while id < |table|
      invariant id <= |table| && ListedUpTo(tables, bytes, table, id)
    {
      while |bytes| % 4 != 0
        invariant ListedUpTo(tables, bytes, table, id)
        decreases 3 - (|bytes| + 3) % 4
      {
        StaysListed(tables, bytes, [0], table, id);
        bytes := bytes + [0];
      }
      ghost var before := tables;
      var sum := InternetChecksumSum(table[id]);
      tables := tables.(wordOffsets := tables.wordOffsets + [|bytes| / 4],
                        wordCounts := tables.wordCounts + [(|table[id]| + 3) / 4],
                        lengths := tables.lengths + [|table[id]|], checksumSums := tables.checksumSums + [sum]);
      ListOne(before, bytes, table, id, tables);
      bytes := bytes + table[id];
      id := id + 1;
    }
    var words := PackBytes(bytes);
    tables := tables.(words := words);
    ListedAreTables(tables, bytes, table);
  }

  /** `internet_checksum_sum`: the byte-pair sum over chunks of two. */
  method InternetChecksumSum(bytes: seq<u8>) returns (sum: u32)
    requires |bytes| <= 0x1_0000
    ensures sum == SumPairs(bytes)
  {
    sum := SumChunks(bytes, 0, -1);
  }

  // ----- packing a wave

  datatype PacketMeta = PacketMeta(len: u32, wordOffset: u32)

  /** The words of the first n packets of a wave. */
  function WordsBefore(packets: seq<seq<u8>>, wave: seq<nat>, n: nat): nat
    requires n <= |wave| && forall j :: 0 <= j < |wave| ==> wave[j] < |packets|
  {
    if n == 0 then 0 else WordsBefore(packets, wave, n - 1) + PayloadWords(packets[wave[n - 1]])
  }

  predicate MetaFor(packets: seq<seq<u8>>, wave: seq<nat>, metadata: seq<PacketMeta>, j: nat)
    requires j < |wave| && forall j :: 0 <= j < |wave| ==> wave[j] < |packets|
  {
    j < |metadata| && metadata[j].len == |packets[wave[j]]| && metadata[j].wordOffset == WordsBefore(packets, wave, j)
  }

  /** Lengths and word offsets; fails when one does not fit u32. */
  method PrepareWaveMetadata(packets: seq<seq<u8>>, wave: seq<nat>) returns (r: Option<(seq<PacketMeta>, nat)>)
    requires forall j :: 0 <= j < |wave| ==> wave[j] < |packets|
    ensures r.Some? ==>
              && |r.value.0| == |wave| && r.value.1 == WordsBefore(packets, wave, |wave|)
              && forall j :: 0 <= j < |wave| ==> MetaFor(packets, wave, r.value.0, j)
    ensures r.None? ==>
              exists j :: 0 <= j < |wave|
                          && (|packets[wave[j]]| >= 0x1_0000_0000 || WordsBefore(packets, wave, j) >= 0x1_0000_0000)
  {
    var metadata: seq<PacketMeta> := [];
    var wordCount := 0;
    var n := 0;
    while n < |wave|
      invariant n <= |wave| && |metadata| == n && wordCount == WordsBefore(packets, wave, n)
      invariant forall j :: 0 <= j < n ==> MetaFor(packets, wave, metadata, j)
    {
      var packet := packets[wave[n]];
      var wordOffset := wordCount;
      wordCount := wordCount + (|packet| + 3) / 4;
      if |packet| >= 0x1_0000_0000 || wordOffset >= 0x1_0000_0000 {
        return None;
      }
      ghost var before := metadata;
      metadata := metadata + [PacketMeta(|packet|, wordOffset)];
      forall j | 0 <= j < n + 1 ensures MetaFor(packets, wave, metadata, j) {
        if j < n {
          assert MetaFor(packets, wave, before, j);
        }
      }
      n := n + 1;
    }
    return Some((metadata, wordCount));
  }

  lemma {:induction false} OffsetsAscend(packets: seq<seq<u8>>, wave: seq<nat>, i: nat, j: nat)
    requires i <= j <= |wave| && forall j :: 0 <= j < |wave| ==> wave[j] < |packets|
    ensures WordsBefore(packets, wave, i) <= WordsBefore(packets, wave, j)
  {
    if i < j {
      OffsetsAscend(packets, wave, i, j - 1);
    }
  }

  predicate CopiedAt(destination: seq<u8>, start: nat, packet: seq<u8>) {
    start + |packet| <= |destination| && destination[start..start + |packet|] == packet
  }

  method CopyInto(destination: array<u8>, start: nat, packet: seq<u8>)
    requires start + |packet| <= destination.Length
    modifies destination
    ensures destination[start..start + |packet|] == packet
    ensures destination[..start] == old(destination[..start])
            && destination[start + |packet|..] == old(destination[start + |packet|..])
  {
    var k := 0;
    while k < |packet|
      invariant k <= |packet| && destination[start..start + k] == packet[..k]
      invariant destination[..start] == old(destination[..start])
      invariant destination[start + |packet|..] == old(destination[start + |packet|..])
    {
      destination[start + k] := packet[k];
      k := k + 1;
    }
  }

  lemma EarlierCopyStays(before: seq<u8>, after: seq<u8>, start: nat, packet: seq<u8>, from: nat)
    requires CopiedAt(before, start, packet) && start + |packet| <= from <= |before| == |after|
             && before[..from] == after[..from]
    ensures CopiedAt(after, start, packet)
  {
    assert before[..from][start..start + |packet|] == before[start..start + |packet|];
    assert after[..from][start..start + |packet|] == after[start..start + |packet|];
  }

  ghost predicate CopiedUpTo(packets: seq<seq<u8>>, wave: seq<nat>, metadata: seq<PacketMeta>, destination: seq<u8>,
      n: nat) {
    forall j :: 0 <= j < n ==>
      j < |wave| && j < |metadata| && wave[j] < |packets|
        && CopiedAt(destination, 4 * metadata[j].wordOffset, packets[wave[j]])
  }

  lemma CopyOneMore(packets: seq<seq<u8>>, wave: seq<nat>, metadata: seq<PacketMeta>, before: seq<u8>,
      after: seq<u8>, n: nat, start: nat)
    requires forall j :: 0 <= j < |wave| ==> wave[j] < |packets|
    requires |metadata| == |wave| && n < |wave| && forall j :: 0 <= j < |wave| ==> MetaFor(packets, wave, metadata, j)
    requires CopiedUpTo(packets, wave, metadata, before, n) && start == 4 * metadata[n].wordOffset
    requires |before| == |after| && start <= |before| && before[..start] == after[..start]
             && CopiedAt(after, start, packets[wave[n]])
    ensures CopiedUpTo(packets, wave, metadata, after, n + 1)
  {
    forall j | 0 <= j < n ensures CopiedAt(after, 4 * metadata[j].wordOffset, packets[wave[j]]) {
      assert MetaFor(packets, wave, metadata, j) && MetaFor(packets, wave, metadata, n);
      OffsetsAscend(packets, wave, j + 1, n);
      EarlierCopyStays(before, after, 4 * metadata[j].wordOffset, packets[wave[j]], start);
    }
  }

  /** Every packet of the wave ends up at its word offset. */
  method PackWaveBytes(packets: seq<seq<u8>>, wave: seq<nat>, metadata: seq<PacketMeta>, destination: array<u8>)
    requires forall j :: 0 <= j < |wave| ==> wave[j] < |packets|
    requires |metadata| == |wave| && forall j :: 0 <= j < |wave| ==> MetaFor(packets, wave, metadata, j)
    requires destination.Length == 4 * WordsBefore(packets, wave, |wave|)
    modifies destination
    ensures CopiedUpTo(packets, wave, metadata, destination[..], |wave|)
  {
    var k := 0;
    while k < destination.Length {
      destination[k] := 0;
      k := k + 1;
    }
    var n := 0;
    while n < |wave|
      invariant n <= |wave|
      invariant CopiedUpTo(packets, wave, metadata, destination[..], n)
    {
      assert MetaFor(packets, wave, metadata, n);
      OffsetsAscend(packets, wave, n + 1, |wave|);
      ghost var before := destination[..];
      var offset := metadata[n].wordOffset * 4;
      CopyInto(destination, offset, packets[wave[n]]);
      CopyOneMore(packets, wave, metadata, before, destination[..], n, offset);
      n := n + 1;
    }
  }

  /** Read as words, the uploaded bytes are the input every thread needs. */
  lemma UploadedInput(destination: seq<u8>, wordOffset: nat, packet: seq<u8>)
    requires CopiedAt(destination, 4 * wordOffset, packet) && |Pack(destination)| <= 0x1_0000_0000
    ensures Input(Pack(destination), wordOffset, packet)
  {
    PackHolds(destination);
    forall i | 0 <= i < |packet| ensures HeldAt(Pack(destination), 4 * wordOffset, packet, i) {
      assert HeldAt(Pack(destination), 0, destination, 4 * wordOffset + i);
      assert destination[4 * wordOffset..4 * wordOffset + |packet|][i] == destination[4 * wordOffset + i];
    }
  }

  // ----- reading the replies back

  /** What the output words say of packet i of the wave. */
  function ReadBack(words: seq<u32>, l: Layout, i: nat): Option<seq<u8>>
    requires Deliverable(words, l, i)
  {
    if words[i] == 0 then None else Some(BytesAt(words, 4 * SlotBase(l.count, l.stride, i), words[i]))
  }

  /** The length fits the slot, and the packet fits a raw packet. */
  predicate Deliverable(words: seq<u32>, l: Layout, i: nat) {
    && i < l.count <= |words| && words[i] <= 4 * l.stride && words[i] <= MAX_RAW_PACKET_BYTES
    && 4 * SlotBase(l.count, l.stride, i) + words[i] <= 4 * |words|
  }

  /** Reading inverts producing. */
  lemma ProducedIsReadBack(words: seq<u32>, l: Layout, i: nat, reply: Option<seq<u8>>)
    requires Produced(words, l, i, reply) && SlotBase(l.count, l.stride, l.count) <= |words|
    requires reply.Some? ==> |reply.value| <= MAX_RAW_PACKET_BYTES
    ensures Deliverable(words, l, i) && ReadBack(words, l, i) == reply
  {
    SlotInBuffer(l, i);
    if reply.Some? {
      HeldBytes(words, 4 * SlotBase(l.count, l.stride, i), reply.value);
    }
  }

  /** The first n packets of the wave are at their source indexes, and nothing else has changed. */
  ghost predicate DeliveredUpTo(before: seq<Option<seq<u8>>>, after: seq<Option<seq<u8>>>, words: seq<u32>,
      l: Layout, wave: seq<nat>, n: nat)
    requires n <= |wave|
  {
    && |after| == |before|
    && (forall i :: 0 <= i < n ==> DeliveredAt(after, words, l, wave, i))
    && forall k :: 0 <= k < |before| && k !in wave[..n] ==> after[k] == before[k]
  }

  ghost predicate DeliveredAt(after: seq<Option<seq<u8>>>, words: seq<u32>, l: Layout, wave: seq<nat>, i: nat) {
    i < |wave| && wave[i] < |after| && Deliverable(words, l, i) && after[wave[i]] == ReadBack(words, l, i)
  }

  lemma DeliverOne(start: seq<Option<seq<u8>>>, before: seq<Option<seq<u8>>>, words: seq<u32>, l: Layout,
      wave: seq<nat>, n: nat)
    requires n < |wave| && NoRepeats(wave) && DeliveredUpTo(start, before, words, l, wave, n)
    requires Deliverable(words, l, n) && wave[n] < |before|
    ensures DeliveredUpTo(start, before[wave[n] := ReadBack(words, l, n)], words, l, wave, n + 1)
  {
    var after := before[wave[n] := ReadBack(words, l, n)];
    forall i | 0 <= i < n + 1 ensures DeliveredAt(after, words, l, wave, i) {
      if i < n {
        assert DeliveredAt(before, words, l, wave, i) && wave[i] != wave[n];
      }
    }
    assert wave[..n + 1] == wave[..n] + [wave[n]];
  }

  /** Every packet of the wave is delivered at its source index, up to the first length that does
      not fit, which is refused. */
  method EmitWaveOutputs(words: seq<u32>, l: Layout, wave: seq<nat>, sink: array<Option<seq<u8>>>)
    returns (refused: Option<nat>)
    requires |wave| == l.count && SlotBase(l.count, l.stride, l.count) <= |words|
    requires NoRepeats(wave) && Indices(wave, sink.Length)
    modifies sink
    ensures refused.None? ==> DeliveredUpTo(old(sink[..]), sink[..], words, l, wave, |wave|)
    ensures refused.Some? ==>
              && refused.value < |wave| && !Deliverable(words, l, refused.value)
              && DeliveredUpTo(old(sink[..]), sink[..], words, l, wave, refused.value)
  {
    var index := 0;
    while index < l.count
      invariant index <= l.count && DeliveredUpTo(old(sink[..]), sink[..], words, l, wave, index)
    {
      SlotInBuffer(l, index);
      ghost var before := sink[..];
      var len := words[index];
      if len == 0 {
        sink[wave[index]] := None;
      } else {
        if len > 4 * l.stride || len > MAX_RAW_PACKET_BYTES {
          return Some(index);
        }
        var base := SlotStart(l.count, l.stride, index);
        sink[wave[index]] := Some(BytesAt(words, 4 * base, len));
      }
      DeliverOne(old(sink[..]), before, words, l, wave, index);
      index := index + 1;
    }
    return None;
  }
}
