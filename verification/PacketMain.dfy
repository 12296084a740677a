/** The output buffer of a wave and what one thread writes to it: its length and its slot
    (src/packet/packet.wgsl:494-697, src/packet/mod.rs:1163-1188). */
module PacketMain {
  import opened Bits
  import opened Wire
  import opened Responses
  import opened Packing
  import opened PacketEmit
  import opened OutputSlots
  import Cpu = CpuEngine

  // ----- the output buffer

  /** The buffer starts with one length per packet; the slots follow. */
  datatype Layout = Layout(count: nat, stride: nat)

  /** Every slot is in the buffer and holds any reply; the word positions fit u32. */
  ghost predicate FitsLayout(l: Layout, words: nat, table: ResponseTable) {
    && SlotBase(l.count, l.stride, l.count) <= words <= 0x1_0000_0000
    && forall id :: 0 <= id < RESPONSE_COUNT ==> 10 + PayloadWords(table[id]) <= l.stride
  }

  /** Packet i of the wave drew this reply, or none. */
  ghost predicate Produced(words: seq<u32>, l: Layout, i: nat, reply: Option<seq<u8>>) {
    && i < l.count <= |words|
    && words[i] == (if reply.Some? then |reply.value| else 0)
    && (reply.Some? ==>
          && 0 < |reply.value| <= 4 * l.stride
          && HoldsBytes(words, 4 * SlotBase(l.count, l.stride, i), reply.value))
  }

  lemma SlotInBuffer(l: Layout, i: nat)
    requires i < l.count
    ensures l.count <= SlotBase(l.count, l.stride, i) && SlotBase(l.count, l.stride, i)
            + l.stride <= SlotBase(l.count, l.stride, l.count)
  {
    SlotsAscend(l.count, l.stride, i, i);
    SlotsAscend(l.count, l.stride, i + 1, l.count);
  }

  /** The words of thread i: its length and its slot. */
  ghost predicate OwnWordsOnly(before: seq<u32>, after: seq<u32>, l: Layout, i: nat) {
    var base := SlotBase(l.count, l.stride, i);
    && |after| == |before|
    && forall k :: 0 <= k < |before| && k != i && !(base <= k < base + l.stride) ==> after[k] == before[k]
  }

  lemma HoldsElsewhere(before: seq<u32>, after: seq<u32>, base: nat, bytes: seq<u8>, stride: nat)
    requires |after| == |before| && HoldsBytes(before, 4 * base, bytes) && |bytes| <= 4 * stride && base
             + stride <= |before|
    requires forall k :: base <= k < base + stride ==> after[k] == before[k]
    ensures HoldsBytes(after, 4 * base, bytes)
  {
    forall b | 0 <= b < |bytes| ensures HeldAt(after, 4 * base, bytes, b) {
      assert HeldAt(before, 4 * base, bytes, b);
      DivModUnique(4 * base + b, 4, base + b / 4, b % 4);
    }
  }

  /** A thread never disturbs another thread's reply. */
  lemma OtherRepliesStay(before: seq<u32>, after: seq<u32>, l: Layout, i: nat, j: nat, reply: Option<seq<u8>>)
    requires OwnWordsOnly(before, after, l, i) && i < l.count && SlotBase(l.count, l.stride, l.count) <= |before|
    requires Produced(before, l, j, reply) && i != j
    ensures Produced(after, l, j, reply)
  {
    SlotInBuffer(l, i);
    SlotInBuffer(l, j);
    if i < j {
      SlotsAscend(l.count, l.stride, i + 1, j);
    } else {
      SlotsAscend(l.count, l.stride, j + 1, i);
    }
    if reply.Some? {
      HoldsElsewhere(before, after, SlotBase(l.count, l.stride, j), reply.value, l.stride);
    }
  }

  // ----- one thread

  lemma ReplyDraws(tables: ShaderTables, table: ResponseTable, l: Layout, words: nat, key: FlowKey, r: Reply)
    requires TablesFor(tables, table) && FitsLayout(l, words, table)
    ensures var t := ReplyPacket(table, key, r);
            Draws(tables, t, Reverse(key), r) && 10 + PayloadWords(t.payload) <= l.stride
  {
    if r.response.Some? {
      assert EntryFor(tables, table[r.response.value], r.response.value);
    } else {
      assert |table[0]| >= 1 && 10 + PayloadWords(table[0]) <= l.stride;
    }
  }

  /** A packet written into the slot, then its length. */
  lemma LengthStored(before: seq<u32>, written: seq<u32>, after: seq<u32>, l: Layout, i: nat, end: nat,
      bytes: seq<u8>)
    requires i < l.count <= SlotBase(l.count, l.stride, l.count) <= |before| == |written|
    requires Only(before, written, SlotBase(l.count, l.stride, i), end)
             && end <= SlotBase(l.count, l.stride, i) + l.stride
    requires 0 < |bytes| <= 4 * l.stride && |bytes| < 0x1_0000
             && HoldsBytes(written, 4 * SlotBase(l.count, l.stride, i), bytes)
    requires after == written[i := |bytes|]
    ensures Produced(after, l, i, Some(bytes)) && OwnWordsOnly(before, after, l, i)
  {
    var base := SlotBase(l.count, l.stride, i);
    SlotInBuffer(l, i);
    HoldsElsewhere(written, after, base, bytes, l.stride);
    forall k | 0 <= k < |before| && k != i && !(base <= k < base + l.stride) ensures after[k] == before[k] {
      SliceKept(before, written, base, end, k, k + 1);
      assert before[k..k + 1][0] == written[k..k + 1][0];
    }
  }

  method EmitReply(tables: ShaderTables, ghost table: ResponseTable, l: Layout, output: array<u32>, i: nat,
      key: FlowKey, r: Reply)
    requires TablesFor(tables, table) && FitsLayout(l, output.Length, table) && i < l.count
    modifies output
    ensures Produced(output[..], l, i, Some(PacketBytes(ReplyPacket(table, key, r))))
    ensures OwnWordsOnly(old(output[..]), output[..], l, i)
  {
    SlotInBuffer(l, i);
    ReplyDraws(tables, table, l, output.Length, key, r);
    var base := SlotStart(l.count, l.stride, i);
    ghost var t := ReplyPacket(table, key, r);
    ghost var end := base + 10 + PayloadWords(t.payload);
    ghost var before := output[..];
    var packetLen := EmitPacket(output, base, Reverse(key), r, tables, t, end);
    ghost var written := output[..];
    output[i] := packetLen;
    LengthStored(before, written, output[..], l, i, end, PacketBytes(t));
  }

  /** Sends a reply, if there is one; the thread's length is already cleared. */
  method SendOutcome(tables: ShaderTables, ghost table: ResponseTable, l: Layout, output: array<u32>, i: nat,
      key: FlowKey, reply: Option<Reply>)
    requires TablesFor(tables, table) && FitsLayout(l, output.Length, table) && i < l.count
    requires Produced(output[..], l, i, None)
    modifies output
    ensures OwnWordsOnly(old(output[..]), output[..], l, i)
    ensures Produced(output[..], l, i, Cpu.Emitted(table, key, reply))
  {
    if reply.Some? {
      EmitReply(tables, table, l, output, i, key, reply.value);
    }
  }
}
