/** The GPU packet engine from raw packets to raw packets (src/packet/mod.rs:504-640 and 675-745):
    every wave is packed, dispatched under any schedule of its threads, and read back, and every
    packet of the batch gets, at its source index, the bytes the CPU engine would have sent. */
module GpuPacketEngine {
  import opened Bits
  import opened Collections
  import opened Wire
  import opened Responses
  import opened ReplyBytes
  import opened FlowSets
  import opened FlowTable
  import opened Dispatch
  import opened Scheduler
  import opened FlowOrder
  import opened Batches
  import opened PacketEngines
  import opened Capacity
  import opened FairBatches
  import opened PacketHistory
  import opened Packing
  import opened PacketWords
  import opened PacketEmit
  import opened OutputSlots
  import opened PacketMain
  import opened PacketBuffers
  import opened PacketThreads
  import Cpu = CpuEngine

  // ----- the wave as the shader gets it

  function PacketsOf(packets: seq<RawPacket>, wave: seq<nat>): (chosen: seq<seq<u8>>)
    requires Indices(wave, |packets|)
    ensures |chosen| == |wave| && forall p :: 0 <= p < |wave| ==> chosen[p] == packets[wave[p]]
  {
    seq(|wave|, p requires 0 <= p < |wave| => packets[wave[p]])
  }

  lemma SameThreads(listenPort: u16, packets: seq<RawPacket>, wave: seq<nat>)
    requires Indices(wave, |packets|)
    ensures ReceivedThreads(listenPort, PacketsOf(packets, wave))
            == ThreadsOf(Cpu.ReceiveAll(listenPort, packets), wave)
  {
  }

  lemma {:induction false} WordsAreTotal(packets: seq<RawPacket>, wave: seq<nat>, n: nat)
    requires Indices(wave, |packets|) && n <= |wave|
    ensures WordsBefore(packets, wave, n) == TotalWords(Describe(packets), wave[..n])
  {
    if n > 0 {
      WordsAreTotal(packets, wave, n - 1);
      assert wave[..n][..n - 1] == wave[..n - 1];
      DescribeAt(packets, wave[n - 1]);
    }
  }

  lemma BudgetBoundsWords(packets: seq<RawPacket>, wave: seq<nat>, limits: Limits)
    requires GoodWave(Describe(packets), wave, limits)
    ensures WordsBefore(packets, wave, |wave|) <= limits.maxWords
  {
    WordsAreTotal(packets, wave, |wave|);
    assert wave[..|wave|] == wave;
  }

  /** A wave within the word budget has offsets that fit u32. */
  lemma OffsetsFit(packets: seq<RawPacket>, wave: seq<nat>, limits: Limits, j: nat)
    requires GoodWave(Describe(packets), wave, limits) && limits.maxWords < 0x1_0000_0000 && j < |wave|
    ensures |packets[wave[j]]| < 0x1_0000_0000 && WordsBefore(packets, wave, j) < 0x1_0000_0000
  {
    BudgetBoundsWords(packets, wave, limits);
    OffsetsAscend(packets, wave, j, |wave|);
  }

  lemma AllUploaded(packets: seq<RawPacket>, wave: seq<nat>, metadata: seq<PacketMeta>, destination: seq<u8>,
      words: seq<u32>)
    requires Indices(wave, |packets|) && |metadata| == |wave| && words == Pack(destination)
    requires |words| <= 0x1_0000_0000
    requires forall j :: 0 <= j < |wave| ==> MetaFor(packets, wave, metadata, j)
    requires CopiedUpTo(packets, wave, metadata, destination, |wave|)
    ensures forall j :: 0 <= j < |wave| ==> Uploaded(words, metadata, PacketsOf(packets, wave), j)
  {
    forall j | 0 <= j < |wave| ensures Uploaded(words, metadata, PacketsOf(packets, wave), j) {
      assert MetaFor(packets, wave, metadata, j);
      UploadedInput(destination, metadata[j].wordOffset, packets[wave[j]]);
    }
  }

  // ----- the replies of a wave

  /** Packet i of the wave got what its thread sent. */
  ghost predicate GotReply(sink: seq<Option<seq<u8>>>, table: ResponseTable, threads: Threads, wave: seq<nat>,
      st: State, p: nat) {
    && p < |wave| && p < |threads| && p < |st.pcs| && wave[p] < |sink|
    && sink[wave[p]] == Sent(table, threads[p], st.pcs[p])
  }

  lemma SentFits(table: ResponseTable, seg: Option<Tcp>, pc: Pc)
    ensures var s := Sent(table, seg, pc); s.Some? ==> |s.value| <= MAX_RAW_PACKET_BYTES
  {
  }

  lemma AllDeliverable(table: ResponseTable, words: seq<u32>, l: Layout, threads: Threads, pcs: seq<Pc>, i: nat)
    requires SentSoFar(table, words, l, threads, pcs) && SlotBase(l.count, l.stride, l.count) <= |words|
    requires i < l.count
    ensures Deliverable(words, l, i) && ReadBack(words, l, i) == Sent(table, threads[i], pcs[i])
  {
    SentFits(table, threads[i], pcs[i]);
    ProducedIsReadBack(words, l, i, Sent(table, threads[i], pcs[i]));
  }

  lemma AllGotReplies(table: ResponseTable, words: seq<u32>, l: Layout, threads: Threads, st: State, wave: seq<nat>,
      before: seq<Option<seq<u8>>>, after: seq<Option<seq<u8>>>)
    requires SentSoFar(table, words, l, threads, st.pcs) && SlotBase(l.count, l.stride, l.count) <= |words|
    requires l.count == |wave| && DeliveredUpTo(before, after, words, l, wave, |wave|)
    ensures forall p :: 0 <= p < |wave| ==> GotReply(after, table, threads, wave, st, p)
  {
    forall p | 0 <= p < |wave| ensures GotReply(after, table, threads, wave, st, p) {
      AllDeliverable(table, words, l, threads, st.pcs, p);
      assert DeliveredAt(after, words, l, wave, p);
    }
  }

  /** What is sent for packet i, if anything, reaches its sender. */
  ghost predicate SentToSender(table: ResponseTable, packets: seq<RawPacket>, sent: seq<Option<seq<u8>>>, i: nat) {
    i < |packets| && i < |sent| && (sent[i].Some? ==> ReachesSender(table, packets[i], sent[i].value))
  }

  /** Whatever the threads of a dispatch send reaches the senders of their packets. */
  lemma WaveReachesSenders(table: ResponseTable, listenPort: u16, packets: seq<RawPacket>, wave: seq<nat>, st: State,
      sink: seq<Option<seq<u8>>>)
    requires Indices(wave, |packets|)
    requires var threads := ThreadsOf(Cpu.ReceiveAll(listenPort, packets), wave);
             forall p :: 0 <= p < |wave| ==> GotReply(sink, table, threads, wave, st, p)
    ensures forall p :: 0 <= p < |wave| ==> SentToSender(table, packets, sink, wave[p])
  {
    var threads := ThreadsOf(Cpu.ReceiveAll(listenPort, packets), wave);
    forall p | 0 <= p < |wave| ensures SentToSender(table, packets, sink, wave[p]) {
      assert GotReply(sink, table, threads, wave, st, p);
      if sink[wave[p]].Some? {
        ReplyReaches(table, packets[wave[p]], threads[p].value, st.pcs[p].reply.value);
      }
    }
  }

  // ----- the batch as a whole

  /** The packet the CPU engine sends for packet i, with the response texts of `table`. */
  function CpuOutput(s: Setup, flows: Cpu.Flows, a: Arrival, i: nat): Option<seq<u8>>
    requires i < |a.packets|
  {
    var segs := SegmentsOf(s, a);
    Cpu.Output(s.config.(table := s.e.table), segs[i], Cpu.Loop(s.config, flows, segs, |segs|).1[i])
  }

  /** What holds when wave j of a batch starts. */
  lemma WaveStarts(s: Setup, slots: seq<Slot>, flows: Cpu.Flows, a: Arrival, runs: seq<Dispatched>, j: nat)
    returns (before: seq<Option<Slot>>)
    requires Alike(s) && InStep(s, slots, flows) && Comparable(s, |slots|, flows, a)
    requires runs == BatchRuns(s, slots, a) && j < |WavesOf(s, a)|
    ensures var wave, now := WavesOf(s, a)[j], SlotsAfter(slots, runs[..j]);
            && |now| == |slots| && Ok(now, s.e.limit)
            && GoodWave(Describe(a.packets), wave, s.limits) && NoRepeats(wave)
            && DistinctKeys(ThreadsOf(SegmentsOf(s, a), wave))
            && Records(now, ThreadsOf(SegmentsOf(s, a), wave), before)
            && runs[j] == RunOf(s.e, SegmentsOf(s, a), wave, now, a.schedules[j])
            && SlotsAfter(slots, runs[..j + 1]) == runs[j].st.slots
  {
    var b, segs, waves := Describe(a.packets), SegmentsOf(s, a), WavesOf(s, a);
    RunsAreFair(s.e, segs, waves, slots, a.schedules);
    ScheduledBatch(s.e, s.config.listenPort, s.limits, a.packets, segs, waves, slots, flows, runs);
    WavesComplete(s.e, b.keys, segs, waves, slots, flows, runs, j);
    RunsOfAt(s.e, segs, waves, slots, a.schedules, |waves|, j);
    assert RunAt(s.e, segs, waves, slots, a.schedules, runs, j);
    WavesPartition(b, Range(|a.packets|), s.limits);
    assert GoodWave(b, waves[j], s.limits);
    WaveHasNoRepeats(waves, j, |a.packets|);
    ThreadsDistinct(b.keys, segs, waves[j]);
    var now := SlotsAfter(slots, runs[..j]);
    before := StoredSlots(s.e.table, now, ThreadsOf(segs, waves[j]), Play(s.e.table, flows, segs, UpTo(waves, j)));
    LastSlots(slots, runs, j);
  }

  lemma WaveHasNoRepeats(waves: seq<seq<nat>>, j: nat, n: nat)
    requires j < |waves| && multiset(Flatten(waves)) == multiset(Range(n))
    ensures NoRepeats(waves[j])
  {
    UpToIsFlat(waves, |waves|);
    NoRepeatsFromMultiset(Flatten(waves), n);
    forall p, q | 0 <= p < q < |waves[j]| ensures waves[j][p] != waves[j][q] {
      PositionInOrder(waves, j, p);
      PositionInOrder(waves, j, q);
    }
  }

  /** Source index i holds the packet the CPU engine sends for it. */
  ghost predicate AnsweredAsCpu(sink: seq<Option<seq<u8>>>, s: Setup, flows: Cpu.Flows, a: Arrival, i: nat) {
    i < |a.packets| && i < |sink| && sink[i] == CpuOutput(s, flows, a, i)
  }

  lemma ReplyIsCpuOutput(s: Setup, slots: seq<Slot>, flows: Cpu.Flows, a: Arrival, runs: seq<Dispatched>, j: nat,
      p: nat, sink: seq<Option<seq<u8>>>)
    requires Alike(s) && InStep(s, slots, flows) && Comparable(s, |slots|, flows, a)
    requires runs == BatchRuns(s, slots, a) && j < |WavesOf(s, a)| && Indices(WavesOf(s, a)[j], |a.packets|)
    requires GotReply(sink, s.e.table, ThreadsOf(SegmentsOf(s, a), WavesOf(s, a)[j]), WavesOf(s, a)[j], runs[j].st, p)
    ensures AnsweredAsCpu(sink, s, flows, a, WavesOf(s, a)[j][p])
  {
    BatchKeepsStep(s, slots, flows, a);
    var segs, waves := SegmentsOf(s, a), WavesOf(s, a);
    assert RepliedAs(runs[j], p, Cpu.Loop(s.config, flows, segs, |segs|).1, waves[j][p]);
  }

  ghost predicate AllAnswered(sink: seq<Option<seq<u8>>>, s: Setup, flows: Cpu.Flows, a: Arrival, order: seq<nat>) {
    forall q :: 0 <= q < |order| ==> AnsweredAsCpu(sink, s, flows, a, order[q])
  }

  lemma MoreAnswered(before: seq<Option<seq<u8>>>, after: seq<Option<seq<u8>>>, s: Setup, flows: Cpu.Flows,
      a: Arrival, order: seq<nat>, wave: seq<nat>)
    requires AllAnswered(before, s, flows, a, order) && AllAnswered(after, s, flows, a, wave)
    requires |before| == |after| && forall k :: 0 <= k < |before| && k !in wave ==> after[k] == before[k]
    ensures AllAnswered(after, s, flows, a, order + wave)
  {
    forall q | 0 <= q < |order| ensures AnsweredAsCpu(after, s, flows, a, order[q]) {
      assert AnsweredAsCpu(before, s, flows, a, order[q]);
      if p :| 0 <= p < |wave| && wave[p] == order[q] {
        assert AnsweredAsCpu(after, s, flows, a, wave[p]);
      }
    }
  }

  lemma EveryoneAnswered(sink: seq<Option<seq<u8>>>, s: Setup, flows: Cpu.Flows, a: Arrival)
    requires MakesProgress(s.limits)
    requires AllAnswered(sink, s, flows, a, UpTo(WavesOf(s, a), |WavesOf(s, a)|))
    ensures forall i :: 0 <= i < |a.packets| ==> AnsweredAsCpu(sink, s, flows, a, i)
  {
    forall i | 0 <= i < |a.packets| ensures AnsweredAsCpu(sink, s, flows, a, i) {
      EveryIndexAnswered(sink, s, flows, a, i);
    }
  }

  /** The waves cover the batch. */
  lemma EveryIndexAnswered(sink: seq<Option<seq<u8>>>, s: Setup, flows: Cpu.Flows, a: Arrival, i: nat)
    requires MakesProgress(s.limits) && i < |a.packets|
    requires AllAnswered(sink, s, flows, a, UpTo(WavesOf(s, a), |WavesOf(s, a)|))
    ensures AnsweredAsCpu(sink, s, flows, a, i)
  {
    ScheduledWaves(a.packets, s.limits);
    var order, all := UpTo(WavesOf(s, a), |WavesOf(s, a)|), Range(|a.packets|);
    assert i == all[i] && i in multiset(all);
    assert i in multiset(order);
    var q :| 0 <= q < |order| && order[q] == i;
    assert AnsweredAsCpu(sink, s, flows, a, order[q]);
  }

  /** Every packet delivered answers the sender of the packet at its source index. */
  lemma AllSentBack(sink: seq<Option<seq<u8>>>, s: Setup, flows: Cpu.Flows, a: Arrival)
    requires forall i :: 0 <= i < |a.packets| ==> AnsweredAsCpu(sink, s, flows, a, i)
    ensures forall i :: 0 <= i < |a.packets| ==> Cpu.SentBack(s.e.table, a.packets, sink, i)
  {
    forall i | 0 <= i < |a.packets| ensures Cpu.SentBack(s.e.table, a.packets, sink, i) {
      assert AnsweredAsCpu(sink, s, flows, a, i);
      Cpu.LoopSendsBack(s.config, s.e.table, flows, a.packets, i, sink[i]);
    }
  }

  /** A batch that can be compared, and what its schedules make of it. */
  ghost predicate Compared(s: Setup, slots: seq<Slot>, flows: Cpu.Flows, a: Arrival, runs: seq<Dispatched>) {
    && Alike(s) && InStep(s, slots, flows) && Comparable(s, |slots|, flows, a)
    && runs == BatchRuns(s, slots, a)
  }

  /** After j waves: the table is what their runs left, and their packets are answered. */
  ghost predicate DoneUpTo(s: Setup, start: seq<Slot>, flows: Cpu.Flows, a: Arrival, runs: seq<Dispatched>,
      slots: seq<Slot>, sink: seq<Option<seq<u8>>>, j: nat) {
    && MakesProgress(s.limits) && j <= |runs| && j <= |WavesOf(s, a)|
    && slots == SlotsAfter(start, runs[..j]) && AllAnswered(sink, s, flows, a, UpTo(WavesOf(s, a), j))
  }

  lemma NothingDone(s: Setup, slots: seq<Slot>, flows: Cpu.Flows, a: Arrival, runs: seq<Dispatched>,
      sink: seq<Option<seq<u8>>>)
    requires MakesProgress(s.limits)
    ensures DoneUpTo(s, slots, flows, a, runs, slots, sink, 0)
  {
  }

  lemma BatchLeavesInStep(s: Setup, slots: seq<Slot>, flows: Cpu.Flows, a: Arrival, runs: seq<Dispatched>)
    requires Compared(s, slots, flows, a, runs)
    ensures |runs| == |WavesOf(s, a)|
    ensures InStep(s, SlotsAfter(slots, runs[..|runs|]), FlowsAfter(s, flows, a))
  {
    BatchKeepsStep(s, slots, flows, a);
    assert runs[..|runs|] == runs;
  }

  // ----- the engine object

  /** The output slots cover the largest response. */
  predicate StrideFits(table: ResponseTable, stride: nat) {
    forall id :: 0 <= id < RESPONSE_COUNT ==> 10 + PayloadWords(table[id]) <= stride
  }

  /** `max_response_packet_bytes().div_ceil(4)` */
  method OutputStride(table: ResponseTable) returns (stride: nat)
    ensures StrideFits(table, stride) && stride <= 384
  {
    var max: nat := 0;
    var id := 0;
    while id < |table|
      invariant id <= |table| && max <= MAX_RAW_PACKET_BYTES - 40 && forall k :: 0 <= k < id ==> |table[k]| <= max
    {
      if |table[id]| > max {
        max := |table[id]|;
      }
      id := id + 1;
    }
    stride := (40 + max + 3) / 4;
  }

  lemma OutputFits(stride: nat, max: nat)
    requires stride <= 384 && 385 * max <= 0x1_0000_0000
    ensures SlotBase(max, stride, max) <= 0x1_0000_0000
  {
    SlotBaseIs(max, stride, max);
    MulMonotone(max, stride, 384);
  }

  lemma LayoutGrows(stride: nat, n: nat, max: nat)
    requires n <= max
    ensures SlotBase(n, stride, n) <= SlotBase(max, stride, max)
  {
    SlotBaseIs(n, stride, n);
    SlotBaseIs(max, stride, max);
    MulMonotone(stride, n, max);
  }

  class GpuPacketEngine {
    const e: Engine
    const limits: Limits
    const listenPort: u16
    const tables: ShaderTables
    const stride: nat
    const slots: array<Slot>
    const output: array<u32>
    const seen: FlowSet

    /** The buffers fit the configuration; their contents may be left over from any dispatch. */
    ghost predicate Valid()
      reads seen
    {
      && MakesProgress(limits) && limits.maxWords < 0x1_0000_0000
      && TablesFor(tables, e.table) && StrideFits(e.table, stride)
      && SlotBase(limits.maxBatch, stride, limits.maxBatch) <= output.Length <= 0x1_0000_0000
      && GoodSize(slots.Length, e.limit) && seen.Valid()
    }

    constructor (e: Engine, capacity: nat, limits: Limits, listenPort: u16)
      requires GoodSize(capacity, e.limit) && MakesProgress(limits) && limits.maxWords < 0x1_0000_0000
      requires 385 * limits.maxBatch <= 0x1_0000_0000
      ensures Valid() && this.e == e && this.limits == limits && this.listenPort == listenPort
      ensures fresh(slots) && fresh(output) && fresh(seen)
      ensures slots.Length == capacity && AllFree(slots[..])
    {
      this.e, this.limits, this.listenPort := e, limits, listenPort;
      var tables := BuildResponseTables(e.table);
      var stride := OutputStride(e.table);
      var outputWords := SlotStart(limits.maxBatch, stride, limits.maxBatch);
      OutputFits(stride, limits.maxBatch);
      this.tables, this.stride := tables, stride;
      this.slots := new Slot[capacity](i => EMPTY_SLOT);
      this.output := new u32[outputWords](i => 0);
      this.seen := new FlowSet();
    }

    /** One wave: packed, dispatched, read back into the sink.  Neither the packing nor the reading
        back refuses such a wave. */
    method DispatchWave(packets: seq<RawPacket>, wave: seq<nat>, schedule: seq<nat>, sink: array<Option<seq<u8>>>,
        ghost segs: Segments, ghost before: seq<Option<Slot>>)
      returns (ghost st: State)
      requires Valid() && segs == Cpu.ReceiveAll(listenPort, packets) && GoodWave(Describe(packets), wave, limits)
      requires NoRepeats(wave) && sink.Length == |packets|
      requires Ok(slots[..], e.limit) && DistinctKeys(ThreadsOf(segs, wave))
      requires Records(slots[..], ThreadsOf(segs, wave), before)
      modifies slots, output, sink
      ensures st == RunOf(e, segs, wave, old(slots[..]), schedule).st && st.slots == slots[..]
      ensures forall p :: 0 <= p < |wave| ==> GotReply(sink[..], e.table, ThreadsOf(segs, wave), wave, st, p)
      ensures forall p :: 0 <= p < |wave| ==> SentToSender(e.table, packets, sink[..], wave[p])
      ensures forall k :: 0 <= k < sink.Length && k !in wave ==> sink[k] == old(sink[k])
    {
      var prepared := PrepareWaveMetadata(packets, wave);
      if prepared.None? {
        ghost var j :| 0 <= j < |wave|
          && (|packets[wave[j]]| >= 0x1_0000_0000 || WordsBefore(packets, wave, j) >= 0x1_0000_0000);
        OffsetsFit(packets, wave, limits, j);
        assert false;
      }
      var metadata, wordCount := prepared.value.0, prepared.value.1;
      BudgetBoundsWords(packets, wave, limits);
      var words := Upload(packets, wave, metadata, wordCount);
      var l := Layout(|wave|, stride);
      LayoutGrows(stride, |wave|, limits.maxBatch);
      SameThreads(listenPort, packets, wave);
      st := RunDispatch(e, tables, l, slots, output, words, metadata, listenPort, schedule,
        PacketsOf(packets, wave), before);
      ghost var undelivered := sink[..];
      var refused := EmitWaveOutputs(output[..], l, wave, sink);
      if refused.Some? {
        AllDeliverable(e.table, output[..], l, ThreadsOf(segs, wave), st.pcs, refused.value);
        assert false;
      }
      AllGotReplies(e.table, output[..], l, ThreadsOf(segs, wave), st, wave, undelivered, sink[..]);
      WaveReachesSenders(e.table, listenPort, packets, wave, st, sink[..]);
      assert wave[..|wave|] == wave;
    }

    /** The input words of a wave. */
    method Upload(packets: seq<RawPacket>, wave: seq<nat>, metadata: seq<PacketMeta>, wordCount: nat)
      returns (words: seq<u32>)
      requires Indices(wave, |packets|) && |metadata| == |wave| && wordCount == WordsBefore(packets, wave, |wave|)
      requires forall j :: 0 <= j < |wave| ==> MetaFor(packets, wave, metadata, j)
      requires wordCount < 0x1_0000_0000
      ensures forall j :: 0 <= j < |wave| ==> Uploaded(words, metadata, PacketsOf(packets, wave), j)
    {
      var destination := new u8[4 * wordCount];
      PackWaveBytes(packets, wave, metadata, destination);
      words := PackBytes(destination[..]);
      AllUploaded(packets, wave, metadata, destination[..], words);
    }

    /** The setup is this engine's. */
    predicate Serves(s: Setup) {
      s.e == e && s.limits == limits && s.config.listenPort == listenPort
    }

    /** Wave j of a batch: the table follows, and its packets are answered. */
    method ProcessWave(packets: seq<RawPacket>, wave: seq<nat>, schedule: seq<nat>, sink: array<Option<seq<u8>>>,
        ghost s: Setup, ghost start: seq<Slot>, ghost flows: Cpu.Flows, ghost a: Arrival,
        ghost runs: seq<Dispatched>, ghost j: nat)
      requires Valid() && Serves(s) && sink.Length == |packets| && |start| == slots.Length
      requires Compared(s, start, flows, a, runs) && j < |WavesOf(s, a)|
      requires packets == a.packets && wave == WavesOf(s, a)[j] && schedule == a.schedules[j]
      requires DoneUpTo(s, start, flows, a, runs, slots[..], sink[..], j)
      modifies slots, output, sink
      ensures DoneUpTo(s, start, flows, a, runs, slots[..], sink[..], j + 1)
    {
      ghost var before := WaveStarts(s, start, flows, a, runs, j);
      ghost var undelivered := sink[..];
      ghost var st := DispatchWave(packets, wave, schedule, sink, SegmentsOf(s, a), before);
      forall p | 0 <= p < |wave| ensures AnsweredAsCpu(sink[..], s, flows, a, wave[p]) {
        ReplyIsCpuOutput(s, start, flows, a, runs, j, p, sink[..]);
      }
      MoreAnswered(undelivered, sink[..], s, flows, a, UpTo(WavesOf(s, a), j), wave);
    }

    method ProcessWaves(packets: seq<RawPacket>, waves: seq<seq<nat>>, schedules: seq<seq<nat>>,
        sink: array<Option<seq<u8>>>, ghost s: Setup, ghost start: seq<Slot>, ghost flows: Cpu.Flows,
        ghost a: Arrival, ghost runs: seq<Dispatched>)
      requires Valid() && Serves(s) && sink.Length == |packets| && |start| == slots.Length
      requires Compared(s, start, flows, a, runs) && DoneUpTo(s, start, flows, a, runs, slots[..], sink[..], 0)
      requires packets == a.packets && waves == WavesOf(s, a) && schedules == a.schedules
      modifies slots, output, sink
      ensures DoneUpTo(s, start, flows, a, runs, slots[..], sink[..], |waves|)
    {
      var j := 0;
      while j < |waves|
        invariant j <= |waves| && DoneUpTo(s, start, flows, a, runs, slots[..], sink[..], j)
      {
        ProcessWave(packets, waves[j], schedules[j], sink, s, start, flows, a, runs, j);
        j := j + 1;
      }
    }

    /** A whole batch, under any fair schedules: every packet gets, at its source index, the packet
        the CPU engine sends for it, and the engines stay in step. */
    method ProcessBatch(packets: seq<RawPacket>, schedules: seq<seq<nat>>, ghost s: Setup, ghost flows: Cpu.Flows)
      returns (r: seq<Option<seq<u8>>>)
      requires Valid() && Serves(s) && Alike(s)
      requires InStep(s, slots[..], flows) && Comparable(s, slots.Length, flows, Arrival(packets, schedules))
      modifies slots, output, seen
      ensures Valid() && InStep(s, slots[..], FlowsAfter(s, flows, Arrival(packets, schedules)))
      ensures |r| == |packets|
      ensures forall i :: 0 <= i < |packets| ==> AnsweredAsCpu(r, s, flows, Arrival(packets, schedules), i)
      ensures forall i :: 0 <= i < |packets| ==> Cpu.SentBack(e.table, packets, r, i)
    {
      ghost var a, start := Arrival(packets, schedules), slots[..];
      ghost var runs := BatchRuns(s, start, a);
      var waves := Scheduler.ProcessBatch(packets, limits, seen);
      var sink := new Option<seq<u8>>[|packets|](i => None);
      NothingDone(s, start, flows, a, runs, sink[..]);
      ProcessWaves(packets, waves, schedules, sink, s, start, flows, a, runs);
      BatchLeavesInStep(s, start, flows, a, runs);
      EveryoneAnswered(sink[..], s, flows, a);
      AllSentBack(sink[..], s, flows, a);
      r := sink[..];
    }
  }
}
