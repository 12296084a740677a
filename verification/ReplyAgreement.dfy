/** The two packet engines answer a batch alike if and only if none of its packets is one of the two
    kinds on which they differ (src/packet/mod.rs:675-745, src/packet/packet.wgsl:543-697,
    src/packet/cpu.rs:82-211). */
module ReplyAgreement {
  import opened Bits
  import opened Collections
  import opened Responses
  import opened FlowTable
  import opened Shader
  import opened Dispatch
  import opened Scheduler
  import opened FlowOrder
  import opened Batches
  import opened PacketEngines
  import opened Capacity
  import opened FairBatches
  import Cpu = CpuEngine

  // ----- a wave with a differing packet

  /** The thread of a differing packet answers otherwise than the CPU would. */
  lemma ThreadDiffers(e: Engine, keys: Keys, segs: Segments, wave: seq<nat>, slots: seq<Slot>, flows: Cpu.Flows,
      run: Dispatched, p: nat)
    requires Ok(slots, e.limit) && Represents(e.table, slots, flows)
    requires KeysAgree(keys, segs) && ShortPayloads(segs)
    requires Indices(wave, |segs|) && DistinctFlows(keys, wave) && Runs(e, segs, wave, slots, run)
    requires p < |wave| && !NoDifference(segs[wave[p]], flows)
    ensures |run.st.pcs| == |wave| && run.st.pcs[p].reply != ReplyIn(e.table, flows, segs, wave, p)
  {
    var threads := ThreadsOf(segs, wave);
    var before := StoredSlots(e.table, slots, threads, flows);
    ThreadsDistinct(keys, segs, wave);
    DispatchIsSequential(e, threads, before, slots, run.schedule);
    RepliesAgreeExactly(e.table, before[p], segs[wave[p]].value);
    WaveReply(e.table, flows, keys, segs, wave, p);
  }

  // ----- the waves before it

  /** What a batch needs of its waves, besides their completion; its packets may differ. */
  ghost predicate Underway(e: Engine, keys: Keys, segs: Segments, waves: seq<seq<nat>>, slots: seq<Slot>,
      flows: Cpu.Flows, runs: seq<Dispatched>) {
    && KeysAgree(keys, segs) && ShortPayloads(segs) && WavesFit(keys, waves)
    && Indices(UpTo(waves, |waves|), |segs|)
    && Ok(slots, e.limit) && Represents(e.table, slots, flows) && RoomForBatch(e, slots, flows, segs)
    && AllFair(e, segs, waves, slots, runs)
  }

  lemma {:induction false} UpToOfPrefix(waves: seq<seq<nat>>, j: nat, n: nat)
    requires j <= n <= |waves|
    ensures UpTo(waves[..n], j) == UpTo(waves, j)
  {
    if j > 0 {
      UpToOfPrefix(waves, j - 1, n);
    }
  }

  /** The packets of the first j waves do not differ. */
  ghost predicate SameUpTo(table: ResponseTable, flows: Cpu.Flows, segs: Segments, waves: seq<seq<nat>>, j: nat) {
    j <= |waves| && Indices(UpTo(waves, j), |segs|) && NoneDifferIn(table, flows, segs, UpTo(waves, j))
  }

  lemma PrefixIsFair(e: Engine, segs: Segments, waves: seq<seq<nat>>, slots: seq<Slot>, runs: seq<Dispatched>, j: nat)
    requires AllFair(e, segs, waves, slots, runs) && j <= |waves|
    ensures AllFair(e, segs, waves[..j], slots, runs[..j])
  {
    forall i | 0 <= i < j ensures FairAt(e, segs, waves[..j], slots, runs[..j], i) {
      assert FairAt(e, segs, waves, slots, runs, i);
      assert runs[..j][..i] == runs[..i];
    }
  }

  lemma PrefixFits(keys: Keys, waves: seq<seq<nat>>, j: nat)
    requires WavesFit(keys, waves) && j <= |waves|
    ensures WavesFit(keys, waves[..j])
  {
    forall i | 0 <= i < j ensures WaveFits(keys, waves[..j], i) {
      assert WaveFits(keys, waves, i);
    }
  }

  /** Up to the first wave with a differing packet the batch runs as without one. */
  lemma WavesBefore(e: Engine, keys: Keys, segs: Segments, waves: seq<seq<nat>>, slots: seq<Slot>, flows: Cpu.Flows,
      runs: seq<Dispatched>, j: nat)
    requires Underway(e, keys, segs, waves, slots, flows, runs) && SameUpTo(e.table, flows, segs, waves, j)
    ensures Followed(e, segs, UpTo(waves, j), SlotsAfter(slots, runs[..j]), flows)
    ensures RoomForBatch(e, slots, flows, segs) && NothingClaimed(SlotsAfter(slots, runs[..j]))
    ensures |SlotsAfter(slots, runs[..j])| == |slots|
  {
    UpToOfPrefix(waves, j, j);
    PrefixFits(keys, waves, j);
    PrefixIsFair(e, segs, waves, slots, runs, j);
    WavesComplete(e, keys, segs, waves[..j], slots, flows, runs[..j], j);
    assert runs[..j][..j] == runs[..j];
  }

  /** The next wave completes too, from a table that stands for the flows. */
  lemma NextWaveRuns(e: Engine, keys: Keys, segs: Segments, waves: seq<seq<nat>>, slots: seq<Slot>, flows: Cpu.Flows,
      runs: seq<Dispatched>, j: nat)
    requires Underway(e, keys, segs, waves, slots, flows, runs) && SameUpTo(e.table, flows, segs, waves, j)
    requires j < |waves|
    ensures Followed(e, segs, UpTo(waves, j), SlotsAfter(slots, runs[..j]), flows)
    ensures Runs(e, segs, waves[j], SlotsAfter(slots, runs[..j]), runs[j]) && DistinctFlows(keys, waves[j])
  {
    assert WaveFits(keys, waves, j) && FairAt(e, segs, waves, slots, runs, j);
    WavesBefore(e, keys, segs, waves, slots, flows, runs, j);
    WaveCompletes(e, keys, segs, waves[j], UpTo(waves, j), SlotsAfter(slots, runs[..j]), flows, runs[j]);
  }

  /** A differing packet of a wave gets another reply than the order's. */
  lemma DifferenceInRun(e: Engine, keys: Keys, segs: Segments, order: seq<nat>, done: seq<nat>, wave: seq<nat>,
      slots: seq<Slot>, flows: Cpu.Flows, run: Dispatched, p: nat)
    requires KeysAgree(keys, segs) && ShortPayloads(segs) && Indices(order, |segs|)
    requires Followed(e, segs, done, slots, flows) && Runs(e, segs, wave, slots, run) && DistinctFlows(keys, wave)
    requires done + wave <= order && p < |wave|
    requires !NoDifference(segs[wave[p]], Play(e.table, flows, segs, done))
    ensures !ReplyMatches(e.table, flows, segs, order, |done|, run, p)
  {
    ThreadDiffers(e, keys, segs, wave, slots, Play(e.table, flows, segs, done), run, p);
    OrderReply(e.table, flows, keys, segs, order, done, wave, p);
  }

  // ----- the first difference

  lemma {:induction false} FirstWave(table: ResponseTable, flows: Cpu.Flows, keys: Keys, segs: Segments,
      waves: seq<seq<nat>>, n: nat)
    returns (j: nat)
    requires WavesFit(keys, waves) && |keys| == |segs| && n <= |waves| && !SameUpTo(table, flows, segs, waves, n)
    ensures j < n && SameUpTo(table, flows, segs, waves, j) && !SameUpTo(table, flows, segs, waves, j + 1)
  {
    UpToIndices(keys, waves, n);
    if n == 0 {
      assert false;
    }
    UpToIndices(keys, waves, n - 1);
    if SameUpTo(table, flows, segs, waves, n - 1) {
      j := n - 1;
    } else {
      j := FirstWave(table, flows, keys, segs, waves, n - 1);
    }
  }

  lemma EarlierStaysAlike(table: ResponseTable, flows: Cpu.Flows, segs: Segments, done: seq<nat>, wave: seq<nat>,
      q: nat)
    requires Indices(done, |segs|) && Indices(wave, |segs|) && NoneDifferIn(table, flows, segs, done) && q < |done|
    ensures NoDifferenceAt(table, flows, segs, done + wave, q)
  {
    assert NoDifferenceAt(table, flows, segs, done, q);
    assert (done + wave)[..q] == done[..q];
  }

  /** A packet that differs in its wave's place of the order differs from the flows before its wave. */
  lemma DiffersInWave(table: ResponseTable, flows: Cpu.Flows, keys: Keys, segs: Segments, done: seq<nat>,
      wave: seq<nat>)
    returns (p: nat)
    requires KeysAgree(keys, segs) && Indices(done, |segs|) && Indices(wave, |segs|) && DistinctFlows(keys, wave)
    requires NoneDifferIn(table, flows, segs, done) && !NoneDifferIn(table, flows, segs, done + wave)
    ensures p < |wave| && !NoDifference(segs[wave[p]], Play(table, flows, segs, done))
  {
    var order := done + wave;
    var q :| 0 <= q < |order| && !NoDifferenceAt(table, flows, segs, order, q);
    if q < |done| {
      EarlierStaysAlike(table, flows, segs, done, wave, q);
      assert false;
    }
    p := q - |done|;
    WaveMeetsOrder(table, flows, keys, segs, order, done, wave, p);
  }

  lemma FirstDifference(e: Engine, keys: Keys, segs: Segments, waves: seq<seq<nat>>, slots: seq<Slot>,
      flows: Cpu.Flows, runs: seq<Dispatched>)
    returns (j: nat, p: nat)
    requires Underway(e, keys, segs, waves, slots, flows, runs)
    requires !NoneDifferIn(e.table, flows, segs, UpTo(waves, |waves|))
    ensures j < |waves| && p < |waves[j]|
    ensures !ReplyMatches(e.table, flows, segs, UpTo(waves, |waves|), |UpTo(waves, j)|, runs[j], p)
  {
    j := FirstWave(e.table, flows, keys, segs, waves, |waves|);
    UpToIndices(keys, waves, j + 1);
    assert WaveFits(keys, waves, j);
    p := DiffersInWave(e.table, flows, keys, segs, UpTo(waves, j), waves[j]);
    NextWaveRuns(e, keys, segs, waves, slots, flows, runs, j);
    UpToIsPrefix(waves, j + 1);
    DifferenceInRun(e, keys, segs, UpTo(waves, |waves|), UpTo(waves, j), waves[j], SlotsAfter(slots, runs[..j]),
                    flows, runs[j], p);
  }

  // ----- arrival order

  /** Nothing that arrives differs if nothing in the waves' order does. */
  lemma ArrivalByFlowOrder(table: ResponseTable, flows: Cpu.Flows, keys: Keys, segs: Segments, order: seq<nat>)
    requires KeysAgree(keys, segs) && Indices(order, |segs|) && NoRepeats(order)
    requires multiset(order) == multiset(Range(|segs|))
    requires forall k :: Sub(keys, order, k) == Sub(keys, Range(|segs|), k)
    requires NoneDifferIn(table, flows, segs, order)
    ensures NoneDifferOnArrival(table, flows, segs)
  {
    var all := Range(|segs|);
    forall i | 0 <= i < |all| ensures NoDifferenceAt(table, flows, segs, all, i) {
      assert all[i] in multiset(all) && all[i] in multiset(order);
      var q :| 0 <= q < |order| && order[q] == i;
      assert NoDifferenceAt(table, flows, segs, order, q);
      SameReply(table, flows, keys, segs, order, all, q, i);
    }
  }

  /** Every packet of every wave has drawn the reply recorded for it. */
  ghost predicate AllReplied(waves: seq<seq<nat>>, runs: seq<Dispatched>, replies: seq<Option<Reply>>)
    requires |runs| == |waves|
  {
    forall j, p :: 0 <= j < |waves| && 0 <= p < |waves[j]| ==> RepliedAs(runs[j], p, replies, waves[j][p])
  }

  /** The order holds every packet at most once, those of each flow as they arrived. */
  ghost predicate KeepsFlowOrder(keys: Keys, order: seq<nat>) {
    && Indices(order, |keys|) && NoRepeats(order)
    && forall k :: Sub(keys, order, k) == Sub(keys, Range(|keys|), k)
  }

  /** The order's reply to packet i, at its place q, is the one recorded for it. */
  ghost predicate OrderReplyAt(table: ResponseTable, flows: Cpu.Flows, segs: Segments, order: seq<nat>, q: nat,
      replies: seq<Option<Reply>>, i: nat) {
    && Indices(order, |segs|) && q < |order| && i < |replies|
    && replies[i] == ReplyIn(table, flows, segs, order, q)
  }

  /** The recorded replies are those drawn on arrival. */
  ghost predicate ArrivalReplies(table: ResponseTable, flows: Cpu.Flows, segs: Segments,
      replies: seq<Option<Reply>>) {
    forall i :: 0 <= i < |segs| ==> OrderReplyAt(table, flows, segs, Range(|segs|), i, replies, i)
  }

  lemma LoopRepliesArrive(config: Cpu.Config, table: ResponseTable, segs: Segments, flows: Cpu.Flows,
      replies: seq<Option<Reply>>)
    requires SameLengths(table, config.table) && |flows.Keys + SegmentKeys(segs)| <= config.flowCapacity
    requires replies == Cpu.Loop(config, flows, segs, |segs|).1
    ensures ArrivalReplies(table, flows, segs, replies)
  {
    LoopIsPlay(config, flows, segs);
    forall i | 0 <= i < |segs| ensures OrderReplyAt(table, flows, segs, Range(|segs|), i, replies, i) {
      ReplyLengths(table, config.table, flows, segs, Range(|segs|), i);
    }
  }

  /** The order's reply to a packet is its reply on arrival. */
  lemma ArrivalReplyAt(table: ResponseTable, keys: Keys, segs: Segments, order: seq<nat>, all: seq<nat>,
      flows: Cpu.Flows, replies: seq<Option<Reply>>, q: nat, i: nat)
    requires KeysAgree(keys, segs) && KeepsFlowOrder(keys, order) && all == Range(|segs|)
    requires q < |order| && order[q] == i && i < |all| && OrderReplyAt(table, flows, segs, all, i, replies, i)
    ensures OrderReplyAt(table, flows, segs, order, q, replies, i)
  {
    SameReply(table, flows, keys, segs, order, all, q, i);
  }

  /** A reply other than the order's is other than the recorded one. */
  lemma NotTheRecordedReply(table: ResponseTable, segs: Segments, order: seq<nat>, flows: Cpu.Flows,
      replies: seq<Option<Reply>>, run: Dispatched, start: nat, p: nat, i: nat)
    requires OrderReplyAt(table, flows, segs, order, start + p, replies, i)
    requires !ReplyMatches(table, flows, segs, order, start, run, p)
    ensures !RepliedAs(run, p, replies, i)
  {
  }

  lemma NotReplied(table: ResponseTable, keys: Keys, segs: Segments, waves: seq<seq<nat>>, flows: Cpu.Flows,
      runs: seq<Dispatched>, replies: seq<Option<Reply>>, j: nat, p: nat)
    requires KeysAgree(keys, segs) && KeepsFlowOrder(keys, UpTo(waves, |waves|)) && |runs| == |waves|
    requires j < |waves| && p < |waves[j]| && ArrivalReplies(table, flows, segs, replies)
    requires !ReplyMatches(table, flows, segs, UpTo(waves, |waves|), |UpTo(waves, j)|, runs[j], p)
    ensures !AllReplied(waves, runs, replies)
  {
    var order, start, i := UpTo(waves, |waves|), |UpTo(waves, j)|, waves[j][p];
    PositionInOrder(waves, j, p);
    assert OrderReplyAt(table, flows, segs, Range(|segs|), i, replies, i);
    ArrivalReplyAt(table, keys, segs, order, Range(|segs|), flows, replies, start + p, i);
    NotTheRecordedReply(table, segs, order, flows, replies, runs[j], start, p, i);
  }

  /** A differing packet draws another reply than the one on arrival. */
  lemma DifferenceIsSeen(e: Engine, keys: Keys, segs: Segments, waves: seq<seq<nat>>, slots: seq<Slot>,
      flows: Cpu.Flows, runs: seq<Dispatched>, replies: seq<Option<Reply>>)
    requires Underway(e, keys, segs, waves, slots, flows, runs) && KeepsFlowOrder(keys, UpTo(waves, |waves|))
    requires ArrivalReplies(e.table, flows, segs, replies)
    requires !NoneDifferIn(e.table, flows, segs, UpTo(waves, |waves|))
    ensures !AllReplied(waves, runs, replies)
  {
    var j, p := FirstDifference(e, keys, segs, waves, slots, flows, runs);
    NotReplied(e.table, keys, segs, waves, flows, runs, replies, j, p);
  }

  /** When the flows fit, whatever the fair schedules, every packet of a batch gets the CPU engine's
      reply if and only if no packet of the batch is, on its arrival, one on which the engines
      differ. */
  lemma RepliesMatchExactly(config: Cpu.Config, e: Engine, limits: Limits, packets: seq<RawPacket>, segs: Segments,
      waves: seq<seq<nat>>, slots: seq<Slot>, flows: Cpu.Flows, runs: seq<Dispatched>)
    requires SameLengths(e.table, config.table) && MakesProgress(limits) && Unclamped(limits)
    requires segs == Cpu.ReceiveAll(config.listenPort, packets)
    requires waves == AllWaves(Describe(packets), Range(|packets|), limits)
    requires Ok(slots, e.limit) && Represents(e.table, slots, flows)
    requires RoomForBatch(e, slots, flows, segs) && |flows.Keys + SegmentKeys(segs)| <= config.flowCapacity
    requires AllFair(e, segs, waves, slots, runs)
    ensures AllReplied(waves, runs, Cpu.Loop(config, flows, segs, |segs|).1)
            <==> NoneDifferOnArrival(e.table, flows, segs)
  {
    if NoneDifferOnArrival(e.table, flows, segs) {
      FairBatchIsCpuBatch(config, e, limits, packets, segs, waves, slots, flows, runs);
    } else {
      var b, all, order := Describe(packets), Range(|segs|), UpTo(waves, |waves|);
      ScheduledWaves(packets, limits);
      forall k ensures Sub(b.keys, order, k) == Sub(b.keys, all, k) {
        WavesKeepFlowOrder(b, all, limits, k);
      }
      ReceivedKeysAgree(config.listenPort, packets);
      ReceivedAreShort(config.listenPort, packets);
      if NoneDifferIn(e.table, flows, segs, order) {
        ArrivalByFlowOrder(e.table, flows, b.keys, segs, order);
      } else {
        var replies := Cpu.Loop(config, flows, segs, |segs|).1;
        LoopRepliesArrive(config, e.table, segs, flows, replies);
        DifferenceIsSeen(e, b.keys, segs, waves, slots, flows, runs, replies);
      }
    }
  }
}
