/** A batch under any fair schedule (src/packet/mod.rs:675-745, src/packet/packet.wgsl:118-193):
    no claim is left behind, no SYN is dropped while the flows fit the table, so every wave
    completes and the batch agrees with the CPU without assuming that it does. */
module FairBatches {
  import opened Bits
  import opened Collections
  import opened Wire
  import opened Responses
  import opened FlowTable
  import opened Shader
  import opened Dispatch
  import opened Scheduler
  import opened FlowOrder
  import opened Batches
  import opened PacketEngines
  import opened Capacity
  import Cpu = CpuEngine

  // ----- every claimed slot has an owner

  ghost predicate Owned(st: State, i: nat) {
    exists j :: 0 <= j < |st.pcs| && Claiming(st.pcs[j]) && st.pcs[j].base == i
  }

  /** A claimed slot belongs to a thread that is filling it in. */
  ghost predicate ClaimsOwned(st: State) {
    forall i :: 0 <= i < |st.slots| && st.slots[i].state.Claimed? ==> Owned(st, i)
  }

  /** One action claims at most its own slot, and a slot it stops owning is no longer claimed. */
  lemma ActionOwnsClaims(e: Engine, slots: seq<Slot>, tcp: Tcp, v: Option<Slot>, pc: Pc, i: nat)
    requires Ok(slots, e.limit) && ThreadOk(e, slots, tcp, v, pc) && i < |slots|
    ensures var (slots', pc') := Act(e, slots, tcp, pc);
            slots'[i].state.Claimed? ==>
              (Claiming(pc') && pc'.base == i) || (slots[i].state.Claimed? && !(Claiming(pc) && pc.base == i))
  {
  }

  lemma StepOwnsClaims(e: Engine, threads: Threads, before: seq<Option<Slot>>, st: State, t: nat)
    requires Inv(e, threads, before, st) && ClaimsOwned(st)
    ensures ClaimsOwned(StepAt(e, threads, st, t))
  {
    if t < |threads| && threads[t].Some? {
      var st' := StepAt(e, threads, st, t);
      forall i | 0 <= i < |st'.slots| && st'.slots[i].state.Claimed? ensures Owned(st', i) {
        ActionOwnsClaims(e, st.slots, threads[t].value, before[t], st.pcs[t], i);
        if Claiming(st'.pcs[t]) && st'.pcs[t].base == i {
        } else {
          assert Owned(st, i);
          var j :| 0 <= j < |st.pcs| && Claiming(st.pcs[j]) && st.pcs[j].base == i;
          assert st'.pcs[j] == st.pcs[j];
        }
      }
    }
  }

  lemma {:induction false} RunOwnsClaims(e: Engine, threads: Threads, before: seq<Option<Slot>>, st: State,
      schedule: seq<nat>)
    requires Inv(e, threads, before, st) && DistinctKeys(threads) && ClaimsOwned(st)
    ensures ClaimsOwned(Exec(e, threads, st, schedule))
    decreases |schedule|
  {
    if schedule != [] {
      StepKeepsInv(e, threads, before, st, schedule[0]);
      StepOwnsClaims(e, threads, before, st, schedule[0]);
      RunOwnsClaims(e, threads, before, StepAt(e, threads, st, schedule[0]), schedule[1..]);
    }
  }

  /** A finished dispatch leaves no slot claimed. */
  lemma FinishedLeavesNoClaim(e: Engine, threads: Threads, before: seq<Option<Slot>>, slots: seq<Slot>,
      schedule: seq<nat>)
    requires Ok(slots, e.limit) && DistinctKeys(threads) && Records(slots, threads, before) && NothingClaimed(slots)
    requires AllDone(Exec(e, threads, Start(threads, slots), schedule))
    ensures NothingClaimed(Exec(e, threads, Start(threads, slots), schedule).slots)
  {
    StartKeepsRecord(e, threads, before, slots);
    RunOwnsClaims(e, threads, before, Start(threads, slots), schedule);
    var st := Exec(e, threads, Start(threads, slots), schedule);
    forall i | 0 <= i < |st.slots| ensures !st.slots[i].state.Claimed? {
      assert st.slots[i].state.Claimed? ==> Owned(st, i);
    }
  }

  // ----- the flows in play

  lemma LiveFlowsAreMapped(table: ResponseTable, slots: seq<Slot>, flows: Cpu.Flows, limit: nat)
    requires Ok(slots, limit) && Represents(table, slots, flows)
    ensures LiveKeys(slots) <= flows.Keys
  {
    forall k | k in LiveKeys(slots) ensures k in flows.Keys {
      var i :| 0 <= i < |slots| && Live(slots[i]) && KeyOf(slots[i]) == k;
      assert Holds(slots[i], k);
      assert StandsFor(table, slots, k, Cpu.Get(flows, k));
    }
  }

  lemma WaveFlowsAreSegments(segs: Segments, wave: seq<nat>)
    requires Indices(wave, |segs|)
    ensures ThreadKeys(ThreadsOf(segs, wave)) <= SegmentKeys(segs)
  {
  }

  /** Playing packets adds no flows but theirs. */
  lemma {:induction false} PlayKeys(table: ResponseTable, flows: Cpu.Flows, segs: Segments, order: seq<nat>)
    requires Indices(order, |segs|)
    ensures Play(table, flows, segs, order).Keys <= flows.Keys + SegmentKeys(segs)
  {
    if order != [] {
      var n := |order| - 1;
      PlayKeys(table, flows, segs, order[..n]);
      assert segs[order[n]].Some? ==> segs[order[n]].value.key in SegmentKeys(segs);
    }
  }

  // ----- all the waves

  /** A wave under a fair schedule, whatever comes of it. */
  ghost predicate RunsFairly(e: Engine, segs: Segments, wave: seq<nat>, slots: seq<Slot>, run: Dispatched) {
    && GoodSize(|slots|, e.limit) && Indices(wave, |segs|)
    && run.st == Exec(e, ThreadsOf(segs, wave), Start(ThreadsOf(segs, wave), slots), run.schedule)
    && Fair(e, ThreadsOf(segs, wave), run.schedule)
  }

  ghost predicate FairAt(e: Engine, segs: Segments, waves: seq<seq<nat>>, slots: seq<Slot>, runs: seq<Dispatched>,
      j: nat) {
    j < |waves| && j < |runs| && RunsFairly(e, segs, waves[j], SlotsAfter(slots, runs[..j]), runs[j])
  }

  ghost predicate AllFair(e: Engine, segs: Segments, waves: seq<seq<nat>>, slots: seq<Slot>, runs: seq<Dispatched>) {
    |runs| == |waves| && forall j :: 0 <= j < |waves| ==> FairAt(e, segs, waves, slots, runs, j)
  }

  /** No more of the existing flows and the batch's than the probe limit compete for the probe
      path of any flow of the batch. */
  ghost predicate RoomForBatch(e: Engine, slots: seq<Slot>, flows: Cpu.Flows, segs: Segments)
    requires |slots| > 0
  {
    && NothingClaimed(slots)
    && RoomOnPaths(SegmentKeys(segs), flows.Keys + SegmentKeys(segs), |slots|, e.limit)
  }

  /** A batch has room when there are no more flows than the probe limit. */
  lemma FewFlowsHaveRoom(e: Engine, slots: seq<Slot>, flows: Cpu.Flows, segs: Segments)
    requires |slots| > 0 && NothingClaimed(slots) && |flows.Keys + SegmentKeys(segs)| <= e.limit
    ensures RoomForBatch(e, slots, flows, segs)
  {
    FewKeysHaveRoom(SegmentKeys(segs), flows.Keys + SegmentKeys(segs), |slots|, e.limit);
  }

  /** One more wave completes. */
  lemma WaveCompletes(e: Engine, keys: Keys, segs: Segments, wave: seq<nat>, done: seq<nat>, slots: seq<Slot>,
      flows: Cpu.Flows, run: Dispatched)
    requires KeysAgree(keys, segs) && Indices(wave, |segs|) && DistinctFlows(keys, wave) && Indices(done, |segs|)
    requires Ok(slots, e.limit) && Represents(e.table, slots, Play(e.table, flows, segs, done))
    requires RoomForBatch(e, slots, flows, segs)
    requires RunsFairly(e, segs, wave, slots, run)
    ensures Runs(e, segs, wave, slots, run)
    ensures NothingClaimed(run.st.slots) && |run.st.slots| == |slots|
  {
    var threads := ThreadsOf(segs, wave);
    var before := StoredSlots(e.table, slots, threads, Play(e.table, flows, segs, done));
    ThreadsDistinct(keys, segs, wave);
    LiveFlowsAreMapped(e.table, slots, Play(e.table, flows, segs, done), e.limit);
    PlayKeys(e.table, flows, segs, done);
    WaveFlowsAreSegments(segs, wave);
    RoomForFewer(ThreadKeys(threads), LiveKeys(slots) + ThreadKeys(threads),
                 SegmentKeys(segs), flows.Keys + SegmentKeys(segs), |slots|, e.limit);
    FairDispatchCompletes(e, threads, before, slots, run.schedule);
    FinishedLeavesNoClaim(e, threads, before, slots, run.schedule);
  }

  /** What a batch needs of its waves, besides their completion. */
  ghost predicate Waves(e: Engine, keys: Keys, segs: Segments, waves: seq<seq<nat>>, slots: seq<Slot>,
      flows: Cpu.Flows, runs: seq<Dispatched>) {
    && KeysAgree(keys, segs) && ShortPayloads(segs) && WavesFit(keys, waves)
    && Indices(UpTo(waves, |waves|), |segs|) && NoneDifferIn(e.table, flows, segs, UpTo(waves, |waves|))
    && Ok(slots, e.limit) && Represents(e.table, slots, flows) && RoomForBatch(e, slots, flows, segs)
    && AllFair(e, segs, waves, slots, runs)
  }

  /** After j waves: they completed, the table stands for the flows, and nothing is claimed. */
  ghost predicate Completed(e: Engine, segs: Segments, waves: seq<seq<nat>>, slots: seq<Slot>, flows: Cpu.Flows,
      runs: seq<Dispatched>, j: nat) {
    && j <= |waves| && j <= |runs|
    && Followed(e, segs, UpTo(waves, j), SlotsAfter(slots, runs[..j]), flows)
    && NothingClaimed(SlotsAfter(slots, runs[..j])) && |SlotsAfter(slots, runs[..j])| == |slots|
    && forall i :: 0 <= i < j ==> RunsAt(e, segs, waves, slots, runs, i)
  }

  lemma NextWaveCompletes(e: Engine, keys: Keys, segs: Segments, waves: seq<seq<nat>>, slots: seq<Slot>,
      flows: Cpu.Flows, runs: seq<Dispatched>, j: nat)
    requires Waves(e, keys, segs, waves, slots, flows, runs) && j < |waves|
    requires Completed(e, segs, waves, slots, flows, runs, j)
    ensures Completed(e, segs, waves, slots, flows, runs, j + 1)
  {
    var now := SlotsAfter(slots, runs[..j]);
    assert WaveFits(keys, waves, j) && FairAt(e, segs, waves, slots, runs, j);
    WaveCompletes(e, keys, segs, waves[j], UpTo(waves, j), now, flows, runs[j]);
    UpToIsPrefix(waves, j + 1);
    NextWaveTable(e, keys, segs, UpTo(waves, |waves|), UpTo(waves, j), waves[j], now, flows, runs[j]);
    LastSlots(slots, runs, j);
  }

  lemma {:induction false} WavesComplete(e: Engine, keys: Keys, segs: Segments, waves: seq<seq<nat>>,
      slots: seq<Slot>, flows: Cpu.Flows, runs: seq<Dispatched>, j: nat)
    requires Waves(e, keys, segs, waves, slots, flows, runs) && j <= |waves|
    ensures Completed(e, segs, waves, slots, flows, runs, j)
  {
    if j > 0 {
      WavesComplete(e, keys, segs, waves, slots, flows, runs, j - 1);
      NextWaveCompletes(e, keys, segs, waves, slots, flows, runs, j - 1);
    }
  }

  lemma AllWavesRun(e: Engine, keys: Keys, segs: Segments, waves: seq<seq<nat>>, slots: seq<Slot>, flows: Cpu.Flows,
      runs: seq<Dispatched>)
    requires Waves(e, keys, segs, waves, slots, flows, runs)
    ensures RunsAll(e, segs, waves, slots, runs)
    ensures NothingClaimed(SlotsAfter(slots, runs)) && |SlotsAfter(slots, runs)| == |slots|
  {
    WavesComplete(e, keys, segs, waves, slots, flows, runs, |waves|);
    assert runs[..|waves|] == runs;
  }

  /** The scheduled batch has what it needs. */
  lemma ScheduledBatch(e: Engine, listenPort: u16, limits: Limits, packets: seq<RawPacket>, segs: Segments,
      waves: seq<seq<nat>>, slots: seq<Slot>, flows: Cpu.Flows, runs: seq<Dispatched>)
    requires MakesProgress(limits) && Unclamped(limits)
    requires segs == Cpu.ReceiveAll(listenPort, packets)
    requires waves == AllWaves(Describe(packets), Range(|packets|), limits)
    requires Ok(slots, e.limit) && Represents(e.table, slots, flows) && NoneDifferOnArrival(e.table, flows, segs)
    requires RoomForBatch(e, slots, flows, segs)
    requires AllFair(e, segs, waves, slots, runs)
    ensures Waves(e, Describe(packets).keys, segs, waves, slots, flows, runs)
  {
    var b, all, order := Describe(packets), Range(|segs|), UpTo(waves, |waves|);
    ScheduledWaves(packets, limits);
    forall k ensures Sub(b.keys, order, k) == Sub(b.keys, all, k) {
      WavesKeepFlowOrder(b, all, limits, k);
    }
    ReceivedKeysAgree(listenPort, packets);
    DiffersByFlowOrder(e.table, flows, b.keys, segs, order);
    ReceivedAreShort(listenPort, packets);
  }

  /** The two packet engines agree on every batch, whatever fair interleavings its waves run in:
      when the word budget is unclamped, the existing flows and the batch's fit the CPU's capacity
      and the probe paths of the batch's flows have room, and no packet is one of the two kinds on which the engines
      differ, every packet gets the CPU engine's reply, the slot table stands for the CPU engine's
      map, and no claim is left behind, so that the next batch starts the same way. */
  lemma FairBatchIsCpuBatch(config: Cpu.Config, e: Engine, limits: Limits, packets: seq<RawPacket>, segs: Segments,
      waves: seq<seq<nat>>, slots: seq<Slot>, flows: Cpu.Flows, runs: seq<Dispatched>)
    requires SameLengths(e.table, config.table) && MakesProgress(limits) && Unclamped(limits)
    requires segs == Cpu.ReceiveAll(config.listenPort, packets)
    requires waves == AllWaves(Describe(packets), Range(|packets|), limits)
    requires Ok(slots, e.limit) && Represents(e.table, slots, flows) && NoneDifferOnArrival(e.table, flows, segs)
    requires RoomForBatch(e, slots, flows, segs) && |flows.Keys + SegmentKeys(segs)| <= config.flowCapacity
    requires AllFair(e, segs, waves, slots, runs)
    ensures LoopedAs(config, e, segs, waves, SlotsAfter(slots, runs), flows, runs)
    ensures NothingClaimed(SlotsAfter(slots, runs)) && |SlotsAfter(slots, runs)| == |slots|
  {
    ScheduledBatch(e, config.listenPort, limits, packets, segs, waves, slots, flows, runs);
    AllWavesRun(e, Describe(packets).keys, segs, waves, slots, flows, runs);
    GpuBatchIsCpuBatch(config, e, limits, packets, segs, waves, slots, flows, runs);
  }

  // ----- where it starts

  predicate AllFree(slots: seq<Slot>) {
    forall i :: 0 <= i < |slots| ==> slots[i].state.Free?
  }

  /** A zeroed table of any admissible size stands for the empty map. */
  lemma FreshTable(table: ResponseTable, slots: seq<Slot>, limit: nat, flows: Cpu.Flows)
    requires GoodSize(|slots|, limit) && AllFree(slots) && flows == map[]
    ensures Ok(slots, limit) && NothingClaimed(slots) && Represents(table, slots, flows)
  {
    forall k ensures StandsFor(table, slots, k, Cpu.Get(flows, k)) {
      assert Cpu.Get(flows, k) == None;
      EmptyStandsForNone(table, slots, k);
    }
  }

  lemma EmptyStandsForNone(table: ResponseTable, slots: seq<Slot>, k: FlowKey)
    requires AllFree(slots)
    ensures StandsFor(table, slots, k, None)
  {
    assert Stores(slots, k, None) && SlotFor(table, None, k) && AsFlows(None) == None;
  }
}
