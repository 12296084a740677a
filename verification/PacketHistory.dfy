/** Any number of batches, one after the other (src/packet/mod.rs:675-745, src/packet/cpu.rs:68-86):
    from an empty table on, the packet engines stay in step for ever. */
module PacketHistory {
  import opened Bits
  import opened Collections
  import opened Wire
  import opened Responses
  import opened FlowTable
  import opened Dispatch
  import opened Scheduler
  import opened FlowOrder
  import opened Batches
  import opened PacketEngines
  import opened Capacity
  import opened FairBatches
  import Cpu = CpuEngine

  // ----- a batch, given how the GPU schedules its waves

  predicate AllIndices(waves: seq<seq<nat>>, n: nat) {
    forall j :: 0 <= j < |waves| ==> Indices(waves[j], n)
  }

  ghost function RunOf(e: Engine, segs: Segments, wave: seq<nat>, slots: seq<Slot>,
      schedule: seq<nat>): (run: Dispatched)
    requires GoodSize(|slots|, e.limit) && Indices(wave, |segs|)
    ensures |run.st.slots| == |slots|
  {
    var threads := ThreadsOf(segs, wave);
    Dispatched(schedule, Exec(e, threads, Start(threads, slots), schedule))
  }

  /** What the schedules make of the first n waves. */
  ghost function RunsOf(e: Engine, segs: Segments, waves: seq<seq<nat>>, slots: seq<Slot>, schedules: seq<seq<nat>>,
      n: nat): (runs: seq<Dispatched>)
    requires GoodSize(|slots|, e.limit) && AllIndices(waves, |segs|) && n <= |waves| && n <= |schedules|
    ensures |runs| == n && |SlotsAfter(slots, runs)| == |slots|
  {
    if n == 0 then []
    else
      var before := RunsOf(e, segs, waves, slots, schedules, n - 1);
      before + [RunOf(e, segs, waves[n - 1], SlotsAfter(slots, before), schedules[n - 1])]
  }

  /** Run j is what its schedule makes of its wave, from the table the runs before it left. */
  ghost predicate RunAt(e: Engine, segs: Segments, waves: seq<seq<nat>>, slots: seq<Slot>, schedules: seq<seq<nat>>,
      runs: seq<Dispatched>, j: nat)
    requires GoodSize(|slots|, e.limit) && AllIndices(waves, |segs|)
  {
    && j < |waves| && j < |schedules| && j < |runs|
    && |SlotsAfter(slots, runs[..j])| == |slots|
    && runs[j] == RunOf(e, segs, waves[j], SlotsAfter(slots, runs[..j]), schedules[j])
  }

  lemma StaysRunAt(e: Engine, segs: Segments, waves: seq<seq<nat>>, slots: seq<Slot>, schedules: seq<seq<nat>>,
      runs: seq<Dispatched>, more: seq<Dispatched>, j: nat)
    requires GoodSize(|slots|, e.limit) && AllIndices(waves, |segs|)
    requires RunAt(e, segs, waves, slots, schedules, runs, j)
    ensures RunAt(e, segs, waves, slots, schedules, runs + more, j)
  {
    assert (runs + more)[..j] == runs[..j];
  }

  lemma {:induction false} RunsOfAt(e: Engine, segs: Segments, waves: seq<seq<nat>>, slots: seq<Slot>,
      schedules: seq<seq<nat>>, n: nat, j: nat)
    requires GoodSize(|slots|, e.limit) && AllIndices(waves, |segs|) && j < n <= |waves| && n <= |schedules|
    ensures RunAt(e, segs, waves, slots, schedules, RunsOf(e, segs, waves, slots, schedules, n), j)
  {
    var before := RunsOf(e, segs, waves, slots, schedules, n - 1);
    var last := RunOf(e, segs, waves[n - 1], SlotsAfter(slots, before), schedules[n - 1]);
    if j < n - 1 {
      RunsOfAt(e, segs, waves, slots, schedules, n - 1, j);
      StaysRunAt(e, segs, waves, slots, schedules, before, [last], j);
    } else {
      assert (before + [last])[..j] == before;
    }
  }

  /** Every wave has a schedule, and every schedule is fair. */
  ghost predicate FairSchedules(e: Engine, segs: Segments, waves: seq<seq<nat>>, schedules: seq<seq<nat>>) {
    && AllIndices(waves, |segs|) && |schedules| == |waves|
    && forall j :: 0 <= j < |waves| ==> FairSchedule(e, segs, waves, schedules, j)
  }

  ghost predicate FairSchedule(e: Engine, segs: Segments, waves: seq<seq<nat>>, schedules: seq<seq<nat>>, j: nat) {
    j < |waves| && j < |schedules| && Indices(waves[j], |segs|) && Fair(e, ThreadsOf(segs, waves[j]), schedules[j])
  }

  lemma RunsAreFair(e: Engine, segs: Segments, waves: seq<seq<nat>>, slots: seq<Slot>, schedules: seq<seq<nat>>)
    requires GoodSize(|slots|, e.limit) && FairSchedules(e, segs, waves, schedules)
    ensures AllFair(e, segs, waves, slots, RunsOf(e, segs, waves, slots, schedules, |waves|))
  {
    var runs := RunsOf(e, segs, waves, slots, schedules, |waves|);
    forall j | 0 <= j < |waves| ensures FairAt(e, segs, waves, slots, runs, j) {
      RunsOfAt(e, segs, waves, slots, schedules, |waves|, j);
      assert FairSchedule(e, segs, waves, schedules, j);
    }
  }

  // ----- batches in a row

  /** A batch of packets, and how the GPU interleaves the threads of each of its waves. */
  datatype Arrival = Arrival(packets: seq<RawPacket>, schedules: seq<seq<nat>>)

  /** Both engines, set up alike. */
  datatype Setup = Setup(config: Cpu.Config, e: Engine, limits: Limits)

  predicate Alike(s: Setup) {
    SameLengths(s.e.table, s.config.table) && MakesProgress(s.limits) && Unclamped(s.limits)
  }

  function SegmentsOf(s: Setup, a: Arrival): Segments {
    Cpu.ReceiveAll(s.config.listenPort, a.packets)
  }

  function WavesOf(s: Setup, a: Arrival): seq<seq<nat>>
    requires MakesProgress(s.limits)
  {
    AllWaves(Describe(a.packets), Range(|a.packets|), s.limits)
  }

  lemma WavesAreIndices(s: Setup, a: Arrival)
    requires MakesProgress(s.limits)
    ensures AllIndices(WavesOf(s, a), |SegmentsOf(s, a)|)
  {
    var b, waves := Describe(a.packets), WavesOf(s, a);
    WavesPartition(b, Range(|a.packets|), s.limits);
    forall j | 0 <= j < |waves| ensures Indices(waves[j], |a.packets|) {
      assert GoodWave(b, waves[j], s.limits);
    }
  }

  /** The CPU engine's map after a batch. */
  function FlowsAfter(s: Setup, flows: Cpu.Flows, a: Arrival): Cpu.Flows {
    Cpu.Loop(s.config, flows, SegmentsOf(s, a), |a.packets|).0
  }

  /** The batch can be compared: no packet is one on which the engines differ, the flows fit, and
      the schedules are fair. */
  ghost predicate Comparable(s: Setup, n: nat, flows: Cpu.Flows, a: Arrival)
    requires Alike(s) && n > 0
  {
    var segs, keys := SegmentsOf(s, a), SegmentKeys(SegmentsOf(s, a));
    && NoneDifferOnArrival(s.e.table, flows, segs)
    && |flows.Keys + keys| <= s.config.flowCapacity
    && RoomOnPaths(keys, flows.Keys + keys, n, s.e.limit)
    && FairSchedules(s.e, segs, WavesOf(s, a), a.schedules)
  }

  /** Both engines before a batch: the table stands for the map, and nothing is claimed. */
  ghost predicate InStep(s: Setup, slots: seq<Slot>, flows: Cpu.Flows) {
    Ok(slots, s.e.limit) && NothingClaimed(slots) && Represents(s.e.table, slots, flows)
  }

  ghost function BatchRuns(s: Setup, slots: seq<Slot>, a: Arrival): (runs: seq<Dispatched>)
    requires Alike(s) && GoodSize(|slots|, s.e.limit) && |WavesOf(s, a)| <= |a.schedules|
    ensures |runs| == |WavesOf(s, a)| && |SlotsAfter(slots, runs)| == |slots|
  {
    WavesAreIndices(s, a);
    RunsOf(s.e, SegmentsOf(s, a), WavesOf(s, a), slots, a.schedules, |WavesOf(s, a)|)
  }

  lemma StepFromLoop(s: Setup, final: seq<Slot>, flows: Cpu.Flows, a: Arrival, segs: Segments, waves: seq<seq<nat>>,
      runs: seq<Dispatched>)
    requires segs == SegmentsOf(s, a) && |runs| == |waves|
    requires LoopedAs(s.config, s.e, segs, waves, final, flows, runs) && NothingClaimed(final)
    ensures InStep(s, final, FlowsAfter(s, flows, a))
  {
  }

  /** One batch keeps the engines in step and draws the same replies. */
  lemma BatchKeepsStep(s: Setup, slots: seq<Slot>, flows: Cpu.Flows, a: Arrival)
    requires Alike(s) && InStep(s, slots, flows) && Comparable(s, |slots|, flows, a)
    ensures BatchAnswered(s, slots, flows, a)
  {
    var segs, waves, runs := SegmentsOf(s, a), WavesOf(s, a), BatchRuns(s, slots, a);
    RunsAreFair(s.e, segs, waves, slots, a.schedules);
    FairBatchIsCpuBatch(s.config, s.e, s.limits, a.packets, segs, waves, slots, flows, runs);
    StepFromLoop(s, SlotsAfter(slots, runs), flows, a, segs, waves, runs);
  }

  /** After the batch the engines are in step, and its packets have drawn the CPU's replies. */
  ghost predicate BatchAnswered(s: Setup, slots: seq<Slot>, flows: Cpu.Flows, a: Arrival)
    requires Alike(s) && GoodSize(|slots|, s.e.limit) && |WavesOf(s, a)| <= |a.schedules|
  {
    var runs := BatchRuns(s, slots, a);
    var after := SlotsAfter(slots, runs);
    && InStep(s, after, FlowsAfter(s, flows, a))
    && LoopedAs(s.config, s.e, SegmentsOf(s, a), WavesOf(s, a), after, flows, runs)
  }

  /** Both engines over a history: their states before each batch, and after the last. */
  datatype Trace = Trace(history: seq<Arrival>, tables: seq<seq<Slot>>, maps: seq<Cpu.Flows>)

  /** Batch m of the history takes both engines from state m to state m + 1. */
  ghost predicate Takes(s: Setup, t: Trace, m: nat)
    requires Alike(s)
  {
    && m < |t.history| && |t.tables| == |t.maps| == |t.history| + 1
    && GoodSize(|t.tables[m]|, s.e.limit)
    && Comparable(s, |t.tables[m]|, t.maps[m], t.history[m])
    && t.tables[m + 1] == SlotsAfter(t.tables[m], BatchRuns(s, t.tables[m], t.history[m]))
    && t.maps[m + 1] == FlowsAfter(s, t.maps[m], t.history[m])
  }

  ghost predicate Traced(s: Setup, t: Trace)
    requires Alike(s)
  {
    && |t.tables| == |t.maps| == |t.history| + 1
    && forall m :: 0 <= m < |t.history| ==> Takes(s, t, m)
  }

  /** The engines are in step before batch m... */
  ghost predicate InStepAt(s: Setup, t: Trace, m: nat) {
    m < |t.tables| && m < |t.maps| && InStep(s, t.tables[m], t.maps[m])
  }

  /** ... and its packets draw the CPU engine's replies. */
  ghost predicate AnsweredAt(s: Setup, t: Trace, m: nat)
    requires Alike(s)
  {
    Takes(s, t, m) && BatchAnswered(s, t.tables[m], t.maps[m], t.history[m])
  }

  lemma OneMoreBatch(s: Setup, t: Trace, m: nat, next: nat)
    requires Alike(s) && Takes(s, t, m) && InStepAt(s, t, m) && next == m + 1
    ensures AnsweredAt(s, t, m) && InStepAt(s, t, next)
  {
    BatchKeepsStep(s, t.tables[m], t.maps[m], t.history[m]);
  }

  lemma {:induction false} TraceKeepsStep(s: Setup, t: Trace, m: nat)
    requires Alike(s) && Traced(s, t) && m <= |t.history| && InStepAt(s, t, 0)
    ensures InStepAt(s, t, m)
  {
    if m > 0 {
      TraceKeepsStep(s, t, m - 1);
      assert Takes(s, t, m - 1);
      OneMoreBatch(s, t, m - 1, m);
    }
  }

  /** After any number of batches, however each wave was interleaved, the table is well formed with
      every live flow in one slot and stands for the CPU engine's map, and the packets of the next
      batch draw the CPU engine's replies. */
  lemma HistoryKeepsStep(s: Setup, t: Trace, m: nat)
    requires Alike(s) && Traced(s, t) && m <= |t.history| && InStepAt(s, t, 0)
    ensures InStepAt(s, t, m) && (m < |t.history| ==> AnsweredAt(s, t, m))
  {
    TraceKeepsStep(s, t, m);
    if m < |t.history| {
      assert Takes(s, t, m);
      OneMoreBatch(s, t, m, m + 1);
    }
  }

  /** So it is from a zeroed table and an empty map on. */
  lemma EveryHistoryIsCpuHistory(s: Setup, t: Trace, m: nat)
    requires Alike(s) && Traced(s, t) && m <= |t.history|
    requires GoodSize(|t.tables[0]|, s.e.limit) && AllFree(t.tables[0]) && t.maps[0] == map[]
    ensures InStepAt(s, t, m) && (m < |t.history| ==> AnsweredAt(s, t, m))
  {
    FreshTable(s.e.table, t.tables[0], s.e.limit, map[]);
    HistoryKeepsStep(s, t, m);
  }
}
