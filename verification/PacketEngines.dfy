/** The two packet engines, end to end: completion of a dispatch, and equality of a batch on
    the GPU with the same batch on the CPU. */
module PacketEngines {
  import opened Bits
  import opened Collections
  import opened Wire
  import opened Responses
  import opened FlowTable
  import opened Shader
  import opened Dispatch
  import opened Scheduler
  import opened FlowOrder
  import opened Batches
  import Capacity
  import Cpu = CpuEngine

  // ----- every fair schedule completes

  function Turns(schedule: seq<nat>, i: nat): nat {
    if schedule == [] then 0 else (if schedule[0] == i then 1 else 0) + Turns(schedule[1..], i)
  }

  /** A thread with as many turns as its rank has come to its end. */
  lemma {:induction false} TurnsFinishThread(e: Engine, threads: Threads, before: seq<Option<Slot>>, st: State,
      schedule: seq<nat>, i: nat)
    requires Inv(e, threads, before, st) && DistinctKeys(threads)
    requires i < |threads| && threads[i].Some? && Turns(schedule, i) >= Rank(e, st.pcs[i])
    ensures Rank(e, Exec(e, threads, st, schedule).pcs[i]) == 0
    decreases |schedule|
  {
    if schedule != [] {
      var st' := StepAt(e, threads, st, schedule[0]);
      StepKeepsInv(e, threads, before, st, schedule[0]);
      if schedule[0] == i {
        EveryActionProgresses(e, st.slots, threads[i].value, before[i], st.pcs[i]);
      }
      TurnsFinishThread(e, threads, before, st', schedule[1..], i);
    }
  }

  predicate Fair(e: Engine, threads: Threads, schedule: seq<nat>) {
    forall i :: 0 <= i < |threads| ==> Turns(schedule, i) >= 3 * e.limit + 7
  }

  /** No more live and dispatched flows than the probe limit compete for any packet's path. */
  predicate RoomForAll(e: Engine, threads: Threads, slots: seq<Slot>)
    requires |slots| > 0
  {
    var keys := Capacity.ThreadKeys(threads);
    && Capacity.NothingClaimed(slots)
    && Capacity.RoomOnPaths(keys, Capacity.LiveKeys(slots) + keys, |slots|, e.limit)
  }

  /** Any interleaving that gives every thread 3 * limit + 7 turns finishes the dispatch; when
      the packets' probe paths have room, without dropping any SYN. */
  lemma FairDispatchCompletes(e: Engine, threads: Threads, before: seq<Option<Slot>>, slots: seq<Slot>,
      schedule: seq<nat>)
    requires Ok(slots, e.limit) && DistinctKeys(threads) && Records(slots, threads, before)
             && Fair(e, threads, schedule)
    ensures var st := Exec(e, threads, Start(threads, slots), schedule);
            && (forall i :: 0 <= i < |threads| ==> st.pcs[i].Done? || st.pcs[i].Dropped?)
            && (RoomForAll(e, threads, slots) ==> AllDone(st))
  {
    StartKeepsRecord(e, threads, before, slots);
    RunKeepsInv(e, threads, before, Start(threads, slots), schedule);
    var st := Exec(e, threads, Start(threads, slots), schedule);
    forall i | 0 <= i < |threads| ensures st.pcs[i].Done? || st.pcs[i].Dropped? {
      if threads[i].Some? {
        TurnsFinishThread(e, threads, before, Start(threads, slots), schedule, i);
      }
    }
    if RoomForAll(e, threads, slots) {
      Capacity.NoSynIsDropped(e, threads, before, slots, schedule);
    }
  }

  // ----- the engines agree on a batch

  lemma {:induction false} PlayLengths(a: ResponseTable, b: ResponseTable, flows: Cpu.Flows, segs: Cpu.Segments,
      order: seq<nat>)
    requires SameLengths(a, b) && Indices(order, |segs|)
    ensures Play(a, flows, segs, order) == Play(b, flows, segs, order)
  {
    if order != [] {
      var n := |order| - 1;
      PlayLengths(a, b, flows, segs, order[..n]);
      PlayOneLengths(a, b, Play(a, flows, segs, order[..n]), segs[order[n]]);
    }
  }

  lemma PlayOneLengths(a: ResponseTable, b: ResponseTable, flows: Cpu.Flows, seg: Option<Tcp>)
    requires SameLengths(a, b)
    ensures PlayOne(a, flows, seg) == PlayOne(b, flows, seg)
  {
    if seg.Some? {
      LengthsDecide(a, b, Cpu.Get(flows, seg.value.key), seg.value);
    }
  }

  lemma ReplyLengths(a: ResponseTable, b: ResponseTable, flows: Cpu.Flows, segs: Cpu.Segments, order: seq<nat>,
      p: nat)
    requires SameLengths(a, b) && Indices(order, |segs|) && p < |order|
    ensures ReplyIn(a, flows, segs, order, p) == ReplyIn(b, flows, segs, order, p)
  {
    PlayLengths(a, b, flows, segs, order[..p]);
    PlayOneLengths(a, b, Play(a, flows, segs, order[..p]), segs[order[p]]);
  }

  lemma LoopTableIsPlay(config: Cpu.Config, table: ResponseTable, flows: Cpu.Flows, segs: Cpu.Segments)
    requires SameLengths(table, config.table) && |flows.Keys + SegmentKeys(segs)| <= config.flowCapacity
    ensures Cpu.Loop(config, flows, segs, |segs|).0 == Play(table, flows, segs, Range(|segs|))
  {
    LoopIsPlay(config, flows, segs);
    PlayLengths(table, config.table, flows, segs, Range(|segs|));
  }

  lemma ArrivalReplyIsLoopReply(config: Cpu.Config, table: ResponseTable, flows: Cpu.Flows, segs: Cpu.Segments,
      run: Dispatched, p: nat, i: nat)
    requires SameLengths(table, config.table) && |flows.Keys + SegmentKeys(segs)| <= config.flowCapacity
    requires RepliedAsArrived(table, flows, segs, run, p, i)
    ensures RepliedAs(run, p, Cpu.Loop(config, flows, segs, |segs|).1, i)
  {
    LoopIsPlay(config, flows, segs);
    ReplyLengths(table, config.table, flows, segs, Range(|segs|), i);
  }

  /** From the unlimited arrival-order run to the CPU engine's loop. */
  lemma ArrivalIsLoop(config: Cpu.Config, e: Engine, segs: Cpu.Segments, waves: seq<seq<nat>>, final: seq<Slot>,
      flows: Cpu.Flows, runs: seq<Dispatched>)
    requires SameLengths(e.table, config.table) && |flows.Keys + SegmentKeys(segs)| <= config.flowCapacity
    requires |runs| == |waves| && ArrivedAs(e, segs, waves, final, flows, runs)
    ensures LoopedAs(config, e, segs, waves, final, flows, runs)
  {
    LoopTableIsPlay(config, e.table, flows, segs);
    forall j, p | 0 <= j < |waves| && 0 <= p < |waves[j]|
      ensures RepliedAs(runs[j], p, Cpu.Loop(config, flows, segs, |segs|).1, waves[j][p])
    {
      assert RepliedAsArrived(e.table, flows, segs, runs[j], p, waves[j][p]);
      ArrivalReplyIsLoopReply(config, e.table, flows, segs, runs[j], p, waves[j][p]);
    }
  }

  /** The final table stands for the CPU engine's map, and every packet of every wave was
      answered with the reply at its source index. */
  ghost predicate LoopedAs(config: Cpu.Config, e: Engine, segs: Cpu.Segments, waves: seq<seq<nat>>, final: seq<Slot>,
      flows: Cpu.Flows, runs: seq<Dispatched>)
    requires |runs| == |waves|
  {
    var (after, replies) := Cpu.Loop(config, flows, segs, |segs|);
    && Ok(final, e.limit) && Represents(e.table, final, after)
    && forall j, p :: 0 <= j < |waves| && 0 <= p < |waves[j]| ==> RepliedAs(runs[j], p, replies, waves[j][p])
  }

  /** A batch on the GPU, in the scheduler's waves and any interleaving within each wave, gives
      every packet the reply of the CPU engine's loop and leaves the slot table standing for the
      CPU engine's map: for every batch, when the word budget is unclamped, the existing flows and
      the batch's fit the CPU's capacity, no SYN is dropped, and no packet is one of the two kinds
      on which the engines differ. */
  lemma GpuBatchIsCpuBatch(config: Cpu.Config, e: Engine, limits: Limits, packets: seq<RawPacket>,
      segs: Cpu.Segments, waves: seq<seq<nat>>, slots: seq<Slot>, flows: Cpu.Flows, runs: seq<Dispatched>)
    requires SameLengths(e.table, config.table) && MakesProgress(limits) && Unclamped(limits)
    requires segs == Cpu.ReceiveAll(config.listenPort, packets)
    requires waves == AllWaves(Describe(packets), Range(|packets|), limits)
    requires Ok(slots, e.limit) && Represents(e.table, slots, flows)
    requires NoneDifferOnArrival(e.table, flows, segs) && RunsAll(e, segs, waves, slots, runs)
    requires |flows.Keys + SegmentKeys(segs)| <= config.flowCapacity
    ensures LoopedAs(config, e, segs, waves, SlotsAfter(slots, runs), flows, runs)
  {
    WavesRunAsArrived(e, config.listenPort, packets, limits, segs, waves, slots, flows, runs);
    ArrivalIsLoop(config, e, segs, waves, SlotsAfter(slots, runs), flows, runs);
  }

  /** Thread p answered packet i with the reply at its source index. */
  ghost predicate RepliedAs(run: Dispatched, p: nat, replies: seq<Option<Reply>>, i: nat) {
    p < |run.st.pcs| && run.st.pcs[p].Done? && i < |replies| && run.st.pcs[p].reply == replies[i]
  }
}
