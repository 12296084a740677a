/** The flow table over any sequence of dispatches (src/packet/packet.wgsl:118-193 and 543-697,
    src/packet/mod.rs:504-640): whatever the packets, however the threads of each dispatch are
    interleaved, and whether or not all of them finish, the table stays well formed, every search
    decides membership, and every flow is what its own packets make of it. */
module TableHistory {
  import opened Bits
  import opened Collections
  import opened Wire
  import opened Responses
  import opened FlowTable
  import opened Shader
  import opened Dispatch
  import opened Scheduler
  import opened FlowOrder
  import opened Batches
  import opened PacketEngines
  import opened FairBatches
  import opened PacketHistory
  import Cpu = CpuEngine

  // ----- what a table stores and what a search finds

  /** The slot of a key, if any. */
  ghost function Stored(slots: seq<Slot>, key: FlowKey): Option<Slot> {
    if i :| 0 <= i < |slots| && Holds(slots[i], key) then Some(slots[i]) else None
  }

  lemma StoredIs(slots: seq<Slot>, limit: nat, key: FlowKey)
    requires Ok(slots, limit)
    ensures Stores(slots, key, Stored(slots, key))
  {
  }

  lemma StoredIsUnique(slots: seq<Slot>, limit: nat, key: FlowKey, v: Option<Slot>)
    requires Ok(slots, limit) && Stores(slots, key, v)
    ensures v == Stored(slots, key)
  {
    if i :| 0 <= i < |slots| && Holds(slots[i], key) {
      StoredSlotIsUnique(slots, limit, key, v, i);
      StoredSlotIsUnique(slots, limit, key, Stored(slots, key), i);
    }
  }

  /** The search decides membership. */
  lemma {:induction false} SearchDecides(slots: seq<Slot>, limit: nat, key: FlowKey, p: nat)
    requires Ok(slots, limit) && p <= limit && Missed(slots, key, p)
    ensures var found := SearchFrom(slots, limit, key, p);
            Stored(slots, key) == if found.Some? then Some(slots[found.value]) else None
    decreases limit - p
  {
    StoredIs(slots, limit, key);
    if p == limit {
      MissedIsAbsent(slots, limit, key, p);
    } else {
      SlotAtIs(key, p, |slots|, limit);
      var i := SlotAt(key, p, |slots|);
      if slots[i].state.Free? {
        MissedIsAbsent(slots, limit, key, p);
      } else if Holds(slots[i], key) {
        StoredSlotIsUnique(slots, limit, key, Stored(slots, key), i);
      } else {
        MissedOneMore(slots, key, p, p + 1);
        SearchDecides(slots, limit, key, p + 1);
      }
    }
  }

  // ----- dispatches in a row

  /** The segments of one dispatch, and the order in which its threads act. */
  datatype Launch = Launch(threads: Threads, schedule: seq<nat>)

  predicate DistinctWithin(history: seq<Launch>) {
    forall m :: 0 <= m < |history| ==> DistinctKeys(history[m].threads)
  }

  /** How one dispatch ends. */
  ghost function EndOf(e: Engine, slots: seq<Slot>, launch: Launch): (st: State)
    requires GoodSize(|slots|, e.limit)
    ensures WellFormed(e, launch.threads, st) && |st.slots| == |slots|
  {
    Exec(e, launch.threads, Start(launch.threads, slots), launch.schedule)
  }

  /** The table after the dispatches of a history. */
  ghost function After(e: Engine, slots: seq<Slot>, history: seq<Launch>): (after: seq<Slot>)
    requires GoodSize(|slots|, e.limit)
    ensures |after| == |slots|
  {
    if history == [] then slots
    else
      var n := |history| - 1;
      EndOf(e, After(e, slots, history[..n]), history[n]).slots
  }

  lemma AfterOneMore(e: Engine, slots: seq<Slot>, history: seq<Launch>, m: nat)
    requires GoodSize(|slots|, e.limit) && m < |history|
    ensures After(e, slots, history[..m + 1]) == EndOf(e, After(e, slots, history[..m]), history[m]).slots
  {
    assert history[..m + 1][..m] == history[..m];
  }

  /** What the table stores for each thread's flow. */
  ghost function RecordOf(slots: seq<Slot>, threads: Threads): (before: seq<Option<Slot>>)
    ensures |before| == |threads|
  {
    seq(|threads|, i requires 0 <= i < |threads| =>
      if threads[i].Some? then Stored(slots, threads[i].value.key) else None)
  }

  lemma RecordIs(slots: seq<Slot>, limit: nat, threads: Threads)
    requires Ok(slots, limit)
    ensures Records(slots, threads, RecordOf(slots, threads))
  {
    forall i | 0 <= i < |threads| && threads[i].Some?
      ensures Stores(slots, threads[i].value.key, RecordOf(slots, threads)[i])
    {
      StoredIs(slots, limit, threads[i].value.key);
    }
  }

  lemma LaunchKeepsTable(e: Engine, slots: seq<Slot>, launch: Launch)
    requires Ok(slots, e.limit) && DistinctKeys(launch.threads)
    ensures Ok(EndOf(e, slots, launch).slots, e.limit)
  {
    RecordIs(slots, e.limit, launch.threads);
    DispatchIsSequential(e, launch.threads, RecordOf(slots, launch.threads), slots, launch.schedule);
  }

  /** After any number of dispatches the table is well formed: every live flow has one slot, within
      the probe limit of its path, with no free slot before it. */
  lemma {:induction false} HistoryKeepsTable(e: Engine, slots: seq<Slot>, history: seq<Launch>, m: nat)
    requires Ok(slots, e.limit) && DistinctWithin(history) && m <= |history|
    ensures Ok(After(e, slots, history[..m]), e.limit)
  {
    if m > 0 {
      HistoryKeepsTable(e, slots, history, m - 1);
      AfterOneMore(e, slots, history, m - 1);
      LaunchKeepsTable(e, After(e, slots, history[..m - 1]), history[m - 1]);
    }
  }

  /** So the shader's search finds a key after any history exactly when the table stores it. */
  lemma SearchAfterHistory(e: Engine, slots: seq<Slot>, history: seq<Launch>, m: nat, key: FlowKey)
    requires Ok(slots, e.limit) && DistinctWithin(history) && m <= |history|
    ensures var now := After(e, slots, history[..m]); var found := SearchFrom(now, e.limit, key, 0);
            && Stored(now, key) == (if found.Some? then Some(now[found.value]) else None)
            && (found.None? <==> Absent(now, key))
  {
    var now := After(e, slots, history[..m]);
    HistoryKeepsTable(e, slots, history, m);
    SearchDecides(now, e.limit, key, 0);
    StoredIs(now, e.limit, key);
  }

  // ----- one flow over the dispatches

  /** Thread i carries a segment of the flow. */
  predicate CarriedBy(threads: Threads, i: nat, key: FlowKey) {
    i < |threads| && threads[i].Some? && threads[i].value.key == key
  }

  /** What a thread at its end has made of its flow, and of its packet. */
  ghost predicate EndedAs(table: ResponseTable, tcp: Tcp, v: Option<Slot>, pc: Pc, v': Option<Slot>) {
    match pc
    case Done(reply) => (v', reply) == ShaderStep(table, v, tcp)
    case Dropped => BareSyn(tcp.flags) && v == None && v' == None
    case _ => true
  }

  lemma ThreadEnds(e: Engine, slots: seq<Slot>, tcp: Tcp, v: Option<Slot>, pc: Pc)
    requires Ok(slots, e.limit) && ThreadOk(e, slots, tcp, v, pc)
    ensures EndedAs(e.table, tcp, v, pc, Stored(slots, tcp.key))
  {
    match pc
    case Done(_) => StoredIsUnique(slots, e.limit, tcp.key, ShaderStep(e.table, v, tcp).0);
    case Dropped => StoredIsUnique(slots, e.limit, tcp.key, None);
    case _ =>
  }

  /** One dispatch leaves every flow that it does not carry as it was, and takes a carried flow,
      once its thread has finished, one step further; a dropped SYN opens nothing. */
  lemma LaunchTakesFlow(e: Engine, slots: seq<Slot>, launch: Launch, key: FlowKey)
    requires Ok(slots, e.limit) && DistinctKeys(launch.threads)
    ensures var st := EndOf(e, slots, launch); var v, v' := Stored(slots, key), Stored(st.slots, key);
            && (NoThreadFor(launch.threads, key) ==> v' == v)
            && forall i: nat :: CarriedBy(launch.threads, i, key) ==>
                 EndedAs(e.table, launch.threads[i].value, v, st.pcs[i], v')
  {
    var threads, st, before := launch.threads, EndOf(e, slots, launch), RecordOf(slots, launch.threads);
    var start := Start(threads, slots);
    RecordIs(slots, e.limit, threads);
    StartKeepsRecord(e, threads, before, slots);
    RunKeepsInv(e, threads, before, start, launch.schedule);
    StoredIs(slots, e.limit, key);
    if NoThreadFor(threads, key) {
      RunKeepsOtherFlows(e, threads, before, start, launch.schedule, key, Stored(slots, key));
      StoredIsUnique(st.slots, e.limit, key, Stored(slots, key));
    }
    forall i: nat | CarriedBy(threads, i, key)
      ensures EndedAs(e.table, threads[i].value, Stored(slots, key), st.pcs[i], Stored(st.slots, key))
    {
      assert before[i] == Stored(slots, key);
      ThreadEnds(e, st.slots, threads[i].value, before[i], st.pcs[i]);
    }
  }

  /** A flow that no dispatch of a history carries is stored as it was. */
  lemma {:induction false} UncarriedFlowStays(e: Engine, slots: seq<Slot>, history: seq<Launch>, m: nat, key: FlowKey)
    requires Ok(slots, e.limit) && DistinctWithin(history) && m <= |history|
    requires forall n :: 0 <= n < m ==> NoThreadFor(history[n].threads, key)
    ensures Stored(After(e, slots, history[..m]), key) == Stored(slots, key)
  {
    if m > 0 {
      UncarriedFlowStays(e, slots, history, m - 1, key);
      HistoryKeepsTable(e, slots, history, m - 1);
      AfterOneMore(e, slots, history, m - 1);
      LaunchTakesFlow(e, After(e, slots, history[..m - 1]), history[m - 1], key);
    }
  }

  /** Every thread of every dispatch has finished. */
  ghost predicate AllFinish(e: Engine, slots: seq<Slot>, history: seq<Launch>)
    requires GoodSize(|slots|, e.limit)
  {
    forall m :: 0 <= m < |history| ==> Finishes(e, slots, history, m)
  }

  ghost predicate Finishes(e: Engine, slots: seq<Slot>, history: seq<Launch>, m: nat)
    requires GoodSize(|slots|, e.limit)
  {
    m < |history| && Finished(EndOf(e, After(e, slots, history[..m]), history[m]))
  }

  predicate Finished(st: State) {
    forall i :: 0 <= i < |st.pcs| ==> st.pcs[i].Done? || st.pcs[i].Dropped?
  }

  /** The segment of the flow that a dispatch carries, unless it is dropped. */
  ghost function Served(threads: Threads, pcs: seq<Pc>, key: FlowKey): seq<Tcp>
    requires |pcs| == |threads|
  {
    if i: nat :| CarriedBy(threads, i, key) && !pcs[i].Dropped? then [threads[i].value] else []
  }

  /** The segments of the flow that the dispatches carry, in order, except dropped ones. */
  ghost function ServedIn(e: Engine, slots: seq<Slot>, history: seq<Launch>, key: FlowKey): seq<Tcp>
    requires GoodSize(|slots|, e.limit)
  {
    if history == [] then []
    else
      var n := |history| - 1;
      ServedIn(e, slots, history[..n], key)
      + Served(history[n].threads, EndOf(e, After(e, slots, history[..n]), history[n]).pcs, key)
  }

  lemma ServedOneMore(e: Engine, slots: seq<Slot>, history: seq<Launch>, m: nat, key: FlowKey)
    requires GoodSize(|slots|, e.limit) && m < |history|
    ensures ServedIn(e, slots, history[..m + 1], key)
            == ServedIn(e, slots, history[..m], key)
               + Served(history[m].threads, EndOf(e, After(e, slots, history[..m]), history[m]).pcs, key)
  {
    assert history[..m + 1][..m] == history[..m];
  }

  /** A flow alone: its segments, one step each. */
  function FlowRun(table: ResponseTable, v: Option<Slot>, segs: seq<Tcp>): Option<Slot> {
    if segs == [] then v
    else
      var n := |segs| - 1;
      ShaderStep(table, FlowRun(table, v, segs[..n]), segs[n]).0
  }

  lemma FlowRunServes(table: ResponseTable, v: Option<Slot>, segs: seq<Tcp>, tcp: Tcp)
    ensures FlowRun(table, v, segs + [tcp]) == ShaderStep(table, FlowRun(table, v, segs), tcp).0
  {
    assert (segs + [tcp])[..|segs|] == segs;
  }

  lemma NoneServed(e: Engine, slots: seq<Slot>, launch: Launch, key: FlowKey)
    requires Ok(slots, e.limit) && DistinctKeys(launch.threads) && Finished(EndOf(e, slots, launch))
    requires Served(launch.threads, EndOf(e, slots, launch).pcs, key) == []
    ensures Stored(EndOf(e, slots, launch).slots, key) == Stored(slots, key)
  {
    LaunchTakesFlow(e, slots, launch, key);
    if i: nat :| CarriedBy(launch.threads, i, key) {
      assert EndOf(e, slots, launch).pcs[i].Dropped?;
    }
  }

  lemma LaunchServes(e: Engine, slots: seq<Slot>, launch: Launch, key: FlowKey, v: Option<Slot>, segs: seq<Tcp>)
    requires Ok(slots, e.limit) && DistinctKeys(launch.threads) && Finished(EndOf(e, slots, launch))
    requires Stored(slots, key) == FlowRun(e.table, v, segs)
    ensures var st := EndOf(e, slots, launch);
            Stored(st.slots, key) == FlowRun(e.table, v, segs + Served(launch.threads, st.pcs, key))
  {
    var threads, st := launch.threads, EndOf(e, slots, launch);
    LaunchTakesFlow(e, slots, launch, key);
    var served := Served(threads, st.pcs, key);
    if served == [] {
      NoneServed(e, slots, launch, key);
      assert segs + served == segs;
    } else {
      var i: nat :| CarriedBy(threads, i, key) && !st.pcs[i].Dropped? && served == [threads[i].value];
      FlowRunServes(e.table, v, segs, threads[i].value);
    }
  }

  /** The table refines the flows: after any history whose threads have finished, what it stores for
      a key is what the key's own segments, dispatch after dispatch, make of what it stored first.
      Neither the other flows nor the interleavings show. */
  lemma {:induction false} TableIsItsFlows(e: Engine, slots: seq<Slot>, history: seq<Launch>, m: nat, key: FlowKey)
    requires Ok(slots, e.limit) && DistinctWithin(history) && AllFinish(e, slots, history) && m <= |history|
    ensures Stored(After(e, slots, history[..m]), key)
            == FlowRun(e.table, Stored(slots, key), ServedIn(e, slots, history[..m], key))
  {
    if m > 0 {
      var now, n := After(e, slots, history[..m - 1]), m - 1;
      TableIsItsFlows(e, slots, history, n, key);
      HistoryKeepsTable(e, slots, history, n);
      AfterOneMore(e, slots, history, n);
      ServedOneMore(e, slots, history, n, key);
      assert Finishes(e, slots, history, n);
      LaunchServes(e, now, history[n], key, Stored(slots, key), ServedIn(e, slots, history[..n], key));
    }
  }

  lemma FairLaunchFinishes(e: Engine, slots: seq<Slot>, launch: Launch)
    requires Ok(slots, e.limit) && DistinctKeys(launch.threads) && Fair(e, launch.threads, launch.schedule)
    ensures Finished(EndOf(e, slots, launch))
  {
    var threads, st := launch.threads, EndOf(e, slots, launch);
    RecordIs(slots, e.limit, threads);
    FairDispatchCompletes(e, threads, RecordOf(slots, threads), slots, launch.schedule);
    assert st == Exec(e, threads, Start(threads, slots), launch.schedule);
    forall i | 0 <= i < |st.pcs| ensures st.pcs[i].Done? || st.pcs[i].Dropped? {
    }
  }

  /** Enough turns for every thread finish every dispatch, whether or not there is room. */
  lemma FairHistoryFinishes(e: Engine, slots: seq<Slot>, history: seq<Launch>)
    requires Ok(slots, e.limit) && DistinctWithin(history) && FairHistory(e, history)
    ensures AllFinish(e, slots, history)
  {
    forall m | 0 <= m < |history| ensures Finishes(e, slots, history, m) {
      HistoryKeepsTable(e, slots, history, m);
      FairLaunchFinishes(e, After(e, slots, history[..m]), history[m]);
    }
  }

  predicate FairHistory(e: Engine, history: seq<Launch>) {
    forall m :: 0 <= m < |history| ==> Fair(e, history[m].threads, history[m].schedule)
  }

  /** Each packet of dispatch m draws the reply its flow alone would draw, or is a dropped SYN of a
      flow that is not stored. */
  lemma RepliesAreOfTheirFlows(e: Engine, slots: seq<Slot>, history: seq<Launch>, m: nat, i: nat)
    requires Ok(slots, e.limit) && DistinctWithin(history) && FairHistory(e, history)
    requires m < |history| && i < |history[m].threads| && history[m].threads[i].Some?
    ensures var tcp := history[m].threads[i].value; var now := After(e, slots, history[..m]);
            var v := FlowRun(e.table, Stored(slots, tcp.key), ServedIn(e, slots, history[..m], tcp.key));
            match EndOf(e, now, history[m]).pcs[i] {
              case Done(reply) => reply == ShaderStep(e.table, v, tcp).1
              case Dropped => BareSyn(tcp.flags) && v == None
              case _ => false
            }
  {
    var now, key := After(e, slots, history[..m]), history[m].threads[i].value.key;
    FairHistoryFinishes(e, slots, history);
    TableIsItsFlows(e, slots, history, m, key);
    HistoryKeepsTable(e, slots, history, m);
    LaunchTakesFlow(e, now, history[m], key);
    assert Finishes(e, slots, history, m);
    assert CarriedBy(history[m].threads, i, key);
  }

  // ----- batches in a row, comparable or not

  /** The dispatches of a batch: one for each of its waves. */
  function LaunchesOf(s: Setup, a: Arrival, n: nat): (launches: seq<Launch>)
    requires MakesProgress(s.limits) && n <= |WavesOf(s, a)| && n <= |a.schedules|
    ensures |launches| == n
  {
    WavesAreIndices(s, a);
    seq(n, j requires 0 <= j < n => Launch(ThreadsOf(SegmentsOf(s, a), WavesOf(s, a)[j]), a.schedules[j]))
  }

  /** Every wave has a schedule. */
  predicate Scheduled(s: Setup, a: Arrival)
    requires MakesProgress(s.limits)
  {
    |a.schedules| == |WavesOf(s, a)|
  }

  lemma WavesCarryFlowsOnce(s: Setup, a: Arrival)
    requires MakesProgress(s.limits) && Scheduled(s, a)
    ensures DistinctWithin(LaunchesOf(s, a, |WavesOf(s, a)|))
  {
    var b, segs, waves := Describe(a.packets), SegmentsOf(s, a), WavesOf(s, a);
    WavesPartition(b, Range(|a.packets|), s.limits);
    ReceivedKeysAgree(s.config.listenPort, a.packets);
    forall j | 0 <= j < |waves| ensures DistinctKeys(LaunchesOf(s, a, |waves|)[j].threads) {
      assert GoodWave(b, waves[j], s.limits);
      ThreadsDistinct(b.keys, segs, waves[j]);
    }
  }

  predicate AllScheduled(s: Setup, history: seq<Arrival>)
    requires MakesProgress(s.limits)
  {
    forall m :: 0 <= m < |history| ==> Scheduled(s, history[m])
  }

  /** The dispatches of a history of batches. */
  function AllLaunches(s: Setup, history: seq<Arrival>): seq<Launch>
    requires MakesProgress(s.limits) && AllScheduled(s, history)
  {
    if history == [] then []
    else
      var n := |history| - 1;
      assert Scheduled(s, history[n]);
      AllLaunches(s, history[..n]) + LaunchesOf(s, history[n], |WavesOf(s, history[n])|)
  }

  lemma {:induction false} BatchesCarryFlowsOnce(s: Setup, history: seq<Arrival>)
    requires MakesProgress(s.limits) && AllScheduled(s, history)
    ensures DistinctWithin(AllLaunches(s, history))
  {
    if history != [] {
      BatchesCarryFlowsOnce(s, history[..|history| - 1]);
      WavesCarryFlowsOnce(s, history[|history| - 1]);
    }
  }

  /** Whatever batches arrive, whatever their packets and however their waves are interleaved: from a
      zeroed table on the table is well formed, and a search finds a flow exactly when it is stored. */
  lemma EveryBatchKeepsTable(s: Setup, slots: seq<Slot>, history: seq<Arrival>, key: FlowKey)
    requires MakesProgress(s.limits) && AllScheduled(s, history)
    requires GoodSize(|slots|, s.e.limit) && AllFree(slots)
    ensures var now := After(s.e, slots, AllLaunches(s, history)); var found := SearchFrom(now, s.e.limit, key, 0);
            && Ok(now, s.e.limit)
            && Stored(now, key) == (if found.Some? then Some(now[found.value]) else None)
            && (found.None? <==> Absent(now, key))
  {
    var launches := AllLaunches(s, history);
    var n := |launches|;
    FreshTable(s.e.table, slots, s.e.limit, map[]);
    BatchesCarryFlowsOnce(s, history);
    assert launches[..n] == launches;
    HistoryKeepsTable(s.e, slots, launches, n);
    SearchAfterHistory(s.e, slots, launches, n, key);
  }

  /** The table after a batch's dispatches is the one its runs leave. */
  lemma {:induction false} LaunchesAreRuns(s: Setup, slots: seq<Slot>, a: Arrival, n: nat)
    requires MakesProgress(s.limits) && GoodSize(|slots|, s.e.limit) && AllIndices(WavesOf(s, a), |SegmentsOf(s, a)|)
    requires n <= |WavesOf(s, a)| && n <= |a.schedules|
    ensures After(s.e, slots, LaunchesOf(s, a, n))
            == SlotsAfter(slots, RunsOf(s.e, SegmentsOf(s, a), WavesOf(s, a), slots, a.schedules, n))
  {
    if n > 0 {
      LaunchesAreRuns(s, slots, a, n - 1);
      assert LaunchesOf(s, a, n)[..n - 1] == LaunchesOf(s, a, n - 1);
    }
  }
}
