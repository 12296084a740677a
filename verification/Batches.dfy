/** The packet engines agree: a batch run on the GPU in the scheduler's waves, each wave in
    any interleaving, gives the replies and the flows of the CPU's arrival-order loop
    (src/packet/mod.rs:675-745 and src/packet/packet.wgsl:543-697, with src/packet/cpu.rs:82-211). */
module Batches {
  import opened Bits
  import opened Collections
  import opened Wire
  import opened Responses
  import opened FlowTable
  import opened Shader
  import opened Dispatch
  import opened Scheduler
  import opened FlowOrder
  import Cpu = CpuEngine

  type Segments = Cpu.Segments


  /** The table stores, at one key, a slot that stands for this flow. */
  ghost predicate StandsFor(table: ResponseTable, slots: seq<Slot>, k: FlowKey, f: Option<Cpu.Flow>) {
    exists v :: Stores(slots, k, v) && SlotFor(table, v, k) && AsFlows(v) == f
  }

  /** The live slots are the CPU's map. */
  ghost predicate Represents(table: ResponseTable, slots: seq<Slot>, flows: Cpu.Flows) {
    forall k :: StandsFor(table, slots, k, Cpu.Get(flows, k))
  }

  function ThreadsOf(segs: Segments, wave: seq<nat>): (threads: Threads)
    requires Indices(wave, |segs|)
    ensures |threads| == |wave|
  {
    seq(|wave|, p requires 0 <= p < |wave| => segs[wave[p]])
  }

  ghost function StoredSlot(table: ResponseTable, slots: seq<Slot>, k: FlowKey,
      f: Option<Cpu.Flow>): (v: Option<Slot>)
    requires StandsFor(table, slots, k, f)
    ensures Stores(slots, k, v) && SlotFor(table, v, k) && AsFlows(v) == f
  {
    var v :| Stores(slots, k, v) && SlotFor(table, v, k) && AsFlows(v) == f;
    v
  }

  ghost function StoredSlots(table: ResponseTable, slots: seq<Slot>, threads: Threads,
      flows: Cpu.Flows): (before: seq<Option<Slot>>)
    requires Represents(table, slots, flows)
    ensures |before| == |threads|
    ensures forall p :: 0 <= p < |threads| && threads[p].Some? ==>
              before[p] == StoredSlot(table, slots, threads[p].value.key, Cpu.Get(flows, threads[p].value.key))
  {
    seq(|threads|, p requires 0 <= p < |threads| =>
      if threads[p].None? then None
      else StoredSlot(table, slots, threads[p].value.key, Cpu.Get(flows, threads[p].value.key)))
  }

  predicate ShortPayloads(segs: Segments) {
    forall i :: 0 <= i < |segs| && segs[i].Some? ==> |segs[i].value.payload| < 0x1_0000
  }

  predicate AllDone(st: State) {
    forall p :: 0 <= p < |st.pcs| ==> st.pcs[p].Done?
  }

  /** None of the packets is one on which the engines differ, given the flows before the wave. */
  predicate NoneDiffer(segs: Segments, wave: seq<nat>, flows: Cpu.Flows)
    requires Indices(wave, |segs|)
  {
    forall p :: 0 <= p < |wave| ==> NoDifference(segs[wave[p]], flows)
  }

  predicate NoDifference(seg: Option<Tcp>, flows: Cpu.Flows) {
    seg.Some? ==> !Differs(Cpu.Get(flows, seg.value.key), seg.value)
  }

  lemma ThreadsDistinct(keys: Keys, segs: Segments, wave: seq<nat>)
    requires KeysAgree(keys, segs) && Indices(wave, |segs|) && DistinctFlows(keys, wave)
    ensures DistinctKeys(ThreadsOf(segs, wave))
  {
    var threads := ThreadsOf(segs, wave);
    forall p, q | 0 <= p < q < |threads| && threads[p].Some? && threads[q].Some?
      ensures threads[p].value.key != threads[q].value.key
    {
      assert keys[wave[p]] != keys[wave[q]];
    }
  }

  // ----- a wave, seen by the CPU

  /** Within a wave of distinct flows, each flow is stepped once from its state before the wave. */
  lemma {:induction false} WaveFlow(table: ResponseTable, v: Option<Cpu.Flow>, keys: Keys, segs: Segments,
      wave: seq<nat>, k: FlowKey)
    requires KeysAgree(keys, segs) && Indices(wave, |segs|) && DistinctFlows(keys, wave)
    ensures (forall p :: 0 <= p < |wave| ==> !CarriesKey(segs, wave[p], k)) ==> KeyPlay(table, v, segs, wave, k) == v
    ensures forall p :: 0 <= p < |wave| && CarriesKey(segs, wave[p], k) ==>
              KeyPlay(table, v, segs, wave, k) == Cpu.FlowStep(table, v, segs[wave[p]].value).0
  {
    if wave != [] {
      var n := |wave| - 1;
      WaveFlow(table, v, keys, segs, wave[..n], k);
      forall p | 0 <= p < n && CarriesKey(segs, wave[p], k) ensures !CarriesKey(segs, wave[n], k) {
        assert keys[wave[p]] != keys[wave[n]];
      }
    }
  }

  predicate CarriesKey(segs: Segments, i: nat, k: FlowKey) {
    i < |segs| && segs[i].Some? && segs[i].value.key == k
  }

  lemma WaveReply(table: ResponseTable, flows: Cpu.Flows, keys: Keys, segs: Segments, wave: seq<nat>, p: nat)
    requires KeysAgree(keys, segs) && Indices(wave, |segs|) && DistinctFlows(keys, wave) && p < |wave|
    requires segs[wave[p]].Some?
    ensures var t := segs[wave[p]].value;
            && Cpu.Get(Play(table, flows, segs, wave[..p]), t.key) == Cpu.Get(flows, t.key)
            && ReplyIn(table, flows, segs, wave, p) == Cpu.FlowStep(table, Cpu.Get(flows, t.key), t).1
  {
    var k := segs[wave[p]].value.key;
    PlayIsPerFlow(table, flows, segs, wave[..p], k);
    WaveFlow(table, Cpu.Get(flows, k), keys, segs, wave[..p], k);
    forall q | 0 <= q < p ensures !CarriesKey(segs, wave[..p][q], k) {
      assert keys[wave[q]].Some? ==> keys[wave[q]] != keys[wave[p]];
    }
  }

  // ----- a wave, on the GPU

  /** What one dispatch did: the interleaving, and the state all threads finished in. */
  datatype Dispatched = Dispatched(schedule: seq<nat>, st: State)

  ghost predicate Runs(e: Engine, segs: Segments, wave: seq<nat>, slots: seq<Slot>, run: Dispatched) {
    && GoodSize(|slots|, e.limit) && Indices(wave, |segs|)
    && run.st == Exec(e, ThreadsOf(segs, wave), Start(ThreadsOf(segs, wave), slots), run.schedule)
    && AllDone(run.st)
  }

  /** One dispatch does to the table what the CPU does to its map, whatever the interleaving. */
  lemma WaveSimulates(e: Engine, keys: Keys, segs: Segments, wave: seq<nat>, slots: seq<Slot>, flows: Cpu.Flows,
      run: Dispatched)
    requires Ok(slots, e.limit) && Represents(e.table, slots, flows)
    requires KeysAgree(keys, segs) && ShortPayloads(segs)
    requires Indices(wave, |segs|) && DistinctFlows(keys, wave) && NoneDiffer(segs, wave, flows)
    requires Runs(e, segs, wave, slots, run)
    ensures Ok(run.st.slots, e.limit)
    ensures Represents(e.table, run.st.slots, Play(e.table, flows, segs, wave))
    ensures |run.st.pcs| == |wave|
    ensures forall p :: 0 <= p < |wave| ==> run.st.pcs[p].reply == ReplyIn(e.table, flows, segs, wave, p)
  {
    var threads := ThreadsOf(segs, wave);
    var before := StoredSlots(e.table, slots, threads, flows);
    ThreadsDistinct(keys, segs, wave);
    DispatchIsSequential(e, threads, before, slots, run.schedule);
    StartKeepsRecord(e, threads, before, slots);
    RunKeepsInv(e, threads, before, Start(threads, slots), run.schedule);
    forall p | 0 <= p < |wave| ensures run.st.pcs[p].reply == ReplyIn(e.table, flows, segs, wave, p) {
      if threads[p].Some? {
        ThreadMatches(e, keys, segs, wave, flows, before[p], p);
      }
    }
    forall k ensures StandsFor(e.table, run.st.slots, k, Cpu.Get(Play(e.table, flows, segs, wave), k)) {
      WaveStores(e, keys, segs, wave, slots, flows, run.schedule, before, k);
    }
  }

  /** A thread's outcome is the CPU's step on the flow as it was before the wave. */
  lemma ThreadMatches(e: Engine, keys: Keys, segs: Segments, wave: seq<nat>, flows: Cpu.Flows, v: Option<Slot>,
      p: nat)
    requires KeysAgree(keys, segs) && ShortPayloads(segs)
    requires Indices(wave, |segs|) && DistinctFlows(keys, wave) && NoneDiffer(segs, wave, flows)
    requires p < |wave| && segs[wave[p]].Some?
    requires SlotFor(e.table, v, segs[wave[p]].value.key) && AsFlows(v) == Cpu.Get(flows, segs[wave[p]].value.key)
    ensures var t := segs[wave[p]].value; var (v', reply) := ShaderStep(e.table, v, t);
            && SlotFor(e.table, v', t.key)
            && AsFlows(v') == Cpu.FlowStep(e.table, Cpu.Get(flows, t.key), t).0
            && reply == ReplyIn(e.table, flows, segs, wave, p)
  {
    StepKeepsSlot(e.table, v, segs[wave[p]].value);
    StepsAgreeExactly(e.table, v, segs[wave[p]].value);
    WaveReply(e.table, flows, keys, segs, wave, p);
  }

  lemma WaveStores(e: Engine, keys: Keys, segs: Segments, wave: seq<nat>, slots: seq<Slot>, flows: Cpu.Flows,
      schedule: seq<nat>, before: seq<Option<Slot>>, k: FlowKey)
    requires Ok(slots, e.limit) && Represents(e.table, slots, flows)
    requires KeysAgree(keys, segs) && ShortPayloads(segs)
    requires Indices(wave, |segs|) && DistinctFlows(keys, wave) && NoneDiffer(segs, wave, flows)
    requires before == StoredSlots(e.table, slots, ThreadsOf(segs, wave), flows)
    requires AllDone(Exec(e, ThreadsOf(segs, wave), Start(ThreadsOf(segs, wave), slots), schedule))
    ensures StandsFor(e.table, Exec(e, ThreadsOf(segs, wave), Start(ThreadsOf(segs, wave), slots), schedule).slots, k,
                      Cpu.Get(Play(e.table, flows, segs, wave), k))
  {
    var threads := ThreadsOf(segs, wave);
    ThreadsDistinct(keys, segs, wave);
    PlayIsPerFlow(e.table, flows, segs, wave, k);
    WaveFlow(e.table, Cpu.Get(flows, k), keys, segs, wave, k);
    if p :| 0 <= p < |wave| && CarriesKey(segs, wave[p], k) {
      DispatchIsSequential(e, threads, before, slots, schedule);
      ThreadMatches(e, keys, segs, wave, flows, before[p], p);
    } else {
      var v := StoredSlot(e.table, slots, k, Cpu.Get(flows, k));
      assert NoThreadFor(threads, k) by {
        forall p | 0 <= p < |threads| && threads[p].Some? ensures threads[p].value.key != k {
          assert !CarriesKey(segs, wave[p], k);
        }
      }
      StartKeepsRecord(e, threads, before, slots);
      RunKeepsOtherFlows(e, threads, before, Start(threads, slots), schedule, k, v);
    }
  }

  // ----- the waves of a batch

  function SlotsAfter(slots: seq<Slot>, runs: seq<Dispatched>): seq<Slot> {
    if runs == [] then slots else runs[|runs| - 1].st.slots
  }

  /** The waves are dispatched one after the other. */
  ghost predicate RunsAll(e: Engine, segs: Segments, waves: seq<seq<nat>>, slots: seq<Slot>, runs: seq<Dispatched>) {
    |runs| == |waves| && forall j :: 0 <= j < |waves| ==> RunsAt(e, segs, waves, slots, runs, j)
  }

  ghost predicate RunsAt(e: Engine, segs: Segments, waves: seq<seq<nat>>, slots: seq<Slot>, runs: seq<Dispatched>,
      j: nat) {
    j < |waves| && j < |runs| && Runs(e, segs, waves[j], SlotsAfter(slots, runs[..j]), runs[j])
  }

  predicate WavesFit(keys: Keys, waves: seq<seq<nat>>) {
    forall j :: 0 <= j < |waves| ==> WaveFits(keys, waves, j)
  }

  predicate WaveFits(keys: Keys, waves: seq<seq<nat>>, j: nat) {
    j < |waves| && Indices(waves[j], |keys|) && DistinctFlows(keys, waves[j])
  }

  /** The order the waves put the packets in, up to wave j. */
  function UpTo(waves: seq<seq<nat>>, j: nat): seq<nat>
    requires j <= |waves|
  {
    if j == 0 then [] else UpTo(waves, j - 1) + waves[j - 1]
  }

  lemma {:induction false} UpToIsFlat(waves: seq<seq<nat>>, n: nat)
    requires n == |waves|
    ensures UpTo(waves, n) == Flatten(waves)
    decreases n
  {
    if n > 0 {
      UpToIsFlat(waves[1..], n - 1);
      UpToTail(waves, n - 1);
    }
  }

  lemma {:induction false} UpToTail(waves: seq<seq<nat>>, j: nat)
    requires j < |waves|
    ensures UpTo(waves, j + 1) == waves[0] + UpTo(waves[1..], j)
  {
    if j > 0 {
      UpToTail(waves, j - 1);
    }
  }

  lemma {:induction false} UpToIndices(keys: Keys, waves: seq<seq<nat>>, j: nat)
    requires WavesFit(keys, waves) && j <= |waves|
    ensures Indices(UpTo(waves, j), |keys|)
  {
    if j > 0 {
      UpToIndices(keys, waves, j - 1);
      assert WaveFits(keys, waves, j - 1);
    }
  }

  lemma {:induction false} UpToIsPrefix(waves: seq<seq<nat>>, j: nat)
    requires j <= |waves|
    ensures UpTo(waves, j) <= UpTo(waves, |waves|)
    decreases |waves| - j
  {
    if j < |waves| {
      UpToIsPrefix(waves, j + 1);
    }
  }

  /** No packet differs in the run over the given order. */
  predicate NoneDifferIn(table: ResponseTable, flows: Cpu.Flows, segs: Segments, order: seq<nat>)
    requires Indices(order, |segs|)
  {
    forall p :: 0 <= p < |order| ==> NoDifferenceAt(table, flows, segs, order, p)
  }

  predicate NoDifferenceAt(table: ResponseTable, flows: Cpu.Flows, segs: Segments, order: seq<nat>, p: nat)
    requires Indices(order, |segs|)
  {
    p < |order| && NoDifference(segs[order[p]], Play(table, flows, segs, order[..p]))
  }

  /** A wave's packets meet the flows as the whole order leaves them. */
  lemma WaveMeetsOrder(table: ResponseTable, flows: Cpu.Flows, keys: Keys, segs: Segments, order: seq<nat>,
      done: seq<nat>, wave: seq<nat>, p: nat)
    requires KeysAgree(keys, segs) && Indices(order, |segs|) && Indices(done, |segs|) && Indices(wave, |segs|)
    requires done + wave <= order && DistinctFlows(keys, wave) && p < |wave| && segs[wave[p]].Some?
    ensures var k := segs[wave[p]].value.key; var q := |done| + p;
            && order[q] == wave[p]
            && Cpu.Get(Play(table, flows, segs, order[..q]), k) == Cpu.Get(Play(table, flows, segs, done), k)
            && ReplyIn(table, flows, segs, order, q) == ReplyIn(table, Play(table, flows, segs, done), segs, wave, p)
  {
    var q := |done| + p;
    var mid := Play(table, flows, segs, done);
    assert order[..q] == done + wave[..p];
    PlayConcat(table, flows, segs, done, wave[..p]);
    WaveReply(table, mid, keys, segs, wave, p);
  }

  lemma WaveDoesNotDiffer(table: ResponseTable, flows: Cpu.Flows, keys: Keys, segs: Segments, order: seq<nat>,
      done: seq<nat>, wave: seq<nat>)
    requires KeysAgree(keys, segs) && Indices(order, |segs|) && Indices(done, |segs|) && Indices(wave, |segs|)
    requires done + wave <= order && DistinctFlows(keys, wave)
    requires NoneDifferIn(table, flows, segs, order)
    ensures NoneDiffer(segs, wave, Play(table, flows, segs, done))
  {
    forall p | 0 <= p < |wave| ensures NoDifference(segs[wave[p]], Play(table, flows, segs, done)) {
      if segs[wave[p]].Some? {
        WaveMeetsOrder(table, flows, keys, segs, order, done, wave, p);
        assert NoDifferenceAt(table, flows, segs, order, |done| + p);
      }
    }
  }

  /** The replies of a wave, against the whole order. */
  ghost predicate RepliesMatch(table: ResponseTable, flows: Cpu.Flows, segs: Segments, order: seq<nat>, start: nat,
      run: Dispatched)
    requires Indices(order, |segs|)
  {
    forall p :: 0 <= p < |run.st.pcs| ==> ReplyMatches(table, flows, segs, order, start, run, p)
  }

  ghost predicate ReplyMatches(table: ResponseTable, flows: Cpu.Flows, segs: Segments, order: seq<nat>, start: nat,
      run: Dispatched, p: nat)
    requires Indices(order, |segs|)
  {
    && start + p < |order| && p < |run.st.pcs| && run.st.pcs[p].Done?
    && run.st.pcs[p].reply == ReplyIn(table, flows, segs, order, start + p)
  }

  lemma OrderReply(table: ResponseTable, flows: Cpu.Flows, keys: Keys, segs: Segments, order: seq<nat>,
      done: seq<nat>, wave: seq<nat>, p: nat)
    requires KeysAgree(keys, segs) && Indices(order, |segs|) && Indices(done, |segs|) && Indices(wave, |segs|)
    requires done + wave <= order && DistinctFlows(keys, wave) && p < |wave|
    ensures |done| + p < |order|
    ensures ReplyIn(table, flows, segs, order, |done| + p) == ReplyIn(table, Play(table, flows, segs, done),
            segs, wave, p)
  {
    assert order[|done| + p] == wave[p];
    if segs[wave[p]].Some? {
      WaveMeetsOrder(table, flows, keys, segs, order, done, wave, p);
    }
  }

  /** One more wave, from the flows its predecessors left: the table... */
  lemma NextWaveTable(e: Engine, keys: Keys, segs: Segments, order: seq<nat>, done: seq<nat>, wave: seq<nat>,
      slots: seq<Slot>, flows: Cpu.Flows, run: Dispatched)
    requires KeysAgree(keys, segs) && ShortPayloads(segs) && Indices(order, |segs|) && Indices(done, |segs|)
    requires Indices(wave, |segs|) && DistinctFlows(keys, wave) && done + wave <= order
    requires NoneDifferIn(e.table, flows, segs, order)
    requires Ok(slots, e.limit) && Represents(e.table, slots, Play(e.table, flows, segs, done))
    requires Runs(e, segs, wave, slots, run)
    ensures Indices(done + wave, |segs|) && Ok(run.st.slots, e.limit)
    ensures Represents(e.table, run.st.slots, Play(e.table, flows, segs, done + wave))
  {
    WaveDoesNotDiffer(e.table, flows, keys, segs, order, done, wave);
    WaveSimulates(e, keys, segs, wave, slots, Play(e.table, flows, segs, done), run);
    PlayConcat(e.table, flows, segs, done, wave);
  }

  /** ... and the replies. */
  lemma NextWaveReplies(e: Engine, keys: Keys, segs: Segments, order: seq<nat>, done: seq<nat>, wave: seq<nat>,
      slots: seq<Slot>, flows: Cpu.Flows, run: Dispatched)
    requires KeysAgree(keys, segs) && ShortPayloads(segs) && Indices(order, |segs|) && Indices(done, |segs|)
    requires Indices(wave, |segs|) && DistinctFlows(keys, wave) && done + wave <= order
    requires NoneDifferIn(e.table, flows, segs, order)
    requires Ok(slots, e.limit) && Represents(e.table, slots, Play(e.table, flows, segs, done))
    requires Runs(e, segs, wave, slots, run)
    ensures RepliesMatch(e.table, flows, segs, order, |done|, run) && |run.st.pcs| == |wave|
  {
    WaveDoesNotDiffer(e.table, flows, keys, segs, order, done, wave);
    WaveSimulates(e, keys, segs, wave, slots, Play(e.table, flows, segs, done), run);
    WaveRepliesMatch(e.table, flows, keys, segs, order, done, wave, run);
  }

  lemma WaveRepliesMatch(table: ResponseTable, flows: Cpu.Flows, keys: Keys, segs: Segments, order: seq<nat>,
      done: seq<nat>, wave: seq<nat>, run: Dispatched)
    requires KeysAgree(keys, segs) && Indices(order, |segs|) && Indices(done, |segs|) && Indices(wave, |segs|)
    requires done + wave <= order && DistinctFlows(keys, wave)
    requires |run.st.pcs| == |wave| && AllDone(run.st)
    requires forall p :: 0 <= p < |wave| ==>
               run.st.pcs[p].reply == ReplyIn(table, Play(table, flows, segs, done), segs, wave, p)
    ensures RepliesMatch(table, flows, segs, order, |done|, run)
  {
    forall p | 0 <= p < |run.st.pcs| ensures ReplyMatches(table, flows, segs, order, |done|, run, p) {
      OrderReply(table, flows, keys, segs, order, done, wave, p);
    }
  }

  /** A batch the GPU has run in waves, from a table that stands for the flows. */
  ghost predicate BatchRun(e: Engine, keys: Keys, segs: Segments, waves: seq<seq<nat>>, slots: seq<Slot>,
      flows: Cpu.Flows, runs: seq<Dispatched>)
  {
    && KeysAgree(keys, segs) && ShortPayloads(segs) && WavesFit(keys, waves)
    && Indices(UpTo(waves, |waves|), |segs|)
    && NoneDifferIn(e.table, flows, segs, UpTo(waves, |waves|))
    && Ok(slots, e.limit) && Represents(e.table, slots, flows)
    && RunsAll(e, segs, waves, slots, runs)
  }

  lemma LastSlots(slots: seq<Slot>, runs: seq<Dispatched>, j: nat)
    requires j < |runs|
    ensures SlotsAfter(slots, runs[..j + 1]) == runs[j].st.slots
  {
  }

  /** What waves 0 to j-1 leave behind. */
  ghost predicate Followed(e: Engine, segs: Segments, order: seq<nat>, slots: seq<Slot>, flows: Cpu.Flows) {
    Indices(order, |segs|) && Ok(slots, e.limit) && Represents(e.table, slots, Play(e.table, flows, segs, order))
  }

  /** After j waves the table stands for the flows after their packets. */
  lemma {:induction false} TableFollows(e: Engine, keys: Keys, segs: Segments, waves: seq<seq<nat>>,
      slots: seq<Slot>, flows: Cpu.Flows, runs: seq<Dispatched>, j: nat)
    requires BatchRun(e, keys, segs, waves, slots, flows, runs) && j <= |waves|
    ensures Followed(e, segs, UpTo(waves, j), SlotsAfter(slots, runs[..j]), flows)
  {
    if j > 0 {
      TableFollows(e, keys, segs, waves, slots, flows, runs, j - 1);
      WaveFollows(e, keys, segs, waves, slots, flows, runs, j - 1);
      LastSlots(slots, runs, j - 1);
    }
  }

  lemma WaveFollows(e: Engine, keys: Keys, segs: Segments, waves: seq<seq<nat>>, slots: seq<Slot>, flows: Cpu.Flows,
      runs: seq<Dispatched>, j: nat)
    requires BatchRun(e, keys, segs, waves, slots, flows, runs) && j < |waves|
    requires Followed(e, segs, UpTo(waves, j), SlotsAfter(slots, runs[..j]), flows)
    ensures Followed(e, segs, UpTo(waves, j + 1), runs[j].st.slots, flows)
    ensures RepliesMatch(e.table, flows, segs, UpTo(waves, |waves|), |UpTo(waves, j)|, runs[j])
    ensures |runs[j].st.pcs| == |waves[j]|
  {
    assert WaveFits(keys, waves, j) && RunsAt(e, segs, waves, slots, runs, j);
    UpToIsPrefix(waves, j + 1);
    NextWaveTable(e, keys, segs, UpTo(waves, |waves|), UpTo(waves, j), waves[j], SlotsAfter(slots, runs[..j]),
      flows, runs[j]);
    NextWaveReplies(e, keys, segs, UpTo(waves, |waves|), UpTo(waves, j), waves[j],
      SlotsAfter(slots, runs[..j]), flows, runs[j]);
  }

  lemma WaveReplies(e: Engine, keys: Keys, segs: Segments, waves: seq<seq<nat>>, slots: seq<Slot>, flows: Cpu.Flows,
      runs: seq<Dispatched>, j: nat)
    requires BatchRun(e, keys, segs, waves, slots, flows, runs) && j < |waves|
    ensures RepliesMatch(e.table, flows, segs, UpTo(waves, |waves|), |UpTo(waves, j)|, runs[j])
    ensures |runs[j].st.pcs| == |waves[j]|
  {
    TableFollows(e, keys, segs, waves, slots, flows, runs, j);
    WaveFollows(e, keys, segs, waves, slots, flows, runs, j);
  }

  // ----- the theorem

  lemma NoRepeatsFromMultiset(order: seq<nat>, n: nat)
    requires multiset(order) == multiset(Range(n))
    ensures NoRepeats(order)
  {
    RangeHasNoRepeats(n);
    forall p, q | 0 <= p < q < |order| ensures order[p] != order[q] {
      OnceOnly(order, p, q);
      assert multiset(order)[order[p]] == multiset(Range(n))[order[p]] <= 1;
    }
  }

  lemma OnceOnly(order: seq<nat>, p: nat, q: nat)
    requires p < q < |order|
    ensures order[p] == order[q] ==> multiset(order)[order[p]] >= 2
  {
    assert order == order[..q] + order[q..];
    assert order[..q][p] == order[p] && order[q..][0] == order[q];
    assert order[p] in multiset(order[..q]) && order[q] in multiset(order[q..]);
  }

  lemma {:induction false} RangeHasNoRepeats(n: nat)
    ensures forall i :: multiset(Range(n))[i] <= 1 && (i in multiset(Range(n)) ==> i < n)
  {
    if n > 0 {
      RangeHasNoRepeats(n - 1);
      assert Range(n) == Range(n - 1) + [n - 1];
    }
  }

  /** The scheduler's waves, in the terms of a batch run. */
  lemma ScheduledWaves(packets: seq<RawPacket>, limits: Limits)
    requires MakesProgress(limits)
    ensures var b := Describe(packets); var waves := AllWaves(b, Range(|packets|), limits);
            && WavesFit(b.keys, waves)
            && Indices(UpTo(waves, |waves|), |packets|) && NoRepeats(UpTo(waves, |waves|))
            && UpTo(waves, |waves|) == Flatten(waves)
            && multiset(UpTo(waves, |waves|)) == multiset(Range(|packets|))
  {
    var b := Describe(packets);
    var waves := AllWaves(b, Range(|packets|), limits);
    WavesPartition(b, Range(|packets|), limits);
    UpToIsFlat(waves, |waves|);
    forall j | 0 <= j < |waves| ensures WaveFits(b.keys, waves, j) {
      assert GoodWave(b, waves[j], limits);
    }
    NoRepeatsFromMultiset(Flatten(waves), |packets|);
  }

  /** No packet of the batch differs in the arrival-order run. */
  predicate NoneDifferOnArrival(table: ResponseTable, flows: Cpu.Flows, segs: Segments) {
    NoneDifferIn(table, flows, segs, Range(|segs|))
  }

  lemma DiffersByFlowOrder(table: ResponseTable, flows: Cpu.Flows, keys: Keys, segs: Segments, order: seq<nat>)
    requires KeysAgree(keys, segs) && Indices(order, |segs|) && NoRepeats(order)
    requires forall k :: Sub(keys, order, k) == Sub(keys, Range(|segs|), k)
    requires NoneDifferOnArrival(table, flows, segs)
    ensures NoneDifferIn(table, flows, segs, order)
  {
    var all := Range(|segs|);
    forall p | 0 <= p < |order| ensures NoDifferenceAt(table, flows, segs, order, p) {
      assert NoDifferenceAt(table, flows, segs, all, order[p]);
      SameReply(table, flows, keys, segs, order, all, p, order[p]);
    }
  }

  lemma ReceivedAreShort(listenPort: u16, packets: seq<RawPacket>)
    ensures ShortPayloads(Cpu.ReceiveAll(listenPort, packets))
  {
  }

  /** Thread p of a dispatch carried packet i, and answered it as the arrival-order loop does. */
  ghost predicate RepliedAsArrived(table: ResponseTable, flows: Cpu.Flows, segs: Segments, run: Dispatched, p: nat,
      i: nat) {
    && p < |run.st.pcs| && run.st.pcs[p].Done? && i < |segs|
    && run.st.pcs[p].reply == ReplyIn(table, flows, segs, Range(|segs|), i)
  }

  ghost predicate ArrivedAs(e: Engine, segs: Segments, waves: seq<seq<nat>>, final: seq<Slot>, flows: Cpu.Flows,
      runs: seq<Dispatched>)
    requires |runs| == |waves|
  {
    && Ok(final, e.limit)
    && Represents(e.table, final, Play(e.table, flows, segs, Range(|segs|)))
    && forall j, p :: 0 <= j < |waves| && 0 <= p < |waves[j]| ==>
         RepliedAsArrived(e.table, flows, segs, runs[j], p, waves[j][p])
  }

  /** The scheduler's waves make a batch run whose order agrees with arrival within every flow. */
  lemma ScheduledRun(e: Engine, listenPort: u16, packets: seq<RawPacket>, limits: Limits, slots: seq<Slot>,
      flows: Cpu.Flows, runs: seq<Dispatched>)
    requires MakesProgress(limits) && Unclamped(limits)
    requires Ok(slots, e.limit) && Represents(e.table, slots, flows)
    requires NoneDifferOnArrival(e.table, flows, Cpu.ReceiveAll(listenPort, packets))
    requires RunsAll(e, Cpu.ReceiveAll(listenPort, packets),
             AllWaves(Describe(packets), Range(|packets|), limits), slots, runs)
    ensures var b, segs := Describe(packets), Cpu.ReceiveAll(listenPort, packets);
            var waves := AllWaves(b, Range(|packets|), limits); var order := UpTo(waves, |waves|);
            && BatchRun(e, b.keys, segs, waves, slots, flows, runs)
            && NoRepeats(order)
            && forall k :: Sub(b.keys, order, k) == Sub(b.keys, Range(|segs|), k)
  {
    var b, segs := Describe(packets), Cpu.ReceiveAll(listenPort, packets);
    var all := Range(|segs|);
    var waves := AllWaves(b, all, limits);
    var order := UpTo(waves, |waves|);
    ScheduledWaves(packets, limits);
    forall k ensures Sub(b.keys, order, k) == Sub(b.keys, all, k) {
      WavesKeepFlowOrder(b, all, limits, k);
    }
    ReceivedKeysAgree(listenPort, packets);
    DiffersByFlowOrder(e.table, flows, b.keys, segs, order);
    ReceivedAreShort(listenPort, packets);
  }

  /** The scheduler's waves, run in any interleaving, give every packet its arrival-order reply
      and leave the table standing for the arrival-order flows. */
  lemma WavesRunAsArrived(e: Engine, listenPort: u16, packets: seq<RawPacket>, limits: Limits, segs: Segments,
      waves: seq<seq<nat>>, slots: seq<Slot>, flows: Cpu.Flows, runs: seq<Dispatched>)
    requires MakesProgress(limits) && Unclamped(limits)
    requires segs == Cpu.ReceiveAll(listenPort, packets)
    requires waves == AllWaves(Describe(packets), Range(|packets|), limits)
    requires Ok(slots, e.limit) && Represents(e.table, slots, flows)
    requires NoneDifferOnArrival(e.table, flows, segs) && RunsAll(e, segs, waves, slots, runs)
    ensures ArrivedAs(e, segs, waves, SlotsAfter(slots, runs), flows, runs)
  {
    ScheduledRun(e, listenPort, packets, limits, slots, flows, runs);
    BatchRunAsArrived(e, Describe(packets).keys, segs, waves, slots, flows, runs);
  }

  lemma BatchRunAsArrived(e: Engine, keys: Keys, segs: Segments, waves: seq<seq<nat>>, slots: seq<Slot>,
      flows: Cpu.Flows, runs: seq<Dispatched>)
    requires BatchRun(e, keys, segs, waves, slots, flows, runs)
    requires NoRepeats(UpTo(waves, |waves|))
    requires forall k :: Sub(keys, UpTo(waves, |waves|), k) == Sub(keys, Range(|segs|), k)
    ensures ArrivedAs(e, segs, waves, SlotsAfter(slots, runs), flows, runs)
  {
    TableFollows(e, keys, segs, waves, slots, flows, runs, |waves|);
    assert runs[..|waves|] == runs;
    SameTable(e.table, flows, keys, segs, UpTo(waves, |waves|), Range(|segs|));
    forall j, p | 0 <= j < |waves| && 0 <= p < |waves[j]|
      ensures RepliedAsArrived(e.table, flows, segs, runs[j], p, waves[j][p])
    {
      OneReplyAsArrived(e, keys, segs, waves, slots, flows, runs, j, p);
    }
  }

  lemma OneReplyAsArrived(e: Engine, keys: Keys, segs: Segments, waves: seq<seq<nat>>, slots: seq<Slot>,
      flows: Cpu.Flows, runs: seq<Dispatched>, j: nat, p: nat)
    requires BatchRun(e, keys, segs, waves, slots, flows, runs) && j < |waves| && p < |waves[j]|
    requires NoRepeats(UpTo(waves, |waves|))
    requires forall k :: Sub(keys, UpTo(waves, |waves|), k) == Sub(keys, Range(|segs|), k)
    ensures RepliedAsArrived(e.table, flows, segs, runs[j], p, waves[j][p])
  {
    var order := UpTo(waves, |waves|);
    WaveReplies(e, keys, segs, waves, slots, flows, runs, j);
    PositionInOrder(waves, j, p);
    assert ReplyMatches(e.table, flows, segs, order, |UpTo(waves, j)|, runs[j], p);
    ReplyAsArrived(e.table, flows, keys, segs, order, |UpTo(waves, j)|, runs[j], p, waves[j][p]);
  }

  lemma PositionInOrder(waves: seq<seq<nat>>, j: nat, p: nat)
    requires j < |waves| && p < |waves[j]|
    ensures var q := |UpTo(waves, j)| + p; q < |UpTo(waves, |waves|)| && UpTo(waves, |waves|)[q] == waves[j][p]
  {
    UpToIsPrefix(waves, j + 1);
  }

  lemma ReplyAsArrived(table: ResponseTable, flows: Cpu.Flows, keys: Keys, segs: Segments, order: seq<nat>,
      start: nat, run: Dispatched, p: nat, i: nat)
    requires KeysAgree(keys, segs) && Indices(order, |segs|) && NoRepeats(order)
    requires forall k :: Sub(keys, order, k) == Sub(keys, Range(|segs|), k)
    requires ReplyMatches(table, flows, segs, order, start, run, p) && order[start + p] == i
    ensures i < |segs| && RepliedAsArrived(table, flows, segs, run, p, i)
  {
    SameReply(table, flows, keys, segs, order, Range(|segs|), start + p, i);
  }
}
