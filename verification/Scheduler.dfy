/** Splitting a batch into waves with at most one packet per flow
    (src/packet/mod.rs:703-741 and 838-906). */
module Scheduler {
  import opened Bits
  import opened Collections
  import opened Wire
  import opened FlowSets

  /** INPUT_PACKET_WORDS: the words of the largest raw packet. */
  const INPUT_PACKET_WORDS: nat := 384

  datatype Limits = Limits(maxBatch: nat, maxWords: nat)

  function WordsFor(bytes: nat): nat {
    (bytes + 3) / 4
  }

  type RawPacket = b: seq<u8> | 1 <= |b| <= MAX_RAW_PACKET_BYTES witness [0]

  type Keys = seq<Option<FlowKey>>

  /** What the scheduler knows of a batch: each packet's flow, if any, and its size in words. */
  datatype Batch = Batch(keys: Keys, words: seq<nat>)

  predicate ValidBatch(b: Batch) {
    |b.keys| == |b.words| && forall i :: 0 <= i < |b.words| ==> 1 <= b.words[i] <= INPUT_PACKET_WORDS
  }

  function Describe(packets: seq<RawPacket>): (b: Batch)
    ensures ValidBatch(b) && |b.keys| == |packets|
  {
    Batch(seq(|packets|, i requires 0 <= i < |packets| => SchedulingFlowKey(packets[i])),
          seq(|packets|, i requires 0 <= i < |packets| => WordsFor(|packets[i]|)))
  }

  lemma DescribeAt(packets: seq<RawPacket>, i: nat)
    requires i < |packets|
    ensures Describe(packets).keys[i] == SchedulingFlowKey(packets[i])
    ensures Describe(packets).words[i] == WordsFor(|packets[i]|)
  {
  }

  datatype Wave = Wave(taken: seq<nat>, deferred: seq<nat>, seen: set<FlowKey>, words: nat)

  /** Why a packet of this flow and size has to wait. */
  predicate Refuses(w: Wave, key: Option<FlowKey>, words: nat, limits: Limits) {
    || |w.taken| == limits.maxBatch
    || w.words + words > limits.maxWords
    || (key.Some? && key.value in w.seen)
  }

  function Defer(w: Wave, i: nat): Wave {
    w.(deferred := w.deferred + [i])
  }

  function Accept(w: Wave, i: nat, key: Option<FlowKey>, words: nat): Wave {
    Wave(w.taken + [i], w.deferred, if key.Some? then w.seen + {key.value} else w.seen, w.words + words)
  }

  /** One more pending packet. */
  function Offer(b: Batch, w: Wave, i: nat, limits: Limits): Wave
    requires ValidBatch(b) && i < |b.keys|
  {
    if Postponed(b, w, i, limits) then Defer(w, i) else Take(b, w, i)
  }

  predicate Postponed(b: Batch, w: Wave, i: nat, limits: Limits)
    requires ValidBatch(b) && i < |b.keys|
  {
    Refuses(w, b.keys[i], b.words[i], limits)
  }

  function Take(b: Batch, w: Wave, i: nat): Wave
    requires ValidBatch(b) && i < |b.keys|
  {
    Accept(w, i, b.keys[i], b.words[i])
  }

  /** One wave from the pending packets, in order. */
  function Fill(b: Batch, pending: seq<nat>, limits: Limits): Wave
    requires ValidBatch(b) && Indices(pending, |b.keys|)
  {
    if pending == [] then Wave([], [], {}, 0)
    else
      var n := |pending| - 1;
      Offer(b, Fill(b, pending[..n], limits), pending[n], limits)
  }

  lemma FillSnoc(b: Batch, order: seq<nat>, i: nat, limits: Limits)
    requires ValidBatch(b) && Indices(order, |b.keys|) && i < |b.keys|
    ensures Fill(b, order + [i], limits) == Offer(b, Fill(b, order, limits), i, limits)
  {
    assert (order + [i])[..|order|] == order;
  }

  lemma FillStep(b: Batch, pending: seq<nat>, p: nat, limits: Limits)
    requires ValidBatch(b) && Indices(pending, |b.keys|) && p < |pending|
    ensures Fill(b, pending[..p + 1], limits) == Offer(b, Fill(b, pending[..p], limits), pending[p], limits)
  {
    assert pending[..p + 1][..p] == pending[..p];
  }

  // ----- what a wave is

  function TotalWords(b: Batch, order: seq<nat>): nat
    requires ValidBatch(b) && Indices(order, |b.keys|)
  {
    if order == [] then 0
    else TotalWords(b, order[..|order| - 1]) + b.words[order[|order| - 1]]
  }

  /** No two packets of the order belong to one flow. */
  predicate DistinctFlows(keys: Keys, order: seq<nat>)
    requires Indices(order, |keys|)
  {
    forall p, q :: 0 <= p < q < |order| && keys[order[p]].Some? ==> keys[order[p]] != keys[order[q]]
  }

  ghost predicate SeenAre(keys: Keys, order: seq<nat>, seen: set<FlowKey>)
    requires Indices(order, |keys|)
  {
    forall p :: 0 <= p < |order| && keys[order[p]].Some? ==> keys[order[p]].value in seen
  }

  ghost predicate WaveOk(b: Batch, w: Wave, limits: Limits)
    requires ValidBatch(b)
  {
    && Indices(w.taken, |b.keys|) && Indices(w.deferred, |b.keys|)
    && |w.taken| <= limits.maxBatch
    && TotalWords(b, w.taken) == w.words <= limits.maxWords
    && SeenAre(b.keys, w.taken, w.seen) && DistinctFlows(b.keys, w.taken)
  }

  lemma {:induction false} WaveStaysOk(b: Batch, pending: seq<nat>, limits: Limits)
    requires ValidBatch(b) && Indices(pending, |b.keys|)
    ensures WaveOk(b, Fill(b, pending, limits), limits)
  {
    if pending != [] {
      var n := |pending| - 1;
      WaveStaysOk(b, pending[..n], limits);
      var w, i := Fill(b, pending[..n], limits), pending[n];
      if Postponed(b, w, i, limits) {
        DeferKeepsWave(b, w, i, limits);
      } else {
        TakeKeepsWave(b, w, i, limits);
      }
    }
  }

  lemma {:induction false} WaveSplits(b: Batch, pending: seq<nat>, limits: Limits)
    requires ValidBatch(b) && Indices(pending, |b.keys|)
    ensures var w := Fill(b, pending, limits); multiset(w.taken) + multiset(w.deferred) == multiset(pending)
  {
    if pending != [] {
      var n := |pending| - 1;
      WaveSplits(b, pending[..n], limits);
      OfferAdds(b, Fill(b, pending[..n], limits), pending[n], limits);
      LastCounts(pending, n);
    }
  }

  lemma LastCounts(s: seq<nat>, n: nat)
    requires |s| == n + 1
    ensures multiset(s) == multiset(s[..n]) + multiset{s[n]}
  {
    assert s == s[..n] + [s[n]];
  }

  /** A wave keeps both limits, carries each flow at most once, and with the deferred packets
      makes up the pending ones. */
  lemma WaveWithinLimits(b: Batch, pending: seq<nat>, limits: Limits)
    requires ValidBatch(b) && Indices(pending, |b.keys|)
    ensures var w := Fill(b, pending, limits);
            WaveOk(b, w, limits) && multiset(w.taken) + multiset(w.deferred) == multiset(pending)
  {
    WaveStaysOk(b, pending, limits);
    WaveSplits(b, pending, limits);
  }

  lemma OfferAdds(b: Batch, w: Wave, i: nat, limits: Limits)
    requires ValidBatch(b) && i < |b.keys|
    ensures var w' := Offer(b, w, i, limits);
            multiset(w'.taken) + multiset(w'.deferred) == multiset(w.taken) + multiset(w.deferred) + multiset{i}
  {
  }

  lemma DeferKeepsWave(b: Batch, w: Wave, i: nat, limits: Limits)
    requires ValidBatch(b) && i < |b.keys| && WaveOk(b, w, limits)
    ensures WaveOk(b, Defer(w, i), limits)
  {
  }

  lemma TakeKeepsWave(b: Batch, w: Wave, i: nat, limits: Limits)
    requires ValidBatch(b) && i < |b.keys| && WaveOk(b, w, limits) && !Postponed(b, w, i, limits)
    ensures WaveOk(b, Take(b, w, i), limits)
  {
    assert (w.taken + [i])[..|w.taken|] == w.taken;
  }

  // ----- the order within a flow

  /** Packet i, if it belongs to the flow. */
  function OneOf(keys: Keys, i: nat, k: FlowKey): seq<nat>
    requires i < |keys|
  {
    if keys[i] == Some(k) then [i] else []
  }

  /** The packets of one flow, in the given order. */
  function Sub(keys: Keys, order: seq<nat>, k: FlowKey): seq<nat>
    requires Indices(order, |keys|)
  {
    if order == [] then []
    else
      var n := |order| - 1;
      Sub(keys, order[..n], k) + OneOf(keys, order[n], k)
  }

  lemma {:induction false} SubConcat(keys: Keys, a: seq<nat>, c: seq<nat>, k: FlowKey)
    requires Indices(a, |keys|) && Indices(c, |keys|)
    ensures Sub(keys, a + c, k) == Sub(keys, a, k) + Sub(keys, c, k)
  {
    if c == [] {
      assert a + c == a;
    } else {
      var n := |c| - 1;
      assert (a + c)[..|a| + n] == a + c[..n];
      SubConcat(keys, a, c[..n], k);
    }
  }

  lemma SubSnoc(keys: Keys, order: seq<nat>, i: nat, k: FlowKey)
    requires Indices(order, |keys|) && i < |keys|
    ensures Sub(keys, order + [i], k) == Sub(keys, order, k) + OneOf(keys, i, k)
  {
    assert (order + [i])[..|order|] == order;
  }

  /** The budget of words is never what defers a packet. */
  predicate Unclamped(limits: Limits) {
    limits.maxWords >= 384 * limits.maxBatch
  }

  /** The wave takes nothing more of this flow. */
  predicate ClosedTo(w: Wave, limits: Limits, k: FlowKey) {
    |w.taken| == limits.maxBatch || k in w.seen
  }

  /** A flow with a deferred packet can take no later packet into the same wave. */
  ghost predicate OrderInv(b: Batch, w: Wave, limits: Limits, k: FlowKey, offered: seq<nat>)
    requires ValidBatch(b)
  {
    && |w.taken| <= limits.maxBatch && w.words <= 384 * |w.taken|
    && FlowOrderKept(b.keys, w.taken, w.deferred, offered, k, ClosedTo(w, limits, k))
  }

  ghost predicate FlowOrderKept(keys: Keys, taken: seq<nat>, deferred: seq<nat>, offered: seq<nat>, k: FlowKey,
      closed: bool) {
    && Indices(taken, |keys|) && Indices(deferred, |keys|) && Indices(offered, |keys|)
    && Waits(keys, deferred, k, closed) && SplitsFlow(keys, taken, deferred, offered, k)
  }

  /** Only a closed wave defers packets of the flow. */
  ghost predicate Waits(keys: Keys, deferred: seq<nat>, k: FlowKey, closed: bool)
    requires Indices(deferred, |keys|)
  {
    Sub(keys, deferred, k) != [] ==> closed
  }

  lemma DeferWaits(keys: Keys, deferred: seq<nat>, i: nat, k: FlowKey, closed: bool)
    requires Indices(deferred, |keys|) && i < |keys| && Waits(keys, deferred, k, closed)
    requires keys[i] == Some(k) ==> closed
    ensures Waits(keys, deferred + [i], k, closed)
  {
    SubSnoc(keys, deferred, i, k);
  }

  /** The flow's packets are the taken ones followed by the deferred ones. */
  ghost predicate SplitsFlow(keys: Keys, taken: seq<nat>, deferred: seq<nat>, offered: seq<nat>, k: FlowKey)
    requires Indices(taken, |keys|) && Indices(deferred, |keys|) && Indices(offered, |keys|)
  {
    Sub(keys, taken, k) + Sub(keys, deferred, k) == Sub(keys, offered, k)
  }

  lemma JoinThree(r: seq<nat>, s: seq<nat>, t: seq<nat>)
    ensures r + (s + t) == (r + s) + t
  {
  }

  lemma DeferSplits(keys: Keys, taken: seq<nat>, deferred: seq<nat>, offered: seq<nat>, i: nat, k: FlowKey)
    requires Indices(taken, |keys|) && Indices(deferred, |keys|) && Indices(offered, |keys|) && i < |keys|
    requires SplitsFlow(keys, taken, deferred, offered, k)
    ensures SplitsFlow(keys, taken, deferred + [i], offered + [i], k)
  {
    SubSnoc(keys, offered, i, k);
    SubSnoc(keys, deferred, i, k);
    JoinThree(Sub(keys, taken, k), Sub(keys, deferred, k), OneOf(keys, i, k));
  }

  lemma TakeSplits(keys: Keys, taken: seq<nat>, deferred: seq<nat>, offered: seq<nat>, i: nat, k: FlowKey,
      closed: bool)
    requires Indices(taken, |keys|) && Indices(deferred, |keys|) && Indices(offered, |keys|) && i < |keys|
    requires SplitsFlow(keys, taken, deferred, offered, k)
    requires Waits(keys, deferred, k, closed) && (keys[i] == Some(k) ==> !closed)
    ensures SplitsFlow(keys, taken + [i], deferred, offered + [i], k)
  {
    SubSnoc(keys, offered, i, k);
    SubSnoc(keys, taken, i, k);
    NothingBetween(Sub(keys, taken, k), Sub(keys, deferred, k), OneOf(keys, i, k));
  }

  lemma NothingBetween(r: seq<nat>, s: seq<nat>, t: seq<nat>)
    requires s == [] || t == []
    ensures (r + t) + s == (r + s) + t
  {
  }

  lemma MoreClosed(keys: Keys, taken: seq<nat>, deferred: seq<nat>, offered: seq<nat>, k: FlowKey, closed: bool,
      closed': bool)
    requires FlowOrderKept(keys, taken, deferred, offered, k, closed) && (closed ==> closed')
    ensures FlowOrderKept(keys, taken, deferred, offered, k, closed')
  {
  }

  lemma TakeKept(keys: Keys, taken: seq<nat>, deferred: seq<nat>, offered: seq<nat>, i: nat, k: FlowKey,
      closed: bool)
    requires FlowOrderKept(keys, taken, deferred, offered, k, closed) && i < |keys|
    requires keys[i] == Some(k) ==> !closed
    ensures FlowOrderKept(keys, taken + [i], deferred, offered + [i], k, closed)
  {
    var taken', offered' := taken + [i], offered + [i];
    TakeSplits(keys, taken, deferred, offered, i, k, closed);
    assert SplitsFlow(keys, taken', deferred, offered', k);
  }

  lemma DeferKept(keys: Keys, taken: seq<nat>, deferred: seq<nat>, offered: seq<nat>, i: nat, k: FlowKey,
      closed: bool)
    requires FlowOrderKept(keys, taken, deferred, offered, k, closed) && i < |keys|
    requires keys[i] == Some(k) ==> closed
    ensures FlowOrderKept(keys, taken, deferred + [i], offered + [i], k, closed)
  {
    var deferred', offered' := deferred + [i], offered + [i];
    DeferSplits(keys, taken, deferred, offered, i, k);
    DeferWaits(keys, deferred, i, k, closed);
    assert SplitsFlow(keys, taken, deferred', offered', k);
  }

  lemma OfferKeepsOrder(b: Batch, w: Wave, i: nat, limits: Limits, k: FlowKey, offered: seq<nat>)
    requires ValidBatch(b) && i < |b.keys| && Unclamped(limits) && OrderInv(b, w, limits, k, offered)
    ensures OrderInv(b, Offer(b, w, i, limits), limits, k, offered + [i])
  {
    if Postponed(b, w, i, limits) {
      DeferKept(b.keys, w.taken, w.deferred, offered, i, k, ClosedTo(w, limits, k));
    } else {
      var w', closed := Take(b, w, i), ClosedTo(w, limits, k);
      TakeKept(b.keys, w.taken, w.deferred, offered, i, k, closed);
      MoreClosed(b.keys, w'.taken, w'.deferred, offered + [i], k, closed, ClosedTo(w', limits, k));
    }
  }

  lemma SplitLast(s: seq<nat>, n: nat)
    requires |s| == n + 1
    ensures s == s[..n] + [s[n]]
  {
  }

  lemma {:induction false} WaveKeepsFlowOrder(b: Batch, pending: seq<nat>, limits: Limits, k: FlowKey)
    requires ValidBatch(b) && Indices(pending, |b.keys|) && Unclamped(limits)
    ensures OrderInv(b, Fill(b, pending, limits), limits, k, pending)
  {
    if pending != [] {
      var n := |pending| - 1;
      WaveKeepsFlowOrder(b, pending[..n], limits, k);
      SplitLast(pending, n);
      OfferKeepsOrder(b, Fill(b, pending[..n], limits), pending[n], limits, k, pending[..n]);
    }
  }

  // ----- progress, and the whole batch

  predicate TooBig(b: Batch, i: nat, limits: Limits)
    requires ValidBatch(b)
  {
    i < |b.words| && b.words[i] > limits.maxWords
  }

  /** A wave is empty exactly when waves hold nothing, or no pending packet fits one. */
  lemma {:induction false} EmptyWaveExactly(b: Batch, pending: seq<nat>, limits: Limits)
    requires ValidBatch(b) && Indices(pending, |b.keys|)
    ensures var w := Fill(b, pending, limits);
            && (w.taken == [] <==>
                  limits.maxBatch == 0 || forall p :: 0 <= p < |pending| ==> TooBig(b, pending[p], limits))
            && (w.taken == [] ==> w.words == 0 && w.seen == {})
  {
    if pending != [] {
      EmptyWaveExactly(b, pending[..|pending| - 1], limits);
    }
  }

  /** Every packet fits an empty wave. */
  predicate MakesProgress(limits: Limits) {
    limits.maxBatch >= 1 && limits.maxWords >= INPUT_PACKET_WORDS
  }

  lemma DeferredShrinks(b: Batch, pending: seq<nat>, limits: Limits)
    requires ValidBatch(b) && Indices(pending, |b.keys|) && MakesProgress(limits) && pending != []
    ensures Indices(Fill(b, pending, limits).deferred, |b.keys|)
    ensures |Fill(b, pending, limits).deferred| < |pending|
  {
    WaveWithinLimits(b, pending, limits);
    EmptyWaveExactly(b, pending, limits);
    var w := Fill(b, pending, limits);
    assert !TooBig(b, pending[0], limits);
    assert |multiset(w.taken) + multiset(w.deferred)| == |multiset(pending)|;
  }

  /** The waves of a batch. */
  function AllWaves(b: Batch, pending: seq<nat>, limits: Limits): seq<seq<nat>>
    requires ValidBatch(b) && Indices(pending, |b.keys|) && MakesProgress(limits)
    decreases |pending|
  {
    if pending == [] then []
    else
      DeferredShrinks(b, pending, limits);
      var w := Fill(b, pending, limits);
      [w.taken] + AllWaves(b, w.deferred, limits)
  }

  predicate GoodWave(b: Batch, wave: seq<nat>, limits: Limits)
    requires ValidBatch(b)
  {
    && Indices(wave, |b.keys|) && DistinctFlows(b.keys, wave)
    && 0 < |wave| <= limits.maxBatch && TotalWords(b, wave) <= limits.maxWords
  }

  lemma FirstWaveIsGood(b: Batch, pending: seq<nat>, limits: Limits)
    requires ValidBatch(b) && Indices(pending, |b.keys|) && MakesProgress(limits) && pending != []
    ensures GoodWave(b, Fill(b, pending, limits).taken, limits)
    ensures var w := Fill(b, pending, limits); multiset(w.taken) + multiset(w.deferred) == multiset(pending)
  {
    WaveWithinLimits(b, pending, limits);
    EmptyWaveExactly(b, pending, limits);
    assert !TooBig(b, pending[0], limits);
  }

  /** Every packet is dispatched exactly once, in waves that respect the limits and carry each
      flow at most once. */
  lemma {:induction false} WavesPartition(b: Batch, pending: seq<nat>, limits: Limits)
    requires ValidBatch(b) && Indices(pending, |b.keys|) && MakesProgress(limits)
    ensures var waves := AllWaves(b, pending, limits);
            && multiset(Flatten(waves)) == multiset(pending)
            && Indices(Flatten(waves), |b.keys|)
            && forall j :: 0 <= j < |waves| ==> GoodWave(b, waves[j], limits)
    decreases |pending|
  {
    if pending != [] {
      DeferredShrinks(b, pending, limits);
      FirstWaveIsGood(b, pending, limits);
      WavesPartition(b, Fill(b, pending, limits).deferred, limits);
    }
  }

  /** With the budget unclamped, the waves keep the arrival order of every flow. */
  lemma {:induction false} WavesKeepFlowOrder(b: Batch, pending: seq<nat>, limits: Limits, k: FlowKey)
    requires ValidBatch(b) && Indices(pending, |b.keys|) && MakesProgress(limits) && Unclamped(limits)
    ensures Indices(Flatten(AllWaves(b, pending, limits)), |b.keys|)
    ensures Sub(b.keys, Flatten(AllWaves(b, pending, limits)), k) == Sub(b.keys, pending, k)
    decreases |pending|
  {
    if pending != [] {
      WaveKeepsFlowOrder(b, pending, limits, k);
      DeferredShrinks(b, pending, limits);
      var w := Fill(b, pending, limits);
      WavesKeepFlowOrder(b, w.deferred, limits, k);
      SubConcat(b.keys, w.taken, Flatten(AllWaves(b, w.deferred, limits)), k);
    }
  }

  // ----- waves are as full as they can be

  /** The wave has no room for the packet: it is full, its words do not allow it, or it carries the
      packet's flow already. */
  ghost predicate Blocked(b: Batch, taken: seq<nat>, limits: Limits, i: nat)
    requires ValidBatch(b)
  {
    && i < |b.keys| && Indices(taken, |b.keys|)
    && (|taken| == limits.maxBatch || TotalWords(b, taken) + b.words[i] > limits.maxWords
        || (b.keys[i].Some? && exists p :: 0 <= p < |taken| && b.keys[taken[p]] == b.keys[i]))
  }

  ghost predicate AllBlocked(b: Batch, taken: seq<nat>, deferred: seq<nat>, limits: Limits)
    requires ValidBatch(b)
  {
    forall q :: 0 <= q < |deferred| ==> Blocked(b, taken, limits, deferred[q])
  }

  /** Only flows of the taken packets count as seen. */
  ghost predicate SeenOnly(keys: Keys, taken: seq<nat>, seen: set<FlowKey>)
    requires Indices(taken, |keys|)
  {
    forall k :: k in seen ==> exists p :: 0 <= p < |taken| && keys[taken[p]] == Some(k)
  }

  lemma SeenOnlyMore(keys: Keys, taken: seq<nat>, seen: set<FlowKey>, i: nat)
    requires Indices(taken, |keys|) && i < |keys| && SeenOnly(keys, taken, seen)
    ensures SeenOnly(keys, taken + [i], if keys[i].Some? then seen + {keys[i].value} else seen)
  {
    var more, seen' := taken + [i], if keys[i].Some? then seen + {keys[i].value} else seen;
    forall k | k in seen' ensures exists p :: 0 <= p < |more| && keys[more[p]] == Some(k) {
      if k in seen {
        var p :| 0 <= p < |taken| && keys[taken[p]] == Some(k);
        assert more[p] == taken[p];
      } else {
        assert more[|taken|] == i;
      }
    }
  }

  lemma StillBlocked(b: Batch, taken: seq<nat>, limits: Limits, x: nat, i: nat)
    requires ValidBatch(b) && x < |b.keys| && |taken| < limits.maxBatch && Blocked(b, taken, limits, i)
    ensures Blocked(b, taken + [x], limits, i)
  {
    var more := taken + [x];
    assert more[..|taken|] == taken;
    if p :| 0 <= p < |taken| && b.keys[taken[p]] == b.keys[i] {
      assert more[p] == taken[p];
    }
  }

  lemma StillAllBlocked(b: Batch, taken: seq<nat>, deferred: seq<nat>, limits: Limits, x: nat)
    requires ValidBatch(b) && x < |b.keys| && |taken| < limits.maxBatch && AllBlocked(b, taken, deferred, limits)
    ensures AllBlocked(b, taken + [x], deferred, limits)
  {
    forall q | 0 <= q < |deferred| ensures Blocked(b, taken + [x], limits, deferred[q]) {
      StillBlocked(b, taken, limits, x, deferred[q]);
    }
  }

  lemma PostponedIsBlocked(b: Batch, w: Wave, i: nat, limits: Limits)
    requires ValidBatch(b) && i < |b.keys| && WaveOk(b, w, limits) && SeenOnly(b.keys, w.taken, w.seen)
    requires Postponed(b, w, i, limits)
    ensures Blocked(b, w.taken, limits, i)
  {
  }

  /** Every deferred packet has no room in its wave. */
  lemma {:induction false} DeferredAreBlocked(b: Batch, pending: seq<nat>, limits: Limits)
    requires ValidBatch(b) && Indices(pending, |b.keys|)
    ensures var w := Fill(b, pending, limits);
            && Indices(w.taken, |b.keys|) && SeenOnly(b.keys, w.taken, w.seen)
            && AllBlocked(b, w.taken, w.deferred, limits)
  {
    if pending != [] {
      var n := |pending| - 1;
      var w, i := Fill(b, pending[..n], limits), pending[n];
      DeferredAreBlocked(b, pending[..n], limits);
      WaveStaysOk(b, pending[..n], limits);
      if Postponed(b, w, i, limits) {
        PostponedIsBlocked(b, w, i, limits);
      } else {
        SeenOnlyMore(b.keys, w.taken, w.seen, i);
        StillAllBlocked(b, w.taken, w.deferred, limits, i);
      }
    }
  }

  lemma {:induction false} InWaveInFlat(waves: seq<seq<nat>>, k: nat, p: nat)
    requires k < |waves| && p < |waves[k]|
    ensures waves[k][p] in Flatten(waves)
  {
    if k > 0 {
      InWaveInFlat(waves[1..], k - 1, p);
    }
  }

  lemma LaterWasDeferred(b: Batch, pending: seq<nat>, limits: Limits, k: nat, p: nat)
    requires ValidBatch(b) && Indices(pending, |b.keys|) && MakesProgress(limits) && pending != []
    requires 0 < k < |AllWaves(b, pending, limits)| && p < |AllWaves(b, pending, limits)[k]|
    ensures AllWaves(b, pending, limits)[k][p] in Fill(b, pending, limits).deferred
  {
    DeferredShrinks(b, pending, limits);
    var deferred := Fill(b, pending, limits).deferred;
    var rest := AllWaves(b, deferred, limits);
    WavesPartition(b, deferred, limits);
    InWaveInFlat(rest, k - 1, p);
    assert rest[k - 1][p] in multiset(Flatten(rest));
  }

  /** No packet of a later wave would have fitted an earlier one. */
  lemma {:induction false} WavesAreFull(b: Batch, pending: seq<nat>, limits: Limits, j: nat, k: nat, p: nat)
    requires ValidBatch(b) && Indices(pending, |b.keys|) && MakesProgress(limits)
    requires var waves := AllWaves(b, pending, limits); j < k < |waves| && p < |waves[k]|
    ensures var waves := AllWaves(b, pending, limits); Blocked(b, waves[j], limits, waves[k][p])
    decreases |pending|
  {
    var w := Fill(b, pending, limits);
    DeferredShrinks(b, pending, limits);
    if j == 0 {
      DeferredAreBlocked(b, pending, limits);
      LaterWasDeferred(b, pending, limits, k, p);
      var i := AllWaves(b, pending, limits)[k][p];
      var q :| 0 <= q < |w.deferred| && w.deferred[q] == i;
      assert Blocked(b, w.taken, limits, w.deferred[q]);
    } else {
      WavesAreFull(b, w.deferred, limits, j - 1, k - 1, p);
    }
  }

  // ----- the loops

  /** The body both filling loops share: take the packet, or leave it for a later wave. */
  method OfferPacket(index: nat, key: Option<FlowKey>, packetWords: nat, limits: Limits, seen: FlowSet,
      wave: seq<nat>, deferred: seq<nat>, inputWords: nat)
    returns (wave': seq<nat>, deferred': seq<nat>, inputWords': nat)
    requires seen.Valid() && |seen.Contents()| < |seen.keys|
    modifies seen
    ensures seen.Valid() && |seen.keys| == old(|seen.keys|) && |seen.Contents()| <= old(|seen.Contents()|) + 1
    ensures var w := Wave(wave, deferred, old(seen.Contents()), inputWords);
            Wave(wave', deferred', seen.Contents(), inputWords') ==
            if Refuses(w, key, packetWords, limits) then Defer(w, index) else Accept(w, index, key, packetWords)
  {
    wave', deferred', inputWords' := wave, deferred, inputWords;
    if |wave| == limits.maxBatch || inputWords + packetWords > limits.maxWords {
      deferred' := deferred + [index];
      return;
    }
    if key.Some? {
      var isNew := seen.Insert(key.value);
      if !isNew {
        deferred' := deferred + [index];
        return;
      }
    }
    wave' := wave + [index];
    inputWords' := inputWords + packetWords;
  }

  /** The p-th pending packet, offered to the wave of those before it. */
  method OfferNext(index: nat, key: Option<FlowKey>, packetWords: nat, limits: Limits, seen: FlowSet, wave: seq<nat>,
      deferred: seq<nat>, inputWords: nat, ghost b: Batch, ghost pending: seq<nat>, ghost p: nat)
    returns (wave': seq<nat>, deferred': seq<nat>, inputWords': nat)
    requires ValidBatch(b) && Indices(pending, |b.keys|) && p < |pending| && pending[p] == index
    requires b.keys[index] == key && b.words[index] == packetWords
    requires seen.Valid() && |seen.Contents()| <= p < |seen.keys|
    requires Fill(b, pending[..p], limits) == Wave(wave, deferred, seen.Contents(), inputWords)
    modifies seen
    ensures seen.Valid() && |seen.keys| == old(|seen.keys|) && |seen.Contents()| <= p + 1
    ensures Fill(b, pending[..p + 1], limits) == Wave(wave', deferred', seen.Contents(), inputWords')
  {
    FillStep(b, pending, p, limits);
    wave', deferred', inputWords' := OfferPacket(index, key, packetWords, limits, seen, wave, deferred, inputWords);
  }

  method FillNextWave(packets: seq<RawPacket>, keys: Keys, pending: seq<nat>, limits: Limits, seen: FlowSet)
    returns (wave: seq<nat>, deferred: seq<nat>)
    requires keys == Describe(packets).keys && Indices(pending, |packets|) && seen.Valid()
    modifies seen
    ensures seen.Valid()
    ensures var w := Fill(Describe(packets), pending, limits); wave == w.taken && deferred == w.deferred
  {
    ghost var b := Describe(packets);
    seen.Begin(|pending|);
    wave, deferred := [], [];
    var inputWords: nat := 0;
    var p := 0;
    while p < |pending|
      invariant 0 <= p <= |pending|
      invariant seen.Valid() && |seen.keys| >= 2 * |pending| && |seen.Contents()| <= p
      invariant Fill(b, pending[..p], limits) == Wave(wave, deferred, seen.Contents(), inputWords)
    {
      var index := pending[p];
      var packetWords := WordsFor(|packets[index]|);
      DescribeAt(packets, index);
      wave, deferred, inputWords := OfferNext(index, keys[index], packetWords, limits, seen, wave, deferred,
        inputWords, b, pending, p);
      p := p + 1;
    }
    assert pending[..p] == pending;
  }

  lemma FirstKeys(keys: Keys, n: nat)
    requires n < |keys|
    ensures keys[..n + 1] == keys[..n] + [keys[n]]
  {
  }

  method FillInitialWave(packets: seq<RawPacket>, limits: Limits, seen: FlowSet)
    returns (keys: Keys, wave: seq<nat>, deferred: seq<nat>)
    requires seen.Valid()
    modifies seen
    ensures seen.Valid() && keys == Describe(packets).keys
    ensures var w := Fill(Describe(packets), Range(|packets|), limits); wave == w.taken && deferred == w.deferred
  {
    ghost var b := Describe(packets);
    ghost var all := Range(|packets|);
    seen.Begin(|packets|);
    keys, wave, deferred := [], [], [];
    var inputWords: nat := 0;
    var index := 0;
    while index < |packets|
      invariant 0 <= index <= |packets|
      invariant keys == b.keys[..index]
      invariant seen.Valid() && |seen.keys| >= 2 * |packets| && |seen.Contents()| <= index
      invariant Fill(b, all[..index], limits) == Wave(wave, deferred, seen.Contents(), inputWords)
    {
      var key := SchedulingFlowKey(packets[index]);
      keys := keys + [key];
      FirstKeys(b.keys, index);
      var packetWords := WordsFor(|packets[index]|);
      DescribeAt(packets, index);
      wave, deferred, inputWords := OfferNext(index, key, packetWords, limits, seen, wave, deferred, inputWords,
        b, all, index);
      index := index + 1;
    }
    assert all[..index] == all;
  }

  /** The waves dispatched so far, followed by those of the packets still pending, are the batch's. */
  ghost predicate Dispatching(b: Batch, all: seq<nat>, limits: Limits, waves: seq<seq<nat>>, pending: seq<nat>) {
    && ValidBatch(b) && MakesProgress(limits)
    && Indices(all, |b.keys|) && Indices(pending, |b.keys|)
    && waves + AllWaves(b, pending, limits) == AllWaves(b, all, limits)
  }

  lemma NextWave(b: Batch, all: seq<nat>, limits: Limits, waves: seq<seq<nat>>, pending: seq<nat>, wave: seq<nat>,
      deferred: seq<nat>)
    requires Dispatching(b, all, limits, waves, pending) && pending != []
    requires var w := Fill(b, pending, limits); wave == w.taken && deferred == w.deferred
    ensures Dispatching(b, all, limits, waves + [wave], deferred) && |deferred| < |pending|
  {
    DeferredShrinks(b, pending, limits);
    Reassociate(waves, wave, AllWaves(b, deferred, limits));
  }

  lemma Reassociate(waves: seq<seq<nat>>, wave: seq<nat>, rest: seq<seq<nat>>)
    ensures waves + ([wave] + rest) == (waves + [wave]) + rest
  {
  }

  lemma AllDispatched(b: Batch, all: seq<nat>, limits: Limits, waves: seq<seq<nat>>)
    requires Dispatching(b, all, limits, waves, [])
    ensures waves == AllWaves(b, all, limits)
  {
    assert waves + [] == waves;
  }

  /** The wave loop, recording the waves it dispatches. */
  method ProcessBatch(packets: seq<RawPacket>, limits: Limits, seen: FlowSet) returns (waves: seq<seq<nat>>)
    requires MakesProgress(limits) && seen.Valid()
    modifies seen
    ensures seen.Valid()
    ensures waves == AllWaves(Describe(packets), Range(|packets|), limits)
  {
    if packets == [] {
      return [];
    }
    ghost var b := Describe(packets);
    ghost var all := Range(|packets|);
    var keys, wave, deferred := FillInitialWave(packets, limits, seen);
    waves := [];
    ghost var last := all;
    while true
      invariant seen.Valid() && last != [] && Dispatching(b, all, limits, waves, last)
      invariant wave == Fill(b, last, limits).taken && deferred == Fill(b, last, limits).deferred
      decreases |last|
    {
      NextWave(b, all, limits, waves, last, wave, deferred);
      waves := waves + [wave];
      var pending := deferred;
      if pending == [] {
        AllDispatched(b, all, limits, waves);
        break;
      }
      last := pending;
      wave, deferred := FillNextWave(packets, keys, pending, limits, seen);
    }
  }
}
