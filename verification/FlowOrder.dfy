/** The CPU engine's loop over a batch, and why only the order within each flow matters
    (src/packet/cpu.rs:82-84). */
module FlowOrder {
  import opened Bits
  import opened Collections
  import opened Wire
  import opened Responses
  import opened Scheduler
  import opened CpuEngine

  predicate KeysAgree(keys: Keys, segs: Segments) {
    |keys| == |segs| && forall i :: 0 <= i < |segs| && segs[i].Some? ==> keys[i] == Some(segs[i].value.key)
  }

  /** One packet, with no limit on the number of flows. */
  function PlayOne(table: ResponseTable, flows: Flows, seg: Option<Tcp>): (Flows, Option<Reply>) {
    match seg
    case None => (flows, None)
    case Some(t) =>
      var (v, reply) := FlowStep(table, Get(flows, t.key), t);
      (Put(flows, t.key, v), reply)
  }

  function Play(table: ResponseTable, flows: Flows, segs: Segments, order: seq<nat>): Flows
    requires Indices(order, |segs|)
  {
    if order == [] then flows
    else
      var n := |order| - 1;
      PlayOne(table, Play(table, flows, segs, order[..n]), segs[order[n]]).0
  }

  /** The reply to the p-th packet of the order. */
  function ReplyIn(table: ResponseTable, flows: Flows, segs: Segments, order: seq<nat>, p: nat): Option<Reply>
    requires Indices(order, |segs|) && p < |order|
  {
    PlayOne(table, Play(table, flows, segs, order[..p]), segs[order[p]]).1
  }

  function KeyPlayOne(table: ResponseTable, v: Option<Flow>, seg: Option<Tcp>, k: FlowKey): Option<Flow> {
    if seg.Some? && seg.value.key == k then FlowStep(table, v, seg.value).0 else v
  }

  /** One flow's share of the run. */
  function KeyPlay(table: ResponseTable, v: Option<Flow>, segs: Segments, order: seq<nat>, k: FlowKey): Option<Flow>
    requires Indices(order, |segs|)
  {
    if order == [] then v
    else
      var n := |order| - 1;
      KeyPlayOne(table, KeyPlay(table, v, segs, order[..n], k), segs[order[n]], k)
  }

  /** Flows do not interfere. */
  lemma {:induction false} PlayIsPerFlow(table: ResponseTable, flows: Flows, segs: Segments, order: seq<nat>,
      k: FlowKey)
    requires Indices(order, |segs|)
    ensures Get(Play(table, flows, segs, order), k) == KeyPlay(table, Get(flows, k), segs, order, k)
  {
    if order != [] {
      PlayIsPerFlow(table, flows, segs, order[..|order| - 1], k);
    }
  }

  lemma {:induction false} SubIndices(keys: Keys, order: seq<nat>, k: FlowKey)
    requires Indices(order, |keys|)
    ensures Indices(Sub(keys, order, k), |keys|)
    ensures forall i :: i in Sub(keys, order, k) <==> i in order && keys[i] == Some(k)
  {
    if order != [] {
      var n := |order| - 1;
      SubIndices(keys, order[..n], k);
      assert order == order[..n] + [order[n]];
    }
  }

  lemma KeyPlaySnoc(table: ResponseTable, v: Option<Flow>, segs: Segments, order: seq<nat>, i: nat, k: FlowKey)
    requires Indices(order, |segs|) && i < |segs|
    ensures KeyPlay(table, v, segs, order + [i], k) == KeyPlayOne(table, KeyPlay(table, v, segs, order, k),
            segs[i], k)
  {
    assert (order + [i])[..|order|] == order;
  }

  /** A flow's run depends only on its own packets, in their order. */
  lemma {:induction false} KeyPlayOfSub(table: ResponseTable, v: Option<Flow>, keys: Keys, segs: Segments,
      order: seq<nat>, k: FlowKey)
    requires KeysAgree(keys, segs) && Indices(order, |segs|)
    ensures Indices(Sub(keys, order, k), |segs|)
    ensures KeyPlay(table, v, segs, order, k) == KeyPlay(table, v, segs, Sub(keys, order, k), k)
  {
    SubIndices(keys, order, k);
    if order != [] {
      var n := |order| - 1;
      KeyPlayOfSub(table, v, keys, segs, order[..n], k);
      var sub := Sub(keys, order[..n], k);
      if keys[order[n]] == Some(k) {
        KeyPlaySnoc(table, v, segs, sub, order[n], k);
      } else {
        assert Sub(keys, order, k) == sub;
      }
    }
  }

  predicate NoRepeats(order: seq<nat>) {
    forall p, q :: 0 <= p < q < |order| ==> order[p] != order[q]
  }

  /** The packets of a flow that precede a given one are determined by the flow's order. */
  lemma SubBefore(keys: Keys, a: seq<nat>, b: seq<nat>, k: FlowKey, p: nat, q: nat)
    requires Indices(a, |keys|) && Indices(b, |keys|) && NoRepeats(a) && NoRepeats(b)
    requires p < |a| && q < |b| && a[p] == b[q] && keys[a[p]] == Some(k)
    requires Sub(keys, a, k) == Sub(keys, b, k)
    ensures Sub(keys, a[..p], k) == Sub(keys, b[..q], k)
  {
    SubAround(keys, a, k, p);
    SubAround(keys, b, k, q);
    SubIndices(keys, a[..p], k);
    SubIndices(keys, b[..q], k);
    var i := a[p];
    PrefixBefore(Sub(keys, a[..p], k), Sub(keys, a[p + 1..], k), Sub(keys, b[..q], k), Sub(keys, b[q + 1..], k), i);
  }

  lemma SubAround(keys: Keys, a: seq<nat>, k: FlowKey, p: nat)
    requires Indices(a, |keys|) && p < |a| && keys[a[p]] == Some(k)
    ensures Sub(keys, a, k) == Sub(keys, a[..p], k) + [a[p]] + Sub(keys, a[p + 1..], k)
  {
    var x, z := a[..p], a[p + 1..];
    assert a == (x + [a[p]]) + z;
    SubMiddle(keys, x, a[p], z, k);
  }

  lemma SubMiddle(keys: Keys, x: seq<nat>, i: nat, z: seq<nat>, k: FlowKey)
    requires Indices(x, |keys|) && Indices(z, |keys|) && i < |keys| && keys[i] == Some(k)
    ensures Indices((x + [i]) + z, |keys|)
    ensures Sub(keys, (x + [i]) + z, k) == Sub(keys, x, k) + [i] + Sub(keys, z, k)
  {
    SubSnoc(keys, x, i, k);
    SubConcat(keys, x + [i], z, k);
  }

  lemma PrefixBefore(x: seq<nat>, x': seq<nat>, y: seq<nat>, y': seq<nat>, i: nat)
    requires x + [i] + x' == y + [i] + y' && i !in x && i !in y
    ensures x == y
  {
    var s := x + [i] + x';
    assert s[|x|] == i && s[|y|] == i;
    assert forall j :: 0 <= j < |x| ==> s[j] == x[j];
    assert forall j :: 0 <= j < |y| ==> s[j] == y[j];
  }

  /** Two orders of the same packets that agree within every flow give the same table... */
  lemma SameTable(table: ResponseTable, flows: Flows, keys: Keys, segs: Segments, a: seq<nat>, b: seq<nat>)
    requires KeysAgree(keys, segs) && Indices(a, |segs|) && Indices(b, |segs|)
    requires forall k :: Sub(keys, a, k) == Sub(keys, b, k)
    ensures Play(table, flows, segs, a) == Play(table, flows, segs, b)
  {
    var x, y := Play(table, flows, segs, a), Play(table, flows, segs, b);
    forall k ensures Get(x, k) == Get(y, k) {
      PlayIsPerFlow(table, flows, segs, a, k);
      PlayIsPerFlow(table, flows, segs, b, k);
      KeyPlayOfSub(table, Get(flows, k), keys, segs, a, k);
      KeyPlayOfSub(table, Get(flows, k), keys, segs, b, k);
    }
    SameEntries(x, y);
  }

  lemma SameEntries(x: Flows, y: Flows)
    requires forall k :: Get(x, k) == Get(y, k)
    ensures x == y
  {
    assert forall k :: k in x <==> Get(x, k).Some?;
    assert forall k :: k in y <==> Get(y, k).Some?;
  }

  /** ... and the same state before, and reply to, each packet. */
  lemma SameReply(table: ResponseTable, flows: Flows, keys: Keys, segs: Segments, a: seq<nat>, b: seq<nat>, p: nat,
      q: nat)
    requires KeysAgree(keys, segs) && Indices(a, |segs|) && Indices(b, |segs|) && NoRepeats(a) && NoRepeats(b)
    requires forall k :: Sub(keys, a, k) == Sub(keys, b, k)
    requires p < |a| && q < |b| && a[p] == b[q]
    ensures ReplyIn(table, flows, segs, a, p) == ReplyIn(table, flows, segs, b, q)
    ensures segs[a[p]].Some? ==>
              Get(Play(table, flows, segs, a[..p]), segs[a[p]].value.key)
              == Get(Play(table, flows, segs, b[..q]), segs[a[p]].value.key)
  {
    if segs[a[p]].Some? {
      var k := segs[a[p]].value.key;
      SubBefore(keys, a, b, k, p, q);
      PlayIsPerFlow(table, flows, segs, a[..p], k);
      PlayIsPerFlow(table, flows, segs, b[..q], k);
      KeyPlayOfSub(table, Get(flows, k), keys, segs, a[..p], k);
      KeyPlayOfSub(table, Get(flows, k), keys, segs, b[..q], k);
    }
  }

  lemma {:induction false} PlayConcat(table: ResponseTable, flows: Flows, segs: Segments, a: seq<nat>, b: seq<nat>)
    requires Indices(a, |segs|) && Indices(b, |segs|)
    ensures Play(table, flows, segs, a + b) == Play(table, Play(table, flows, segs, a), segs, b)
  {
    if b == [] {
      assert a + b == a;
    } else {
      var n := |b| - 1;
      assert (a + b)[..|a| + n] == a + b[..n];
      PlayConcat(table, flows, segs, a, b[..n]);
    }
  }

  // ----- the engine's loop, with its capacity

  lemma ReceivedKeysAgree(listenPort: u16, packets: seq<RawPacket>)
    ensures KeysAgree(Describe(packets).keys, ReceiveAll(listenPort, packets))
  {
    var segs := ReceiveAll(listenPort, packets);
    forall i | 0 <= i < |segs| && segs[i].Some? ensures Describe(packets).keys[i] == Some(segs[i].value.key) {
      SchedulerSeesParsedKey(packets[i]);
    }
  }

  function SegmentKeys(segs: Segments): set<FlowKey> {
    set i | 0 <= i < |segs| && segs[i].Some? :: segs[i].value.key
  }

  /** While there is room for a packet's flow, the capacity does not show. */
  lemma RoomyStep(config: Config, flows: Flows, seg: Option<Tcp>, keys: set<FlowKey>)
    requires flows.Keys <= keys && |keys| <= config.flowCapacity
    requires seg.Some? ==> seg.value.key in keys
    ensures LoopOne(config, flows, seg) == PlayOne(config.table, flows, seg)
    ensures LoopOne(config, flows, seg).0.Keys <= keys
  {
    if seg.Some? && seg.value.key !in flows {
      RoomForOne(flows.Keys, keys, seg.value.key);
    }
  }

  lemma PlaySnoc(table: ResponseTable, flows: Flows, segs: Segments, n: nat)
    requires n < |segs|
    ensures Play(table, flows, segs, Range(n + 1)) == PlayOne(table, Play(table, flows, segs, Range(n)), segs[n]).0
  {
    assert Range(n + 1)[..n] == Range(n);
  }

  lemma {:induction false} RangePrefix(n: nat, m: nat)
    requires m <= n
    ensures Range(n)[..m] == Range(m)
  {
  }

  lemma LoopSnoc(config: Config, flows: Flows, segs: Segments, n: nat, keys: set<FlowKey>)
    requires n < |segs| && Loop(config, flows, segs, n).0.Keys <= keys && |keys| <= config.flowCapacity
    requires segs[n].Some? ==> segs[n].value.key in keys
    ensures Loop(config, flows, segs, n + 1).0 == PlayOne(config.table, Loop(config, flows, segs, n).0, segs[n]).0
    ensures Loop(config, flows, segs, n + 1).0.Keys <= keys
    ensures Loop(config, flows, segs, n + 1).1 ==
              Loop(config, flows, segs, n).1 + [PlayOne(config.table, Loop(config, flows, segs, n).0, segs[n]).1]
  {
    RoomyStep(config, Loop(config, flows, segs, n).0, segs[n], keys);
  }

  predicate FlowsWithin(segs: Segments, keys: set<FlowKey>) {
    forall i :: 0 <= i < |segs| && segs[i].Some? ==> segs[i].value.key in keys
  }

  lemma {:induction false} LoopTable(config: Config, flows: Flows, segs: Segments, n: nat, keys: set<FlowKey>)
    requires n <= |segs| && flows.Keys <= keys && FlowsWithin(segs, keys) && |keys| <= config.flowCapacity
    ensures Loop(config, flows, segs, n).0 == Play(config.table, flows, segs, Range(n))
    ensures Loop(config, flows, segs, n).0.Keys <= keys
  {
    if n > 0 {
      LoopTable(config, flows, segs, n - 1, keys);
      LoopSnoc(config, flows, segs, n - 1, keys);
      PlaySnoc(config.table, flows, segs, n - 1);
    }
  }

  /** The reply the unlimited run draws from packet i. */
  function PlayedReply(table: ResponseTable, flows: Flows, segs: Segments, i: nat): Option<Reply>
    requires i < |segs|
  {
    PlayOne(table, Play(table, flows, segs, Range(i)), segs[i]).1
  }

  lemma NewestReply(config: Config, flows: Flows, segs: Segments, n: nat, keys: set<FlowKey>)
    requires n < |segs| && flows.Keys <= keys && FlowsWithin(segs, keys) && |keys| <= config.flowCapacity
    ensures Loop(config, flows, segs, n + 1).1 ==
              Loop(config, flows, segs, n).1 + [PlayedReply(config.table, flows, segs, n)]
  {
    LoopTable(config, flows, segs, n, keys);
    LoopSnoc(config, flows, segs, n, keys);
  }

  lemma {:induction false} LoopReply(config: Config, flows: Flows, segs: Segments, n: nat, keys: set<FlowKey>, i: nat)
    requires i < n <= |segs| && flows.Keys <= keys && FlowsWithin(segs, keys) && |keys| <= config.flowCapacity
    ensures Loop(config, flows, segs, n).1[i] == PlayedReply(config.table, flows, segs, i)
    decreases n
  {
    NewestReply(config, flows, segs, n - 1, keys);
    if i < n - 1 {
      LoopReply(config, flows, segs, n - 1, keys, i);
    }
  }

  /** When the existing flows and the batch's flows fit, the capacity never shows: the loop is
      the unlimited run. */
  lemma LoopIsPlay(config: Config, flows: Flows, segs: Segments)
    requires |flows.Keys + SegmentKeys(segs)| <= config.flowCapacity
    ensures var (after, replies) := Loop(config, flows, segs, |segs|);
            && after == Play(config.table, flows, segs, Range(|segs|))
            && forall i :: 0 <= i < |segs| ==> replies[i] == ReplyIn(config.table, flows, segs, Range(|segs|), i)
  {
    var keys := flows.Keys + SegmentKeys(segs);
    LoopTable(config, flows, segs, |segs|, keys);
    forall i | 0 <= i < |segs|
      ensures Loop(config, flows, segs, |segs|).1[i] == ReplyIn(config.table, flows, segs, Range(|segs|), i)
    {
      LoopReply(config, flows, segs, |segs|, keys, i);
      RangePrefix(|segs|, i);
    }
  }
}
