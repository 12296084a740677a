/** The scheduler keeps the order of every flow of every batch exactly when its budget of
    words is unclamped (src/packet/mod.rs:356-362 and 858-861). */
module WaveBudget {
  import opened Bits
  import opened Collections
  import opened Wire
  import opened WireTheorems
  import opened Responses
  import opened Scheduler
  import opened FlowOrder
  import Cpu = CpuEngine

  ghost predicate OrderKept(packets: seq<RawPacket>, limits: Limits)
    requires MakesProgress(limits)
  {
    var b := Describe(packets);
    var order := Flatten(AllWaves(b, Range(|packets|), limits));
    Indices(order, |packets|) && forall k :: Sub(b.keys, order, k) == Sub(b.keys, Range(|packets|), k)
  }

  function Zeros(n: nat): (z: seq<u8>)
    ensures |z| == n && forall i :: 0 <= i < n ==> z[i] == 0
  {
    seq(n, i => 0)
  }

  /** A packet of some words that belongs to no flow. */
  function Filler(words: nat): (p: RawPacket)
    requires 1 <= words <= 384
    ensures |p| == 4 * words
  {
    Zeros(4 * words)
  }

  /** A client's flow to the listening port. */
  function ClientKey(port: u16): FlowKey {
    FlowKey(1, 2, 3, port)
  }

  /** Two data segments of that flow, one after the other: the first fills the largest packet. */
  function FirstData(port: u16): Tcp {
    Tcp(ClientKey(port), 0, 0, 0, Zeros(1496))
  }

  function SecondData(port: u16): Tcp {
    Tcp(ClientKey(port), 1496, 0, 0, Zeros(1))
  }

  function DataPacket(t: Tcp): (p: RawPacket)
    requires Fits(t)
    ensures |p| == 40 + |t.payload|
  {
    PacketBytes(t)
  }

  lemma PacketFlows(words: nat, port: u16)
    requires 1 <= words <= 384
    ensures SchedulingFlowKey(Filler(words)) == None && Cpu.Receive(port, Filler(words)) == None
    ensures SchedulingFlowKey(DataPacket(FirstData(port))) == Some(ClientKey(port))
    ensures SchedulingFlowKey(DataPacket(SecondData(port))) == Some(ClientKey(port))
    ensures Cpu.Receive(port, DataPacket(FirstData(port))) == Some(FirstData(port))
    ensures Cpu.Receive(port, DataPacket(SecondData(port))) == Some(SecondData(port))
  {
    BuildParses(FirstData(port));
    BuildParses(SecondData(port));
  }

  function FillerRange(full: nat, extra: nat): nat {
    if extra == 0 then full else full + 1
  }

  /** Fillers, a packet that no longer fits, and a shorter later packet of the same flow. */
  function Overtaking(full: nat, extra: nat, port: u16): (packets: seq<RawPacket>)
    requires extra < 384
    ensures |packets| == FillerRange(full, extra) + 2
  {
    Fillers(full, extra) + [DataPacket(FirstData(port)), DataPacket(SecondData(port))]
  }

  function Fillers(full: nat, extra: nat): (packets: seq<RawPacket>)
    requires extra < 384
    ensures |packets| == FillerRange(full, extra)
  {
    if extra == 0 then seq(full, i => Filler(384)) else seq(full, i => Filler(384)) + [Filler(extra)]
  }

  predicate FillerAt(b: Batch, full: nat, extra: nat, i: nat)
    requires ValidBatch(b) && i < |b.keys|
  {
    b.keys[i] == None && b.words[i] == if i < full then 384 else extra
  }

  /** What the scheduler sees of such a batch when the fillers leave 383 words of the budget. */
  ghost predicate Shape(b: Batch, full: nat, extra: nat, limits: Limits, key: FlowKey) {
    var n := FillerRange(full, extra);
    && extra < 384 && 384 * full + extra + 383 == limits.maxWords && n < limits.maxBatch
    && ValidBatch(b) && |b.keys| == n + 2
    && (forall i :: 0 <= i < n ==> FillerAt(b, full, extra, i))
    && b.keys[n] == Some(key) && b.words[n] == 384
    && b.keys[n + 1] == Some(key) && b.words[n + 1] == 11
  }

  lemma FillerIsAt(full: nat, extra: nat, port: u16, i: nat)
    requires extra < 384 && i < FillerRange(full, extra)
    ensures FillerAt(Describe(Overtaking(full, extra, port)), full, extra, i)
    ensures Cpu.Receive(port, Overtaking(full, extra, port)[i]) == None
  {
    var words := if i < full then 384 else extra;
    assert Fillers(full, extra)[i] == Filler(words);
    PacketFlows(words, port);
    DescribeAt(Overtaking(full, extra, port), i);
  }

  lemma DataAreAt(full: nat, extra: nat, port: u16)
    requires extra < 384
    ensures var b := Describe(Overtaking(full, extra, port)); var n := FillerRange(full, extra);
            && b.keys[n] == Some(ClientKey(port)) && b.words[n] == 384
            && b.keys[n + 1] == Some(ClientKey(port)) && b.words[n + 1] == 11
  {
    PacketFlows(384, port);
    DescribeAt(Overtaking(full, extra, port), FillerRange(full, extra));
    DescribeAt(Overtaking(full, extra, port), FillerRange(full, extra) + 1);
  }

  lemma OvertakingHasShape(full: nat, extra: nat, limits: Limits, port: u16)
    requires extra < 384 && 384 * full + extra + 383 == limits.maxWords && FillerRange(full, extra) < limits.maxBatch
    ensures Shape(Describe(Overtaking(full, extra, port)), full, extra, limits, ClientKey(port))
  {
    DataAreAt(full, extra, port);
    forall i | 0 <= i < FillerRange(full, extra)
      ensures FillerAt(Describe(Overtaking(full, extra, port)), full, extra, i)
    {
      FillerIsAt(full, extra, port, i);
    }
  }

  function FillerWords(full: nat, extra: nat, p: nat): nat {
    if p <= full then 384 * p else 384 * full + extra
  }

  lemma TakeFiller(b: Batch, full: nat, extra: nat, limits: Limits, key: FlowKey, taken: seq<nat>, p: nat)
    requires Shape(b, full, extra, limits, key) && p < FillerRange(full, extra) && |taken| == p
    ensures Offer(b, Wave(taken, [], {}, FillerWords(full, extra, p)), p, limits) ==
              Wave(taken + [p], [], {}, FillerWords(full, extra, p + 1))
  {
    assert FillerAt(b, full, extra, p);
    assert FillerWords(full, extra, p) + b.words[p] == FillerWords(full, extra, p + 1) <= limits.maxWords;
  }

  /** The fillers are all taken. */
  lemma {:induction false} FillersTaken(b: Batch, full: nat, extra: nat, limits: Limits, key: FlowKey, p: nat)
    requires Shape(b, full, extra, limits, key) && p <= FillerRange(full, extra)
    ensures Fill(b, Range(p), limits) == Wave(Range(p), [], {}, FillerWords(full, extra, p))
  {
    if p > 0 {
      FillersTaken(b, full, extra, limits, key, p - 1);
      FillSnoc(b, Range(p - 1), p - 1, limits);
      TakeFiller(b, full, extra, limits, key, Range(p - 1), p - 1);
    }
  }

  lemma BigWaitsSmallPasses(b: Batch, full: nat, extra: nat, limits: Limits, key: FlowKey, w: Wave)
    requires Shape(b, full, extra, limits, key)
    requires var n := FillerRange(full, extra);
             |w.taken| == n && w.deferred == [] && w.seen == {} && w.words == 384 * full + extra
    ensures var n := FillerRange(full, extra);
            && Offer(b, w, n, limits) == Defer(w, n)
            && Offer(b, Defer(w, n), n + 1, limits).taken == w.taken + [n + 1]
            && Offer(b, Defer(w, n), n + 1, limits).deferred == [n]
  {
  }

  lemma RangeEnd(n: nat)
    ensures Range(n + 2) == (Range(n) + [n]) + [n + 1]
  {
  }

  lemma TwoMore(b: Batch, s: seq<nat>, i: nat, j: nat, limits: Limits, w: Wave)
    requires ValidBatch(b) && Indices(s, |b.keys|) && i < |b.keys| && j < |b.keys|
    requires Fill(b, s, limits) == w
    ensures Fill(b, (s + [i]) + [j], limits) == Offer(b, Offer(b, w, i, limits), j, limits)
  {
    FillSnoc(b, s, i, limits);
    FillSnoc(b, s + [i], j, limits);
  }

  lemma FirstWaveOvertakes(b: Batch, full: nat, extra: nat, limits: Limits, key: FlowKey)
    requires Shape(b, full, extra, limits, key)
    ensures var n := FillerRange(full, extra); var all := Range(|b.keys|);
            var w := Fill(b, all, limits); w.taken == Range(n) + [n + 1] && w.deferred == [n]
  {
    var n := FillerRange(full, extra);
    var all := Range(|b.keys|);
    var s := Range(n);
    FillersTaken(b, full, extra, limits, key, n);
    var w := Wave(s, [], {}, 384 * full + extra);
    BigWaitsSmallPasses(b, full, extra, limits, key, w);
    TwoMore(b, s, n, n + 1, limits, w);
    RangeEnd(n);
  }

  lemma {:induction false} NoKeysNoSub(keys: Keys, order: seq<nat>, k: FlowKey)
    requires Indices(order, |keys|) && forall p :: 0 <= p < |order| ==> keys[order[p]] == None
    ensures Sub(keys, order, k) == []
  {
    if order != [] {
      NoKeysNoSub(keys, order[..|order| - 1], k);
    }
  }

  lemma SubOfTwo(keys: Keys, s: seq<nat>, i: nat, j: nat, k: FlowKey)
    requires Indices(s, |keys|) && i < |keys| && j < |keys|
    requires Sub(keys, s, k) == [] && keys[i] == Some(k) && keys[j] == Some(k)
    ensures Sub(keys, s + [j], k) == [j] && Sub(keys, (s + [i]) + [j], k) == [i, j]
  {
    SubOfOne(keys, s, i, k);
    SubOfOne(keys, s, j, k);
    SubSnoc(keys, s + [i], j, k);
  }

  lemma SubOfOne(keys: Keys, s: seq<nat>, i: nat, k: FlowKey)
    requires Indices(s, |keys|) && i < |keys| && Sub(keys, s, k) == [] && keys[i] == Some(k)
    ensures Sub(keys, s + [i], k) == [i]
  {
    SubSnoc(keys, s, i, k);
  }

  lemma ShapeSubs(b: Batch, full: nat, extra: nat, limits: Limits, key: FlowKey)
    requires Shape(b, full, extra, limits, key)
    ensures var n := FillerRange(full, extra); var all := Range(|b.keys|);
            && Sub(b.keys, Range(n) + [n + 1], key) == [n + 1]
            && Sub(b.keys, all, key) == [n, n + 1]
  {
    var n := FillerRange(full, extra);
    var all := Range(|b.keys|);
    forall p | 0 <= p < n ensures b.keys[Range(n)[p]] == None {
      assert FillerAt(b, full, extra, p);
    }
    NoKeysNoSub(b.keys, Range(n), key);
    RangeEnd(n);
    SubOfTwo(b.keys, Range(n), n, n + 1, key);
  }

  lemma ShapeReorders(b: Batch, full: nat, extra: nat, limits: Limits, key: FlowKey)
    requires MakesProgress(limits) && Shape(b, full, extra, limits, key)
    ensures var all := Range(|b.keys|); var order := Flatten(AllWaves(b, all, limits));
            Indices(order, |b.keys|) && Sub(b.keys, order, key) != Sub(b.keys, all, key)
  {
    ShapeSubs(b, full, extra, limits, key);
    FirstWaveOvertakes(b, full, extra, limits, key);
    FirstWaveFirst(b, Range(|b.keys|), limits, key);
  }

  /** What the first wave carries of a flow comes first. */
  lemma FirstWaveFirst(b: Batch, all: seq<nat>, limits: Limits, k: FlowKey)
    requires ValidBatch(b) && Indices(all, |b.keys|) && MakesProgress(limits) && all != []
    ensures var order := Flatten(AllWaves(b, all, limits)); var taken := Fill(b, all, limits).taken;
            Indices(order, |b.keys|) && Indices(taken, |b.keys|) && Sub(b.keys, taken, k) <= Sub(b.keys, order, k)
  {
    WavesPartition(b, all, limits);
    WaveWithinLimits(b, all, limits);
    DeferredShrinks(b, all, limits);
    var w := Fill(b, all, limits);
    WavesPartition(b, w.deferred, limits);
    SubConcat(b.keys, w.taken, Flatten(AllWaves(b, w.deferred, limits)), k);
  }

  // ----- the reordering shows in a reply

  /** An established flow that has sent nothing and expects the first of the two segments. */
  function OpenFlow(next: u32): Cpu.Flow {
    Cpu.Flow(Cpu.Established, 0, next, next, None)
  }

  /** The number after the one the server opens the client's flow with. */
  function ServerNext(port: u16): u32 {
    Add32(ServerIsn(ClientKey(port)), 1)
  }

  /** The engine's table once the client has connected with the number 0xffff_ffff. */
  function ClientFlows(port: u16): Cpu.Flows {
    map[ClientKey(port) := OpenFlow(ServerNext(port))]
  }

  /** The client's side of that handshake. */
  function OpeningSyn(port: u16): Tcp {
    Tcp(ClientKey(port), 0xffff_ffff, 0, TCP_SYN, [])
  }

  function OpeningAck(port: u16): Tcp {
    Tcp(ClientKey(port), 0, ServerNext(port), TCP_ACK, [])
  }

  lemma SynOpens(table: ResponseTable, key: FlowKey, syn: Tcp)
    requires syn.key == key && syn.flags == TCP_SYN && syn.seqno == 0xffff_ffff
    ensures Cpu.FlowStep(table, None, syn).0
            == Some(Cpu.Flow(Cpu.SynReceived, 0, Add32(ServerIsn(key), 1), ServerIsn(key), None))
    ensures !HasFlag(syn.flags, TCP_RST) && BareSyn(syn.flags)
  {
    assert 2 / 2 % 2 == 1 && 2 / 4 % 2 == 0 && 2 / 16 % 2 == 0;
  }

  lemma AckEstablishes(table: ResponseTable, ack: Tcp, isn: u32, next: u32)
    requires ack.flags == TCP_ACK && ack.seqno == 0 && ack.ack == next && ack.payload == []
    ensures Cpu.FlowStep(table, Some(Cpu.Flow(Cpu.SynReceived, 0, next, isn, None)), ack).0 == Some(OpenFlow(next))
    ensures !BareSyn(ack.flags)
  {
    assert 16 / 1 % 2 == 0 && 16 / 2 % 2 == 0 && 16 / 4 % 2 == 0 && 16 / 16 % 2 == 1;
  }

  lemma BothReceived(port: u16, first: Tcp, second: Tcp)
    requires Fits(first) && Fits(second) && first.key.dstPort == port && second.key.dstPort == port
    ensures Cpu.ReceiveAll(port, [DataPacket(first), DataPacket(second)]) == [Some(first), Some(second)]
  {
    BuildParses(first);
    BuildParses(second);
  }

  /** That table is one the engine reaches: the handshake leads to it from the empty table. */
  lemma HandshakeOpens(config: Cpu.Config)
    requires config.flowCapacity >= 1
    ensures var port := config.listenPort;
            var packets := [DataPacket(OpeningSyn(port)), DataPacket(OpeningAck(port))];
            Cpu.Loop(config, map[], Cpu.ReceiveAll(port, packets), 2).0 == ClientFlows(port)
  {
    var port := config.listenPort;
    var key, syn, ack := ClientKey(port), OpeningSyn(port), OpeningAck(port);
    BothReceived(port, syn, ack);
    SynOpens(config.table, key, syn);
    AckEstablishes(config.table, ack, ServerIsn(key), ServerNext(port));
    TwoSegments(config, [Some(syn), Some(ack)], syn, ack);
  }

  /** The loop over two segments of one flow, from the empty table. */
  lemma TwoSegments(config: Cpu.Config, segs: Cpu.Segments, first: Tcp, second: Tcp)
    requires config.flowCapacity >= 1 && segs == [Some(first), Some(second)] && second.key == first.key
    requires !HasFlag(first.flags, TCP_RST) && BareSyn(first.flags) && !BareSyn(second.flags)
    requires Cpu.FlowStep(config.table, None, first).0.Some?
    requires Cpu.FlowStep(config.table, Cpu.FlowStep(config.table, None, first).0, second).0.Some?
    ensures Cpu.Loop(config, map[], segs, 2).0
            == map[first.key := Cpu.FlowStep(config.table, Cpu.FlowStep(config.table, None, first).0, second).0.value]
  {
    var none: Cpu.Flows := map[];
    var v := Cpu.FlowStep(config.table, None, first).0;
    assert Cpu.Loop(config, none, segs, 1).0 == Cpu.LoopOne(config, none, segs[0]).0 == none[first.key := v.value];
    assert Cpu.Loop(config, none, segs, 2).0 == Cpu.LoopOne(config, none[first.key := v.value], segs[1]).0;
  }

  lemma {:induction false} FillersChangeNothing(table: ResponseTable, flows: Cpu.Flows, segs: Cpu.Segments, n: nat)
    requires n <= |segs| && forall i :: 0 <= i < n ==> segs[i] == None
    ensures Play(table, flows, segs, Range(n)) == flows
  {
    if n > 0 {
      FillersChangeNothing(table, flows, segs, n - 1);
      PlaySnoc(table, flows, segs, n - 1);
    }
  }

  lemma NoFlags(t: Tcp)
    requires t.flags == 0
    ensures !HasFlag(t.flags, TCP_FIN) && !HasFlag(t.flags, TCP_SYN) && !HasFlag(t.flags, TCP_RST)
    ensures !HasFlag(t.flags, TCP_ACK)
  {
    assert 0 / 1 % 2 == 0 && 0 / 2 % 2 == 0 && 0 / 4 % 2 == 0 && 0 / 16 % 2 == 0;
  }

  /** A later segment is only acknowledged; once the first has come, it is answered. */
  lemma OrderShows(table: ResponseTable, next: u32, first: Tcp, second: Tcp)
    requires first.flags == 0 && first.seqno == 0 && |first.payload| == 1496
    requires second.flags == 0 && second.seqno == 1496 && |second.payload| == 1
    ensures var f := OpenFlow(next); var g := Cpu.FlowStep(table, Some(f), first).0;
            && Cpu.FlowStep(table, Some(f), second).1 == Some(Reply(next, 0, TCP_ACK, None))
            && var late := Cpu.FlowStep(table, g, second).1; late.Some? && late.value.response.Some?
  {
    NoFlags(first);
    NoFlags(second);
    var f := OpenFlow(next);
    assert Cpu.FlowStep(table, Some(f), first).0 == Some(Cpu.DataStep(table, f, first));
    assert Cpu.DataStep(table, f, first).recvNext == 1496;
  }

  /** After the fillers, the second segment alone is out of order; after the first it is answered. */
  lemma OvertakingShows(table: ResponseTable, port: u16, segs: Cpu.Segments, n: nat, order: seq<nat>)
    requires |segs| == n + 2 && segs[n] == Some(FirstData(port)) && segs[n + 1] == Some(SecondData(port))
    requires forall i :: 0 <= i < n ==> segs[i] == None
    requires Indices(order, |segs|) && n < |order| && order[..n] == Range(n) && order[n] == n + 1
    ensures var early := ReplyIn(table, ClientFlows(port), segs, order, n);
            var late := ReplyIn(table, ClientFlows(port), segs, Range(n + 2), n + 1);
            early.Some? && late.Some? && early.value.response.None? && late.value.response.Some?
  {
    var flows := ClientFlows(port);
    FillersChangeNothing(table, flows, segs, n);
    PlaySnoc(table, flows, segs, n);
    RangePrefix(n + 2, n + 1);
    OrderShows(table, ServerNext(port), FirstData(port), SecondData(port));
    OneFlowPlays(table, ClientKey(port), OpenFlow(ServerNext(port)), FirstData(port), SecondData(port));
  }

  /** Two segments of a flow that stands alone. */
  lemma OneFlowPlays(table: ResponseTable, key: FlowKey, f: Cpu.Flow, first: Tcp, second: Tcp)
    requires first.key == key && second.key == key
    ensures var flows := map[key := f]; var after := PlayOne(table, flows, Some(first)).0;
            && PlayOne(table, flows, Some(second)).1 == Cpu.FlowStep(table, Some(f), second).1
            && PlayOne(table, after, Some(second)).1
               == Cpu.FlowStep(table, Cpu.FlowStep(table, Some(f), first).0, second).1
  {
  }

  /** The batch whose order changes and whose replies show it. */
  ghost predicate RepliesChange(packets: seq<RawPacket>, limits: Limits, table: ResponseTable, port: u16)
    requires MakesProgress(limits)
  {
    var segs := Cpu.ReceiveAll(port, packets);
    var order := Flatten(AllWaves(Describe(packets), Range(|packets|), limits));
    && Indices(order, |segs|)
    && exists p, i :: 0 <= p < |order| && 0 <= i < |segs| && order[p] == i
                      && RepliesDiffer(table, port, segs, order, p, i)
  }

  ghost predicate RepliesDiffer(table: ResponseTable, port: u16, segs: Cpu.Segments, order: seq<nat>, p: nat, i: nat)
    requires Indices(order, |segs|) && p < |order| && i < |segs|
  {
    ReplyIn(table, ClientFlows(port), segs, order, p) != ReplyIn(table, ClientFlows(port), segs, Range(|segs|), i)
  }

  lemma OvertakingChangesReplies(full: nat, extra: nat, limits: Limits, table: ResponseTable, port: u16)
    requires MakesProgress(limits) && extra < 384
    requires Shape(Describe(Overtaking(full, extra, port)), full, extra, limits, ClientKey(port))
    ensures RepliesChange(Overtaking(full, extra, port), limits, table, port)
  {
    var packets := Overtaking(full, extra, port);
    var b, n, segs := Describe(packets), FillerRange(full, extra), Cpu.ReceiveAll(port, packets);
    var order := Flatten(AllWaves(b, Range(|packets|), limits));
    FirstWaveOvertakes(b, full, extra, limits, ClientKey(port));
    WavesPartition(b, Range(|packets|), limits);
    FirstWaveIsPrefix(b, Range(|packets|), limits);
    TakeOfPrefix(order, Range(n), n + 1);
    PacketFlows(384, port);
    forall i | 0 <= i < n ensures segs[i] == None {
      FillerIsAt(full, extra, port, i);
    }
    OvertakingShows(table, port, segs, n, order);
    assert RepliesDiffer(table, port, segs, order, n, n + 1);
  }

  lemma FirstWaveIsPrefix(b: Batch, all: seq<nat>, limits: Limits)
    requires ValidBatch(b) && Indices(all, |b.keys|) && MakesProgress(limits) && all != []
    ensures Fill(b, all, limits).taken <= Flatten(AllWaves(b, all, limits))
  {
    DeferredShrinks(b, all, limits);
  }

  lemma TakeOfPrefix(order: seq<nat>, s: seq<nat>, i: nat)
    requires s + [i] <= order
    ensures order[..|s|] == s && order[|s|] == i
  {
  }

  /** Below the budget some batch is reordered, and a reply shows it. */
  lemma ClampedBudgetReorders(limits: Limits, table: ResponseTable, port: u16) returns (packets: seq<RawPacket>)
    requires MakesProgress(limits) && !Unclamped(limits)
    ensures !OrderKept(packets, limits) && RepliesChange(packets, limits, table, port)
  {
    var full, extra := (limits.maxWords - 383) / 384, (limits.maxWords - 383) % 384;
    packets := Overtaking(full, extra, port);
    OvertakingHasShape(full, extra, limits, port);
    ShapeReorders(Describe(packets), full, extra, limits, ClientKey(port));
    OvertakingChangesReplies(full, extra, limits, table, port);
  }

  /** The scheduler keeps every flow's order on every batch if and only if its budget covers
      a full wave of the largest packets. */
  lemma OrderKeptExactly(limits: Limits)
    requires MakesProgress(limits)
    ensures (forall packets: seq<RawPacket> :: OrderKept(packets, limits)) <==> Unclamped(limits)
  {
    if Unclamped(limits) {
      forall packets: seq<RawPacket> ensures OrderKept(packets, limits) {
        var b := Describe(packets);
        var all := Range(|packets|);
        WavesPartition(b, all, limits);
        forall k ensures Sub(b.keys, Flatten(AllWaves(b, all, limits)), k) == Sub(b.keys, all, k) {
          WavesKeepFlowOrder(b, all, limits, k);
        }
      }
    } else {
      var table: ResponseTable := [[0], [0], [0], [0], [0]];
      var packets := ClampedBudgetReorders(limits, table, 0);
    }
  }
}
