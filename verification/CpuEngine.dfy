/** The CPU packet engine (src/packet/cpu.rs): a TCP state machine over a map of flows. */
module CpuEngine {
  import opened Bits
  import opened Wire
  import opened Responses
  import opened PacketBuilder
  import opened ReplyBytes

  datatype FlowState = SynReceived | Established

  datatype LastResponse = LastResponse(
    clientSeq: u32, clientLen: nat, responseSeq: u32, responseAck: u32, responseId: ResponseId)

  datatype Flow = Flow(
    state: FlowState, recvNext: u32, sendNext: u32, sendUnacked: u32, lastResponse: Option<LastResponse>)

  type Flows = map<FlowKey, Flow>

  datatype Config = Config(table: ResponseTable, flowCapacity: nat, listenPort: u16)

  // ----- one flow

  /** The state a client's SYN opens. */
  function HalfOpen(tcp: Tcp): Flow {
    var isn := ServerIsn(tcp.key);
    Flow(SynReceived, Add32(tcp.seqno, 1), Add32(isn, 1), isn, None)
  }

  function SynStep(v: Option<Flow>, tcp: Tcp): Flow {
    match v
    case None => HalfOpen(tcp)
    case Some(f) => if f.state.SynReceived? && f.recvNext != Add32(tcp.seqno, 1) then HalfOpen(tcp) else f
  }

  function SynReply(f: Flow): Reply {
    if f.state.SynReceived? then Reply(Sub32(f.sendNext, 1), f.recvNext, TCP_SYN + TCP_ACK, None)
    else Reply(f.sendNext, f.recvNext, TCP_ACK, None)
  }

  /** The handshake's last acknowledgement. */
  predicate CompletesHandshake(f: Flow, tcp: Tcp) {
    HasFlag(tcp.flags, TCP_ACK) && tcp.ack == f.sendNext && tcp.seqno == f.recvNext
  }

  function Acknowledge(f: Flow, tcp: Tcp): Flow {
    if HasFlag(tcp.flags, TCP_ACK) && tcp.ack == f.sendNext then f.(sendUnacked := tcp.ack) else f
  }

  /** A segment that does not start at the expected number: repeat the last response if it is
      exactly the last accepted segment, otherwise acknowledge what has been received. */
  function OutOfOrderReply(f: Flow, tcp: Tcp): Reply {
    match f.lastResponse
    case Some(last) =>
      if tcp.seqno == last.clientSeq && |tcp.payload| == last.clientLen
      then Reply(last.responseSeq, last.responseAck, TCP_ACK + TCP_PSH, Some(last.responseId))
      else Reply(f.sendNext, f.recvNext, TCP_ACK, None)
    case None => Reply(f.sendNext, f.recvNext, TCP_ACK, None)
  }

  /** In-order data: the answered flow, before a FIN removes it. */
  function DataStep(table: ResponseTable, f: Flow, tcp: Tcp): Flow {
    var id := ClassifyHttpRequest(tcp.payload);
    var fin := if HasFlag(tcp.flags, TCP_FIN) then 1 else 0;
    var nextAck := Add32(Add32(tcp.seqno, |tcp.payload|), fin);
    f.(recvNext := nextAck,
       sendNext := Add32(f.sendNext, |table[id]|),
       lastResponse := Some(LastResponse(tcp.seqno, |tcp.payload|, f.sendNext, nextAck, id)))
  }

  function DataReply(table: ResponseTable, f: Flow, tcp: Tcp): Reply {
    Reply(f.sendNext, DataStep(table, f, tcp).recvNext, TCP_ACK + TCP_PSH, Some(ClassifyHttpRequest(tcp.payload)))
  }

  /** A segment on an established flow. */
  function EstablishedStep(table: ResponseTable, f: Flow, tcp: Tcp): (Option<Flow>, Option<Reply>) {
    var fin := HasFlag(tcp.flags, TCP_FIN);
    if tcp.seqno != f.recvNext then (Some(f), Some(OutOfOrderReply(f, tcp)))
    else if tcp.payload == [] then
      if fin then (None, Some(Reply(f.sendNext, Add32(tcp.seqno, 1), TCP_ACK, None))) else (Some(f), None)
    else
      (if fin then None else Some(DataStep(table, f, tcp)), Some(DataReply(table, f, tcp)))
  }

  /** What one segment does to its own flow, and the reply it draws. */
  function FlowStep(table: ResponseTable, v: Option<Flow>, tcp: Tcp): (Option<Flow>, Option<Reply>) {
    if HasFlag(tcp.flags, TCP_RST) then (None, None)
    else if BareSyn(tcp.flags) then (Some(SynStep(v, tcp)), Some(SynReply(SynStep(v, tcp))))
    else
      match v
      case None => (None, None)
      case Some(f) =>
        if f.state.SynReceived? then
          if CompletesHandshake(f, tcp)
          then EstablishedStep(table, f.(state := Established, sendUnacked := tcp.ack), tcp)
          else (v, None)
        else EstablishedStep(table, Acknowledge(f, tcp), tcp)
  }

  // ----- the table of flows

  function Get(flows: Flows, key: FlowKey): Option<Flow> {
    if key in flows then Some(flows[key]) else None
  }

  function Put(flows: Flows, key: FlowKey, v: Option<Flow>): Flows {
    match v
    case None => flows - {key}
    case Some(f) => flows[key := f]
  }

  lemma PutOver(flows: Flows, key: FlowKey, f: Flow, v: Option<Flow>)
    requires key in flows
    ensures Put(flows[key := f], key, v) == Put(flows, key, v)
    ensures Put(flows[key := flows[key]], key, v) == Put(flows, key, v)
  {
  }

  /** A new flow is refused when the table is full. */
  predicate Refused(config: Config, flows: Flows, tcp: Tcp) {
    && !HasFlag(tcp.flags, TCP_RST) && BareSyn(tcp.flags)
    && tcp.key !in flows && |flows| >= config.flowCapacity
  }

  function TableStep(config: Config, flows: Flows, tcp: Tcp): (Flows, Option<Reply>) {
    if Refused(config, flows, tcp) then (flows, None)
    else
      var (v, reply) := FlowStep(config.table, Get(flows, tcp.key), tcp);
      (Put(flows, tcp.key, v), reply)
  }

  /** Packets that do not parse, or are for another port, are ignored. */
  function Receive(listenPort: u16, packet: seq<u8>): Option<Tcp> {
    match ParseIpv4Tcp(packet)
    case None => None
    case Some(tcp) => if tcp.key.dstPort != listenPort then None else Some(tcp)
  }

  function Emitted(table: ResponseTable, key: FlowKey, reply: Option<Reply>): Option<seq<u8>> {
    match reply
    case None => None
    case Some(r) => Some(PacketBytes(ReplyPacket(table, key, r)))
  }

  function PacketStep(config: Config, flows: Flows, packet: seq<u8>): (Flows, Option<seq<u8>>) {
    match Receive(config.listenPort, packet)
    case None => (flows, None)
    case Some(tcp) =>
      var (flows', reply) := TableStep(config, flows, tcp);
      (flows', Emitted(config.table, tcp.key, reply))
  }

  // ----- the reply, in bytes

  /** What a reply carries is the answer to this payload, or the response saved for the flow. */
  predicate Recorded(v: Option<Flow>, payload: seq<u8>, r: Reply) {
    r.response.Some? ==>
      || r.response.value == ClassifyHttpRequest(payload)
      || (v.Some? && v.value.lastResponse.Some? && r.response.value == v.value.lastResponse.value.responseId)
  }

  lemma StepReplies(table: ResponseTable, v: Option<Flow>, tcp: Tcp, r: Reply)
    requires FlowStep(table, v, tcp).1 == Some(r)
    ensures FlagsOf(tcp.flags, r) && Recorded(v, tcp.payload, r)
  {
  }

  /** The text in a reply, if any, is the one recorded for its flow. */
  predicate CarriesRecorded(table: ResponseTable, flows: Flows, packet: seq<u8>, reply: seq<u8>) {
    && ParseIpv4Tcp(packet).Some?
    && var tcp := ParseIpv4Tcp(packet).value; var v := Get(flows, tcp.key);
    |reply| > 40 ==>
      || reply[40..] == table[ClassifyHttpRequest(tcp.payload)]
      || (v.Some? && v.value.lastResponse.Some? && reply[40..] == table[v.value.lastResponse.value.responseId])
  }

  /** Every packet the engine sends answers the sender of the packet received, with the text recorded
      for its flow or none. */
  lemma SentIsReceived(config: Config, flows: Flows, packet: seq<u8>)
    requires PacketStep(config, flows, packet).1.Some?
    ensures var q := PacketStep(config, flows, packet).1.value;
            RepliesTo(config.table, packet, q) && CarriesRecorded(config.table, flows, packet, q)
  {
    var tcp := ParseIpv4Tcp(packet).value;
    var r := TableStep(config, flows, tcp).1.value;
    var t := ReplyPacket(config.table, tcp.key, r);
    StepReplies(config.table, Get(flows, tcp.key), tcp, r);
    ReplyIsReceived(config.table, packet, tcp, r);
    BuiltAddresses(t);
  }

  // ----- a batch

  /** The received segment of each packet of a batch, if any. */
  type Segments = seq<Option<Tcp>>

  function LoopOne(config: Config, flows: Flows, seg: Option<Tcp>): (Flows, Option<Reply>) {
    match seg
    case None => (flows, None)
    case Some(t) => TableStep(config, flows, t)
  }

  /** The first n packets, in arrival order. */
  function Loop(config: Config, flows: Flows, segs: Segments, n: nat): (r: (Flows, seq<Option<Reply>>))
    requires n <= |segs|
    ensures |r.1| == n
  {
    if n == 0 then (flows, [])
    else
      var (before, replies) := Loop(config, flows, segs, n - 1);
      var (after, reply) := LoopOne(config, before, segs[n - 1]);
      (after, replies + [reply])
  }

  function ReceiveAll(listenPort: u16, packets: seq<seq<u8>>): (segs: Segments)
    ensures |segs| == |packets|
  {
    seq(|packets|, i requires 0 <= i < |packets| => Receive(listenPort, packets[i]))
  }

  /** The packet a reply to segment i becomes. */
  function Output(config: Config, seg: Option<Tcp>, reply: Option<Reply>): Option<seq<u8>> {
    match seg
    case None => None
    case Some(t) => Emitted(config.table, t.key, reply)
  }

  lemma PacketStepIsLoopOne(config: Config, flows: Flows, packet: seq<u8>)
    ensures var seg := Receive(config.listenPort, packet); var (after, reply) := LoopOne(config, flows, seg);
            PacketStep(config, flows, packet) == (after, Output(config, seg, reply))
  {
  }

  /** The outputs are the packets the replies become. */
  predicate OutputsAre(config: Config, segs: Segments, replies: seq<Option<Reply>>, output: seq<Option<seq<u8>>>) {
    && |output| == |replies| <= |segs|
    && forall i :: 0 <= i < |output| ==> output[i] == Output(config, segs[i], replies[i])
  }

  lemma OneMoreOutput(config: Config, segs: Segments, replies: seq<Option<Reply>>, output: seq<Option<seq<u8>>>,
      reply: Option<Reply>, out: Option<seq<u8>>)
    requires OutputsAre(config, segs, replies, output) && |output| < |segs|
    requires out == Output(config, segs[|output|], reply)
    ensures OutputsAre(config, segs, replies + [reply], output + [out])
  {
  }

  // ----- the replies of a batch, in bytes

  lemma {:induction false} LoopFlags(config: Config, flows: Flows, segs: Segments, n: nat, i: nat)
    requires i < n <= |segs| && Loop(config, flows, segs, n).1[i].Some?
    ensures segs[i].Some? && FlagsOf(segs[i].value.flags, Loop(config, flows, segs, n).1[i].value)
  {
    var (before, replies) := Loop(config, flows, segs, n - 1);
    if i < n - 1 {
      LoopFlags(config, flows, segs, n - 1, i);
    } else {
      var tcp := segs[i].value;
      StepReplies(config.table, Get(before, tcp.key), tcp, LoopOne(config, before, segs[i]).1.value);
    }
  }

  /** What is sent for packet i, if anything, answers its sender. */
  ghost predicate SentBack(table: ResponseTable, packets: seq<seq<u8>>, sent: seq<Option<seq<u8>>>, i: nat) {
    i < |packets| && i < |sent| && (sent[i].Some? ==> RepliesTo(table, packets[i], sent[i].value))
  }

  /** Whatever response texts a reply of the loop is sent with. */
  lemma LoopSendsBack(config: Config, table: ResponseTable, flows: Flows, packets: seq<seq<u8>>, i: nat,
      sent: Option<seq<u8>>)
    requires i < |packets|
    requires var segs := ReceiveAll(config.listenPort, packets);
             sent == Output(config.(table := table), segs[i], Loop(config, flows, segs, |segs|).1[i])
    ensures sent.Some? ==> RepliesTo(table, packets[i], sent.value)
  {
    var segs := ReceiveAll(config.listenPort, packets);
    var reply := Loop(config, flows, segs, |segs|).1[i];
    if sent.Some? {
      LoopFlags(config, flows, segs, |segs|, i);
      ReplyIsReceived(table, packets[i], segs[i].value, reply.value);
    }
  }

  lemma AllSentBack(config: Config, flows: Flows, packets: seq<seq<u8>>, sent: seq<Option<seq<u8>>>)
    requires |sent| == |packets|
    requires var segs := ReceiveAll(config.listenPort, packets);
             OutputsAre(config, segs, Loop(config, flows, segs, |segs|).1, sent)
    ensures forall i :: 0 <= i < |packets| ==> SentBack(config.table, packets, sent, i)
  {
    var segs := ReceiveAll(config.listenPort, packets);
    forall i | 0 <= i < |packets| ensures SentBack(config.table, packets, sent, i) {
      assert sent[i] == Output(config, segs[i], Loop(config, flows, segs, |segs|).1[i]);
      LoopSendsBack(config, config.table, flows, packets, i, sent[i]);
    }
  }

  // ----- the engine object

  class CpuPacketEngine {
    const config: Config
    var flows: Flows

    constructor (config: Config)
      ensures this.config == config && flows == map[]
    {
      this.config := config;
      flows := map[];
    }

    method Emit(key: FlowKey, reply: Reply) returns (r: Option<seq<u8>>)
      ensures r == Emitted(config.table, key, Some(reply))
    {
      var built := BuildIpv4TcpPacket(ReplyPacket(config.table, key, reply));
      r := Some(built.bytes);
    }

    method HandleSyn(tcp: Tcp) returns (r: Option<Reply>)
      requires !HasFlag(tcp.flags, TCP_RST) && BareSyn(tcp.flags)
      modifies this`flows
      ensures (flows, r) == TableStep(config, old(flows), tcp)
    {
      if tcp.key !in flows && |flows| >= config.flowCapacity {
        return None;
      }
      assert tcp.key in flows ==> flows == flows[tcp.key := flows[tcp.key]];
      var clientNext := Add32(tcp.seqno, 1);
      var serverIsn := ServerIsn(tcp.key);
      if tcp.key !in flows {
        flows := flows[tcp.key := Flow(SynReceived, clientNext, Add32(serverIsn, 1), serverIsn, None)];
      }
      var flow := flows[tcp.key];
      if flow.state == SynReceived && flow.recvNext != clientNext {
        flow := flow.(recvNext := clientNext, sendNext := Add32(serverIsn, 1), sendUnacked := serverIsn,
                      lastResponse := None);
        flows := flows[tcp.key := flow];
      }
      var sequence := if flow.state == SynReceived then Sub32(flow.sendNext, 1) else flow.sendNext;
      var flags := if flow.state == SynReceived then TCP_SYN + TCP_ACK else TCP_ACK;
      r := Some(Reply(sequence, flow.recvNext, flags, None));
    }

    method HandleSegment(tcp: Tcp) returns (r: Option<Reply>)
      requires !HasFlag(tcp.flags, TCP_RST) && !BareSyn(tcp.flags)
      modifies this`flows
      ensures (flows, r) == TableStep(config, old(flows), tcp)
    {
      var key := tcp.key;
      assert key in flows ==> flows == flows[key := flows[key]];
      if key !in flows {
        assert flows - {key} == flows;
        return None;
      }
      if flows[key].state == SynReceived {
        if !HasFlag(tcp.flags, TCP_ACK) || tcp.ack != flows[key].sendNext || tcp.seqno != flows[key].recvNext {
          return None;
        }
        flows := flows[key := flows[key].(state := Established, sendUnacked := tcp.ack)];
      }
      if HasFlag(tcp.flags, TCP_ACK) && tcp.ack == flows[key].sendNext && tcp.ack != flows[key].sendUnacked {
        flows := flows[key := flows[key].(sendUnacked := tcp.ack)];
      }
      var flow := flows[key];
      if tcp.seqno != flow.recvNext {
        if flow.lastResponse.Some? && tcp.seqno == flow.lastResponse.value.clientSeq
           && |tcp.payload| == flow.lastResponse.value.clientLen {
          var last := flow.lastResponse.value;
          r := Some(Reply(last.responseSeq, last.responseAck, TCP_ACK + TCP_PSH, Some(last.responseId)));
          return;
        }
        r := Some(Reply(flow.sendNext, flow.recvNext, TCP_ACK, None));
        return;
      }
      var hasFin := HasFlag(tcp.flags, TCP_FIN);
      if tcp.payload == [] {
        if !hasFin {
          return None;
        }
        r := Some(Reply(flow.sendNext, Add32(tcp.seqno, 1), TCP_ACK, None));
        flows := flows - {key};
        assert flows == old(flows) - {key};
        return;
      }
      r := HandleData(tcp);
      PutOver(old(flows), key, flow, EstablishedStep(config.table, flow, tcp).0);
    }

    method HandleData(tcp: Tcp) returns (r: Option<Reply>)
      requires tcp.key in flows && tcp.payload != [] && tcp.seqno == flows[tcp.key].recvNext
      modifies this`flows
      ensures var (v, reply) := EstablishedStep(config.table, old(flows[tcp.key]), tcp);
              flows == Put(old(flows), tcp.key, v) && r == reply
    {
      var hasFin := HasFlag(tcp.flags, TCP_FIN);
      var responseId := ClassifyHttpRequest(tcp.payload);
      var nextAck := Add32(Add32(tcp.seqno, |tcp.payload|), if hasFin then 1 else 0);
      var flow := flows[tcp.key];
      var responseSeq := flow.sendNext;
      flow := flow.(recvNext := nextAck, sendNext := Add32(flow.sendNext, |config.table[responseId]|));
      flow := flow.(lastResponse := Some(LastResponse(tcp.seqno, |tcp.payload|, responseSeq, nextAck, responseId)));
      flows := flows[tcp.key := flow];
      r := Some(Reply(responseSeq, nextAck, TCP_ACK + TCP_PSH, Some(responseId)));
      if hasFin {
        flows := flows - {tcp.key};
      }
    }

    method ProcessPacket(packet: seq<u8>) returns (r: Option<seq<u8>>)
      modifies this`flows
      ensures (flows, r) == PacketStep(config, old(flows), packet)
      ensures r.Some? ==>
                RepliesTo(config.table, packet, r.value)
                && CarriesRecorded(config.table, old(flows), packet, r.value)
    {
      ghost var before := flows;
      var parsed := ParseIpv4Tcp(packet);
      if parsed.None? || parsed.value.key.dstPort != config.listenPort {
        return None;
      }
      var tcp := parsed.value;
      if HasFlag(tcp.flags, TCP_RST) {
        flows := flows - {tcp.key};
        return None;
      }
      var reply;
      if BareSyn(tcp.flags) {
        reply := HandleSyn(tcp);
      } else {
        reply := HandleSegment(tcp);
      }
      if reply.Some? {
        r := Emit(tcp.key, reply.value);
        SentIsReceived(config, before, packet);
      } else {
        r := None;
      }
    }

    /** The batch loop: the table and every output are those of the arrival-order run. */
    method ProcessBatch(packets: seq<seq<u8>>) returns (output: seq<Option<seq<u8>>>)
      modifies this`flows
      ensures var segs := ReceiveAll(config.listenPort, packets);
              var (after, replies) := Loop(config, old(flows), segs, |segs|);
              && flows == after && |output| == |packets|
              && forall i :: 0 <= i < |packets| ==> output[i] == Output(config, segs[i], replies[i])
      ensures |output| == |packets| && forall i :: 0 <= i < |packets| ==> SentBack(config.table, packets, output, i)
    {
      ghost var start := flows;
      ghost var segs := ReceiveAll(config.listenPort, packets);
      output := [];
      var n := 0;
      while n < |packets|
        invariant 0 <= n <= |packets| && |output| == n
        invariant flows == Loop(config, start, segs, n).0
        invariant OutputsAre(config, segs, Loop(config, start, segs, n).1, output)
      {
        PacketStepIsLoopOne(config, flows, packets[n]);
        ghost var before, replies := output, Loop(config, start, segs, n).1;
        var out := ProcessPacket(packets[n]);
        output := output + [out];
        OneMoreOutput(config, segs, replies, before, LoopOne(config, Loop(config, start, segs, n).0, segs[n]).1, out);
        n := n + 1;
      }
      AllSentBack(config, start, packets, output);
    }
  }
}
