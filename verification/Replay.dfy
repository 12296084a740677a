/** Retransmitted data: until new in-order data, FIN or RST arrives, the last accepted segment
    draws the same packet again, however often it comes and whatever comes between
    (src/packet/cpu.rs:157-177 and 197-207). */
module Replay {
  import opened Bits
  import opened Wire
  import opened Responses
  import opened CpuEngine

  /** A segment that brings an established flow no new data, FIN or RST. */
  predicate Quiet(f: Flow, tcp: Tcp) {
    && !HasFlag(tcp.flags, TCP_RST)
    && (BareSyn(tcp.flags) || tcp.seqno != f.recvNext || (tcp.payload == [] && !HasFlag(tcp.flags, TCP_FIN)))
  }

  /** The part of a flow that quiet segments leave alone; only the acknowledgement mark moves. */
  predicate SameExchange(f: Flow, g: Flow) {
    f.state == g.state && f.recvNext == g.recvNext && f.sendNext == g.sendNext && f.lastResponse == g.lastResponse
  }

  lemma QuietKeeps(table: ResponseTable, f: Flow, tcp: Tcp)
    requires f.state.Established? && Quiet(f, tcp)
    ensures FlowStep(table, Some(f), tcp).0.Some? && SameExchange(f, FlowStep(table, Some(f), tcp).0.value)
  {
  }

  predicate AllQuiet(f: Flow, between: seq<Tcp>) {
    forall i :: 0 <= i < |between| ==> Quiet(f, between[i])
  }

  function Feed(table: ResponseTable, v: Option<Flow>, segments: seq<Tcp>): Option<Flow> {
    if segments == [] then v
    else FlowStep(table, Feed(table, v, segments[..|segments| - 1]), segments[|segments| - 1]).0
  }

  lemma {:induction false} QuietRunKeeps(table: ResponseTable, f: Flow, between: seq<Tcp>)
    requires f.state.Established? && AllQuiet(f, between)
    ensures Feed(table, Some(f), between).Some? && SameExchange(f, Feed(table, Some(f), between).value)
  {
    if between != [] {
      var n := |between| - 1;
      QuietRunKeeps(table, f, between[..n]);
      QuietKeeps(table, Feed(table, Some(f), between[..n]).value, between[n]);
    }
  }

  /** The same data again: number and length are compared, the flags may differ. */
  predicate SameData(first: Tcp, again: Tcp) {
    && again.seqno == first.seqno && |again.payload| == |first.payload|
    && !HasFlag(again.flags, TCP_RST) && !BareSyn(again.flags)
  }

  /** Data that the engine accepts on an established flow, without FIN. */
  predicate AcceptedData(f: Flow, first: Tcp) {
    && f.state.Established? && !HasFlag(first.flags, TCP_RST) && !BareSyn(first.flags)
      && !HasFlag(first.flags, TCP_FIN)
    && first.seqno == f.recvNext && 0 < |first.payload| < 0x1_0000
  }

  lemma AcceptedDataIsRemembered(table: ResponseTable, f: Flow, first: Tcp)
    requires AcceptedData(f, first)
    ensures var (after, reply) := FlowStep(table, Some(f), first);
            && after.Some? && after.value.state.Established? && reply.Some?
            && after.value.recvNext != first.seqno
            && after.value.lastResponse == Some(LastResponse(first.seqno, |first.payload|, reply.value.seqno,
              reply.value.ack,
                                                             ClassifyHttpRequest(first.payload)))
            && reply.value.flags == TCP_ACK + TCP_PSH
              && reply.value.response == Some(ClassifyHttpRequest(first.payload))
  {
  }

  lemma RememberedDataIsAnswered(table: ResponseTable, f: Flow, again: Tcp, last: LastResponse)
    requires f.state.Established? && f.lastResponse == Some(last) && f.recvNext != last.clientSeq
    requires again.seqno == last.clientSeq && |again.payload| == last.clientLen
    requires !HasFlag(again.flags, TCP_RST) && !BareSyn(again.flags)
    ensures Quiet(f, again)
    ensures FlowStep(table, Some(f), again).1 ==
              Some(Reply(last.responseSeq, last.responseAck, TCP_ACK + TCP_PSH, Some(last.responseId)))
  {
  }

  /** After accepted data, any quiet segments, and the same data again: the reply is the first
      reply, so the packet is byte for byte the first packet; and the exchange is unchanged, so
      the same holds of every further replay. */
  lemma ReplaysRepeatTheResponse(table: ResponseTable, f: Flow, first: Tcp, between: seq<Tcp>, again: Tcp)
    requires AcceptedData(f, first) && SameData(first, again) && again.key == first.key
    requires AllQuiet(FlowStep(table, Some(f), first).0.value, between)
    ensures var (after, reply) := FlowStep(table, Some(f), first);
            var (after', reply') := FlowStep(table, Feed(table, after, between), again);
            && reply' == reply
            && Emitted(table, again.key, reply') == Emitted(table, first.key, reply)
            && after'.Some? && SameExchange(after.value, after'.value)
            && AllQuiet(after.value, between + [again])
  {
    AcceptedDataIsRemembered(table, f, first);
    var after := FlowStep(table, Some(f), first).0.value;
    QuietRunKeeps(table, after, between);
    var g := Feed(table, Some(after), between).value;
    RememberedDataIsAnswered(table, g, again, after.lastResponse.value);
    QuietKeeps(table, g, again);
  }
}
