/** The TCP step of the packet shader on one flow slot (src/packet/packet.wgsl:543-697),
    and its exact relation to the CPU engine's step. */
module Shader {
  import opened Bits
  import opened Wire
  import opened Responses
  import opened FlowTable
  import Cpu = CpuEngine

  function Len32(payload: seq<u8>): u32 {
    |payload| % 0x1_0000_0000
  }

  /** What `flow_claim` leaves in a slot it has won. */
  function ClaimedSlot(key: FlowKey): Slot {
    Slot(Claimed, FlowHash(key), key.srcIp, key.dstIp, PackedPorts(key.srcPort, key.dstPort),
         0, 0, 0, 0, 0, 0, 0, 0, 0, 0, 0)
  }

  /** The fields and state published after a claim. */
  function Opened(s: Slot, tcp: Tcp): Slot {
    var isn := ServerIsn(tcp.key);
    s.(recvNext := Add32(tcp.seqno, 1), sendNext := Add32(isn, 1), sendUnacked := isn,
       lastResponseLen := 0, state := SynReceived)
  }

  function SlotSynReply(s: Slot): Option<Reply> {
    match s.state
    case SynReceived => Some(Reply(Sub32(s.sendNext, 1), s.recvNext, TCP_SYN + TCP_ACK, None))
    case Established => Some(Reply(s.sendNext, s.recvNext, TCP_ACK, None))
    case _ => None
  }

  datatype Run = Run(slot: Slot, reply: Option<Reply>, release: bool)

  function AcknowledgeSlot(s: Slot, tcp: Tcp): Slot {
    if HasFlag(tcp.flags, TCP_ACK) && tcp.ack == s.sendNext then s.(sendUnacked := tcp.ack) else s
  }

  /** An id outside the table means an empty payload. */
  function ResponseAt(id: u32): Option<ResponseId> {
    if id < RESPONSE_COUNT then Some(id) else None
  }

  function RunEstablished(table: ResponseTable, s: Slot, tcp: Tcp): Run {
    var payloadLen := Len32(tcp.payload);
    var hasFin := HasFlag(tcp.flags, TCP_FIN);
    if tcp.seqno != s.recvNext then
      if tcp.seqno == s.lastClientSeq && payloadLen == s.lastClientLen && s.lastResponseLen > 0
      then Run(s, Some(Reply(s.lastResponseSeq, s.lastResponseAck, TCP_ACK + TCP_PSH,
        ResponseAt(s.lastResponseId))), false)
      else Run(s, Some(Reply(s.sendNext, s.recvNext, TCP_ACK, None)), false)
    else if payloadLen == 0 then
      if !hasFin then Run(s, None, false)
      else Run(s, Some(Reply(s.sendNext, Add32(tcp.seqno, 1), TCP_ACK, None)), true)
    else
      var responseId := ClassifyHttpRequest(tcp.payload);
      var responseLen := |table[responseId]|;
      var nextAck := if hasFin then Add32(Add32(tcp.seqno, payloadLen), 1) else Add32(tcp.seqno, payloadLen);
      Run(s.(recvNext := nextAck, sendNext := Add32(s.sendNext, responseLen),
             lastClientSeq := tcp.seqno, lastClientLen := payloadLen,
             lastResponseSeq := s.sendNext, lastResponseAck := nextAck,
             lastResponseId := responseId, lastResponseLen := responseLen),
          Some(Reply(s.sendNext, nextAck, TCP_ACK + TCP_PSH, Some(responseId))),
          hasFin)
  }

  /** A segment that is neither a bare SYN nor a reset, on the slot that holds its flow. */
  function RunSlot(table: ResponseTable, s: Slot, tcp: Tcp): Run {
    if s.state.SynReceived? then
      if !HasFlag(tcp.flags, TCP_ACK) || tcp.ack != s.sendNext || tcp.seqno != s.recvNext then Run(s, None, false)
      else RunEstablished(table, AcknowledgeSlot(s.(state := Established, sendUnacked := tcp.ack), tcp), tcp)
    else RunEstablished(table, AcknowledgeSlot(s, tcp), tcp)
  }

  /** What the shader does to a flow when nothing else runs: the slot that stores it
      afterwards, and the packet emitted. */
  function ShaderStep(table: ResponseTable, v: Option<Slot>, tcp: Tcp): (Option<Slot>, Option<Reply>) {
    if BareSyn(tcp.flags) then
      var s := if v.Some? then v.value else Opened(ClaimedSlot(tcp.key), tcp);
      (Some(s), SlotSynReply(s))
    else if v.None? then (None, None)
    else if HasFlag(tcp.flags, TCP_RST) then (None, None)
    else
      var run := RunSlot(table, v.value, tcp);
      (if run.release then None else Some(run.slot), run.reply)
  }

  // ----- slots as CPU flows

  /** A recorded response is one of the table, with its length. */
  ghost predicate Sane(table: ResponseTable, s: Slot) {
    s.lastResponseLen > 0 ==> s.lastResponseId < RESPONSE_COUNT && s.lastResponseLen == |table[s.lastResponseId]|
  }

  function AsFlow(s: Slot): Cpu.Flow {
    Cpu.Flow(if s.state.SynReceived? then Cpu.SynReceived else Cpu.Established,
             s.recvNext, s.sendNext, s.sendUnacked,
             if s.lastResponseLen > 0 && s.lastResponseId < RESPONSE_COUNT
             then Some(Cpu.LastResponse(s.lastClientSeq, s.lastClientLen, s.lastResponseSeq,
                                        s.lastResponseAck, s.lastResponseId))
             else None)
  }

  function AsFlows(v: Option<Slot>): Option<Cpu.Flow> {
    match v
    case None => None
    case Some(s) => Some(AsFlow(s))
  }

  /** The slot a key may be stored in. */
  ghost predicate SlotFor(table: ResponseTable, v: Option<Slot>, key: FlowKey) {
    v.Some? ==> Holds(v.value, key) && Sane(table, v.value)
  }

  /** The two inputs on which the engines part: a bare SYN that also carries RST, and a bare
      SYN with a new sequence number on a half-open flow. */
  predicate Differs(v: Option<Cpu.Flow>, tcp: Tcp) {
    && BareSyn(tcp.flags)
    && (HasFlag(tcp.flags, TCP_RST)
        || (v.Some? && v.value.state.SynReceived? && v.value.recvNext != Add32(tcp.seqno, 1)))
  }

  /** The shader keeps the slot of a flow on its key, with a recorded response of the table. */
  lemma StepKeepsSlot(table: ResponseTable, v: Option<Slot>, tcp: Tcp)
    requires SlotFor(table, v, tcp.key)
    ensures SlotFor(table, ShaderStep(table, v, tcp).0, tcp.key)
  {
  }

  /** A slot that has run without a release, or the absence of one, as the CPU sees it. */
  function Outcome(run: Run): (Option<Cpu.Flow>, Option<Reply>) {
    (if run.release then None else Some(AsFlow(run.slot)), run.reply)
  }

  lemma OutOfOrderAgrees(table: ResponseTable, s: Slot, tcp: Tcp)
    requires s.state.Established? && Sane(table, s) && |tcp.payload| < 0x1_0000 && tcp.seqno != s.recvNext
    ensures Outcome(RunEstablished(table, s, tcp)) == Cpu.EstablishedStep(table, AsFlow(s), tcp)
  {
  }

  lemma DataAgrees(table: ResponseTable, s: Slot, tcp: Tcp)
    requires s.state.Established? && 0 < |tcp.payload| < 0x1_0000 && tcp.seqno == s.recvNext
    ensures Outcome(RunEstablished(table, s, tcp)) == Cpu.EstablishedStep(table, AsFlow(s), tcp)
  {
  }

  lemma EstablishedAgrees(table: ResponseTable, s: Slot, tcp: Tcp)
    requires s.state.Established? && Sane(table, s) && |tcp.payload| < 0x1_0000
    ensures Outcome(RunEstablished(table, s, tcp)) == Cpu.EstablishedStep(table, AsFlow(s), tcp)
  {
    if tcp.seqno != s.recvNext {
      OutOfOrderAgrees(table, s, tcp);
    } else if tcp.payload != [] {
      DataAgrees(table, s, tcp);
    }
  }

  lemma BareSynAgrees(table: ResponseTable, v: Option<Slot>, tcp: Tcp)
    requires SlotFor(table, v, tcp.key) && BareSyn(tcp.flags)
    ensures (AsFlows(ShaderStep(table, v, tcp).0), ShaderStep(table, v, tcp).1)
            == Cpu.FlowStep(table, AsFlows(v), tcp)
            <==> !Differs(AsFlows(v), tcp)
  {
  }

  /** The shader's step is the CPU's step exactly when the input is not one of the two. */
  lemma StepsAgreeExactly(table: ResponseTable, v: Option<Slot>, tcp: Tcp)
    requires SlotFor(table, v, tcp.key) && |tcp.payload| < 0x1_0000
    ensures (AsFlows(ShaderStep(table, v, tcp).0), ShaderStep(table, v, tcp).1)
            == Cpu.FlowStep(table, AsFlows(v), tcp)
            <==> !Differs(AsFlows(v), tcp)
  {
    if BareSyn(tcp.flags) {
      BareSynAgrees(table, v, tcp);
    } else if v.Some? && !HasFlag(tcp.flags, TCP_RST) {
      var s := v.value;
      if s.state.SynReceived? {
        EstablishedAgrees(table, AcknowledgeSlot(s.(state := Established, sendUnacked := tcp.ack), tcp), tcp);
      } else {
        EstablishedAgrees(table, AcknowledgeSlot(s, tcp), tcp);
      }
    }
  }

  /** The replies alone already tell: they are the same exactly when the input is not one of the two. */
  lemma RepliesAgreeExactly(table: ResponseTable, v: Option<Slot>, tcp: Tcp)
    requires SlotFor(table, v, tcp.key) && |tcp.payload| < 0x1_0000
    ensures ShaderStep(table, v, tcp).1 == Cpu.FlowStep(table, AsFlows(v), tcp).1 <==> !Differs(AsFlows(v), tcp)
  {
    StepsAgreeExactly(table, v, tcp);
  }

  /** Only the lengths of the responses matter to the state machine. */
  lemma LengthsDecide(a: ResponseTable, b: ResponseTable, v: Option<Cpu.Flow>, tcp: Tcp)
    requires SameLengths(a, b)
    ensures Cpu.FlowStep(a, v, tcp) == Cpu.FlowStep(b, v, tcp)
  {
  }

  // ----- the two differences, on concrete input

  /** A SYN that also resets: the CPU drops it, the shader opens a flow and answers. */
  lemma ResetSynDiffers(table: ResponseTable, key: FlowKey)
    ensures var tcp := Tcp(key, 7, 0, TCP_SYN + TCP_RST, []);
            && Cpu.FlowStep(table, None, tcp) == (None, None)
            && ShaderStep(table, None, tcp).0.Some? && ShaderStep(table, None, tcp).1.Some?
  {
    assert 6 / 2 % 2 == 1 && 6 / 4 % 2 == 1 && 6 / 16 % 2 == 0;
  }

  /** A second SYN with another number on a half-open flow: the CPU starts over from it, the
      shader repeats its first answer. */
  lemma NewSynDiffers(table: ResponseTable, key: FlowKey)
    ensures var first, second := Tcp(key, 7, 0, TCP_SYN, []), Tcp(key, 9, 0, TCP_SYN, []);
            var s, f := ShaderStep(table, None, first).0, Cpu.FlowStep(table, None, first).0;
            && ShaderStep(table, s, second).1.Some? && ShaderStep(table, s, second).1.value.ack == 8
            && Cpu.FlowStep(table, f, second).1.Some? && Cpu.FlowStep(table, f, second).1.value.ack == 10
  {
    assert BareSyn(TCP_SYN) && !HasFlag(TCP_SYN, TCP_RST);
    var s := Opened(ClaimedSlot(key), Tcp(key, 7, 0, TCP_SYN, []));
    assert s.state == SynReceived && s.recvNext == 8;
    assert ShaderStep(table, None, Tcp(key, 7, 0, TCP_SYN, [])).0 == Some(s);
  }
}
