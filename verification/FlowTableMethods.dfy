/** The probe loops of the packet shader and its main step, in place on the slot array
    (src/packet/packet.wgsl:118-193 and 543-697), for a thread that runs alone. */
module FlowTableMethods {
  import opened Bits
  import opened Wire
  import opened Responses
  import opened FlowTable
  import opened Shader
  import opened Dispatch
  import opened PacketWords
  import opened PacketClassifier

  /** Finds the slot that holds a key; none exactly when the key is not stored. */
  method FlowFind(slots: array<Slot>, limit: nat, key: FlowKey) returns (base: Option<nat>)
    requires Ok(slots[..], limit)
    ensures base.Some? ==> base.value < slots.Length && Holds(slots[base.value], key)
    ensures base.None? <==> Absent(slots[..], key)
    ensures base == SearchFrom(slots[..], limit, key, 0)
  {
    ghost var table := slots[..];
    var probe := 0;
    while true
      invariant probe <= limit && Missed(table, key, probe)
      invariant SearchFrom(table, limit, key, 0) == SearchFrom(table, limit, key, probe)
      decreases limit - probe
    {
      if probe >= limit {
        MissedIsAbsent(table, limit, key, probe);
        return None;
      }
      SlotAtIs(key, probe, slots.Length, limit);
      var slot := SlotAt(key, probe, slots.Length);
      assert slots[slot] == table[slot];
      if slots[slot].state.Free? {
        MissedIsAbsent(table, limit, key, probe);
        return None;
      }
      if !slots[slot].state.Claimed? && !slots[slot].state.Tombstone? && Matches(slots[slot], key) {
        assert Holds(table[slot], key);
        return Some(slot);
      }
      MissedOneMore(table, key, probe, probe + 1);
      probe := probe + 1;
    }
  }

  /** Every position of the key's probe path is taken. */
  ghost predicate PathTaken(slots: seq<Slot>, key: FlowKey, p: nat)
    requires |slots| > 0
  {
    forall q :: 0 <= q < p ==> Taken(slots, SlotAt(key, q, |slots|))
  }

  predicate Taken(slots: seq<Slot>, i: nat) {
    i < |slots| && !slots[i].state.Free? && !slots[i].state.Tombstone?
  }

  /** Claims the first slot on the path that is free or released; fails only if there is none. */
  method FlowClaim(slots: array<Slot>, limit: nat, key: FlowKey) returns (base: Option<nat>)
    requires Ok(slots[..], limit) && Absent(slots[..], key)
    modifies slots
    ensures Ok(slots[..], limit) && Absent(slots[..], key)
    ensures base.Some? ==>
              && base.value < slots.Length && Placed(slots[..], limit, base.value, key)
              && !Taken(old(slots[..]), base.value)
              && slots[..] == old(slots[..])[base.value := ClaimedSlot(key)]
              && Touches(old(slots[..]), slots[..], base.value, key)
    ensures base.None? ==> slots[..] == old(slots[..]) && PathTaken(slots[..], key, limit)
  {
    var probe := 0;
    while probe < limit
      invariant probe <= limit && slots[..] == old(slots[..])
      invariant PathTaken(slots[..], key, probe) && PathBusy(slots[..], key, probe)
    {
      SlotAtIs(key, probe, slots.Length, limit);
      var slot := SlotAt(key, probe, slots.Length);
      if slots[slot].state.Free? || slots[slot].state.Tombstone? {
        ghost var before := slots[..];
        slots[slot] := ClaimedSlot(key);
        assert slots[..] == before[slot := ClaimedSlot(key)];
        WriteKeepsOk(before, limit, slot, ClaimedSlot(key));
        assert Placed(before, limit, slot, key);
        StaysPlaced(before, slots[..], limit, slot, key);
        assert Touches(before, slots[..], slot, key);
        return Some(slot);
      }
      probe := probe + 1;
    }
    return None;
  }

  /** Releases a held slot; the path through it stays usable. */
  method FlowRelease(slots: array<Slot>, limit: nat, base: nat, key: FlowKey)
    requires Ok(slots[..], limit) && base < slots.Length && Holds(slots[base], key)
    modifies slots
    ensures Ok(slots[..], limit) && Absent(slots[..], key)
    ensures var s := old(slots[base]);
            slots[..] == old(slots[..])[base := s.(generation := Add32(s.generation, 1), state := Tombstone)]
    ensures Touches(old(slots[..]), slots[..], base, key)
  {
    ghost var before := slots[..];
    ghost var s := slots[base].(generation := Add32(slots[base].generation, 1), state := Tombstone);
    slots[base] := slots[base].(generation := Add32(slots[base].generation, 1));
    slots[base] := slots[base].(state := Tombstone);
    assert slots[..] == before[base := s];
    RewriteHeldSlot(limit, before, key, base, s);
  }

  /** The established part of the step, field by field on slot b; a request is classified in
      the input words. */
  method RunEstablishedInPlace(table: ResponseTable, slots: array<Slot>, b: nat, words: seq<u32>, inputBase: nat,
      f: Located, ghost bytes: seq<u8>, ghost tcp: Tcp)
    returns (reply: Option<Reply>, release: bool)
    requires b < slots.Length && Reads(words, inputBase, bytes, f, tcp)
    modifies slots
    ensures slots[..] == old(slots[..])[b := slots[b]]
    ensures Run(slots[b], reply, release) == RunEstablished(table, old(slots[b]), tcp)
  {
    var recvNext := slots[b].recvNext;
    if f.seqno != recvNext {
      if f.seqno == slots[b].lastClientSeq && f.payloadLen == slots[b].lastClientLen && slots[b].lastResponseLen > 0 {
        return Some(Reply(slots[b].lastResponseSeq, slots[b].lastResponseAck, TCP_ACK + TCP_PSH,
                          ResponseAt(slots[b].lastResponseId))), false;
      }
      return Some(Reply(slots[b].sendNext, recvNext, TCP_ACK, None)), false;
    }
    var hasFin := HasFlag(f.flags, TCP_FIN);
    if f.payloadLen == 0 {
      if !hasFin {
        return None, false;
      }
      return Some(Reply(slots[b].sendNext, Add32(f.seqno, 1), TCP_ACK, None)), true;
    }
    reply := AnswerInPlace(table, slots, b, words, inputBase, f, hasFin, bytes, tcp);
    release := hasFin;
  }

  /** The specified step on in-order data. */
  lemma AnswerIs(table: ResponseTable, s: Slot, tcp: Tcp, payloadLen: nat, nextAck: u32, id: ResponseId)
    requires tcp.seqno == s.recvNext && 0 < |tcp.payload| == payloadLen < 0x1_0000
    requires id == ClassifyHttpRequest(tcp.payload)
    requires var end := Add32(tcp.seqno, payloadLen);
             nextAck == if HasFlag(tcp.flags, TCP_FIN) then Add32(end, 1) else end
    ensures RunEstablished(table, s, tcp) ==
              Run(s.(recvNext := nextAck, sendNext := Add32(s.sendNext, |table[id]|),
                     lastClientSeq := tcp.seqno, lastClientLen := payloadLen,
                     lastResponseSeq := s.sendNext, lastResponseAck := nextAck,
                     lastResponseId := id, lastResponseLen := |table[id]|),
                  Some(Reply(s.sendNext, nextAck, TCP_ACK + TCP_PSH, Some(id))),
                  HasFlag(tcp.flags, TCP_FIN))
  {
    assert Len32(tcp.payload) == payloadLen;
  }

  /** In-order data: the request is classified, answered and recorded. */
  method AnswerInPlace(table: ResponseTable, slots: array<Slot>, b: nat, words: seq<u32>, inputBase: nat, f: Located,
      hasFin: bool, ghost bytes: seq<u8>, ghost tcp: Tcp)
    returns (reply: Option<Reply>)
    requires b < slots.Length && Reads(words, inputBase, bytes, f, tcp)
    requires f.seqno == slots[b].recvNext && f.payloadLen != 0 && hasFin == HasFlag(f.flags, TCP_FIN)
    modifies slots
    ensures slots[..] == old(slots[..])[b := slots[b]]
    ensures Run(slots[b], reply, hasFin) == RunEstablished(table, old(slots[b]), tcp)
  {
    var responseId := Classify(words, inputBase, f.payloadOffset, f.payloadLen, bytes);
    var nextAck := Add32(f.seqno, f.payloadLen);
    if hasFin {
      nextAck := Add32(nextAck, 1);
    }
    AnswerIs(table, slots[b], tcp, f.payloadLen, nextAck, responseId);
    reply := RecordResponse(slots, b, f.seqno, f.payloadLen, nextAck, responseId, |table[responseId]|);
  }

  /** The writes that record an answered request. */
  method RecordResponse(slots: array<Slot>, b: nat, seqno: u32, payloadLen: u32, nextAck: u32,
      responseId: ResponseId, responseLen: u32)
    returns (reply: Option<Reply>)
    requires b < slots.Length
    modifies slots
    ensures slots[..] == old(slots[..])[b := slots[b]]
    ensures var s := old(slots[b]);
            && slots[b] == s.(recvNext := nextAck, sendNext := Add32(s.sendNext, responseLen),
                              lastClientSeq := seqno, lastClientLen := payloadLen,
                              lastResponseSeq := s.sendNext, lastResponseAck := nextAck,
                              lastResponseId := responseId, lastResponseLen := responseLen)
            && reply == Some(Reply(s.sendNext, nextAck, TCP_ACK + TCP_PSH, Some(responseId)))
  {
    var responseSeq := slots[b].sendNext;
    slots[b] := slots[b].(recvNext := nextAck, sendNext := Add32(responseSeq, responseLen));
    slots[b] := slots[b].(lastClientSeq := seqno, lastClientLen := payloadLen);
    slots[b] := slots[b].(lastResponseSeq := responseSeq, lastResponseAck := nextAck);
    slots[b] := slots[b].(lastResponseId := responseId, lastResponseLen := responseLen);
    reply := Some(Reply(responseSeq, nextAck, TCP_ACK + TCP_PSH, Some(responseId)));
  }

  method RunInPlace(table: ResponseTable, slots: array<Slot>, b: nat, words: seq<u32>, inputBase: nat, f: Located,
      ghost bytes: seq<u8>, ghost tcp: Tcp)
    returns (reply: Option<Reply>, release: bool)
    requires b < slots.Length && Live(slots[b]) && Reads(words, inputBase, bytes, f, tcp)
    modifies slots
    ensures slots[..] == old(slots[..])[b := slots[b]]
    ensures Run(slots[b], reply, release) == RunSlot(table, old(slots[b]), tcp)
  {
    if slots[b].state.SynReceived? {
      if !HasFlag(f.flags, TCP_ACK) || f.ack != slots[b].sendNext || f.seqno != slots[b].recvNext {
        return None, false;
      }
      slots[b] := slots[b].(state := Established);
      slots[b] := slots[b].(sendUnacked := f.ack);
    }
    if HasFlag(f.flags, TCP_ACK) && f.ack == slots[b].sendNext {
      slots[b] := slots[b].(sendUnacked := f.ack);
    }
    reply, release := RunEstablishedInPlace(table, slots, b, words, inputBase, f, bytes, tcp);
  }

  datatype Outcome = Answered(reply: Option<Reply>) | NoSlot

  /** Claims a slot for a new flow and opens it. */
  method OpenFlow(e: Engine, slots: array<Slot>, key: FlowKey, seqno: u32, ghost tcp: Tcp) returns (base: Option<nat>)
    requires Ok(slots[..], e.limit) && Absent(slots[..], key) && key == tcp.key && seqno == tcp.seqno
    modifies slots
    ensures Ok(slots[..], e.limit)
    ensures base.Some? ==>
              && base.value < slots.Length && slots[base.value] == Opened(ClaimedSlot(key), tcp)
              && Touches(old(slots[..]), slots[..], base.value, key)
    ensures base.None? ==> slots[..] == old(slots[..]) && PathTaken(slots[..], key, e.limit)
  {
    ghost var start := slots[..];
    base := FlowClaim(slots, e.limit, key);
    if base.Some? {
      ghost var claimed := slots[..];
      Publish(e.limit, slots, base.value, key, seqno, tcp);
      TouchesTwice(start, claimed, slots[..], base.value, key);
    }
  }

  /** A whole thread that runs alone does exactly the shader's step to its flow; it finds no slot
      only for a new flow whose path is taken throughout. */
  method ShaderMain(e: Engine, slots: array<Slot>, words: seq<u32>, inputBase: nat, f: Located, ghost bytes: seq<u8>,
      ghost tcp: Tcp, ghost v: Option<Slot>)
    returns (r: Outcome)
    requires Ok(slots[..], e.limit) && Stores(slots[..], tcp.key, v) && Reads(words, inputBase, bytes, f, tcp)
    modifies slots
    ensures Ok(slots[..], e.limit)
    ensures r.Answered? ==>
              Stores(slots[..], tcp.key, ShaderStep(e.table, v, tcp).0) && r.reply == ShaderStep(e.table, v, tcp).1
    ensures r.NoSlot? ==>
              BareSyn(tcp.flags) && v.None? && slots[..] == old(slots[..]) && PathTaken(slots[..], tcp.key, e.limit)
    ensures OneFlowOnly(old(slots[..]), slots[..], tcp.key)
  {
    ghost var start := slots[..];
    var base := FlowFind(slots, e.limit, f.key);
    if base.Some? {
      StoredSlotIsUnique(slots[..], e.limit, tcp.key, v, base.value);
    }
    if BareSyn(f.flags) {
      if base.None? {
        base := OpenFlow(e, slots, f.key, f.seqno, tcp);
        if base.None? {
          return NoSlot;
        }
      }
      assert slots[..][base.value] == slots[base.value];
      return Answered(SlotSynReply(slots[base.value]));
    }
    if base.None? {
      return Answered(None);
    }
    var b := base.value;
    if HasFlag(f.flags, TCP_RST) {
      FlowRelease(slots, e.limit, b, f.key);
      return Answered(None);
    }
    ghost var before := slots[..];
    var reply, release := RunInPlace(e.table, slots, b, words, inputBase, f, bytes, tcp);
    RewriteHeldSlot(e.limit, before, tcp.key, b, slots[b]);
    if release {
      ghost var ran := slots[..];
      FlowRelease(slots, e.limit, b, f.key);
      TouchesTwice(start, ran, slots[..], b, tcp.key);
    } else {
      assert slots[..][b] == slots[b];
    }
    return Answered(reply);
  }

  /** The step changes at most one slot, and nothing that other flows can see. */
  ghost predicate OneFlowOnly(before: seq<Slot>, after: seq<Slot>, key: FlowKey) {
    after == before || exists b :: Touches(before, after, b, key)
  }

  lemma TouchesTwice(s0: seq<Slot>, s1: seq<Slot>, s2: seq<Slot>, b: nat, key: FlowKey)
    requires Touches(s0, s1, b, key) && Touches(s1, s2, b, key)
    ensures Touches(s0, s2, b, key)
  {
  }

  /** The writes that open a claimed slot. */
  method Publish(limit: nat, slots: array<Slot>, b: nat, key: FlowKey, seqno: u32, ghost tcp: Tcp)
    requires key == tcp.key && seqno == tcp.seqno
    requires Ok(slots[..], limit) && Absent(slots[..], key)
    requires b < slots.Length && slots[b] == ClaimedSlot(key) && Placed(slots[..], limit, b, key)
    modifies slots
    ensures Ok(slots[..], limit)
    ensures slots[..] == old(slots[..])[b := Opened(ClaimedSlot(key), tcp)]
    ensures Touches(old(slots[..]), slots[..], b, key)
  {
    ghost var before := slots[..];
    var isn := ServerIsn(key);
    slots[b] := slots[b].(recvNext := Add32(seqno, 1), sendNext := Add32(isn, 1), sendUnacked := isn,
      lastResponseLen := 0);
    slots[b] := slots[b].(state := SynReceived);
    OpenKeepsOk(limit, before, b, tcp);
    assert slots[..] == before[b := Opened(ClaimedSlot(key), tcp)];
    OpenTouches(before, slots[..], b, tcp);
  }

  lemma OpenTouches(before: seq<Slot>, after: seq<Slot>, b: nat, tcp: Tcp)
    requires b < |before| && before[b] == ClaimedSlot(tcp.key)
             && after == before[b := Opened(ClaimedSlot(tcp.key), tcp)]
    ensures Touches(before, after, b, tcp.key)
  {
    forall k | k != tcp.key ensures !Holds(before[b], k) && !Holds(after[b], k) {
      if Matches(after[b], k) {
        MatchesKey(after[b], k);
        MatchesKey(after[b], tcp.key);
      }
    }
  }

  lemma OpenKeepsOk(limit: nat, slots: seq<Slot>, b: nat, tcp: Tcp)
    requires Ok(slots, limit) && Absent(slots, tcp.key) && b < |slots| && Placed(slots, limit, b, tcp.key)
    ensures Ok(slots[b := Opened(ClaimedSlot(tcp.key), tcp)], limit)
  {
    var s := Opened(ClaimedSlot(tcp.key), tcp);
    MatchesKey(s, tcp.key);
    forall i | 0 <= i < |slots| && i != b && Live(slots[i]) ensures KeyOf(slots[i]) != KeyOf(s) {
      assert !Holds(slots[i], tcp.key);
    }
    WriteKeepsOk(slots, limit, b, s);
  }
}
