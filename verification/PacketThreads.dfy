/** One dispatch of the packet shader from packed input words to packed output words, under any
    interleaving of its threads (src/packet/packet.wgsl:494-697).

    The schedule names the thread that acts next.  A thread's atomic action works in place on the
    slot array; the turn that settles its reply also writes the reply.  Nobody else reads or
    writes the words of a thread's reply, so it makes no difference when they are written. */
module PacketThreads {
  import opened Bits
  import opened Wire
  import opened Responses
  import opened FlowTable
  import opened Shader
  import opened Dispatch
  import opened FlowTableMethods
  import opened PacketWords
  import opened PacketEmit
  import opened PacketMain
  import opened PacketBuffers
  import opened OutputSlots
  import Cpu = CpuEngine

  // ----- one atomic action, in place

  method FindTurn(e: Engine, slots: array<Slot>, f: Located, probe: nat, ghost tcp: Tcp) returns (pc: Pc)
    requires GoodSize(slots.Length, e.limit) && f.key == tcp.key && f.flags == tcp.flags
    ensures (slots[..], pc) == Act(e, slots[..], tcp, Find(probe))
  {
    var missed := if BareSyn(f.flags) then ClaimLoad(0) else Done(None);
    if probe >= e.limit {
      return missed;
    }
    SlotAtIs(f.key, probe, slots.Length, e.limit);
    var slot := SlotAt(f.key, probe, slots.Length);
    if slots[slot].state.Free? {
      return missed;
    }
    if !slots[slot].state.Claimed? && !slots[slot].state.Tombstone? && Matches(slots[slot], f.key) {
      return if BareSyn(f.flags) then AnswerSyn(slot) else RunTcp(slot);
    }
    return Find(probe + 1);
  }

  method ClaimTurn(e: Engine, slots: array<Slot>, key: FlowKey, pc: Pc, ghost tcp: Tcp) returns (pc': Pc)
    requires GoodSize(slots.Length, e.limit) && key == tcp.key && (pc.ClaimLoad? || pc.ClaimCas?)
    modifies slots
    ensures (slots[..], pc') == Act(e, old(slots[..]), tcp, pc)
  {
    if pc.ClaimLoad? && pc.probe >= e.limit {
      return Dropped;
    }
    SlotAtIs(key, pc.probe, slots.Length, e.limit);
    var slot := SlotAt(key, pc.probe, slots.Length);
    var state := slots[slot].state;
    if pc.ClaimLoad? {
      return if state.Free? || state.Tombstone? then ClaimCas(pc.probe, state) else ClaimLoad(pc.probe + 1);
    }
    if state == pc.seen {
      slots[slot] := slots[slot].(state := Claimed);
      return Fill(slot);
    }
    return ClaimLoad(pc.probe + 1);
  }

  method OpenTurn(e: Engine, slots: array<Slot>, f: Located, pc: Pc, ghost tcp: Tcp) returns (pc': Pc)
    requires GoodSize(slots.Length, e.limit) && InBounds(pc, slots.Length)
    requires f.key == tcp.key && f.seqno == tcp.seqno && (pc.Fill? || pc.Publish? || pc.AnswerSyn?)
    modifies slots
    ensures (slots[..], pc') == Act(e, old(slots[..]), tcp, pc)
  {
    var b := pc.base;
    if pc.Fill? {
      slots[b] := ClaimedSlot(f.key);
      return Publish(b);
    }
    if pc.Publish? {
      var isn := ServerIsn(f.key);
      slots[b] := slots[b].(recvNext := Add32(f.seqno, 1), sendNext := Add32(isn, 1), sendUnacked := isn,
        lastResponseLen := 0, state := SynReceived);
      return AnswerSyn(b);
    }
    return Done(SlotSynReply(slots[b]));
  }

  method RunTurn(e: Engine, slots: array<Slot>, words: seq<u32>, inputBase: nat, f: Located, b: nat,
      ghost bytes: seq<u8>, ghost tcp: Tcp)
    returns (pc: Pc)
    requires GoodSize(slots.Length, e.limit) && b < slots.Length && Live(slots[b])
    requires Reads(words, inputBase, bytes, f, tcp)
    modifies slots
    ensures (slots[..], pc) == Act(e, old(slots[..]), tcp, RunTcp(b))
  {
    if HasFlag(f.flags, TCP_RST) {
      return Release(b, None);
    }
    var reply, release := RunInPlace(e.table, slots, b, words, inputBase, f, bytes, tcp);
    return if release then Release(b, reply) else Done(reply);
  }

  /** The next atomic action of a thread. */
  method TakeTurn(e: Engine, slots: array<Slot>, words: seq<u32>, inputBase: nat, f: Located, pc: Pc,
      ghost bytes: seq<u8>, ghost tcp: Tcp)
    returns (pc': Pc)
    requires GoodSize(slots.Length, e.limit) && InBounds(pc, slots.Length)
    requires pc.RunTcp? ==> Live(slots[pc.base])
    requires Reads(words, inputBase, bytes, f, tcp)
    modifies slots
    ensures (slots[..], pc') == Act(e, old(slots[..]), tcp, pc)
  {
    match pc
    case Find(probe) => pc' := FindTurn(e, slots, f, probe, tcp);
    case ClaimLoad(_) => pc' := ClaimTurn(e, slots, f.key, pc, tcp);
    case ClaimCas(_, _) => pc' := ClaimTurn(e, slots, f.key, pc, tcp);
    case Fill(_) => pc' := OpenTurn(e, slots, f, pc, tcp);
    case Publish(_) => pc' := OpenTurn(e, slots, f, pc, tcp);
    case AnswerSyn(_) => pc' := OpenTurn(e, slots, f, pc, tcp);
    case RunTcp(b) => pc' := RunTurn(e, slots, words, inputBase, f, b, bytes, tcp);
    case Release(b, reply) =>
      slots[b] := slots[b].(generation := Add32(slots[b].generation, 1), state := Tombstone);
      pc' := Done(reply);
    case Done(_) => pc' := pc;
    case Dropped => pc' := pc;
  }

  // ----- replies

  predicate Settled(pc: Pc) {
    pc.Release? || pc.Done?
  }

  /** The packet a thread has sent when it is at `pc`. */
  function Sent(table: ResponseTable, seg: Option<Tcp>, pc: Pc): Option<seq<u8>> {
    if seg.None? || !Settled(pc) then None else Cpu.Emitted(table, seg.value.key, pc.reply)
  }

  /** A settled reply is final. */
  lemma SettledKeepsReply(e: Engine, slots: seq<Slot>, tcp: Tcp, pc: Pc)
    requires GoodSize(|slots|, e.limit) && InBounds(pc, |slots|)
    ensures Settled(pc) ==> Act(e, slots, tcp, pc).1 == Done(pc.reply)
  {
  }

  /** The turn that settles a reply sends it. */
  method SendWhenSettled(tables: ShaderTables, ghost table: ResponseTable, l: Layout, output: array<u32>, i: nat,
      key: FlowKey, pc: Pc, pc': Pc, ghost tcp: Tcp)
    requires TablesFor(tables, table) && FitsLayout(l, output.Length, table) && i < l.count && key == tcp.key
    requires Settled(pc) ==> pc' == Done(pc.reply)
    requires Produced(output[..], l, i, Sent(table, Some(tcp), pc))
    modifies output
    ensures OwnWordsOnly(old(output[..]), output[..], l, i)
    ensures Produced(output[..], l, i, Sent(table, Some(tcp), pc'))
  {
    if !Settled(pc) && Settled(pc') {
      SendOutcome(tables, table, l, output, i, key, pc'.reply);
    }
  }

  /** One turn of thread i, its reply included. */
  method ThreadTurn(e: Engine, tables: ShaderTables, l: Layout, slots: array<Slot>, output: array<u32>,
      words: seq<u32>, inputBase: nat, f: Located, i: nat, pc: Pc, ghost bytes: seq<u8>, ghost tcp: Tcp)
    returns (pc': Pc)
    requires GoodSize(slots.Length, e.limit) && InBounds(pc, slots.Length)
    requires pc.RunTcp? ==> Live(slots[pc.base])
    requires Reads(words, inputBase, bytes, f, tcp)
    requires TablesFor(tables, e.table) && FitsLayout(l, output.Length, e.table) && i < l.count
    requires Produced(output[..], l, i, Sent(e.table, Some(tcp), pc))
    modifies slots, output
    ensures (slots[..], pc') == Act(e, old(slots[..]), tcp, pc)
    ensures OwnWordsOnly(old(output[..]), output[..], l, i)
    ensures Produced(output[..], l, i, Sent(e.table, Some(tcp), pc'))
  {
    SettledKeepsReply(e, slots[..], tcp, pc);
    pc' := TakeTurn(e, slots, words, inputBase, f, pc, bytes, tcp);
    SendWhenSettled(tables, e.table, l, output, i, f.key, pc, pc', tcp);
  }

  // ----- the whole dispatch

  /** The packets of a wave, received. */
  function ReceivedThreads(listenPort: u16, wave: seq<seq<u8>>): (threads: Threads)
    ensures |threads| == |wave| && forall i :: 0 <= i < |wave| ==> threads[i] == Cpu.Receive(listenPort, wave[i])
  {
    seq(|wave|, i requires 0 <= i < |wave| => Cpu.Receive(listenPort, wave[i]))
  }

  /** Packet i of the wave is in the input words, at the place its metadata names. */
  ghost predicate Uploaded(words: seq<u32>, metadata: seq<PacketMeta>, wave: seq<seq<u8>>, i: nat) {
    && i < |wave| && i < |metadata| && metadata[i].len == |wave[i]|
    && Input(words, metadata[i].wordOffset, wave[i])
  }

  /** What thread i has parsed. */
  ghost predicate Parsed(words: seq<u32>, metadata: seq<PacketMeta>, wave: seq<seq<u8>>, threads: Threads,
      located: seq<Option<Located>>, i: nat) {
    && i < |wave| && i < |metadata| && i < |threads| && i < |located|
    && (located[i].Some? <==> threads[i].Some?)
    && (located[i].Some? ==> Reads(words, metadata[i].wordOffset, wave[i], located[i].value, threads[i].value))
  }

  ghost predicate SentSoFar(table: ResponseTable, words: seq<u32>, l: Layout, threads: Threads, pcs: seq<Pc>) {
    && |threads| == |pcs| == l.count
    && forall i :: 0 <= i < l.count ==> Produced(words, l, i, Sent(table, threads[i], pcs[i]))
  }

  /** The next thread parses its packet. */
  method ParseNext(words: seq<u32>, metadata: seq<PacketMeta>, located: seq<Option<Located>>, listenPort: u16,
      ghost wave: seq<seq<u8>>, ghost threads: Threads)
    returns (located': seq<Option<Located>>)
    requires |located| < |metadata| == |wave| && threads == ReceivedThreads(listenPort, wave)
    requires Uploaded(words, metadata, wave, |located|)
    requires forall k :: 0 <= k < |located| ==> Parsed(words, metadata, wave, threads, located, k)
    ensures |located'| == |located| + 1
    ensures forall k :: 0 <= k < |located'| ==> Parsed(words, metadata, wave, threads, located', k)
  {
    var i := |located|;
    var found := ParsePacket(words, metadata[i].wordOffset, metadata[i].len, listenPort, wave[i]);
    located' := located + [found];
    ParsedMore(words, metadata, wave, threads, located, found);
  }

  lemma ParsedMore(words: seq<u32>, metadata: seq<PacketMeta>, wave: seq<seq<u8>>, threads: Threads,
      located: seq<Option<Located>>, found: Option<Located>)
    requires |located| < |metadata| == |wave| == |threads|
    requires forall k :: 0 <= k < |located| ==> Parsed(words, metadata, wave, threads, located, k)
    requires var i := |located|;
             && (found.Some? <==> threads[i].Some?)
             && (found.Some? ==> Reads(words, metadata[i].wordOffset, wave[i], found.value, threads[i].value))
    ensures var all := located + [found];
            forall k :: 0 <= k < |all| ==> Parsed(words, metadata, wave, threads, all, k)
  {
    var all := located + [found];
    forall k | 0 <= k < |all| ensures Parsed(words, metadata, wave, threads, all, k) {
      assert k < |located| ==> Parsed(words, metadata, wave, threads, located, k);
    }
  }

  /** Every thread clears its length and parses its packet. */
  method ParseAll(l: Layout, output: array<u32>, words: seq<u32>, metadata: seq<PacketMeta>, listenPort: u16,
      ghost wave: seq<seq<u8>>)
    returns (located: seq<Option<Located>>)
    requires |metadata| == |wave| == l.count <= output.Length
    requires forall i :: 0 <= i < |wave| ==> Uploaded(words, metadata, wave, i)
    modifies output
    ensures |located| == l.count
    ensures forall i :: 0 <= i < l.count ==>
              output[i] == 0 && Parsed(words, metadata, wave, ReceivedThreads(listenPort, wave), located, i)
  {
    ghost var threads := ReceivedThreads(listenPort, wave);
    located := [];
    var i := 0;
    while i < l.count
      invariant i <= l.count && |located| == i
      invariant forall k :: 0 <= k < i ==> output[k] == 0 && Parsed(words, metadata, wave, threads, located, k)
    {
      assert Uploaded(words, metadata, wave, i);
      output[i] := 0;
      located := ParseNext(words, metadata, located, listenPort, wave, threads);
      i := i + 1;
    }
  }

  lemma TurnKeepsSent(table: ResponseTable, before: seq<u32>, after: seq<u32>, l: Layout, threads: Threads,
      pcs: seq<Pc>, i: nat, pc: Pc)
    requires SentSoFar(table, before, l, threads, pcs) && i < l.count
    requires SlotBase(l.count, l.stride, l.count) <= |before| && OwnWordsOnly(before, after, l, i)
    requires Produced(after, l, i, Sent(table, threads[i], pc))
    ensures SentSoFar(table, after, l, threads, pcs[i := pc])
  {
    forall j | 0 <= j < l.count ensures Produced(after, l, j, Sent(table, threads[j], pcs[i := pc][j])) {
      if j != i {
        OtherRepliesStay(before, after, l, i, j, Sent(table, threads[j], pcs[j]));
      }
    }
  }

  /** One scheduled turn: the state takes the step, and what has been sent is in the output. */
  method ScheduledTurn(e: Engine, tables: ShaderTables, l: Layout, slots: array<Slot>, output: array<u32>,
      words: seq<u32>, metadata: seq<PacketMeta>, located: seq<Option<Located>>, pcs: seq<Pc>, i: nat,
      ghost wave: seq<seq<u8>>, ghost threads: Threads, ghost before: seq<Option<Slot>>)
    returns (pcs': seq<Pc>)
    requires |metadata| == |wave| == |located| == l.count
    requires forall k :: 0 <= k < l.count ==> Parsed(words, metadata, wave, threads, located, k)
    requires TablesFor(tables, e.table) && FitsLayout(l, output.Length, e.table)
    requires Inv(e, threads, before, State(slots[..], pcs))
    requires SentSoFar(e.table, output[..], l, threads, pcs)
    modifies slots, output
    ensures State(slots[..], pcs') == StepAt(e, threads, State(old(slots[..]), pcs), i)
    ensures SentSoFar(e.table, output[..], l, threads, pcs')
  {
    pcs' := pcs;
    if i < l.count {
      assert Parsed(words, metadata, wave, threads, located, i);
      if located[i].Some? {
        ghost var was := output[..];
        var pc := ThreadTurn(e, tables, l, slots, output, words, metadata[i].wordOffset, located[i].value, i, pcs[i],
          wave[i], threads[i].value);
        pcs' := pcs[i := pc];
        TurnKeepsSent(e.table, was, output[..], l, threads, pcs, i, pc);
      }
    }
  }

  /** The scheduled turns, one after the other. */
  method RunSchedule(e: Engine, tables: ShaderTables, l: Layout, slots: array<Slot>, output: array<u32>,
      words: seq<u32>, metadata: seq<PacketMeta>, located: seq<Option<Located>>, start: seq<Pc>, schedule: seq<nat>,
      ghost wave: seq<seq<u8>>, ghost threads: Threads, ghost before: seq<Option<Slot>>)
    returns (pcs: seq<Pc>)
    requires |metadata| == |wave| == |located| == l.count && DistinctKeys(threads)
    requires forall k :: 0 <= k < l.count ==> Parsed(words, metadata, wave, threads, located, k)
    requires TablesFor(tables, e.table) && FitsLayout(l, output.Length, e.table)
    requires Inv(e, threads, before, State(slots[..], start))
    requires SentSoFar(e.table, output[..], l, threads, start)
    modifies slots, output
    ensures State(slots[..], pcs) == Exec(e, threads, State(old(slots[..]), start), schedule)
    ensures SentSoFar(e.table, output[..], l, threads, pcs)
  {
    ghost var first := State(slots[..], start);
    pcs := start;
    var n := 0;
    while n < |schedule|
      invariant n <= |schedule|
      invariant Inv(e, threads, before, State(slots[..], pcs))
      invariant Exec(e, threads, State(slots[..], pcs), schedule[n..]) == Exec(e, threads, first, schedule)
      invariant SentSoFar(e.table, output[..], l, threads, pcs)
    {
      StepKeepsInv(e, threads, before, State(slots[..], pcs), schedule[n]);
      assert schedule[n..][1..] == schedule[n + 1..];
      pcs := ScheduledTurn(e, tables, l, slots, output, words, metadata, located, pcs, schedule[n],
        wave, threads, before);
      n := n + 1;
    }
  }

  /** A dispatch under any schedule: its threads end in the state of that interleaving, and the
      output holds exactly the replies they have sent. */
  method RunDispatch(e: Engine, tables: ShaderTables, l: Layout, slots: array<Slot>, output: array<u32>,
      words: seq<u32>, metadata: seq<PacketMeta>, listenPort: u16, schedule: seq<nat>, ghost wave: seq<seq<u8>>,
      ghost before: seq<Option<Slot>>)
    returns (ghost st: State)
    requires |metadata| == |wave| == l.count
    requires forall i :: 0 <= i < |wave| ==> Uploaded(words, metadata, wave, i)
    requires TablesFor(tables, e.table) && FitsLayout(l, output.Length, e.table)
    requires Ok(slots[..], e.limit) && DistinctKeys(ReceivedThreads(listenPort, wave))
    requires Records(slots[..], ReceivedThreads(listenPort, wave), before)
    modifies slots, output
    ensures var threads := ReceivedThreads(listenPort, wave);
            && st == Exec(e, threads, Start(threads, old(slots[..])), schedule) && st.slots == slots[..]
            && SentSoFar(e.table, output[..], l, threads, st.pcs)
  {
    ghost var threads := ReceivedThreads(listenPort, wave);
    SlotsAscend(l.count, l.stride, 0, l.count);
    var located := ParseAll(l, output, words, metadata, listenPort, wave);
    StartKeepsRecord(e, threads, before, slots[..]);
    forall i | 0 <= i < |threads| ensures located[i].Some? <==> threads[i].Some? {
      assert Parsed(words, metadata, wave, threads, located, i);
    }
    var start := InitialPcs(located, threads);
    var pcs := RunSchedule(e, tables, l, slots, output, words, metadata, located, start, schedule,
      wave, threads, before);
    st := State(slots[..], pcs);
  }

  method InitialPcs(located: seq<Option<Located>>, ghost threads: Threads) returns (pcs: seq<Pc>)
    requires |located| == |threads| && forall i :: 0 <= i < |threads| ==> (located[i].Some? <==> threads[i].Some?)
    ensures forall slots :: pcs == Start(threads, slots).pcs
  {
    pcs := seq(|located|, i requires 0 <= i < |located| => if located[i].Some? then Find(0) else Done(None));
    forall slots ensures pcs == Start(threads, slots).pcs {
    }
  }
}
