/** One dispatch of the packet shader as interleaved threads over the shared flow table
    (src/packet/packet.wgsl:118-193 and 543-697).

    Each thread is a program counter; one action of one thread is atomic: a state load
    together with the key comparison it guards, a compare-exchange, the writes to a slot the
    thread owns, or an atomic store.  A compare-exchange fails only when the value differs. */
module Dispatch {
  import opened Bits
  import opened Wire
  import opened Responses
  import opened FlowTable
  import opened Shader

  datatype Pc =
    | Find(probe: nat)
    | ClaimLoad(probe: nat)
    | ClaimCas(probe: nat, seen: SlotState)
    | Fill(base: nat)
    | Publish(base: nat)
    | AnswerSyn(base: nat)
    | RunTcp(base: nat)
    | Release(base: nat, reply: Option<Reply>)
    | Done(reply: Option<Reply>)
    | Dropped

  datatype Engine = Engine(table: ResponseTable, limit: nat)

  predicate InBounds(pc: Pc, n: nat) {
    match pc
    case Fill(b) => b < n
    case Publish(b) => b < n
    case AnswerSyn(b) => b < n
    case RunTcp(b) => b < n
    case Release(b, _) => b < n
    case _ => true
  }

  function Found(tcp: Tcp, i: nat): Pc {
    if BareSyn(tcp.flags) then AnswerSyn(i) else RunTcp(i)
  }

  function NotFound(tcp: Tcp): Pc {
    if BareSyn(tcp.flags) then ClaimLoad(0) else Done(None)
  }

  /** One atomic action of the thread that carries `tcp`. */
  ghost function Act(e: Engine, slots: seq<Slot>, tcp: Tcp, pc: Pc): (r: (seq<Slot>, Pc))
    requires GoodSize(|slots|, e.limit) && InBounds(pc, |slots|)
    ensures |r.0| == |slots| && InBounds(r.1, |slots|)
  {
    match pc
    case Find(p) =>
      if p >= e.limit then (slots, NotFound(tcp))
      else
        SlotAtIs(tcp.key, p, |slots|, e.limit);
        var i := SlotAt(tcp.key, p, |slots|);
        if slots[i].state.Free? then (slots, NotFound(tcp))
        else if Holds(slots[i], tcp.key) then (slots, Found(tcp, i))
        else (slots, Find(p + 1))
    case ClaimLoad(p) =>
      if p >= e.limit then (slots, Dropped)
      else
        SlotAtIs(tcp.key, p, |slots|, e.limit);
        var state := slots[SlotAt(tcp.key, p, |slots|)].state;
        if state.Free? || state.Tombstone? then (slots, ClaimCas(p, state)) else (slots, ClaimLoad(p + 1))
    case ClaimCas(p, seen) =>
      SlotAtIs(tcp.key, p, |slots|, e.limit);
      var i := SlotAt(tcp.key, p, |slots|);
      if slots[i].state == seen then (slots[i := slots[i].(state := Claimed)], Fill(i)) else (slots, ClaimLoad(p + 1))
    case Fill(b) => (slots[b := ClaimedSlot(tcp.key)], Publish(b))
    case Publish(b) => (slots[b := Opened(slots[b], tcp)], AnswerSyn(b))
    case AnswerSyn(b) => (slots, Done(SlotSynReply(slots[b])))
    case RunTcp(b) =>
      if HasFlag(tcp.flags, TCP_RST) then (slots, Release(b, None))
      else
        var run := RunSlot(e.table, slots[b], tcp);
        (slots[b := run.slot], if run.release then Release(b, run.reply) else Done(run.reply))
    case Release(b, reply) =>
      (slots[b := slots[b].(generation := Add32(slots[b].generation, 1), state := Tombstone)], Done(reply))
    case Done(_) => (slots, pc)
    case Dropped => (slots, pc)
  }

  // ----- what each program counter knows about the table

  predicate Claiming(pc: Pc) {
    pc.Fill? || pc.Publish?
  }

  /** The thread of `tcp`, whose flow stored `v` when the dispatch began. */
  ghost predicate ThreadOk(e: Engine, slots: seq<Slot>, tcp: Tcp, v: Option<Slot>, pc: Pc)
    requires |slots| > 0
  {
    && InBounds(pc, |slots|)
    && match pc
       case Find(p) => p <= e.limit && Stores(slots, tcp.key, v) && Missed(slots, tcp.key, p)
       case ClaimLoad(p) =>
         p <= e.limit && BareSyn(tcp.flags) && v.None? && Absent(slots, tcp.key) && PathBusy(slots, tcp.key, p)
       case ClaimCas(p, seen) =>
         && p < e.limit && (seen.Free? || (seen.Tombstone? && Busy(slots, SlotAt(tcp.key, p, |slots|))))
         && BareSyn(tcp.flags) && v.None? && Absent(slots, tcp.key) && PathBusy(slots, tcp.key, p)
       case Fill(b) =>
         && BareSyn(tcp.flags) && v.None? && Absent(slots, tcp.key)
         && slots[b].state.Claimed? && Placed(slots, e.limit, b, tcp.key)
       case Publish(b) =>
         && BareSyn(tcp.flags) && v.None? && Absent(slots, tcp.key)
         && slots[b] == ClaimedSlot(tcp.key) && Placed(slots, e.limit, b, tcp.key)
       case AnswerSyn(b) =>
         BareSyn(tcp.flags) && Holds(slots[b], tcp.key) && ShaderStep(e.table, v, tcp).0 == Some(slots[b])
       case RunTcp(b) =>
         !BareSyn(tcp.flags) && Holds(slots[b], tcp.key) && v == Some(slots[b])
       case Release(b, reply) =>
         Holds(slots[b], tcp.key) && ShaderStep(e.table, v, tcp) == (None, reply)
       case Done(reply) =>
         var (v', reply') := ShaderStep(e.table, v, tcp);
         Stores(slots, tcp.key, v') && reply == reply'
       case Dropped => BareSyn(tcp.flags) && v.None? && Absent(slots, tcp.key)
  }

  /** Only slot b was written, on behalf of `key`. */
  ghost predicate Touches(slots: seq<Slot>, slots': seq<Slot>, b: nat, key: FlowKey) {
    && |slots'| == |slots| && b < |slots|
    && slots' == slots[b := slots'[b]]
    && !slots'[b].state.Free?
    && (forall k :: k != key ==> !Holds(slots[b], k) && !Holds(slots'[b], k))
  }

  lemma BusyPaths(slots: seq<Slot>, slots': seq<Slot>, key: FlowKey, p: nat)
    requires |slots| == |slots'| > 0 && PathBusy(slots, key, p)
    requires forall i :: Busy(slots, i) ==> Busy(slots', i)
    ensures PathBusy(slots', key, p)
  {
    forall q | 0 <= q < p ensures Busy(slots', SlotAt(key, q, |slots'|)) {
      assert Busy(slots, SlotAt(key, q, |slots|));
    }
  }

  lemma StaysPlaced(slots: seq<Slot>, slots': seq<Slot>, limit: nat, i: nat, key: FlowKey)
    requires |slots| == |slots'| > 0 && Placed(slots, limit, i, key)
    requires forall i :: Busy(slots, i) ==> Busy(slots', i)
    ensures Placed(slots', limit, i, key)
  {
    var p :| 0 <= p < limit && SlotAt(key, p, |slots|) == i && PathBusy(slots, key, p);
    BusyPaths(slots, slots', key, p);
  }

  /** A write keeps the table well formed if what it makes live is placed and new. */
  lemma WriteKeepsOk(slots: seq<Slot>, limit: nat, b: nat, s: Slot)
    requires Ok(slots, limit) && b < |slots| && !s.state.Free?
    requires Live(s) ==> Matches(s, KeyOf(s)) && Placed(slots, limit, b, KeyOf(s))
    requires Live(s) ==> forall i :: 0 <= i < |slots| && i != b && Live(slots[i]) ==> KeyOf(slots[i]) != KeyOf(s)
    ensures Ok(slots[b := s], limit)
  {
    var slots' := slots[b := s];
    assert forall i :: Busy(slots, i) ==> Busy(slots', i);
    forall i | 0 <= i < |slots'| && Live(slots'[i])
      ensures Matches(slots'[i], KeyOf(slots'[i])) && Placed(slots', limit, i, KeyOf(slots'[i]))
    {
      StaysPlaced(slots, slots', limit, i, KeyOf(slots'[i]));
    }
  }

  // ----- an action keeps its own thread's knowledge

  /** The action of one thread: the table stays well formed, the thread's knowledge holds
      again, and at most one slot was touched. */
  ghost predicate ActionOk(e: Engine, slots: seq<Slot>, tcp: Tcp, v: Option<Slot>, pc: Pc)
    requires GoodSize(|slots|, e.limit) && InBounds(pc, |slots|)
  {
    var (slots', pc') := Act(e, slots, tcp, pc);
    && Ok(slots', e.limit)
    && ThreadOk(e, slots', tcp, v, pc')
    && (slots' == slots || exists b :: Touches(slots, slots', b, tcp.key))
  }

  lemma StoredSlotIsUnique(slots: seq<Slot>, limit: nat, key: FlowKey, v: Option<Slot>, i: nat)
    requires Ok(slots, limit) && i < |slots| && Holds(slots[i], key) && Stores(slots, key, v)
    ensures v == Some(slots[i])
  {
    if v.Some? {
      var j :| 0 <= j < |slots| && slots[j] == v.value;
      MatchesKey(slots[i], key);
      MatchesKey(slots[j], key);
    }
  }

  lemma FoundAction(e: Engine, slots: seq<Slot>, tcp: Tcp, v: Option<Slot>, pc: Pc)
    requires Ok(slots, e.limit) && pc.Find? && pc.probe < e.limit && ThreadOk(e, slots, tcp, v, pc)
    requires var i := SlotAt(tcp.key, pc.probe, |slots|); i < |slots| && Holds(slots[i], tcp.key)
    ensures ActionOk(e, slots, tcp, v, pc)
  {
    StoredSlotIsUnique(slots, e.limit, tcp.key, v, SlotAt(tcp.key, pc.probe, |slots|));
  }

  lemma NotFoundAction(e: Engine, slots: seq<Slot>, tcp: Tcp, v: Option<Slot>, pc: Pc)
    requires Ok(slots, e.limit) && pc.Find? && ThreadOk(e, slots, tcp, v, pc)
    requires pc.probe == e.limit || !Busy(slots, SlotAt(tcp.key, pc.probe, |slots|))
    ensures ActionOk(e, slots, tcp, v, pc)
  {
    SlotAtIs(tcp.key, pc.probe, |slots|, e.limit);
    MissedIsAbsent(slots, e.limit, tcp.key, pc.probe);
  }

  lemma PassAction(e: Engine, slots: seq<Slot>, tcp: Tcp, v: Option<Slot>, pc: Pc)
    requires Ok(slots, e.limit) && pc.Find? && pc.probe < e.limit && ThreadOk(e, slots, tcp, v, pc)
    requires var i := SlotAt(tcp.key, pc.probe, |slots|); Busy(slots, i) && !Holds(slots[i], tcp.key)
    ensures ActionOk(e, slots, tcp, v, pc)
  {
    MissedOneMore(slots, tcp.key, pc.probe, pc.probe + 1);
  }

  lemma MissedOneMore(slots: seq<Slot>, key: FlowKey, p: nat, next: nat)
    requires |slots| > 0 && Missed(slots, key, p) && next == p + 1
    requires Busy(slots, SlotAt(key, p, |slots|)) && NotHere(slots, SlotAt(key, p, |slots|), key)
    ensures Missed(slots, key, next)
  {
  }

  lemma FindAction(e: Engine, slots: seq<Slot>, tcp: Tcp, v: Option<Slot>, pc: Pc)
    requires Ok(slots, e.limit) && pc.Find? && ThreadOk(e, slots, tcp, v, pc)
    ensures ActionOk(e, slots, tcp, v, pc)
  {
    SlotAtIs(tcp.key, pc.probe, |slots|, e.limit);
    var i := SlotAt(tcp.key, pc.probe, |slots|);
    if pc.probe == e.limit || !Busy(slots, i) {
      NotFoundAction(e, slots, tcp, v, pc);
    } else if Holds(slots[i], tcp.key) {
      FoundAction(e, slots, tcp, v, pc);
    } else {
      PassAction(e, slots, tcp, v, pc);
    }
  }

  lemma PathGrows(slots: seq<Slot>, key: FlowKey, p: nat, next: nat)
    requires |slots| > 0 && PathBusy(slots, key, p) && Busy(slots, SlotAt(key, p, |slots|)) && next == p + 1
    ensures PathBusy(slots, key, next)
  {
  }

  lemma LoadPasses(e: Engine, slots: seq<Slot>, tcp: Tcp, v: Option<Slot>, pc: Pc, i: nat)
    requires Ok(slots, e.limit) && pc.ClaimLoad? && pc.probe < e.limit && ThreadOk(e, slots, tcp, v, pc)
    requires i == SlotAt(tcp.key, pc.probe, |slots|) && i < |slots|
    requires !slots[i].state.Free? && !slots[i].state.Tombstone?
    ensures ActionOk(e, slots, tcp, v, pc)
  {
    PathGrows(slots, tcp.key, pc.probe, pc.probe + 1);
  }

  lemma LoadStops(e: Engine, slots: seq<Slot>, tcp: Tcp, v: Option<Slot>, pc: Pc, i: nat)
    requires Ok(slots, e.limit) && pc.ClaimLoad? && pc.probe < e.limit && ThreadOk(e, slots, tcp, v, pc)
    requires i == SlotAt(tcp.key, pc.probe, |slots|) && i < |slots|
    requires slots[i].state.Free? || slots[i].state.Tombstone?
    ensures ActionOk(e, slots, tcp, v, pc)
  {
    assert slots[i].state.Tombstone? ==> Busy(slots, i);
  }

  lemma LoadAction(e: Engine, slots: seq<Slot>, tcp: Tcp, v: Option<Slot>, pc: Pc)
    requires Ok(slots, e.limit) && pc.ClaimLoad? && ThreadOk(e, slots, tcp, v, pc)
    ensures ActionOk(e, slots, tcp, v, pc)
  {
    if pc.probe < e.limit {
      SlotAtIs(tcp.key, pc.probe, |slots|, e.limit);
      var i := SlotAt(tcp.key, pc.probe, |slots|);
      if slots[i].state.Free? || slots[i].state.Tombstone? {
        LoadStops(e, slots, tcp, v, pc, i);
      } else {
        LoadPasses(e, slots, tcp, v, pc, i);
      }
    }
  }

  /** Winning a free or released slot. */
  lemma WinSlot(slots: seq<Slot>, limit: nat, key: FlowKey, i: nat)
    requires Ok(slots, limit) && i < |slots| && !Live(slots[i])
    requires Placed(slots, limit, i, key) && Absent(slots, key)
    ensures var slots' := slots[i := slots[i].(state := Claimed)];
            Ok(slots', limit) && Placed(slots', limit, i, key) && Absent(slots', key)
              && Touches(slots, slots', i, key)
  {
    var s := slots[i].(state := Claimed);
    WriteKeepsOk(slots, limit, i, s);
    StaysPlaced(slots, slots[i := s], limit, i, key);
  }

  lemma CasAction(e: Engine, slots: seq<Slot>, tcp: Tcp, v: Option<Slot>, pc: Pc)
    requires Ok(slots, e.limit) && pc.ClaimCas? && ThreadOk(e, slots, tcp, v, pc)
    ensures ActionOk(e, slots, tcp, v, pc)
  {
    SlotAtIs(tcp.key, pc.probe, |slots|, e.limit);
    var i := SlotAt(tcp.key, pc.probe, |slots|);
    if slots[i].state == pc.seen {
      WinSlot(slots, e.limit, tcp.key, i);
    }
  }

  lemma OpenAction(e: Engine, slots: seq<Slot>, tcp: Tcp, v: Option<Slot>, pc: Pc)
    requires Ok(slots, e.limit) && Claiming(pc) && ThreadOk(e, slots, tcp, v, pc)
    ensures ActionOk(e, slots, tcp, v, pc)
  {
    var b := pc.base;
    var (slots', _) := Act(e, slots, tcp, pc);
    var s := slots'[b];
    MatchesKey(s, tcp.key);
    forall i | 0 <= i < |slots| && i != b && Live(slots[i]) ensures KeyOf(slots[i]) != KeyOf(s) {
      assert !Holds(slots[i], tcp.key);
    }
    WriteKeepsOk(slots, e.limit, b, s);
    StaysPlaced(slots, slots', e.limit, b, tcp.key);
    forall k | k != tcp.key ensures !Matches(s, k) {
      if Matches(s, k) { MatchesKey(s, k); }
    }
    assert Touches(slots, slots', b, tcp.key);
  }

  lemma AnswerAction(e: Engine, slots: seq<Slot>, tcp: Tcp, v: Option<Slot>, pc: Pc)
    requires Ok(slots, e.limit) && pc.AnswerSyn? && ThreadOk(e, slots, tcp, v, pc)
    ensures ActionOk(e, slots, tcp, v, pc)
  {
  }

  /** Rewriting the slot that holds a key, without changing the key. */
  lemma RewriteHeldSlot(limit: nat, slots: seq<Slot>, key: FlowKey, b: nat, s: Slot)
    requires Ok(slots, limit) && b < |slots| && Holds(slots[b], key) && Matches(s, key) && !s.state.Free?
    ensures Ok(slots[b := s], limit)
    ensures Touches(slots, slots[b := s], b, key)
    ensures !Live(s) ==> Absent(slots[b := s], key)
  {
    MatchesKey(s, key);
    MatchesKey(slots[b], key);
    forall i | 0 <= i < |slots| && i != b && Live(slots[i]) ensures KeyOf(slots[i]) != key {
      assert KeyOf(slots[b]) == key;
    }
    WriteKeepsOk(slots, limit, b, s);
    forall k | k != key ensures !Matches(s, k) && !Matches(slots[b], k) {
      if Matches(s, k) { MatchesKey(s, k); }
      if Matches(slots[b], k) { MatchesKey(slots[b], k); }
    }
    forall i | 0 <= i < |slots| && i != b ensures !Holds(slots[i], key) {
      if Holds(slots[i], key) { MatchesKey(slots[i], key); }
    }
  }

  lemma RunAction(e: Engine, slots: seq<Slot>, tcp: Tcp, v: Option<Slot>, pc: Pc)
    requires Ok(slots, e.limit) && pc.RunTcp? && ThreadOk(e, slots, tcp, v, pc)
    ensures ActionOk(e, slots, tcp, v, pc)
  {
    var b := pc.base;
    if !HasFlag(tcp.flags, TCP_RST) {
      var run := RunSlot(e.table, slots[b], tcp);
      RewriteHeldSlot(e.limit, slots, tcp.key, b, run.slot);
    }
  }

  lemma ReleaseAction(e: Engine, slots: seq<Slot>, tcp: Tcp, v: Option<Slot>, pc: Pc)
    requires Ok(slots, e.limit) && pc.Release? && ThreadOk(e, slots, tcp, v, pc)
    ensures ActionOk(e, slots, tcp, v, pc)
  {
    var b := pc.base;
    var s := slots[b].(generation := Add32(slots[b].generation, 1), state := Tombstone);
    RewriteHeldSlot(e.limit, slots, tcp.key, b, s);
  }

  /** Every action, whatever the program counter. */
  lemma EveryAction(e: Engine, slots: seq<Slot>, tcp: Tcp, v: Option<Slot>, pc: Pc)
    requires Ok(slots, e.limit) && ThreadOk(e, slots, tcp, v, pc)
    ensures ActionOk(e, slots, tcp, v, pc)
  {
    match pc
    case Find(_) => FindAction(e, slots, tcp, v, pc);
    case ClaimLoad(_) => LoadAction(e, slots, tcp, v, pc);
    case ClaimCas(_, _) => CasAction(e, slots, tcp, v, pc);
    case Fill(_) => OpenAction(e, slots, tcp, v, pc);
    case Publish(_) => OpenAction(e, slots, tcp, v, pc);
    case AnswerSyn(_) => AnswerAction(e, slots, tcp, v, pc);
    case RunTcp(_) => RunAction(e, slots, tcp, v, pc);
    case Release(_, _) => ReleaseAction(e, slots, tcp, v, pc);
    case Done(_) =>
    case Dropped =>
  }

  // ----- an action keeps every other thread's knowledge

  lemma OthersUndisturbed(e: Engine, slots: seq<Slot>, slots': seq<Slot>, b: nat, key: FlowKey, tcp: Tcp,
      v: Option<Slot>, pc: Pc)
    requires GoodSize(|slots|, e.limit) && Touches(slots, slots', b, key)
    requires tcp.key != key && ThreadOk(e, slots, tcp, v, pc)
    requires Claiming(pc) ==> pc.base != b
    ensures ThreadOk(e, slots', tcp, v, pc)
  {
    assert forall i :: Busy(slots, i) ==> Busy(slots', i);
    assert Absent(slots, tcp.key) ==> Absent(slots', tcp.key);
    match pc
    case Find(p) =>
      BusyPaths(slots, slots', tcp.key, p);
      forall q | 0 <= q < p ensures NotHere(slots', SlotAt(tcp.key, q, |slots'|), tcp.key) {
        assert NotHere(slots, SlotAt(tcp.key, q, |slots|), tcp.key);
      }
      StoresUndisturbed(slots, slots', b, key, tcp.key, v);
    case ClaimLoad(p) => BusyPaths(slots, slots', tcp.key, p);
    case ClaimCas(p, _) => BusyPaths(slots, slots', tcp.key, p);
    case Fill(c) => StaysPlaced(slots, slots', e.limit, c, tcp.key);
    case Publish(c) => StaysPlaced(slots, slots', e.limit, c, tcp.key);
    case Done(_) => StoresUndisturbed(slots, slots', b, key, tcp.key, ShaderStep(e.table, v, tcp).0);
    case _ =>
  }

  lemma StoresUndisturbed(slots: seq<Slot>, slots': seq<Slot>, b: nat, key: FlowKey, k: FlowKey, v: Option<Slot>)
    requires Touches(slots, slots', b, key) && k != key && Stores(slots, k, v)
    ensures Stores(slots', k, v)
  {
    if v.Some? {
      var i :| 0 <= i < |slots| && slots[i] == v.value;
      assert slots'[i] == v.value;
    }
  }

  // ----- runs

  datatype State = State(slots: seq<Slot>, pcs: seq<Pc>)

  /** The packets of one dispatch; a packet that draws no action has no segment. */
  type Threads = seq<Option<Tcp>>

  predicate DistinctKeys(threads: Threads) {
    forall i, j :: 0 <= i < j < |threads| && threads[i].Some? && threads[j].Some? ==>
      threads[i].value.key != threads[j].value.key
  }

  predicate NoThreadFor(threads: Threads, key: FlowKey) {
    forall i :: 0 <= i < |threads| && threads[i].Some? ==> threads[i].value.key != key
  }

  ghost predicate WellFormed(e: Engine, threads: Threads, st: State) {
    && GoodSize(|st.slots|, e.limit)
    && |st.pcs| == |threads|
    && forall i :: 0 <= i < |st.pcs| ==> InBounds(st.pcs[i], |st.slots|)
  }

  function Start(threads: Threads, slots: seq<Slot>): (st: State)
    ensures |st.pcs| == |threads| && st.slots == slots
    ensures forall i :: 0 <= i < |threads| ==> st.pcs[i] == if threads[i].Some? then Find(0) else Done(None)
  {
    State(slots, seq(|threads|, i requires 0 <= i < |threads| => if threads[i].Some? then Find(0) else Done(None)))
  }

  /** Thread i takes its next action. */
  ghost function StepAt(e: Engine, threads: Threads, st: State, i: nat): (st': State)
    requires WellFormed(e, threads, st)
    ensures WellFormed(e, threads, st') && |st'.slots| == |st.slots|
  {
    if i < |threads| && threads[i].Some? then
      var (slots', pc') := Act(e, st.slots, threads[i].value, st.pcs[i]);
      State(slots', st.pcs[i := pc'])
    else st
  }

  /** Any interleaving: the schedule names the thread that acts next. */
  ghost function Exec(e: Engine, threads: Threads, st: State, schedule: seq<nat>): (st': State)
    requires WellFormed(e, threads, st)
    ensures WellFormed(e, threads, st') && |st'.slots| == |st.slots|
    decreases |schedule|
  {
    if schedule == [] then st else Exec(e, threads, StepAt(e, threads, st, schedule[0]), schedule[1..])
  }

  /** What holds after every action of every schedule; `before` is what the table stored
      for each thread's flow at the start. */
  ghost predicate Inv(e: Engine, threads: Threads, before: seq<Option<Slot>>, st: State) {
    && WellFormed(e, threads, st) && |before| == |threads|
    && Ok(st.slots, e.limit)
    && (forall i :: 0 <= i < |threads| ==>
          if threads[i].Some? then ThreadOk(e, st.slots, threads[i].value, before[i], st.pcs[i])
          else st.pcs[i] == Done(None))
    && DistinctClaims(st.pcs)
  }

  predicate DistinctClaims(pcs: seq<Pc>) {
    forall i, j :: 0 <= i < |pcs| && 0 <= j < |pcs| && i != j && Claiming(pcs[i]) && Claiming(pcs[j]) ==>
      pcs[i].base != pcs[j].base
  }

  /** A slot newly claimed was free or released; a slot that stays claimed keeps its owner. */
  lemma ClaimIsFresh(e: Engine, slots: seq<Slot>, tcp: Tcp, pc: Pc)
    requires GoodSize(|slots|, e.limit) && InBounds(pc, |slots|)
    requires pc.ClaimCas? ==> !pc.seen.Claimed?
    ensures var (_, pc') := Act(e, slots, tcp, pc);
            Claiming(pc') ==>
              (if Claiming(pc) then pc'.base == pc.base else !slots[pc'.base].state.Claimed?)
  {
  }

  lemma TouchedSlotIsNotClaimedByOthers(e: Engine, slots: seq<Slot>, tcp: Tcp, v: Option<Slot>, pc: Pc, c: nat)
    requires Ok(slots, e.limit) && ThreadOk(e, slots, tcp, v, pc)
    requires c < |slots| && slots[c].state.Claimed? && (Claiming(pc) ==> pc.base != c)
    ensures Act(e, slots, tcp, pc).0[c] == slots[c]
  {
  }

  lemma {:induction false} StepKeepsInv(e: Engine, threads: Threads, before: seq<Option<Slot>>, st: State, i: nat)
    requires Inv(e, threads, before, st) && DistinctKeys(threads)
    ensures Inv(e, threads, before, StepAt(e, threads, st, i))
  {
    if i < |threads| && threads[i].Some? {
      var tcp, pc := threads[i].value, st.pcs[i];
      var st' := StepAt(e, threads, st, i);
      EveryAction(e, st.slots, tcp, before[i], pc);
      ClaimsStayDistinct(e, threads, before, st, i);
      forall j | 0 <= j < |threads| && j != i && threads[j].Some?
        ensures ThreadOk(e, st'.slots, threads[j].value, before[j], st'.pcs[j])
      {
        OneOtherThread(e, st.slots, tcp, before[i], pc, threads[j].value, before[j], st.pcs[j]);
      }
    }
  }

  /** What a thread claims is not what another thread has claimed. */
  lemma ClaimIsApart(e: Engine, slots: seq<Slot>, tcp: Tcp, pc: Pc, other: Pc)
    requires GoodSize(|slots|, e.limit) && InBounds(pc, |slots|) && (pc.ClaimCas? ==> !pc.seen.Claimed?)
    requires Claiming(other) && other.base < |slots| && slots[other.base].state.Claimed?
    requires Claiming(pc) ==> pc.base != other.base
    ensures var (_, pc') := Act(e, slots, tcp, pc); Claiming(pc') ==> pc'.base != other.base
  {
    ClaimIsFresh(e, slots, tcp, pc);
  }

  /** Two threads never claim one slot. */
  lemma ClaimsStayDistinct(e: Engine, threads: Threads, before: seq<Option<Slot>>, st: State, i: nat)
    requires Inv(e, threads, before, st) && i < |threads| && threads[i].Some?
    ensures DistinctClaims(StepAt(e, threads, st, i).pcs)
  {
    var pcs' := StepAt(e, threads, st, i).pcs;
    forall o | 0 <= o < |threads| && o != i && Claiming(pcs'[o]) && Claiming(pcs'[i])
      ensures pcs'[o].base != pcs'[i].base
    {
      ClaimIsApart(e, st.slots, threads[i].value, st.pcs[i], st.pcs[o]);
    }
  }

  lemma OneOtherThread(e: Engine, slots: seq<Slot>, tcp: Tcp, v: Option<Slot>, pc: Pc, other: Tcp, w: Option<Slot>,
      opc: Pc)
    requires Ok(slots, e.limit) && ThreadOk(e, slots, tcp, v, pc) && ActionOk(e, slots, tcp, v, pc)
    requires tcp.key != other.key && ThreadOk(e, slots, other, w, opc)
    requires Claiming(pc) && Claiming(opc) ==> pc.base != opc.base
    ensures ThreadOk(e, Act(e, slots, tcp, pc).0, other, w, opc)
  {
    var slots' := Act(e, slots, tcp, pc).0;
    if slots' != slots {
      var b :| Touches(slots, slots', b, tcp.key);
      if Claiming(opc) {
        TouchedSlotIsNotClaimedByOthers(e, slots, tcp, v, pc, opc.base);
        WrittenSlotDiffers(slots, slots', b, tcp.key, opc.base);
      }
      OthersUndisturbed(e, slots, slots', b, tcp.key, other, w, opc);
    }
  }

  lemma WrittenSlotDiffers(slots: seq<Slot>, slots': seq<Slot>, b: nat, key: FlowKey, c: nat)
    requires Touches(slots, slots', b, key) && slots' != slots
    requires c < |slots| && slots'[c] == slots[c]
    ensures b != c
  {
    assert slots[b := slots[b]] == slots;
  }

  lemma {:induction false} RunKeepsInv(e: Engine, threads: Threads, before: seq<Option<Slot>>, st: State,
      schedule: seq<nat>)
    requires Inv(e, threads, before, st) && DistinctKeys(threads)
    ensures Inv(e, threads, before, Exec(e, threads, st, schedule))
    decreases |schedule|
  {
    if schedule != [] {
      StepKeepsInv(e, threads, before, st, schedule[0]);
      RunKeepsInv(e, threads, before, StepAt(e, threads, st, schedule[0]), schedule[1..]);
    }
  }

  /** Flows that no thread of the dispatch carries are stored as before. */
  lemma {:induction false} RunKeepsOtherFlows(e: Engine, threads: Threads, before: seq<Option<Slot>>, st: State,
      schedule: seq<nat>, key: FlowKey, v: Option<Slot>)
    requires Inv(e, threads, before, st) && DistinctKeys(threads)
    requires NoThreadFor(threads, key) && Stores(st.slots, key, v)
    ensures Stores(Exec(e, threads, st, schedule).slots, key, v)
    decreases |schedule|
  {
    if schedule != [] {
      var i := schedule[0];
      var st' := StepAt(e, threads, st, i);
      StepKeepsInv(e, threads, before, st, i);
      if i < |threads| && threads[i].Some? && st'.slots != st.slots {
        EveryAction(e, st.slots, threads[i].value, before[i], st.pcs[i]);
        var b :| Touches(st.slots, st'.slots, b, threads[i].value.key);
        StoresUndisturbed(st.slots, st'.slots, b, threads[i].value.key, key, v);
      }
      RunKeepsOtherFlows(e, threads, before, st', schedule[1..], key, v);
    }
  }

  /** `before` records what the table stores for each thread's flow. */
  ghost predicate Records(slots: seq<Slot>, threads: Threads, before: seq<Option<Slot>>) {
    && |before| == |threads|
    && forall i :: 0 <= i < |threads| && threads[i].Some? ==> Stores(slots, threads[i].value.key, before[i])
  }

  lemma StartKeepsRecord(e: Engine, threads: Threads, before: seq<Option<Slot>>, slots: seq<Slot>)
    requires Ok(slots, e.limit) && Records(slots, threads, before)
    ensures Inv(e, threads, before, Start(threads, slots))
  {
    var st := Start(threads, slots);
    forall i | 0 <= i < |threads| && threads[i].Some?
      ensures ThreadOk(e, slots, threads[i].value, before[i], st.pcs[i])
    {
    }
  }

  /** Every interleaving of a dispatch keeps the table well formed, and leaves every finished
      thread with exactly the outcome it would have had alone. */
  lemma DispatchIsSequential(e: Engine, threads: Threads, before: seq<Option<Slot>>, slots: seq<Slot>,
      schedule: seq<nat>)
    requires Ok(slots, e.limit) && DistinctKeys(threads) && Records(slots, threads, before)
    ensures var st := Exec(e, threads, Start(threads, slots), schedule);
            && Ok(st.slots, e.limit)
            && forall i :: 0 <= i < |threads| && threads[i].Some? && st.pcs[i].Done? ==>
                 var (v, reply) := ShaderStep(e.table, before[i], threads[i].value);
                 Stores(st.slots, threads[i].value.key, v) && st.pcs[i].reply == reply
  {
    StartKeepsRecord(e, threads, before, slots);
    RunKeepsInv(e, threads, before, Start(threads, slots), schedule);
  }

  // ----- every thread finishes

  /** How many of its own actions a thread still has ahead of it, at most. */
  function Rank(e: Engine, pc: Pc): nat {
    match pc
    case Find(p) => 2 * e.limit + 7 + (if p < e.limit then e.limit - p else 0)
    case ClaimLoad(p) => 6 + (if p < e.limit then 2 * (e.limit - p) else 0)
    case ClaimCas(p, _) => 5 + (if p < e.limit then 2 * (e.limit - p) else 0)
    case Fill(_) => 4
    case Publish(_) => 3
    case AnswerSyn(_) => 2
    case RunTcp(_) => 2
    case Release(_, _) => 1
    case Done(_) => 0
    case Dropped => 0
  }

  /** Whatever the other threads do, each own action brings a thread closer to its end: it
      finishes within 3 * limit + 7 of them. */
  lemma EveryActionProgresses(e: Engine, slots: seq<Slot>, tcp: Tcp, v: Option<Slot>, pc: Pc)
    requires GoodSize(|slots|, e.limit) && ThreadOk(e, slots, tcp, v, pc)
    ensures Rank(e, pc) <= 3 * e.limit + 7
    ensures Rank(e, pc) == 0 <==> pc.Done? || pc.Dropped?
    ensures Rank(e, pc) > 0 ==> Rank(e, Act(e, slots, tcp, pc).1) < Rank(e, pc)
  {
  }
}
