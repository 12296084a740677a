/** When the keys that compete for a probe path are no more than the probe limit, no SYN is ever
    dropped: the pigeonhole argument over every interleaving of a dispatch. */
module Capacity {
  import opened Bits
  import opened Collections
  import opened Wire
  import opened FlowTable
  import opened Shader
  import opened Dispatch

  /** Where each key lives or has lived during the dispatch. */
  type Homes = map<FlowKey, nat>

  predicate Homed(homes: Homes, i: nat) {
    exists k :: k in homes && homes[k] == i
  }

  predicate Occupied(slots: seq<Slot>, i: nat) {
    i < |slots| && (Live(slots[i]) || slots[i].state.Claimed?)
  }

  ghost predicate PathHomed(homes: Homes, n: nat, key: FlowKey, p: nat)
    requires n > 0
  {
    forall q :: 0 <= q < p ==> Homed(homes, SlotAt(key, q, n))
  }

  /** What a searching thread knows about the homes: its own key has none yet, and every
      position it has passed is some other key's home. */
  ghost predicate SearchOk(slots: seq<Slot>, limit: nat, homes: Homes, tcp: Tcp, pc: Pc)
    requires |slots| > 0
  {
    match pc
    case Find(_) => Absent(slots, tcp.key) ==> tcp.key !in homes
    case ClaimLoad(p) => tcp.key !in homes && PathHomed(homes, |slots|, tcp.key, p)
    case ClaimCas(p, seen) =>
      && tcp.key !in homes && PathHomed(homes, |slots|, tcp.key, p)
      && var i := SlotAt(tcp.key, p, |slots|);
         i < |slots| && (slots[i].state != seen ==> Homed(homes, i))
    case Dropped => tcp.key !in homes && PathHomed(homes, |slots|, tcp.key, limit)
    case _ => true
  }

  ghost predicate OccupiedAreHomes(slots: seq<Slot>, homes: Homes) {
    forall i: nat :: Occupied(slots, i) ==> Homed(homes, i)
  }

  function NextHomes(slots: seq<Slot>, homes: Homes, tcp: Tcp, pc: Pc): Homes
    requires |slots| > 0
  {
    if pc.ClaimCas? then
      var i := SlotAt(tcp.key, pc.probe, |slots|);
      if i < |slots| && slots[i].state == pc.seen then homes[tcp.key := i] else homes
    else homes
  }

  predicate Grows(homes: Homes, homes': Homes, key: FlowKey) {
    && (forall k :: k in homes ==> k in homes' && homes'[k] == homes[k])
    && (forall k :: k in homes' ==> k in homes || k == key)
  }

  lemma StillHomed(homes: Homes, homes': Homes, key: FlowKey)
    requires Grows(homes, homes', key)
    ensures forall i: nat :: Homed(homes, i) ==> Homed(homes', i)
  {
    forall i: nat | Homed(homes, i) ensures Homed(homes', i) {
      var k :| k in homes && homes[k] == i;
      assert k in homes' && homes'[k] == i;
    }
  }

  /** A slot whose state an action changes was occupied before, or becomes the key's home. */
  lemma ChangedSlotIsHomed(e: Engine, slots: seq<Slot>, homes: Homes, tcp: Tcp, v: Option<Slot>, pc: Pc)
    requires Ok(slots, e.limit) && ThreadOk(e, slots, tcp, v, pc) && OccupiedAreHomes(slots, homes)
    requires SearchOk(slots, e.limit, homes, tcp, pc)
    ensures var slots' := Act(e, slots, tcp, pc).0; var homes' := NextHomes(slots, homes, tcp, pc);
            && Grows(homes, homes', tcp.key)
            && OccupiedAreHomes(slots', homes')
            && forall i :: 0 <= i < |slots| && slots'[i].state != slots[i].state ==> Homed(homes', i)
  {
    var slots' := Act(e, slots, tcp, pc).0;
    var homes' := NextHomes(slots, homes, tcp, pc);
    StillHomed(homes, homes', tcp.key);
    if pc.ClaimCas? {
      var i := SlotAt(tcp.key, pc.probe, |slots|);
      assert tcp.key in homes' && homes'[tcp.key] == i ==> Homed(homes', i);
    } else if !pc.Find? && !pc.ClaimLoad? && !pc.Done? && !pc.Dropped? {
      assert Occupied(slots, pc.base);
    }
    forall i: nat | Occupied(slots', i) ensures Homed(homes', i) {
      assert Occupied(slots, i) || slots'[i] != slots[i];
    }
  }

  lemma LongerHomed(homes: Homes, n: nat, key: FlowKey, p: nat)
    requires n > 0 && PathHomed(homes, n, key, p) && Homed(homes, SlotAt(key, p, n))
    ensures PathHomed(homes, n, key, p + 1)
  {
  }

  lemma StillPathHomed(homes: Homes, homes': Homes, n: nat, key: FlowKey, p: nat)
    requires n > 0 && PathHomed(homes, n, key, p)
    requires forall i: nat :: Homed(homes, i) ==> Homed(homes', i)
    ensures PathHomed(homes', n, key, p)
  {
  }

  /** The acting thread keeps its account of the homes. */
  lemma SearchOwn(e: Engine, slots: seq<Slot>, homes: Homes, tcp: Tcp, v: Option<Slot>, pc: Pc)
    requires Ok(slots, e.limit) && ThreadOk(e, slots, tcp, v, pc)
    requires OccupiedAreHomes(slots, homes) && SearchOk(slots, e.limit, homes, tcp, pc)
    ensures var (slots', pc') := Act(e, slots, tcp, pc);
            SearchOk(slots', e.limit, NextHomes(slots, homes, tcp, pc), tcp, pc')
  {
    match pc
    case Find(p) => EveryAction(e, slots, tcp, v, pc);
    case ClaimLoad(p) =>
      SlotAtIs(tcp.key, p, |slots|, e.limit);
      var i := SlotAt(tcp.key, p, |slots|);
      if Occupied(slots, i) {
        LongerHomed(homes, |slots|, tcp.key, p);
      }
    case ClaimCas(p, seen) =>
      var i := SlotAt(tcp.key, p, |slots|);
      if slots[i].state != seen {
        LongerHomed(homes, |slots|, tcp.key, p);
      }
    case _ =>
  }

  /** Every other thread keeps its account too. */
  lemma SearchOther(slots: seq<Slot>, slots': seq<Slot>, limit: nat, homes: Homes, homes': Homes, key: FlowKey,
      tcp: Tcp, pc: Pc)
    requires |slots| > 0 && tcp.key != key && SearchOk(slots, limit, homes, tcp, pc) && Grows(homes, homes', key)
    requires slots' == slots || exists b :: Touches(slots, slots', b, key)
    requires forall i :: 0 <= i < |slots| && slots'[i].state != slots[i].state ==> Homed(homes', i)
    ensures SearchOk(slots', limit, homes', tcp, pc)
  {
    StillHomed(homes, homes', key);
    match pc
    case Find(_) =>
      if slots' != slots {
        var b :| Touches(slots, slots', b, key);
        assert Absent(slots', tcp.key) ==> Absent(slots, tcp.key) by {
          assert forall i :: 0 <= i < |slots| ==> Holds(slots[i], tcp.key) ==> Holds(slots'[i], tcp.key);
        }
      }
    case ClaimLoad(p) => StillPathHomed(homes, homes', |slots|, tcp.key, p);
    case ClaimCas(p, _) => StillPathHomed(homes, homes', |slots|, tcp.key, p);
    case Dropped => StillPathHomed(homes, homes', |slots|, tcp.key, limit);
    case _ =>
  }

  // ----- runs

  function LiveKeys(slots: seq<Slot>): set<FlowKey> {
    set i | 0 <= i < |slots| && Live(slots[i]) :: KeyOf(slots[i])
  }

  function ThreadKeys(threads: Threads): set<FlowKey> {
    set i | 0 <= i < |threads| && threads[i].Some? :: threads[i].value.key
  }

  /** Slot i is one of the key's probe positions within the limit. */
  predicate OnPath(i: nat, key: FlowKey, n: nat, limit: nat)
    requires n > 0
  {
    exists p :: 0 <= p < limit && SlotAt(key, p, n) == i
  }

  /** Two keys compete for a slot. */
  predicate PathsMeet(a: FlowKey, b: FlowKey, n: nat, limit: nat)
    requires n > 0
  {
    exists p :: 0 <= p < limit && OnPath(SlotAt(a, p, n), b, n, limit)
  }

  /** The keys whose probe paths meet this key's, itself among them. */
  function Rivals(keys: set<FlowKey>, key: FlowKey, n: nat, limit: nat): set<FlowKey>
    requires n > 0
  {
    set k | k in keys && PathsMeet(key, k, n, limit)
  }

  ghost predicate HomesOnPath(homes: Homes, n: nat, limit: nat)
    requires n > 0
  {
    forall k :: k in homes ==> OnPath(homes[k], k, n, limit)
  }

  ghost predicate HomesInv(e: Engine, threads: Threads, keys: set<FlowKey>, st: State, homes: Homes)
    requires |st.slots| > 0 && |st.pcs| == |threads|
  {
    && homes.Keys <= keys
    && HomesOnPath(homes, |st.slots|, e.limit)
    && OccupiedAreHomes(st.slots, homes)
    && forall i :: 0 <= i < |threads| && threads[i].Some? ==>
         SearchOk(st.slots, e.limit, homes, threads[i].value, st.pcs[i])
  }

  lemma {:induction false} StepKeepsHomes(e: Engine, threads: Threads, before: seq<Option<Slot>>, keys: set<FlowKey>,
      st: State, i: nat, homes: Homes)
    returns (homes': Homes)
    requires Inv(e, threads, before, st) && DistinctKeys(threads)
    requires ThreadKeys(threads) <= keys && HomesInv(e, threads, keys, st, homes)
    ensures HomesInv(e, threads, keys, StepAt(e, threads, st, i), homes')
  {
    homes' := homes;
    if i < |threads| && threads[i].Some? {
      var tcp, pc := threads[i].value, st.pcs[i];
      var st' := StepAt(e, threads, st, i);
      homes' := NextHomes(st.slots, homes, tcp, pc);
      assert tcp.key in keys by { assert tcp.key in ThreadKeys(threads); }
      ChangedSlotIsHomed(e, st.slots, homes, tcp, before[i], pc);
      SearchOwn(e, st.slots, homes, tcp, before[i], pc);
      EveryAction(e, st.slots, tcp, before[i], pc);
      NextHomesOnPath(e, st.slots, homes, tcp, before[i], pc);
      forall j | 0 <= j < |threads| && j != i && threads[j].Some?
        ensures SearchOk(st'.slots, e.limit, homes', threads[j].value, st'.pcs[j])
      {
        SearchOther(st.slots, st'.slots, e.limit, homes, homes', tcp.key, threads[j].value, st.pcs[j]);
      }
    }
  }

  lemma NextHomesOnPath(e: Engine, slots: seq<Slot>, homes: Homes, tcp: Tcp, v: Option<Slot>, pc: Pc)
    requires Ok(slots, e.limit) && ThreadOk(e, slots, tcp, v, pc) && HomesOnPath(homes, |slots|, e.limit)
    ensures HomesOnPath(NextHomes(slots, homes, tcp, pc), |slots|, e.limit)
  {
  }

  lemma {:induction false} RunKeepsHomes(e: Engine, threads: Threads, before: seq<Option<Slot>>, keys: set<FlowKey>,
      st: State, schedule: seq<nat>, homes: Homes)
    returns (homes': Homes)
    requires Inv(e, threads, before, st) && DistinctKeys(threads)
    requires ThreadKeys(threads) <= keys && HomesInv(e, threads, keys, st, homes)
    ensures HomesInv(e, threads, keys, Exec(e, threads, st, schedule), homes')
    decreases |schedule|
  {
    homes' := homes;
    if schedule != [] {
      var next := StepKeepsHomes(e, threads, before, keys, st, schedule[0], homes);
      StepKeepsInv(e, threads, before, st, schedule[0]);
      homes' := RunKeepsHomes(e, threads, before, keys, StepAt(e, threads, st, schedule[0]), schedule[1..], next);
    }
  }

  // ----- the pigeonhole

  /** Within the limit, a probe path visits no slot twice. */
  lemma ProbesAreDistinct(key: FlowKey, n: nat, limit: nat, q: nat, r: nat)
    requires GoodSize(n, limit) && q < r < limit
    ensures SlotAt(key, q, n) != SlotAt(key, r, n)
  {
    SlotAtIs(key, q, n, limit);
    SlotAtIs(key, r, n, limit);
    ShiftedRemainderDiffers(FlowHash(key) + q, n, r - q);
  }

  /** A path of p homed slots needs p keys. */
  lemma {:induction false} HomedPathNeedsKeys(homes: Homes, n: nat, limit: nat, key: FlowKey, p: nat)
    requires GoodSize(n, limit) && p <= limit && PathHomed(homes, n, key, p)
    ensures |homes| >= p
  {
    if p > 0 {
      assert Homed(homes, SlotAt(key, p - 1, n));
      var k :| k in homes && homes[k] == SlotAt(key, p - 1, n);
      var rest := homes - {k};
      forall q | 0 <= q < p - 1 ensures Homed(rest, SlotAt(key, q, n)) {
        assert Homed(homes, SlotAt(key, q, n));
        var k' :| k' in homes && homes[k'] == SlotAt(key, q, n);
        ProbesAreDistinct(key, n, limit, q, p - 1);
        assert k' in rest && rest[k'] == SlotAt(key, q, n);
      }
      HomedPathNeedsKeys(rest, n, limit, key, p - 1);
      assert rest.Keys == homes.Keys - {k};
      assert |rest.Keys| == |homes.Keys| - 1;
    }
  }

  lemma MeetsAt(homes: Homes, n: nat, limit: nat, key: FlowKey, keys: set<FlowKey>, q: nat, k: FlowKey)
    requires n > 0 && HomesOnPath(homes, n, limit) && homes.Keys <= keys
    requires q < limit && k in homes && homes[k] == SlotAt(key, q, n)
    ensures k in Rivals(keys, key, n, limit)
  {
    assert OnPath(SlotAt(key, q, n), k, n, limit);
  }

  lemma OwnRival(keys: set<FlowKey>, key: FlowKey, n: nat, limit: nat)
    requires n > 0 && limit > 0 && key in keys
    ensures key in Rivals(keys, key, n, limit)
  {
    assert OnPath(SlotAt(key, 0, n), key, n, limit);
  }

  /** The keys at home on a key's path are rivals of it. */
  lemma HomedPathNeedsRivals(homes: Homes, n: nat, limit: nat, key: FlowKey, keys: set<FlowKey>)
    requires GoodSize(n, limit) && HomesOnPath(homes, n, limit) && PathHomed(homes, n, key, limit)
    requires homes.Keys <= keys && key in keys && key !in homes
    ensures |Rivals(keys, key, n, limit)| > limit
  {
    var rivals := Rivals(keys, key, n, limit);
    var near := map k | k in homes && k in rivals :: homes[k];
    forall q | 0 <= q < limit ensures Homed(near, SlotAt(key, q, n)) {
      assert Homed(homes, SlotAt(key, q, n));
      var k :| k in homes && homes[k] == SlotAt(key, q, n);
      MeetsAt(homes, n, limit, key, keys, q, k);
      assert k in near && near[k] == SlotAt(key, q, n);
    }
    HomedPathNeedsKeys(near, n, limit, key, limit);
    OwnRival(keys, key, n, limit);
    RoomForOne(near.Keys, rivals, key);
  }

  ghost function HomeOf(slots: seq<Slot>, key: FlowKey): (i: nat)
    requires key in LiveKeys(slots)
    ensures i < |slots| && Live(slots[i]) && KeyOf(slots[i]) == key
  {
    var i :| 0 <= i < |slots| && Live(slots[i]) && KeyOf(slots[i]) == key;
    i
  }

  predicate NothingClaimed(slots: seq<Slot>) {
    forall i :: 0 <= i < |slots| ==> !slots[i].state.Claimed?
  }

  lemma StartHomes(e: Engine, threads: Threads, slots: seq<Slot>) returns (homes: Homes)
    requires Ok(slots, e.limit) && NothingClaimed(slots)
    ensures HomesInv(e, threads, LiveKeys(slots) + ThreadKeys(threads), Start(threads, slots), homes)
  {
    homes := map k | k in LiveKeys(slots) :: HomeOf(slots, k);
    forall i: nat | Occupied(slots, i) ensures Homed(homes, i) {
      var k := KeyOf(slots[i]);
      assert k in LiveKeys(slots);
      assert homes[k] == i;
    }
    forall k | k in homes ensures OnPath(homes[k], k, |slots|, e.limit) {
      assert Placed(slots, e.limit, homes[k], k);
    }
    forall i | 0 <= i < |threads| && threads[i].Some?
      ensures SearchOk(slots, e.limit, homes, threads[i].value, Find(0))
    {
      var k := threads[i].value.key;
      if k in homes {
        var j := HomeOf(slots, k);
        assert Holds(slots[j], k);
      }
    }
  }

  /** None of these keys has more rivals than the probe limit. */
  predicate RoomOnPaths(keys: set<FlowKey>, all: set<FlowKey>, n: nat, limit: nat)
    requires n > 0
  {
    forall k :: k in keys ==> |Rivals(all, k, n, limit)| <= limit
  }

  lemma NoneDropped(e: Engine, threads: Threads, keys: set<FlowKey>, st: State, homes: Homes)
    requires WellFormed(e, threads, st) && HomesInv(e, threads, keys, st, homes)
    requires forall i :: 0 <= i < |threads| && threads[i].None? ==> st.pcs[i] == Done(None)
    requires ThreadKeys(threads) <= keys && RoomOnPaths(ThreadKeys(threads), keys, |st.slots|, e.limit)
    ensures forall i :: 0 <= i < |threads| ==> !st.pcs[i].Dropped?
  {
    forall i | 0 <= i < |threads| && threads[i].Some? ensures !st.pcs[i].Dropped? {
      if st.pcs[i].Dropped? {
        var k := threads[i].value.key;
        assert k in ThreadKeys(threads);
        HomedPathNeedsRivals(homes, |st.slots|, e.limit, k, keys);
      }
    }
  }

  lemma RunDropsNone(e: Engine, threads: Threads, before: seq<Option<Slot>>, keys: set<FlowKey>, st: State,
      schedule: seq<nat>, homes: Homes)
    requires Inv(e, threads, before, st) && DistinctKeys(threads) && HomesInv(e, threads, keys, st, homes)
    requires ThreadKeys(threads) <= keys && RoomOnPaths(ThreadKeys(threads), keys, |st.slots|, e.limit)
    ensures forall i :: 0 <= i < |threads| ==> !Exec(e, threads, st, schedule).pcs[i].Dropped?
  {
    RunKeepsInv(e, threads, before, st, schedule);
    var homes' := RunKeepsHomes(e, threads, before, keys, st, schedule, homes);
    NoneDropped(e, threads, keys, Exec(e, threads, st, schedule), homes');
  }

  /** When no more keys than the probe limit, live or in the dispatch, compete for the probe path
      of any packet's flow, no interleaving drops a SYN, whatever the size of the table. */
  lemma NoSynIsDropped(e: Engine, threads: Threads, before: seq<Option<Slot>>, slots: seq<Slot>, schedule: seq<nat>)
    requires Ok(slots, e.limit) && DistinctKeys(threads) && Records(slots, threads, before)
    requires NothingClaimed(slots)
    requires RoomOnPaths(ThreadKeys(threads), LiveKeys(slots) + ThreadKeys(threads), |slots|, e.limit)
    ensures forall i :: 0 <= i < |threads| ==> !Exec(e, threads, Start(threads, slots), schedule).pcs[i].Dropped?
  {
    StartKeepsRecord(e, threads, before, slots);
    var homes := StartHomes(e, threads, slots);
    RunDropsNone(e, threads, before, LiveKeys(slots) + ThreadKeys(threads), Start(threads, slots), schedule, homes);
  }

  /** Few enough keys always have room. */
  lemma FewKeysHaveRoom(keys: set<FlowKey>, all: set<FlowKey>, n: nat, limit: nat)
    requires n > 0 && |all| <= limit
    ensures RoomOnPaths(keys, all, n, limit)
  {
    forall k | k in keys ensures |Rivals(all, k, n, limit)| <= limit {
      SubsetSize(Rivals(all, k, n, limit), all);
    }
  }

  /** Room for more keys is room for fewer. */
  lemma RoomForFewer(keys: set<FlowKey>, all: set<FlowKey>, keys': set<FlowKey>, all': set<FlowKey>, n: nat, limit: nat)
    requires n > 0 && keys <= keys' && all <= all' && RoomOnPaths(keys', all', n, limit)
    ensures RoomOnPaths(keys, all, n, limit)
  {
    forall k | k in keys ensures |Rivals(all, k, n, limit)| <= limit {
      SubsetSize(Rivals(all, k, n, limit), Rivals(all', k, n, limit));
    }
  }
}
