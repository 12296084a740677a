/** The scheduler's generation-stamped hash set (src/packet/mod.rs:77-121) refines a
    mathematical set of flow keys. */
module FlowSets {
  import opened Bits
  import opened Wire

  /** The smallest power of two that is at least n, searched from 2^k. */
  function PowerFrom(k: nat, n: nat): (p: nat)
    ensures p >= n && exists j: nat :: p == Pow2(j)
    decreases n - Pow2(k)
  {
    if Pow2(k) >= n then Pow2(k) else PowerFrom(k + 1, n)
  }

  function NextPowerOfTwo(n: nat): (p: nat)
    ensures p >= n && exists j: nat :: p == Pow2(j)
  {
    PowerFrom(0, n)
  }

  function Max(a: nat, b: nat): nat { if a < b then b else a }

  /** Slot i carries the current stamp. */
  predicate Current(stamps: seq<u32>, now: u32, i: nat) {
    i < |stamps| && stamps[i] == now
  }

  function Home(key: FlowKey, n: nat): (i: nat)
    requires n > 0
    ensures i < n
  {
    AndBound(FlowHash(key), n - 1);
    And(FlowHash(key), n - 1)
  }

  function Next(i: nat, n: nat): nat {
    if i + 1 == n then 0 else i + 1
  }

  /** The q-th probe position of a key in a table of n slots. */
  function ProbeAt(key: FlowKey, q: nat, n: nat): (i: nat)
    requires n > 0
    ensures i < n
  {
    if q == 0 then Home(key, n) else Next(ProbeAt(key, q - 1, n), n)
  }

  lemma {:induction false} ProbeAtIs(key: FlowKey, q: nat, n: nat)
    requires n > 0
    ensures ProbeAt(key, q, n) == (Home(key, n) + q) % n
  {
    if q == 0 {
      DivModUnique(Home(key, n), n, 0, Home(key, n));
    } else {
      ProbeAtIs(key, q - 1, n);
      NextRemainder(Home(key, n) + q - 1, n);
    }
  }

  lemma NextRemainder(x: nat, n: nat)
    requires n > 0
    ensures Next(x % n, n) == (x + 1) % n
  {
    var q, r := x / n, x % n;
    if r + 1 < n {
      DivModUnique(x + 1, n, q, r + 1);
    } else {
      MulDistributes(n, q, 1);
      DivModUnique(x + 1, n, q + 1, 0);
    }
  }

  /** Advancing under the mask of a power of two steps cyclically. */
  lemma MaskedNext(i: nat, n: nat)
    requires i < n && exists k: nat :: n == Pow2(k)
    ensures And(i + 1, n - 1) == Next(i, n)
  {
    var k: nat :| n == Pow2(k);
    AndMask(i + 1, k);
    DivModUnique(i, n, 0, i);
    NextRemainder(i, n);
  }

  ghost predicate PathCurrent(stamps: seq<u32>, now: u32, key: FlowKey, p: nat)
    requires |stamps| > 0
  {
    forall q :: 0 <= q < p ==> Current(stamps, now, ProbeAt(key, q, |stamps|))
  }

  ghost predicate Reachable(stamps: seq<u32>, now: u32, key: FlowKey, i: nat)
    requires |stamps| > 0
  {
    exists p :: 0 <= p < |stamps| && ProbeAt(key, p, |stamps|) == i && PathCurrent(stamps, now, key, p)
  }

  /** Every current slot is reachable from its key's hash, and no key is current twice. */
  ghost predicate TableOk(keys: seq<FlowKey>, stamps: seq<u32>, now: u32) {
    && |keys| == |stamps|
    && (forall i :: 0 <= i < |keys| ==> stamps[i] <= now)
    && (forall i :: 0 <= i < |keys| && Current(stamps, now, i) ==> Reachable(stamps, now, keys[i], i))
    && (forall i, j ::
          0 <= i < |keys| && 0 <= j < |keys| && Current(stamps, now, i) && Current(stamps, now, j)
            && keys[i] == keys[j]
          ==> i == j)
  }

  function Members(keys: seq<FlowKey>, stamps: seq<u32>, now: u32): set<FlowKey>
    requires |keys| == |stamps|
  {
    set i | 0 <= i < |keys| && Current(stamps, now, i) :: keys[i]
  }

  /** The first p probe positions are current and hold other keys. */
  ghost predicate PassedOver(keys: seq<FlowKey>, stamps: seq<u32>, now: u32, key: FlowKey, p: nat)
    requires |keys| == |stamps| > 0
  {
    && PathCurrent(stamps, now, key, p)
    && forall q :: 0 <= q < p ==> OtherKey(keys, ProbeAt(key, q, |keys|), key)
  }

  predicate OtherKey(keys: seq<FlowKey>, i: nat, key: FlowKey) {
    i < |keys| && keys[i] != key
  }

  predicate OnPath(key: FlowKey, n: nat, p: nat, i: nat)
    requires n > 0
  {
    exists q :: 0 <= q < p && ProbeAt(key, q, n) == i
  }

  lemma HoldersAreEarly(keys: seq<FlowKey>, stamps: seq<u32>, now: u32, key: FlowKey, p: nat)
    requires TableOk(keys, stamps, now) && |keys| > 0
    requires !Current(stamps, now, ProbeAt(key, p, |keys|))
    ensures forall i :: 0 <= i < |keys| && Current(stamps, now, i) && keys[i] == key ==>
              OnPath(key, |keys|, p, i)
  {
    var stop := ProbeAt(key, p, |stamps|);
    var blocked := Current(stamps, now, stop);
    forall i | 0 <= i < |keys| && Current(stamps, now, i) && keys[i] == key
      ensures OnPath(key, |keys|, p, i)
    {
      var r :| 0 <= r < |stamps| && ProbeAt(key, r, |stamps|) == i && PathCurrent(stamps, now, key, r);
      assert p < r ==> blocked;
      assert r < p && ProbeAt(key, r, |keys|) == i;
    }
  }

  lemma StaleSlotMeansNew(keys: seq<FlowKey>, stamps: seq<u32>, now: u32, key: FlowKey, p: nat)
    requires TableOk(keys, stamps, now) && |keys| > 0 && PassedOver(keys, stamps, now, key, p)
    requires !Current(stamps, now, ProbeAt(key, p, |keys|))
    ensures key !in Members(keys, stamps, now)
  {
    HoldersAreEarly(keys, stamps, now, key, p);
    forall i | 0 <= i < |keys| && OnPath(key, |keys|, p, i) ensures keys[i] != key {
      var q :| 0 <= q < p && ProbeAt(key, q, |keys|) == i;
      assert OtherKey(keys, ProbeAt(key, q, |keys|), key);
    }
  }

  lemma InsertKeepsTable(keys: seq<FlowKey>, stamps: seq<u32>, now: u32, key: FlowKey, p: nat)
    requires TableOk(keys, stamps, now) && p < |keys| && PathCurrent(stamps, now, key, p)
    requires !Current(stamps, now, ProbeAt(key, p, |keys|)) && key !in Members(keys, stamps, now)
    ensures var i := ProbeAt(key, p, |keys|);
            && TableOk(keys[i := key], stamps[i := now], now)
            && Members(keys[i := key], stamps[i := now], now) == Members(keys, stamps, now) + {key}
  {
    var i := ProbeAt(key, p, |keys|);
    var keys', stamps' := keys[i := key], stamps[i := now];
    forall k, q: nat | PathCurrent(stamps, now, k, q) ensures PathCurrent(stamps', now, k, q) {
      forall r | 0 <= r < q ensures Current(stamps', now, ProbeAt(k, r, |stamps'|)) {
        assert Current(stamps, now, ProbeAt(k, r, |stamps|));
      }
    }
    forall j | 0 <= j < |keys'| && Current(stamps', now, j) ensures Reachable(stamps', now, keys'[j], j) {
      if j != i {
        assert Current(stamps, now, j) && Reachable(stamps, now, keys[j], j);
        var r :| 0 <= r < |stamps| && ProbeAt(keys[j], r, |stamps|) == j && PathCurrent(stamps, now, keys[j], r);
        assert PathCurrent(stamps', now, keys[j], r);
      }
    }
    forall j | 0 <= j < |keys| && j != i && Current(stamps', now, j) ensures keys'[j] != key {
      assert keys[j] in Members(keys, stamps, now);
    }
    InsertedMembers(keys, stamps, now, key, i);
  }

  lemma InsertedMembers(keys: seq<FlowKey>, stamps: seq<u32>, now: u32, key: FlowKey, i: nat)
    requires |keys| == |stamps| && i < |keys| && !Current(stamps, now, i)
    ensures Members(keys[i := key], stamps[i := now], now) == Members(keys, stamps, now) + {key}
  {
    var keys', stamps' := keys[i := key], stamps[i := now];
    assert keys'[i] == key && Current(stamps', now, i);
    forall k | k in Members(keys, stamps, now) ensures k in Members(keys', stamps', now) {
      var j :| 0 <= j < |keys| && Current(stamps, now, j) && keys[j] == k;
      assert Current(stamps', now, j) && keys'[j] == k;
    }
  }

  /** A table whose every slot is current has as many members as slots. */
  lemma {:induction false} FullTable(keys: seq<FlowKey>, members: set<FlowKey>)
    requires forall i, j :: 0 <= i < j < |keys| ==> keys[i] != keys[j]
    requires forall i :: 0 <= i < |keys| ==> keys[i] in members
    ensures |members| >= |keys|
  {
    if keys != [] {
      var last := keys[|keys| - 1];
      FullTable(keys[..|keys| - 1], members - {last});
    }
  }

  lemma ProbesStopInTime(keys: seq<FlowKey>, stamps: seq<u32>, now: u32, key: FlowKey, p: nat)
    requires TableOk(keys, stamps, now) && |keys| > 0 && PathCurrent(stamps, now, key, p)
    requires |Members(keys, stamps, now)| < |keys|
    ensures p < |keys|
  {
    if PathCurrent(stamps, now, key, |keys|) {
      forall i | 0 <= i < |keys| ensures Current(stamps, now, i) {
        var q := ShiftRemainder(Home(key, |keys|), |keys|, i);
        ProbeAtIs(key, q, |keys|);
        assert Current(stamps, now, ProbeAt(key, q, |keys|));
      }
      FullTable(keys, Members(keys, stamps, now));
    }
  }

  lemma CurrentIsMember(keys: seq<FlowKey>, stamps: seq<u32>, now: u32, i: nat)
    requires |keys| == |stamps| && Current(stamps, now, i)
    ensures keys[i] in Members(keys, stamps, now)
    ensures Members(keys, stamps, now) + {keys[i]} == Members(keys, stamps, now)
  {
  }

  /** A stamp that no slot carries makes the table empty. */
  lemma FreshStamp(keys: seq<FlowKey>, stamps: seq<u32>, now: u32)
    requires |keys| == |stamps| && forall i :: 0 <= i < |stamps| ==> stamps[i] < now
    ensures TableOk(keys, stamps, now) && Members(keys, stamps, now) == {}
  {
  }

  class FlowSet {
    var keys: seq<FlowKey>
    var generations: seq<u32>
    var generation: u32

    ghost predicate Valid()
      reads this
    {
      && TableOk(keys, generations, generation)
      && (|keys| > 0 ==> exists k: nat :: |keys| == Pow2(k))
    }

    /** The keys inserted since the last `begin`. */
    function Contents(): set<FlowKey>
      requires |keys| == |generations|
      reads this
    {
      Members(keys, generations, generation)
    }

    constructor ()
      ensures Valid() && Contents() == {}
    {
      keys, generations, generation := [], [], 0;
    }

    /** Empties the set, in constant time except when the stamp wraps around. */
    method Begin(expectedKeys: nat)
      requires Valid()
      modifies this
      ensures Valid() && Contents() == {}
      ensures |keys| >= 2 * Max(expectedKeys, 1) && |keys| >= old(|keys|)
    {
      var capacity := NextPowerOfTwo(Max(expectedKeys, 1) * 2);
      if |keys| < capacity {
        keys := keys + seq(capacity - |keys|, i => FlowKey(0, 0, 0, 0));
        generations := generations + seq(capacity - |generations|, i => 0);
      }
      ghost var last := generation;
      generation := Add32(generation, 1);
      if generation == 0 {
        generations := seq(|generations|, i => 0);
        generation := 1;
      }
      FreshStamp(keys, generations, generation);
    }

    /** Fills a stale slot. */
    method Stamp(index: nat, key: FlowKey, ghost p: nat)
      requires Valid() && |keys| > 0 && key !in Contents()
      requires p < |keys| && index == ProbeAt(key, p, |keys|) && PathCurrent(generations, generation, key, p)
      requires generations[index] != generation
      modifies this
      ensures Valid() && |keys| == old(|keys|)
      ensures Contents() == old(Contents()) + {key}
    {
      InsertKeepsTable(keys, generations, generation, key, p);
      keys := keys[index := key];
      generations := generations[index := generation];
    }

    /** `(index + 1) & mask` */
    method NextProbe(index: nat, n: nat, mask: nat, ghost key: FlowKey, ghost p: nat) returns (next: nat)
      requires n > 0 && mask == n - 1 && index == ProbeAt(key, p, n) && exists k: nat :: n == Pow2(k)
      ensures next == ProbeAt(key, p + 1, n)
    {
      MaskedNext(index, n);
      next := And(index + 1, mask);
    }

    method Insert(key: FlowKey) returns (isNew: bool)
      requires Valid() && |Contents()| < |keys|
      modifies this
      ensures Valid() && |keys| == old(|keys|)
      ensures isNew == (key !in old(Contents()))
      ensures Contents() == old(Contents()) + {key}
    {
      ghost var p, ks, gs := 0, keys, generations;
      var n := |keys|;
      var mask := n - 1;
      var index := Home(key, n);
      while true
        invariant keys == ks && generations == gs && generation == old(generation)
        invariant n == |ks| > 0 && mask == n - 1 && index == ProbeAt(key, p, n)
        invariant PassedOver(ks, gs, generation, key, p)
        decreases n - p
      {
        ProbesStopInTime(ks, gs, generation, key, p);
        if generations[index] != generation {
          StaleSlotMeansNew(ks, gs, generation, key, p);
          Stamp(index, key, p);
          return true;
        }
        if keys[index] == key {
          CurrentIsMember(ks, gs, generation, index);
          return false;
        }
        index := NextProbe(index, n, mask, key, p);
        p := p + 1;
      }
    }
  }
}
