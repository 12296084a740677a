/** The open-addressed flow table of the packet shader (src/packet/packet.wgsl:17-193):
    slots, probe paths, and what it means for a table to be well formed. */
module FlowTable {
  import opened Bits
  import opened Wire

  datatype SlotState = Free | SynReceived | Established | Tombstone | Claimed

  datatype Slot = Slot(
    state: SlotState,
    keyHash: u32,
    srcIp: u32,
    dstIp: u32,
    ports: u32,
    recvNext: u32,
    sendNext: u32,
    sendUnacked: u32,
    lastClientSeq: u32,
    lastClientLen: u32,
    lastResponseSeq: u32,
    lastResponseAck: u32,
    lastResponseId: u32,
    lastResponseLen: u32,
    generation: u32,
    padding: u32)

  const EMPTY_SLOT := Slot(Free, 0, 0, 0, 0, 0, 0, 0, 0, 0, 0, 0, 0, 0, 0, 0)

  function PackedPorts(srcPort: u16, dstPort: u16): (ports: u32)
    ensures ports == srcPort * 0x1_0000 + dstPort
  {
    OrBytes(ShlBytes(srcPort, 2), dstPort, 2);
    Or(ShlBytes(srcPort, 2), dstPort)
  }

  predicate Matches(s: Slot, key: FlowKey) {
    && s.keyHash == FlowHash(key)
    && s.srcIp == key.srcIp
    && s.dstIp == key.dstIp
    && s.ports == PackedPorts(key.srcPort, key.dstPort)
  }

  /** The key written in a slot. */
  function KeyOf(s: Slot): FlowKey {
    FlowKey(s.srcIp, s.dstIp, s.ports / 0x1_0000, s.ports % 0x1_0000)
  }

  predicate Live(s: Slot) {
    s.state.SynReceived? || s.state.Established?
  }

  predicate Holds(s: Slot, key: FlowKey) {
    Live(s) && Matches(s, key)
  }

  lemma MatchesKey(s: Slot, key: FlowKey)
    requires Matches(s, key)
    ensures KeyOf(s) == key
  {
    DivModUnique(s.ports, 0x1_0000, key.srcPort, key.dstPort);
  }

  /** Table sizes are powers of two that fit u32, and the probe limit is positive and no larger. */
  ghost predicate GoodSize(n: nat, limit: nat) {
    (exists k: nat :: k <= 31 && n == Pow2(k)) && 0 < limit <= n
  }

  function SlotAt(key: FlowKey, probe: nat, n: nat): nat
    requires n > 0
  {
    And(Add32(FlowHash(key), probe), n - 1)
  }

  /** Masking the wrapped sum is the remainder of the unwrapped sum. */
  lemma SlotAtIs(key: FlowKey, probe: nat, n: nat, limit: nat)
    requires GoodSize(n, limit)
    ensures SlotAt(key, probe, n) == (FlowHash(key) + probe) % n
    ensures SlotAt(key, probe, n) < n
  {
    var k: nat :| k <= 31 && n == Pow2(k);
    var h := FlowHash(key);
    AndMask(Add32(h, probe), k);
    WrapKeepsRemainder(h + probe, k);
  }

  /** No slot before probe position p is free. */
  ghost predicate PathBusy(slots: seq<Slot>, key: FlowKey, p: nat)
    requires |slots| > 0
  {
    forall q :: 0 <= q < p ==> Busy(slots, SlotAt(key, q, |slots|))
  }

  predicate Busy(slots: seq<Slot>, i: nat) {
    i < |slots| && !slots[i].state.Free?
  }

  /** Slot i lies on the key's probe path, within the limit, with no free slot before it. */
  ghost predicate Placed(slots: seq<Slot>, limit: nat, i: nat, key: FlowKey)
    requires |slots| > 0
  {
    exists p :: 0 <= p < limit && SlotAt(key, p, |slots|) == i && PathBusy(slots, key, p)
  }

  /** Every live slot is placed on its own key's path, and no key is live twice. */
  ghost predicate Ok(slots: seq<Slot>, limit: nat) {
    && GoodSize(|slots|, limit)
    && (forall i :: 0 <= i < |slots| && Live(slots[i]) ==>
          Matches(slots[i], KeyOf(slots[i])) && Placed(slots, limit, i, KeyOf(slots[i])))
    && (forall i, j ::
          0 <= i < |slots| && 0 <= j < |slots| && Live(slots[i]) && Live(slots[j])
            && KeyOf(slots[i]) == KeyOf(slots[j])
          ==> i == j)
  }

  ghost predicate Absent(slots: seq<Slot>, key: FlowKey) {
    forall i :: 0 <= i < |slots| ==> !Holds(slots[i], key)
  }

  /** The table's content at one key. */
  ghost predicate Stores(slots: seq<Slot>, key: FlowKey, v: Option<Slot>) {
    match v
    case None => Absent(slots, key)
    case Some(s) => Holds(s, key) && exists i :: 0 <= i < |slots| && slots[i] == s
  }

  /** The first p probe positions hold neither a free slot nor the key. */
  ghost predicate Missed(slots: seq<Slot>, key: FlowKey, p: nat)
    requires |slots| > 0
  {
    && PathBusy(slots, key, p)
    && forall q :: 0 <= q < p ==> NotHere(slots, SlotAt(key, q, |slots|), key)
  }

  predicate NotHere(slots: seq<Slot>, i: nat, key: FlowKey) {
    i < |slots| && !Holds(slots[i], key)
  }

  /** Where the shader's search finds the key, from probe position p on. */
  ghost function SearchFrom(slots: seq<Slot>, limit: nat, key: FlowKey, p: nat): (base: Option<nat>)
    requires GoodSize(|slots|, limit) && p <= limit
    ensures base.Some? ==> base.value < |slots|
    decreases limit - p
  {
    if p == limit then None
    else
      SlotAtIs(key, p, |slots|, limit);
      var i := SlotAt(key, p, |slots|);
      if slots[i].state.Free? then None
      else if Holds(slots[i], key) then Some(i)
      else SearchFrom(slots, limit, key, p + 1)
  }

  /** A key's slot precedes the first free position of its path. */
  lemma HoldersAreEarly(slots: seq<Slot>, limit: nat, key: FlowKey, p: nat)
    requires Ok(slots, limit) && p <= limit
    requires p == limit || !Busy(slots, SlotAt(key, p, |slots|))
    ensures forall i :: 0 <= i < |slots| && Holds(slots[i], key) ==>
              exists q :: 0 <= q < p && SlotAt(key, q, |slots|) == i
  {
    var blocked := p < limit && Busy(slots, SlotAt(key, p, |slots|));
    forall i | 0 <= i < |slots| && Holds(slots[i], key)
      ensures exists q :: 0 <= q < p && SlotAt(key, q, |slots|) == i
    {
      MatchesKey(slots[i], key);
      var r :| 0 <= r < limit && SlotAt(key, r, |slots|) == i && PathBusy(slots, key, r);
      assert p < r ==> blocked;
    }
  }

  /** A search that stops at a free slot, or at the limit, proves the key absent. */
  lemma MissedIsAbsent(slots: seq<Slot>, limit: nat, key: FlowKey, p: nat)
    requires Ok(slots, limit) && Missed(slots, key, p) && p <= limit
    requires p == limit || !Busy(slots, SlotAt(key, p, |slots|))
    ensures Absent(slots, key)
  {
    HoldersAreEarly(slots, limit, key, p);
  }
}
