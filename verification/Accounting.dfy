/** What the CPU engine's sequence numbers mean: every reachable flow is, modulo 2^32, an
    account of unbounded byte counts (src/packet/cpu.rs:114-144 and 190-210). */
module Accounting {
  import opened Bits
  import opened Wire
  import opened Responses
  import opened CpuEngine

  /** The last data segment accepted, by position in the client's stream, and the position in
      the server's stream of the response it drew. */
  datatype LastExchange = LastExchange(clientStart: nat, clientLen: nat, responseStart: nat, responseId: ResponseId)

  /** A flow as its peers would count it: bytes accepted, issued and acknowledged since the handshake. */
  datatype Account = Account(
    clientIsn: u32, established: bool, accepted: nat, issued: nat, acknowledged: nat, last: Option<LastExchange>)

  predicate Balanced(table: ResponseTable, a: Account) {
    && (!a.established ==> a.accepted == 0 && a.issued == 0 && a.acknowledged == 0 && a.last.None?)
    && a.acknowledged <= a.issued
    && (a.last.Some? ==>
          && 0 < a.last.value.clientLen < 0x1_0000
          && a.last.value.clientStart + a.last.value.clientLen == a.accepted
          && a.last.value.responseStart + |table[a.last.value.responseId]| == a.issued)
  }

  /** The sequence number of a position in a stream: one after the initial number, and one more
      for every byte. */
  function At(isn: u32, position: nat): u32 {
    if position == 0 then Add32(isn, 1) else Add32(At(isn, position - 1), 1)
  }

  lemma {:induction false} AtIs(isn: u32, position: nat)
    ensures At(isn, position) == (isn + 1 + position) % 0x1_0000_0000
  {
    if position > 0 {
      AtIs(isn, position - 1);
      WrapAdd(isn + position, 1);
    }
  }

  function RecvNext(a: Account): u32 {
    At(a.clientIsn, a.accepted)
  }

  function SendNext(key: FlowKey, a: Account): u32 {
    At(ServerIsn(key), a.issued)
  }

  /** The flow record a balanced account is kept as. */
  function Kept(key: FlowKey, a: Account): Flow {
    Flow(if a.established then Established else SynReceived,
         RecvNext(a), SendNext(key, a),
         if a.established then At(ServerIsn(key), a.acknowledged) else ServerIsn(key),
         match a.last
         case None => None
         case Some(last) => Some(LastResponse(At(a.clientIsn, last.clientStart), last.clientLen,
                                              At(ServerIsn(key), last.responseStart),
                                              RecvNext(a), last.responseId)))
  }

  function KeptOption(key: FlowKey, a: Option<Account>): Option<Flow> {
    match a
    case None => None
    case Some(x) => Some(Kept(key, x))
  }

  // ----- the protocol on accounts

  function Opening(tcp: Tcp): Account {
    Account(tcp.seqno, false, 0, 0, 0, None)
  }

  /** A SYN opens a flow, or reopens a half-open one under a new number. */
  function OnSyn(a: Option<Account>, tcp: Tcp): Account {
    if a.None? || (!a.value.established && a.value.clientIsn != tcp.seqno) then Opening(tcp) else a.value
  }

  function SynAnswer(a: Account, key: FlowKey): Reply {
    if a.established then Reply(SendNext(key, a), RecvNext(a), TCP_ACK, None)
    else Reply(ServerIsn(key), RecvNext(a), TCP_SYN + TCP_ACK, None)
  }

  /** The segment acknowledges everything issued. */
  predicate AcksAll(a: Account, tcp: Tcp) {
    HasFlag(tcp.flags, TCP_ACK) && tcp.ack == SendNext(tcp.key, a)
  }

  /** The segment starts at the next expected byte. */
  predicate InOrder(a: Account, tcp: Tcp) {
    tcp.seqno == RecvNext(a)
  }

  /** The segment is the last accepted one again. */
  predicate Repeats(a: Account, tcp: Tcp) {
    a.last.Some? && tcp.seqno == At(a.clientIsn, a.last.value.clientStart) && |tcp.payload| == a.last.value.clientLen
  }

  function Acked(a: Account, tcp: Tcp): Account {
    if AcksAll(a, tcp) then a.(acknowledged := a.issued) else a
  }

  function AcceptData(table: ResponseTable, a: Account, tcp: Tcp): Account {
    var id := ClassifyHttpRequest(tcp.payload);
    a.(accepted := a.accepted + |tcp.payload|, issued := a.issued + |table[id]|,
       last := Some(LastExchange(a.accepted, |tcp.payload|, a.issued, id)))
  }

  function OnSegment(table: ResponseTable, a: Account, tcp: Tcp): (Option<Account>, Option<Reply>) {
    var fin := HasFlag(tcp.flags, TCP_FIN);
    if !InOrder(a, tcp) then
      (Some(a),
       if Repeats(a, tcp)
       then Some(Reply(At(ServerIsn(tcp.key), a.last.value.responseStart), RecvNext(a), TCP_ACK + TCP_PSH,
                       Some(a.last.value.responseId)))
       else Some(Reply(SendNext(tcp.key, a), RecvNext(a), TCP_ACK, None)))
    else if tcp.payload == [] then
      if fin then (None, Some(Reply(SendNext(tcp.key, a), At(a.clientIsn, a.accepted + 1), TCP_ACK, None)))
      else (Some(a), None)
    else
      var after := AcceptData(table, a, tcp);
      var ack := At(a.clientIsn, after.accepted + if fin then 1 else 0);
      (if fin then None else Some(after),
       Some(Reply(SendNext(tcp.key, a), ack, TCP_ACK + TCP_PSH, Some(after.last.value.responseId))))
  }

  function OnPacket(table: ResponseTable, a: Option<Account>, tcp: Tcp): (Option<Account>, Option<Reply>) {
    if HasFlag(tcp.flags, TCP_RST) then (None, None)
    else if BareSyn(tcp.flags) then (Some(OnSyn(a, tcp)), Some(SynAnswer(OnSyn(a, tcp), tcp.key)))
    else if a.None? then (None, None)
    else if a.value.established then OnSegment(table, Acked(a.value, tcp), tcp)
    else if AcksAll(a.value, tcp) && InOrder(a.value, tcp) then OnSegment(table, a.value.(established := true), tcp)
    else (a, None)
  }

  // ----- the engine keeps accounts

  lemma AtAdds(isn: u32, position: nat, n: nat)
    ensures Add32(At(isn, position), n) == At(isn, position + n)
  {
    AtIs(isn, position);
    AtIs(isn, position + n);
    WrapAdd(isn + 1 + position, n);
  }

  lemma AtStart(isn: u32)
    ensures At(isn, 0) == Add32(isn, 1) && Sub32(At(isn, 0), 1) == isn
  {
  }

  lemma AtIsInjective(a: u32, b: u32)
    ensures At(a, 0) == At(b, 0) <==> a == b
  {
  }

  lemma SynKeeps(table: ResponseTable, a: Option<Account>, tcp: Tcp)
    requires a.Some? ==> Balanced(table, a.value)
    ensures Balanced(table, OnSyn(a, tcp))
    ensures SynStep(KeptOption(tcp.key, a), tcp) == Kept(tcp.key, OnSyn(a, tcp))
    ensures SynReply(Kept(tcp.key, OnSyn(a, tcp))) == SynAnswer(OnSyn(a, tcp), tcp.key)
  {
    AtStart(tcp.seqno);
    AtStart(ServerIsn(tcp.key));
    if a.Some? {
      AtIsInjective(a.value.clientIsn, tcp.seqno);
    }
  }

  lemma DataKeeps(table: ResponseTable, a: Account, tcp: Tcp)
    requires Balanced(table, a) && a.established && InOrder(a, tcp) && 0 < |tcp.payload| < 0x1_0000
    ensures Balanced(table, AcceptData(table, a, tcp))
    ensures !HasFlag(tcp.flags, TCP_FIN) ==>
              DataStep(table, Kept(tcp.key, a), tcp) == Kept(tcp.key, AcceptData(table, a, tcp))
    ensures DataReply(table, Kept(tcp.key, a), tcp) == OnSegment(table, a, tcp).1.value
  {
    DataNumbers(table, a, tcp);
  }

  /** The numbers in the engine's step are those of the positions after the segment. */
  lemma DataNumbers(table: ResponseTable, a: Account, tcp: Tcp)
    requires InOrder(a, tcp)
    ensures var fin := if HasFlag(tcp.flags, TCP_FIN) then 1 else 0;
            Add32(Add32(tcp.seqno, |tcp.payload|), fin) == At(a.clientIsn, a.accepted + |tcp.payload| + fin)
    ensures var len := |table[ClassifyHttpRequest(tcp.payload)]|;
            Add32(SendNext(tcp.key, a), len) == At(ServerIsn(tcp.key), a.issued + len)
  {
    AfterData(a.clientIsn, a.accepted, |tcp.payload|, if HasFlag(tcp.flags, TCP_FIN) then 1 else 0);
    AtAdds(ServerIsn(tcp.key), a.issued, |table[ClassifyHttpRequest(tcp.payload)]|);
  }

  lemma AfterData(isn: u32, accepted: nat, len: nat, fin: nat)
    ensures Add32(Add32(At(isn, accepted), len), fin) == At(isn, accepted + len + fin)
  {
    AtAdds(isn, accepted, len);
    AtAdds(isn, accepted + len, fin);
  }

  lemma SegmentKeeps(table: ResponseTable, a: Account, tcp: Tcp)
    requires Balanced(table, a) && a.established && |tcp.payload| < 0x1_0000
    ensures var (after, reply) := OnSegment(table, a, tcp);
            && (after.Some? ==> Balanced(table, after.value))
            && EstablishedStep(table, Kept(tcp.key, a), tcp) == (KeptOption(tcp.key, after), reply)
  {
    AtAdds(a.clientIsn, a.accepted, 1);
    if InOrder(a, tcp) && tcp.payload != [] {
      DataKeeps(table, a, tcp);
    }
  }

  lemma AckKeeps(table: ResponseTable, a: Account, tcp: Tcp)
    requires Balanced(table, a) && a.established
    ensures Balanced(table, Acked(a, tcp)) && Acknowledge(Kept(tcp.key, a), tcp) == Kept(tcp.key, Acked(a, tcp))
  {
  }

  lemma HandshakeKeeps(table: ResponseTable, a: Account, tcp: Tcp)
    requires Balanced(table, a) && !a.established
    ensures CompletesHandshake(Kept(tcp.key, a), tcp) <==> AcksAll(a, tcp) && InOrder(a, tcp)
    ensures AcksAll(a, tcp) ==>
              Kept(tcp.key, a).(state := Established, sendUnacked := tcp.ack)
              == Kept(tcp.key, a.(established := true))
  {
  }

  /** One packet: the engine's record is the account's, and the replies are equal. */
  lemma PacketKeeps(table: ResponseTable, a: Option<Account>, tcp: Tcp)
    requires (a.Some? ==> Balanced(table, a.value)) && |tcp.payload| < 0x1_0000
    ensures var (after, reply) := OnPacket(table, a, tcp);
            && (after.Some? ==> Balanced(table, after.value))
            && FlowStep(table, KeptOption(tcp.key, a), tcp) == (KeptOption(tcp.key, after), reply)
  {
    if HasFlag(tcp.flags, TCP_RST) {
    } else if BareSyn(tcp.flags) {
      SynKeeps(table, a, tcp);
    } else if a.Some? {
      if a.value.established {
        AckKeeps(table, a.value, tcp);
        SegmentKeeps(table, Acked(a.value, tcp), tcp);
      } else {
        HandshakeKeeps(table, a.value, tcp);
        SegmentKeeps(table, a.value.(established := true), tcp);
      }
    }
  }

  // ----- every reachable table

  type Accounts = map<FlowKey, Account>

  function AccountOf(m: Accounts, key: FlowKey): Option<Account> {
    if key in m then Some(m[key]) else None
  }

  function Record(m: Accounts, key: FlowKey, a: Option<Account>): Accounts {
    match a
    case None => m - {key}
    case Some(x) => m[key := x]
  }

  /** The accounts after n packets, a new flow being refused when the table is full. */
  function Books(config: Config, segs: Segments, n: nat): Accounts
    requires n <= |segs|
  {
    if n == 0 then map[]
    else
      var before := Books(config, segs, n - 1);
      match segs[n - 1]
      case None => before
      case Some(t) => BooksOne(config, before, t)
  }

  /** The table is the accounts', flow by flow. */
  ghost predicate KeepsBooks(config: Config, flows: Flows, books: Accounts) {
    && flows.Keys == books.Keys
    && |flows| <= config.flowCapacity
    && forall k :: k in books ==> KeptRight(config, flows, books, k)
  }

  predicate KeptRight(config: Config, flows: Flows, books: Accounts, k: FlowKey) {
    k in books && k in flows && Balanced(config.table, books[k]) && flows[k] == Kept(k, books[k])
  }

  lemma RemovalShrinks<K, V>(m: map<K, V>, k: K)
    ensures |m - {k}| <= |m|
    ensures (m - {k}).Keys == m.Keys - {k}
  {
    assert (m - {k}).Keys == m.Keys - {k};
    if k in m {
      assert |m.Keys - {k}| == |m.Keys| - 1;
    } else {
      assert m.Keys - {k} == m.Keys;
    }
  }

  lemma UpdateGrows<K, V>(m: map<K, V>, k: K, v: V)
    ensures |m[k := v]| == if k in m then |m| else |m| + 1
    ensures m[k := v].Keys == m.Keys + {k}
  {
    assert m[k := v].Keys == m.Keys + {k};
    if k in m {
      assert m.Keys + {k} == m.Keys;
    }
  }

  lemma StoringKeepsBooks(config: Config, flows: Flows, books: Accounts, k: FlowKey, a: Option<Account>)
    requires KeepsBooks(config, flows, books) && (a.Some? ==> Balanced(config.table, a.value))
    requires k in flows || |flows| < config.flowCapacity || a.None?
    ensures KeepsBooks(config, Put(flows, k, KeptOption(k, a)), Record(books, k, a))
  {
    var flows', books' := Put(flows, k, KeptOption(k, a)), Record(books, k, a);
    if a.Some? {
      UpdateGrows(flows, k, Kept(k, a.value));
      UpdateGrows(books, k, a.value);
    } else {
      RemovalShrinks(flows, k);
      RemovalShrinks(books, k);
    }
    forall k' | k' in books' ensures KeptRight(config, flows', books', k') {
      assert k' != k ==> KeptRight(config, flows, books, k');
    }
  }

  function BooksOne(config: Config, books: Accounts, t: Tcp): Accounts {
    if !HasFlag(t.flags, TCP_RST) && BareSyn(t.flags) && t.key !in books && |books| >= config.flowCapacity then books
    else Record(books, t.key, OnPacket(config.table, AccountOf(books, t.key), t).0)
  }

  lemma SameSize<K, V, W>(a: map<K, V>, b: map<K, W>)
    requires a.Keys == b.Keys
    ensures |a| == |b|
  {
    assert |a| == |a.Keys| && |b| == |b.Keys|;
  }

  lemma OneMorePacket(config: Config, flows: Flows, books: Accounts, t: Tcp)
    requires KeepsBooks(config, flows, books) && |t.payload| < 0x1_0000
    ensures KeepsBooks(config, TableStep(config, flows, t).0, BooksOne(config, books, t))
  {
    SameSize(flows, books);
    var a := AccountOf(books, t.key);
    PacketKeeps(config.table, a, t);
    if !Refused(config, flows, t) {
      OnlySynOpens(config.table, a, t);
      StoringKeepsBooks(config, flows, books, t.key, OnPacket(config.table, a, t).0);
    }
  }

  lemma OnlySynOpens(table: ResponseTable, a: Option<Account>, t: Tcp)
    ensures a.None? && OnPacket(table, a, t).0.Some? ==> !HasFlag(t.flags, TCP_RST) && BareSyn(t.flags)
  {
  }

  /** Every table the engine reaches from the empty one, over every run of packets, keeps the
      accounts of its flows and never exceeds its capacity. */
  lemma {:induction false} EveryTableKeepsBooks(config: Config, segs: Segments, n: nat)
    requires n <= |segs| && forall i :: 0 <= i < |segs| && segs[i].Some? ==> |segs[i].value.payload| < 0x1_0000
    ensures KeepsBooks(config, Loop(config, map[], segs, n).0, Books(config, segs, n))
  {
    if n > 0 {
      EveryTableKeepsBooks(config, segs, n - 1);
      if segs[n - 1].Some? {
        OneMorePacket(config, Loop(config, map[], segs, n - 1).0, Books(config, segs, n - 1), segs[n - 1].value);
      }
    }
  }
}
