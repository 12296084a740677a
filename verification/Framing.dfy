/** Request framing on a connection (src/network.rs:143-185): what is read depends on the bytes and
    the limit only, never on how the stream was cut into reads. */
module Framing {
  import opened Bits
  import opened Collections
  import opened ByteText

  const HEADER_TERMINATOR: seq<u8> := [13, 10, 13, 10]

  /** What a read returns; `LastServed` ends a connection whose last request asked for it. */
  datatype Outcome = Request(bytes: seq<u8>) | Closed | Incomplete | TooLarge | LastServed

  /** Which requests close the connection after their response. */
  type KeepAlive = seq<u8> -> bool

  /** `complete_header_len` */
  function CompleteHeaderLen(bytes: seq<u8>): Option<nat> {
    match FirstMatch(bytes, HEADER_TERMINATOR)
    case None => None
    case Some(position) => Some(position + 4)
  }

  // ----- the meaning of a whole stream

  /** What comes first in a finite stream. */
  function First(stream: seq<u8>, maxBytes: nat): Outcome {
    match CompleteHeaderLen(stream)
    case Some(n) => if n > maxBytes then TooLarge else Request(stream[..n])
    case None =>
      if |stream| >= maxBytes then TooLarge
      else if stream == [] then Closed else Incomplete
  }

  /** The requests served on a finite stream, how it ends, and the bytes after the last request. */
  function Frames(stream: seq<u8>, maxBytes: nat, closes: KeepAlive): (r: (seq<seq<u8>>, Outcome, seq<u8>))
    decreases |stream|
  {
    match First(stream, maxBytes)
    case Request(bytes) =>
      if closes(bytes) then ([bytes], LastServed, stream[|bytes|..])
      else
        var (requests, end, rest) := Frames(stream[|bytes|..], maxBytes, closes);
        ([bytes] + requests, end, rest)
    case end => ([], end, stream)
  }

  /** A request that ends at its first terminator and respects the limit. */
  predicate WellFramed(request: seq<u8>, maxBytes: nat) {
    |request| <= maxBytes && CompleteHeaderLen(request) == Some(|request|)
  }

  lemma OneMoreFrame(first: seq<u8>, requests: seq<seq<u8>>, rest: seq<u8>, tail: seq<u8>, stream: seq<u8>,
      maxBytes: nat)
    requires Flatten(requests) + rest == tail && stream == first + tail
    requires WellFramed(first, maxBytes) && forall i :: 0 <= i < |requests| ==> WellFramed(requests[i], maxBytes)
    ensures Flatten([first] + requests) + rest == stream
    ensures forall i :: 0 <= i < |[first] + requests| ==> WellFramed(([first] + requests)[i], maxBytes)
  {
    assert ([first] + requests)[1..] == requests;
    assert first + Flatten(requests) + rest == first + (Flatten(requests) + rest);
  }

  lemma FirstIsWellFramed(stream: seq<u8>, maxBytes: nat)
    requires First(stream, maxBytes).Request?
    ensures var bytes := First(stream, maxBytes).bytes;
            WellFramed(bytes, maxBytes) && 0 < |bytes| <= |stream| && stream == bytes + stream[|bytes|..]
  {
    HeaderOfPrefix(stream);
  }

  /** The requests and the remainder are the stream, byte for byte, and every request is well framed. */
  lemma {:induction false} FramesPartition(stream: seq<u8>, maxBytes: nat, closes: KeepAlive)
    ensures var (requests, end, rest) := Frames(stream, maxBytes, closes);
            && Flatten(requests) + rest == stream && !end.Request?
            && forall i :: 0 <= i < |requests| ==> WellFramed(requests[i], maxBytes)
    decreases |stream|
  {
    var first := First(stream, maxBytes);
    if first.Request? {
      FirstIsWellFramed(stream, maxBytes);
      var tail := stream[|first.bytes|..];
      if closes(first.bytes) {
        OneMoreFrame(first.bytes, [], tail, tail, stream, maxBytes);
      } else {
        FramesPartition(tail, maxBytes, closes);
        var (requests, end, rest) := Frames(tail, maxBytes, closes);
        OneMoreFrame(first.bytes, requests, rest, tail, stream, maxBytes);
      }
    }
  }

  /** A request that closes the connection is the last one served. */
  lemma {:induction false} OnlyTheLastCloses(stream: seq<u8>, maxBytes: nat, closes: KeepAlive)
    ensures var (requests, end, rest) := Frames(stream, maxBytes, closes);
            LastCloses(requests, end, closes)
    decreases |stream|
  {
    var first := First(stream, maxBytes);
    if first.Request? && !closes(first.bytes) {
      FirstIsWellFramed(stream, maxBytes);
      var tail := stream[|first.bytes|..];
      OnlyTheLastCloses(tail, maxBytes, closes);
      var (requests, end, rest) := Frames(tail, maxBytes, closes);
      OneMoreStaysOpen(first.bytes, requests, end, closes);
    }
  }

  ghost predicate LastCloses(requests: seq<seq<u8>>, end: Outcome, closes: KeepAlive) {
    && (end.LastServed? ==> requests != [])
    && forall i :: 0 <= i < |requests| ==> (closes(requests[i]) <==> i == |requests| - 1 && end.LastServed?)
  }

  lemma OneMoreStaysOpen(first: seq<u8>, requests: seq<seq<u8>>, end: Outcome, closes: KeepAlive)
    requires LastCloses(requests, end, closes) && !closes(first)
    ensures LastCloses([first] + requests, end, closes)
  {
  }

  lemma HeaderOfPrefix(stream: seq<u8>)
    requires CompleteHeaderLen(stream).Some?
    ensures var n := CompleteHeaderLen(stream).value; n <= |stream| && CompleteHeaderLen(stream[..n]) == Some(n)
  {
    var p := FirstMatch(stream, HEADER_TERMINATOR).value;
    var head := stream[..p + 4];
    assert head[p..p + 4] == stream[p..p + 4];
    forall j | 0 <= j < p ensures !MatchAt(head, HEADER_TERMINATOR, j) {
      assert head[j..j + 4] == stream[j..j + 4];
      assert !MatchAt(stream, HEADER_TERMINATOR, j);
    }
    FirstMatchIs(head, HEADER_TERMINATOR, p);
  }

  // ----- the same in bytes

  /** CR LF CR LF ends at n. */
  predicate EndsAt(s: seq<u8>, n: nat) {
    4 <= n <= |s| && s[n - 4] == 0x0d && s[n - 3] == 0x0a && s[n - 2] == 0x0d && s[n - 1] == 0x0a
  }

  /** It ends there first. */
  predicate FirstEndsAt(s: seq<u8>, n: nat) {
    EndsAt(s, n) && forall k: nat :: k < n ==> !EndsAt(s, k)
  }

  lemma TerminatorAt(s: seq<u8>, i: nat)
    ensures MatchAt(s, HEADER_TERMINATOR, i) <==> EndsAt(s, i + 4)
  {
    if i + 4 <= |s| {
      assert s[i..i + 4] == [s[i], s[i + 1], s[i + 2], s[i + 3]];
    }
  }

  lemma EndIsFound(s: seq<u8>, n: nat)
    requires FirstEndsAt(s, n)
    ensures FirstMatch(s, HEADER_TERMINATOR) == Some(n - 4)
  {
    TerminatorAt(s, n - 4);
    forall j | 0 <= j < n - 4 ensures !MatchAt(s, HEADER_TERMINATOR, j) {
      TerminatorAt(s, j);
    }
    FirstMatchIs(s, HEADER_TERMINATOR, n - 4);
  }

  /** The header is complete exactly at the first terminator. */
  lemma CompleteInBytes(s: seq<u8>, n: nat)
    ensures CompleteHeaderLen(s) == Some(n) <==> FirstEndsAt(s, n)
  {
    if CompleteHeaderLen(s) == Some(n) {
      TerminatorAt(s, n - 4);
      forall k: nat | k < n ensures !EndsAt(s, k) {
        if k >= 4 {
          TerminatorAt(s, k - 4);
          assert !MatchAt(s, HEADER_TERMINATOR, k - 4);
        }
      }
    }
    if FirstEndsAt(s, n) {
      EndIsFound(s, n);
    }
  }

  /** What comes first in a stream: the bytes up to the first CR LF CR LF, when they respect the limit;
      without one, the end of the stream decides. */
  lemma FirstInBytes(stream: seq<u8>, maxBytes: nat)
    ensures forall n: nat :: FirstEndsAt(stream, n) ==>
              First(stream, maxBytes) == if n <= maxBytes then Request(stream[..n]) else TooLarge
    ensures (forall n: nat :: !EndsAt(stream, n)) ==>
              First(stream, maxBytes)
              == if |stream| >= maxBytes then TooLarge else if stream == [] then Closed else Incomplete
  {
    forall n: nat | FirstEndsAt(stream, n)
      ensures First(stream, maxBytes) == if n <= maxBytes then Request(stream[..n]) else TooLarge
    {
      CompleteInBytes(stream, n);
    }
    if CompleteHeaderLen(stream).Some? {
      CompleteInBytes(stream, CompleteHeaderLen(stream).value);
    }
  }

  /** Every request served ends with CR LF CR LF, and has none before. */
  lemma RequestsEndInBytes(stream: seq<u8>, maxBytes: nat, closes: KeepAlive)
    ensures var requests := Frames(stream, maxBytes, closes).0;
            forall i :: 0 <= i < |requests| ==> FirstEndsAt(requests[i], |requests[i]|)
  {
    FramesPartition(stream, maxBytes, closes);
    var requests := Frames(stream, maxBytes, closes).0;
    forall i | 0 <= i < |requests| ensures FirstEndsAt(requests[i], |requests[i]|) {
      CompleteInBytes(requests[i], |requests[i]|);
    }
  }

  // ----- more bytes behind a prefix

  /** A terminator found in a prefix is the first of the stream. */
  lemma FoundInPrefix(prefix: seq<u8>, more: seq<u8>)
    requires CompleteHeaderLen(prefix).Some?
    ensures CompleteHeaderLen(prefix + more) == CompleteHeaderLen(prefix)
    ensures CompleteHeaderLen(prefix).value <= |prefix|
  {
    var p := FirstMatch(prefix, HEADER_TERMINATOR).value;
    var all := prefix + more;
    assert all[p..p + 4] == prefix[p..p + 4];
    forall j | 0 <= j < p ensures !MatchAt(all, HEADER_TERMINATOR, j) {
      assert all[j..j + 4] == prefix[j..j + 4];
      assert !MatchAt(prefix, HEADER_TERMINATOR, j);
    }
    FirstMatchIs(all, HEADER_TERMINATOR, p);
  }

  /** Without one in the prefix, the first of the stream ends beyond it. */
  lemma NotInPrefix(prefix: seq<u8>, more: seq<u8>)
    requires CompleteHeaderLen(prefix).None?
    ensures CompleteHeaderLen(prefix + more).Some? ==> CompleteHeaderLen(prefix + more).value > |prefix|
  {
    var all := prefix + more;
    var found := FirstMatch(all, HEADER_TERMINATOR);
    if found.Some? && found.value + 4 <= |prefix| {
      assert prefix[found.value..found.value + 4] == all[found.value..found.value + 4];
      assert MatchAt(prefix, HEADER_TERMINATOR, found.value);
    }
  }

  /** What a search of the pending bytes says about the whole stream. */
  lemma FirstFound(pending: seq<u8>, rest: seq<u8>, maxBytes: nat, n: nat)
    requires CompleteHeaderLen(pending) == Some(n)
    ensures n <= |pending|
    ensures First(pending + rest, maxBytes) == if n > maxBytes then TooLarge else Request(pending[..n])
    ensures pending[..n] + (pending[n..] + rest) == pending + rest
  {
    FoundInPrefix(pending, rest);
    assert (pending + rest)[..n] == pending[..n];
  }

  lemma FirstOverfull(pending: seq<u8>, rest: seq<u8>, maxBytes: nat)
    requires CompleteHeaderLen(pending).None? && |pending| >= maxBytes
    ensures First(pending + rest, maxBytes) == TooLarge
  {
    NotInPrefix(pending, rest);
  }

  lemma FirstAtEnd(pending: seq<u8>, rest: seq<u8>, maxBytes: nat)
    requires CompleteHeaderLen(pending).None? && |pending| < maxBytes && rest == []
    ensures First(pending + rest, maxBytes) == if pending == [] then Closed else Incomplete
  {
    assert pending + rest == pending;
  }

  // ----- the connection

  /** A connection: bytes read but not yet returned, and the reads still to come. */
  class Connection {
    var pending: seq<u8>
    var unread: seq<seq<u8>>

    /** Reads are at most one buffer and not empty; an empty read is the end of the stream. */
    predicate Valid()
      reads this
    {
      forall i :: 0 <= i < |unread| ==> 0 < |unread[i]| <= 1024
    }

    /** Everything not yet returned. */
    function Remaining(): seq<u8>
      reads this
    {
      pending + Flatten(unread)
    }

    constructor (unread: seq<seq<u8>>)
      requires forall i :: 0 <= i < |unread| ==> 0 < |unread[i]| <= 1024
      ensures Valid() && Remaining() == Flatten(unread) && pending == []
    {
      this.pending, this.unread := [], unread;
    }

    /** `stream.read` into the buffer. */
    method Read() returns (chunk: seq<u8>)
      requires Valid()
      modifies this`unread
      ensures Valid()
      ensures chunk == [] <==> old(unread) == []
      ensures chunk + Flatten(unread) == old(Flatten(unread)) && |unread| <= |old(unread)|
      ensures chunk != [] ==> |unread| < |old(unread)|
    {
      if unread == [] {
        return [];
      }
      chunk := unread[0];
      unread := unread[1..];
    }

    /** Returns the next request of the remaining stream, or its end; nothing is lost. */
    method ReadRawRequest(maxBytes: nat) returns (r: Outcome)
      requires Valid()
      modifies this
      ensures Valid() && r == First(old(Remaining()), maxBytes)
      ensures if r.Request? then r.bytes + Remaining() == old(Remaining()) else Remaining() == old(Remaining())
      ensures !r.Request? && !r.TooLarge? ==> unread == []
    {
      ghost var stream := Remaining();
      while true
        invariant Valid() && Remaining() == stream
        decreases |unread|
      {
        var header := CompleteHeaderLen(pending);
        if header.Some? {
          FirstFound(pending, Flatten(unread), maxBytes, header.value);
          if header.value > maxBytes {
            return TooLarge;
          }
          r := Request(pending[..header.value]);
          pending := pending[header.value..];
          return;
        }
        if |pending| >= maxBytes {
          FirstOverfull(pending, Flatten(unread), maxBytes);
          return TooLarge;
        }
        var chunk := Read();
        if chunk == [] {
          FirstAtEnd(pending, Flatten(unread), maxBytes);
          return if pending == [] then Closed else Incomplete;
        }
        assert pending + (chunk + Flatten(unread)) == pending + chunk + Flatten(unread);
        pending := pending + chunk;
      }
    }

    /** The requests a connection serves, and how it ends, for any way of cutting the stream into reads. */
    method ReadAll(maxBytes: nat, closes: KeepAlive) returns (requests: seq<seq<u8>>, end: Outcome)
      requires Valid()
      modifies this
      ensures Valid() && (requests, end, Remaining()) == Frames(old(Remaining()), maxBytes, closes)
    {
      ghost var stream := Remaining();
      requests := [];
      assert [] + Frames(stream, maxBytes, closes).0 == Frames(stream, maxBytes, closes).0;
      while true
        invariant Valid()
        invariant Extended(requests, Frames(Remaining(), maxBytes, closes)) == Frames(stream, maxBytes, closes)
        decreases |Remaining()|
      {
        ghost var left := Remaining();
        var r := ReadRawRequest(maxBytes);
        if !r.Request? {
          assert requests + [] == requests;
          return requests, r;
        }
        assert left[|r.bytes|..] == Remaining();
        FirstIsWellFramed(left, maxBytes);
        if closes(r.bytes) {
          return requests + [r.bytes], LastServed;
        }
        ExtendedTwice(requests, r.bytes, Frames(Remaining(), maxBytes, closes));
        requests := requests + [r.bytes];
      }
    }
  }

  function Extended(first: seq<seq<u8>>, more: (seq<seq<u8>>, Outcome, seq<u8>)): (seq<seq<u8>>, Outcome, seq<u8>) {
    (first + more.0, more.1, more.2)
  }

  lemma ExtendedTwice(first: seq<seq<u8>>, bytes: seq<u8>, more: (seq<seq<u8>>, Outcome, seq<u8>))
    ensures Extended(first, Extended([bytes], more)) == Extended(first + [bytes], more)
  {
    assert first + ([bytes] + more.0) == first + [bytes] + more.0;
  }
}
