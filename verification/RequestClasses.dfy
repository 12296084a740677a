/** Which response a request selects, told from its bytes (src/packet/mod.rs:791-821,
    src/packet/packet.wgsl:443-492). */
module RequestClasses {
  import opened Bits
  import opened ByteText
  import opened HttpParse
  import opened Responses

  /** "GET", "/plaintext", "/health", "HTTP/1.0" and "HTTP/1.1". */
  const GET_METHOD: seq<u8> := [0x47, 0x45, 0x54]
  const PLAINTEXT: seq<u8> := [0x2f, 0x70, 0x6c, 0x61, 0x69, 0x6e, 0x74, 0x65, 0x78, 0x74]
  const HEALTH: seq<u8> := [0x2f, 0x68, 0x65, 0x61, 0x6c, 0x74, 0x68]
  const VERSION_1_0: seq<u8> := [0x48, 0x54, 0x54, 0x50, 0x2f, 0x31, 0x2e, 0x30]
  const VERSION_1_1: seq<u8> := [0x48, 0x54, 0x54, 0x50, 0x2f, 0x31, 0x2e, 0x31]

  /** The request line of a method, a path, what follows the path, and a version. */
  function Line(method_: seq<u8>, path: seq<u8>, query: seq<u8>, version: seq<u8>): seq<u8> {
    method_ + [0x20] + (path + query) + [0x20] + version
  }

  /** No CR LF inside. */
  predicate OneLine(line: seq<u8>) {
    forall j :: 0 <= j && j + 1 < |line| ==> !(line[j] == 0x0d && line[j + 1] == 0x0a)
  }

  /** The parts are those of a request line: no spaces in them, no question mark in the path, and
      the query empty or with its question mark. */
  predicate LineParts(method_: seq<u8>, path: seq<u8>, query: seq<u8>, version: seq<u8>) {
    && 0x20 !in method_ && 0x20 !in path && 0x20 !in query && 0x3f !in path
    && (query == [] || query[0] == 0x3f) && path + query != []
    && (version == VERSION_1_0 || version == VERSION_1_1)
  }

  ghost predicate IsRequest(payload: seq<u8>, method_: seq<u8>, path: seq<u8>, query: seq<u8>, version: seq<u8>,
      rest: seq<u8>) {
    && LineParts(method_, path, query, version) && OneLine(Line(method_, path, query, version))
    && payload == Line(method_, path, query, version) + [0x0d, 0x0a] + rest
  }

  /** The payload asks by this method for this path. */
  ghost predicate Asks(payload: seq<u8>, method_: seq<u8>, path: seq<u8>) {
    exists query, version, rest :: IsRequest(payload, method_, path, query, version, rest)
  }

  /** The number of the response: 0 plaintext, 1 health, 2 bad request, 3 not found, 4 method not allowed. */
  ghost predicate Selects(payload: seq<u8>, id: nat) {
    && (id == 0 <==> Asks(payload, GET_METHOD, PLAINTEXT))
    && (id == 1 <==> Asks(payload, GET_METHOD, HEALTH))
    && (id == 3 <==> exists path :: path != PLAINTEXT && path != HEALTH && Asks(payload, GET_METHOD, path))
    && (id == 4 <==> exists method_, path :: method_ != GET_METHOD && Asks(payload, method_, path))
    && (id == 2 <==> forall method_, path :: !Asks(payload, method_, path))
  }

  // ----- a request has the response of its method and path

  lemma FirstCrlf(payload: seq<u8>, line: seq<u8>, rest: seq<u8>)
    requires payload == line + [0x0d, 0x0a] + rest && OneLine(line)
    ensures FirstMatch(payload, CRLF) == Some(|line|) && payload[..|line|] == line
  {
    CrlfAt(payload, |line|);
    forall j | 0 <= j < |line| ensures !MatchAt(payload, CRLF, j) {
      CrlfAt(payload, j);
      assert payload[j] == line[j];
      if j + 1 < |line| {
        assert payload[j + 1] == line[j + 1];
      }
    }
    FirstMatchIs(payload, CRLF, |line|);
  }

  lemma LineSplits(line: seq<u8>, a: seq<u8>, b: seq<u8>, c: seq<u8>)
    requires line == a + [0x20] + b + [0x20] + c && 0x20 !in a && 0x20 !in b && 0x20 !in c
    ensures Split(line, SPACE) == [a, b, c]
  {
    var i := |a|;
    var j := i + 1 + |b|;
    assert line[..i] == a && line[i + 1..j] == b && line[j + 1..] == c;
    assert NoByte(line, SPACE, 0, i);
    forall k | i + 1 <= k < j ensures line[k] != SPACE {
      assert line[k] == b[k - (i + 1)];
    }
    SplitTwice(line, SPACE, i, j);
    SplitWhole(c, SPACE);
  }

  lemma PathIsFirst(path: seq<u8>, query: seq<u8>)
    requires 0x3f !in path && (query == [] || query[0] == 0x3f)
    ensures Split(path + query, QUESTION)[0] == path
  {
    var target := path + query;
    assert NoByte(target, QUESTION, 0, |path|);
    IndexOfIs(target, QUESTION, |path|);
    assert target[..|path|] == path;
  }

  function ResponseFor(method_: seq<u8>, path: seq<u8>): nat {
    if method_ != GET_METHOD then 4 else if path == PLAINTEXT then 0 else if path == HEALTH then 1 else 3
  }

  lemma RequestIsClassified(payload: seq<u8>, method_: seq<u8>, path: seq<u8>, query: seq<u8>, version: seq<u8>,
      rest: seq<u8>)
    requires IsRequest(payload, method_, path, query, version, rest)
    ensures ClassifyHttpRequest(payload) == ResponseFor(method_, path)
  {
    var line := Line(method_, path, query, version);
    FirstCrlf(payload, line, rest);
    VersionHasNoSpace(version);
    LineSplits(line, method_, path + query, version);
    PathIsFirst(path, query);
  }

  lemma VersionHasNoSpace(version: seq<u8>)
    requires version == VERSION_1_0 || version == VERSION_1_1
    ensures 0x20 !in version
  {
  }

  // ----- nothing else has another response than bad request

  lemma {:induction false} PartsAreClean(s: seq<u8>, b: u8)
    ensures forall k :: 0 <= k < |Split(s, b)| ==> b !in Split(s, b)[k]
    decreases |s|
  {
    match IndexOf(s, b)
    case None =>
    case Some(i) =>
      PartsAreClean(s[i + 1..], b);
      assert b !in s[..i];
  }

  lemma CutTarget(target: seq<u8>) returns (path: seq<u8>, query: seq<u8>)
    ensures path == Split(target, QUESTION)[0] && target == path + query
    ensures 0x3f !in path && (query == [] || query[0] == 0x3f)
  {
    PartsAreClean(target, QUESTION);
    path := Split(target, QUESTION)[0];
    query := target[|path|..];
  }

  lemma JoinLine(line: seq<u8>, i: nat, j: nat)
    requires i < j < |line| && line[i] == SPACE && line[j] == SPACE
    ensures line == line[..i] + [0x20] + line[i + 1..j] + [0x20] + line[j + 1..]
  {
  }

  lemma OneLineBefore(payload: seq<u8>, n: nat, line: seq<u8>)
    requires FirstMatch(payload, CRLF) == Some(n) && n <= |payload| && line == payload[..n]
    ensures OneLine(line)
  {
    forall j | 0 <= j && j + 1 < n ensures !(line[j] == 0x0d && line[j + 1] == 0x0a) {
      assert !MatchAt(payload, CRLF, j);
      CrlfAt(payload, j);
    }
  }

  lemma CutAtCrlf(payload: seq<u8>, n: nat)
    requires MatchAt(payload, CRLF, n)
    ensures n + 2 <= |payload| && payload == payload[..n] + [0x0d, 0x0a] + payload[n + 2..]
  {
    CrlfAt(payload, n);
  }

  /** What a payload that is no bad request looks like to the classifier. */
  lemma GoodLine(payload: seq<u8>) returns (n: nat, line: seq<u8>, parts: seq<seq<u8>>)
    requires ClassifyHttpRequest(payload) != 2
    ensures FirstMatch(payload, CRLF) == Some(n) && n <= |payload| && line == payload[..n]
    ensures parts == Split(line, SPACE) && |parts| == 3 && parts[1] != []
    ensures parts[2] == VERSION_1_0 || parts[2] == VERSION_1_1
  {
    n := FirstMatch(payload, CRLF).value;
    line := payload[..n];
    parts := Split(line, SPACE);
  }

  lemma LineFromParts(line: seq<u8>, parts: seq<seq<u8>>) returns (path: seq<u8>, query: seq<u8>)
    requires parts == Split(line, SPACE) && |parts| == 3 && parts[1] != []
    requires parts[2] == VERSION_1_0 || parts[2] == VERSION_1_1
    ensures LineParts(parts[0], path, query, parts[2]) && line == Line(parts[0], path, query, parts[2])
  {
    ThreePartsAre(line);
    PartsAreClean(line, SPACE);
    JoinLine(line, |parts[0]|, |parts[0]| + 1 + |parts[1]|);
    path, query := CutTarget(parts[1]);
    PartsMakeLine(parts[1], parts[0], path, query, parts[2]);
  }

  lemma ClassifiedIsRequest(payload: seq<u8>) returns (method_: seq<u8>, path: seq<u8>)
    requires ClassifyHttpRequest(payload) != 2
    ensures Asks(payload, method_, path)
  {
    var n, line, parts := GoodLine(payload);
    OneLineBefore(payload, n, line);
    CutAtCrlf(payload, n);
    var query;
    method_ := parts[0];
    path, query := LineFromParts(line, parts);
    assert IsRequest(payload, method_, path, query, parts[2], payload[n + 2..]);
  }

  lemma PartsMakeLine(target: seq<u8>, method_: seq<u8>, path: seq<u8>, query: seq<u8>, version: seq<u8>)
    requires 0x20 !in method_ && 0x20 !in target && target == path + query && target != []
    requires 0x3f !in path && (query == [] || query[0] == 0x3f)
    requires version == VERSION_1_0 || version == VERSION_1_1
    ensures LineParts(method_, path, query, version)
  {
    forall k | 0 <= k < |path| ensures path[k] != 0x20 {
      assert path[k] == target[k];
    }
    forall k | 0 <= k < |query| ensures query[k] != 0x20 {
      assert query[k] == target[|path| + k];
    }
  }

  /** Every payload selects the response its bytes ask for: by GET for one of the two paths with any
      query, by GET for another path, by another method, or else it is a bad request. */
  lemma ClassifiesExactly(payload: seq<u8>)
    ensures Selects(payload, ClassifyHttpRequest(payload))
  {
    var id := ClassifyHttpRequest(payload);
    forall method_, path | Asks(payload, method_, path) ensures id == ResponseFor(method_, path) {
      var query, version, rest :| IsRequest(payload, method_, path, query, version, rest);
      RequestIsClassified(payload, method_, path, query, version, rest);
    }
    if id != 2 {
      var method_, path := ClassifiedIsRequest(payload);
    }
  }
}
