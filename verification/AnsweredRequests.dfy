/** What every request is answered with, told from the bytes of the request and of the answer
    (src/router.rs:358-459 and 860-901, src/protocol.rs:61-87, src/processor/http.wgsl:530-585). */
module AnsweredRequests {
  import opened Bits
  import opened ByteText
  import opened Collections
  import opened HttpText
  import opened Router
  import opened CompiledRouter
  import opened HostRouter
  import opened HttpParse
  import opened HttpGpu
  import opened HttpAnswers
  import opened RequestClasses

  // ----- every answer announces its body

  lemma GpuResponseAnnounces(r: Response, e: Echo)
    requires ValidResponse(r)
    ensures Announces(GpuResponseText(r, e), HeadOf(r, HttpText.GPU), GpuBodyText(r.body, e))
  {
    ValidHasNoLineEnd(r.status.reason);
    ValidHasNoLineEnd(r.contentType);
    GpuHasNoLineEnd();
    TextAnnounces(HeadOf(r, HttpText.GPU), GpuBodyText(r.body, e), GpuResponseText(r, e));
  }

  lemma GpuHasNoLineEnd()
    ensures 0x0d !in HttpText.GPU
  {
    assert HttpText.GPU == [0x67, 0x70, 0x75];
  }

  lemma DeclaredIsValid(router: Router, outcome: Request)
    requires AcceptableRouter(router)
    ensures ValidResponse(DeclaredFor(router, outcome))
  {
    if outcome.Get? {
      DeclaredIsOneOf(router.routes, outcome.parts.path, router.fallback);
    }
  }

  /** What a response to this outcome echoes. */
  function Echoed(outcome: Request, request: seq<u8>, backend: seq<u8>): Echo {
    Echo(if outcome.Get? then outcome.parts else NO_PARTS, |request|, backend)
  }

  /** Every answer of the host announces its status and the length of its body, which follows the
      first empty line. */
  lemma AnswerAnnounces(router: Router, request: seq<u8>, backend: seq<u8>)
    requires AcceptableRouter(router) && 0x0d !in backend
    ensures var outcome := ParseRequest(request); var r := DeclaredFor(router, outcome);
            Announces(Answer(router, request, backend), HeadOf(r, backend),
                      BodyText(r.body, Echoed(outcome, request, backend)))
  {
    var outcome := ParseRequest(request);
    DeclaredIsValid(router, outcome);
    ResponseAnnounces(DeclaredFor(router, outcome), Echoed(outcome, request, backend));
  }

  /** So does every answer of the GPU. */
  lemma GpuAnswerAnnounces(router: Router, request: seq<u8>)
    requires AcceptableRouter(router)
    ensures var outcome := ShaderOutcome(request); var r := DeclaredFor(router, outcome);
            && Announces(GpuAnswer(router, request), HeadOf(r, HttpText.GPU),
                         GpuBodyText(r.body, Echoed(outcome, request, HttpText.GPU)))
            && AnswerStatus(router, request) == r.status.code
  {
    var outcome := ShaderOutcome(request);
    DeclaredIsValid(router, outcome);
    GpuResponseAnnounces(DeclaredFor(router, outcome), Echoed(outcome, request, HttpText.GPU));
  }

  // ----- what the body says

  /** The text of a segment, by what it echoes. */
  lemma SegmentSays(s: Segment, e: Echo)
    ensures var text := SegmentText(s, e);
            match s {
              case Literal(t) => text == t
              case Path(max) => text <= e.parts.path && (|text| == max || (text == e.parts.path && |text| <= max))
              case Query(max) => text <= e.parts.query && (|text| == max || (text == e.parts.query && |text| <= max))
              case Backend => text == e.backend
              case RequestBytes => Digits(text) && Value(text) == e.requestLen
              case PathHash => Digits(text) && Value(text) == e.parts.pathHash
              case BackendVariant(cpu, gpu) => text == if e.backend == [0x67, 0x70, 0x75] then gpu else cpu
            }
  {
    DecimalIsValue(e.requestLen);
    DecimalIsValue(e.parts.pathHash);
    assert HttpText.GPU == [0x67, 0x70, 0x75];
  }

  function SegmentTexts(body: Body, e: Echo): (texts: seq<seq<u8>>)
    ensures |texts| == |body|
  {
    seq(|body|, i requires 0 <= i < |body| => SegmentText(body[i], e))
  }

  lemma {:induction false} FlattenSnoc(texts: seq<seq<u8>>, last: seq<u8>)
    ensures Flatten(texts + [last]) == Flatten(texts) + last
  {
    if texts == [] {
      assert texts + [last] == [last];
      assert [last][1..] == [];
    } else {
      assert (texts + [last])[1..] == texts[1..] + [last];
      FlattenSnoc(texts[1..], last);
      assert texts[0] + (Flatten(texts[1..]) + last) == texts[0] + Flatten(texts[1..]) + last;
    }
  }

  /** A body is its segments' texts, in order. */
  lemma {:induction false} BodyIsItsSegments(body: Body, e: Echo)
    ensures BodyText(body, e) == Flatten(SegmentTexts(body, e))
  {
    if body != [] {
      var n := |body| - 1;
      BodyIsItsSegments(body[..n], e);
      assert SegmentTexts(body, e) == SegmentTexts(body[..n], e) + [SegmentText(body[n], e)];
      FlattenSnoc(SegmentTexts(body[..n], e), SegmentText(body[n], e));
    }
  }

  // ----- the request line, in bytes

  /** Neither a space nor a line feed. */
  predicate Word(s: seq<u8>) {
    0x20 !in s && 0x0a !in s
  }

  /** LF, when the line before it does not end in CR, or CR LF. */
  predicate EndsLine(version: seq<u8>, eol: seq<u8>) {
    eol == [0x0d, 0x0a] || (eol == [0x0a] && (version == [] || version[|version| - 1] != 0x0d))
  }

  /** The first line of the request is these three words with single spaces. */
  ghost predicate HasLine(request: seq<u8>, method_: seq<u8>, target: seq<u8>, version: seq<u8>) {
    && Word(method_) && Word(target) && Word(version)
    && exists eol, rest :: EndsLine(version, eol) && request == ThreeWords(method_, target, version) + eol + rest
  }

  function ThreeWords(method_: seq<u8>, target: seq<u8>, version: seq<u8>): seq<u8> {
    method_ + [0x20] + target + [0x20] + version
  }

  lemma WordsHaveNoLineFeed(method_: seq<u8>, target: seq<u8>, version: seq<u8>)
    requires Word(method_) && Word(target) && Word(version)
    ensures 0x0a !in ThreeWords(method_, target, version)
  {
  }

  lemma LineFeedIsFirst(line: seq<u8>, eol: seq<u8>, rest: seq<u8>, request: seq<u8>)
    requires request == line + eol + rest && 0x0a !in line && (eol == [0x0a] || eol == [0x0d, 0x0a])
    ensures IndexOf(request, LF) == Some(|line| + |eol| - 1)
    ensures request[..|line| + |eol| - 1] == line + eol[..|eol| - 1]
  {
    var n := |line| + |eol| - 1;
    assert request[n] == 0x0a;
    forall j | 0 <= j < n ensures request[j] != 0x0a {
      if j < |line| {
        assert request[j] == line[j];
      }
    }
    IndexOfIs(request, LF, n);
  }

  lemma LastOfWords(method_: seq<u8>, target: seq<u8>, version: seq<u8>)
    ensures var line := ThreeWords(method_, target, version);
            line != [] && line[|line| - 1] == if version == [] then 0x20 else version[|version| - 1]
  {
  }

  lemma StripLine(line: seq<u8>, eol: seq<u8>)
    requires line != [] && (eol == [0x0d, 0x0a] || (eol == [0x0a] && line[|line| - 1] != 0x0d))
    ensures StripCr(line + eol[..|eol| - 1]) == line
  {
    if eol == [0x0d, 0x0a] {
      assert (line + [0x0d])[..|line|] == line;
    } else {
      assert line + [] == line;
    }
  }

  lemma FirstLineIsRead(request: seq<u8>, line: seq<u8>, eol: seq<u8>, rest: seq<u8>)
    requires request == line + eol + rest && 0x0a !in line && line != []
    requires eol == [0x0d, 0x0a] || (eol == [0x0a] && line[|line| - 1] != 0x0d)
    ensures RequestLine(request) == Some(line)
  {
    LineFeedIsFirst(line, eol, rest, request);
    StripLine(line, eol);
  }

  lemma WordsAreRead(request: seq<u8>, line: seq<u8>, method_: seq<u8>, target: seq<u8>, version: seq<u8>,
      eol: seq<u8>, rest: seq<u8>)
    requires Word(method_) && Word(target) && Word(version) && line == ThreeWords(method_, target, version)
    requires EndsLine(version, eol) && request == line + eol + rest
    ensures RequestLine(request) == Some(line) && Split(line, SPACE) == [method_, target, version]
  {
    WordsHaveNoLineFeed(method_, target, version);
    LastOfWords(method_, target, version);
    FirstLineIsRead(request, line, eol, rest);
    LineSplits(line, method_, target, version);
  }

  /** Such a line is what the host reads, in three parts. */
  lemma LineIsRead(request: seq<u8>, method_: seq<u8>, target: seq<u8>, version: seq<u8>)
    requires HasLine(request, method_, target, version)
    ensures RequestLine(request).Some? && Split(RequestLine(request).value, SPACE) == [method_, target, version]
  {
    var eol, rest :| EndsLine(version, eol) && request == ThreeWords(method_, target, version) + eol + rest;
    WordsAreRead(request, ThreeWords(method_, target, version), method_, target, version, eol, rest);
  }

  lemma ReadLineEnds(request: seq<u8>, line: seq<u8>) returns (eol: seq<u8>, rest: seq<u8>)
    requires RequestLine(request) == Some(line)
    ensures request == line + eol + rest && 0x0a !in line
    ensures eol == [0x0d, 0x0a] || (eol == [0x0a] && (line == [] || line[|line| - 1] != 0x0d))
  {
    var n := IndexOf(request, LF).value;
    var raw := request[..n];
    assert 0x0a !in raw;
    rest := request[n + 1..];
    if raw != [] && raw[n - 1] == CR {
      eol := [0x0d, 0x0a];
      assert line == raw[..n - 1];
      assert request == raw[..n - 1] + [request[n - 1]] + [request[n]] + rest;
    } else {
      eol := [0x0a];
      assert request == raw + [request[n]] + rest;
    }
  }

  lemma ThreeWordsOf(line: seq<u8>, parts: seq<seq<u8>>) returns (a: seq<u8>, b: seq<u8>, c: seq<u8>)
    requires parts == Split(line, SPACE) && |parts| == 3
    ensures a == parts[0] && b == parts[1] && c == parts[2] && line == ThreeWords(a, b, c)
    ensures 0x20 !in a && 0x20 !in b && 0x20 !in c
  {
    a, b, c := parts[0], parts[1], parts[2];
    ThreePartsAre(line);
    PartsAreClean(line, SPACE);
    JoinLine(line, |a|, |a| + 1 + |b|);
  }

  lemma WordsAreLine(request: seq<u8>, line: seq<u8>, a: seq<u8>, b: seq<u8>, c: seq<u8>, eol: seq<u8>, rest: seq<u8>)
    requires line == ThreeWords(a, b, c) && Word(a) && Word(b) && Word(c) && request == line + eol + rest
    requires eol == [0x0d, 0x0a] || (eol == [0x0a] && (line == [] || line[|line| - 1] != 0x0d))
    ensures HasLine(request, a, b, c)
  {
    LastOfWords(a, b, c);
  }

  /** A line the host reads in three parts is one. */
  lemma ReadIsLine(request: seq<u8>)
    requires ThreeParts(request)
    ensures var parts := Split(RequestLine(request).value, SPACE); HasLine(request, parts[0], parts[1], parts[2])
  {
    var line := RequestLine(request).value;
    var eol, rest := ReadLineEnds(request, line);
    var a, b, c := ThreeWordsOf(line, Split(line, SPACE));
    PartsAreWords(line, a, b, c);
    WordsAreLine(request, line, a, b, c, eol, rest);
  }

  lemma PartsAreWords(line: seq<u8>, a: seq<u8>, b: seq<u8>, c: seq<u8>)
    requires line == ThreeWords(a, b, c) && 0x0a !in line && 0x20 !in a && 0x20 !in b && 0x20 !in c
    ensures Word(a) && Word(b) && Word(c)
  {
    forall k | 0 <= k < |a| ensures a[k] != 0x0a { assert a[k] == line[k]; }
    forall k | 0 <= k < |b| ensures b[k] != 0x0a { assert b[k] == line[|a| + 1 + k]; }
    forall k | 0 <= k < |c| ensures c[k] != 0x0a { assert c[k] == line[|a| + 1 + |b| + 1 + k]; }
  }

  // ----- what the host sees of a request

  /** The request's first line has another method than GET. */
  ghost predicate OtherMethod(request: seq<u8>) {
    exists method_, target, version :: method_ != GET_METHOD && HasLine(request, method_, target, version)
  }

  /** A path from a slash on, without a question mark; behind it nothing, or a question mark and the query. */
  predicate TargetOf(target: seq<u8>, path: seq<u8>, query: seq<u8>) {
    && path != [] && path[0] == 0x2f && 0x3f !in path
    && ((target == path && query == []) || target == path + [0x3f] + query)
  }

  /** The request asks, by GET and a supported version, for this path with this query. */
  ghost predicate AsksFor(request: seq<u8>, path: seq<u8>, query: seq<u8>) {
    exists target, version ::
      && HasLine(request, GET_METHOD, target, version) && (version == VERSION_1_0 || version == VERSION_1_1)
      && TargetOf(target, path, query)
  }

  lemma TargetSplits(target: seq<u8>, path: seq<u8>, query: seq<u8>)
    requires TargetOf(target, path, query)
    ensures SplitTarget(target) == Parts(path, query, HttpText.PathHash(path)) && target != [] && target[0] == 0x2f
  {
    assert NoByte(target, QUESTION, 0, |path|);
    IndexOfIs(target, QUESTION, |path|);
    assert target[..|path|] == path;
    if target != path {
      assert target[|path| + 1..] == query;
    }
  }

  lemma SplitIsTarget(target: seq<u8>)
    requires target != [] && target[0] == 0x2f
    ensures var parts := SplitTarget(target); TargetOf(target, parts.path, parts.query)
  {
    var q := IndexOf(target, QUESTION);
    if q.Some? {
      assert target == target[..q.value] + [0x3f] + target[q.value + 1..];
    }
  }

  lemma AskedIsGet(request: seq<u8>, path: seq<u8>, query: seq<u8>)
    requires AsksFor(request, path, query)
    ensures ParseRequest(request) == Get(Parts(path, query, HttpText.PathHash(path)))
  {
    var target, version :| HasLine(request, GET_METHOD, target, version)
                           && (version == VERSION_1_0 || version == VERSION_1_1) && TargetOf(target, path, query);
    LineIsRead(request, GET_METHOD, target, version);
    TargetSplits(target, path, query);
    HostAccepts(request, RequestLine(request).value, target, version);
  }

  lemma GetIsAsked(request: seq<u8>)
    requires ParseRequest(request).Get?
    ensures var parts := ParseRequest(request).parts;
            AsksFor(request, parts.path, parts.query) && parts.pathHash == HttpText.PathHash(parts.path)
  {
    HostGetParts(request);
    ReadIsLine(request);
    SplitIsTarget(Split(RequestLine(request).value, SPACE)[1]);
    GetPathHash(request);
  }

  /** The host tells requests apart by the bytes of their first line: GET for a path with a query,
      another method, and everything else as malformed. */
  lemma RequestsAreSeen(request: seq<u8>)
    ensures forall path, query ::
              AsksFor(request, path, query) <==>
                ParseRequest(request) == Get(Parts(path, query, HttpText.PathHash(path)))
    ensures OtherMethod(request) <==> ParseRequest(request) == MethodNotAllowed
    ensures (!OtherMethod(request) && forall path, query :: !AsksFor(request, path, query))
            <==> ParseRequest(request) == BadRequest
  {
    forall path, query | AsksFor(request, path, query)
      ensures ParseRequest(request) == Get(Parts(path, query, HttpText.PathHash(path)))
    {
      AskedIsGet(request, path, query);
    }
    if ParseRequest(request).Get? {
      GetIsAsked(request);
    }
    OtherIsSeen(request);
  }

  lemma OtherIsSeen(request: seq<u8>)
    ensures OtherMethod(request) <==> ParseRequest(request) == MethodNotAllowed
  {
    HostRejects(request);
    if OtherMethod(request) {
      var method_, target, version :| method_ != GET_METHOD && HasLine(request, method_, target, version);
      LineIsRead(request, method_, target, version);
    }
    if ThreeParts(request) {
      ReadIsLine(request);
    }
  }

  // ----- what the shader sees of a request

  /** "GET ", a target without spaces, a space, a supported version, and the end of its line. */
  ghost predicate ShaderLine(request: seq<u8>, target: seq<u8>) {
    0x20 !in target && exists version, eol, rest ::
        && (version == VERSION_1_0 || version == VERSION_1_1) && (eol == [0x0a] || eol == [0x0d, 0x0a])
        && request == ThreeWords(GET_METHOD, target, version) + eol + rest
  }

  ghost predicate ShaderAsksFor(request: seq<u8>, path: seq<u8>, query: seq<u8>) {
    exists target :: ShaderLine(request, target) && TargetOf(target, path, query)
  }

  lemma ShaderPieces(request: seq<u8>, target: seq<u8>, version: seq<u8>, eol: seq<u8>, rest: seq<u8>, end: nat)
    requires request == ThreeWords(GET_METHOD, target, version) + eol + rest && end == 4 + |target| && |version| == 8
    ensures end + 9 + |eol| <= |request| && request[..4] == GET_METHOD + [0x20] && request[4..end] == target
    ensures request[end] == 0x20 && request[end + 1..end + 9] == version
    ensures request[end + 9..end + 9 + |eol|] == eol
  {
  }

  lemma EndOfLineAt(request: seq<u8>, p: nat, eol: seq<u8>)
    requires p + |eol| <= |request| && request[p..p + |eol|] == eol && (eol == [0x0a] || eol == [0x0d, 0x0a])
    ensures request[p] == 0x0a || (request[p] == 0x0d && p + 1 < |request| && request[p + 1] == 0x0a)
  {
    assert request[p] == eol[0];
    if |eol| == 2 {
      assert request[p + 1] == eol[1];
    }
  }

  lemma PiecesAreGet(request: seq<u8>, target: seq<u8>, end: nat, path: seq<u8>, query: seq<u8>)
    requires 4 <= end < |request| && request[..4] == GET_SPACE && request[4..end] == target && request[end] == SPACE
    requires 0x20 !in target && TargetOf(target, path, query) && VersionLineAt(request, end + 1)
    ensures ShaderOutcome(request) == Get(Parts(path, query, HttpText.PathHash(path)))
  {
    forall k | 4 <= k < end ensures request[k] != SPACE {
      assert request[k] == target[k - 4];
    }
    TargetEndIs(request, end);
    TargetSplits(target, path, query);
    assert request[4] == target[0];
  }

  lemma ShaderLineIsGet(request: seq<u8>, target: seq<u8>, path: seq<u8>, query: seq<u8>)
    requires ShaderLine(request, target) && TargetOf(target, path, query)
    ensures ShaderOutcome(request) == Get(Parts(path, query, HttpText.PathHash(path)))
  {
    var version, eol, rest :| (version == VERSION_1_0 || version == VERSION_1_1)
                              && (eol == [0x0a] || eol == [0x0d, 0x0a])
                              && request == ThreeWords(GET_METHOD, target, version) + eol + rest;
    var end := 4 + |target|;
    ShaderPieces(request, target, version, eol, rest, end);
    EndOfLineAt(request, end + 9, eol);
    assert GET_SPACE == GET_METHOD + [0x20];
    PiecesAreGet(request, target, end, path, query);
  }

  lemma ShaderGetIsLine(request: seq<u8>)
    requires ShaderOutcome(request).Get?
    ensures var parts := ShaderOutcome(request).parts;
            ShaderAsksFor(request, parts.path, parts.query) && parts.pathHash == HttpText.PathHash(parts.path)
  {
    TargetIsGetLine(request);
    var end := TargetEnd(request).value;
    GetLineIsShaderLine(request, end);
    SplitIsTarget(request[4..end]);
  }

  lemma LineEndAt(request: seq<u8>, p: nat) returns (eol: seq<u8>)
    requires p < |request|
    requires request[p] == LF || (request[p] == CR && p + 1 < |request| && request[p + 1] == LF)
    ensures (eol == [0x0a] || eol == [0x0d, 0x0a]) && p + |eol| <= |request| && request[p..p + |eol|] == eol
  {
    eol := if request[p] == LF then [0x0a] else [0x0d, 0x0a];
  }

  lemma GetLineIsShaderLine(request: seq<u8>, end: nat)
    requires GetLine(request, end)
    ensures ShaderLine(request, request[4..end])
  {
    var eol := LineEndAt(request, end + 9);
    var version, rest := request[end + 1..end + 9], request[end + 9 + |eol|..];
    JoinPieces(request, end, eol);
    assert version == VERSION_1_0 || version == VERSION_1_1;
    assert request == ThreeWords(GET_METHOD, request[4..end], version) + eol + rest;
  }

  lemma JoinPieces(request: seq<u8>, end: nat, eol: seq<u8>)
    requires 4 < end && end + 9 + |eol| <= |request| && request[..4] == GET_SPACE && request[end] == SPACE
    requires request[end + 9..end + 9 + |eol|] == eol
    ensures request == ThreeWords(GET_METHOD, request[4..end], request[end + 1..end + 9]) + eol
                       + request[end + 9 + |eol|..]
  {
    assert GET_SPACE == GET_METHOD + [0x20];
    assert request == request[..4] + request[4..end] + [request[end]] + request[end + 1..end + 9]
                      + request[end + 9..end + 9 + |eol|] + request[end + 9 + |eol|..];
  }

  /** The shader tells requests apart by their bytes, too: too short or malformed, not beginning with
      "GET ", or GET for a path with a query. */
  lemma ShaderRequestsAreSeen(request: seq<u8>)
    ensures forall path, query ::
              ShaderAsksFor(request, path, query) <==>
                ShaderOutcome(request) == Get(Parts(path, query, HttpText.PathHash(path)))
    ensures (|request| >= 4 && request[..4] != [0x47, 0x45, 0x54, 0x20])
            <==> ShaderOutcome(request) == MethodNotAllowed
  {
    forall path, query | ShaderAsksFor(request, path, query)
      ensures ShaderOutcome(request) == Get(Parts(path, query, HttpText.PathHash(path)))
    {
      var target :| ShaderLine(request, target) && TargetOf(target, path, query);
      ShaderLineIsGet(request, target, path, query);
    }
    if ShaderOutcome(request).Get? {
      ShaderGetIsLine(request);
    }
  }

  // ----- every request's answer

  /** The host's answer to a GET request: the response declared for its path, or else the fallback. */
  lemma GetIsAnswered(router: Router, request: seq<u8>, backend: seq<u8>, path: seq<u8>, query: seq<u8>, r: Response)
    requires AcceptableRouter(router) && 0x0d !in backend && AsksFor(request, path, query)
    requires if exists j :: 0 <= j < |router.routes| && router.routes[j].path == path
             then Route(path, r) in router.routes else r == router.fallback
    ensures Announces(Answer(router, request, backend), HeadOf(r, backend),
                      BodyText(r.body, Echo(Parts(path, query, HttpText.PathHash(path)), |request|, backend)))
  {
    RequestsAreSeen(request);
    AnswerAnnounces(router, request, backend);
    DeclaredIsRoute(router, path, r);
  }

  lemma DeclaredIsRoute(router: Router, path: seq<u8>, r: Response)
    requires AcceptableRouter(router)
    requires if exists j :: 0 <= j < |router.routes| && router.routes[j].path == path
             then Route(path, r) in router.routes else r == router.fallback
    ensures Declared(router.routes, path, router.fallback) == r
  {
    if Route(path, r) in router.routes {
      var j :| 0 <= j < |router.routes| && router.routes[j] == Route(path, r);
      DeclaredAt(router.routes, path, router.fallback, j);
    } else {
      NotDeclared(router.routes, path, router.fallback);
    }
  }

  /** Another method gets the response for methods not allowed; what is neither that nor asks for a
      path gets the one for bad requests. */
  lemma OthersAreAnswered(router: Router, request: seq<u8>, backend: seq<u8>)
    requires AcceptableRouter(router) && 0x0d !in backend
    ensures OtherMethod(request) ==>
              Announces(Answer(router, request, backend), HeadOf(router.methodNotAllowed, backend),
                        BodyText(router.methodNotAllowed.body, Echo(NO_PARTS, |request|, backend)))
    ensures (!OtherMethod(request) && forall path, query :: !AsksFor(request, path, query)) ==>
              Announces(Answer(router, request, backend), HeadOf(router.badRequest, backend),
                        BodyText(router.badRequest.body, Echo(NO_PARTS, |request|, backend)))
  {
    RequestsAreSeen(request);
    AnswerAnnounces(router, request, backend);
  }

  /** The GPU's answer to a GET request of the shader's or the host's is that response, too. */
  lemma GetIsAnsweredAlike(router: Router, request: seq<u8>, path: seq<u8>, query: seq<u8>, r: Response)
    requires AcceptableRouter(router) && (AsksFor(request, path, query) || ShaderAsksFor(request, path, query))
    requires if exists j :: 0 <= j < |router.routes| && router.routes[j].path == path
             then Route(path, r) in router.routes else r == router.fallback
    ensures Announces(GpuAnswer(router, request), HeadOf(r, HttpText.GPU),
                      GpuBodyText(r.body, Echo(Parts(path, query, HttpText.PathHash(path)), |request|, HttpText.GPU)))
  {
    RequestsAreSeen(request);
    ShaderRequestsAreSeen(request);
    if AsksFor(request, path, query) {
      HostGetIsShaderGet(request);
    }
    GpuAnswerAnnounces(router, request);
    DeclaredIsRoute(router, path, r);
  }

  /** The GPU's answers to everything else. */
  lemma GpuOthersAreAnswered(router: Router, request: seq<u8>)
    requires AcceptableRouter(router) && forall path, query :: !ShaderAsksFor(request, path, query)
    ensures var r := if |request| >= 4 && request[..4] != [0x47, 0x45, 0x54, 0x20] then router.methodNotAllowed
                     else router.badRequest;
            Announces(GpuAnswer(router, request), HeadOf(r, HttpText.GPU),
                      GpuBodyText(r.body, Echo(NO_PARTS, |request|, HttpText.GPU)))
  {
    ShaderRequestsAreSeen(request);
    GpuAnswerAnnounces(router, request);
    if ShaderOutcome(request).Get? {
      ShaderGetIsLine(request);
    }
  }

  // ----- every route is reachable

  /** The paths a router accepts: from a slash on, without question mark, number sign, space or control
      byte; and the header values: printable ASCII. */
  lemma AcceptedBytes(path: seq<u8>, value: seq<u8>)
    ensures ValidPath(path) <==>
              && path != [] && path[0] == 0x2f && |path| < 0x1_0000_0000
              && 0x3f !in path && 0x23 !in path && 0x20 !in path && 0x7f !in path
              && forall i :: 0 <= i < |path| ==> path[i] >= 0x20
    ensures ValidHeader(value) <==> value != [] && forall i :: 0 <= i < |value| ==> 0x20 <= value[i] < 0x7f
  {
    if ValidHeader(value) {
      forall i | 0 <= i < |value| ensures 0x20 <= value[i] < 0x7f {
        assert PrintableByte(value[i]);
      }
    }
    if ValidPath(path) {
      forall i | 0 <= i < |path| ensures path[i] > 0x20 && path[i] != 0x7f && path[i] != 0x3f && path[i] != 0x23 {
        assert PathByte(path[i]);
      }
    }
  }

  /** "GET ", a path, and " HTTP/1.1", with two line ends. */
  function PlainGet(path: seq<u8>): seq<u8> {
    GET_METHOD + [0x20] + path + [0x20] + VERSION_1_1 + [0x0d, 0x0a, 0x0d, 0x0a]
  }

  lemma PlainGetAsks(path: seq<u8>)
    requires ValidPath(path)
    ensures AsksFor(PlainGet(path), path, [])
  {
    forall i | 0 <= i < |path| ensures path[i] != 0x20 && path[i] != 0x0a && path[i] != 0x3f {
      assert PathByte(path[i]);
    }
    var line, eol, rest := ThreeWords(GET_METHOD, path, VERSION_1_1), [0x0d, 0x0a], [0x0d, 0x0a];
    assert PlainGet(path) == line + eol + rest;
    assert EndsLine(VERSION_1_1, eol);
    assert HasLine(PlainGet(path), GET_METHOD, path, VERSION_1_1);
  }

  /** A plain request for the path of any route is answered with that route's response, by both
      backends. */
  lemma EveryRouteIsReachable(router: Router, j: nat, backend: seq<u8>)
    requires AcceptableRouter(router) && j < |router.routes| && 0x0d !in backend
    ensures var path, r := router.routes[j].path, router.routes[j].response;
            var request := PlainGet(path); var parts := Parts(path, [], HttpText.PathHash(path));
            && Announces(Answer(router, request, backend), HeadOf(r, backend),
                         BodyText(r.body, Echo(parts, |request|, backend)))
            && Announces(GpuAnswer(router, request), HeadOf(r, HttpText.GPU),
                         GpuBodyText(r.body, Echo(parts, |request|, HttpText.GPU)))
  {
    var path, r := router.routes[j].path, router.routes[j].response;
    assert router.routes[j] == Route(path, r);
    PlainGetAsks(path);
    GetIsAnswered(router, PlainGet(path), backend, path, [], r);
    GetIsAnsweredAlike(router, PlainGet(path), path, [], r);
  }
}
