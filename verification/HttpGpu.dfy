/** The GPU HTTP processor end to end (src/processor/gpu.rs:608-647 and 712-746,
    src/processor/http.wgsl:528-552): what it answers, when that is the declared answer, and why
    no response overflows its slot. */
module HttpGpu {
  import opened Bits
  import opened ByteText
  import opened Packing
  import opened HttpText
  import opened HttpWriter
  import opened HttpParse
  import opened HttpAssets
  import opened HttpShader
  import opened Router
  import opened CompiledRouter
  import opened HostRouter

  // ----- the meaning of the shader's responses

  /** The reserved header tail is replaced wherever its string is used. */
  function Replaced(text: seq<u8>): seq<u8> {
    if text == RESERVED_TAIL then PERSISTENT_TAIL else text
  }

  function GpuSegmentText(s: Segment, e: Echo): seq<u8> {
    match s
    case Literal(text) => Replaced(text)
    case BackendVariant(cpu, gpu) => Replaced(gpu)
    case _ => SegmentText(s, e)
  }

  function GpuBodyText(body: Body, e: Echo): seq<u8> {
    if body == [] then [] else GpuBodyText(body[..|body| - 1], e) + GpuSegmentText(body[|body| - 1], e)
  }

  function GpuResponseText(r: Response, e: Echo): seq<u8> {
    var body := GpuBodyText(r.body, e);
    HTTP_VERSION + Decimal(r.status.code) + [SPACE] + r.status.reason + CONTENT_TYPE + r.contentType
    + CONTENT_LENGTH + Decimal(|body|) + PERSISTENT_TAIL + body
  }

  function GpuAnswer(router: Router, request: seq<u8>): seq<u8> {
    match ShaderOutcome(request)
    case Get(parts) =>
      GpuResponseText(Declared(router.routes, parts.path, router.fallback), Echo(parts, |request|, HttpText.GPU))
    case BadRequest => GpuResponseText(router.badRequest, Echo(NO_PARTS, |request|, HttpText.GPU))
    case MethodNotAllowed => GpuResponseText(router.methodNotAllowed, Echo(NO_PARTS, |request|, HttpText.GPU))
  }

  // ----- when they are the declared ones

  predicate UsesReserved(s: Segment) {
    s == Literal(RESERVED_TAIL) || (s.BackendVariant? && s.gpu == RESERVED_TAIL)
  }

  predicate BodyUsesReserved(body: Body) {
    exists i :: 0 <= i < |body| && UsesReserved(body[i])
  }

  lemma SegmentShrinks(s: Segment, e: Echo)
    requires e.backend == HttpText.GPU
    ensures UsesReserved(s) ==> |GpuSegmentText(s, e)| < |SegmentText(s, e)|
    ensures !UsesReserved(s) ==> GpuSegmentText(s, e) == SegmentText(s, e)
  {
  }

  lemma {:induction false} BodyShrinks(body: Body, e: Echo)
    requires e.backend == HttpText.GPU
    ensures BodyUsesReserved(body) ==> |GpuBodyText(body, e)| < |BodyText(body, e)|
    ensures !BodyUsesReserved(body) ==> GpuBodyText(body, e) == BodyText(body, e)
  {
    if body != [] {
      var n := |body| - 1;
      BodyShrinks(body[..n], e);
      SegmentShrinks(body[n], e);
      ReservedAtEnd(body);
    }
  }

  lemma ReservedAtEnd(body: Body)
    requires body != []
    ensures BodyUsesReserved(body) <==> BodyUsesReserved(body[..|body| - 1]) || UsesReserved(body[|body| - 1])
  {
    var front := body[..|body| - 1];
    if BodyUsesReserved(front) {
      var i :| 0 <= i < |front| && UsesReserved(front[i]);
      assert UsesReserved(body[i]);
    }
    if BodyUsesReserved(body) && !UsesReserved(body[|body| - 1]) {
      var i :| 0 <= i < |body| && UsesReserved(body[i]);
      assert UsesReserved(front[i]);
    }
  }

  /** The shader's response is the declared one exactly when its body does not use the reserved text. */
  lemma ResponsesAgreeExactly(r: Response, e: Echo)
    requires e.backend == HttpText.GPU
    ensures GpuResponseText(r, e) == ResponseText(r, e) <==> !BodyUsesReserved(r.body)
    ensures |GpuResponseText(r, e)| <= |ResponseText(r, e)|
  {
    BodyShrinks(r.body, e);
    DecimalGrows(|GpuBodyText(r.body, e)|, |BodyText(r.body, e)|);
    var prefix := HTTP_VERSION + Decimal(r.status.code) + [SPACE] + r.status.reason + CONTENT_TYPE
      + r.contentType + CONTENT_LENGTH;
    var gpuBody, body := GpuBodyText(r.body, e), BodyText(r.body, e);
    assert |GpuResponseText(r, e)| == |prefix| + |Decimal(|gpuBody|)| + |PERSISTENT_TAIL| + |gpuBody|;
    assert |ResponseText(r, e)| == |prefix| + |Decimal(|body|)| + |PERSISTENT_TAIL| + |body|;
  }

  lemma {:induction false} DeclaredIsOneOf(routes: seq<Route>, path: seq<u8>, fallback: Response)
    ensures var r := Declared(routes, path, fallback);
            r == fallback || exists j :: 0 <= j < |routes| && r == routes[j].response
  {
    if routes != [] && routes[0].path != path {
      DeclaredIsOneOf(routes[1..], path, fallback);
      if Declared(routes, path, fallback) != fallback {
        var j :| 0 <= j < |routes[1..]| && Declared(routes, path, fallback) == routes[1..][j].response;
        assert routes[j + 1] == routes[1..][j];
      }
    }
  }

  /** The response a request selects. */
  function DeclaredFor(router: Router, outcome: Request): Response {
    match outcome
    case Get(parts) => Declared(router.routes, parts.path, router.fallback)
    case BadRequest => router.badRequest
    case MethodNotAllowed => router.methodNotAllowed
  }

  /** Both backends mean the same: for every router and every request the two parsers see alike, the
      GPU answers what the host answers for the backend "gpu" if and only if the body of the
      response that the request selects does not use the reserved text. */
  lemma AnswersAgreeExactly(router: Router, request: seq<u8>)
    requires ParsesAlike(request)
    ensures GpuAnswer(router, request) == Answer(router, request, HttpText.GPU)
            <==> !BodyUsesReserved(DeclaredFor(router, ParseRequest(request)).body)
  {
    OutcomesAgreeExactly(request);
    var r := DeclaredFor(router, ParseRequest(request));
    match ParseRequest(request)
    case Get(parts) => ResponsesAgreeExactly(r, Echo(parts, |request|, HttpText.GPU));
    case BadRequest => ResponsesAgreeExactly(r, Echo(NO_PARTS, |request|, HttpText.GPU));
    case MethodNotAllowed => ResponsesAgreeExactly(r, Echo(NO_PARTS, |request|, HttpText.GPU));
  }

  // ----- from compiled to declared

  lemma TextOf(strings: seq<seq<u8>>, headerTail: nat, id: nat, text: seq<u8>)
    requires NoDuplicates(strings) && Interned(strings, headerTail, RESERVED_TAIL) && Interned(strings, id, text)
    ensures TextAt(ShaderStrings(strings, headerTail), id) == Replaced(text)
  {
  }

  lemma SegmentMeans(strings: seq<seq<u8>>, ids: StringIds, c: CompiledSegment, s: Segment, e: Echo)
    requires NoDuplicates(strings) && IdsFrom(strings, ids) && SegmentFrom(strings, c, s) && e.backend == HttpText.GPU
    ensures CompiledText(ShaderStrings(strings, ids.headerTail), c, e) == GpuSegmentText(s, e)
    ensures SegmentIn(ShaderStrings(strings, ids.headerTail), c)
  {
    match s
    case Literal(text) => TextOf(strings, ids.headerTail, c.id, text);
    case BackendVariant(cpu, gpu) => TextOf(strings, ids.headerTail, c.gpu, gpu);
    case _ =>
  }

  lemma {:induction false} ProgramMeans(strings: seq<seq<u8>>, ids: StringIds, segments: seq<CompiledSegment>,
      body: Body, e: Echo)
    requires NoDuplicates(strings) && IdsFrom(strings, ids) && BodyFrom(strings, segments, body)
             && e.backend == HttpText.GPU
    ensures ProgramText(ShaderStrings(strings, ids.headerTail), segments, e) == GpuBodyText(body, e)
  {
    if body != [] {
      var n := |body| - 1;
      ProgramMeans(strings, ids, segments[..n], body[..n], e);
      SegmentMeans(strings, ids, segments[n], body[n], e);
    }
  }

  lemma HeaderIsNotReserved(value: seq<u8>)
    requires ValidHeader(value)
    ensures value != RESERVED_TAIL
  {
    assert PrintableByte(value[0]);
    ReservedStart();
  }

  lemma ReservedStart()
    ensures RESERVED_TAIL[0] == CR
  {
    assert CONNECTION_CLOSE[0] == CR;
  }

  /** The compiled program of a response, interpreted with the uploaded strings, is its meaning. */
  lemma ResponseMeans(strings: seq<seq<u8>>, ids: StringIds, c: CompiledResponse, r: Response, e: Echo)
    requires NoDuplicates(strings) && IdsFrom(strings, ids) && CompiledFrom(strings, c, r) && ValidResponse(r)
    requires e.backend == HttpText.GPU
    ensures ShaderResponse(ShaderStrings(strings, ids.headerTail), ids, c, e) == GpuResponseText(r, e)
    ensures ResponseIn(ShaderStrings(strings, ids.headerTail), ids, c)
  {
    var texts := ShaderStrings(strings, ids.headerTail);
    ProgramMeans(strings, ids, c.segments, r.body, e);
    forall k | 0 <= k < |c.segments| ensures SegmentIn(texts, c.segments[k]) {
      SegmentMeans(strings, ids, c.segments[k], r.body[k], e);
    }
    HeaderIsNotReserved(r.status.reason);
    HeaderIsNotReserved(r.contentType);
    TextOf(strings, ids.headerTail, c.reasonId, r.status.reason);
    TextOf(strings, ids.headerTail, c.contentTypeId, r.contentType);
    FixedTexts(strings, ids);
    SameJoin(HTTP_VERSION, Decimal(c.status), [SPACE], r.status.reason, CONTENT_TYPE, r.contentType, CONTENT_LENGTH,
             Decimal(|GpuBodyText(r.body, e)|), PERSISTENT_TAIL, GpuBodyText(r.body, e));
  }

  lemma FixedTexts(strings: seq<seq<u8>>, ids: StringIds)
    requires NoDuplicates(strings) && IdsFrom(strings, ids)
    ensures var texts := ShaderStrings(strings, ids.headerTail);
            && TextAt(texts, ids.httpVersion) == HTTP_VERSION && TextAt(texts, ids.contentType) == CONTENT_TYPE
            && TextAt(texts, ids.contentLength) == CONTENT_LENGTH && TextAt(texts, ids.headerTail) == PERSISTENT_TAIL
            && TextAt(texts, ids.gpu) == HttpText.GPU
  {
    assert |HTTP_VERSION| == 9 && |CONTENT_TYPE| == 16 && |CONTENT_LENGTH| == 18 && |HttpText.GPU| == 3;
    assert |RESERVED_TAIL| > 18;
    TextOf(strings, ids.headerTail, ids.httpVersion, HTTP_VERSION);
    TextOf(strings, ids.headerTail, ids.contentType, CONTENT_TYPE);
    TextOf(strings, ids.headerTail, ids.contentLength, CONTENT_LENGTH);
    TextOf(strings, ids.headerTail, ids.headerTail, RESERVED_TAIL);
    TextOf(strings, ids.headerTail, ids.gpu, HttpText.GPU);
  }

  lemma SameJoin(a: seq<u8>, b: seq<u8>, c: seq<u8>, d: seq<u8>, e: seq<u8>, f: seq<u8>, g: seq<u8>, h: seq<u8>,
      i: seq<u8>, j: seq<u8>)
    ensures (a + b + c + d) + (e + f + g + h + i) + j == a + b + c + d + e + f + g + h + i + j
  {
  }

  // ----- no overflow

  /** No response of the router is longer than the compiler's bound. */
  lemma DeclaredIsBounded(router: Router, c: CompiledRouter, outcome: Request)
    requires BoundFrom(router, c.maxGpuResponseBytes)
    ensures MaxResponseBytes(DeclaredFor(router, outcome)) <= c.maxGpuResponseBytes
  {
    if outcome.Get? {
      DeclaredIsOneOf(router.routes, outcome.parts.path, router.fallback);
    }
  }

  /** What a response echoes of a request. */
  function EchoOf(outcome: Request, requestLen: nat): Echo {
    Echo(if outcome.Get? then outcome.parts else NO_PARTS, requestLen, HttpText.GPU)
  }

  /** No request makes a response longer than the compiler's bound. */
  lemma AnswerFits(router: Router, c: CompiledRouter, request: seq<u8>)
    requires CompilesTo(router, c) && |request| < 0x1_0000_0000
    ensures 0 < |GpuAnswer(router, request)| <= c.maxGpuResponseBytes
  {
    var outcome := ShaderOutcome(request);
    var r := DeclaredFor(router, outcome);
    DeclaredIsBounded(router, c, outcome);
    ResponseFits(r, EchoOf(outcome, |request|));
    assert GpuAnswer(router, request) == GpuResponseText(r, EchoOf(outcome, |request|));
  }

  lemma ResponseFits(r: Response, e: Echo)
    requires e.backend == HttpText.GPU && e.requestLen < 0x1_0000_0000
    ensures 0 < |GpuResponseText(r, e)| <= MaxResponseBytes(r)
    ensures |GpuBodyText(r.body, e)| <= |GpuResponseText(r, e)|
  {
    ResponsesAgreeExactly(r, e);
    ResponseBound(r, e);
  }

  // ----- one thread

  /** The uploaded router, and the bounds under which byte positions in the arena and in a slot, and
      word positions in the program, fit u32. */
  ghost predicate Serving(router: Router, c: CompiledRouter, metadata: seq<StringMeta>, arena: seq<u32>,
      stride: nat) {
    && CompilesTo(router, c)
    && ArenaFrom(metadata, arena, ShaderStrings(c.strings, c.ids.headerTail))
    && c.maxGpuResponseBytes <= 4 * stride < 0x1_0000_0000
    && 4 * |arena| <= 0x1_0000_0000 && |c.words| <= 0x1_0000_0000
  }

  /** The word positions of the packed requests and of the output fit u32. */
  predicate IndexesFit(words: seq<u32>, outputWords: nat) {
    |words| <= 0x1_0000_0000 && outputWords <= 0x1_0000_0000
  }

  lemma PathIsNotReserved(path: seq<u8>)
    requires ValidPath(path)
    ensures path != RESERVED_TAIL
  {
    ReservedStart();
  }

  lemma RoutesAreInArena(router: Router, c: CompiledRouter)
    requires CompilesTo(router, c)
    ensures PathsAreInArena(c)
  {
    forall i | 0 <= i < |c.routes| ensures c.routes[i].path != RESERVED_TAIL {
      assert HasSource(c.strings, c.routes[i], router.routes);
      PathIsNotReserved(c.routes[i].path);
    }
  }

  /** The status of an answer. */
  function AnswerStatus(router: Router, request: seq<u8>): u16 {
    match ShaderOutcome(request)
    case Get(parts) => Declared(router.routes, parts.path, router.fallback).status.code
    case BadRequest => router.badRequest.status.code
    case MethodNotAllowed => router.methodNotAllowed.status.code
  }

  lemma ContextHolds(c: CompiledRouter, metadata: seq<StringMeta>, arena: seq<u32>, words: seq<u32>, wordOffset: nat,
      t: RequestTarget, request: seq<u8>, parts: Parts)
    requires NoDuplicates(c.strings) && IdsFrom(c.strings, c.ids)
    requires ArenaFrom(metadata, arena, ShaderStrings(c.strings, c.ids.headerTail))
    requires Loaded(words, wordOffset, request) && |request| < 0x1_0000_0000 && TargetParts(t, request, parts)
    ensures InContext(Context(words, wordOffset, t, metadata, arena, c.words, c.ids),
                      ShaderStrings(c.strings, c.ids.headerTail), request, Echo(parts, |request|, HttpText.GPU))
  {
    FixedTexts(c.strings, c.ids);
  }

  lemma NoTarget(request: seq<u8>)
    ensures TargetParts(InvalidTarget(|request|), request, NO_PARTS)
  {
    assert request[0..0] == [];
  }

  /** The slot holds this text, and the metadata says so. */
  ghost predicate Responded(before: seq<u32>, after: seq<u32>, base: nat, stride: nat, text: seq<u8>, status: u16,
      meta: ResponseMeta) {
    && Only(before, after, base, base + stride)
    && HoldsBytes(after, 4 * base, text)
    && meta == ResponseMeta(|text|, status, 0)
  }

  lemma FourTimes(n: nat)
    ensures 4 * n % 4 == 0 && 4 * n / 4 == n
  {
  }

  /** A program whose response is known, written into a slot that is large enough. */
  method WriteKnown(output: array<u32>, base: nat, stride: nat, x: Context, offset: nat, ghost c: CompiledResponse,
      ghost texts: seq<seq<u8>>, ghost request: seq<u8>, ghost e: Echo, ghost text: seq<u8>)
    returns (meta: ResponseMeta)
    requires base + stride <= output.Length
    requires InContext(x, texts, request, e) && ProgramAt(x.program, offset, c) && ResponseIn(texts, x.ids, c)
    requires |ProgramText(texts, c.segments, e)| < 0x1_0000_0000
    requires ShaderResponse(texts, x.ids, c, e) == text && |text| <= 4 * stride
    modifies output
    ensures Responded(old(output[..]), output[..], base, stride, text, c.status, meta)
  {
    var capacity := 4 * stride;
    FourTimes(stride);
    meta := WriteResponse(output, base, capacity, x, offset, c, texts, request, e, text);
  }

  /** What the shader writes for a compiled response is its meaning, and its length fits. */
  lemma KnownResponse(strings: seq<seq<u8>>, ids: StringIds, c: CompiledResponse, r: Response, e: Echo)
    requires NoDuplicates(strings) && IdsFrom(strings, ids) && CompiledFrom(strings, c, r) && ValidResponse(r)
    requires e.backend == HttpText.GPU && |GpuResponseText(r, e)| < 0x1_0000_0000 && e.requestLen < 0x1_0000_0000
    ensures var texts := ShaderStrings(strings, ids.headerTail);
            && ResponseIn(texts, ids, c) && |ProgramText(texts, c.segments, e)| < 0x1_0000_0000
            && ShaderResponse(texts, ids, c, e) == GpuResponseText(r, e)
  {
    ResponseMeans(strings, ids, c, r, e);
    ProgramMeans(strings, ids, c.segments, r.body, e);
    ResponseFits(r, e);
  }

  /** A program of the compiled router stands for this declared response. */
  ghost predicate Stands(c: CompiledRouter, offset: nat, cr: CompiledResponse, r: Response, stride: nat) {
    && ProgramAt(c.words, offset, cr) && CompiledFrom(c.strings, cr, r) && ValidResponse(r)
    && MaxResponseBytes(r) <= 4 * stride
  }

  /** Answers a target with the program at an offset. */
  method RespondWith(c: CompiledRouter, metadata: seq<StringMeta>, arena: seq<u32>, stride: nat, output: array<u32>,
      base: nat, words: seq<u32>, wordOffset: nat, t: RequestTarget, offset: nat, ghost cr: CompiledResponse,
      ghost r: Response, ghost request: seq<u8>, ghost parts: Parts)
    returns (meta: ResponseMeta)
    requires NoDuplicates(c.strings) && IdsFrom(c.strings, c.ids)
    requires ArenaFrom(metadata, arena, ShaderStrings(c.strings, c.ids.headerTail))
    requires Stands(c, offset, cr, r, stride) && base + stride <= output.Length && 4 * stride < 0x1_0000_0000
    requires Loaded(words, wordOffset, request) && |request| < 0xffff_fff0 && TargetParts(t, request, parts)
    modifies output
    ensures Responded(old(output[..]), output[..], base, stride,
                      GpuResponseText(r, Echo(parts, |request|, HttpText.GPU)), r.status.code, meta)
  {
    ContextHolds(c, metadata, arena, words, wordOffset, t, request, parts);
    var x := Context(words, wordOffset, t, metadata, arena, c.words, c.ids);
    ghost var e := Echo(parts, |request|, HttpText.GPU);
    ResponseFits(r, e);
    KnownResponse(c.strings, c.ids, cr, r, e);
    meta := WriteKnown(output, base, stride, x, offset, cr, ShaderStrings(c.strings, c.ids.headerTail), request, e,
      GpuResponseText(r, e));
  }

  lemma TargetHash(request: seq<u8>)
    requires ShaderTarget(request).Some?
    ensures var p := ShaderTarget(request).value; p.pathHash == HttpText.PathHash(p.path)
  {
  }

  lemma OthersStand(router: Router, c: CompiledRouter, stride: nat)
    requires CompilesTo(router, c) && c.maxGpuResponseBytes <= 4 * stride
    ensures Stands(c, c.layout.badRequest, c.badRequest, router.badRequest, stride)
    ensures Stands(c, c.layout.methodNotAllowed, c.methodNotAllowed, router.methodNotAllowed, stride)
  {
  }

  lemma SelectedStands(router: Router, c: CompiledRouter, stride: nat, parts: Parts, found: Option<nat>, offset: nat)
    requires CompilesTo(router, c) && c.maxGpuResponseBytes <= 4 * stride
    requires Found(c.routes, parts.pathHash, parts.path, found) && parts.pathHash == HttpText.PathHash(parts.path)
    requires ProgramAt(c.words, offset, Selected(c.routes, found, c.fallback))
    ensures Stands(c, offset, Selected(c.routes, found, c.fallback),
            Declared(router.routes, parts.path, router.fallback), stride)
  {
    CompiledHashes(c.strings, c.routes, router.routes);
    LookupIsDeclared(HttpText.PathHash, c.strings, c.routes, router.routes, parts.path, found, c.fallback,
      router.fallback);
    DeclaredIsOneOf(router.routes, parts.path, router.fallback);
  }

  /** The two answers that need no target. */
  method RespondInvalid(c: CompiledRouter, metadata: seq<StringMeta>, arena: seq<u32>, stride: nat,
      output: array<u32>, base: nat, words: seq<u32>, wordOffset: nat, inputLen: nat, get: bool,
      ghost request: seq<u8>, ghost router: Router)
    returns (meta: ResponseMeta)
    requires Serving(router, c, metadata, arena, stride) && base + stride <= output.Length
    requires Loaded(words, wordOffset, request) && |request| == inputLen < 0xffff_fff0
    requires ShaderOutcome(request) == if get then BadRequest else MethodNotAllowed
    modifies output
    ensures Responded(old(output[..]), output[..], base, stride, GpuAnswer(router, request),
            AnswerStatus(router, request), meta)
  {
    NoTarget(request);
    OthersStand(router, c, stride);
    if get {
      meta := RespondWith(c, metadata, arena, stride, output, base, words, wordOffset, InvalidTarget(inputLen),
                          c.layout.badRequest, c.badRequest, router.badRequest, request, NO_PARTS);
    } else {
      meta := RespondWith(c, metadata, arena, stride, output, base, words, wordOffset, InvalidTarget(inputLen),
                          c.layout.methodNotAllowed, c.methodNotAllowed, router.methodNotAllowed, request, NO_PARTS);
    }
  }

  /** A whole thread of the shader: for every request its slot holds the answer, never an overflow. */
  method ProcessRequest(c: CompiledRouter, metadata: seq<StringMeta>, arena: seq<u32>, stride: nat,
      output: array<u32>, base: nat, words: seq<u32>, wordOffset: nat, inputLen: nat, ghost request: seq<u8>,
      ghost router: Router)
    returns (meta: ResponseMeta)
    requires Serving(router, c, metadata, arena, stride) && base + stride <= output.Length
    requires Loaded(words, wordOffset, request) && |request| == inputLen < 0xffff_fff0
    requires IndexesFit(words, output.Length)
    modifies output
    ensures Responded(old(output[..]), output[..], base, stride, GpuAnswer(router, request),
            AnswerStatus(router, request), meta)
  {
    if inputLen < 4 {
      meta := RespondInvalid(c, metadata, arena, stride, output, base, words, wordOffset, inputLen, true,
        request, router);
      return;
    }
    var get := IsGetRequest(words, wordOffset, inputLen, request);
    if !get {
      meta := RespondInvalid(c, metadata, arena, stride, output, base, words, wordOffset, inputLen, false,
        request, router);
      return;
    }
    var t := ParseGetTarget(words, wordOffset, inputLen, request);
    if !t.valid {
      meta := RespondInvalid(c, metadata, arena, stride, output, base, words, wordOffset, inputLen, true,
        request, router);
      return;
    }
    meta := RespondToGet(c, metadata, arena, stride, output, base, words, wordOffset, t, request, router,
      ShaderTarget(request).value);
  }

  /** A valid GET: the route's response, or the fallback. */
  method RespondToGet(c: CompiledRouter, metadata: seq<StringMeta>, arena: seq<u32>, stride: nat, output: array<u32>,
      base: nat, words: seq<u32>, wordOffset: nat, t: RequestTarget, ghost request: seq<u8>, ghost router: Router,
      ghost parts: Parts)
    returns (meta: ResponseMeta)
    requires Serving(router, c, metadata, arena, stride) && base + stride <= output.Length
    requires Loaded(words, wordOffset, request) && |request| < 0xffff_fff0 && TargetParts(t, request, parts)
    requires ShaderTarget(request) == Some(parts)
    modifies output
    ensures var r := Declared(router.routes, parts.path, router.fallback);
            Responded(old(output[..]), output[..], base, stride,
                      GpuResponseText(r, Echo(parts, |request|, HttpText.GPU)), r.status.code, meta)
  {
    RoutesAreInArena(router, c);
    TargetHash(request);
    var offset, found := FindResponseOffset(c, metadata, arena, words, wordOffset, t, request, parts);
    SelectedStands(router, c, stride, parts, found, offset);
    meta := RespondWith(c, metadata, arena, stride, output, base, words, wordOffset, t, offset,
                        Selected(c.routes, found, c.fallback),
                          Declared(router.routes, parts.path, router.fallback), request, parts);
  }

  // ----- the two limits, on concrete input

  /** A body that is the reserved text: the shader writes the persistent tail in its place. */
  lemma ReservedBodyDiffers(status: Status, contentType: seq<u8>, parts: Parts)
    ensures var r := Response(status, contentType, [Literal(RESERVED_TAIL)]); var e := Echo(parts, 0, HttpText.GPU);
            GpuResponseText(r, e) != ResponseText(r, e)
  {
    var r := Response(status, contentType, [Literal(RESERVED_TAIL)]);
    assert UsesReserved(r.body[0]);
    ResponsesAgreeExactly(r, Echo(parts, 0, HttpText.GPU));
  }

  /** `words_for_bytes`, and the capacity the shader computes from it in u32. */
  function WordsForBytes(bytes: nat): nat {
    (bytes + 3) / 4
  }

  function SlotCapacity(strideWords: nat): u32 {
    strideWords * 4 % 0x1_0000_0000
  }

  /** The slot is large enough for its bound exactly when the rounded bound fits u32; for the three
      largest bounds the shader computes a capacity of zero. */
  lemma CapacityFitsExactly(bound: u32)
    ensures bound <= SlotCapacity(WordsForBytes(bound)) <==> bound <= 0xffff_fffc
    ensures bound > 0xffff_fffc ==> SlotCapacity(WordsForBytes(bound)) == 0
    ensures bound <= 0xffff_fffc ==> SlotCapacity(WordsForBytes(bound)) == 4 * WordsForBytes(bound)
  {
  }
}
