/** The host's router (src/router.rs:361-459): the lookup by hash and the rendering loop answer
    every request with the declared response. */
module HostRouter {
  import opened Bits
  import opened ByteText
  import opened HttpText
  import opened Router
  import opened CompiledRouter
  import opened HttpAnswers

  // ----- the lookup

  predicate Candidate(routes: seq<CompiledRoute>, hash: u32, path: seq<u8>, i: nat) {
    i < |routes| && routes[i].pathHash == hash && routes[i].path == path
  }

  /** A route with this hash and path, or the knowledge that there is none. */
  ghost predicate Found(routes: seq<CompiledRoute>, hash: u32, path: seq<u8>, found: Option<nat>) {
    match found
    case Some(i) => Candidate(routes, hash, path, i)
    case None => forall i: nat :: !Candidate(routes, hash, path, i)
  }

  /** No route of a smaller hash is at or beyond, no other before. */
  ghost predicate LowerBound(routes: seq<CompiledRoute>, hash: u32, lower: nat) {
    && lower <= |routes|
    && (forall i :: 0 <= i < lower ==> routes[i].pathHash < hash)
    && (forall i :: lower <= i < |routes| ==> routes[i].pathHash >= hash)
  }

  /** `partition_point` */
  method PartitionPoint(routes: seq<CompiledRoute>, hash: u32) returns (lower: nat)
    requires SortedByHash(routes)
    ensures LowerBound(routes, hash, lower)
  {
    lower := 0;
    var upper := |routes|;
    while lower < upper
      invariant 0 <= lower <= upper <= |routes|
      invariant forall i :: 0 <= i < lower ==> routes[i].pathHash < hash
      invariant forall i :: upper <= i < |routes| ==> routes[i].pathHash >= hash
    {
      var middle := lower + (upper - lower) / 2;
      if routes[middle].pathHash < hash {
        lower := middle + 1;
      } else {
        upper := middle;
      }
    }
  }

  /** Binary search, then a scan of the equal hashes: nothing is missed, whatever collides. */
  method FindRoute(routes: seq<CompiledRoute>, hash: u32, path: seq<u8>) returns (found: Option<nat>)
    requires SortedByHash(routes)
    ensures Found(routes, hash, path, found)
  {
    var i := PartitionPoint(routes, hash);
    while i < |routes| && routes[i].pathHash == hash
      invariant i <= |routes| && forall k: nat :: k < i ==> !Candidate(routes, hash, path, k)
      invariant i < |routes| ==> routes[i].pathHash >= hash
    {
      if routes[i].path == path {
        return Some(i);
      }
      i := i + 1;
    }
    return None;
  }

  lemma {:induction false} DeclaredAt(routes: seq<Route>, path: seq<u8>, fallback: Response, j: nat)
    requires DistinctPaths(routes) && j < |routes| && routes[j].path == path
    ensures Declared(routes, path, fallback) == routes[j].response
  {
    if routes[0].path != path {
      DeclaredAt(routes[1..], path, fallback, j - 1);
    }
  }

  lemma {:induction false} NotDeclared(routes: seq<Route>, path: seq<u8>, fallback: Response)
    requires forall j :: 0 <= j < |routes| ==> routes[j].path != path
    ensures Declared(routes, path, fallback) == fallback
  {
    if routes != [] {
      NotDeclared(routes[1..], path, fallback);
    }
  }

  /** The routes are filed under this hash function. */
  ghost predicate HashedBy(h: seq<u8> -> u32, routes: seq<CompiledRoute>) {
    forall i :: 0 <= i < |routes| ==> routes[i].pathHash == h(routes[i].path)
  }

  function Selected(routes: seq<CompiledRoute>, found: Option<nat>, fallback: CompiledResponse): CompiledResponse
    requires found.Some? ==> found.value < |routes|
  {
    match found
    case Some(i) => routes[i].response
    case None => fallback
  }

  /** Looking a path up under any hash function selects the response declared for it. */
  lemma LookupIsDeclared(h: seq<u8> -> u32, strings: seq<seq<u8>>, compiled: seq<CompiledRoute>, routes: seq<Route>,
      path: seq<u8>, found: Option<nat>, fallback: CompiledResponse, declared: Response)
    requires HashedBy(h, compiled) && Found(compiled, h(path), path, found)
    requires DistinctPaths(routes) && CompiledFrom(strings, fallback, declared)
    requires forall i :: 0 <= i < |compiled| ==> HasSource(strings, compiled[i], routes)
    requires forall j :: 0 <= j < |routes| ==> HasTarget(strings, routes[j], compiled)
    ensures CompiledFrom(strings, Selected(compiled, found, fallback), Declared(routes, path, declared))
  {
    match found
    case Some(i) =>
      assert HasSource(strings, compiled[i], routes);
      var j :| 0 <= j < |routes| && RouteFrom(strings, compiled[i], routes[j]);
      DeclaredAt(routes, path, declared, j);
    case None =>
      forall j | 0 <= j < |routes| ensures routes[j].path != path {
        assert HasTarget(strings, routes[j], compiled);
        var i: nat :| i < |compiled| && RouteFrom(strings, compiled[i], routes[j]);
        assert !Candidate(compiled, h(path), path, i);
      }
      NotDeclared(routes, path, declared);
  }

  lemma CompiledHashes(strings: seq<seq<u8>>, compiled: seq<CompiledRoute>, routes: seq<Route>)
    requires RoutesFrom(strings, compiled, routes)
    ensures HashedBy(HttpText.PathHash, compiled)
  {
    forall i | 0 <= i < |compiled| ensures compiled[i].pathHash == HttpText.PathHash(compiled[i].path) {
      assert HasSource(strings, compiled[i], routes);
    }
  }

  // ----- rendering

  function TextAt(strings: seq<seq<u8>>, id: nat): seq<u8> {
    if id < |strings| then strings[id] else []
  }

  /** What a compiled segment contributes, with this string table. */
  function CompiledText(strings: seq<seq<u8>>, c: CompiledSegment, e: Echo): seq<u8> {
    match c
    case CLiteral(id) => TextAt(strings, id)
    case CPath(max) => UpTo(e.parts.path, max)
    case CQuery(max) => UpTo(e.parts.query, max)
    case CBackend => e.backend
    case CRequestBytes => Decimal(e.requestLen)
    case CPathHash => Decimal(e.parts.pathHash)
    case CVariant(cpu, gpu) => TextAt(strings, if e.backend == HttpText.GPU then gpu else cpu)
  }

  lemma SegmentRenders(strings: seq<seq<u8>>, c: CompiledSegment, s: Segment, e: Echo)
    requires SegmentFrom(strings, c, s)
    ensures CompiledText(strings, c, e) == SegmentText(s, e)
  {
  }

  lemma BodyStep(body: Body, i: nat, e: Echo)
    requires i < |body|
    ensures BodyText(body[..i + 1], e) == BodyText(body[..i], e) + SegmentText(body[i], e)
  {
    assert body[..i + 1] == body[..i] + [body[i]];
    BodyTextSnoc(body[..i], body[i], e);
  }

  method RenderBody(strings: seq<seq<u8>>, segments: seq<CompiledSegment>, e: Echo, ghost declared: Body)
    returns (body: seq<u8>)
    requires BodyFrom(strings, segments, declared)
    ensures body == BodyText(declared, e)
  {
    body := [];
    var i := 0;
    while i < |segments|
      invariant i <= |segments| && body == BodyText(declared[..i], e)
    {
      SegmentRenders(strings, segments[i], declared[i], e);
      BodyStep(declared, i, e);
      body := body + CompiledText(strings, segments[i], e);
      i := i + 1;
    }
    assert declared[..i] == declared;
  }

  lemma ValidHasNoLineEnd(value: seq<u8>)
    requires ValidHeader(value)
    ensures 0x0d !in value
  {
    forall i | 0 <= i < |value| ensures value[i] != 0x0d {
      assert PrintableByte(value[i]);
    }
  }

  /** The header declared for a response. */
  function HeadOf(r: Response, backend: seq<u8>): Head {
    Head(r.status.code, r.status.reason, r.contentType, backend)
  }

  lemma ResponseAnnounces(r: Response, e: Echo)
    requires ValidResponse(r) && 0x0d !in e.backend
    ensures Announces(ResponseText(r, e), HeadOf(r, e.backend), BodyText(r.body, e))
  {
    ValidHasNoLineEnd(r.status.reason);
    ValidHasNoLineEnd(r.contentType);
    TextAnnounces(HeadOf(r, e.backend), BodyText(r.body, e), ResponseText(r, e));
  }

  method RenderResponse(strings: seq<seq<u8>>, c: CompiledResponse, e: Echo, ghost r: Response)
    returns (text: seq<u8>)
    requires CompiledFrom(strings, c, r)
    ensures text == ResponseText(r, e)
    ensures ValidResponse(r) && 0x0d !in e.backend ==> Announces(text, HeadOf(r, e.backend), BodyText(r.body, e))
  {
    var body := RenderBody(strings, c.segments, e, r.body);
    text := BuildResponse(c.status, strings[c.reasonId], strings[c.contentTypeId], body, e.backend);
    if ValidResponse(r) && 0x0d !in e.backend {
      ResponseAnnounces(r, e);
    }
  }

  /** `build_response` */
  function BuildResponse(status: u16, reason: seq<u8>, contentType: seq<u8>, body: seq<u8>,
      backend: seq<u8>): seq<u8> {
    HTTP_VERSION + Decimal(status) + [SPACE] + reason + CONTENT_TYPE + contentType
    + CONTENT_LENGTH + Decimal(|body|) + (SERVER + backend + BLANK_LINE) + body
  }

  /** The host answers every request as declared, for any backend name. */
  method RouteRequest(c: CompiledRouter, request: seq<u8>, backend: seq<u8>, ghost router: Router)
    returns (response: seq<u8>)
    requires CompilesTo(router, c)
    ensures response == Answer(router, request, backend)
  {
    match ParseRequest(request)
    case Get(parts) =>
      var found := FindRoute(c.routes, parts.pathHash, parts.path);
      CompiledHashes(c.strings, c.routes, router.routes);
      GetPathHash(request);
      LookupIsDeclared(HttpText.PathHash, c.strings, c.routes, router.routes, parts.path, found, c.fallback,
        router.fallback);
      response := RenderResponse(c.strings, Selected(c.routes, found, c.fallback), Echo(parts, |request|, backend),
                                 Declared(router.routes, parts.path, router.fallback));
    case BadRequest =>
      response := RenderResponse(c.strings, c.badRequest, Echo(NO_PARTS, |request|, backend), router.badRequest);
    case MethodNotAllowed =>
      response := RenderResponse(c.strings, c.methodNotAllowed, Echo(NO_PARTS, |request|, backend),
        router.methodNotAllowed);
  }

  lemma GetPathHash(request: seq<u8>)
    requires ParseRequest(request).Get?
    ensures ParseRequest(request).parts.pathHash == HttpText.PathHash(ParseRequest(request).parts.path)
  {
  }
}
