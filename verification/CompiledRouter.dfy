/** The compiled router: interned strings, response programs and the word table the shader
    interprets (src/router.rs:327-359, 463-491 and 682-753), and what it means for one to be
    compiled from a declaration. */
module CompiledRouter {
  import opened Bits
  import opened HttpText
  import opened Router

  datatype CompiledSegment =
    | CLiteral(id: nat)
    | CPath(maxBytes: nat)
    | CQuery(maxBytes: nat)
    | CBackend
    | CRequestBytes
    | CPathHash
    | CVariant(cpu: nat, gpu: nat)

  datatype CompiledResponse = CompiledResponse(
    status: u16, reasonId: nat, contentTypeId: nat, segments: seq<CompiledSegment>, maxGpuBody: nat, maxCpuBody: nat)

  datatype CompiledRoute = CompiledRoute(path: seq<u8>, pathHash: u32, response: CompiledResponse)

  /** The strings every response needs, by their place in the table. */
  datatype StringIds = StringIds(httpVersion: nat, contentType: nat, contentLength: nat, headerTail: nat, gpu: nat)

  datatype Layout = Layout(routeCount: nat, fallback: nat, badRequest: nat, methodNotAllowed: nat)

  datatype CompiledRouter = CompiledRouter(
    routes: seq<CompiledRoute>, fallback: CompiledResponse, badRequest: CompiledResponse,
    methodNotAllowed: CompiledResponse,
    strings: seq<seq<u8>>, words: seq<u32>, layout: Layout, ids: StringIds, maxGpuResponseBytes: nat)

  // ----- strings

  predicate Interned(strings: seq<seq<u8>>, id: nat, text: seq<u8>) {
    id < |strings| && id < 0x1_0000_0000 && strings[id] == text
  }

  ghost predicate NoDuplicates(strings: seq<seq<u8>>) {
    forall i, j :: 0 <= i < |strings| && 0 <= j < |strings| && strings[i] == strings[j] ==> i == j
  }

  predicate IdsFrom(strings: seq<seq<u8>>, ids: StringIds) {
    && Interned(strings, ids.httpVersion, HTTP_VERSION)
    && Interned(strings, ids.contentType, CONTENT_TYPE)
    && Interned(strings, ids.contentLength, CONTENT_LENGTH)
    && Interned(strings, ids.headerTail, RESERVED_TAIL)
    && Interned(strings, ids.gpu, HttpText.GPU)
  }

  // ----- responses

  predicate SegmentFrom(strings: seq<seq<u8>>, c: CompiledSegment, s: Segment) {
    match s
    case Literal(text) => c.CLiteral? && Interned(strings, c.id, text)
    case Path(max) => c == CPath(max) && max < 0x1_0000_0000
    case Query(max) => c == CQuery(max) && max < 0x1_0000_0000
    case Backend => c == CBackend
    case RequestBytes => c == CRequestBytes
    case PathHash => c == CPathHash
    case BackendVariant(cpu, gpu) => c.CVariant? && Interned(strings, c.cpu, cpu) && Interned(strings, c.gpu, gpu)
  }

  ghost predicate BodyFrom(strings: seq<seq<u8>>, segments: seq<CompiledSegment>, body: Body) {
    |segments| == |body| && forall i :: 0 <= i < |body| ==> SegmentFrom(strings, segments[i], body[i])
  }

  /** The compiled response says what the declaration says. */
  ghost predicate CompiledFrom(strings: seq<seq<u8>>, c: CompiledResponse, r: Response) {
    && c.status == r.status.code
    && Interned(strings, c.reasonId, r.status.reason)
    && Interned(strings, c.contentTypeId, r.contentType)
    && BodyFrom(strings, c.segments, r.body)
    && c.maxGpuBody == MaxGpuBody(r.body) && c.maxCpuBody == MaxCpuBody(r.body)
  }

  /** Interning more strings changes nothing. */
  lemma StaysCompiled(strings: seq<seq<u8>>, more: seq<seq<u8>>, c: CompiledResponse, r: Response)
    requires CompiledFrom(strings, c, r) && strings <= more
    ensures CompiledFrom(more, c, r)
  {
  }

  // ----- the word table

  const ROUTE_STRIDE_WORDS := 4
  const RESPONSE_DESCRIPTOR_WORDS := 5

  const BODY_OP_LITERAL: u32 := 0
  const BODY_OP_PATH: u32 := 1
  const BODY_OP_QUERY: u32 := 2
  const BODY_OP_BACKEND: u32 := 3
  const BODY_OP_REQUEST_BYTES: u32 := 4
  const BODY_OP_PATH_HASH: u32 := 5
  const BODY_OP_BACKEND_VARIANT: u32 := 6

  /** The three words of an operation; none when an argument does not fit. */
  function Operation(s: CompiledSegment): (w: Option<seq<u32>>)
    ensures w.Some? ==> |w.value| == 3
  {
    match s
    case CLiteral(id) => if id < 0x1_0000_0000 then Some([BODY_OP_LITERAL, id, 0]) else None
    case CPath(max) => if max < 0x1_0000_0000 then Some([BODY_OP_PATH, max, 0]) else None
    case CQuery(max) => if max < 0x1_0000_0000 then Some([BODY_OP_QUERY, max, 0]) else None
    case CBackend => Some([BODY_OP_BACKEND, 0, 0])
    case CRequestBytes => Some([BODY_OP_REQUEST_BYTES, 0, 0])
    case CPathHash => Some([BODY_OP_PATH_HASH, 0, 0])
    case CVariant(cpu, gpu) =>
      if cpu < 0x1_0000_0000 && gpu < 0x1_0000_0000 then Some([BODY_OP_BACKEND_VARIANT, cpu, gpu]) else None
  }

  /** Different operations have different words. */
  lemma OperationDecodes(a: CompiledSegment, b: CompiledSegment)
    requires Operation(a).Some? && Operation(a) == Operation(b)
    ensures a == b
  {
    var v, w := Operation(a).value, Operation(b).value;
    assert v[0] == w[0] && v[1] == w[1] && v[2] == w[2];
  }

  predicate OperationAt(words: seq<u32>, at: nat, s: CompiledSegment) {
    at + 3 <= |words| && Operation(s) == Some(words[at..at + 3])
  }

  /** A response descriptor followed by its program. */
  ghost predicate ProgramAt(words: seq<u32>, offset: nat, c: CompiledResponse) {
    && offset + 5 + 3 * |c.segments| <= |words| && offset + 5 < 0x1_0000_0000 && |c.segments| < 0x1_0000_0000
    && words[offset] == c.status && words[offset + 1] == c.reasonId && words[offset + 2] == c.contentTypeId
    && words[offset + 3] == offset + 5 && words[offset + 4] == |c.segments|
    && forall k :: 0 <= k < |c.segments| ==> OperationAt(words, offset + 5 + 3 * k, c.segments[k])
  }

  /** A program in the words has only one meaning. */
  lemma ProgramDecodes(words: seq<u32>, offset: nat, a: CompiledResponse, b: CompiledResponse)
    requires ProgramAt(words, offset, a) && ProgramAt(words, offset, b)
    ensures a.status == b.status && a.reasonId == b.reasonId && a.contentTypeId == b.contentTypeId
    ensures a.segments == b.segments
  {
    forall k | 0 <= k < |a.segments| ensures a.segments[k] == b.segments[k] {
      assert OperationAt(words, offset + 5 + 3 * k, a.segments[k]);
      assert OperationAt(words, offset + 5 + 3 * k, b.segments[k]);
      OperationDecodes(a.segments[k], b.segments[k]);
    }
  }

  /** A row of the route table. */
  ghost predicate RowAt(words: seq<u32>, strings: seq<seq<u8>>, i: nat, route: CompiledRoute) {
    && 4 * i + 4 <= |words|
    && words[4 * i] == route.pathHash && words[4 * i + 1] == |route.path|
    && Interned(strings, words[4 * i + 2], route.path)
    && ProgramAt(words, words[4 * i + 3], route.response)
  }

  // ----- the whole router

  ghost predicate RouteFrom(strings: seq<seq<u8>>, c: CompiledRoute, r: Route) {
    c.path == r.path && c.pathHash == HttpText.PathHash(r.path) && CompiledFrom(strings, c.response, r.response)
  }

  ghost predicate HasSource(strings: seq<seq<u8>>, c: CompiledRoute, routes: seq<Route>) {
    exists j :: 0 <= j < |routes| && RouteFrom(strings, c, routes[j])
  }

  ghost predicate HasTarget(strings: seq<seq<u8>>, r: Route, routes: seq<CompiledRoute>) {
    exists i :: 0 <= i < |routes| && RouteFrom(strings, routes[i], r)
  }

  ghost predicate SortedByHash(routes: seq<CompiledRoute>) {
    forall i, j :: 0 <= i < j < |routes| ==> routes[i].pathHash <= routes[j].pathHash
  }

  ghost predicate DistinctPaths(routes: seq<Route>) {
    forall i, j :: 0 <= i < j < |routes| ==> routes[i].path != routes[j].path
  }

  /** Every declared route is compiled, every compiled route is declared, in hash order. */
  ghost predicate RoutesFrom(strings: seq<seq<u8>>, compiled: seq<CompiledRoute>, routes: seq<Route>) {
    && DistinctPaths(routes) && SortedByHash(compiled)
    && (forall i :: 0 <= i < |compiled| ==> HasSource(strings, compiled[i], routes))
    && (forall j :: 0 <= j < |routes| ==> HasTarget(strings, routes[j], compiled))
  }

  /** The word table holds the route rows and every program. */
  ghost predicate TableFrom(c: CompiledRouter) {
    && c.layout.routeCount == |c.routes| < 0x1_0000_0000
    && (forall i :: 0 <= i < |c.routes| ==> RowAt(c.words, c.strings, i, c.routes[i]))
    && ProgramAt(c.words, c.layout.fallback, c.fallback)
    && ProgramAt(c.words, c.layout.badRequest, c.badRequest)
    && ProgramAt(c.words, c.layout.methodNotAllowed, c.methodNotAllowed)
  }

  /** The bound is the largest response of all. */
  ghost predicate IsLargest(router: Router, bound: nat) {
    && (bound in {MaxResponseBytes(router.fallback), MaxResponseBytes(router.badRequest),
                  MaxResponseBytes(router.methodNotAllowed)}
        || exists j :: 0 <= j < |router.routes| && bound == MaxResponseBytes(router.routes[j].response))
    && (forall j :: 0 <= j < |router.routes| ==> MaxResponseBytes(router.routes[j].response) <= bound)
    && MaxResponseBytes(router.fallback) <= bound
    && MaxResponseBytes(router.badRequest) <= bound
    && MaxResponseBytes(router.methodNotAllowed) <= bound
  }

  /** It fits u32. */
  ghost predicate BoundFrom(router: Router, bound: nat) {
    bound < 0x1_0000_0000 && IsLargest(router, bound)
  }

  ghost predicate CompilesTo(router: Router, c: CompiledRouter) {
    && NoDuplicates(c.strings) && IdsFrom(c.strings, c.ids)
    && RoutesFrom(c.strings, c.routes, router.routes)
    && CompiledFrom(c.strings, c.fallback, router.fallback)
    && CompiledFrom(c.strings, c.badRequest, router.badRequest)
    && CompiledFrom(c.strings, c.methodNotAllowed, router.methodNotAllowed)
    && TableFrom(c) && BoundFrom(router, c.maxGpuResponseBytes)
    && AcceptableRouter(router)
  }

  // ----- what the compiler accepts

  predicate PrintableByte(b: u8) {
    32 <= b < 127
  }

  predicate PathByte(b: u8) {
    b > 32 && b != 127 && b != 63 && b != 35
  }

  predicate ValidPath(path: seq<u8>) {
    path != [] && path[0] == 47 && (forall i :: 0 <= i < |path| ==> PathByte(path[i])) && |path| < 0x1_0000_0000
  }

  predicate ValidHeader(value: seq<u8>) {
    value != [] && forall i :: 0 <= i < |value| ==> PrintableByte(value[i])
  }

  predicate ValidSegment(s: Segment) {
    match s
    case Path(max) => max < 0x1_0000_0000
    case Query(max) => max < 0x1_0000_0000
    case _ => true
  }

  predicate ValidResponse(r: Response) {
    && 100 <= r.status.code <= 999 && ValidHeader(r.status.reason) && ValidHeader(r.contentType)
    && forall i :: 0 <= i < |r.body| ==> ValidSegment(r.body[i])
  }

  ghost predicate AcceptableRouter(router: Router) {
    && (forall j :: 0 <= j < |router.routes| ==>
          ValidPath(router.routes[j].path) && ValidResponse(router.routes[j].response))
    && DistinctPaths(router.routes)
    && ValidResponse(router.fallback) && ValidResponse(router.badRequest) && ValidResponse(router.methodNotAllowed)
  }
}
