/** What a router takes up in the compiled form: its distinct strings, its words and its largest
    response (src/router.rs:517-607 and 682-753). */
module RouterSizes {
  import opened Bits
  import opened HttpText
  import opened Router
  import opened CompiledRouter

  /** Sizes are 64-bit. */
  const USIZE_MAX: nat := 0xffff_ffff_ffff_ffff

  // ----- strings

  const COMMON_TEXTS: set<seq<u8>> :=
    {HTTP_VERSION, CONTENT_TYPE, CONTENT_LENGTH, RESERVED_TAIL, HttpText.GPU}

  function SegmentTexts(s: Segment): set<seq<u8>> {
    match s
    case Literal(text) => {text}
    case BackendVariant(cpu, gpu) => {cpu, gpu}
    case _ => {}
  }

  function BodyTexts(body: Body): set<seq<u8>> {
    if body == [] then {} else BodyTexts(body[..|body| - 1]) + SegmentTexts(body[|body| - 1])
  }

  function ResponseTexts(r: Response): set<seq<u8>> {
    {r.status.reason, r.contentType} + BodyTexts(r.body)
  }

  function RouteTexts(route: Route): set<seq<u8>> {
    {route.path} + ResponseTexts(route.response)
  }

  function RoutesTexts(routes: seq<Route>): set<seq<u8>> {
    if routes == [] then {} else RouteTexts(routes[0]) + RoutesTexts(routes[1..])
  }

  function OtherTexts(router: Router): set<seq<u8>> {
    ResponseTexts(router.fallback) + ResponseTexts(router.badRequest) + ResponseTexts(router.methodNotAllowed)
  }

  /** Every string the compiler has to intern. */
  function RouterTexts(router: Router): set<seq<u8>> {
    COMMON_TEXTS + RoutesTexts(router.routes) + OtherTexts(router)
  }

  lemma {:induction false} SegmentInBody(body: Body, i: nat)
    requires i < |body|
    ensures SegmentTexts(body[i]) <= BodyTexts(body)
  {
    if i < |body| - 1 {
      SegmentInBody(body[..|body| - 1], i);
    }
  }

  lemma {:induction false} RouteInRoutes(routes: seq<Route>, j: nat)
    requires j < |routes|
    ensures RouteTexts(routes[j]) <= RoutesTexts(routes)
  {
    if j > 0 {
      RouteInRoutes(routes[1..], j - 1);
    }
  }

  predicate Within(values: seq<seq<u8>>, texts: set<seq<u8>>) {
    forall i :: 0 <= i < |values| ==> values[i] in texts
  }

  predicate Overfull(texts: set<seq<u8>>) {
    |texts| > 0x1_0000_0000
  }

  /** Distinct strings among some texts are no more than the texts. */
  lemma {:induction false} DistinctAreFewer(values: seq<seq<u8>>, texts: set<seq<u8>>)
    requires NoDuplicates(values) && Within(values, texts)
    ensures |values| <= |texts|
  {
    if values != [] {
      var n := |values| - 1;
      forall i | 0 <= i < n ensures values[..n][i] in texts - {values[n]} {
        assert values[i] != values[n];
      }
      DistinctAreFewer(values[..n], texts - {values[n]});
    }
  }

  /** A full table that lacks one of the texts shows that there are too many. */
  lemma FullTableIsOverfull(values: seq<seq<u8>>, value: seq<u8>, texts: set<seq<u8>>)
    requires NoDuplicates(values) && Within(values, texts) && value in texts && value !in values
    requires |values| == 0x1_0000_0000
    ensures Overfull(texts)
  {
    forall i | 0 <= i < |values| ensures values[i] in texts - {value} {
      assert values[i] in values;
    }
    DistinctAreFewer(values, texts - {value});
  }

  /** Texts that are all in a table are no more than its strings. */
  lemma {:induction false} ListedAreFewer(texts: set<seq<u8>>, values: seq<seq<u8>>)
    requires forall t :: t in texts ==> t in values
    ensures |texts| <= |values|
  {
    if values != [] {
      var n := |values| - 1;
      forall t | t in texts - {values[n]} ensures t in values[..n] {
        var i :| 0 <= i < |values| && values[i] == t;
        assert values[..n][i] == t;
      }
      ListedAreFewer(texts - {values[n]}, values[..n]);
    } else {
      assert texts == {};
    }
  }

  // ----- texts that were interned

  lemma {:induction false} BodyTextsListed(strings: seq<seq<u8>>, segments: seq<CompiledSegment>, body: Body)
    requires BodyFrom(strings, segments, body)
    ensures forall t :: t in BodyTexts(body) ==> t in strings
  {
    if body != [] {
      var n := |body| - 1;
      BodyTextsListed(strings, segments[..n], body[..n]);
      assert SegmentFrom(strings, segments[n], body[n]);
    }
  }

  lemma ResponseTextsListed(strings: seq<seq<u8>>, c: CompiledResponse, r: Response)
    requires CompiledFrom(strings, c, r)
    ensures forall t :: t in ResponseTexts(r) ==> t in strings
  {
    BodyTextsListed(strings, c.segments, r.body);
  }

  lemma {:induction false} RoutesTextsListed(strings: seq<seq<u8>>, routes: seq<Route>)
    requires forall j :: 0 <= j < |routes| ==> RouteListed(strings, routes[j])
    ensures forall t :: t in RoutesTexts(routes) ==> t in strings
  {
    if routes != [] {
      assert RouteListed(strings, routes[0]);
      RoutesTextsListed(strings, routes[1..]);
    }
  }

  ghost predicate RouteListed(strings: seq<seq<u8>>, route: Route) {
    forall t :: t in RouteTexts(route) ==> t in strings
  }

  // ----- words

  /** A descriptor and its program. */
  function ProgramWords(operations: nat): nat {
    5 + 3 * operations
  }

  function RoutesWords(routes: seq<Route>): nat {
    if routes == [] then 0 else ProgramWords(|routes[0].response.body|) + RoutesWords(routes[1..])
  }

  function OtherWords(router: Router): nat {
    ProgramWords(|router.fallback.body|) + ProgramWords(|router.badRequest.body|)
    + ProgramWords(|router.methodNotAllowed.body|)
  }

  /** The route table and every program. */
  function RouterWords(router: Router): nat {
    4 * |router.routes| + RoutesWords(router.routes) + OtherWords(router)
  }

  // ----- sizes

  lemma {:induction false} CpuBoundsGpu(body: Body)
    ensures MaxGpuBody(body) <= MaxCpuBody(body)
  {
    if body != [] {
      CpuBoundsGpu(body[..|body| - 1]);
    }
  }

  lemma {:induction false} PrefixIsSmaller(body: Body, n: nat)
    requires n <= |body|
    ensures MaxCpuBody(body[..n]) <= MaxCpuBody(body)
  {
    if n < |body| {
      PrefixIsSmaller(body[..|body| - 1], n);
      assert body[..|body| - 1][..n] == body[..n];
    } else {
      assert body[..n] == body;
    }
  }

  /** The body's size is computed in machine integers. */
  predicate BodyFits(r: Response) {
    MaxCpuBody(r.body) <= USIZE_MAX
  }

  predicate ResponseFits(r: Response) {
    BodyFits(r) && MaxResponseBytes(r) < 0x1_0000_0000
  }

  /** Everything about the router that the compiled form counts in u32 or in machine integers fits:
      the routes, the distinct strings, the words and every response. */
  predicate FitsMachine(router: Router) {
    && |router.routes| < 0x1_0000_0000
    && !Overfull(RouterTexts(router))
    && RouterWords(router) < 0x1_0000_0000
    && (forall j :: 0 <= j < |router.routes| ==> ResponseFits(router.routes[j].response))
    && ResponseFits(router.fallback) && ResponseFits(router.badRequest) && ResponseFits(router.methodNotAllowed)
  }
}
