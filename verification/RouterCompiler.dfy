/** The router compiler (src/router.rs:486-663 and 665-709): interning, validation, program
    emission and the size bound, step by step, proved to compile to what was declared. */
module RouterCompiler {
  import opened Bits
  import opened HttpText
  import opened Router
  import opened CompiledRouter
  import opened RouterSizes

  datatype CompileError = InvalidPath | DuplicatePath | InvalidStatus | InvalidHeader | LimitTooLarge | TooLarge

  datatype Result<+T> = Ok(value: T) | Err(error: CompileError)

  class StringTable {
    var values: seq<seq<u8>>
    var ids: map<seq<u8>, nat>

    ghost predicate Valid()
      reads this
    {
      && |values| <= 0x1_0000_0000
      && (forall s :: s in ids ==> ids[s] < |values| && values[ids[s]] == s)
      && (forall i :: 0 <= i < |values| ==> values[i] in ids && ids[values[i]] == i)
    }

    constructor ()
      ensures Valid() && values == []
    {
      values, ids := [], map[];
    }

    /** The place of a string, added at the end when new; a full table is the one failure. */
    method Intern(value: seq<u8>) returns (id: Option<nat>)
      requires Valid()
      modifies this
      ensures Valid()
      ensures id.Some? ==> Interned(values, id.value, value)
      ensures values == old(values) || (value !in old(values) && values == old(values) + [value])
      ensures id.None? <==> value !in old(values) && |old(values)| == 0x1_0000_0000
    {
      if value in ids {
        return Some(ids[value]);
      }
      if |values| >= 0x1_0000_0000 {
        return None;
      }
      var next := |values|;
      values := values + [value];
      ids := ids[value := next];
      return Some(next);
    }
  }

  lemma ValidTableHasNoDuplicates(table: StringTable)
    requires table.Valid()
    ensures NoDuplicates(table.values)
  {
  }

  /** Only these texts have been interned. */
  predicate HoldsOnly(table: StringTable, texts: set<seq<u8>>)
    reads table
  {
    Within(table.values, texts)
  }

  /** Interns one of the router's texts; a failure shows that there are too many of them. */
  method InternText(strings: StringTable, text: seq<u8>, ghost texts: set<seq<u8>>) returns (id: Option<nat>)
    requires strings.Valid() && HoldsOnly(strings, texts) && text in texts
    modifies strings
    ensures strings.Valid() && HoldsOnly(strings, texts) && old(strings.values) <= strings.values
    ensures id.Some? ==> Interned(strings.values, id.value, text)
    ensures id.None? ==> Overfull(texts)
  {
    id := strings.Intern(text);
    if id.None? {
      ValidTableHasNoDuplicates(strings);
      FullTableIsOverfull(strings.values, text, texts);
    }
  }

  /** `checked_add` */
  function CheckedAdd(a: nat, b: nat): Result<nat> {
    if a + b <= USIZE_MAX then Ok(a + b) else Err(TooLarge)
  }

  method ValidateHeaderValue(value: seq<u8>) returns (ok: bool)
    ensures ok <==> ValidHeader(value)
  {
    if value == [] {
      return false;
    }
    var i := 0;
    while i < |value|
      invariant i <= |value| && forall k :: 0 <= k < i ==> PrintableByte(value[k])
    {
      if !PrintableByte(value[i]) {
        return false;
      }
      i := i + 1;
    }
    return true;
  }

  method ValidateRoutePath(path: seq<u8>) returns (ok: bool)
    ensures ok <==> ValidPath(path)
  {
    if path == [] || path[0] != 47 {
      return false;
    }
    var i := 0;
    while i < |path|
      invariant i <= |path| && forall k :: 0 <= k < i ==> PathByte(path[k])
    {
      if !PathByte(path[i]) {
        return false;
      }
      i := i + 1;
    }
    return |path| < 0x1_0000_0000;
  }

  /** One segment.  Either everything it needs is in the table, or it is refused for its limit,
      or the texts are too many. */
  method CompileSegment(strings: StringTable, s: Segment, ghost texts: set<seq<u8>>)
    returns (r: Result<CompiledSegment>)
    requires strings.Valid() && HoldsOnly(strings, texts) && SegmentTexts(s) <= texts
    modifies strings
    ensures strings.Valid() && HoldsOnly(strings, texts) && old(strings.values) <= strings.values
    ensures r.Ok? ==> SegmentFrom(strings.values, r.value, s) && ValidSegment(s)
    ensures r.Err? ==> if r.error.TooLarge? then Overfull(texts) else !ValidSegment(s)
  {
    match s
    case Literal(text) =>
      var id := InternText(strings, text, texts);
      if id.None? { return Err(TooLarge); }
      return Ok(CLiteral(id.value));
    case Path(max) => return if max < 0x1_0000_0000 then Ok(CPath(max)) else Err(LimitTooLarge);
    case Query(max) => return if max < 0x1_0000_0000 then Ok(CQuery(max)) else Err(LimitTooLarge);
    case Backend => return Ok(CBackend);
    case RequestBytes => return Ok(CRequestBytes);
    case PathHash => return Ok(CPathHash);
    case BackendVariant(cpu, gpu) =>
      var cpuId := InternText(strings, cpu, texts);
      if cpuId.None? { return Err(TooLarge); }
      var gpuId := InternText(strings, gpu, texts);
      if gpuId.None? { return Err(TooLarge); }
      return Ok(CVariant(cpuId.value, gpuId.value));
  }

  datatype Program = Program(segments: seq<CompiledSegment>, maxGpu: nat, maxCpu: nat)

  ghost predicate ProgramFrom(strings: seq<seq<u8>>, p: Program, body: Body) {
    && BodyFrom(strings, p.segments, body) && p.maxGpu == MaxGpuBody(body) && p.maxCpu == MaxCpuBody(body)
    && forall i :: 0 <= i < |body| ==> ValidSegment(body[i])
  }

  lemma OneMoreSegment(before: seq<seq<u8>>, strings: seq<seq<u8>>, p: Program, body: Body, c: CompiledSegment,
      s: Segment, q: Program)
    requires ProgramFrom(before, p, body) && before <= strings && SegmentFrom(strings, c, s) && ValidSegment(s)
    requires q == Program(p.segments + [c], p.maxGpu + MaxGpuSegment(s), p.maxCpu + MaxCpuSegment(s))
    ensures ProgramFrom(strings, q, body + [s])
  {
    assert (body + [s])[..|body|] == body;
    var more := body + [s];
    forall i | 0 <= i < |more| ensures SegmentFrom(strings, q.segments[i], more[i]) && ValidSegment(more[i]) {
      if i < |body| {
        assert SegmentFrom(before, p.segments[i], body[i]);
      }
    }
  }

  /** A sum that overflows within the body shows that the whole does not fit. */
  lemma PrefixOverflows(body: Body, i: nat, p: Program)
    requires i < |body| && p.maxGpu == MaxGpuBody(body[..i]) && p.maxCpu == MaxCpuBody(body[..i])
    requires p.maxGpu + MaxGpuSegment(body[i]) > USIZE_MAX || p.maxCpu + MaxCpuSegment(body[i]) > USIZE_MAX
    ensures MaxCpuBody(body) > USIZE_MAX
  {
    var front := body[..i + 1];
    assert front[..i] == body[..i];
    CpuBoundsGpu(front);
    PrefixIsSmaller(body, i + 1);
  }

  method CompileBody(strings: StringTable, body: Body, ghost texts: set<seq<u8>>) returns (r: Result<Program>)
    requires strings.Valid() && HoldsOnly(strings, texts) && BodyTexts(body) <= texts
    modifies strings
    ensures strings.Valid() && HoldsOnly(strings, texts) && old(strings.values) <= strings.values
    ensures r.Ok? ==> ProgramFrom(strings.values, r.value, body) && MaxCpuBody(body) <= USIZE_MAX
    ensures r.Err? ==>
              if r.error.TooLarge? then Overfull(texts) || MaxCpuBody(body) > USIZE_MAX
              else exists i :: 0 <= i < |body| && !ValidSegment(body[i])
  {
    var p := Program([], 0, 0);
    var i := 0;
    while i < |body|
      invariant i <= |body| && strings.Valid() && HoldsOnly(strings, texts) && old(strings.values) <= strings.values
      invariant ProgramFrom(strings.values, p, body[..i]) && p.maxCpu <= USIZE_MAX
    {
      ghost var before := strings.values;
      SegmentInBody(body, i);
      var c := CompileSegment(strings, body[i], texts);
      if c.Err? {
        return Err(c.error);
      }
      var gpu := CheckedAdd(p.maxGpu, MaxGpuSegment(body[i]));
      var cpu := CheckedAdd(p.maxCpu, MaxCpuSegment(body[i]));
      if gpu.Err? || cpu.Err? {
        PrefixOverflows(body, i, p);
        return Err(TooLarge);
      }
      ghost var shorter := p;
      p := Program(p.segments + [c.value], gpu.value, cpu.value);
      OneMoreSegment(before, strings.values, shorter, body[..i], c.value, body[i], p);
      assert body[..i + 1] == body[..i] + [body[i]];
      i := i + 1;
    }
    assert body[..i] == body;
    return Ok(p);
  }

  /** A compiled response says what was declared; it is refused as too large only when the texts
      are too many or its body does not fit. */
  method CompileResponse(strings: StringTable, response: Response, ghost texts: set<seq<u8>>)
    returns (r: Result<CompiledResponse>)
    requires strings.Valid() && HoldsOnly(strings, texts) && ResponseTexts(response) <= texts
    modifies strings
    ensures strings.Valid() && HoldsOnly(strings, texts) && old(strings.values) <= strings.values
    ensures r.Ok? ==> CompiledFrom(strings.values, r.value, response) && ValidResponse(response) && BodyFits(response)
    ensures r.Err? ==> if r.error.TooLarge? then Overfull(texts) || !BodyFits(response) else !ValidResponse(response)
  {
    if !(100 <= response.status.code <= 999) { return Err(InvalidStatus); }
    var ok := ValidateHeaderValue(response.status.reason);
    if !ok { return Err(InvalidHeader); }
    ok := ValidateHeaderValue(response.contentType);
    if !ok { return Err(InvalidHeader); }
    var reasonId := InternText(strings, response.status.reason, texts);
    if reasonId.None? { return Err(TooLarge); }
    var contentTypeId := InternText(strings, response.contentType, texts);
    if contentTypeId.None? { return Err(TooLarge); }
    var p := CompileBody(strings, response.body, texts);
    if p.Err? {
      return Err(p.error);
    }
    return Ok(CompiledResponse(response.status.code, reasonId.value, contentTypeId.value,
                               p.value.segments, p.value.maxGpu, p.value.maxCpu));
  }

  // ----- routes

  ghost predicate RoutesCompiled(strings: seq<seq<u8>>, compiled: seq<CompiledRoute>, routes: seq<Route>) {
    |compiled| == |routes| && forall i :: 0 <= i < |routes| ==> RouteFrom(strings, compiled[i], routes[i])
  }

  ghost predicate RoutesAcceptable(routes: seq<Route>) {
    && (forall j :: 0 <= j < |routes| ==> ValidPath(routes[j].path) && ValidResponse(routes[j].response))
    && DistinctPaths(routes)
  }

  lemma RoutesStayCompiled(strings: seq<seq<u8>>, more: seq<seq<u8>>, compiled: seq<CompiledRoute>,
      routes: seq<Route>)
    requires RoutesCompiled(strings, compiled, routes) && strings <= more
    ensures RoutesCompiled(more, compiled, routes)
  {
    forall i | 0 <= i < |routes| ensures RouteFrom(more, compiled[i], routes[i]) {
      assert RouteFrom(strings, compiled[i], routes[i]);
      StaysCompiled(strings, more, compiled[i].response, routes[i].response);
    }
  }

  lemma OneMoreRoute(before: seq<seq<u8>>, strings: seq<seq<u8>>, compiled: seq<CompiledRoute>, done: seq<Route>,
      route: Route, response: CompiledResponse)
    requires RoutesCompiled(before, compiled, done) && RoutesAcceptable(done) && before <= strings
    requires CompiledFrom(strings, response, route.response) && ValidPath(route.path) && ValidResponse(route.response)
    requires forall j :: 0 <= j < |done| ==> done[j].path != route.path
    ensures RoutesCompiled(strings, compiled
            + [CompiledRoute(route.path, HttpText.PathHash(route.path), response)], done + [route])
    ensures RoutesAcceptable(done + [route])
  {
    RoutesStayCompiled(before, strings, compiled, done);
    var c, r := compiled + [CompiledRoute(route.path, HttpText.PathHash(route.path), response)], done + [route];
    forall i | 0 <= i < |r| ensures RouteFrom(strings, c[i], r[i]) {
      if i < |done| {
        assert RouteFrom(strings, compiled[i], done[i]);
      }
    }
  }

  /** The paths of a list of routes. */
  function PathsOf(routes: seq<Route>): set<seq<u8>> {
    if routes == [] then {} else PathsOf(routes[..|routes| - 1]) + {routes[|routes| - 1].path}
  }

  lemma {:induction false} PathsOfAre(routes: seq<Route>, path: seq<u8>)
    ensures path in PathsOf(routes) <==> exists j :: 0 <= j < |routes| && routes[j].path == path
  {
    if routes != [] {
      var front := routes[..|routes| - 1];
      PathsOfAre(front, path);
      if path in PathsOf(front) {
        var j :| 0 <= j < |front| && front[j].path == path;
        assert routes[j].path == path;
      }
      assert forall j :: 0 <= j < |front| ==> routes[j] == front[j];
    }
  }

  lemma SomeUnacceptable(routes: seq<Route>, n: nat)
    requires n <= |routes| && !RoutesAcceptable(routes[..n])
    ensures !RoutesAcceptable(routes)
  {
    if RoutesAcceptable(routes) {
      forall j | 0 <= j < n ensures ValidPath(routes[..n][j].path) && ValidResponse(routes[..n][j].response) {
        assert routes[..n][j] == routes[j];
      }
    }
  }

  lemma RefusedIsUnacceptable(done: seq<Route>, route: Route)
    requires !ValidPath(route.path) || !ValidResponse(route.response) || route.path in PathsOf(done)
    ensures !RoutesAcceptable(done + [route])
  {
    var all := done + [route];
    assert all[|done|] == route;
    PathsOfAre(done, route.path);
    if route.path in PathsOf(done) {
      var j :| 0 <= j < |done| && done[j].path == route.path;
      assert all[j].path == all[|done|].path;
    }
  }

  /** Validates and compiles one route after the others. */
  method CompileRoute(strings: StringTable, seen: set<seq<u8>>, route: Route, ghost compiled: seq<CompiledRoute>,
      ghost done: seq<Route>, ghost texts: set<seq<u8>>)
    returns (r: Result<CompiledRoute>)
    requires strings.Valid() && HoldsOnly(strings, texts) && RouteTexts(route) <= texts && seen == PathsOf(done)
    requires RoutesCompiled(strings.values, compiled, done) && RoutesAcceptable(done)
    modifies strings
    ensures strings.Valid() && HoldsOnly(strings, texts) && old(strings.values) <= strings.values
    ensures r.Ok? ==> RoutesCompiled(strings.values, compiled + [r.value], done + [route])
    ensures r.Ok? ==> RoutesAcceptable(done + [route]) && BodyFits(route.response)
    ensures r.Err? ==>
              if r.error.TooLarge? then Overfull(texts) || !BodyFits(route.response)
              else !RoutesAcceptable(done + [route])
  {
    var ok := ValidateRoutePath(route.path);
    if !ok {
      RefusedIsUnacceptable(done, route);
      return Err(InvalidPath);
    }
    if route.path in seen {
      RefusedIsUnacceptable(done, route);
      return Err(DuplicatePath);
    }
    PathsOfAre(done, route.path);
    ghost var before := strings.values;
    var response := CompileResponse(strings, route.response, texts);
    if response.Err? {
      if !response.error.TooLarge? {
        RefusedIsUnacceptable(done, route);
      }
      return Err(response.error);
    }
    OneMoreRoute(before, strings.values, compiled, done, route, response.value);
    return Ok(CompiledRoute(route.path, HttpText.PathHash(route.path), response.value));
  }

  lemma TakeOneMore(routes: seq<Route>, i: nat)
    requires i < |routes|
    ensures routes[..i + 1] == routes[..i] + [routes[i]]
    ensures PathsOf(routes[..i + 1]) == PathsOf(routes[..i]) + {routes[i].path}
  {
    assert routes[..i + 1][..i] == routes[..i];
  }

  predicate RouteBodiesFit(routes: seq<Route>) {
    forall j :: 0 <= j < |routes| ==> BodyFits(routes[j].response)
  }

  lemma OneMoreFits(routes: seq<Route>, i: nat)
    requires i < |routes| && RouteBodiesFit(routes[..i]) && BodyFits(routes[i].response)
    ensures RouteBodiesFit(routes[..i + 1])
  {
    forall j | 0 <= j < i ensures BodyFits(routes[j].response) {
      assert routes[..i][j] == routes[j];
    }
  }

  /** Validates and compiles the routes in declaration order. */
  method CompileRoutes(strings: StringTable, routes: seq<Route>, ghost texts: set<seq<u8>>)
    returns (r: Result<seq<CompiledRoute>>)
    requires strings.Valid() && HoldsOnly(strings, texts) && RoutesTexts(routes) <= texts
    modifies strings
    ensures strings.Valid() && HoldsOnly(strings, texts) && old(strings.values) <= strings.values
    ensures r.Ok? ==> RoutesCompiled(strings.values, r.value, routes) && RoutesAcceptable(routes)
    ensures r.Ok? ==> RouteBodiesFit(routes)
    ensures r.Err? ==>
              if r.error.TooLarge? then Overfull(texts) || !RouteBodiesFit(routes) else !RoutesAcceptable(routes)
  {
    var seen: set<seq<u8>> := {};
    var compiled := [];
    var i := 0;
    while i < |routes|
      invariant i <= |routes| && strings.Valid() && HoldsOnly(strings, texts)
      invariant old(strings.values) <= strings.values
      invariant RoutesCompiled(strings.values, compiled, routes[..i]) && RoutesAcceptable(routes[..i])
      invariant RouteBodiesFit(routes[..i])
      invariant seen == PathsOf(routes[..i])
    {
      TakeOneMore(routes, i);
      RouteInRoutes(routes, i);
      var route := CompileRoute(strings, seen, routes[i], compiled, routes[..i], texts);
      if route.Err? {
        if !route.error.TooLarge? {
          SomeUnacceptable(routes, i + 1);
        }
        return Err(route.error);
      }
      OneMoreFits(routes, i);
      seen := seen + {routes[i].path};
      compiled := compiled + [route.value];
      i := i + 1;
    }
    assert routes[..i] == routes;
    return Ok(compiled);
  }

  // ----- the hash order

  /** Bytes in lexicographic order. */
  predicate LexLe(a: seq<u8>, b: seq<u8>) {
    a == [] || (b != [] && (a[0] < b[0] || (a[0] == b[0] && LexLe(a[1..], b[1..]))))
  }

  lemma {:induction false} LexTotal(a: seq<u8>, b: seq<u8>)
    ensures LexLe(a, b) || LexLe(b, a)
  {
    if a != [] && b != [] && a[0] == b[0] {
      LexTotal(a[1..], b[1..]);
    }
  }

  lemma {:induction false} LexTransitive(a: seq<u8>, b: seq<u8>, c: seq<u8>)
    requires LexLe(a, b) && LexLe(b, c)
    ensures LexLe(a, c)
  {
    if a != [] && a[0] == b[0] == c[0] {
      LexTransitive(a[1..], b[1..], c[1..]);
    }
  }

  /** The order of the route table: by hash, then by path. */
  predicate InOrder(a: CompiledRoute, b: CompiledRoute) {
    a.pathHash < b.pathHash || (a.pathHash == b.pathHash && LexLe(a.path, b.path))
  }

  lemma OrderIsTransitive(a: CompiledRoute, b: CompiledRoute, c: CompiledRoute)
    requires InOrder(a, b) && InOrder(b, c)
    ensures InOrder(a, c)
  {
    if a.pathHash == b.pathHash == c.pathHash {
      LexTransitive(a.path, b.path, c.path);
    }
  }

  ghost predicate Sorted(routes: seq<CompiledRoute>) {
    forall i, j :: 0 <= i < j < |routes| ==> InOrder(routes[i], routes[j])
  }

  function Insert(r: CompiledRoute, s: seq<CompiledRoute>): (t: seq<CompiledRoute>)
    ensures |t| == |s| + 1 && multiset(t) == multiset(s) + multiset{r}
  {
    if s == [] || InOrder(r, s[0]) then [r] + s
    else
      assert s == [s[0]] + s[1..];
      [s[0]] + Insert(r, s[1..])
  }

  /** The library sort of the route table.  No two routes are equal, so there is only one result. */
  function SortRoutes(s: seq<CompiledRoute>): (t: seq<CompiledRoute>)
    ensures |t| == |s| && multiset(t) == multiset(s)
  {
    if s == [] then []
    else
      assert s == [s[0]] + s[1..];
      Insert(s[0], SortRoutes(s[1..]))
  }

  lemma SortedWithFirst(first: CompiledRoute, rest: seq<CompiledRoute>)
    requires Sorted(rest) && (rest == [] || InOrder(first, rest[0]))
    ensures Sorted([first] + rest)
  {
    forall i | 0 <= i < |rest| ensures InOrder(first, rest[i]) {
      if i > 0 {
        OrderIsTransitive(first, rest[0], rest[i]);
      }
    }
  }

  lemma {:induction false} InsertKeepsOrder(r: CompiledRoute, s: seq<CompiledRoute>)
    requires Sorted(s)
    ensures Sorted(Insert(r, s))
  {
    if s == [] || InOrder(r, s[0]) {
      SortedWithFirst(r, s);
    } else {
      LexTotal(r.path, s[0].path);
      InsertKeepsOrder(r, s[1..]);
      SortedWithFirst(s[0], Insert(r, s[1..]));
    }
  }

  /** The route table is in the order of the binary search: by hash, and by path among equals. */
  lemma {:induction false} SortIsOrdered(s: seq<CompiledRoute>)
    ensures Sorted(SortRoutes(s)) && SortedByHash(SortRoutes(s))
  {
    if s != [] {
      SortIsOrdered(s[1..]);
      InsertKeepsOrder(s[0], SortRoutes(s[1..]));
    }
    var t := SortRoutes(s);
    forall i, j | 0 <= i < j < |t| ensures t[i].pathHash <= t[j].pathHash {
      assert InOrder(t[i], t[j]);
    }
  }

  // ----- the words of the programs

  function CompiledWords(routes: seq<CompiledRoute>): nat {
    if routes == [] then 0 else ProgramWords(|routes[0].response.segments|) + CompiledWords(routes[1..])
  }

  lemma {:induction false} InsertWords(r: CompiledRoute, s: seq<CompiledRoute>)
    ensures CompiledWords(Insert(r, s)) == ProgramWords(|r.response.segments|) + CompiledWords(s)
  {
    if s != [] && !InOrder(r, s[0]) {
      InsertWords(r, s[1..]);
    }
  }

  lemma {:induction false} SortKeepsWords(s: seq<CompiledRoute>)
    ensures CompiledWords(SortRoutes(s)) == CompiledWords(s)
  {
    if s != [] {
      SortKeepsWords(s[1..]);
      InsertWords(s[0], SortRoutes(s[1..]));
    }
  }

  lemma {:induction false} CompiledWordsAre(strings: seq<seq<u8>>, compiled: seq<CompiledRoute>, routes: seq<Route>)
    requires RoutesCompiled(strings, compiled, routes)
    ensures CompiledWords(compiled) == RoutesWords(routes)
  {
    if routes != [] {
      assert RouteFrom(strings, compiled[0], routes[0]);
      forall i | 0 <= i < |routes| - 1 ensures RouteFrom(strings, compiled[1..][i], routes[1..][i]) {
        assert RouteFrom(strings, compiled[i + 1], routes[i + 1]);
      }
      CompiledWordsAre(strings, compiled[1..], routes[1..]);
    }
  }

  lemma {:induction false} WordsSnoc(routes: seq<CompiledRoute>, m: nat)
    requires m < |routes|
    ensures CompiledWords(routes[..m + 1]) == CompiledWords(routes[..m]) + ProgramWords(|routes[m].response.segments|)
  {
    if m > 0 {
      WordsSnoc(routes[1..], m - 1);
      assert routes[..m + 1][1..] == routes[1..][..m] && routes[..m][1..] == routes[1..][..m - 1];
    } else {
      assert routes[..1][1..] == [];
    }
  }

  lemma {:induction false} WordsGrow(routes: seq<CompiledRoute>, m: nat)
    requires m <= |routes|
    ensures CompiledWords(routes[..m]) <= CompiledWords(routes)
  {
    if m > 0 {
      WordsGrow(routes[1..], m - 1);
      assert routes[..m][1..] == routes[1..][..m - 1];
    }
  }

  lemma SortedRoutesFrom(strings: seq<seq<u8>>, compiled: seq<CompiledRoute>, routes: seq<Route>)
    requires RoutesCompiled(strings, compiled, routes) && DistinctPaths(routes)
    ensures RoutesFrom(strings, SortRoutes(compiled), routes)
  {
    var sorted := SortRoutes(compiled);
    SortIsOrdered(compiled);
    forall i | 0 <= i < |sorted| ensures HasSource(strings, sorted[i], routes) {
      assert sorted[i] in multiset(sorted);
      var j :| 0 <= j < |compiled| && compiled[j] == sorted[i];
      assert RouteFrom(strings, compiled[j], routes[j]);
    }
    forall j | 0 <= j < |routes| ensures HasTarget(strings, routes[j], sorted) {
      assert RouteFrom(strings, compiled[j], routes[j]);
      assert compiled[j] in multiset(compiled);
      assert compiled[j] in multiset(sorted);
      var i :| 0 <= i < |sorted| && sorted[i] == compiled[j];
    }
  }

  // ----- emission

  lemma ProgramStays(words: seq<u32>, more: seq<u32>, from: nat, offset: nat, c: CompiledResponse)
    requires ProgramAt(words, offset, c) && from <= offset && |words| <= |more|
    requires forall k :: from <= k < |words| ==> more[k] == words[k]
    ensures ProgramAt(more, offset, c)
  {
    forall k | 0 <= k < |c.segments| ensures OperationAt(more, offset + 5 + 3 * k, c.segments[k]) {
      assert OperationAt(words, offset + 5 + 3 * k, c.segments[k]);
      var at := offset + 5 + 3 * k;
      assert more[at..at + 3] == words[at..at + 3];
    }
  }

  /** The first n operations of a program. */
  ghost predicate OperationsAt(words: seq<u32>, start: nat, segments: seq<CompiledSegment>, n: nat) {
    n <= |segments| && |words| == start + 3 * n
    && forall k :: 0 <= k < n ==> OperationAt(words, start + 3 * k, segments[k])
  }

  lemma SliceOfSum(a: seq<u32>, b: seq<u32>, i: nat, j: nat)
    requires i <= j <= |a|
    ensures (a + b)[i..j] == a[i..j]
  {
  }

  lemma EndOfSum(a: seq<u32>, b: seq<u32>, i: nat, j: nat)
    requires i == |a| && j == |a| + |b|
    ensures (a + b)[i..j] == b
  {
  }

  lemma OneMoreOperation(words: seq<u32>, start: nat, segments: seq<CompiledSegment>, n: nat, op: seq<u32>)
    requires OperationsAt(words, start, segments, n) && n < |segments| && Operation(segments[n]) == Some(op)
    ensures OperationsAt(words + op, start, segments, n + 1)
  {
    var more, n' := words + op, n + 1;
    forall k | 0 <= k < n' ensures OperationAt(more, start + 3 * k, segments[k]) {
      var at := start + 3 * k;
      if k < n {
        assert OperationAt(words, at, segments[k]);
        SliceOfSum(words, op, at, at + 3);
      } else {
        EndOfSum(words, op, at, at + 3);
      }
    }
  }

  /** Everything the program names fits u32. */
  ghost predicate Encodable(c: CompiledResponse) {
    && c.reasonId < 0x1_0000_0000 && c.contentTypeId < 0x1_0000_0000
    && forall k :: 0 <= k < |c.segments| ==> Operation(c.segments[k]).Some?
  }

  lemma CompiledIsEncodable(strings: seq<seq<u8>>, c: CompiledResponse, r: Response)
    requires CompiledFrom(strings, c, r)
    ensures Encodable(c) && |c.segments| == |r.body|
  {
    forall k | 0 <= k < |c.segments| ensures Operation(c.segments[k]).Some? {
      assert SegmentFrom(strings, c.segments[k], r.body[k]);
    }
  }

  /** Appends a descriptor and its program; refused only when its offsets do not fit u32. */
  method EmitResponse(before: seq<u32>, c: CompiledResponse) returns (r: Result<nat>, words: seq<u32>)
    requires Encodable(c)
    ensures r.Ok? ==> before <= words && r.value == |before| && ProgramAt(words, r.value, c)
    ensures r.Ok? ==> |words| == |before| + ProgramWords(|c.segments|)
    ensures r.Err? ==> r.error.TooLarge? && |before| + ProgramWords(|c.segments|) >= 0x1_0000_0000
  {
    words := before;
    var offset := |words|;
    var programOffset := offset + RESPONSE_DESCRIPTOR_WORDS;
    if programOffset >= 0x1_0000_0000 || |c.segments| >= 0x1_0000_0000 {
      return Err(TooLarge), words;
    }
    words := words + [c.status, c.reasonId, c.contentTypeId, programOffset, |c.segments|];
    ghost var described := words;
    var k := 0;
    while k < |c.segments|
      invariant k <= |c.segments| && described <= words && OperationsAt(words, programOffset, c.segments, k)
    {
      var operation := Operation(c.segments[k]);
      OneMoreOperation(words, programOffset, c.segments, k, operation.value);
      words := words + operation.value;
      k := k + 1;
    }
    assert words[..|described|] == described;
    return Ok(offset), words;
  }

  /** A row of the table, and its program beyond the table's end. */
  ghost predicate RowDone(words: seq<u32>, strings: seq<seq<u8>>, n: nat, i: nat, route: CompiledRoute) {
    i < n && 4 * n <= |words| && RowAt(words, strings, i, route) && 4 * n <= words[4 * i + 3]
  }

  lemma RowStays(words: seq<u32>, more: seq<u32>, strings: seq<seq<u8>>, strings': seq<seq<u8>>, n: nat, i: nat,
      route: CompiledRoute)
    requires RowDone(words, strings, n, i, route) && strings <= strings' && |words| <= |more|
    requires forall k :: 4 * n <= k < |words| ==> more[k] == words[k]
    requires forall k :: 4 * i <= k < 4 * i + 4 ==> more[k] == words[k]
    ensures RowDone(more, strings', n, i, route)
  {
    assert more[4 * i] == words[4 * i] && more[4 * i + 1] == words[4 * i + 1];
    assert more[4 * i + 2] == words[4 * i + 2] && more[4 * i + 3] == words[4 * i + 3];
    ProgramStays(words, more, 4 * n, words[4 * i + 3], route.response);
  }

  ghost predicate RowsDone(words: seq<u32>, strings: seq<seq<u8>>, routes: seq<CompiledRoute>, m: nat) {
    m <= |routes| && 4 * |routes| <= |words|
    && forall i :: 0 <= i < m ==> RowDone(words, strings, |routes|, i, routes[i])
  }

  lemma RowWritten(words: seq<u32>, emitted: seq<u32>, after: seq<u32>, strings: seq<seq<u8>>,
      strings': seq<seq<u8>>, routes: seq<CompiledRoute>, m: nat, id: nat, offset: nat)
    requires RowsDone(words, strings, routes, m) && m < |routes| && strings <= strings'
    requires words <= emitted && offset == |words| && offset < 0x1_0000_0000
             && ProgramAt(emitted, offset, routes[m].response)
    requires Interned(strings', id, routes[m].path) && |routes[m].path| < 0x1_0000_0000
    requires after == StoreRow(emitted, 4 * m, routes[m].pathHash, |routes[m].path|, id, offset)
    ensures RowsDone(after, strings', routes, m + 1)
  {
    var n := |routes|;
    forall i | 0 <= i < m + 1 ensures RowDone(after, strings', n, i, routes[i]) {
      if i < m {
        RowStays(words, after, strings, strings', n, i, routes[i]);
      } else {
        ProgramStays(emitted, after, 4 * n, offset, routes[m].response);
      }
    }
  }

  /** The words of the route table and its programs. */
  function TableWords(routes: seq<CompiledRoute>): nat {
    4 * |routes| + CompiledWords(routes)
  }

  /** What the routes still need of the router's texts. */
  ghost predicate RoutesReady(routes: seq<CompiledRoute>, texts: set<seq<u8>>) {
    forall i :: 0 <= i < |routes| ==> RouteReady(routes[i], texts)
  }

  ghost predicate RouteReady(route: CompiledRoute, texts: set<seq<u8>>) {
    Encodable(route.response) && |route.path| < 0x1_0000_0000 && route.path in texts
  }

  /** Emits the program of route m and fills in its row. */
  method EmitRoute(strings: StringTable, words: seq<u32>, routes: seq<CompiledRoute>, m: nat, ghost texts: set<seq<u8>>)
    returns (r: Result<seq<u32>>)
    requires strings.Valid() && HoldsOnly(strings, texts) && m < |routes| && RouteReady(routes[m], texts)
    requires RowsDone(words, strings.values, routes, m)
    modifies strings
    ensures strings.Valid() && HoldsOnly(strings, texts) && old(strings.values) <= strings.values
    ensures r.Ok? ==> RowsDone(r.value, strings.values, routes, m + 1)
    ensures r.Ok? ==> |r.value| == |words| + ProgramWords(|routes[m].response.segments|)
    ensures r.Err? ==>
              Overfull(texts) || |words| + ProgramWords(|routes[m].response.segments|) >= 0x1_0000_0000
  {
    ghost var known := strings.values;
    var route := routes[m];
    var offset, emitted := EmitResponse(words, route.response);
    if offset.Err? {
      return Err(TooLarge);
    }
    var id := InternText(strings, route.path, texts);
    if id.None? || |route.path| >= 0x1_0000_0000 {
      return Err(TooLarge);
    }
    var stored := StoreRow(emitted, 4 * m, route.pathHash, |route.path|, id.value, offset.value);
    RowWritten(words, emitted, stored, known, strings.values, routes, m, id.value, offset.value);
    return Ok(stored);
  }

  /** Emits every route's program and fills in its row; refused only when the texts are too many
      or the words do not fit u32. */
  method EmitRoutes(strings: StringTable, routes: seq<CompiledRoute>, ghost texts: set<seq<u8>>)
    returns (r: Result<seq<u32>>)
    requires strings.Valid() && HoldsOnly(strings, texts) && RoutesReady(routes, texts)
    modifies strings
    ensures strings.Valid() && HoldsOnly(strings, texts) && old(strings.values) <= strings.values
    ensures r.Ok? ==> RowsDone(r.value, strings.values, routes, |routes|) && |r.value| == TableWords(routes)
    ensures r.Err? ==> r.error.TooLarge? && (Overfull(texts) || TableWords(routes) >= 0x1_0000_0000)
  {
    var words := seq<u32>(ROUTE_STRIDE_WORDS * |routes|, _ => 0);
    var m := 0;
    while m < |routes|
      invariant m <= |routes| && strings.Valid() && HoldsOnly(strings, texts) && old(strings.values) <= strings.values
      invariant RowsDone(words, strings.values, routes, m) && |words| == 4 * |routes| + CompiledWords(routes[..m])
    {
      assert RouteReady(routes[m], texts);
      WordsSnoc(routes, m);
      WordsGrow(routes, m + 1);
      var emitted := EmitRoute(strings, words, routes, m, texts);
      if emitted.Err? {
        return Err(TooLarge);
      }
      words := emitted.value;
      m := m + 1;
    }
    assert routes[..m] == routes;
    return Ok(words);
  }

  function StoreRow(words: seq<u32>, at: nat, hash: u32, len: u32, id: u32, offset: u32): seq<u32>
    requires at + 4 <= |words|
  {
    words[at := hash][at + 1 := len][at + 2 := id][at + 3 := offset]
  }

  // ----- the size bound

  /** `decimal_digits` */
  function MaximumResponseBytes(strings: seq<seq<u8>>, ids: StringIds, c: CompiledResponse): nat
    requires IdsFrom(strings, ids) && c.reasonId < |strings| && c.contentTypeId < |strings|
  {
    |strings[ids.httpVersion]| + |Decimal(c.status)| + 1 + |strings[c.reasonId]| + |strings[ids.contentType]|
    + |strings[c.contentTypeId]| + |strings[ids.contentLength]| + |Decimal(c.maxGpuBody)| + |strings[ids.headerTail]|
    + c.maxGpuBody
  }

  lemma BoundOfCompiled(strings: seq<seq<u8>>, ids: StringIds, c: CompiledResponse, r: Response)
    requires IdsFrom(strings, ids) && CompiledFrom(strings, c, r)
    ensures MaximumResponseBytes(strings, ids, c) == MaxResponseBytes(r)
  {
  }

  lemma RoutesFromStays(strings: seq<seq<u8>>, more: seq<seq<u8>>, compiled: seq<CompiledRoute>, routes: seq<Route>)
    requires RoutesFrom(strings, compiled, routes) && strings <= more
    ensures RoutesFrom(more, compiled, routes)
  {
    forall i | 0 <= i < |compiled| ensures HasSource(more, compiled[i], routes) {
      assert HasSource(strings, compiled[i], routes);
      var j :| 0 <= j < |routes| && RouteFrom(strings, compiled[i], routes[j]);
      StaysCompiled(strings, more, compiled[i].response, routes[j].response);
      assert RouteFrom(more, compiled[i], routes[j]);
    }
    forall j | 0 <= j < |routes| ensures HasTarget(more, routes[j], compiled) {
      assert HasTarget(strings, routes[j], compiled);
      var i :| 0 <= i < |compiled| && RouteFrom(strings, compiled[i], routes[j]);
      StaysCompiled(strings, more, compiled[i].response, routes[j].response);
      assert RouteFrom(more, compiled[i], routes[j]);
    }
  }

  lemma CompiledRoutesReady(strings: seq<seq<u8>>, compiled: seq<CompiledRoute>, routes: seq<Route>,
      texts: set<seq<u8>>)
    requires RoutesFrom(strings, compiled, routes) && RoutesTexts(routes) <= texts && RoutesAcceptable(routes)
    ensures RoutesReady(compiled, texts)
  {
    forall i | 0 <= i < |compiled| ensures RouteReady(compiled[i], texts) {
      assert HasSource(strings, compiled[i], routes);
      var j :| 0 <= j < |routes| && RouteFrom(strings, compiled[i], routes[j]);
      CompiledIsEncodable(strings, compiled[i].response, routes[j].response);
      RouteInRoutes(routes, j);
    }
  }

  lemma CompiledIdsListed(strings: seq<seq<u8>>, compiled: seq<CompiledRoute>, routes: seq<Route>)
    requires RoutesFrom(strings, compiled, routes)
    ensures forall i :: 0 <= i < |compiled| ==>
              compiled[i].response.reasonId < |strings| && compiled[i].response.contentTypeId < |strings|
  {
    forall i | 0 <= i < |compiled|
      ensures compiled[i].response.reasonId < |strings| && compiled[i].response.contentTypeId < |strings|
    {
      assert HasSource(strings, compiled[i], routes);
    }
  }

  /** The largest bound of the routes, or the given one if larger. */
  method LargestBound(strings: seq<seq<u8>>, ids: StringIds, compiled: seq<CompiledRoute>, start: nat)
    returns (largest: nat)
    requires IdsFrom(strings, ids)
    requires forall i :: 0 <= i < |compiled| ==>
               compiled[i].response.reasonId < |strings| && compiled[i].response.contentTypeId < |strings|
    ensures largest >= start
    ensures forall i :: 0 <= i < |compiled| ==> MaximumResponseBytes(strings, ids, compiled[i].response) <= largest
    ensures || largest == start
            || exists i :: 0 <= i < |compiled| && MaximumResponseBytes(strings, ids, compiled[i].response) == largest
  {
    largest := start;
    var i := 0;
    while i < |compiled|
      invariant i <= |compiled| && largest >= start
      invariant forall k :: 0 <= k < i ==> MaximumResponseBytes(strings, ids, compiled[k].response) <= largest
      invariant || largest == start
                || exists k :: 0 <= k < i && MaximumResponseBytes(strings, ids, compiled[k].response) == largest
    {
      var bound := MaximumResponseBytes(strings, ids, compiled[i].response);
      if bound > largest {
        largest := bound;
      }
      i := i + 1;
    }
  }

  lemma LargestIsBound(strings: seq<seq<u8>>, ids: StringIds, compiled: seq<CompiledRoute>, router: Router,
      three: nat, largest: nat)
    requires IdsFrom(strings, ids) && RoutesFrom(strings, compiled, router.routes)
    requires forall i :: 0 <= i < |compiled| ==>
               compiled[i].response.reasonId < |strings| && compiled[i].response.contentTypeId < |strings|
    requires three == Larger(MaxResponseBytes(router.fallback),
             Larger(MaxResponseBytes(router.badRequest), MaxResponseBytes(router.methodNotAllowed)))
    requires largest >= three
    requires forall i :: 0 <= i < |compiled| ==> MaximumResponseBytes(strings, ids, compiled[i].response) <= largest
    requires || largest == three
             || exists i :: 0 <= i < |compiled| && MaximumResponseBytes(strings, ids, compiled[i].response) == largest
    ensures IsLargest(router, largest)
  {
    forall j | 0 <= j < |router.routes| ensures MaxResponseBytes(router.routes[j].response) <= largest {
      assert HasTarget(strings, router.routes[j], compiled);
      var i :| 0 <= i < |compiled| && RouteFrom(strings, compiled[i], router.routes[j]);
      BoundOfCompiled(strings, ids, compiled[i].response, router.routes[j].response);
    }
    if largest != three {
      var i :| 0 <= i < |compiled| && MaximumResponseBytes(strings, ids, compiled[i].response) == largest;
      assert HasSource(strings, compiled[i], router.routes);
      var j :| 0 <= j < |router.routes| && RouteFrom(strings, compiled[i], router.routes[j]);
      BoundOfCompiled(strings, ids, compiled[i].response, router.routes[j].response);
    }
  }

  function Larger(a: nat, b: nat): nat { if a < b then b else a }

  /** The strings every response needs are interned first. */
  method InternCommon(strings: StringTable, ghost texts: set<seq<u8>>) returns (ids: StringIds)
    requires strings.Valid() && strings.values == [] && COMMON_TEXTS <= texts
    modifies strings
    ensures strings.Valid() && HoldsOnly(strings, texts) && IdsFrom(strings.values, ids)
  {
    var a := InternEarly(strings, HTTP_VERSION, texts);
    var b := InternEarly(strings, CONTENT_TYPE, texts);
    var c := InternEarly(strings, CONTENT_LENGTH, texts);
    var d := InternEarly(strings, RESERVED_TAIL, texts);
    var e := InternEarly(strings, HttpText.GPU, texts);
    ids := StringIds(a, b, c, d, e);
  }

  /** Interning into a table that is still small. */
  method InternEarly(strings: StringTable, text: seq<u8>, ghost texts: set<seq<u8>>) returns (id: nat)
    requires strings.Valid() && HoldsOnly(strings, texts) && |strings.values| < 100 && text in texts
    modifies strings
    ensures strings.Valid() && HoldsOnly(strings, texts)
    ensures old(strings.values) <= strings.values && |strings.values| <= |old(strings.values)| + 1
    ensures Interned(strings.values, id, text)
  {
    var interned := strings.Intern(text);
    id := interned.value;
  }

  /** The three responses that are not routes. */
  datatype Others = Others(fallback: CompiledResponse, badRequest: CompiledResponse,
    methodNotAllowed: CompiledResponse)

  ghost predicate OthersFrom(strings: seq<seq<u8>>, o: Others, router: Router) {
    && CompiledFrom(strings, o.fallback, router.fallback) && ValidResponse(router.fallback)
    && CompiledFrom(strings, o.badRequest, router.badRequest) && ValidResponse(router.badRequest)
    && CompiledFrom(strings, o.methodNotAllowed, router.methodNotAllowed) && ValidResponse(router.methodNotAllowed)
  }

  lemma OthersStay(strings: seq<seq<u8>>, more: seq<seq<u8>>, o: Others, router: Router)
    requires OthersFrom(strings, o, router) && strings <= more
    ensures OthersFrom(more, o, router)
  {
    StaysCompiled(strings, more, o.fallback, router.fallback);
    StaysCompiled(strings, more, o.badRequest, router.badRequest);
    StaysCompiled(strings, more, o.methodNotAllowed, router.methodNotAllowed);
  }

  predicate OtherBodiesFit(router: Router) {
    BodyFits(router.fallback) && BodyFits(router.badRequest) && BodyFits(router.methodNotAllowed)
  }

  method CompileOthers(strings: StringTable, router: Router, ghost texts: set<seq<u8>>) returns (r: Result<Others>)
    requires strings.Valid() && HoldsOnly(strings, texts) && OtherTexts(router) <= texts
    modifies strings
    ensures strings.Valid() && HoldsOnly(strings, texts) && old(strings.values) <= strings.values
    ensures r.Ok? ==> OthersFrom(strings.values, r.value, router) && OtherBodiesFit(router)
    ensures r.Err? ==>
              if r.error.TooLarge? then Overfull(texts) || !OtherBodiesFit(router) else !AcceptableRouter(router)
  {
    var fallback := CompileResponse(strings, router.fallback, texts);
    if fallback.Err? { return Err(fallback.error); }
    ghost var s1 := strings.values;
    var badRequest := CompileResponse(strings, router.badRequest, texts);
    if badRequest.Err? { return Err(badRequest.error); }
    ghost var s2 := strings.values;
    var methodNotAllowed := CompileResponse(strings, router.methodNotAllowed, texts);
    if methodNotAllowed.Err? { return Err(methodNotAllowed.error); }
    StaysCompiled(s1, strings.values, fallback.value, router.fallback);
    StaysCompiled(s2, strings.values, badRequest.value, router.badRequest);
    return Ok(Others(fallback.value, badRequest.value, methodNotAllowed.value));
  }

  ghost predicate OthersEncodable(o: Others, router: Router) {
    && Encodable(o.fallback) && |o.fallback.segments| == |router.fallback.body|
    && Encodable(o.badRequest) && |o.badRequest.segments| == |router.badRequest.body|
    && Encodable(o.methodNotAllowed) && |o.methodNotAllowed.segments| == |router.methodNotAllowed.body|
  }

  lemma OthersAreEncodable(strings: seq<seq<u8>>, o: Others, router: Router)
    requires OthersFrom(strings, o, router)
    ensures OthersEncodable(o, router)
  {
    CompiledIsEncodable(strings, o.fallback, router.fallback);
    CompiledIsEncodable(strings, o.badRequest, router.badRequest);
    CompiledIsEncodable(strings, o.methodNotAllowed, router.methodNotAllowed);
  }

  /** The programs of the other three, after the routes'. */
  method EmitOthers(words: seq<u32>, strings: seq<seq<u8>>, routes: seq<CompiledRoute>, o: Others, ghost router: Router)
    returns (r: Result<Layout>, all: seq<u32>)
    requires RowsDone(words, strings, routes, |routes|) && OthersEncodable(o, router)
    ensures r.Ok? ==>
              && RowsDone(all, strings, routes, |routes|) && r.value.routeCount == |routes|
              && ProgramAt(all, r.value.fallback, o.fallback) && ProgramAt(all, r.value.badRequest, o.badRequest)
              && ProgramAt(all, r.value.methodNotAllowed, o.methodNotAllowed)
              && |all| == |words| + OtherWords(router)
    ensures r.Err? ==> r.error.TooLarge? && |words| + OtherWords(router) >= 0x1_0000_0000
  {
    var fallback, w1 := EmitResponse(words, o.fallback);
    if fallback.Err? { return Err(TooLarge), w1; }
    var badRequest, w2 := EmitResponse(w1, o.badRequest);
    if badRequest.Err? { return Err(TooLarge), w2; }
    var methodNotAllowed, w3 := EmitResponse(w2, o.methodNotAllowed);
    if methodNotAllowed.Err? { return Err(TooLarge), w3; }
    ProgramStays(w1, w3, 0, fallback.value, o.fallback);
    ProgramStays(w2, w3, 0, badRequest.value, o.badRequest);
    forall i | 0 <= i < |routes| ensures RowDone(w3, strings, |routes|, i, routes[i]) {
      RowStays(words, w3, strings, strings, |routes|, i, routes[i]);
    }
    return Ok(Layout(|routes|, fallback.value, badRequest.value, methodNotAllowed.value)), w3;
  }

  lemma IdsStay(strings: seq<seq<u8>>, more: seq<seq<u8>>, ids: StringIds)
    requires IdsFrom(strings, ids) && strings <= more
    ensures IdsFrom(more, ids)
  {
  }

  /** Everything compiled, before the words are emitted. */
  datatype Compilation = Compilation(routes: seq<CompiledRoute>, others: Others)

  ghost predicate PartsFrom(strings: seq<seq<u8>>, p: Compilation, router: Router) {
    && RoutesFrom(strings, p.routes, router.routes) && OthersFrom(strings, p.others, router)
    && RoutesAcceptable(router.routes)
  }

  lemma PartsStay(strings: seq<seq<u8>>, more: seq<seq<u8>>, p: Compilation, router: Router)
    requires PartsFrom(strings, p, router) && strings <= more
    ensures PartsFrom(more, p, router)
  {
    RoutesFromStays(strings, more, p.routes, router.routes);
    OthersStay(strings, more, p.others, router);
  }

  /** The bodies' sizes are computed without overflow. */
  predicate BodiesFit(router: Router) {
    RouteBodiesFit(router.routes) && OtherBodiesFit(router)
  }

  method CompileParts(strings: StringTable, router: Router, ghost texts: set<seq<u8>>) returns (r: Result<Compilation>)
    requires strings.Valid() && HoldsOnly(strings, texts) && RouterTexts(router) <= texts
    modifies strings
    ensures strings.Valid() && HoldsOnly(strings, texts) && old(strings.values) <= strings.values
    ensures r.Ok? ==> PartsFrom(strings.values, r.value, router) && BodiesFit(router)
    ensures r.Ok? ==> |r.value.routes| == |router.routes| && CompiledWords(r.value.routes) == RoutesWords(router.routes)
    ensures r.Err? ==> if r.error.TooLarge? then Overfull(texts) || !BodiesFit(router) else !AcceptableRouter(router)
  {
    var compiled := CompileRoutes(strings, router.routes, texts);
    if compiled.Err? {
      return Err(compiled.error);
    }
    ghost var s1 := strings.values;
    var routes := SortRoutes(compiled.value);
    SortedRoutesFrom(s1, compiled.value, router.routes);
    SortKeepsWords(compiled.value);
    CompiledWordsAre(s1, compiled.value, router.routes);
    var others := CompileOthers(strings, router, texts);
    if others.Err? {
      return Err(others.error);
    }
    RoutesFromStays(s1, strings.values, routes, router.routes);
    return Ok(Compilation(routes, others.value));
  }

  method MaxBound(strings: seq<seq<u8>>, ids: StringIds, p: Compilation, ghost router: Router) returns (largest: nat)
    requires IdsFrom(strings, ids) && PartsFrom(strings, p, router)
    ensures IsLargest(router, largest)
  {
    CompiledIdsListed(strings, p.routes, router.routes);
    BoundOfCompiled(strings, ids, p.others.fallback, router.fallback);
    BoundOfCompiled(strings, ids, p.others.badRequest, router.badRequest);
    BoundOfCompiled(strings, ids, p.others.methodNotAllowed, router.methodNotAllowed);
    var three := Larger(MaximumResponseBytes(strings, ids, p.others.fallback),
                        Larger(MaximumResponseBytes(strings, ids, p.others.badRequest),
                               MaximumResponseBytes(strings, ids, p.others.methodNotAllowed)));
    largest := LargestBound(strings, ids, p.routes, three);
    LargestIsBound(strings, ids, p.routes, router, three, largest);
  }

  lemma RowsAreTable(words: seq<u32>, strings: seq<seq<u8>>, routes: seq<CompiledRoute>)
    requires RowsDone(words, strings, routes, |routes|)
    ensures forall i :: 0 <= i < |routes| ==> RowAt(words, strings, i, routes[i])
  {
    forall i | 0 <= i < |routes| ensures RowAt(words, strings, i, routes[i]) {
      assert RowDone(words, strings, |routes|, i, routes[i]);
    }
  }

  lemma TooManyBytes(router: Router, bound: nat)
    requires IsLargest(router, bound) && bound >= 0x1_0000_0000
    ensures !FitsMachine(router)
  {
    var others := {MaxResponseBytes(router.fallback), MaxResponseBytes(router.badRequest),
                   MaxResponseBytes(router.methodNotAllowed)};
    if bound !in others {
      var j :| 0 <= j < |router.routes| && bound == MaxResponseBytes(router.routes[j].response);
      assert !ResponseFits(router.routes[j].response);
    }
  }

  lemma SomeBodyDoesNotFit(router: Router)
    requires !BodiesFit(router)
    ensures !FitsMachine(router)
  {
    if FitsMachine(router) {
      forall j | 0 <= j < |router.routes| ensures BodyFits(router.routes[j].response) {
        assert ResponseFits(router.routes[j].response);
      }
    }
  }

  lemma RouteIsListed(routes: seq<Route>, strings: seq<seq<u8>>, compiled: seq<CompiledRoute>, words: seq<u32>, j: nat)
    requires RoutesFrom(strings, compiled, routes) && RowsDone(words, strings, compiled, |compiled|) && j < |routes|
    ensures RouteListed(strings, routes[j])
  {
    assert HasTarget(strings, routes[j], compiled);
    var i :| 0 <= i < |compiled| && RouteFrom(strings, compiled[i], routes[j]);
    assert RowDone(words, strings, |compiled|, i, compiled[i]);
    ResponseTextsListed(strings, compiled[i].response, routes[j].response);
  }

  /** The texts of a compiled router are all in its table. */
  lemma TextsAreListed(router: Router, strings: seq<seq<u8>>, ids: StringIds, p: Compilation, words: seq<u32>)
    requires IdsFrom(strings, ids) && PartsFrom(strings, p, router) && RowsDone(words, strings, p.routes, |p.routes|)
    requires |strings| <= 0x1_0000_0000
    ensures !Overfull(RouterTexts(router))
  {
    forall j | 0 <= j < |router.routes| ensures RouteListed(strings, router.routes[j]) {
      RouteIsListed(router.routes, strings, p.routes, words, j);
    }
    RoutesTextsListed(strings, router.routes);
    OtherTextsListed(strings, p.others, router);
    ListedAreFewer(RouterTexts(router), strings);
  }

  lemma OtherTextsListed(strings: seq<seq<u8>>, o: Others, router: Router)
    requires OthersFrom(strings, o, router)
    ensures forall t :: t in OtherTexts(router) ==> t in strings
  {
    ResponseTextsListed(strings, o.fallback, router.fallback);
    ResponseTextsListed(strings, o.badRequest, router.badRequest);
    ResponseTextsListed(strings, o.methodNotAllowed, router.methodNotAllowed);
  }

  lemma CompiledFits(router: Router, bound: nat)
    requires |router.routes| < 0x1_0000_0000 && !Overfull(RouterTexts(router)) && RouterWords(router) < 0x1_0000_0000
    requires BodiesFit(router) && IsLargest(router, bound) && bound < 0x1_0000_0000
    ensures FitsMachine(router)
  {
    forall j | 0 <= j < |router.routes| ensures ResponseFits(router.routes[j].response) {
      assert BodyFits(router.routes[j].response);
    }
  }

  /** A router compiles exactly when it is acceptable and everything fits its machine size, and
      then to what it declares; a refusal says which of the two failed. */
  method Compile(router: Router) returns (r: Result<CompiledRouter>)
    ensures r.Ok? <==> AcceptableRouter(router) && FitsMachine(router)
    ensures r.Ok? ==> CompilesTo(router, r.value)
    ensures r.Err? ==> if r.error.TooLarge? then !FitsMachine(router) else !AcceptableRouter(router)
  {
    ghost var texts := RouterTexts(router);
    var strings := new StringTable();
    var ids := InternCommon(strings, texts);
    if |router.routes| >= 0x1_0000_0000 {
      return Err(TooLarge);
    }
    ghost var s1 := strings.values;
    var parts := CompileParts(strings, router, texts);
    if parts.Err? {
      if parts.error.TooLarge? && !BodiesFit(router) {
        SomeBodyDoesNotFit(router);
      }
      return Err(parts.error);
    }
    var p := parts.value;
    r := EmitCompiled(strings, ids, p, router, s1);
  }

  /** The words, the bound and the final checks. */
  method EmitCompiled(strings: StringTable, ids: StringIds, p: Compilation, ghost router: Router,
      ghost first: seq<seq<u8>>)
    returns (r: Result<CompiledRouter>)
    requires strings.Valid() && HoldsOnly(strings, RouterTexts(router))
    requires first <= strings.values && IdsFrom(first, ids)
    requires |router.routes| < 0x1_0000_0000 && PartsFrom(strings.values, p, router) && BodiesFit(router)
    requires |p.routes| == |router.routes| && CompiledWords(p.routes) == RoutesWords(router.routes)
    modifies strings
    ensures r.Ok? <==> FitsMachine(router)
    ensures r.Ok? ==> CompilesTo(router, r.value)
    ensures r.Err? ==> r.error.TooLarge?
  {
    ghost var texts, s2 := RouterTexts(router), strings.values;
    CompiledRoutesReady(s2, p.routes, router.routes, texts);
    var rows := EmitRoutes(strings, p.routes, texts);
    if rows.Err? {
      return Err(TooLarge);
    }
    PartsStay(s2, strings.values, p, router);
    IdsStay(first, strings.values, ids);
    ValidTableHasNoDuplicates(strings);
    r := Finish(strings.values, ids, p, rows.value, router);
  }

  /** The programs of the other responses, the bound, and the last checks. */
  method Finish(strings: seq<seq<u8>>, ids: StringIds, p: Compilation, rows: seq<u32>, ghost router: Router)
    returns (r: Result<CompiledRouter>)
    requires NoDuplicates(strings) && |strings| <= 0x1_0000_0000 && IdsFrom(strings, ids)
    requires |p.routes| == |router.routes| < 0x1_0000_0000 && PartsFrom(strings, p, router) && BodiesFit(router)
    requires RowsDone(rows, strings, p.routes, |p.routes|)
    requires |rows| + OtherWords(router) == RouterWords(router)
    ensures r.Ok? <==> FitsMachine(router)
    ensures r.Ok? ==> CompilesTo(router, r.value)
    ensures r.Err? ==> r.error.TooLarge?
  {
    OthersAreEncodable(strings, p.others, router);
    var layout, words := EmitOthers(rows, strings, p.routes, p.others, router);
    if layout.Err? {
      return Err(TooLarge);
    }
    var bound := MaxBound(strings, ids, p, router);
    if bound >= 0x1_0000_0000 || |words| >= 0x1_0000_0000 {
      if bound >= 0x1_0000_0000 {
        TooManyBytes(router, bound);
      }
      return Err(TooLarge);
    }
    TextsAreListed(router, strings, ids, p, words);
    CompiledFits(router, bound);
    RowsAreTable(words, strings, p.routes);
    return Ok(CompiledRouter(p.routes, p.others.fallback, p.others.badRequest, p.others.methodNotAllowed,
                             strings, words, layout.value, ids, bound));
  }
}
