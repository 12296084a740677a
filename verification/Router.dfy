/** Router declarations and what they mean: the response every request is answered with
    (src/router.rs:48-111, 352-400 and 403-436, src/protocol.rs:61-87). */
module Router {
  import opened Bits
  import opened ByteText
  import opened HttpText

  datatype Segment =
    | Literal(text: seq<u8>)
    | Path(maxBytes: nat)
    | Query(maxBytes: nat)
    | Backend
    | RequestBytes
    | PathHash
    | BackendVariant(cpu: seq<u8>, gpu: seq<u8>)

  type Body = seq<Segment>

  /** What a body can echo. */
  datatype Echo = Echo(parts: Parts, requestLen: nat, backend: seq<u8>)

  function UpTo(s: seq<u8>, n: nat): seq<u8> {
    if |s| <= n then s else s[..n]
  }

  function SegmentText(s: Segment, e: Echo): seq<u8> {
    match s
    case Literal(text) => text
    case Path(max) => UpTo(e.parts.path, max)
    case Query(max) => UpTo(e.parts.query, max)
    case Backend => e.backend
    case RequestBytes => Decimal(e.requestLen)
    case PathHash => Decimal(e.parts.pathHash)
    case BackendVariant(cpu, gpu) => if e.backend == HttpText.GPU then gpu else cpu
  }

  function BodyText(body: Body, e: Echo): seq<u8> {
    if body == [] then [] else BodyText(body[..|body| - 1], e) + SegmentText(body[|body| - 1], e)
  }

  lemma BodyTextSnoc(body: Body, s: Segment, e: Echo)
    ensures BodyText(body + [s], e) == BodyText(body, e) + SegmentText(s, e)
  {
    assert (body + [s])[..|body|] == body;
  }

  // ----- building bodies

  function AddLiteral(body: Body, text: seq<u8>): Body {
    if text == [] then body
    else if body != [] && body[|body| - 1].Literal?
    then body[..|body| - 1] + [Literal(body[|body| - 1].text + text)]
    else body + [Literal(text)]
  }

  /** One call of the builder. */
  function Add(body: Body, s: Segment): Body {
    match s
    case Literal(text) => AddLiteral(body, text)
    case Path(max) => if max == 0 then body else body + [s]
    case Query(max) => if max == 0 then body else body + [s]
    case BackendVariant(cpu, gpu) => if cpu == gpu then AddLiteral(body, cpu) else body + [s]
    case _ => body + [s]
  }

  function Build(calls: seq<Segment>): Body {
    if calls == [] then [] else Add(Build(calls[..|calls| - 1]), calls[|calls| - 1])
  }

  lemma AddLiteralAppends(body: Body, text: seq<u8>, e: Echo)
    ensures BodyText(AddLiteral(body, text), e) == BodyText(body, e) + text
  {
    if text == [] {
    } else if body != [] && body[|body| - 1].Literal? {
      var front, last := body[..|body| - 1], body[|body| - 1].text;
      BodyTextSnoc(front, Literal(last + text), e);
      assert BodyText(front, e) + (last + text) == BodyText(front, e) + last + text;
    } else {
      BodyTextSnoc(body, Literal(text), e);
    }
  }

  lemma AddAppends(body: Body, s: Segment, e: Echo)
    ensures BodyText(Add(body, s), e) == BodyText(body, e) + SegmentText(s, e)
  {
    BodyTextSnoc(body, s, e);
    match s
    case Literal(text) => AddLiteralAppends(body, text, e);
    case BackendVariant(cpu, gpu) => if cpu == gpu { AddLiteralAppends(body, cpu, e); }
    case _ =>
  }

  /** Folding literals and dropping empty segments never changes a response. */
  lemma {:induction false} FoldingKeepsMeaning(calls: seq<Segment>, e: Echo)
    ensures BodyText(Build(calls), e) == BodyText(calls, e)
  {
    if calls != [] {
      var n := |calls| - 1;
      FoldingKeepsMeaning(calls[..n], e);
      AddAppends(Build(calls[..n]), calls[n], e);
    }
  }

  /** No empty segment, and no literal that could join the one before it. */
  predicate Folded(body: Body, i: nat)
    requires i < |body|
  {
    && body[i] != Literal([]) && body[i] != Path(0) && body[i] != Query(0)
    && (i > 0 ==> !(body[i - 1].Literal? && body[i].Literal?))
    && (body[i].BackendVariant? ==> body[i].cpu != body[i].gpu)
  }

  /** Built bodies are fully folded. */
  lemma {:induction false} BuiltIsFolded(calls: seq<Segment>)
    ensures forall i :: 0 <= i < |Build(calls)| ==> Folded(Build(calls), i)
  {
    if calls != [] {
      var n := |calls| - 1;
      BuiltIsFolded(calls[..n]);
      AddKeepsFolded(Build(calls[..n]), calls[n]);
    }
  }

  lemma AddKeepsFolded(body: Body, s: Segment)
    requires forall i :: 0 <= i < |body| ==> Folded(body, i)
    ensures forall i :: 0 <= i < |Add(body, s)| ==> Folded(Add(body, s), i)
  {
    var after := Add(body, s);
    forall i | 0 <= i < |after| ensures Folded(after, i) {
      if i < |body| { assert Folded(body, i); }
    }
  }

  // ----- responses and routes

  datatype Status = Status(code: u16, reason: seq<u8>)

  datatype Response = Response(status: Status, contentType: seq<u8>, body: Body)

  datatype Route = Route(path: seq<u8>, response: Response)

  datatype Router = Router(routes: seq<Route>, fallback: Response, badRequest: Response, methodNotAllowed: Response)

  /** `build_response` with the rendered body. */
  function ResponseText(r: Response, e: Echo): seq<u8> {
    var body := BodyText(r.body, e);
    HTTP_VERSION + Decimal(r.status.code) + [SPACE] + r.status.reason + CONTENT_TYPE + r.contentType
    + CONTENT_LENGTH + Decimal(|body|) + (SERVER + e.backend + BLANK_LINE) + body
  }

  /** The response declared for a path, or the fallback. */
  function Declared(routes: seq<Route>, path: seq<u8>, fallback: Response): Response {
    if routes == [] then fallback
    else if routes[0].path == path then routes[0].response
    else Declared(routes[1..], path, fallback)
  }

  /** The meaning of a router: every request gets exactly this answer. */
  function Answer(router: Router, request: seq<u8>, backend: seq<u8>): seq<u8> {
    match ParseRequest(request)
    case Get(parts) =>
      ResponseText(Declared(router.routes, parts.path, router.fallback), Echo(parts, |request|, backend))
    case BadRequest => ResponseText(router.badRequest, Echo(NO_PARTS, |request|, backend))
    case MethodNotAllowed => ResponseText(router.methodNotAllowed, Echo(NO_PARTS, |request|, backend))
  }

  // ----- bounds

  function MaxGpuSegment(s: Segment): nat {
    match s
    case Literal(text) => |text|
    case Path(max) => max
    case Query(max) => max
    case Backend => 3
    case RequestBytes => 10
    case PathHash => 10
    case BackendVariant(cpu, gpu) => |gpu|
  }

  function MaxGpuBody(body: Body): nat {
    if body == [] then 0 else MaxGpuBody(body[..|body| - 1]) + MaxGpuSegment(body[|body| - 1])
  }

  function MaxCpuSegment(s: Segment): nat {
    match s
    case RequestBytes => 20
    case BackendVariant(cpu, gpu) => if |cpu| < |gpu| then |gpu| else |cpu|
    case _ => MaxGpuSegment(s)
  }

  function MaxCpuBody(body: Body): nat {
    if body == [] then 0 else MaxCpuBody(body[..|body| - 1]) + MaxCpuSegment(body[|body| - 1])
  }

  lemma {:induction false} GpuBodyBound(body: Body, e: Echo)
    requires e.backend == HttpText.GPU && e.requestLen < 0x1_0000_0000
    ensures |BodyText(body, e)| <= MaxGpuBody(body)
  {
    if body != [] {
      GpuBodyBound(body[..|body| - 1], e);
      DecimalOfU32(e.requestLen);
      DecimalOfU32(e.parts.pathHash);
    }
  }

  /** The largest response: the header with the largest length, and the largest body. */
  function MaxResponseBytes(r: Response): nat {
    |HTTP_VERSION| + |Decimal(r.status.code)| + 1 + |r.status.reason| + |CONTENT_TYPE| + |r.contentType|
    + |CONTENT_LENGTH| + |Decimal(MaxGpuBody(r.body))| + |RESERVED_TAIL| + MaxGpuBody(r.body)
  }

  lemma ResponseBound(r: Response, e: Echo)
    requires e.backend == HttpText.GPU && e.requestLen < 0x1_0000_0000
    ensures |ResponseText(r, e)| <= MaxResponseBytes(r)
  {
    GpuBodyBound(r.body, e);
    DecimalGrows(|BodyText(r.body, e)|, MaxGpuBody(r.body));
  }
}
