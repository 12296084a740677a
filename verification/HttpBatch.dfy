/** A batch through the GPU HTTP processor: pack, dispatch one thread per request, decode
    (src/processor/gpu.rs:608-647 and 712-746). */
module HttpBatch {
  import opened Bits
  import opened Packing
  import opened OutputSlots
  import opened HttpText
  import opened HttpWriter
  import opened HttpParse
  import opened HttpAssets
  import opened HttpShader
  import opened HttpGpu
  import opened Router
  import opened CompiledRouter

  /** Response i can be read back. */
  ghost predicate Ready(metas: seq<ResponseMeta>, output: seq<u32>, stride: nat, i: nat, text: seq<u8>) {
    && i < |metas| && metas[i].outputLen == |text| && metas[i].flags == 0
    && HoldsBytes(output, 4 * SlotBase(0, stride, i), text)
  }

  predicate Decodable(m: ResponseMeta, stride: nat) {
    m.flags == 0 && 0 < m.outputLen <= 4 * stride
  }

  /** Refuses the batch when any response failed or has an impossible length; otherwise returns
      every response's bytes, in request order. */
  method DecodeResponses(metas: seq<ResponseMeta>, output: seq<u32>, stride: nat, ghost texts: seq<seq<u8>>)
    returns (r: Option<seq<seq<u8>>>)
    requires |texts| == |metas| && SlotBase(0, stride, |metas|) <= |output|
    requires forall i :: 0 <= i < |metas| && metas[i].flags == 0 ==> Ready(metas, output, stride, i, texts[i])
    ensures r.Some? <==> forall i :: 0 <= i < |metas| ==> Decodable(metas[i], stride)
    ensures r.Some? ==> r.value == texts
  {
    var responses: seq<seq<u8>> := [];
    var i := 0;
    while i < |metas|
      invariant i <= |metas| && responses == texts[..i]
      invariant forall k :: 0 <= k < i ==> Decodable(metas[k], stride)
    {
      if metas[i].flags != 0 || metas[i].outputLen == 0 || metas[i].outputLen > 4 * stride {
        assert !Decodable(metas[i], stride);
        return None;
      }
      assert Ready(metas, output, stride, i, texts[i]);
      var base := SlotStart(0, stride, i);
      HeldBytes(output, 4 * base, texts[i]);
      responses := responses + [BytesAt(output, 4 * base, metas[i].outputLen)];
      i := i + 1;
    }
    return Some(responses);
  }

  lemma HoldsUnchanged(before: seq<u32>, after: seq<u32>, from: nat, to: nat, base: nat, stride: nat, text: seq<u8>)
    requires Only(before, after, from, to) && HoldsBytes(before, 4 * base, text)
    requires |text| <= 4 * stride && base + stride <= |before| && (base + stride <= from || to <= base)
    ensures HoldsBytes(after, 4 * base, text)
  {
    SliceKept(before, after, from, to, base, base + stride);
    forall b | 0 <= b < |text| ensures HeldAt(after, 4 * base, text, b) {
      assert HeldAt(before, 4 * base, text, b);
      DivModUnique(4 * base + b, 4, base + b / 4, b % 4);
      assert after[base..base + stride][b / 4] == before[base..base + stride][b / 4];
    }
  }

  function Answers(router: Router, requests: seq<seq<u8>>): (a: seq<seq<u8>>)
    ensures |a| == |requests|
  {
    seq(|requests|, i requires 0 <= i < |requests| => GpuAnswer(router, requests[i]))
  }

  predicate FitsSlot(text: seq<u8>, stride: nat) {
    0 < |text| <= 4 * stride
  }

  /** The texts of these threads are in their slots. */
  ghost predicate ReadyFor(texts: seq<seq<u8>>, metas: seq<ResponseMeta>, output: seq<u32>, stride: nat,
      done: seq<nat>) {
    && |metas| == |texts|
    && forall k :: 0 <= k < |done| ==> done[k] < |texts| && Ready(metas, output, stride, done[k], texts[done[k]])
  }

  /** A thread leaves the responses of the others as they were. */
  lemma ReadyStays(texts: seq<seq<u8>>, metas: seq<ResponseMeta>, before: seq<u32>, after: seq<u32>, stride: nat,
      i: nat, j: nat, meta: ResponseMeta)
    requires i < |texts| == |metas| && j < |texts| && i != j && SlotBase(0, stride, |texts|) <= |before|
    requires Ready(metas, before, stride, j, texts[j]) && FitsSlot(texts[j], stride)
    requires Only(before, after, SlotBase(0, stride, i), SlotBase(0, stride, i) + stride)
    ensures Ready(metas[i := meta], after, stride, j, texts[j])
  {
    if i < j {
      SlotsAscend(0, stride, i + 1, j);
    } else {
      SlotsAscend(0, stride, j + 1, i);
    }
    SlotsAscend(0, stride, j + 1, |texts|);
    var base := SlotBase(0, stride, i);
    HoldsUnchanged(before, after, base, base + stride, SlotBase(0, stride, j), stride, texts[j]);
  }

  lemma ReadyOneMore(texts: seq<seq<u8>>, metas: seq<ResponseMeta>, before: seq<u32>, after: seq<u32>, stride: nat,
      done: seq<nat>, i: nat, status: u16, meta: ResponseMeta)
    requires ReadyFor(texts, metas, before, stride, done) && i < |texts|
    requires SlotBase(0, stride, |texts|) <= |before|
    requires forall j :: 0 <= j < |texts| ==> FitsSlot(texts[j], stride)
    requires Responded(before, after, SlotBase(0, stride, i), stride, texts[i], status, meta)
    ensures ReadyFor(texts, metas[i := meta], after, stride, done + [i])
  {
    var all := done + [i];
    forall k | 0 <= k < |all|
      ensures all[k] < |texts| && Ready(metas[i := meta], after, stride, all[k], texts[all[k]])
    {
      if all[k] != i {
        assert all[k] == done[k] && FitsSlot(texts[done[k]], stride);
        ReadyStays(texts, metas, before, after, stride, i, done[k], meta);
      }
    }
  }

  lemma AnswersFit(router: Router, c: CompiledRouter, stride: nat, requests: seq<seq<u8>>, texts: seq<seq<u8>>)
    requires CompilesTo(router, c) && c.maxGpuResponseBytes <= 4 * stride && texts == Answers(router, requests)
    requires forall i :: 0 <= i < |requests| ==> |requests[i]| < 0xffff_fff0
    ensures forall i :: 0 <= i < |texts| ==> FitsSlot(texts[i], stride)
  {
    forall i | 0 <= i < |texts| ensures FitsSlot(texts[i], stride) {
      AnswerFits(router, c, requests[i]);
    }
  }

  /** One thread of the dispatch. */
  method Respond(c: CompiledRouter, metadata: seq<StringMeta>, arena: seq<u32>, stride: nat, output: array<u32>,
      i: nat, meta: RequestMeta, words: seq<u32>, ghost count: nat, ghost request: seq<u8>, ghost router: Router,
      ghost text: seq<u8>)
    returns (response: ResponseMeta)
    requires Serving(router, c, metadata, arena, stride) && i < count && SlotBase(0, stride, count) <= output.Length
    requires |request| == meta.inputLen < 0xffff_fff0 && HoldsBytes(words, 4 * meta.wordOffset, request)
    requires IndexesFit(words, output.Length)
    requires text == GpuAnswer(router, request)
    modifies output
    ensures Responded(old(output[..]), output[..], SlotBase(0, stride, i), stride, text,
            AnswerStatus(router, request), response)
  {
    SlotsAscend(0, stride, i + 1, count);
    var base := SlotStart(0, stride, i);
    response := ProcessRequest(c, metadata, arena, stride, output, base, words, meta.wordOffset, meta.inputLen,
      request, router);
  }

  /** One thread of the dispatch, after those of `done`. */
  method DispatchOne(c: CompiledRouter, metadata: seq<StringMeta>, arena: seq<u32>, stride: nat, output: array<u32>,
      metas: seq<ResponseMeta>, i: nat, requestMeta: seq<RequestMeta>, words: seq<u32>, ghost requests: seq<seq<u8>>,
      ghost router: Router, ghost texts: seq<seq<u8>>, ghost done: seq<nat>)
    returns (metas': seq<ResponseMeta>)
    requires Serving(router, c, metadata, arena, stride) && SlotBase(0, stride, |texts|) <= output.Length
    requires |requestMeta| == |requests| && texts == Answers(router, requests) && IndexesFit(words, output.Length)
    requires i < |requests| && |requests[i]| < 0xffff_fff0 && RequestHeld(requestMeta, words, requests, i)
    requires forall j :: 0 <= j < |texts| ==> FitsSlot(texts[j], stride)
    requires ReadyFor(texts, metas, output[..], stride, done)
    modifies output
    ensures ReadyFor(texts, metas', output[..], stride, done + [i])
  {
    ghost var before := output[..];
    var response := Respond(c, metadata, arena, stride, output, i, requestMeta[i], words, |requests|, requests[i],
      router, texts[i]);
    ReadyOneMore(texts, metas, before, output[..], stride, done, i, AnswerStatus(router, requests[i]), response);
    metas' := metas[i := response];
  }

  /** Every thread runs, in some order. */
  predicate EveryThread(order: seq<nat>, n: nat) {
    (forall k :: 0 <= k < |order| ==> order[k] < n) && forall i :: 0 <= i < n ==> i in order
  }

  lemma TakeOneMore(order: seq<nat>, k: nat)
    requires k < |order|
    ensures order[..k + 1] == order[..k] + [order[k]]
  {
  }

  /** The dispatch: every thread in its own slot, whatever the order they run in. */
  method Dispatch(c: CompiledRouter, metadata: seq<StringMeta>, arena: seq<u32>, stride: nat, output: array<u32>,
      requestMeta: seq<RequestMeta>, words: seq<u32>, order: seq<nat>, ghost requests: seq<seq<u8>>,
      ghost router: Router, ghost texts: seq<seq<u8>>)
    returns (metas: seq<ResponseMeta>)
    requires Serving(router, c, metadata, arena, stride) && SlotBase(0, stride, |requests|) <= output.Length
    requires |requestMeta| == |requests| && texts == Answers(router, requests) && IndexesFit(words, output.Length)
    requires forall i :: 0 <= i < |requests| ==>
               |requests[i]| < 0xffff_fff0 && RequestHeld(requestMeta, words, requests, i)
    requires forall i :: 0 <= i < |texts| ==> FitsSlot(texts[i], stride)
    requires EveryThread(order, |requests|)
    modifies output
    ensures ReadyFor(texts, metas, output[..], stride, order)
  {
    metas := seq(|requestMeta|, i => ResponseMeta(0, 0, 0));
    var k := 0;
    while k < |order|
      invariant k <= |order| && ReadyFor(texts, metas, output[..], stride, order[..k])
    {
      metas := DispatchOne(c, metadata, arena, stride, output, metas, order[k], requestMeta, words, requests, router,
        texts, order[..k]);
      TakeOneMore(order, k);
      k := k + 1;
    }
    assert order[..k] == order;
  }

  lemma ReadyDecodes(texts: seq<seq<u8>>, metas: seq<ResponseMeta>, output: seq<u32>, stride: nat, order: seq<nat>)
    requires ReadyFor(texts, metas, output, stride, order) && EveryThread(order, |texts|)
    requires forall i :: 0 <= i < |texts| ==> FitsSlot(texts[i], stride)
    ensures forall i :: 0 <= i < |metas| ==> Ready(metas, output, stride, i, texts[i]) && Decodable(metas[i], stride)
  {
    forall i | 0 <= i < |metas| ensures Ready(metas, output, stride, i, texts[i]) && Decodable(metas[i], stride) {
      assert i in order && FitsSlot(texts[i], stride);
      var k :| 0 <= k < |order| && order[k] == i;
    }
  }

  predicate RequestTooLong(request: seq<u8>, maxRequestBytes: nat) {
    |request| > maxRequestBytes
  }

  /** The batch cannot be packed. */
  predicate Refused(requests: seq<seq<u8>>, maxRequestBytes: nat) {
    TooManyWords(requests) || exists i :: 0 <= i < |requests| && RequestTooLong(requests[i], maxRequestBytes)
  }

  /** A packed batch is answered in full and in request order, whatever order its threads run in; no
      response fails to decode. */
  method AnswerPacked(c: CompiledRouter, metadata: seq<StringMeta>, arena: seq<u32>, stride: nat, output: array<u32>,
      requestMeta: seq<RequestMeta>, words: seq<u32>, order: seq<nat>, ghost requests: seq<seq<u8>>,
      ghost router: Router)
    returns (r: Option<seq<seq<u8>>>)
    requires Serving(router, c, metadata, arena, stride) && SlotBase(0, stride, |requests|) <= output.Length
    requires EveryThread(order, |requests|)
    requires |requestMeta| == |requests| && IndexesFit(words, output.Length)
    requires forall i :: 0 <= i < |requests| ==>
               |requests[i]| < 0xffff_fff0 && RequestHeld(requestMeta, words, requests, i)
    modifies output
    ensures r == Some(Answers(router, requests))
  {
    ghost var texts := Answers(router, requests);
    AnswersFit(router, c, stride, requests, texts);
    var metas := Dispatch(c, metadata, arena, stride, output, requestMeta, words, order, requests, router, texts);
    ReadyDecodes(texts, metas, output[..], stride, order);
    r := DecodeResponses(metas, output[..], stride, texts);
  }

  /** A batch of requests is refused only for its size; otherwise every request gets its answer,
      whatever order the threads run in. */
  method ProcessBatch(c: CompiledRouter, metadata: seq<StringMeta>, arena: seq<u32>, stride: nat,
      requests: seq<seq<u8>>, maxRequestBytes: nat, output: array<u32>, order: seq<nat>, ghost router: Router)
    returns (r: Option<seq<seq<u8>>>)
    requires Serving(router, c, metadata, arena, stride) && SlotBase(0, stride, |requests|) <= output.Length
    requires maxRequestBytes < 0xffff_fff0 && EveryThread(order, |requests|)
    requires TooManyWords(requests) || PackedWords(requests, |requests|) <= 0x1_0000_0000
    requires output.Length <= 0x1_0000_0000
    modifies output
    ensures r == if Refused(requests, maxRequestBytes) then None else Some(Answers(router, requests))
  {
    var packed := PackRequestBatch(requests, maxRequestBytes);
    if !packed.Packed? {
      if packed.TooLong? {
        assert RequestTooLong(requests[packed.index], maxRequestBytes);
      }
      return None;
    }
    PackedIsAccepted(requests, maxRequestBytes);
    r := AnswerPacked(c, metadata, arena, stride, output, packed.metadata, packed.words, order, requests,
      router);
  }

  lemma PackedIsAccepted(requests: seq<seq<u8>>, maxRequestBytes: nat)
    requires !TooManyWords(requests) && forall i :: 0 <= i < |requests| ==> |requests[i]| <= maxRequestBytes
    ensures !Refused(requests, maxRequestBytes)
  {
  }
}
