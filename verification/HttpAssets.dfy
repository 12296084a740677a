/** The buffers around the HTTP shader: the string arena, the packed requests and the responses
    read back (src/processor/shader_strings.rs:30-58, src/processor/gpu.rs:608-647 and 712-746). */
module HttpAssets {
  import opened Bits
  import opened Packing
  import opened HttpText
  import opened HttpWriter

  // ----- the string arena

  datatype StringMeta = StringMeta(byteOffset: u32, byteLen: u32)

  /** The uploaded strings: the persistent header tail stands in for the reserved one. */
  function ShaderStrings(strings: seq<seq<u8>>, headerTail: nat): (texts: seq<seq<u8>>)
    ensures |texts| == |strings|
  {
    if headerTail < |strings| then strings[headerTail := PERSISTENT_TAIL] else strings
  }

  predicate PlacedAt(bytes: seq<u8>, start: nat, text: seq<u8>) {
    start + |text| <= |bytes| && bytes[start..start + |text|] == text
  }

  predicate MetaOf(m: StringMeta, bytes: seq<u8>, text: seq<u8>) {
    m.byteLen == |text| && PlacedAt(bytes, m.byteOffset, text)
  }

  /** Every string can be read from the packed words at its offset. */
  ghost predicate ArenaFrom(metadata: seq<StringMeta>, words: seq<u32>, texts: seq<seq<u8>>) {
    |metadata| == |texts|
    && forall id :: 0 <= id < |texts| ==>
         metadata[id].byteLen == |texts[id]| && HoldsBytes(words, metadata[id].byteOffset, texts[id])
  }

  lemma PlacedStays(bytes: seq<u8>, more: seq<u8>, start: nat, text: seq<u8>)
    requires PlacedAt(bytes, start, text)
    ensures PlacedAt(bytes + more, start, text)
  {
    assert (bytes + more)[start..start + |text|] == bytes[start..start + |text|];
  }

  lemma AppendedIsPlaced(bytes: seq<u8>, text: seq<u8>)
    ensures PlacedAt(bytes + text, |bytes|, text)
  {
  }

  lemma PlacedHolds(bytes: seq<u8>, start: nat, text: seq<u8>)
    requires PlacedAt(bytes, start, text)
    ensures HoldsBytes(Pack(bytes), start, text)
  {
    PackHolds(bytes);
    forall i | 0 <= i < |text| ensures HeldAt(Pack(bytes), start, text, i) {
      assert HeldAt(Pack(bytes), 0, bytes, start + i);
      assert bytes[start..start + |text|][i] == bytes[start + i];
    }
  }

  /** The bytes of the first n texts. */
  function ArenaBytes(texts: seq<seq<u8>>, n: nat): nat
    requires n <= |texts|
  {
    if n == 0 then 0 else ArenaBytes(texts, n - 1) + |texts[n - 1]|
  }

  /** A text too long for u32, or one that starts beyond it. */
  predicate Misplaced(texts: seq<seq<u8>>, id: nat) {
    id < |texts| && (|texts[id]| >= 0x1_0000_0000 || ArenaBytes(texts, id) >= 0x1_0000_0000)
  }

  predicate FitsArena(texts: seq<seq<u8>>) {
    forall id :: 0 <= id < |texts| ==> !Misplaced(texts, id)
  }

  /** The first n texts are in place. */
  predicate ArenaUpTo(metadata: seq<StringMeta>, bytes: seq<u8>, texts: seq<seq<u8>>, n: nat) {
    n <= |texts| && |metadata| == n && forall id :: 0 <= id < n ==> MetaOf(metadata[id], bytes, texts[id])
  }

  lemma OneMoreText(metadata: seq<StringMeta>, bytes: seq<u8>, texts: seq<seq<u8>>, n: nat, value: seq<u8>)
    requires ArenaUpTo(metadata, bytes, texts, n) && n < |texts| && value == texts[n]
    requires |bytes| < 0x1_0000_0000 && |value| < 0x1_0000_0000
    ensures ArenaUpTo(metadata + [StringMeta(|bytes|, |value|)], bytes + value, texts, n + 1)
  {
    forall id | 0 <= id < n ensures MetaOf(metadata[id], bytes + value, texts[id]) {
      PlacedStays(bytes, value, metadata[id].byteOffset, texts[id]);
    }
    AppendedIsPlaced(bytes, value);
  }

  /** Builds the arena exactly when every offset and length fits u32. */
  method BuildShaderAssets(strings: seq<seq<u8>>, headerTail: nat) returns (r: Option<(seq<StringMeta>, seq<u32>)>)
    ensures r.Some? ==> ArenaFrom(r.value.0, r.value.1, ShaderStrings(strings, headerTail))
    ensures r.Some? <==> FitsArena(ShaderStrings(strings, headerTail))
  {
    ghost var texts := ShaderStrings(strings, headerTail);
    var metadata: seq<StringMeta> := [];
    var bytes: seq<u8> := [];
    var index := 0;
    while index < |strings|
      invariant index <= |strings| && |metadata| == index && |bytes| == ArenaBytes(texts, index)
      invariant forall id :: 0 <= id < index ==> !Misplaced(texts, id)
      invariant ArenaUpTo(metadata, bytes, texts, index)
    {
      var value := if index == headerTail then PERSISTENT_TAIL else strings[index];
      if |bytes| >= 0x1_0000_0000 || |value| >= 0x1_0000_0000 {
        assert Misplaced(texts, index);
        return None;
      }
      OneMoreText(metadata, bytes, texts, index, value);
      metadata := metadata + [StringMeta(|bytes|, |value|)];
      bytes := bytes + value;
      index := index + 1;
    }
    var words := PackBytes(bytes);
    forall id | 0 <= id < |texts|
      ensures metadata[id].byteLen == |texts[id]| && HoldsBytes(words, metadata[id].byteOffset, texts[id])
    {
      PlacedHolds(bytes, metadata[id].byteOffset, texts[id]);
    }
    return Some((metadata, words));
  }

  // ----- packing requests

  datatype RequestMeta = RequestMeta(inputLen: u32, wordOffset: u32)

  /** The shader finds request i in the packed words. */
  ghost predicate RequestHeld(metadata: seq<RequestMeta>, words: seq<u32>, requests: seq<seq<u8>>, i: nat)
    requires i < |requests|
  {
    && i < |metadata| && metadata[i].inputLen == |requests[i]|
    && HoldsBytes(words, 4 * metadata[i].wordOffset, requests[i])
  }

  lemma HeldStays(words: seq<u32>, more: seq<u32>, start: nat, bytes: seq<u8>)
    requires HoldsBytes(words, start, bytes)
    ensures HoldsBytes(words + more, start, bytes)
  {
    forall i | 0 <= i < |bytes| ensures HeldAt(words + more, start, bytes, i) {
      assert HeldAt(words, start, bytes, i);
    }
  }

  lemma AppendedIsHeld(words: seq<u32>, bytes: seq<u8>)
    ensures HoldsBytes(words + Pack(bytes), 4 * |words|, bytes)
  {
    PackHolds(bytes);
    forall i | 0 <= i < |bytes| ensures HeldAt(words + Pack(bytes), 4 * |words|, bytes, i) {
      assert HeldAt(Pack(bytes), 0, bytes, i);
      DivModUnique(4 * |words| + i, 4, |words| + i / 4, i % 4);
    }
  }

  /** The words of the first n requests. */
  function PackedWords(requests: seq<seq<u8>>, n: nat): nat
    requires n <= |requests|
  {
    if n == 0 then 0 else PackedWords(requests, n - 1) + (|requests[n - 1]| + 3) / 4
  }

  /** A request too long for u32, or one that starts beyond it. */
  predicate Oversized(requests: seq<seq<u8>>, n: nat) {
    n < |requests| && (|requests[n]| >= 0x1_0000_0000 || PackedWords(requests, n) >= 0x1_0000_0000)
  }

  predicate TooManyWords(requests: seq<seq<u8>>) {
    exists n :: 0 <= n < |requests| && Oversized(requests, n)
  }

  datatype PackResult = Packed(metadata: seq<RequestMeta>, words: seq<u32>) | TooLong(index: nat) | TooMany

  /** Requests packed back to back, each from a word boundary (the copy into zeroed words is
      packing, on a little-endian host); the first one longer than the limit is refused by its index. */
  method PackRequestBatch(requests: seq<seq<u8>>, maxRequestBytes: nat) returns (r: PackResult)
    ensures r.Packed? ==>
              && |r.metadata| == |requests| && |r.words| == PackedWords(requests, |requests|)
              && forall i :: 0 <= i < |requests| ==>
                   |requests[i]| <= maxRequestBytes && RequestHeld(r.metadata, r.words, requests, i)
    ensures r.Packed? ==> !TooManyWords(requests)
    ensures r.TooMany? ==> TooManyWords(requests)
    ensures r.TooLong? ==>
              && r.index < |requests| && |requests[r.index]| > maxRequestBytes
              && forall i :: 0 <= i < r.index ==> |requests[i]| <= maxRequestBytes
  {
    var metadata: seq<RequestMeta> := [];
    var words: seq<u32> := [];
    var n := 0;
    while n < |requests|
      invariant n <= |requests| && |metadata| == n && |words| == PackedWords(requests, n)
      invariant forall i :: 0 <= i < n ==> !Oversized(requests, i)
      invariant forall i :: 0 <= i < n ==> |requests[i]| <= maxRequestBytes && RequestHeld(metadata, words, requests, i)
    {
      if |requests[n]| > maxRequestBytes {
        return TooLong(n);
      }
      if |requests[n]| >= 0x1_0000_0000 || |words| >= 0x1_0000_0000 {
        assert Oversized(requests, n);
        return TooMany;
      }
      var packed := PackBytes(requests[n]);
      AppendedIsHeld(words, requests[n]);
      ghost var before, last := metadata, words;
      metadata := metadata + [RequestMeta(|requests[n]|, |words|)];
      words := words + packed;
      forall i | 0 <= i < n + 1 ensures RequestHeld(metadata, words, requests, i) {
        if i < n {
          assert RequestHeld(before, last, requests, i);
          HeldStays(last, packed, 4 * before[i].wordOffset, requests[i]);
        }
      }
      n := n + 1;
    }
    return Packed(metadata, words);
  }
}
