/** The HTTP shader (src/processor/http.wgsl:96-137 and 265-552): parsing, lookup and the bytecode
    interpreter, loop by loop over packed words. */
module HttpShader {
  import opened Bits
  import opened ByteText
  import opened Wire
  import opened Packing
  import opened HttpText
  import opened HttpWriter
  import opened HttpParse
  import opened HttpAssets
  import opened Router
  import opened CompiledRouter
  import opened HostRouter

  // ----- loads

  /** The request, packed from its word offset on. */
  ghost predicate Loaded(words: seq<u32>, wordOffset: nat, request: seq<u8>) {
    HoldsBytes(words, 4 * wordOffset, request)
  }

  lemma ByteLoad(words: seq<u32>, wordOffset: nat, request: seq<u8>, i: nat)
    requires Loaded(words, wordOffset, request) && i < |request|
    ensures wordOffset + i / 4 < |words| && ByteOf(words[wordOffset + i / 4], i % 4) == request[i]
  {
    assert HeldAt(words, 4 * wordOffset, request, i);
    DivModUnique(4 * wordOffset + i, 4, wordOffset + i / 4, i % 4);
  }

  method RequestByte(words: seq<u32>, wordOffset: nat, index: nat, ghost request: seq<u8>) returns (byte: u8)
    requires Loaded(words, wordOffset, request) && index < |request|
    ensures byte == request[index]
  {
    ByteLoad(words, wordOffset, request, index);
    byte := ByteOf(words[wordOffset + index / 4], index % 4);
  }

  lemma WordLoad(words: seq<u32>, wordOffset: nat, request: seq<u8>, i: nat)
    requires Loaded(words, wordOffset, request) && i + 4 <= |request|
    ensures wordOffset + i / 4 < |words| && (i % 4 != 0 ==> wordOffset + i / 4 + 1 < |words|)
    ensures var low := words[wordOffset + i / 4];
            (if i % 4 == 0 then low else JoinWords(low, words[wordOffset + i / 4 + 1], i % 4))
            == LeWord(request[i..i + 4])
  {
    DivModUnique(4 * wordOffset + i, 4, wordOffset + i / 4, i % 4);
    LoadWordIs(words, 4 * wordOffset, request, i);
  }

  /** Four request bytes at any alignment. */
  method RequestWord(words: seq<u32>, wordOffset: nat, index: nat, ghost request: seq<u8>) returns (word: u32)
    requires Loaded(words, wordOffset, request) && index + 4 <= |request|
    ensures word == LeWord(request[index..index + 4])
  {
    WordLoad(words, wordOffset, request, index);
    word := words[wordOffset + index / 4];
    if index % 4 != 0 {
      word := JoinWords(word, words[wordOffset + index / 4 + 1], index % 4);
    }
  }

  lemma SameWordSameBytes(a: seq<u8>, b: seq<u8>)
    requires |a| == 4 && |b| == 4
    ensures LeWord(a) == LeWord(b) <==> a == b
  {
    FourBytesOf(a);
    FourBytesOf(b);
  }

  // ----- parsing

  /** "GET " as a little-endian word. */
  method IsGetRequest(words: seq<u32>, wordOffset: nat, inputLen: nat, ghost request: seq<u8>) returns (get: bool)
    requires Loaded(words, wordOffset, request) && |request| == inputLen
    ensures get <==> inputLen >= 4 && request[..4] == GET_SPACE
  {
    if inputLen < 4 {
      return false;
    }
    var word := RequestWord(words, wordOffset, 0, request);
    SameWordSameBytes(request[0..4], GET_SPACE);
    GetWord();
    assert request[0..4] == request[..4];
    return word == 0x20544547;
  }

  lemma GetWord()
    ensures LeWord(GET_SPACE) == 0x20544547
  {
  }

  const VERSION_PREFIX: seq<u8> := [72, 84, 84, 80, 47, 49, 46]

  lemma VersionFromBytes(v: seq<u8>)
    requires |v| == 8
    ensures IsVersion(v) <==> (forall k :: 0 <= k < 7 ==> v[k] == VERSION_PREFIX[k]) && (v[7] == 48 || v[7] == 49)
  {
    assert HTTP_1_0 == VERSION_PREFIX + [48] && HTTP_1_1 == VERSION_PREFIX + [49];
  }

  method MatchesVersion(words: seq<u32>, wordOffset: nat, at: nat, ghost request: seq<u8>) returns (ok: bool)
    requires Loaded(words, wordOffset, request) && at + 8 <= |request|
    ensures ok <==> IsVersion(request[at..at + 8])
  {
    ghost var v := request[at..at + 8];
    VersionFromBytes(v);
    var i := 0;
    while i < 7
      invariant i <= 7 && forall k :: 0 <= k < i ==> v[k] == VERSION_PREFIX[k]
    {
      var byte := RequestByte(words, wordOffset, at + i, request);
      assert v[i] == byte;
      if byte != VERSION_PREFIX[i] {
        return false;
      }
      i := i + 1;
    }
    var minor := RequestByte(words, wordOffset, at + 7, request);
    assert v[7] == minor;
    return minor == 48 || minor == 49;
  }

  method HasSupportedHttpVersion(words: seq<u32>, wordOffset: nat, versionStart: nat, inputLen: nat,
      ghost request: seq<u8>)
    returns (ok: bool)
    requires Loaded(words, wordOffset, request) && |request| == inputLen
    ensures ok <==> VersionLineAt(request, versionStart)
  {
    if versionStart + 8 >= inputLen {
      return false;
    }
    ok := MatchesVersion(words, wordOffset, versionStart, request);
    if !ok {
      return false;
    }
    var terminator := RequestByte(words, wordOffset, versionStart + 8, request);
    if terminator == 10 {
      return true;
    }
    if terminator != 13 || versionStart + 9 >= inputLen {
      return false;
    }
    var last := RequestByte(words, wordOffset, versionStart + 9, request);
    return last == 10;
  }

  datatype RequestTarget = RequestTarget(
    pathStart: nat, pathLen: nat, queryStart: nat, queryLen: nat, pathHash: u32, inputLen: nat, valid: bool)

  function InvalidTarget(inputLen: nat): RequestTarget {
    RequestTarget(0, 0, 0, 0, 0, inputLen, false)
  }

  /** The parts a target stands for. */
  ghost predicate TargetParts(t: RequestTarget, request: seq<u8>, parts: Parts) {
    && t.inputLen == |request|
    && t.pathStart + t.pathLen <= |request| && t.queryStart + t.queryLen <= |request|
    && parts == Parts(request[t.pathStart..t.pathStart + t.pathLen],
      request[t.queryStart..t.queryStart + t.queryLen], t.pathHash)
  }

  lemma HashStep(s: seq<u8>, b: u8)
    ensures Fnv1a(s + [b]) == Xor(Fnv1a(s), b) * 16777619 % 0x1_0000_0000
  {
    var t: seq<u32> := s + [b];
    assert t[..|t| - 1] == s;
  }

  /** The scan has seen the target up to the cursor. */
  ghost predicate Scanned(request: seq<u8>, cursor: nat, hash: u32, pathLen: nat, queryStart: nat, queryLen: nat,
      inQuery: bool) {
    && 4 <= cursor <= |request| && NoByte(request, SPACE, 4, cursor)
    && 4 + pathLen <= cursor && NoByte(request, QUESTION, 4, 4 + pathLen)
    && hash == HttpText.PathHash(request[4..4 + pathLen])
    && (!inQuery ==> cursor == 4 + pathLen && queryLen == 0)
    && (inQuery ==> 4 + pathLen < cursor && request[4 + pathLen] == QUESTION
                    && queryStart == 4 + pathLen + 1 && queryLen == cursor - queryStart)
  }

  /** What a completed scan stands for. */
  lemma ScannedTarget(request: seq<u8>, cursor: nat, hash: u32, pathLen: nat, queryStart: nat, queryLen: nat,
      inQuery: bool)
    requires Scanned(request, cursor, hash, pathLen, queryStart, queryLen, inQuery)
    ensures var q := if inQuery then queryStart else cursor;
            SplitTarget(request[4..cursor]) == Parts(request[4..4 + pathLen], request[q..q + queryLen], hash)
  {
    var target := request[4..cursor];
    forall j | 0 <= j < pathLen ensures target[j] != QUESTION {
      assert target[j] == request[4 + j];
    }
    IndexOfIs(target, QUESTION, pathLen);
    if inQuery {
      assert target[..pathLen] == request[4..4 + pathLen];
      assert target[pathLen + 1..] == request[queryStart..cursor];
    } else {
      assert target == request[4..4 + pathLen];
      assert request[cursor..cursor] == [];
    }
  }

  lemma PathByteScanned(request: seq<u8>, cursor: nat, hash: u32, hash': u32)
    requires 4 <= cursor < |request| && hash == HttpText.PathHash(request[4..cursor])
    requires hash' == Xor(hash, request[cursor]) * 16777619 % 0x1_0000_0000
    ensures hash' == HttpText.PathHash(request[4..cursor + 1])
  {
    HashStep(request[4..cursor], request[cursor]);
    assert request[4..cursor + 1] == request[4..cursor] + [request[cursor]];
  }

  /** One byte of the target. */
  method ScanByte(byte: u8, cursor: nat, hash: u32, pathLen: nat, queryStart: nat, queryLen: nat, inQuery: bool,
      ghost request: seq<u8>)
    returns (hash': u32, pathLen': nat, queryStart': nat, queryLen': nat, inQuery': bool)
    requires Scanned(request, cursor, hash, pathLen, queryStart, queryLen, inQuery)
    requires cursor < |request| && request[cursor] == byte && byte != SPACE
    ensures Scanned(request, cursor + 1, hash', pathLen', queryStart', queryLen', inQuery')
  {
    hash', pathLen', queryStart', queryLen', inQuery' := hash, pathLen, queryStart, queryLen, inQuery;
    if !inQuery {
      if byte == 63 {
        inQuery' := true;
        queryStart' := cursor + 1;
      } else {
        hash' := Xor(hash, byte) * 16777619 % 0x1_0000_0000;
        PathByteScanned(request, cursor, hash, hash');
        pathLen' := pathLen + 1;
      }
    } else {
      queryLen' := queryLen + 1;
    }
  }

  /** The scan up to the first space, or to the end of the request. */
  method ScanTarget(words: seq<u32>, wordOffset: nat, inputLen: nat, ghost request: seq<u8>)
    returns (cursor: nat, hash: u32, pathLen: nat, queryStart: nat, queryLen: nat, inQuery: bool, foundTargetEnd: bool)
    requires Loaded(words, wordOffset, request) && 4 < |request| == inputLen && request[4] == SLASH
    ensures cursor <= inputLen && (cursor > 4 ==> pathLen > 0)
    ensures Scanned(request, cursor, hash, pathLen, queryStart, queryLen, inQuery)
    ensures if foundTargetEnd then 4 < cursor < inputLen && request[cursor] == SPACE else cursor == inputLen
  {
    cursor, hash, pathLen, queryStart, queryLen, inQuery, foundTargetEnd := 4, 2166136261, 0, 0, 0, false, false;
    assert request[4..4] == [];
    while cursor < inputLen && !foundTargetEnd
      invariant cursor <= inputLen
      invariant Scanned(request, cursor, hash, pathLen, queryStart, queryLen, inQuery)
      invariant cursor > 4 ==> pathLen > 0
      invariant foundTargetEnd ==> 4 < cursor < inputLen && request[cursor] == SPACE
      decreases inputLen - cursor, !foundTargetEnd
    {
      var byte := RequestByte(words, wordOffset, cursor, request);
      if byte == 32 {
        foundTargetEnd := true;
      } else {
        hash, pathLen, queryStart, queryLen, inQuery :=
          ScanByte(byte, cursor, hash, pathLen, queryStart, queryLen, inQuery, request);
        cursor := cursor + 1;
      }
    }
  }

  /** The GET target of the request, found exactly when the specification finds one. */
  method ParseGetTarget(words: seq<u32>, wordOffset: nat, inputLen: nat, ghost request: seq<u8>)
    returns (t: RequestTarget)
    requires Loaded(words, wordOffset, request) && |request| == inputLen
    ensures t.valid <==> ShaderTarget(request).Some?
    ensures t.valid ==> TargetParts(t, request, ShaderTarget(request).value)
    ensures !t.valid ==> t == InvalidTarget(inputLen)
  {
    if inputLen <= 4 {
      return InvalidTarget(inputLen);
    }
    var first := RequestByte(words, wordOffset, 4, request);
    if first != 47 {
      return InvalidTarget(inputLen);
    }
    var cursor, hash, pathLen, queryStart, queryLen, inQuery, foundTargetEnd :=
      ScanTarget(words, wordOffset, inputLen, request);
    if !foundTargetEnd || pathLen == 0 {
      NoTargetEnd(request, cursor, foundTargetEnd);
      return InvalidTarget(inputLen);
    }
    TargetEndIs(request, cursor);
    var supported := HasSupportedHttpVersion(words, wordOffset, cursor + 1, inputLen, request);
    if !supported {
      return InvalidTarget(inputLen);
    }
    ScannedTarget(request, cursor, hash, pathLen, queryStart, queryLen, inQuery);
    if !inQuery {
      queryStart := cursor;
    }
    return RequestTarget(4, pathLen, queryStart, queryLen, hash, inputLen, true);
  }

  lemma NoTargetEnd(request: seq<u8>, cursor: nat, found: bool)
    requires 4 <= cursor <= |request| && NoByte(request, SPACE, 4, cursor) && (!found ==> cursor == |request|)
    ensures !found ==> TargetEnd(request).None?
  {
    if !found {
      NoByteRest(request, SPACE, 4, cursor);
    }
  }

  // ----- the route lookup

  lemma SlicesMatch(a: seq<u8>, i: nat, j: nat, b: seq<u8>, k: nat)
    requires i + k <= |a| && j <= k && k <= |b|
    ensures a[i..i + k] == b[..k] ==> a[i + j..i + k] == b[j..k]
    ensures a[i..i + j] == b[..j] && a[i + j..i + k] == b[j..k] ==> a[i..i + k] == b[..k]
  {
    assert a[i..i + k] == a[i..i + j] + a[i + j..i + k];
    assert b[..k] == b[..j] + b[j..k];
    if a[i..i + k] == b[..k] {
      assert a[i..i + k][j..] == b[..k][j..];
      assert a[i..i + k][j..] == a[i + j..i + k];
      assert b[..k][j..] == b[j..k];
    }
  }

  lemma OneByte(s: seq<u8>, i: nat, j: nat)
    requires i < |s| && j == i + 1
    ensures s[i..j] == [s[i]]
  {
  }

  /** Four bytes of each side at once. */
  method SameWords(words: seq<u32>, wordOffset: nat, start: nat, arena: seq<u32>, textStart: nat, index: nat,
      ghost request: seq<u8>, ghost text: seq<u8>)
    returns (same: bool)
    requires Loaded(words, wordOffset, request) && start + index + 4 <= |request|
    requires HoldsBytes(arena, textStart, text) && index + 4 <= |text|
    requires request[start..start + index] == text[..index]
    ensures same <==> request[start..start + (index + 4)] == text[..index + 4]
  {
    var word := RequestWord(words, wordOffset, start + index, request);
    LoadWordIs(arena, textStart, text, index);
    SameWordSameBytes(request[start + index..start + index + 4], text[index..index + 4]);
    SlicesMatch(request, start, index, text, index + 4);
    same := word == LoadWord(arena, textStart + index);
  }

  /** One byte of each side. */
  method SameBytes(words: seq<u32>, wordOffset: nat, start: nat, arena: seq<u32>, textStart: nat, index: nat,
      ghost request: seq<u8>, ghost text: seq<u8>)
    returns (same: bool)
    requires Loaded(words, wordOffset, request) && start + index + 1 <= |request|
    requires HoldsBytes(arena, textStart, text) && index + 1 <= |text|
    requires request[start..start + index] == text[..index]
    ensures same <==> request[start..start + (index + 1)] == text[..index + 1]
  {
    var byte := RequestByte(words, wordOffset, start + index, request);
    assert HeldAt(arena, textStart, text, index);
    SlicesMatch(request, start, index, text, index + 1);
    OneByte(request, start + index, start + (index + 1));
    OneByte(text, index, index + 1);
    same := byte == LoadByte(arena, textStart + index);
  }

  /** Compares the path with a string of the arena, four bytes at a time and then one by one. */
  method PathEquals(words: seq<u32>, wordOffset: nat, start: nat, arena: seq<u32>, textStart: nat, len: nat,
      ghost request: seq<u8>, ghost text: seq<u8>)
    returns (same: bool)
    requires Loaded(words, wordOffset, request) && start + len <= |request|
    requires HoldsBytes(arena, textStart, text) && |text| == len
    ensures same <==> request[start..start + len] == text
  {
    var index := 0;
    while len - index >= 4
      invariant index <= len && request[start..start + index] == text[..index]
    {
      var equal := SameWords(words, wordOffset, start, arena, textStart, index, request, text);
      if !equal {
        Mismatch(request, start, index + 4, text, len);
        return false;
      }
      index := index + 4;
    }
    while index < len
      invariant index <= len && request[start..start + index] == text[..index]
    {
      var equal := SameBytes(words, wordOffset, start, arena, textStart, index, request, text);
      if !equal {
        Mismatch(request, start, index + 1, text, len);
        return false;
      }
      index := index + 1;
    }
    assert text[..index] == text;
    return true;
  }

  lemma Mismatch(request: seq<u8>, start: nat, k: nat, text: seq<u8>, len: nat)
    requires k <= len == |text| && start + len <= |request| && request[start..start + k] != text[..k]
    ensures request[start..start + len] != text
  {
    assert request[start..start + len][..k] == request[start..start + k];
  }

  /** What the shader has of a compiled router. */
  ghost predicate Uploaded(c: CompiledRouter, metadata: seq<StringMeta>, arena: seq<u32>) {
    && TableFrom(c) && ArenaFrom(metadata, arena, ShaderStrings(c.strings, c.ids.headerTail))
  }

  /** A route path is never the reserved header tail. */
  ghost predicate PathsAreInArena(c: CompiledRouter) {
    forall i :: 0 <= i < |c.routes| ==> c.routes[i].path != RESERVED_TAIL
  }

  lemma RowText(c: CompiledRouter, metadata: seq<StringMeta>, arena: seq<u32>, i: nat)
    requires Uploaded(c, metadata, arena) && Interned(c.strings, c.ids.headerTail, RESERVED_TAIL)
    requires i < |c.routes| && c.routes[i].path != RESERVED_TAIL
    ensures 4 * i + 4 <= |c.words|
    ensures c.words[4 * i] == c.routes[i].pathHash && c.words[4 * i + 1] == |c.routes[i].path|
    ensures var id := c.words[4 * i + 2];
            id < |metadata| && HoldsBytes(arena, metadata[id].byteOffset, c.routes[i].path)
    ensures ProgramAt(c.words, c.words[4 * i + 3], c.routes[i].response)
  {
    assert RowAt(c.words, c.strings, i, c.routes[i]);
  }

  /** Whether row i is the request's route. */
  method RouteMatches(c: CompiledRouter, metadata: seq<StringMeta>, arena: seq<u32>, words: seq<u32>,
      wordOffset: nat, t: RequestTarget, i: nat, ghost request: seq<u8>, ghost parts: Parts)
    returns (matches: bool)
    requires Uploaded(c, metadata, arena) && Interned(c.strings, c.ids.headerTail, RESERVED_TAIL)
    requires i < |c.routes| && c.routes[i].path != RESERVED_TAIL
    requires Loaded(words, wordOffset, request) && TargetParts(t, request, parts)
    ensures matches <==> Candidate(c.routes, parts.pathHash, parts.path, i)
  {
    RowText(c, metadata, arena, i);
    if c.words[i * 4] != t.pathHash || c.words[i * 4 + 1] != t.pathLen {
      return false;
    }
    var id := c.words[i * 4 + 2];
    matches := PathEquals(words, wordOffset, t.pathStart, arena, metadata[id].byteOffset, t.pathLen, request,
      c.routes[i].path);
  }

  lemma RowHash(c: CompiledRouter, i: nat)
    requires TableFrom(c) && i < |c.routes|
    ensures 4 * i + 4 <= |c.words| && c.words[4 * i] == c.routes[i].pathHash
    ensures ProgramAt(c.words, c.words[4 * i + 3], c.routes[i].response)
  {
    assert RowAt(c.words, c.strings, i, c.routes[i]);
  }

  /** The binary search over the rows. */
  method LowerRow(c: CompiledRouter, hash: u32) returns (lower: nat)
    requires TableFrom(c) && SortedByHash(c.routes)
    ensures LowerBound(c.routes, hash, lower)
  {
    lower := 0;
    var upper := c.layout.routeCount;
    while lower < upper
      invariant 0 <= lower <= upper <= |c.routes|
      invariant forall i :: 0 <= i < lower ==> c.routes[i].pathHash < hash
      invariant forall i :: upper <= i < |c.routes| ==> c.routes[i].pathHash >= hash
    {
      var middle := lower + (upper - lower) / 2;
      RowHash(c, middle);
      if c.words[middle * 4] < hash {
        lower := middle + 1;
      } else {
        upper := middle;
      }
    }
  }

  /** The offset of the route's program, or of the fallback's. */
  method FindResponseOffset(c: CompiledRouter, metadata: seq<StringMeta>, arena: seq<u32>, words: seq<u32>,
      wordOffset: nat, t: RequestTarget, ghost request: seq<u8>, ghost parts: Parts)
    returns (offset: nat, ghost found: Option<nat>)
    requires Uploaded(c, metadata, arena) && Interned(c.strings, c.ids.headerTail, RESERVED_TAIL)
    requires SortedByHash(c.routes) && PathsAreInArena(c)
    requires Loaded(words, wordOffset, request) && TargetParts(t, request, parts)
    ensures Found(c.routes, parts.pathHash, parts.path, found)
    ensures ProgramAt(c.words, offset, Selected(c.routes, found, c.fallback))
  {
    var i := LowerRow(c, t.pathHash);
    while i < c.layout.routeCount
      invariant i <= |c.routes|
      invariant forall k: nat :: k < i ==> !Candidate(c.routes, parts.pathHash, parts.path, k)
      invariant forall k :: i <= k < |c.routes| ==> c.routes[k].pathHash >= t.pathHash
    {
      RowHash(c, i);
      if c.words[i * 4] != t.pathHash {
        break;
      }
      var matches := RouteMatches(c, metadata, arena, words, wordOffset, t, i, request, parts);
      if matches {
        return c.words[i * 4 + 3], Some(i);
      }
      i := i + 1;
    }
    return c.layout.fallback, None;
  }

  // ----- the interpreter

  predicate SegmentIn(texts: seq<seq<u8>>, c: CompiledSegment) {
    match c
    case CLiteral(id) => id < |texts|
    case CVariant(cpu, gpu) => cpu < |texts| && gpu < |texts|
    case _ => true
  }

  /** The body a program writes with these strings. */
  function ProgramText(texts: seq<seq<u8>>, segments: seq<CompiledSegment>, e: Echo): seq<u8> {
    if segments == [] then []
    else ProgramText(texts, segments[..|segments| - 1], e) + CompiledText(texts, segments[|segments| - 1], e)
  }

  lemma ProgramTextStep(texts: seq<seq<u8>>, segments: seq<CompiledSegment>, e: Echo, k: nat)
    requires k < |segments|
    ensures ProgramText(texts, segments[..k + 1], e) == ProgramText(texts, segments[..k], e)
            + CompiledText(texts, segments[k], e)
  {
    assert segments[..k + 1][..k] == segments[..k];
  }

  lemma {:induction false} ProgramTextGrows(texts: seq<seq<u8>>, segments: seq<CompiledSegment>, e: Echo, k: nat)
    requires k <= |segments|
    ensures |ProgramText(texts, segments[..k], e)| <= |ProgramText(texts, segments, e)|
    decreases |segments| - k
  {
    if k == |segments| {
      assert segments[..k] == segments;
    } else {
      ProgramTextStep(texts, segments, e, k);
      ProgramTextGrows(texts, segments, e, k + 1);
    }
  }

  /** What a thread works on: its request, its target, the strings and the texts they hold. */
  datatype Context = Context(
    words: seq<u32>, wordOffset: nat, target: RequestTarget,
    metadata: seq<StringMeta>, arena: seq<u32>, program: seq<u32>, ids: StringIds)

  ghost predicate InContext(x: Context, texts: seq<seq<u8>>, request: seq<u8>, e: Echo) {
    && Loaded(x.words, x.wordOffset, request) && TargetParts(x.target, request, e.parts)
    && ArenaFrom(x.metadata, x.arena, texts)
    && x.ids.gpu < |texts| && texts[x.ids.gpu] == HttpText.GPU
    && e.requestLen == |request| < 0x1_0000_0000 && e.backend == HttpText.GPU
  }

  lemma OperationWords(words: seq<u32>, at: nat, c: CompiledSegment)
    requires OperationAt(words, at, c)
    ensures at + 3 <= |words| && Operation(c) == Some([words[at], words[at + 1], words[at + 2]])
  {
    assert words[at..at + 3] == [words[at], words[at + 1], words[at + 2]];
  }

  /** The length an operation adds: the switch of `response_body_len`. */
  method OperationLen(x: Context, at: nat, ghost c: CompiledSegment, ghost texts: seq<seq<u8>>,
      ghost request: seq<u8>, ghost e: Echo)
    returns (n: nat)
    requires InContext(x, texts, request, e) && OperationAt(x.program, at, c) && SegmentIn(texts, c)
    ensures n == |CompiledText(texts, c, e)|
  {
    OperationWords(x.program, at, c);
    var opcode, arg0, arg1 := x.program[at], x.program[at + 1], x.program[at + 2];
    if opcode == BODY_OP_LITERAL {
      return x.metadata[arg0].byteLen;
    } else if opcode == BODY_OP_PATH {
      return Min(x.target.pathLen, arg0);
    } else if opcode == BODY_OP_QUERY {
      return Min(x.target.queryLen, arg0);
    } else if opcode == BODY_OP_BACKEND {
      return x.metadata[x.ids.gpu].byteLen;
    } else if opcode == BODY_OP_REQUEST_BYTES {
      n := DecimalWidth(x.target.inputLen);
    } else if opcode == BODY_OP_PATH_HASH {
      n := DecimalWidth(x.target.pathHash);
    } else if opcode == BODY_OP_BACKEND_VARIANT {
      return x.metadata[arg1].byteLen;
    } else {
      assert false;
    }
  }

  /** A program in place. */
  ghost predicate Operations(program: seq<u32>, start: nat, segments: seq<CompiledSegment>) {
    forall k :: 0 <= k < |segments| ==> OperationAt(program, start + 3 * k, segments[k])
  }

  lemma ProgramHead(program: seq<u32>, offset: nat, c: CompiledResponse)
    requires ProgramAt(program, offset, c)
    ensures offset + 5 <= |program| && program[offset + 4] == |c.segments|
    ensures Operations(program, program[offset + 3], c.segments)
  {
  }

  ghost predicate SegmentsIn(texts: seq<seq<u8>>, segments: seq<CompiledSegment>) {
    forall k :: 0 <= k < |segments| ==> SegmentIn(texts, segments[k])
  }

  /** One more operation, in lengths. */
  lemma BodyLenStep(texts: seq<seq<u8>>, segments: seq<CompiledSegment>, e: Echo, k: nat)
    requires k < |segments|
    ensures |ProgramText(texts, segments[..k + 1], e)| == |ProgramText(texts, segments[..k], e)|
            + |CompiledText(texts, segments[k], e)|
    ensures |ProgramText(texts, segments[..k + 1], e)| <= |ProgramText(texts, segments, e)|
  {
    ProgramTextStep(texts, segments, e, k);
    ProgramTextGrows(texts, segments, e, k + 1);
  }

  /** Every operation of a program lies where the loop reads it, and its strings are in the table. */
  lemma OperationAtStep(program: seq<u32>, start: nat, segments: seq<CompiledSegment>, texts: seq<seq<u8>>, k: nat,
      at: nat)
    requires Operations(program, start, segments) && SegmentsIn(texts, segments) && k < |segments|
             && at == start + 3 * k
    ensures OperationAt(program, at, segments[k]) && SegmentIn(texts, segments[k])
  {
  }

  method AddOperation(x: Context, at: nat, bodyLen: u32, ghost c: CompiledSegment, ghost texts: seq<seq<u8>>,
      ghost request: seq<u8>, ghost e: Echo)
    returns (sum: u32)
    requires InContext(x, texts, request, e) && OperationAt(x.program, at, c) && SegmentIn(texts, c)
    requires bodyLen + |CompiledText(texts, c, e)| < 0x1_0000_0000
    ensures sum == bodyLen + |CompiledText(texts, c, e)|
  {
    var n := OperationLen(x, at, c, texts, request, e);
    sum := bodyLen + n;
  }

  method SumOperations(x: Context, programOffset: nat, operationCount: nat, ghost segments: seq<CompiledSegment>,
      ghost texts: seq<seq<u8>>, ghost request: seq<u8>, ghost e: Echo)
    returns (bodyLen: u32)
    requires InContext(x, texts, request, e) && operationCount == |segments|
    requires Operations(x.program, programOffset, segments) && SegmentsIn(texts, segments)
    requires |ProgramText(texts, segments, e)| < 0x1_0000_0000
    ensures bodyLen == |ProgramText(texts, segments, e)|
  {
    bodyLen := 0;
    var k := 0;
    while k < operationCount
      invariant k <= |segments| && bodyLen == |ProgramText(texts, segments[..k], e)|
    {
      var at := programOffset + 3 * k;
      OperationAtStep(x.program, programOffset, segments, texts, k, at);
      BodyLenStep(texts, segments, e, k);
      bodyLen := AddOperation(x, at, bodyLen, segments[k], texts, request, e);
      k := k + 1;
    }
    assert segments[..k] == segments;
  }

  /** The first pass: the length of the body, for the Content-Length header. */
  method ResponseBodyLen(x: Context, offset: nat, ghost c: CompiledResponse, ghost texts: seq<seq<u8>>,
      ghost request: seq<u8>, ghost e: Echo)
    returns (bodyLen: u32)
    requires InContext(x, texts, request, e) && ProgramAt(x.program, offset, c) && SegmentsIn(texts, c.segments)
    requires |ProgramText(texts, c.segments, e)| < 0x1_0000_0000
    ensures bodyLen == |ProgramText(texts, c.segments, e)|
  {
    ProgramHead(x.program, offset, c);
    bodyLen := SumOperations(x, x.program[offset + 3], x.program[offset + 4], c.segments, texts, request, e);
  }

  lemma RangeHeld(words: seq<u32>, start: nat, bytes: seq<u8>, a: nat, n: nat)
    requires HoldsBytes(words, start, bytes) && a + n <= |bytes|
    ensures HoldsBytes(words, start + a, bytes[a..a + n])
  {
    var part, from := bytes[a..a + n], start + a;
    forall i | 0 <= i < n ensures HeldAt(words, from, part, i) {
      assert HeldAt(words, start, bytes, a + i);
    }
  }

  method PushString(writer: Writer, x: Context, id: nat, ghost texts: seq<seq<u8>>)
    requires writer.Valid() && ArenaFrom(x.metadata, x.arena, texts) && id < |texts|
    modifies writer, writer.output
    ensures writer.Valid() && writer.State() == Append(old(writer.State()), texts[id], writer.capacity)
  {
    writer.PushPacked(x.arena, x.metadata[id].byteOffset, x.metadata[id].byteLen, texts[id]);
  }

  method PushRequestRange(writer: Writer, x: Context, start: nat, len: nat, ghost request: seq<u8>)
    requires writer.Valid() && Loaded(x.words, x.wordOffset, request) && start + len <= |request|
    modifies writer, writer.output
    ensures writer.Valid() && writer.State() == Append(old(writer.State()), request[start..start + len],
            writer.capacity)
  {
    RangeHeld(x.words, 4 * x.wordOffset, request, start, len);
    writer.PushPacked(x.words, 4 * x.wordOffset + start, len, request[start..start + len]);
  }

  lemma UpToRange(request: seq<u8>, start: nat, len: nat, max: nat)
    requires start + len <= |request|
    ensures UpTo(request[start..start + len], max) == request[start..start + Min(len, max)]
  {
    if max < len {
      assert request[start..start + len][..max] == request[start..start + max];
    }
  }

  /** A range of the request, up to a limit. */
  method PushUpTo(writer: Writer, x: Context, start: nat, len: nat, max: nat, ghost request: seq<u8>)
    requires writer.Valid() && Loaded(x.words, x.wordOffset, request) && start + len <= |request|
    modifies writer, writer.output
    ensures writer.Valid() && writer.State() == Append(old(writer.State()), UpTo(request[start..start + len], max),
            writer.capacity)
  {
    UpToRange(request, start, len, max);
    PushRequestRange(writer, x, start, Min(len, max), request);
  }

  /** What an operation writes: the switch of `write_response_body`. */
  method PushOperation(writer: Writer, x: Context, at: nat, ghost c: CompiledSegment, ghost texts: seq<seq<u8>>,
      ghost request: seq<u8>, ghost e: Echo)
    requires writer.Valid() && InContext(x, texts, request, e) && OperationAt(x.program, at, c) && SegmentIn(texts, c)
    modifies writer, writer.output
    ensures writer.Valid() && writer.State() == Append(old(writer.State()), CompiledText(texts, c, e),
            writer.capacity)
  {
    OperationWords(x.program, at, c);
    var opcode, arg0, arg1 := x.program[at], x.program[at + 1], x.program[at + 2];
    if opcode == BODY_OP_LITERAL {
      PushString(writer, x, arg0, texts);
    } else if opcode == BODY_OP_PATH {
      PushUpTo(writer, x, x.target.pathStart, x.target.pathLen, arg0, request);
    } else if opcode == BODY_OP_QUERY {
      PushUpTo(writer, x, x.target.queryStart, x.target.queryLen, arg0, request);
    } else if opcode == BODY_OP_BACKEND {
      PushString(writer, x, x.ids.gpu, texts);
    } else if opcode == BODY_OP_REQUEST_BYTES {
      writer.PushDecimal(x.target.inputLen);
    } else if opcode == BODY_OP_PATH_HASH {
      writer.PushDecimal(x.target.pathHash);
    } else if opcode == BODY_OP_BACKEND_VARIANT {
      PushString(writer, x, arg1, texts);
    } else {
      assert false;
    }
  }

  method PushOperations(writer: Writer, x: Context, programOffset: nat, operationCount: nat,
      ghost segments: seq<CompiledSegment>, ghost texts: seq<seq<u8>>, ghost request: seq<u8>, ghost e: Echo)
    requires writer.Valid() && InContext(x, texts, request, e) && operationCount == |segments|
    requires Operations(x.program, programOffset, segments) && SegmentsIn(texts, segments)
    modifies writer, writer.output
    ensures writer.Valid() && writer.State() == Append(old(writer.State()), ProgramText(texts, segments, e),
            writer.capacity)
  {
    ghost var start := writer.State();
    AppendEnds(start, [], writer.capacity);
    var k := 0;
    while k < operationCount
      invariant k <= |segments| && writer.Valid()
      invariant writer.State() == Append(start, ProgramText(texts, segments[..k], e), writer.capacity)
    {
      assert OperationAt(x.program, programOffset + 3 * k, segments[k]);
      ProgramTextStep(texts, segments, e, k);
      AppendTwice(start, ProgramText(texts, segments[..k], e), CompiledText(texts, segments[k], e), writer.capacity);
      PushOperation(writer, x, programOffset + 3 * k, segments[k], texts, request, e);
      k := k + 1;
    }
    assert segments[..k] == segments;
  }

  /** The second pass: the body itself. */
  method WriteResponseBody(writer: Writer, x: Context, offset: nat, ghost c: CompiledResponse,
      ghost texts: seq<seq<u8>>, ghost request: seq<u8>, ghost e: Echo)
    requires writer.Valid() && InContext(x, texts, request, e) && ProgramAt(x.program, offset, c)
             && SegmentsIn(texts, c.segments)
    modifies writer, writer.output
    ensures writer.Valid() && writer.State() == Append(old(writer.State()), ProgramText(texts, c.segments, e),
            writer.capacity)
  {
    ProgramHead(x.program, offset, c);
    PushOperations(writer, x, x.program[offset + 3], x.program[offset + 4], c.segments, texts, request, e);
  }

  // ----- the response

  /** The strings a response is made of are in the table. */
  ghost predicate ResponseIn(texts: seq<seq<u8>>, ids: StringIds, c: CompiledResponse) {
    && ids.httpVersion < |texts| && ids.contentType < |texts| && ids.contentLength < |texts|
      && ids.headerTail < |texts|
    && c.reasonId < |texts| && c.contentTypeId < |texts| && SegmentsIn(texts, c.segments)
  }

  function StatusLine(texts: seq<seq<u8>>, ids: StringIds, c: CompiledResponse): seq<u8> {
    TextAt(texts, ids.httpVersion) + Decimal(c.status) + [SPACE] + TextAt(texts, c.reasonId)
  }

  function HeaderLines(texts: seq<seq<u8>>, ids: StringIds, c: CompiledResponse, bodyLen: nat): seq<u8> {
    TextAt(texts, ids.contentType) + TextAt(texts, c.contentTypeId) + TextAt(texts, ids.contentLength)
      + Decimal(bodyLen)
    + TextAt(texts, ids.headerTail)
  }

  /** Everything `write_response` writes. */
  function ShaderResponse(texts: seq<seq<u8>>, ids: StringIds, c: CompiledResponse, e: Echo): seq<u8> {
    var body := ProgramText(texts, c.segments, e);
    StatusLine(texts, ids, c) + HeaderLines(texts, ids, c, |body|) + body
  }

  method WriteStatusLine(writer: Writer, x: Context, offset: nat, ghost c: CompiledResponse,
      ghost texts: seq<seq<u8>>)
    requires writer.Valid() && ArenaFrom(x.metadata, x.arena, texts)
    requires ProgramAt(x.program, offset, c) && ResponseIn(texts, x.ids, c)
    modifies writer, writer.output
    ensures writer.Valid() && writer.State() == Append(old(writer.State()), StatusLine(texts, x.ids, c),
            writer.capacity)
  {
    ghost var s := writer.State();
    ghost var a, b := texts[x.ids.httpVersion], Decimal(c.status);
    PushString(writer, x, x.ids.httpVersion, texts);
    writer.PushDecimal(x.program[offset]);
    AppendTwice(s, a, b, writer.capacity);
    writer.PushByte(32);
    AppendTwice(s, a + b, [SPACE], writer.capacity);
    PushString(writer, x, x.program[offset + 1], texts);
    AppendTwice(s, a + b + [SPACE], texts[c.reasonId], writer.capacity);
  }

  method WriteHeaderLines(writer: Writer, x: Context, offset: nat, bodyLen: u32, ghost c: CompiledResponse,
      ghost texts: seq<seq<u8>>)
    requires writer.Valid() && ArenaFrom(x.metadata, x.arena, texts)
    requires ProgramAt(x.program, offset, c) && ResponseIn(texts, x.ids, c)
    modifies writer, writer.output
    ensures writer.Valid() && writer.State() == Append(old(writer.State()),
            HeaderLines(texts, x.ids, c, bodyLen), writer.capacity)
  {
    ghost var s := writer.State();
    ghost var a, b, d, n := texts[x.ids.contentType], texts[c.contentTypeId], texts[x.ids.contentLength],
      Decimal(bodyLen);
    PushString(writer, x, x.ids.contentType, texts);
    PushString(writer, x, x.program[offset + 2], texts);
    AppendTwice(s, a, b, writer.capacity);
    PushString(writer, x, x.ids.contentLength, texts);
    AppendTwice(s, a + b, d, writer.capacity);
    writer.PushDecimal(bodyLen);
    AppendTwice(s, a + b + d, n, writer.capacity);
    PushString(writer, x, x.ids.headerTail, texts);
    AppendTwice(s, a + b + d + n, texts[x.ids.headerTail], writer.capacity);
  }

  /** A thread's response, in its slot of the output, or the overflow report. */
  method WriteResponse(output: array<u32>, base: nat, capacity: nat, x: Context, offset: nat,
      ghost c: CompiledResponse, ghost texts: seq<seq<u8>>, ghost request: seq<u8>, ghost e: Echo,
      ghost text: seq<u8>)
    returns (meta: ResponseMeta)
    requires capacity % 4 == 0 && base + capacity / 4 <= output.Length
    requires InContext(x, texts, request, e) && ProgramAt(x.program, offset, c) && ResponseIn(texts, x.ids, c)
    requires |ProgramText(texts, c.segments, e)| < 0x1_0000_0000 && text == ShaderResponse(texts, x.ids, c, e)
    modifies output
    ensures Only(old(output[..]), output[..], base, base + capacity / 4)
    ensures if |text| <= capacity
            then HoldsBytes(output[..], 4 * base, text) && meta == ResponseMeta(|text|, c.status, 0)
            else meta.outputLen == 0 && meta.status == 500 && meta.flags != 0
  {
    var bodyLen := ResponseBodyLen(x, offset, c, texts, request, e);
    var writer := new Writer(output, base, capacity);
    WriteStatusLine(writer, x, offset, c, texts);
    WriteHeaderLines(writer, x, offset, bodyLen, c, texts);
    ghost var body := ProgramText(texts, c.segments, e);
    AppendTwice(Some([]), StatusLine(texts, x.ids, c), HeaderLines(texts, x.ids, c, bodyLen), capacity);
    WriteResponseBody(writer, x, offset, c, texts, request, e);
    AppendTwice(Some([]), StatusLine(texts, x.ids, c) + HeaderLines(texts, x.ids, c, bodyLen), body, capacity);
    assert [] + text == text;
    meta := writer.Finish(x.program[offset]);
  }
}
