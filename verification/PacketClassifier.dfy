/** The packet shader's request classifier, loop by loop over the packed words
    (src/packet/packet.wgsl:342-492), selects the response the host selects. */
module PacketClassifier {
  import opened Bits
  import opened ByteText
  import opened Responses
  import opened PacketWords
  import opened RequestClasses

  method FindCrlf(words: seq<u32>, inputBase: nat, offset: nat, len: nat, ghost bytes: seq<u8>)
    returns (found: Option<nat>)
    requires Input(words, inputBase, bytes) && offset + len <= |bytes|
    ensures found == FirstMatch(bytes[offset..offset + len], CRLF)
  {
    ghost var payload := bytes[offset..offset + len];
    var index := 0;
    while index + 1 < len
      invariant index == 0 || index < len
      invariant forall j :: 0 <= j < index ==> !MatchAt(payload, CRLF, j)
    {
      CrlfAt(payload, index);
      var first := ReadByte(words, inputBase, offset + index, bytes);
      if first == 13 {
        var second := ReadByte(words, inputBase, offset + index + 1, bytes);
        if second == 10 {
          FirstMatchIs(payload, CRLF, index);
          return Some(index);
        }
      }
      index := index + 1;
    }
    NoMatch(payload, CRLF);
    return None;
  }

  method FindSpace(words: seq<u32>, inputBase: nat, offset: nat, start: nat, end: nat, ghost bytes: seq<u8>)
    returns (found: Option<nat>)
    requires Input(words, inputBase, bytes) && offset + end <= |bytes|
    ensures var line := bytes[offset..offset + end];
            && (found.Some? ==>
                  && start <= found.value < end && line[found.value] == SPACE
                  && NoByte(line, SPACE, start, found.value))
            && (found.None? ==> NoByte(line, SPACE, start, end))
  {
    ghost var line := bytes[offset..offset + end];
    var index := start;
    while index < end
      invariant start <= index && (start <= end ==> index <= end)
      invariant NoByte(line, SPACE, start, index)
    {
      var byte := ReadByte(words, inputBase, offset + index, bytes);
      if byte == 32 {
        return Some(index);
      }
      index := index + 1;
    }
    return None;
  }

  /** Byte-by-byte comparison with a constant: `method_is_get`, `path_is_plaintext`, `path_is_health`,
      and the fixed part of `version_is_supported`. */
  method EqualsConstant(words: seq<u32>, inputBase: nat, offset: nat, expected: seq<u8>, ghost bytes: seq<u8>)
    returns (same: bool)
    requires Input(words, inputBase, bytes) && offset + |expected| <= |bytes|
    ensures same <==> bytes[offset..offset + |expected|] == expected
  {
    var index := 0;
    while index < |expected|
      invariant index <= |expected|
      invariant bytes[offset..offset + index] == expected[..index]
    {
      var byte := ReadByte(words, inputBase, offset + index, bytes);
      if byte != expected[index] {
        assert bytes[offset..offset + |expected|][index] == byte;
        return false;
      }
      index := index + 1;
    }
    return true;
  }

  lemma VersionParts(v: seq<u8>)
    requires |v| == 8
    ensures v == HTTP_1_0 || v == HTTP_1_1 <==> v[..7] == HTTP_1_0[..7] && (v[7] == 48 || v[7] == 49)
  {
    assert v == v[..7] + [v[7]];
    assert HTTP_1_1[..7] == HTTP_1_0[..7];
  }

  method VersionIsSupported(words: seq<u32>, inputBase: nat, offset: nat, len: nat, ghost bytes: seq<u8>)
    returns (ok: bool)
    requires Input(words, inputBase, bytes) && offset + len <= |bytes|
    ensures ok <==> bytes[offset..offset + len] == HTTP_1_0 || bytes[offset..offset + len] == HTTP_1_1
  {
    if len != 8 { return false; }
    ghost var v := bytes[offset..offset + 8];
    VersionParts(v);
    assert v[..7] == bytes[offset..offset + 7] && v[7] == bytes[offset + 7];
    var prefix := EqualsConstant(words, inputBase, offset, [72, 84, 84, 80, 47, 49, 46], bytes);
    if !prefix { return false; }
    var minor := ReadByte(words, inputBase, offset + 7, bytes);
    return minor == 48 || minor == 49;
  }

  method EqualsPath(words: seq<u32>, inputBase: nat, offset: nat, len: nat, expected: seq<u8>, ghost bytes: seq<u8>)
    returns (same: bool)
    requires Input(words, inputBase, bytes) && offset + len <= |bytes|
    ensures same <==> bytes[offset..offset + len] == expected
  {
    if len != |expected| { return false; }
    same := EqualsConstant(words, inputBase, offset, expected, bytes);
  }

  // ----- what the loops amount to

  /** The line with its first two spaces. */
  ghost predicate Spaced(line: seq<u8>, first: nat, second: nat) {
    && first < second < |line| && line[first] == SPACE && line[second] == SPACE
    && NoByte(line, SPACE, 0, first) && NoByte(line, SPACE, first + 1, second)
  }

  lemma VersionHasNoSpace(v: seq<u8>)
    requires v == HTTP_1_0 || v == HTTP_1_1
    ensures Split(v, SPACE) == [v]
  {
    SplitWhole(v, SPACE);
  }

  /** A line with fewer than two spaces has fewer than three parts. */
  lemma FewParts(line: seq<u8>, first: nat)
    requires first <= |line| && NoByte(line, SPACE, 0, first) && (first < |line| ==> line[first] == SPACE)
    requires NoByte(line, SPACE, first + 1, |line|)
    ensures |Split(line, SPACE)| <= 2
  {
    if first == |line| {
      SplitWhole(line, SPACE);
    } else {
      SplitHead(line, SPACE, first);
      var rest := line[first + 1..];
      assert NoByte(rest, SPACE, 0, |rest|) by {
        forall j | 0 <= j < |rest| ensures rest[j] != SPACE { assert rest[j] == line[first + 1 + j]; }
      }
      SplitWhole(rest, SPACE);
    }
  }

  /** What decides the response of a line with two spaces. */
  lemma LineParts(line: seq<u8>, first: nat, second: nat)
    requires Spaced(line, first, second)
    ensures var parts := Split(line, SPACE); var v := line[second + 1..];
            && |parts| >= 3 && parts[0] == line[..first] && parts[1] == line[first + 1..second]
            && ((|parts| == 3 && (parts[2] == HTTP_1_1 || parts[2] == HTTP_1_0)) <==> (v == HTTP_1_0 || v == HTTP_1_1))
  {
    SplitTwice(line, SPACE, first, second);
    var v := line[second + 1..];
    if v == HTTP_1_0 || v == HTTP_1_1 {
      VersionHasNoSpace(v);
    } else if |Split(v, SPACE)| == 1 {
      SplitOne(v, SPACE);
    }
  }

  lemma PathIsHead(target: seq<u8>, n: nat)
    requires n <= |target| && NoByte(target, QUESTION, 0, n) && (n < |target| ==> target[n] == QUESTION)
    ensures Split(target, QUESTION)[0] == target[..n]
  {
    if n < |target| {
      SplitHead(target, QUESTION, n);
    } else {
      SplitWhole(target, QUESTION);
    }
  }

  /** The length of the target up to its query. */
  method PathLength(words: seq<u32>, inputBase: nat, offset: nat, len: nat, ghost bytes: seq<u8>) returns (n: nat)
    requires Input(words, inputBase, bytes) && offset + len <= |bytes|
    ensures n <= len && bytes[offset..offset + n] == Split(bytes[offset..offset + len], QUESTION)[0]
  {
    ghost var target := bytes[offset..offset + len];
    n := len;
    var index := 0;
    while index < n
      invariant index <= n == len && NoByte(target, QUESTION, 0, index)
    {
      var byte := ReadByte(words, inputBase, offset + index, bytes);
      if byte == 63 {
        n := index;
        break;
      }
      index := index + 1;
    }
    PathIsHead(target, n);
    assert target[..n] == bytes[offset..offset + n];
  }

  method ClassifyPath(words: seq<u32>, inputBase: nat, offset: nat, len: nat, ghost bytes: seq<u8>)
    returns (id: ResponseId)
    requires Input(words, inputBase, bytes) && offset + len <= |bytes|
    ensures var path := Split(bytes[offset..offset + len], QUESTION)[0];
            id == (if path == PLAINTEXT_PATH then RESPONSE_PLAINTEXT
                   else if path == HEALTH_PATH then RESPONSE_HEALTH else RESPONSE_NOT_FOUND)
  {
    var pathLen := PathLength(words, inputBase, offset, len, bytes);
    var plaintext := EqualsPath(words, inputBase, offset, pathLen, PLAINTEXT_PATH, bytes);
    if plaintext { return RESPONSE_PLAINTEXT; }
    var health := EqualsPath(words, inputBase, offset, pathLen, HEALTH_PATH, bytes);
    if health { return RESPONSE_HEALTH; }
    return RESPONSE_NOT_FOUND;
  }

  /** Part of a part of the input. */
  lemma Slices(bytes: seq<u8>, offset: nat, len: nat, a: nat, b: nat)
    requires offset + len <= |bytes| && a <= b <= len
    ensures bytes[offset..offset + len][a..b] == bytes[offset + a..offset + b]
  {
    var part := bytes[offset..offset + len];
    assert |part[a..b]| == b - a == |bytes[offset + a..offset + b]|;
    assert forall k :: 0 <= k < b - a ==> part[a..b][k] == part[a + k] == bytes[offset + (a + k)];
  }

  method Classify(words: seq<u32>, inputBase: nat, payloadOffset: nat, payloadLen: nat, ghost bytes: seq<u8>)
    returns (id: ResponseId)
    requires Input(words, inputBase, bytes) && payloadOffset + payloadLen <= |bytes|
    ensures id == ClassifyHttpRequest(bytes[payloadOffset..payloadOffset + payloadLen])
    ensures Selects(bytes[payloadOffset..payloadOffset + payloadLen], id)
  {
    ClassifiesExactly(bytes[payloadOffset..payloadOffset + payloadLen]);
    ghost var payload := bytes[payloadOffset..payloadOffset + payloadLen];
    var crlf := FindCrlf(words, inputBase, payloadOffset, payloadLen, bytes);
    if crlf.None? { return RESPONSE_BAD_REQUEST; }
    var lineEnd := crlf.value;
    ghost var line := bytes[payloadOffset..payloadOffset + lineEnd];
    Slices(bytes, payloadOffset, payloadLen, 0, lineEnd);
    var space := FindSpace(words, inputBase, payloadOffset, 0, lineEnd, bytes);
    if space.None? {
      FewParts(line, lineEnd);
      return RESPONSE_BAD_REQUEST;
    }
    var first := space.value;
    space := FindSpace(words, inputBase, payloadOffset, first + 1, lineEnd, bytes);
    if space.None? {
      FewParts(line, first);
      return RESPONSE_BAD_REQUEST;
    }
    var second := space.value;
    LineParts(line, first, second);
    CutSlices(bytes, payloadOffset, first, second, lineEnd);
    id := ClassifyParts(words, inputBase, payloadOffset, first, second, lineEnd, bytes, line[..first],
      line[first + 1..second], line[second + 1..]);
  }

  /** The three parts of a line that is cut twice. */
  lemma CutSlices(bytes: seq<u8>, offset: nat, first: nat, second: nat, lineEnd: nat)
    requires offset + lineEnd <= |bytes| && first < second < lineEnd
    ensures var line := bytes[offset..offset + lineEnd];
            && line[..first] == bytes[offset..offset + first]
            && line[first + 1..second] == bytes[offset + first + 1..offset + second]
            && line[second + 1..] == bytes[offset + second + 1..offset + lineEnd]
  {
    Slices(bytes, offset, lineEnd, 0, first);
    Slices(bytes, offset, lineEnd, first + 1, second);
    Slices(bytes, offset, lineEnd, second + 1, lineEnd);
  }

  /** The decisions on a supported version. */
  method ClassifyRequest(words: seq<u32>, inputBase: nat, offset: nat, first: nat, targetLen: nat,
      ghost bytes: seq<u8>, ghost method_: seq<u8>, ghost target: seq<u8>)
    returns (id: ResponseId)
    requires Input(words, inputBase, bytes) && offset + first + 1 + targetLen <= |bytes|
    requires method_ == bytes[offset..offset + first]
    requires target == bytes[offset + first + 1..offset + first + 1 + targetLen]
    ensures var path := Split(target, QUESTION)[0];
            id == (if method_ != GET then RESPONSE_METHOD_NOT_ALLOWED
                   else if path == PLAINTEXT_PATH then RESPONSE_PLAINTEXT
                   else if path == HEALTH_PATH then RESPONSE_HEALTH else RESPONSE_NOT_FOUND)
  {
    var get := EqualsPath(words, inputBase, offset, first, GET, bytes);
    if !get { return RESPONSE_METHOD_NOT_ALLOWED; }
    id := ClassifyPath(words, inputBase, offset + first + 1, targetLen, bytes);
  }

  /** The decisions after the line has been cut at its first two spaces. */
  method ClassifyParts(words: seq<u32>, inputBase: nat, offset: nat, first: nat, second: nat, lineEnd: nat,
      ghost bytes: seq<u8>, ghost method_: seq<u8>, ghost target: seq<u8>, ghost version: seq<u8>)
    returns (id: ResponseId)
    requires Input(words, inputBase, bytes) && offset + lineEnd <= |bytes| && first < second < lineEnd
    requires method_ == bytes[offset..offset + first] && target == bytes[offset + first + 1..offset + second]
    requires version == bytes[offset + second + 1..offset + lineEnd]
    ensures var path := Split(target, QUESTION)[0];
            id == (if target == [] || (version != HTTP_1_0 && version != HTTP_1_1) then RESPONSE_BAD_REQUEST
                   else if method_ != GET then RESPONSE_METHOD_NOT_ALLOWED
                   else if path == PLAINTEXT_PATH then RESPONSE_PLAINTEXT
                   else if path == HEALTH_PATH then RESPONSE_HEALTH else RESPONSE_NOT_FOUND)
  {
    if second == first + 1 { return RESPONSE_BAD_REQUEST; }
    var targetLen, versionLen := second - first - 1, lineEnd - second - 1;
    assert |target| == targetLen && offset + first + 1 + targetLen == offset + second;
    assert offset + second + 1 + versionLen == offset + lineEnd;
    var supported := VersionIsSupported(words, inputBase, offset + second + 1, versionLen, bytes);
    if !supported { return RESPONSE_BAD_REQUEST; }
    id := ClassifyRequest(words, inputBase, offset, first, targetLen, bytes, method_, target);
  }
}
