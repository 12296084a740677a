/** Where the shader's request parser (src/processor/http.wgsl:265-369 and 528-552) and the
    host's (src/router.rs:860-901) agree: exactly when, for every request. */
module HttpParse {
  import opened Bits
  import opened ByteText
  import opened HttpText

  const GET_SPACE: seq<u8> := [71, 69, 84, 32]

  predicate IsVersion(v: seq<u8>) {
    v == HTTP_1_0 || v == HTTP_1_1
  }

  /** A supported version at position v, ended by LF or CR LF. */
  predicate VersionLineAt(request: seq<u8>, v: nat) {
    && v + 8 < |request|
    && IsVersion(request[v..v + 8])
    && (request[v + 8] == LF || (request[v + 8] == CR && v + 9 < |request| && request[v + 9] == LF))
  }

  /** The end of the target: the first space after the method. */
  function TargetEnd(request: seq<u8>): Option<nat>
    requires |request| >= 4
  {
    match IndexOf(request[4..], SPACE)
    case None => None
    case Some(n) => Some(4 + n)
  }

  /** The shader's GET target. */
  function ShaderTarget(request: seq<u8>): Option<Parts> {
    if |request| <= 4 || request[4] != SLASH then None
    else
      match TargetEnd(request)
      case None => None
      case Some(end) => if VersionLineAt(request, end + 1) then Some(SplitTarget(request[4..end])) else None
  }

  function ShaderOutcome(request: seq<u8>): Request {
    if |request| < 4 then BadRequest
    else if request[..4] != GET_SPACE then MethodNotAllowed
    else
      match ShaderTarget(request)
      case None => BadRequest
      case Some(parts) => Get(parts)
  }

  /** A newline before the end of the target. */
  predicate NewlineInTarget(request: seq<u8>)
    requires |request| >= 4
  {
    TargetEnd(request).Some? && !NoByte(request, LF, 4, TargetEnd(request).value)
  }

  /** The host's request line, without its line end. */
  function RequestLine(request: seq<u8>): Option<seq<u8>> {
    match IndexOf(request, LF)
    case None => None
    case Some(lineEnd) => Some(StripCr(request[..lineEnd]))
  }

  predicate ThreeParts(request: seq<u8>) {
    RequestLine(request).Some? && |Split(RequestLine(request).value, SPACE)| == 3
  }

  lemma TargetEndIs(request: seq<u8>, end: nat)
    requires 4 <= end < |request| && NoByte(request, SPACE, 4, end) && request[end] == SPACE
    ensures TargetEnd(request) == Some(end)
  {
    NoByteRest(request, SPACE, 4, end);
    IndexOfIs(request[4..], SPACE, end - 4);
  }

  lemma TargetEndHas(request: seq<u8>)
    requires |request| >= 4 && TargetEnd(request).Some?
    ensures var end := TargetEnd(request).value;
            4 <= end < |request| && request[end] == SPACE && NoByte(request, SPACE, 4, end)
  {
    var rest := request[4..];
    var n := IndexOf(rest, SPACE).value;
    assert rest[n] == request[4 + n];
    forall j | 4 <= j < 4 + n ensures request[j] != SPACE {
      assert rest[j - 4] == request[j];
    }
  }

  lemma VersionBytes(v: seq<u8>)
    requires IsVersion(v)
    ensures |v| == 8 && NoByte(v, SPACE, 0, 8) && NoByte(v, LF, 0, 8) && v[7] != CR
  {
    assert v[0] == 72 && v[1] == 84 && v[2] == 84 && v[3] == 80 && v[4] == 47 && v[5] == 49 && v[6] == 46;
    assert v[7] == 48 || v[7] == 49;
  }

  lemma VersionIsOnePart(v: seq<u8>)
    requires IsVersion(v)
    ensures Split(v, SPACE) == [v]
  {
    VersionBytes(v);
    SplitWhole(v, SPACE);
  }

  /** What a string in two or more parts looks like. */
  lemma SplitAtFirst(s: seq<u8>, b: u8) returns (i: nat)
    requires |Split(s, b)| != 1
    ensures i < |s| && s[i] == b && NoByte(s, b, 0, i)
    ensures Split(s, b) == [s[..i]] + Split(s[i + 1..], b)
  {
    i := IndexOf(s, b).value;
  }

  lemma NoByteInside(s: seq<u8>, b: u8, i: nat, m: nat)
    requires i + m <= |s| && NoByte(s[i..], b, 0, m)
    ensures NoByte(s, b, i, i + m)
  {
    forall j | i <= j < i + m ensures s[j] != b {
      assert s[i..][j - i] == s[j];
    }
  }

  /** A line in three parts has exactly two spaces. */
  lemma ThreePartsAre(line: seq<u8>)
    requires |Split(line, SPACE)| == 3
    ensures var parts := Split(line, SPACE); var i := |parts[0]|; var j := i + 1 + |parts[1]|;
            && j < |line| && line[i] == SPACE && line[j] == SPACE
            && parts[0] == line[..i] && parts[1] == line[i + 1..j] && parts[2] == line[j + 1..]
            && NoByte(line, SPACE, i + 1, j)
  {
    var i := SplitAtFirst(line, SPACE);
    var rest := line[i + 1..];
    var m := SplitAtFirst(rest, SPACE);
    var last := rest[m + 1..];
    SplitOne(last, SPACE);
    RestOfRest(line, i + 1, i + 1 + m);
    NoByteInside(line, SPACE, i + 1, m);
    PartsOfThree(Split(line, SPACE), line[..i], rest[..m], last);
  }

  lemma PartsOfThree(parts: seq<seq<u8>>, a: seq<u8>, b: seq<u8>, c: seq<u8>)
    requires parts == [a] + ([b] + [c])
    ensures |parts| == 3 && parts[0] == a && parts[1] == b && parts[2] == c
  {
  }

  // ----- a request the shader accepts

  /** The start of a GET request, its target and its version line. */
  ghost predicate GetLine(r: seq<u8>, end: nat) {
    && 4 < end && end + 9 < |r| && r[..4] == GET_SPACE && r[4] == SLASH
    && r[end] == SPACE && NoByte(r, SPACE, 4, end) && VersionLineAt(r, end + 1)
  }

  lemma TargetIsGetLine(r: seq<u8>)
    requires |r| >= 4 && r[..4] == GET_SPACE && ShaderTarget(r).Some?
    ensures TargetEnd(r).Some? && GetLine(r, TargetEnd(r).value)
    ensures ShaderTarget(r) == Some(SplitTarget(r[4..TargetEnd(r).value]))
  {
    TargetEndHas(r);
  }

  lemma PrefixBytes(r: seq<u8>)
    requires |r| >= 4 && r[..4] == GET_SPACE
    ensures r[0] == 71 && r[1] == 69 && r[2] == 84 && r[3] == SPACE
  {
    assert r[0] == r[..4][0] && r[1] == r[..4][1] && r[2] == r[..4][2] && r[3] == r[..4][3];
  }

  lemma VersionSlice(r: seq<u8>, v: nat)
    requires VersionLineAt(r, v)
    ensures NoByte(r, LF, v, v + 8) && r[v + 7] != CR
  {
    VersionBytes(r[v..v + 8]);
    forall j | v <= j < v + 8 ensures r[j] != LF {
      assert r[j] == r[v..v + 8][j - v];
    }
    assert r[v + 7] == r[v..v + 8][7];
  }

  /** The first newline ends the version line. */
  lemma FirstNewline(r: seq<u8>, end: nat)
    requires GetLine(r, end) && NoByte(r, LF, 4, end)
    ensures IndexOf(r, LF) == Some(if r[end + 9] == LF then end + 9 else end + 10)
  {
    PrefixBytes(r);
    VersionSlice(r, end + 1);
    var lineEnd := if r[end + 9] == LF then end + 9 else end + 10;
    assert NoByte(r, LF, 0, lineEnd);
    IndexOfIs(r, LF, lineEnd);
  }

  lemma LineOfGet(r: seq<u8>, end: nat)
    requires GetLine(r, end) && NoByte(r, LF, 4, end)
    ensures RequestLine(r) == Some(r[..end + 9])
  {
    FirstNewline(r, end);
    VersionSlice(r, end + 1);
    if r[end + 9] == LF {
      assert r[..end + 9][end + 8] == r[end + 8];
    } else {
      assert r[..end + 10][..end + 9] == r[..end + 9];
      assert r[..end + 10][end + 9] == r[end + 9];
    }
  }

  lemma PartsOfGet(r: seq<u8>, end: nat)
    requires GetLine(r, end)
    ensures Split(r[..end + 9], SPACE) == [ByteText.GET, r[4..end], r[end + 1..end + 9]]
  {
    PrefixBytes(r);
    var n := end + 9;
    SliceOfPrefix(r, n, 4, end);
    SliceOfPrefix(r, n, end + 1, n);
    SliceOfPrefix(r, n, 0, 3);
    assert r[0..3] == ByteText.GET;
    CutLine(r[..n], end);
    VersionIsOnePart(r[end + 1..n]);
  }

  lemma CutLine(line: seq<u8>, end: nat)
    requires 4 < end < |line| && line[3] == SPACE && line[end] == SPACE
    requires NoByte(line, SPACE, 0, 3) && NoByte(line, SPACE, 4, end)
    ensures Split(line, SPACE) == [line[0..3], line[4..end]] + Split(line[end + 1..], SPACE)
  {
    SplitTwice(line, SPACE, 3, end);
    assert line[..3] == line[0..3];
  }

  lemma PathNotEmpty(target: seq<u8>)
    requires target != [] && target[0] == SLASH
    ensures SplitTarget(target).path != []
  {
    var q := IndexOf(target, QUESTION);
    if q.Some? {
      assert target[q.value] == QUESTION;
    }
  }

  /** The host accepts what the shader accepts, unless the target contains a newline. */
  lemma ShaderGetIsHostGet(r: seq<u8>)
    requires |r| >= 4 && r[..4] == GET_SPACE && ShaderTarget(r).Some? && !NewlineInTarget(r)
    ensures ParseRequest(r) == Get(ShaderTarget(r).value)
  {
    TargetIsGetLine(r);
    var end := TargetEnd(r).value;
    LineOfGet(r, end);
    PartsOfGet(r, end);
    PathNotEmpty(r[4..end]);
    HostAccepts(r, r[..end + 9], r[4..end], r[end + 1..end + 9]);
  }

  lemma HostAccepts(r: seq<u8>, line: seq<u8>, target: seq<u8>, version: seq<u8>)
    requires RequestLine(r) == Some(line) && Split(line, SPACE) == [ByteText.GET, target, version]
    requires IsVersion(version) && target != [] && target[0] == SLASH && SplitTarget(target).path != []
    ensures ParseRequest(r) == Get(SplitTarget(target))
  {
  }

  // ----- a request the host accepts

  lemma HostGetParts(r: seq<u8>)
    requires ParseRequest(r).Get?
    ensures ThreeParts(r)
    ensures var line := RequestLine(r).value; var parts := Split(line, SPACE);
            && parts[0] == ByteText.GET && IsVersion(parts[2]) && parts[1] != [] && parts[1][0] == SLASH
            && ParseRequest(r).parts == SplitTarget(parts[1])
  {
  }

  /** The line is a prefix of the request, ended by LF or CR LF, with no newline before. */
  lemma LineInRequest(r: seq<u8>)
    requires RequestLine(r).Some?
    ensures var line := RequestLine(r).value; var n := |line|;
            && n < |r| && line == r[..n] && NoByte(r, LF, 0, n)
            && (r[n] == LF || (r[n] == CR && n + 1 < |r| && r[n + 1] == LF))
  {
    var lineEnd := IndexOf(r, LF).value;
    var raw := r[..lineEnd];
    if raw != [] && raw[|raw| - 1] == CR {
      assert raw[..|raw| - 1] == r[..lineEnd - 1];
      assert raw[|raw| - 1] == r[lineEnd - 1];
    }
  }

  lemma SliceOfPrefix(r: seq<u8>, n: nat, a: nat, b: nat)
    requires a <= b <= n <= |r|
    ensures r[..n][a..b] == r[a..b] && (b == n ==> r[..n][a..] == r[a..n])
  {
  }

  lemma HostGetIsShaderGet(r: seq<u8>)
    requires ParseRequest(r).Get?
    ensures |r| >= 4 && r[..4] == GET_SPACE && ShaderTarget(r) == Some(ParseRequest(r).parts) && !NewlineInTarget(r)
  {
    HostGetParts(r);
    LineInRequest(r);
    var line := RequestLine(r).value;
    var n := |line|;
    ThreePartsAre(line);
    var parts := Split(line, SPACE);
    var end := 4 + |parts[1]|;
    VersionBytes(parts[2]);
    assert n == end + 9;
    SliceOfPrefix(r, n, 4, end);
    SliceOfPrefix(r, n, end + 1, n);
    HostPrefix(r, line);
    assert line[4] == parts[1][0];
    TargetEndIs(r, end);
    assert NoByte(r, LF, 4, end);
  }

  lemma HostPrefix(r: seq<u8>, line: seq<u8>)
    requires |line| >= 4 && |line| <= |r| && line == r[..|line|] && line[..3] == ByteText.GET && line[3] == SPACE
    ensures r[..4] == GET_SPACE
  {
    assert r[..4] == line[..3] + [line[3]];
  }

  /** GET targets: the shader finds the same path, query and hash exactly when the host does,
      provided the target contains no newline. */
  lemma GetTargetsAgree(r: seq<u8>, parts: Parts)
    ensures ParseRequest(r) == Get(parts) <==>
              |r| >= 4 && r[..4] == GET_SPACE && ShaderTarget(r) == Some(parts) && !NewlineInTarget(r)
  {
    if ParseRequest(r) == Get(parts) {
      HostGetIsShaderGet(r);
    } else if |r| >= 4 && r[..4] == GET_SPACE && ShaderTarget(r) == Some(parts) && !NewlineInTarget(r) {
      ShaderGetIsHostGet(r);
    }
  }

  // ----- all outcomes

  lemma HostRejects(r: seq<u8>)
    ensures ParseRequest(r).MethodNotAllowed? <==>
              ThreeParts(r) && Split(RequestLine(r).value, SPACE)[0] != ByteText.GET
  {
  }

  /** Three parts and the method GET: the request begins with "GET ". */
  lemma ThreePartsOfGet(r: seq<u8>)
    requires ThreeParts(r)
    ensures Split(RequestLine(r).value, SPACE)[0] == ByteText.GET <==> |r| >= 4 && r[..4] == GET_SPACE
  {
    LineInRequest(r);
    var line := RequestLine(r).value;
    ThreePartsAre(line);
    var first := Split(line, SPACE)[0];
    if first == ByteText.GET {
      HostPrefix(r, line);
    } else if |r| >= 4 && r[..4] == GET_SPACE {
      PrefixBytes(r);
    }
  }

  /** The only request of fewer than four bytes that the host finds in three parts. */
  lemma ShortRequests(r: seq<u8>)
    requires |r| < 4
    ensures ThreeParts(r) <==> r == [SPACE, SPACE, LF]
  {
    if ThreeParts(r) {
      LineInRequest(r);
      ThreePartsAre(RequestLine(r).value);
    } else if r == [SPACE, SPACE, LF] {
      TwoSpaces(r);
    }
  }

  lemma TwoSpaces(r: seq<u8>)
    requires r == [SPACE, SPACE, LF]
    ensures ThreeParts(r)
  {
    IndexOfIs(r, LF, 2);
    var line := r[..2];
    assert line == [SPACE, SPACE];
    SplitTwice(line, SPACE, 0, 1);
    SplitWhole(line[2..], SPACE);
  }

  /** A target that starts with a slash, a space after it, and then a supported version to the end
      of its line. */
  predicate TargetAndVersion(r: seq<u8>)
    requires |r| >= 4
  {
    && |r| > 4 && r[4] == SLASH
    && TargetEnd(r).Some? && VersionLineAt(r, TargetEnd(r).value + 1)
  }

  /** The condition for the parsers to agree: on a request too short for a method, not the one
      line of two spaces; on another method, a line in exactly three parts; on GET, no newline in
      the target when a supported version follows it. */
  predicate ParsesAlike(r: seq<u8>) {
    if |r| < 4 then r != [SPACE, SPACE, LF]
    else if r[..4] != GET_SPACE then ThreeParts(r)
    else TargetAndVersion(r) ==> !NewlineInTarget(r)
  }

  /** The shader and the host see the same request, exactly under that condition. */
  lemma OutcomesAgreeExactly(r: seq<u8>)
    ensures ShaderOutcome(r) == ParseRequest(r) <==> ParsesAlike(r)
  {
    HostRejects(r);
    if ThreeParts(r) {
      ThreePartsOfGet(r);
    }
    if ParseRequest(r).Get? {
      HostGetIsShaderGet(r);
    } else if |r| < 4 {
      ShortRequests(r);
    } else if r[..4] == GET_SPACE && ShaderTarget(r).Some? && !NewlineInTarget(r) {
      ShaderGetIsHostGet(r);
    }
  }

  // ----- each kind of disagreement, on concrete input

  /** A line of two spaces: three empty parts for the host, too short for the shader. */
  lemma TwoSpacesDiffer()
    ensures ParseRequest([SPACE, SPACE, LF]) == MethodNotAllowed && ShaderOutcome([SPACE, SPACE, LF]) == BadRequest
  {
    var r := [SPACE, SPACE, LF];
    ShortRequests(r);
    HostRejects(r);
    ThreePartsOfGet(r);
  }

  /** Another method on a line without a target: malformed for the host, a method for the shader. */
  lemma BareMethodDiffers(r: seq<u8>)
    requires r == [80, 79, 83, 84] + [CR, LF, CR, LF]
    ensures ParseRequest(r) == BadRequest && ShaderOutcome(r) == MethodNotAllowed
  {
    IndexOfIs(r, LF, 5);
    assert r[..5][4] == CR && r[..5][..4] == [80, 79, 83, 84];
    SplitWhole(r[..5][..4], SPACE);
    assert r[..4][0] != GET_SPACE[0];
  }

  /** A newline inside the target: the host's line ends there, the shader reads on. */
  lemma NewlineDiffers(r: seq<u8>)
    requires r == GET_SPACE + [SLASH, LF, SPACE] + HTTP_1_1 + [CR, LF, CR, LF]
    ensures ParseRequest(r) == BadRequest && ShaderOutcome(r).Get?
  {
    assert r[..4] == GET_SPACE && r[4] == SLASH && r[5] == LF && r[6] == SPACE && r[15] == CR && r[16] == LF;
    TargetEndIs(r, 6);
    assert r[7..15] == HTTP_1_1;
    PrefixBytes(r);
    HostRejects(r);
    if ThreeParts(r) {
      ThreePartsOfGet(r);
    }
    if ParseRequest(r).Get? {
      HostGetIsShaderGet(r);
    }
  }
}
