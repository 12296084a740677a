/** What every answer looks like to the client that reads it: where its header ends, the length it
    announces, and its status, told from its bytes (src/protocol.rs:61-87,
    src/processor/http.wgsl:530-552). */
module HttpAnswers {
  import opened Bits
  import opened ByteText
  import opened HttpText

  /** "HTTP/1.1 ", "Content-Type: ", "Content-Length: ", "Server: gput" and "X-Gput-Backend: ". */
  const VERSION_BYTES: seq<u8> := [0x48, 0x54, 0x54, 0x50, 0x2f, 0x31, 0x2e, 0x31, 0x20]
  const TYPE_BYTES: seq<u8> :=
    [0x43, 0x6f, 0x6e, 0x74, 0x65, 0x6e, 0x74, 0x2d, 0x54, 0x79, 0x70, 0x65, 0x3a, 0x20]
  const LENGTH_BYTES: seq<u8> :=
    [0x43, 0x6f, 0x6e, 0x74, 0x65, 0x6e, 0x74, 0x2d, 0x4c, 0x65, 0x6e, 0x67, 0x74, 0x68, 0x3a, 0x20]
  const SERVER_BYTES: seq<u8> := [0x53, 0x65, 0x72, 0x76, 0x65, 0x72, 0x3a, 0x20, 0x67, 0x70, 0x75, 0x74]
  const BACKEND_BYTES: seq<u8> :=
    [0x58, 0x2d, 0x47, 0x70, 0x75, 0x74, 0x2d, 0x42, 0x61, 0x63, 0x6b, 0x65, 0x6e, 0x64, 0x3a, 0x20]
  const LINE_END: seq<u8> := [0x0d, 0x0a]
  const HEADER_END: seq<u8> := [0x0d, 0x0a, 0x0d, 0x0a]

  // ----- numbers in digits

  predicate Digits(s: seq<u8>) {
    s != [] && forall i :: 0 <= i < |s| ==> 0x30 <= s[i] <= 0x39
  }

  /** The number that digits denote, each ten times the next. */
  function Value(s: seq<u8>): int {
    if s == [] then 0
    else
      var last: int := s[|s| - 1];
      10 * Value(s[..|s| - 1]) + last - 0x30
  }

  /** Written as digits a number denotes itself, without leading zeros. */
  lemma {:induction false} DecimalIsValue(v: nat)
    ensures Digits(Decimal(v)) && Value(Decimal(v)) == v
    ensures Decimal(v)[0] == 0x30 ==> v == 0
  {
    if v >= 10 {
      DecimalIsValue(v / 10);
      var front := Decimal(v / 10);
      assert Decimal(v)[..|front|] == front;
    }
  }

  // ----- an answer, by its bytes

  /** The pattern is at i, and nowhere before. */
  predicate FirstAt(s: seq<u8>, pat: seq<u8>, i: nat) {
    MatchAt(s, pat, i) && forall j :: 0 <= j < i ==> !MatchAt(s, pat, j)
  }

  /** The status line's number: the digits between "HTTP/1.1 " and a space. */
  predicate StatusAt(answer: seq<u8>, n: nat, code: nat) {
    && 9 + n < |answer| && answer[..9] == VERSION_BYTES && answer[9 + n] == 0x20
    && Digits(answer[9..9 + n]) && Value(answer[9..9 + n]) == code
  }

  /** The header ends at its first empty line; the body is what follows. */
  predicate BodyAt(answer: seq<u8>, cut: nat, body: seq<u8>) {
    FirstAt(answer, HEADER_END, cut) && answer[cut + 4..] == body
  }

  /** The header has one line that starts with "Content-Length: ", at k; its n digits denote len. */
  predicate LengthAt(answer: seq<u8>, cut: nat, k: nat, n: nat, len: nat) {
    && MatchAt(answer, LINE_END + LENGTH_BYTES, k) && k + 18 + n <= cut <= |answer|
    && (forall j :: 0 <= j < cut && MatchAt(answer, LINE_END + LENGTH_BYTES, j) ==> j == k)
    && MatchAt(answer, LINE_END, k + 18 + n)
    && Digits(answer[k + 18..k + 18 + n]) && Value(answer[k + 18..k + 18 + n]) == len
  }

  /** What a header says besides the length: its status, its content type and its backend. */
  datatype Head = Head(code: nat, reason: seq<u8>, contentType: seq<u8>, backend: seq<u8>)

  /** The bytes of the header, with its two numbers in these digits. */
  function HeaderBytes(head: Head, status: seq<u8>, length: seq<u8>): seq<u8> {
    VERSION_BYTES + status + [0x20] + head.reason + LINE_END + TYPE_BYTES + head.contentType + LINE_END
    + LENGTH_BYTES + length + LINE_END + SERVER_BYTES + LINE_END + BACKEND_BYTES + head.backend
  }

  /** The bytes before the cut are the header. */
  ghost predicate HasHeader(answer: seq<u8>, cut: nat, head: Head, len: nat) {
    cut <= |answer| && exists status, length ::
        && Digits(status) && Value(status) == head.code && Digits(length) && Value(length) == len
        && answer[..cut] == HeaderBytes(head, status, length)
  }

  ghost predicate HasStatus(answer: seq<u8>, code: nat) {
    exists n :: StatusAt(answer, n, code)
  }

  ghost predicate HasLength(answer: seq<u8>, cut: nat, len: nat) {
    exists k, n :: LengthAt(answer, cut, k, n, len)
  }

  /** The answer has this header, announcing its status and the length of this body, and ends with
      the body. */
  ghost predicate Announces(answer: seq<u8>, head: Head, body: seq<u8>) {
    && HasStatus(answer, head.code)
    && exists cut :: BodyAt(answer, cut, body) && HasLength(answer, cut, |body|) && HasHeader(answer, cut, head, |body|)
  }

  // ----- header lines

  /** Lines, an empty line, and the body. */
  function Joined(lines: seq<seq<u8>>, body: seq<u8>): seq<u8> {
    if lines == [] then LINE_END + body else lines[0] + LINE_END + Joined(lines[1..], body)
  }

  predicate HeaderLine(line: seq<u8>) {
    line != [] && 0x0d !in line
  }

  predicate HeaderLines(lines: seq<seq<u8>>) {
    forall i :: 0 <= i < |lines| ==> HeaderLine(lines[i])
  }

  /** Where line i starts. */
  function StartOf(lines: seq<seq<u8>>, i: nat): nat
    requires i <= |lines|
  {
    if i == 0 then 0 else |lines[0]| + 2 + StartOf(lines[1..], i - 1)
  }

  lemma ShiftedSlice(a: seq<u8>, rest: seq<u8>, m: nat, x: nat, y: nat)
    requires m <= |a| && a[m..] == rest && x <= y <= |rest|
    ensures a[m + x..m + y] == rest[x..y]
  {
    var part, want := a[m + x..m + y], rest[x..y];
    forall k | 0 <= k < y - x ensures part[k] == want[k] {
      assert part[k] == a[m + (x + k)] == rest[x + k];
    }
  }

  lemma JoinedStep(line: seq<u8>, rest: seq<u8>, a: seq<u8>)
    requires a == line + LINE_END + rest
    ensures a[..|line|] == line && a[|line|] == 0x0d && a[|line| + 1] == 0x0a && a[|line| + 2..] == rest
  {
  }

  /** A match behind the first line is a match in the rest. */
  lemma MatchInRest(line: seq<u8>, rest: seq<u8>, a: seq<u8>, pat: seq<u8>, j: nat)
    requires a == line + LINE_END + rest && j >= |line| + 2
    ensures MatchAt(a, pat, j) <==> MatchAt(rest, pat, j - (|line| + 2))
  {
    var m := |line| + 2;
    JoinedStep(line, rest, a);
    if j + |pat| <= |a| {
      assert a[j..j + |pat|] == a[m..][j - m..j - m + |pat|];
    }
  }

  lemma MatchStarts(a: seq<u8>, name: seq<u8>, j: nat)
    requires MatchAt(a, LINE_END + name, j)
    ensures j + 2 + |name| <= |a| && a[j] == 0x0d && a[j + 1] == 0x0a && a[j + 2..j + 2 + |name|] == name
  {
    var part := a[j..j + 2 + |name|];
    assert part == LINE_END + name;
    assert a[j] == part[0] && a[j + 1] == part[1];
    assert part[2..] == name;
  }

  /** A line end is not inside a header line, nor between its two bytes. */
  lemma NotInLine(line: seq<u8>, rest: seq<u8>, a: seq<u8>, name: seq<u8>, j: nat)
    requires a == line + LINE_END + rest && HeaderLine(line) && MatchAt(a, LINE_END + name, j)
    ensures j == |line| || j >= |line| + 2
  {
    MatchStarts(a, name, j);
    JoinedStep(line, rest, a);
    assert forall k :: 0 <= k < |line| ==> a[k] == line[k];
  }

  lemma {:induction false} JoinedIsLong(lines: seq<seq<u8>>, body: seq<u8>)
    ensures |Joined(lines, body)| == StartOf(lines, |lines|) + 2 + |body|
    ensures Joined(lines, body)[StartOf(lines, |lines|) + 2..] == body
  {
    if lines != [] {
      var rest := Joined(lines[1..], body);
      JoinedIsLong(lines[1..], body);
      JoinedStep(lines[0], rest, Joined(lines, body));
      var m, p := |lines[0]| + 2, StartOf(lines[1..], |lines[1..]|);
      assert Joined(lines, body)[m + p + 2..] == rest[p + 2..];
    }
  }

  /** The first empty line is the one behind the lines. */
  lemma {:induction false} FirstEnd(lines: seq<seq<u8>>, body: seq<u8>)
    requires lines != [] && HeaderLines(lines)
    ensures StartOf(lines, |lines|) >= 2
    ensures BodyAt(Joined(lines, body), StartOf(lines, |lines|) - 2, body)
    decreases |lines|
  {
    var line, more, rest, a := lines[0], lines[1..], Joined(lines[1..], body), Joined(lines, body);
    var cut := StartOf(lines, |lines|) - 2;
    JoinedIsLong(lines, body);
    JoinedStep(line, rest, a);
    assert LINE_END + LINE_END == HEADER_END;
    if more == [] {
      assert a[cut..cut + 4] == HEADER_END;
    } else {
      FirstEnd(more, body);
      MatchInRest(line, rest, a, HEADER_END, cut);
    }
    forall j | 0 <= j < cut ensures !MatchAt(a, HEADER_END, j) {
      if MatchAt(a, HEADER_END, j) {
        NotInLine(line, rest, a, LINE_END, j);
        if j == |line| {
          NotEmptyNext(more, rest, body, a, j);
        } else {
          MatchInRest(line, rest, a, HEADER_END, j);
        }
      }
    }
  }

  /** A line is not empty. */
  lemma NotEmptyNext(more: seq<seq<u8>>, rest: seq<u8>, body: seq<u8>, a: seq<u8>, j: nat)
    requires more != [] && HeaderLines(more) && rest == Joined(more, body)
    requires j + 2 <= |a| && a[j + 2..] == rest
    ensures !MatchAt(a, HEADER_END, j)
  {
    assert rest[0] == more[0][0] == a[j + 2];
    EndHasThird(a, j);
  }

  lemma EndHasThird(a: seq<u8>, j: nat)
    ensures MatchAt(a, HEADER_END, j) ==> j + 2 < |a| && a[j + 2] == 0x0d
  {
    if MatchAt(a, HEADER_END, j) {
      assert a[j..j + 4][2] == a[j + 2];
    }
  }

  /** A field name behind a line end is at the start of a line. */
  lemma {:induction false} FieldStarts(lines: seq<seq<u8>>, body: seq<u8>, name: seq<u8>, j: nat) returns (i: nat)
    requires lines != [] && HeaderLines(lines) && name != [] && 0x0d !in name
    requires MatchAt(Joined(lines, body), LINE_END + name, j) && j + 2 < StartOf(lines, |lines|)
    ensures 1 <= i < |lines| && j + 2 == StartOf(lines, i) && name <= lines[i]
    decreases |lines|
  {
    var line, more, rest, a := lines[0], lines[1..], Joined(lines[1..], body), Joined(lines, body);
    NotInLine(line, rest, a, name, j);
    if j == |line| {
      i := 1;
      NextFieldStarts(line, more[0], Joined(more[1..], body), rest, a, name);
    } else {
      MatchInRest(line, rest, a, LINE_END + name, j);
      var k := FieldStarts(more, body, name, j - (|line| + 2));
      i := k + 1;
    }
  }

  lemma NextFieldStarts(line: seq<u8>, next: seq<u8>, tail: seq<u8>, rest: seq<u8>, a: seq<u8>, name: seq<u8>)
    requires a == line + LINE_END + rest && rest == next + LINE_END + tail && 0x0d !in name
    requires MatchAt(a, LINE_END + name, |line|)
    ensures name <= next
  {
    MatchStarts(a, name, |line|);
    JoinedStep(line, rest, a);
    ShiftedSlice(a, rest, |line| + 2, 0, |name|);
    NameInLine(next, tail, rest, name);
  }

  lemma NameInLine(line: seq<u8>, rest: seq<u8>, a: seq<u8>, name: seq<u8>)
    requires a == line + LINE_END + rest && 0x0d !in name && |name| <= |a| && a[..|name|] == name
    ensures name <= line
  {
    JoinedStep(line, rest, a);
    assert forall k :: 0 <= k < |name| ==> name[k] == a[k];
  }

  /** A line that starts with the name is found behind its line end. */
  /** The line is at s, between line ends. */
  predicate LineAt(a: seq<u8>, s: nat, line: seq<u8>) {
    && 2 <= s && s + |line| + 2 <= |a|
    && a[s - 2..s] == LINE_END && a[s..s + |line|] == line && a[s + |line|..s + |line| + 2] == LINE_END
  }

  lemma {:induction false} StartsAscend(lines: seq<seq<u8>>, i: nat)
    requires i < |lines|
    ensures StartOf(lines, i) + |lines[i]| + 2 <= StartOf(lines, |lines|)
    decreases i
  {
    if i > 0 {
      StartsAscend(lines[1..], i - 1);
    }
  }

  lemma LineShifts(a: seq<u8>, rest: seq<u8>, m: nat, s: nat, line: seq<u8>)
    requires m <= |a| && a[m..] == rest && LineAt(rest, s, line)
    ensures LineAt(a, m + s, line)
  {
    var n := |line|;
    ShiftedSlice(a, rest, m, s - 2, s);
    ShiftedSlice(a, rest, m, s, s + n);
    ShiftedSlice(a, rest, m, s + n, s + n + 2);
  }

  lemma SecondLineAt(first: seq<u8>, second: seq<u8>, rest: seq<u8>, a: seq<u8>)
    requires a == first + LINE_END + (second + LINE_END + rest)
    ensures LineAt(a, |first| + 2, second)
  {
  }

  /** Every line but the first is between line ends. */
  lemma {:induction false} FieldIsAt(lines: seq<seq<u8>>, body: seq<u8>, i: nat)
    requires 1 <= i < |lines|
    ensures LineAt(Joined(lines, body), StartOf(lines, i), lines[i])
    decreases i
  {
    var line, more, rest, a := lines[0], lines[1..], Joined(lines[1..], body), Joined(lines, body);
    if i == 1 {
      SecondLineAt(line, more[0], Joined(more[1..], body), a);
    } else {
      FieldIsAt(more, body, i - 1);
      JoinedStep(line, rest, a);
      LineShifts(a, rest, |line| + 2, StartOf(more, i - 1), more[i - 1]);
    }
  }

  // ----- the lines of an answer

  function AnswerLines(code: nat, reason: seq<u8>, contentType: seq<u8>, len: nat, backend: seq<u8>): seq<seq<u8>> {
    [VERSION_BYTES + Decimal(code) + [0x20] + reason, TYPE_BYTES + contentType, LENGTH_BYTES + Decimal(len),
     SERVER_BYTES, BACKEND_BYTES + backend]
  }

  lemma VersionText()
    ensures HTTP_VERSION == VERSION_BYTES
  {
  }

  lemma TypeText()
    ensures CONTENT_TYPE == LINE_END + TYPE_BYTES
  {
  }

  lemma LengthText()
    ensures CONTENT_LENGTH == LINE_END + LENGTH_BYTES
  {
  }

  lemma AsciiJoins(a: string, b: string)
    ensures Ascii(a + b) == Ascii(a) + Ascii(b)
  {
  }

  lemma ServerLine()
    ensures Ascii("\r\nServer: gput") == LINE_END + SERVER_BYTES
  {
  }

  lemma BackendLine()
    ensures Ascii("\r\nX-Gput-Backend: ") == LINE_END + BACKEND_BYTES
  {
  }

  lemma ServerText()
    ensures SERVER == LINE_END + SERVER_BYTES + LINE_END + BACKEND_BYTES
  {
    ServerLine();
    BackendLine();
    AsciiJoins("\r\nServer: gput", "\r\nX-Gput-Backend: ");
    assert "\r\nServer: gput" + "\r\nX-Gput-Backend: " == "\r\nServer: gput\r\nX-Gput-Backend: ";
  }

  lemma EndText()
    ensures BLANK_LINE == LINE_END + LINE_END
  {
  }

  /** Five lines, joined. */
  lemma JoinFive(a: seq<u8>, b: seq<u8>, c: seq<u8>, d: seq<u8>, e: seq<u8>, body: seq<u8>)
    ensures Joined([a, b, c, d, e], body)
            == a + LINE_END + (b + LINE_END + (c + LINE_END + (d + LINE_END + (e + LINE_END + (LINE_END + body)))))
  {
    assert [a, b, c, d, e][1..] == [b, c, d, e];
    assert [b, c, d, e][1..] == [c, d, e];
    assert [c, d, e][1..] == [d, e];
    assert [d, e][1..] == [e];
    assert [e][1..] == [];
    assert Joined([e], body) == e + LINE_END + (LINE_END + body);
    assert Joined([d, e], body) == d + LINE_END + Joined([e], body);
    assert Joined([c, d, e], body) == c + LINE_END + Joined([d, e], body);
    assert Joined([b, c, d, e], body) == b + LINE_END + Joined([c, d, e], body);
  }

  lemma Regroup(v: seq<u8>, s: seq<u8>, sp: seq<u8>, r: seq<u8>, e: seq<u8>, t: seq<u8>, ct: seq<u8>, l: seq<u8>,
      n: seq<u8>, sv: seq<u8>, x: seq<u8>, be: seq<u8>, body: seq<u8>)
    ensures v + s + sp + r + (e + t) + ct + (e + l) + n + ((e + sv + e + x) + be + (e + e)) + body
            == (v + s + sp + r) + e + ((t + ct) + e + ((l + n) + e + (sv + e + ((x + be) + e + (e + body)))))
  {
  }

  /** The text of a response, line by line. */
  lemma TextIsJoined(code: nat, reason: seq<u8>, contentType: seq<u8>, backend: seq<u8>, body: seq<u8>)
    ensures HTTP_VERSION + Decimal(code) + [SPACE] + reason + CONTENT_TYPE + contentType + CONTENT_LENGTH
            + Decimal(|body|) + (SERVER + backend + BLANK_LINE) + body
            == Joined(AnswerLines(code, reason, contentType, |body|, backend), body)
  {
    VersionText();
    TypeText();
    LengthText();
    ServerText();
    EndText();
    JoinFive(VERSION_BYTES + Decimal(code) + [0x20] + reason, TYPE_BYTES + contentType,
             LENGTH_BYTES + Decimal(|body|), SERVER_BYTES, BACKEND_BYTES + backend, body);
    Regroup(VERSION_BYTES, Decimal(code), [0x20], reason, LINE_END, TYPE_BYTES, contentType, LENGTH_BYTES,
            Decimal(|body|), SERVER_BYTES, BACKEND_BYTES, backend, body);
  }

  lemma DigitsHaveNoLineEnd(s: seq<u8>)
    requires Digits(s)
    ensures 0x0d !in s
  {
  }

  lemma LinesAreHeader(code: nat, reason: seq<u8>, contentType: seq<u8>, len: nat, backend: seq<u8>)
    requires 0x0d !in reason && 0x0d !in contentType && 0x0d !in backend
    ensures HeaderLines(AnswerLines(code, reason, contentType, len, backend))
  {
    DecimalIsValue(code);
    DecimalIsValue(len);
    DigitsHaveNoLineEnd(Decimal(code));
    DigitsHaveNoLineEnd(Decimal(len));
    FixedHaveNoLineEnd();
  }

  lemma FixedHaveNoLineEnd()
    ensures 0x0d !in VERSION_BYTES && 0x0d !in TYPE_BYTES && 0x0d !in LENGTH_BYTES && 0x0d !in SERVER_BYTES
    ensures 0x0d !in BACKEND_BYTES
  {
  }

  /** The line with this name, if any, is line i. */
  predicate OnlyLine(lines: seq<seq<u8>>, name: seq<u8>, i: nat) {
    forall j :: 1 <= j < |lines| && name <= lines[j] ==> j == i
  }

  /** The status in the first line, and the length in the third and no other. */
  predicate Shape(lines: seq<seq<u8>>, code: nat, reason: seq<u8>, len: nat) {
    && |lines| > 2 && lines[0] == VERSION_BYTES + Decimal(code) + [0x20] + reason
    && lines[2] == LENGTH_BYTES + Decimal(len) && OnlyLine(lines, LENGTH_BYTES, 2)
  }

  lemma AnswerShape(code: nat, reason: seq<u8>, contentType: seq<u8>, len: nat, backend: seq<u8>)
    ensures Shape(AnswerLines(code, reason, contentType, len, backend), code, reason, len)
  {
    var lines := AnswerLines(code, reason, contentType, len, backend);
    forall j | 1 <= j < |lines| && LENGTH_BYTES <= lines[j] ensures j == 2 {
      assert lines[j][0] == LENGTH_BYTES[0] && lines[j][8] == LENGTH_BYTES[8];
    }
  }

  lemma SecondPiece(v: seq<u8>, digits: seq<u8>, sp: seq<u8>, reason: seq<u8>, rest: seq<u8>, answer: seq<u8>,
      from: nat, to: nat)
    requires answer == v + digits + sp + reason + rest && |sp| == 1 && from == |v| && to == from + |digits|
    ensures to < |answer| && answer[..from] == v && answer[from..to] == digits && answer[to] == sp[0]
  {
  }

  lemma StatusIsFirst(digits: seq<u8>, reason: seq<u8>, rest: seq<u8>, answer: seq<u8>, code: nat)
    requires answer == VERSION_BYTES + digits + [0x20] + reason + rest && Digits(digits) && Value(digits) == code
    ensures StatusAt(answer, |digits|, code)
  {
    SecondPiece(VERSION_BYTES, digits, [0x20], reason, rest, answer, 9, 9 + |digits|);
  }

  lemma StatusOfLines(lines: seq<seq<u8>>, answer: seq<u8>, code: nat, reason: seq<u8>, len: nat, body: seq<u8>)
    requires Shape(lines, code, reason, len) && answer == Joined(lines, body)
    ensures HasStatus(answer, code)
  {
    DecimalIsValue(code);
    var rest := Joined(lines[1..], body);
    FirstLineFirst(lines[0], rest, Decimal(code), reason);
    StatusIsFirst(Decimal(code), reason, LINE_END + rest, answer, code);
  }

  lemma FirstLineFirst(line: seq<u8>, rest: seq<u8>, digits: seq<u8>, reason: seq<u8>)
    requires line == VERSION_BYTES + digits + [0x20] + reason
    ensures line + LINE_END + rest == VERSION_BYTES + digits + [0x20] + reason + (LINE_END + rest)
  {
  }

  /** A line of a name and digits, between line ends. */
  lemma DigitsInLine(answer: seq<u8>, s: nat, digits: seq<u8>)
    requires LineAt(answer, s, LENGTH_BYTES + digits)
    ensures MatchAt(answer, LINE_END + LENGTH_BYTES, s - 2)
    ensures s + 16 + |digits| + 2 <= |answer| && answer[s + 16..s + 16 + |digits|] == digits
    ensures MatchAt(answer, LINE_END, s + 16 + |digits|)
  {
    var line, n := LENGTH_BYTES + digits, |digits|;
    var part := answer[s..s + 16 + n];
    assert part[..16] == LENGTH_BYTES && part[16..] == digits;
    ShiftedSlice(answer, answer[s..], s, 0, 16);
    ShiftedSlice(answer, answer[s..], s, 16, 16 + n);
    assert answer[s - 2..s + 16] == answer[s - 2..s] + answer[s..s + 16];
  }

  lemma OnlyLengthBefore(lines: seq<seq<u8>>, body: seq<u8>, answer: seq<u8>, j: nat)
    requires HeaderLines(lines) && |lines| > 2 && OnlyLine(lines, LENGTH_BYTES, 2) && answer == Joined(lines, body)
    requires MatchAt(answer, LINE_END + LENGTH_BYTES, j) && j + 2 < StartOf(lines, |lines|)
    ensures j + 2 == StartOf(lines, 2)
  {
    FixedHaveNoLineEnd();
    var i := FieldStarts(lines, body, LENGTH_BYTES, j);
  }

  lemma LengthIsThird(lines: seq<seq<u8>>, answer: seq<u8>, code: nat, reason: seq<u8>, len: nat, body: seq<u8>,
      digits: seq<u8>, s: nat, end: nat)
    requires Shape(lines, code, reason, len) && HeaderLines(lines) && answer == Joined(lines, body)
    requires digits == Decimal(len) && s == StartOf(lines, 2) && end == StartOf(lines, |lines|)
    ensures 2 <= s && 2 <= end && HasLength(answer, end - 2, len)
  {
    DecimalIsValue(len);
    FieldIsAt(lines, body, 2);
    StartsAscend(lines, 2);
    JoinedIsLong(lines, body);
    DigitsInLine(answer, s, digits);
    forall j | 0 <= j < end - 2 && MatchAt(answer, LINE_END + LENGTH_BYTES, j) ensures j == s - 2 {
      OnlyLengthBefore(lines, body, answer, j);
    }
    assert LengthAt(answer, end - 2, s - 2, |digits|, len);
  }

  lemma EndIs(lines: seq<seq<u8>>, body: seq<u8>, answer: seq<u8>, end: nat)
    requires lines != [] && HeaderLines(lines) && answer == Joined(lines, body) && end == StartOf(lines, |lines|)
    ensures 2 <= end && BodyAt(answer, end - 2, body)
  {
    FirstEnd(lines, body);
  }

  lemma FiveLinesStart(a: seq<u8>, b: seq<u8>, c: seq<u8>, d: seq<u8>, e: seq<u8>, body: seq<u8>, end: nat)
    requires end == StartOf([a, b, c, d, e], 5)
    ensures end >= 2 && end - 2 <= |Joined([a, b, c, d, e], body)|
    ensures Joined([a, b, c, d, e], body)[..end - 2]
            == a + LINE_END + b + LINE_END + c + LINE_END + d + LINE_END + e
  {
    FiveStart(a, b, c, d, e);
    JoinFive(a, b, c, d, e, body);
    CutFive(a, b, c, d, e, LINE_END, body, end - 2);
  }

  lemma FiveStart(a: seq<u8>, b: seq<u8>, c: seq<u8>, d: seq<u8>, e: seq<u8>)
    ensures StartOf([a, b, c, d, e], 5) == |a| + |b| + |c| + |d| + |e| + 10
  {
    assert [a, b, c, d, e][1..] == [b, c, d, e];
    assert [b, c, d, e][1..] == [c, d, e];
    assert [c, d, e][1..] == [d, e];
    assert [d, e][1..] == [e];
    assert StartOf([e], 1) == |e| + 2;
    assert StartOf([d, e], 2) == |d| + 2 + StartOf([e], 1);
    assert StartOf([c, d, e], 3) == |c| + 2 + StartOf([d, e], 2);
    assert StartOf([b, c, d, e], 4) == |b| + 2 + StartOf([c, d, e], 3);
  }

  lemma CutFive(a: seq<u8>, b: seq<u8>, c: seq<u8>, d: seq<u8>, e: seq<u8>, l: seq<u8>, body: seq<u8>, cut: nat)
    requires |l| == 2 && cut == |a| + |b| + |c| + |d| + |e| + 8
    ensures var all := a + l + (b + l + (c + l + (d + l + (e + l + (l + body)))));
            cut <= |all| && all[..cut] == a + l + b + l + c + l + d + l + e
  {
  }

  lemma HeaderRegroups(head: Head, status: seq<u8>, length: seq<u8>)
    ensures HeaderBytes(head, status, length)
            == (VERSION_BYTES + status + [0x20] + head.reason) + LINE_END + (TYPE_BYTES + head.contentType) + LINE_END
               + (LENGTH_BYTES + length) + LINE_END + SERVER_BYTES + LINE_END + (BACKEND_BYTES + head.backend)
  {
  }

  /** The lines are the header. */
  ghost predicate SaysHead(lines: seq<seq<u8>>, answer: seq<u8>, head: Head, len: nat) {
    var end := StartOf(lines, |lines|);
    2 <= end && HasHeader(answer, end - 2, head, len)
  }

  /** The lines of an answer are. */
  lemma LinesAreBytes(head: Head, len: nat, body: seq<u8>, lines: seq<seq<u8>>)
    requires lines == AnswerLines(head.code, head.reason, head.contentType, len, head.backend)
    ensures SaysHead(lines, Joined(lines, body), head, len)
  {
    var status, length := Decimal(head.code), Decimal(len);
    DecimalIsValue(head.code);
    DecimalIsValue(len);
    HeaderRegroups(head, status, length);
    FiveLinesStart(VERSION_BYTES + status + [0x20] + head.reason, TYPE_BYTES + head.contentType,
                   LENGTH_BYTES + length, SERVER_BYTES, BACKEND_BYTES + head.backend, body, StartOf(lines, 5));
  }

  /** Such lines announce their status and the length of the body behind them. */
  lemma LinesAnnounce(lines: seq<seq<u8>>, answer: seq<u8>, head: Head, body: seq<u8>)
    requires Shape(lines, head.code, head.reason, |body|) && HeaderLines(lines) && answer == Joined(lines, body)
    requires SaysHead(lines, answer, head, |body|)
    ensures Announces(answer, head, body)
  {
    var len, end := |body|, StartOf(lines, |lines|);
    EndIs(lines, body, answer, end);
    LengthIsThird(lines, answer, head.code, head.reason, len, body, Decimal(len), StartOf(lines, 2), end);
    StatusOfLines(lines, answer, head.code, head.reason, len, body);
    assert BodyAt(answer, end - 2, body) && HasLength(answer, end - 2, len) && HasHeader(answer, end - 2, head, len);
  }

  /** Every response text announces its status and the length of its body. */
  lemma TextAnnounces(head: Head, body: seq<u8>, answer: seq<u8>)
    requires 0x0d !in head.reason && 0x0d !in head.contentType && 0x0d !in head.backend
    requires answer == HTTP_VERSION + Decimal(head.code) + [SPACE] + head.reason + CONTENT_TYPE + head.contentType
                       + CONTENT_LENGTH + Decimal(|body|) + (SERVER + head.backend + BLANK_LINE) + body
    ensures Announces(answer, head, body)
  {
    TextIsJoined(head.code, head.reason, head.contentType, head.backend, body);
    AnswerLinesAnnounce(head, body, AnswerLines(head.code, head.reason, head.contentType, |body|, head.backend));
  }

  lemma AnswerLinesAnnounce(head: Head, body: seq<u8>, lines: seq<seq<u8>>)
    requires 0x0d !in head.reason && 0x0d !in head.contentType && 0x0d !in head.backend
    requires lines == AnswerLines(head.code, head.reason, head.contentType, |body|, head.backend)
    ensures Announces(Joined(lines, body), head, body)
  {
    var len, answer := |body|, Joined(lines, body);
    LinesFit(head, len, body, lines);
    LinesAnnounce(lines, answer, head, body);
  }

  lemma LinesFit(head: Head, len: nat, body: seq<u8>, lines: seq<seq<u8>>)
    requires 0x0d !in head.reason && 0x0d !in head.contentType && 0x0d !in head.backend
    requires lines == AnswerLines(head.code, head.reason, head.contentType, len, head.backend)
    ensures Shape(lines, head.code, head.reason, len) && HeaderLines(lines)
    ensures SaysHead(lines, Joined(lines, body), head, len)
  {
    LinesAreHeader(head.code, head.reason, head.contentType, len, head.backend);
    AnswerShape(head.code, head.reason, head.contentType, len, head.backend);
    LinesAreBytes(head, len, body, lines);
  }
}
