/** Searching and splitting byte strings, as the standard library calls of the host code do. */
module ByteText {
  import opened Bits

  const LF: u8 := 10
  const CR: u8 := 13
  const SPACE: u8 := 32
  const SLASH: u8 := 47
  const QUESTION: u8 := 63
  const CRLF: seq<u8> := [13, 10]
  const HTTP_1_0: seq<u8> := [72, 84, 84, 80, 47, 49, 46, 48]
  const HTTP_1_1: seq<u8> := [72, 84, 84, 80, 47, 49, 46, 49]
  const GET: seq<u8> := [71, 69, 84]

  /** `iter().position(|byte| byte == b)` */
  function IndexOf(s: seq<u8>, b: u8): (r: Option<nat>)
    ensures r.Some? ==> r.value < |s| && s[r.value] == b && forall j :: 0 <= j < r.value ==> s[j] != b
    ensures r.None? ==> forall j :: 0 <= j < |s| ==> s[j] != b
  {
    if s == [] then None
    else if s[0] == b then Some(0)
    else
      match IndexOf(s[1..], b)
      case None => None
      case Some(i) => assert s[i + 1] == s[1..][i]; Some(i + 1)
  }

  /** `windows(pat.len()).position(|window| window == pat)` */
  function FirstMatch(s: seq<u8>, pat: seq<u8>): (r: Option<nat>)
    requires |pat| > 0
    ensures r.Some? ==> MatchAt(s, pat, r.value) && forall j :: 0 <= j < r.value ==> !MatchAt(s, pat, j)
    ensures r.None? ==> forall j: nat :: !MatchAt(s, pat, j)
    decreases |s|
  {
    if |s| < |pat| then None
    else if s[..|pat|] == pat then Some(0)
    else
      assert forall j: nat :: MatchAt(s[1..], pat, j) <==> MatchAt(s, pat, j + 1) by {
        forall j: nat ensures MatchAt(s[1..], pat, j) <==> MatchAt(s, pat, j + 1) {
          if j + 1 + |pat| <= |s| { assert s[1..][j..j + |pat|] == s[j + 1..j + 1 + |pat|]; }
        }
      }
      assert !MatchAt(s, pat, 0);
      match FirstMatch(s[1..], pat)
      case None =>
        assert forall j: nat :: !MatchAt(s, pat, j) by {
          forall j: nat ensures !MatchAt(s, pat, j) { if j > 0 { assert !MatchAt(s[1..], pat, j - 1); } }
        }
        None
      case Some(i) =>
        assert forall j :: 0 <= j < i + 1 ==> !MatchAt(s, pat, j) by {
          forall j | 0 <= j < i + 1 ensures !MatchAt(s, pat, j) { if j > 0 { assert !MatchAt(s[1..], pat, j - 1); } }
        }
        Some(i + 1)
  }

  predicate MatchAt(s: seq<u8>, pat: seq<u8>, i: nat) {
    i + |pat| <= |s| && s[i..i + |pat|] == pat
  }

  /** `split(|byte| byte == b)`: the maximal runs between separators; never empty. */
  function Split(s: seq<u8>, b: u8): (parts: seq<seq<u8>>)
    ensures |parts| >= 1
    decreases |s|
  {
    match IndexOf(s, b)
    case None => [s]
    case Some(i) => [s[..i]] + Split(s[i + 1..], b)
  }

  /** The separator does not occur in a range. */
  predicate NoByte(s: seq<u8>, b: u8, from: nat, to: nat) {
    forall j :: from <= j < to && j < |s| ==> s[j] != b
  }

  lemma IndexOfIs(s: seq<u8>, b: u8, i: nat)
    requires i <= |s| && NoByte(s, b, 0, i) && (i < |s| ==> s[i] == b)
    ensures IndexOf(s, b) == (if i < |s| then Some(i) else None)
  {
    var r := IndexOf(s, b);
    if r.Some? {
      assert s[r.value] == b;
    }
  }

  lemma SplitHead(s: seq<u8>, b: u8, i: nat)
    requires i < |s| && NoByte(s, b, 0, i) && s[i] == b
    ensures Split(s, b) == [s[..i]] + Split(s[i + 1..], b)
  {
    IndexOfIs(s, b, i);
  }

  lemma SplitWhole(s: seq<u8>, b: u8)
    requires NoByte(s, b, 0, |s|)
    ensures Split(s, b) == [s]
  {
    IndexOfIs(s, b, |s|);
  }

  /** A string in one piece has no separator. */
  lemma SplitOne(s: seq<u8>, b: u8)
    requires |Split(s, b)| == 1
    ensures NoByte(s, b, 0, |s|) && Split(s, b) == [s]
  {
  }

  /** Cutting at the first two separators. */
  lemma SplitTwice(s: seq<u8>, b: u8, i: nat, j: nat)
    requires i < j < |s| && s[i] == b && s[j] == b && NoByte(s, b, 0, i) && NoByte(s, b, i + 1, j)
    ensures Split(s, b) == [s[..i], s[i + 1..j]] + Split(s[j + 1..], b)
  {
    var tail, m := s[i + 1..], j - (i + 1);
    SplitHead(s, b, i);
    NoByteRest(s, b, i + 1, j);
    SplitHead(tail, b, m);
    RestOfRest(s, i + 1, j);
    JoinTwo(Split(s, b), s[..i], Split(tail, b), tail[..m], Split(tail[m + 1..], b));
  }

  lemma JoinTwo(whole: seq<seq<u8>>, first: seq<u8>, tail: seq<seq<u8>>, second: seq<u8>, rest: seq<seq<u8>>)
    requires whole == [first] + tail && tail == [second] + rest
    ensures whole == [first, second] + rest
  {
  }

  lemma NoByteRest(s: seq<u8>, b: u8, i: nat, j: nat)
    requires i <= j <= |s| && NoByte(s, b, i, j)
    ensures NoByte(s[i..], b, 0, j - i)
    ensures j < |s| ==> s[i..][j - i] == s[j]
  {
  }

  lemma RestOfRest(s: seq<u8>, i: nat, j: nat)
    requires i <= j < |s|
    ensures s[i..][..j - i] == s[i..j]
    ensures s[i..][j - i + 1..] == s[j + 1..]
  {
  }

  lemma FirstMatchIs(s: seq<u8>, pat: seq<u8>, i: nat)
    requires |pat| > 0 && MatchAt(s, pat, i) && forall j :: 0 <= j < i ==> !MatchAt(s, pat, j)
    ensures FirstMatch(s, pat) == Some(i)
  {
    var r := FirstMatch(s, pat);
    assert r.Some?;
    assert !(r.value < i) && !(i < r.value);
  }

  lemma NoMatch(s: seq<u8>, pat: seq<u8>)
    requires |pat| > 0 && forall j: nat :: !MatchAt(s, pat, j)
    ensures FirstMatch(s, pat) == None
  {
  }

  lemma CrlfAt(s: seq<u8>, i: nat)
    ensures MatchAt(s, CRLF, i) <==> i + 2 <= |s| && s[i] == CR && s[i + 1] == LF
  {
    if i + 2 <= |s| {
      assert s[i..i + 2] == [s[i], s[i + 1]];
    }
  }
}
