/** The shader's response writer (src/processor/http.wgsl:139-263): bytes and words appended at any
    alignment through one pending word.  It refines plain append into a buffer of fixed capacity. */
module HttpWriter {
  import opened Bits
  import opened Packing
  import opened HttpText

  // ----- splitting a word over the cursor

  function WordBytes(w: u32): (b: seq<u8>)
    ensures |b| == 4
  {
    [ByteOf(w, 0), ByteOf(w, 1), ByteOf(w, 2), ByteOf(w, 3)]
  }

  /** A word shifted in above k pending bytes, and what remains pending. */
  lemma Splice1(t0: u8, w0: u8, w1: u8, w2: u8, w3: u8)
    ensures Or(LeSum(t0, 0, 0, 0), ShlBytes(LeSum(w0, w1, w2, w3), 1)) == LeSum(t0, w0, w1, w2)
    ensures ShrBytes(LeSum(w0, w1, w2, w3), 3) == LeSum(w3, 0, 0, 0)
  {
    ShlWord(w0, w1, w2, w3, 1);
    ShrWord(w0, w1, w2, w3, 3);
    OrWord1(t0, w0, w1, w2);
  }

  lemma Splice2(t0: u8, t1: u8, w0: u8, w1: u8, w2: u8, w3: u8)
    ensures Or(LeSum(t0, t1, 0, 0), ShlBytes(LeSum(w0, w1, w2, w3), 2)) == LeSum(t0, t1, w0, w1)
    ensures ShrBytes(LeSum(w0, w1, w2, w3), 2) == LeSum(w2, w3, 0, 0)
  {
    ShlWord(w0, w1, w2, w3, 2);
    ShrWord(w0, w1, w2, w3, 2);
    OrWord2(t0, t1, w0, w1);
  }

  lemma Splice3(t0: u8, t1: u8, t2: u8, w0: u8, w1: u8, w2: u8, w3: u8)
    ensures Or(LeSum(t0, t1, t2, 0), ShlBytes(LeSum(w0, w1, w2, w3), 3)) == LeSum(t0, t1, t2, w0)
    ensures ShrBytes(LeSum(w0, w1, w2, w3), 1) == LeSum(w1, w2, w3, 0)
  {
    ShlWord(w0, w1, w2, w3, 3);
    ShrWord(w0, w1, w2, w3, 1);
    OrWord3(t0, t1, t2, w0);
  }

  /** Four pending and new bytes, and the bytes left over. */
  predicate SplitAt(t: seq<u8>, b: seq<u8>, k: nat, full: u32, rest: u32)
    requires |t| == k <= 3 && |b| == 4
  {
    full == LeWord(t + b[..4 - k]) && rest == LeWord(b[4 - k..])
  }

  lemma SplitWhole(t: seq<u8>, b: seq<u8>)
    requires |t| == 0 && |b| == 4
    ensures SplitAt(t, b, 0, LeSum(b[0], b[1], b[2], b[3]), 0)
  {
    assert t + b[..4] == b && b[4..] == [];
  }

  lemma SplitAfter1(t: seq<u8>, b: seq<u8>)
    requires |t| == 1 && |b| == 4
    ensures SplitAt(t, b, 1, LeSum(t[0], b[0], b[1], b[2]), LeSum(b[3], 0, 0, 0))
  {
    assert t + b[..3] == [t[0], b[0], b[1], b[2]] && b[3..] == [b[3]];
  }

  lemma SplitAfter2(t: seq<u8>, b: seq<u8>)
    requires |t| == 2 && |b| == 4
    ensures SplitAt(t, b, 2, LeSum(t[0], t[1], b[0], b[1]), LeSum(b[2], b[3], 0, 0))
  {
    assert t + b[..2] == [t[0], t[1], b[0], b[1]] && b[2..] == [b[2], b[3]];
  }

  lemma SplitAfter3(t: seq<u8>, b: seq<u8>)
    requires |t| == 3 && |b| == 4
    ensures SplitAt(t, b, 3, LeSum(t[0], t[1], t[2], b[0]), LeSum(b[1], b[2], b[3], 0))
  {
    assert t + b[..1] == [t[0], t[1], t[2], b[0]] && b[1..] == [b[1], b[2], b[3]];
  }

  lemma LeWordEmpty(t: seq<u8>)
    requires |t| == 0
    ensures LeWord(t) == 0
  {
  }

  lemma LeWordIs(t: seq<u8>, b0: u8, b1: u8, b2: u8)
    requires |t| <= 3
    requires b0 == ByteOrZero(t, 0) && b1 == ByteOrZero(t, 1) && b2 == ByteOrZero(t, 2)
    ensures LeWord(t) == LeSum(b0, b1, b2, 0)
  {
  }

  /** `pending | (word << 8k)` completes a word, and `word >> (32 - 8k)` is what remains. */
  lemma Splice(t: seq<u8>, w: u32, b: seq<u8>, pending: u32)
    requires |t| <= 3 && b == WordBytes(w) && pending == LeWord(t)
    ensures SplitAt(t, b, |t|, OrU32(pending, ShlBytes(w, |t|)), if |t| == 0 then 0 else ShrBytes(w, 4 - |t|))
  {
    WordOfBytes(w);
    LeWordIs(t, ByteOrZero(t, 0), ByteOrZero(t, 1), ByteOrZero(t, 2));
    if |t| == 0 {
      LeWordEmpty(t);
      SplitWhole(t, b);
    } else if |t| == 1 {
      Splice1(t[0], b[0], b[1], b[2], b[3]);
      SplitAfter1(t, b);
    } else if |t| == 2 {
      Splice2(t[0], t[1], b[0], b[1], b[2], b[3]);
      SplitAfter2(t, b);
    } else {
      Splice3(t[0], t[1], t[2], b[0], b[1], b[2], b[3]);
      SplitAfter3(t, b);
    }
  }

  // ----- a buffer in words

  predicate ByteIs(w: u32, b: seq<u8>, k: nat)
    requires k <= 3
  {
    ByteOf(w, k) == ByteOrZero(b, k)
  }

  /** The word's bytes are these, then zeros. */
  ghost predicate IsWord(w: u32, b: seq<u8>) {
    |b| <= 4 && forall k :: 0 <= k <= 3 ==> ByteIs(w, b, k)
  }

  lemma WordIsWord(b: seq<u8>, w: u32)
    requires |b| <= 4 && w == LeWord(b)
    ensures IsWord(w, b)
  {
    forall k | 0 <= k <= 3 ensures ByteIs(w, b, k) {
      LeWordBytes(b, k);
    }
  }

  lemma IsWordUnique(w: u32, b: seq<u8>)
    requires IsWord(w, b)
    ensures w == LeWord(b)
  {
    forall k | 0 <= k < 4 ensures ByteOf(w, k) == ByteOf(LeWord(b), k) {
      assert ByteIs(w, b, k);
      LeWordBytes(b, k);
    }
    SameBytesSameWord(w, LeWord(b));
  }

  function Tail(contents: seq<u8>): (t: seq<u8>)
    ensures |t| == |contents| % 4
  {
    contents[|contents| / 4 * 4..]
  }

  ghost predicate WholeWord(words: seq<u32>, base: nat, contents: seq<u8>, j: nat)
    requires 4 * j + 4 <= |contents| && base + |contents| / 4 <= |words|
  {
    IsWord(words[base + j], contents[4 * j..4 * j + 4])
  }

  /** The completed words and the pending word are exactly the contents. */
  ghost predicate Buffered(words: seq<u32>, base: nat, contents: seq<u8>, pending: u32) {
    && base + |contents| / 4 <= |words|
    && (forall j :: 0 <= j < |contents| / 4 ==> WholeWord(words, base, contents, j))
    && IsWord(pending, Tail(contents))
  }

  lemma TailGrows(contents: seq<u8>, front: seq<u8>, back: seq<u8>)
    requires |Tail(contents)| + |front| == 4 && |back| < 4
    ensures var c := contents + (front + back); var n := |contents| / 4;
            && |c| / 4 == n + 1 && 4 * n + 4 <= |c| && c[4 * n..4 * n + 4] == Tail(contents) + front
            && Tail(c) == back
  {
    var c, n := contents + (front + back), |contents| / 4;
    DivModUnique(|c|, 4, n + 1, |back|);
    assert c[4 * n..4 * n + 4] == contents[4 * n..] + front;
    assert c[4 * n + 4..] == back;
  }

  /** A completed word: the tail and the front make it, the back remains pending. */
  lemma CompleteWord(words: seq<u32>, base: nat, contents: seq<u8>, pending: u32, front: seq<u8>, back: seq<u8>,
      word: u32, rest: u32, contents': seq<u8>)
    requires Buffered(words, base, contents, pending) && |Tail(contents)| + |front| == 4 && |back| < 4
    requires base + |contents| / 4 < |words| && contents' == contents + (front + back)
    requires IsWord(word, Tail(contents) + front) && IsWord(rest, back)
    ensures Buffered(words[base + |contents| / 4 := word], base, contents', rest)
  {
    TailGrows(contents, front, back);
    var n, words' := |contents| / 4, words[base + |contents| / 4 := word];
    forall j | 0 <= j < n + 1 ensures WholeWord(words', base, contents', j) {
      if j < n {
        assert WholeWord(words, base, contents, j);
        assert contents'[4 * j..4 * j + 4] == contents[4 * j..4 * j + 4];
      }
    }
  }

  lemma TailOfMore(contents: seq<u8>, x: u8)
    requires |Tail(contents)| < 3
    ensures Tail(contents + [x]) == Tail(contents) + [x] && |contents + [x]| / 4 == |contents| / 4
  {
    var n := |contents| / 4;
    DivModUnique(|contents| + 1, 4, n, |contents| % 4 + 1);
    assert (contents + [x])[n * 4..] == contents[n * 4..] + [x];
  }

  /** A byte that leaves the word incomplete. */
  lemma PendingByte(words: seq<u32>, base: nat, contents: seq<u8>, pending: u32, x: u8, pending': u32)
    requires Buffered(words, base, contents, pending) && |Tail(contents)| < 3
    requires IsWord(pending', Tail(contents) + [x])
    ensures Buffered(words, base, contents + [x], pending')
  {
    TailOfMore(contents, x);
    var c := contents + [x];
    forall j | 0 <= j < |c| / 4 ensures WholeWord(words, base, c, j) {
      assert WholeWord(words, base, contents, j);
      assert c[4 * j..4 * j + 4] == contents[4 * j..4 * j + 4];
    }
  }

  /** What a pushed byte or word leaves in its word. */
  lemma SplicedByte(t: seq<u8>, pending: u32, byte: u8)
    requires |t| <= 3 && IsWord(pending, t)
    ensures IsWord(OrU32(pending, ShlBytes(byte, |t|)), t + [byte])
  {
    IsWordUnique(pending, t);
    AppendByte(t, byte);
    WordIsWord(t + [byte], LeWord(t + [byte]));
  }

  lemma SplicedWord(t: seq<u8>, pending: u32, word: u32, b: seq<u8>, placed: u32, rest: u32)
    requires |t| <= 3 && pending == LeWord(t) && b == WordBytes(word)
    requires placed == OrU32(pending, ShlBytes(word, |t|))
    requires rest == if |t| == 0 then 0 else ShrBytes(word, 4 - |t|)
    ensures SplitAt(t, b, |t|, placed, rest)
  {
    Splice(t, word, b, pending);
  }

  /** The two words of a split are words of its two parts. */
  lemma SplitIsWords(t: seq<u8>, b: seq<u8>, k: nat, placed: u32, rest: u32)
    requires |t| == k <= 3 && |b| == 4 && SplitAt(t, b, k, placed, rest)
    ensures IsWord(placed, t + b[..4 - k]) && IsWord(rest, b[4 - k..])
  {
    WordIsWord(t + b[..4 - k], placed);
    WordIsWord(b[4 - k..], rest);
  }

  // ----- the writer

  const RESPONSE_FLAG_OUTPUT_OVERFLOW: u32 := 1

  /** Plain append into a buffer of fixed capacity; none once it has overflowed. */
  function Append(state: Option<seq<u8>>, s: seq<u8>, capacity: nat): Option<seq<u8>> {
    match state
    case None => None
    case Some(c) => if |c| + |s| <= capacity then Some(c + s) else None
  }

  /** Appending in pieces. */
  lemma AppendTwice(state: Option<seq<u8>>, a: seq<u8>, b: seq<u8>, capacity: nat)
    ensures Append(Append(state, a, capacity), b, capacity) == Append(state, a + b, capacity)
  {
    if state.Some? {
      assert state.value + a + b == state.value + (a + b);
    }
  }

  lemma EmptyWord()
    ensures IsWord(0, [])
  {
    forall k | 0 <= k <= 3 ensures ByteIs(0, [], k) {
    }
  }

  /** `pending | (byte << ((cursor & 3) * 8))` */
  method PlaceByte(pending: u32, byte: u8, cursor: nat, ghost t: seq<u8>) returns (placed: u32)
    requires cursor % 4 == |t| <= 3 && IsWord(pending, t)
    ensures IsWord(placed, t + [byte])
  {
    SplicedByte(t, pending, byte);
    placed := OrU32(pending, ShlBytes(byte, cursor % 4));
  }

  /** The next cursor, and the position of the word it completes. */
  method Advance(cursor: nat, base: nat) returns (next: nat, completed: Option<nat>)
    ensures next == cursor + 1
    ensures completed == if cursor % 4 == 3 then Some(base + cursor / 4) else None
  {
    next := cursor + 1;
    completed := if next % 4 == 0 then Some(base + next / 4 - 1) else None;
  }

  method StoreWord(output: array<u32>, index: nat, word: u32)
    requires index < output.Length
    modifies output
    ensures output[..] == old(output[..])[index := word]
  {
    output[index] := word;
  }

  /** What a pushed byte does to the words and the pending word. */
  lemma ByteStep(words: seq<u32>, base: nat, contents: seq<u8>, pending: u32, byte: u8, placed: u32,
      words': seq<u32>, pending': u32, slot: nat)
    requires Buffered(words, base, contents, pending) && slot == base + |contents| / 4 < |words|
    requires IsWord(placed, Tail(contents) + [byte])
    requires |Tail(contents)| == 3 ==> words' == words[slot := placed] && pending' == 0
    requires |Tail(contents)| < 3 ==> words' == words && pending' == placed
    ensures Buffered(words', base, contents + [byte], pending')
  {
    if |Tail(contents)| == 3 {
      assert [byte] + [] == [byte];
      EmptyWord();
      CompleteWord(words, base, contents, pending, [byte], [], placed, 0, contents + [byte]);
    } else {
      PendingByte(words, base, contents, pending, byte, placed);
    }
  }

  /** What a pushed word does. */
  lemma WordStep(words: seq<u32>, base: nat, contents: seq<u8>, pending: u32, b: seq<u8>, placed: u32, rest: u32,
      slot: nat)
    requires Buffered(words, base, contents, pending) && slot == base + |contents| / 4 < |words| && |b| == 4
    requires IsWord(placed, Tail(contents) + b[..4 - |Tail(contents)|]) && IsWord(rest, b[4 - |Tail(contents)|..])
    ensures Buffered(words[slot := placed], base, contents + b, rest)
  {
    var k := 4 - |Tail(contents)|;
    assert b[..k] + b[k..] == b;
    CompleteWord(words, base, contents, pending, b[..k], b[k..], placed, rest, contents + b);
  }

  /** Where the pending bytes are. */
  lemma PendingPosition(contents: seq<u8>, capacity: nat)
    requires capacity % 4 == 0 && |contents| < capacity
    ensures |contents| % 4 == |Tail(contents)| <= 3 && |contents| / 4 < capacity / 4
  {
  }

  lemma RoomForWord(n: nat, capacity: nat)
    requires capacity % 4 == 0 && n < capacity
    ensures n / 4 < capacity / 4
    ensures (n + 1) % 4 == 0 <==> n % 4 == 3
    ensures (n + 1) % 4 == 0 ==> (n + 1) / 4 == n / 4 + 1
  {
  }

  /** One more word of the slot written. */
  lemma OnlyOneMore(before: seq<u32>, words: seq<u32>, base: nat, end: nat, i: nat, word: u32)
    requires Only(before, words, base, end) && base <= i < end
    ensures Only(before, words[i := word], base, end)
  {
    UpdateInSlice(words, i, word, base, end);
    OnlyTwice(before, words, words[i := word], base, end);
  }

  /** The word to store, and the part of it that stays pending. */
  method SplitWord(pending: u32, word: u32, k: nat, ghost t: seq<u8>, ghost b: seq<u8>)
    returns (placed: u32, rest: u32)
    requires k == |t| <= 3 && IsWord(pending, t) && b == WordBytes(word)
    ensures IsWord(placed, t + b[..4 - k]) && IsWord(rest, b[4 - k..])
  {
    IsWordUnique(pending, t);
    placed := OrU32(pending, ShlBytes(word, k));
    rest := 0;
    if k != 0 {
      rest := ShrBytes(word, 4 - k);
    }
    SplicedWord(t, pending, word, b, placed, rest);
    SplitIsWords(t, b, k, placed, rest);
  }

  /** Finished, the words hold the contents. */
  lemma BufferedHolds(words: seq<u32>, base: nat, contents: seq<u8>, pending: u32, after: seq<u32>)
    requires Buffered(words, base, contents, pending) && 4 * base + |contents| <= 4 * |words|
    requires |contents| % 4 == 0 ==> after == words
    requires |contents| % 4 != 0 ==> base + |contents| / 4 < |words| && after == words[base + |contents| / 4 := pending]
    ensures HoldsBytes(after, 4 * base, contents)
  {
    forall i | 0 <= i < |contents| ensures HeldAt(after, 4 * base, contents, i) {
      DivModUnique(4 * base + i, 4, base + i / 4, i % 4);
      if i / 4 < |contents| / 4 {
        assert WholeWord(words, base, contents, i / 4);
        assert ByteIs(words[base + i / 4], contents[4 * (i / 4)..4 * (i / 4) + 4], i % 4);
      } else {
        assert ByteIs(pending, Tail(contents), i % 4);
      }
    }
  }

  lemma FourBytesOf(b: seq<u8>)
    requires |b| == 4
    ensures WordBytes(LeWord(b)) == b
  {
    LeWordBytes(b, 0);
    LeWordBytes(b, 1);
    LeWordBytes(b, 2);
    LeWordBytes(b, 3);
  }

  /** The metadata a finished response is read back with. */
  datatype ResponseMeta = ResponseMeta(outputLen: nat, status: u32, flags: u32)

  /** Appending a string piece by piece. */
  lemma AppendPiece(state: Option<seq<u8>>, s: seq<u8>, a: nat, b: nat, piece: seq<u8>, capacity: nat)
    requires a <= b <= |s| && piece == s[a..b]
    ensures Append(Append(state, s[..a], capacity), piece, capacity) == Append(state, s[..b], capacity)
  {
    AppendTwice(state, s[..a], piece, capacity);
    assert s[..a] + piece == s[..b];
  }

  lemma AppendEnds(state: Option<seq<u8>>, s: seq<u8>, capacity: nat)
    requires state.Some? ==> |state.value| <= capacity
    ensures Append(state, s[..0], capacity) == state
    ensures Append(state, s[..|s|], capacity) == Append(state, s, capacity)
  {
    assert s[..|s|] == s;
    if state.Some? {
      assert state.value + s[..0] == state.value;
    }
  }

  /** The word loaded from four bytes of packed words. */
  lemma LoadedBytes(words: seq<u32>, start: nat, s: seq<u8>, index: nat)
    requires HoldsBytes(words, start, s) && index + 4 <= |s|
    ensures var p := start + index; p / 4 < |words| && (p % 4 != 0 ==> p / 4 + 1 < |words|)
    ensures WordBytes(LoadWord(words, start + index)) == s[index..index + 4]
  {
    LoadWordIs(words, start, s, index);
    FourBytesOf(s[index..index + 4]);
  }

  lemma LoadedByte(words: seq<u32>, start: nat, s: seq<u8>, index: nat)
    requires HoldsBytes(words, start, s) && index < |s|
    ensures (start + index) / 4 < |words| && [LoadByte(words, start + index)] == s[index..index + 1]
  {
    assert HeldAt(words, start, s, index);
  }

  /** The digits already pushed before digit k. */
  function HigherDigits(value: nat, k: nat): seq<u8> {
    if DropDigits(value, k + 1) == 0 then [] else Decimal(DropDigits(value, k + 1))
  }

  lemma NextDigit(state: Option<seq<u8>>, value: nat, k: nat, capacity: nat)
    ensures Append(Append(state, HigherDigits(value, k), capacity), [Digit(DropDigits(value, k) % 10)], capacity)
            == Append(state, Decimal(DropDigits(value, k)), capacity)
    ensures k > 0 && DropDigits(value, k) > 0 ==>
              HigherDigits(value, k - 1) == Decimal(DropDigits(value, k)) && DropDigits(value, k - 1) > 0
  {
    var d := DropDigits(value, k);
    assert DropDigits(value, k + 1) == d / 10;
    assert HigherDigits(value, k) + [Digit(d % 10)] == Decimal(d);
    AppendTwice(state, HigherDigits(value, k), [Digit(d % 10)], capacity);
  }

  lemma Pow10IsOne(k: nat)
    requires Pow10(k) == 1
    ensures k == 0
  {
  }

  /** The largest power of ten not above the number (one for zero). */
  method LeadingDivisor(value: u32) returns (divisor: u32, ghost k: nat)
    ensures divisor == Pow10(k) && DropDigits(value, k) < 10 && (k > 0 ==> DropDigits(value, k) > 0)
  {
    divisor, k := 1, 0;
    while value / divisor >= 10
      invariant divisor == Pow10(k) && divisor <= 0xffff_ffff
      invariant k > 0 ==> DropDigits(value, k) > 0
      decreases 0x1_0000_0000 - divisor
    {
      TenTimes(value, divisor);
      DropDigitsIs(value, k, divisor);
      divisor := divisor * 10;
      k := k + 1;
    }
    DropDigitsIs(value, k, divisor);
  }

  class Writer {
    const output: array<u32>
    /** The first word of the request's slot, and the slot's size in bytes. */
    const base: nat
    const capacity: nat
    var cursor: nat
    var flags: u32
    var pending: u32
    ghost var contents: seq<u8>
    ghost const before: seq<u32>

    ghost predicate Valid()
      reads this, output
    {
      && capacity % 4 == 0
      && Only(before, output[..], base, base + capacity / 4)
      && (flags == 0 ==> cursor == |contents| <= capacity && Buffered(output[..], base, contents, pending))
    }

    /** What has been written so far; none after an overflow. */
    ghost function State(): Option<seq<u8>>
      reads this
    {
      if flags == 0 then Some(contents) else None
    }

    constructor (output: array<u32>, base: nat, capacity: nat)
      requires capacity % 4 == 0 && base + capacity / 4 <= output.Length
      ensures Valid() && State() == Some([]) && fresh(this)
      ensures this.output == output && this.base == base && this.capacity == capacity && before == output[..]
    {
      this.output, this.base, this.capacity := output, base, capacity;
      cursor, flags, pending := 0, 0, 0;
      contents := [];
      before := output[..];
    }

    method PushByte(byte: u8)
      requires Valid()
      modifies this, output
      ensures Valid() && State() == Append(old(State()), [byte], capacity)
    {
      if flags != 0 {
        return;
      }
      if cursor >= capacity {
        flags := RESPONSE_FLAG_OUTPUT_OVERFLOW;
        return;
      }
      ghost var words, last := output[..], pending;
      ghost var t, slot, end := Tail(contents), base + cursor / 4, base + capacity / 4;
      PendingPosition(contents, capacity);
      pending := PlaceByte(pending, byte, cursor, t);
      ghost var placed := pending;
      var completed;
      cursor, completed := Advance(cursor, base);
      if completed.Some? {
        OnlyOneMore(before, words, base, end, slot, placed);
        StoreWord(output, completed.value, pending);
        pending := 0;
      }
      ByteStep(words, base, contents, last, byte, placed, output[..], pending, slot);
      contents := contents + [byte];
    }

    method PushWord(word: u32)
      requires Valid()
      modifies this, output
      ensures Valid() && State() == Append(old(State()), WordBytes(word), capacity)
    {
      if flags != 0 {
        return;
      }
      if capacity - cursor < 4 {
        flags := RESPONSE_FLAG_OUTPUT_OVERFLOW;
        return;
      }
      ghost var words, last := output[..], pending;
      ghost var b, t, end := WordBytes(word), Tail(contents), base + capacity / 4;
      var k, slot := cursor % 4, base + cursor / 4;
      PendingPosition(contents, capacity);
      var placed, rest := SplitWord(pending, word, k, t, b);
      StoreWord(output, slot, placed);
      OnlyOneMore(before, words, base, end, slot, placed);
      WordStep(words, base, contents, last, b, placed, rest, slot);
      cursor := cursor + 4;
      pending := rest;
      contents := contents + b;
    }

    /** `writer_push_string` and `writer_push_request_range`: bytes at any position of packed words,
        four at a time and then one by one. */
    method PushPacked(words: seq<u32>, start: nat, len: nat, ghost s: seq<u8>)
      requires Valid() && HoldsBytes(words, start, s) && |s| == len
      modifies this, output
      ensures Valid() && State() == Append(old(State()), s, capacity)
    {
      ghost var start' := State();
      AppendEnds(start', s, capacity);
      var index := 0;
      while len - index >= 4
        invariant index <= len && Valid() && State() == Append(start', s[..index], capacity)
      {
        LoadedBytes(words, start, s, index);
        AppendPiece(start', s, index, index + 4, s[index..index + 4], capacity);
        PushWord(LoadWord(words, start + index));
        index := index + 4;
      }
      while index < len
        invariant index <= len && Valid() && State() == Append(start', s[..index], capacity)
      {
        LoadedByte(words, start, s, index);
        AppendPiece(start', s, index, index + 1, s[index..index + 1], capacity);
        PushByte(LoadByte(words, start + index));
        index := index + 1;
      }
    }

    /** The digits of a number, the highest first. */
    method PushDecimal(value: u32)
      requires Valid()
      modifies this, output
      ensures Valid() && State() == Append(old(State()), Decimal(value), capacity)
    {
      var divisor, k := LeadingDivisor(value);
      ghost var start := State();
      AppendEnds(start, [], capacity);
      while true
        invariant divisor == Pow10(k) && Valid() && (k > 0 ==> DropDigits(value, k) > 0)
        invariant State() == Append(start, HigherDigits(value, k), capacity)
        decreases divisor
      {
        DropDigitsIs(value, k, divisor);
        NextDigit(start, value, k, capacity);
        PushByte(48 + value / divisor % 10);
        if divisor == 1 {
          Pow10IsOne(k);
          break;
        }
        k := k - 1;
        divisor := divisor / 10;
      }
    }

    /** Stores the last, partial word; a response that overflowed is reported as a failure. */
    method Finish(status: u32) returns (meta: ResponseMeta)
      requires Valid()
      modifies output
      ensures Only(before, output[..], base, base + capacity / 4)
      ensures State().Some? ==>
                HoldsBytes(output[..], 4 * base, contents) && meta == ResponseMeta(|contents|, status, 0)
      ensures State().None? ==> meta == ResponseMeta(0, 500, flags) && flags != 0
    {
      if flags != 0 {
        return ResponseMeta(0, 500, flags);
      }
      ghost var words := output[..];
      if cursor % 4 != 0 {
        RoomForWord(cursor, capacity);
        OnlyOneMore(before, words, base, base + capacity / 4, base + cursor / 4, pending);
        StoreWord(output, base + cursor / 4, pending);
      }
      BufferedHolds(words, base, contents, pending, output[..]);
      return ResponseMeta(cursor, status, 0);
    }
  }
}
