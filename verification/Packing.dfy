/** Bytes packed little-endian into u32 words: the packing loops of the host
    (src/packet/mod.rs:1071-1077, src/processor/shader_strings.rs:139-149) and the byte and
    word loads of the shaders (src/packet/packet.wgsl:55-75, src/processor/http.wgsl:96-130). */
module Packing {
  import opened Bits

  /** `(word >> 8*k) & 0xff` */
  function ByteOf(word: u32, k: nat): u8
    requires k <= 3
  {
    ShrBytes(word, k) % 0x100
  }

  /** The word of up to four bytes, the first one lowest. */
  function LeWord(b: seq<u8>): u32
    requires |b| <= 4
  {
    LeSum(ByteOrZero(b, 0), ByteOrZero(b, 1), ByteOrZero(b, 2), ByteOrZero(b, 3))
  }

  function ByteOrZero(b: seq<u8>, k: nat): u8 {
    if k < |b| then b[k] else 0
  }

  function LeSum(b0: u8, b1: u8, b2: u8, b3: u8): u32 {
    Be32(b3, b2, b1, b0)
  }

  lemma LeSumByte0(b0: u8, b1: u8, b2: u8, b3: u8)
    ensures ByteOf(LeSum(b0, b1, b2, b3), 0) == b0
  {
    DivModUnique(LeSum(b0, b1, b2, b3), 0x100, Be32(0, b3, b2, b1), b0);
  }

  lemma LeSumByte1(b0: u8, b1: u8, b2: u8, b3: u8)
    ensures ByteOf(LeSum(b0, b1, b2, b3), 1) == b1
  {
    DivModUnique(LeSum(b0, b1, b2, b3), 0x100, Be32(0, b3, b2, b1), b0);
    DivModUnique(Be32(0, b3, b2, b1), 0x100, Be16(b3, b2), b1);
  }

  lemma LeSumByte2(b0: u8, b1: u8, b2: u8, b3: u8)
    ensures ByteOf(LeSum(b0, b1, b2, b3), 2) == b2
  {
    DivModUnique(LeSum(b0, b1, b2, b3), 0x1_0000, Be16(b3, b2), Be16(b1, b0));
    DivModUnique(Be16(b3, b2), 0x100, b3, b2);
  }

  lemma LeSumByte3(b0: u8, b1: u8, b2: u8, b3: u8)
    ensures ByteOf(LeSum(b0, b1, b2, b3), 3) == b3
  {
    DivModUnique(LeSum(b0, b1, b2, b3), 0x100_0000, b3, Be32(0, b2, b1, b0));
    DivModUnique(b3, 0x100, 0, b3);
  }

  lemma ByteOfLeSum(b0: u8, b1: u8, b2: u8, b3: u8)
    ensures ByteOf(LeSum(b0, b1, b2, b3), 0) == b0
    ensures ByteOf(LeSum(b0, b1, b2, b3), 1) == b1
    ensures ByteOf(LeSum(b0, b1, b2, b3), 2) == b2
    ensures ByteOf(LeSum(b0, b1, b2, b3), 3) == b3
  {
    LeSumByte0(b0, b1, b2, b3);
    LeSumByte1(b0, b1, b2, b3);
    LeSumByte2(b0, b1, b2, b3);
    LeSumByte3(b0, b1, b2, b3);
  }

  /** A word is the sum of its bytes. */
  lemma WordOfBytes(w: u32)
    ensures w == LeSum(ByteOf(w, 0), ByteOf(w, 1), ByteOf(w, 2), ByteOf(w, 3))
  {
    assert w / 0x100 == 0x100 * (w / 0x1_0000) + w / 0x100 % 0x100;
    assert w / 0x1_0000 == 0x100 * (w / 0x100_0000) + w / 0x1_0000 % 0x100;
  }

  /** Words are equal when their bytes are. */
  lemma SameBytesSameWord(v: u32, w: u32)
    requires forall k :: 0 <= k < 4 ==> ByteOf(v, k) == ByteOf(w, k)
    ensures v == w
  {
    WordOfBytes(v);
    WordOfBytes(w);
    assert ByteOf(v, 0) == ByteOf(w, 0) && ByteOf(v, 1) == ByteOf(w, 1);
    assert ByteOf(v, 2) == ByteOf(w, 2) && ByteOf(v, 3) == ByteOf(w, 3);
  }

  // ----- splitting and joining at a byte boundary

  lemma ShrWord(b0: u8, b1: u8, b2: u8, b3: u8, k: nat)
    requires k <= 3
    ensures ShrBytes(LeSum(b0, b1, b2, b3), k) ==
              if k == 0 then LeSum(b0, b1, b2, b3)
              else if k == 1 then LeSum(b1, b2, b3, 0)
              else if k == 2 then LeSum(b2, b3, 0, 0)
              else LeSum(b3, 0, 0, 0)
  {
    if k == 1 {
      DivModUnique(LeSum(b0, b1, b2, b3), 0x100, LeSum(b1, b2, b3, 0), b0);
    } else if k == 2 {
      DivModUnique(LeSum(b0, b1, b2, b3), 0x1_0000, LeSum(b2, b3, 0, 0), Be16(b1, b0));
    } else if k == 3 {
      DivModUnique(LeSum(b0, b1, b2, b3), 0x100_0000, LeSum(b3, 0, 0, 0), Be32(0, b2, b1, b0));
    }
  }

  lemma ShlWord(b0: u8, b1: u8, b2: u8, b3: u8, k: nat)
    requires k <= 3
    ensures ShlBytes(LeSum(b0, b1, b2, b3), k) ==
              if k == 0 then LeSum(b0, b1, b2, b3)
              else if k == 1 then LeSum(0, b0, b1, b2)
              else if k == 2 then LeSum(0, 0, b0, b1)
              else LeSum(0, 0, 0, b0)
  {
    if k == 1 {
      DivModUnique(LeSum(b0, b1, b2, b3) * 0x100, 0x1_0000_0000, b3, LeSum(0, b0, b1, b2));
    } else if k == 2 {
      DivModUnique(LeSum(b0, b1, b2, b3) * 0x1_0000, 0x1_0000_0000, Be16(b3, b2), LeSum(0, 0, b0, b1));
    } else if k == 3 {
      DivModUnique(LeSum(b0, b1, b2, b3) * 0x100_0000, 0x1_0000_0000, Be32(0, b3, b2, b1), LeSum(0, 0, 0, b0));
    }
  }

  /** `|` puts together words that meet at a byte boundary. */
  lemma OrWord1(b0: u8, b1: u8, b2: u8, b3: u8)
    ensures Or(LeSum(b0, 0, 0, 0), LeSum(0, b1, b2, b3)) == LeSum(b0, b1, b2, b3)
    ensures Or(LeSum(0, b1, b2, b3), LeSum(b0, 0, 0, 0)) == LeSum(b0, b1, b2, b3)
  {
    DivModUnique(LeSum(0, b1, b2, b3), 0x100, Be32(0, b3, b2, b1), 0);
    OrBytes(LeSum(0, b1, b2, b3), LeSum(b0, 0, 0, 0), 1);
  }

  lemma OrWord2(b0: u8, b1: u8, b2: u8, b3: u8)
    ensures Or(LeSum(b0, b1, 0, 0), LeSum(0, 0, b2, b3)) == LeSum(b0, b1, b2, b3)
    ensures Or(LeSum(0, 0, b2, b3), LeSum(b0, b1, 0, 0)) == LeSum(b0, b1, b2, b3)
  {
    DivModUnique(LeSum(0, 0, b2, b3), 0x1_0000, Be16(b3, b2), 0);
    OrBytes(LeSum(0, 0, b2, b3), LeSum(b0, b1, 0, 0), 2);
  }

  lemma OrWord3(b0: u8, b1: u8, b2: u8, b3: u8)
    ensures Or(LeSum(b0, b1, b2, 0), LeSum(0, 0, 0, b3)) == LeSum(b0, b1, b2, b3)
    ensures Or(LeSum(0, 0, 0, b3), LeSum(b0, b1, b2, 0)) == LeSum(b0, b1, b2, b3)
  {
    DivModUnique(LeSum(0, 0, 0, b3), 0x100_0000, b3, 0);
    OrBytes(LeSum(0, 0, 0, b3), LeSum(b0, b1, b2, 0), 3);
  }

  // ----- packed byte strings

  /** The packed words of a byte string, the last one padded with zero. */
  function Pack(bytes: seq<u8>): (words: seq<u32>)
    ensures |words| == (|bytes| + 3) / 4
  {
    if bytes == [] then []
    else if |bytes| <= 4 then [LeWord(bytes)]
    else [LeWord(bytes[..4])] + Pack(bytes[4..])
  }

  /** The byte at a byte index of a word array. */
  function LoadByte(words: seq<u32>, index: nat): u8
    requires index / 4 < |words|
  {
    ByteOf(words[index / 4], index % 4)
  }

  predicate HeldAt(words: seq<u32>, start: nat, bytes: seq<u8>, i: nat)
    requires start + |bytes| <= 4 * |words| && i < |bytes|
  {
    LoadByte(words, start + i) == bytes[i]
  }

  /** From byte position `start` on, the words hold these bytes. */
  ghost predicate HoldsBytes(words: seq<u32>, start: nat, bytes: seq<u8>) {
    && start + |bytes| <= 4 * |words|
    && forall i :: 0 <= i < |bytes| ==> HeldAt(words, start, bytes, i)
  }

  lemma LeWordBytes(b: seq<u8>, k: nat)
    requires |b| <= 4 && k <= 3
    ensures ByteOf(LeWord(b), k) == ByteOrZero(b, k)
  {
    ByteOfLeSum(ByteOrZero(b, 0), ByteOrZero(b, 1), ByteOrZero(b, 2), ByteOrZero(b, 3));
  }

  lemma {:induction false} PackHolds(bytes: seq<u8>)
    ensures HoldsBytes(Pack(bytes), 0, bytes)
  {
    forall i | 0 <= i < |bytes| ensures HeldAt(Pack(bytes), 0, bytes, i) {
      PackByte(bytes, i);
    }
  }

  lemma {:induction false} PackByte(bytes: seq<u8>, i: nat)
    requires i < |bytes|
    ensures LoadByte(Pack(bytes), i) == bytes[i]
  {
    if |bytes| <= 4 {
      LeWordBytes(bytes, i);
    } else if i < 4 {
      LeWordBytes(bytes[..4], i);
    } else {
      PackByte(bytes[4..], i - 4);
      assert i / 4 == 1 + (i - 4) / 4 && i % 4 == (i - 4) % 4;
    }
  }

  /** `word = low >> 8k | high << (32 - 8k)`, or the low word itself when aligned. */
  function JoinWords(low: u32, high: u32, k: nat): u32
    requires k <= 3
  {
    if k == 0 then low else OrU32(ShrBytes(low, k), ShlBytes(high, 4 - k))
  }

  /** `|` stays within u32. */
  function OrU32(a: u32, b: u32): u32 {
    Pow2Of32();
    OrBound(a, b, 32);
    Or(a, b)
  }

  lemma JoinedWord(low: u32, high: u32, k: nat)
    requires 1 <= k <= 3
    ensures k == 1 ==>
              JoinWords(low, high, 1) == LeSum(ByteOf(low, 1), ByteOf(low, 2), ByteOf(low, 3), ByteOf(high, 0))
    ensures k == 2 ==>
              JoinWords(low, high, 2) == LeSum(ByteOf(low, 2), ByteOf(low, 3), ByteOf(high, 0), ByteOf(high, 1))
    ensures k == 3 ==>
              JoinWords(low, high, 3) == LeSum(ByteOf(low, 3), ByteOf(high, 0), ByteOf(high, 1), ByteOf(high, 2))
  {
    var l0, l1, l2, l3 := ByteOf(low, 0), ByteOf(low, 1), ByteOf(low, 2), ByteOf(low, 3);
    var h0, h1, h2, h3 := ByteOf(high, 0), ByteOf(high, 1), ByteOf(high, 2), ByteOf(high, 3);
    WordOfBytes(low);
    WordOfBytes(high);
    ShrWord(l0, l1, l2, l3, k);
    ShlWord(h0, h1, h2, h3, 4 - k);
    if k == 1 {
      OrWord3(l1, l2, l3, h0);
    } else if k == 2 {
      OrWord2(l2, l3, h0, h1);
    } else {
      OrWord1(l3, h0, h1, h2);
    }
  }

  /** The word at any byte position. */
  function LoadWord(words: seq<u32>, index: nat): u32
    requires index / 4 < |words| && (index % 4 != 0 ==> index / 4 + 1 < |words|)
  {
    var low := words[index / 4];
    if index % 4 == 0 then low else JoinWords(low, words[index / 4 + 1], index % 4)
  }

  /** An unaligned load reads the four bytes at its position, and only words that hold them. */
  lemma LoadWordIs(words: seq<u32>, start: nat, bytes: seq<u8>, i: nat)
    requires HoldsBytes(words, start, bytes) && i + 4 <= |bytes|
    ensures var p := start + i; p / 4 < |words| && (p % 4 != 0 ==> p / 4 + 1 < |words|)
    ensures LoadWord(words, start + i) == LeWord(bytes[i..i + 4])
  {
    var p := start + i;
    var q, k := p / 4, p % 4;
    assert p + 3 < 4 * |words|;
    FourBytes(words, p);
    assert HeldAt(words, start, bytes, i) && HeldAt(words, start, bytes, i + 1);
    assert HeldAt(words, start, bytes, i + 2) && HeldAt(words, start, bytes, i + 3);
  }

  lemma ByteNear(words: seq<u32>, p: nat, j: nat)
    requires p + j < 4 * |words| && j <= 3
    ensures var q, k := p / 4, p % 4;
            LoadByte(words, p + j) == if k + j <= 3 then ByteOf(words[q], k + j) else ByteOf(words[q + 1], k + j - 4)
  {
    var q, k := p / 4, p % 4;
    if k + j <= 3 {
      DivModUnique(p + j, 4, q, k + j);
    } else {
      DivModUnique(p + j, 4, q + 1, k + j - 4);
    }
  }

  lemma FourBytes(words: seq<u32>, p: nat)
    requires p + 3 < 4 * |words|
    ensures p / 4 < |words| && (p % 4 != 0 ==> p / 4 + 1 < |words|)
    ensures LoadWord(words, p) ==
              LeSum(LoadByte(words, p), LoadByte(words, p + 1), LoadByte(words, p + 2), LoadByte(words, p + 3))
  {
    var q, k := p / 4, p % 4;
    assert p == 4 * q + k;
    ByteNear(words, p, 1);
    ByteNear(words, p, 2);
    ByteNear(words, p, 3);
    if k == 0 {
      WordOfBytes(words[q]);
    } else {
      JoinedWord(words[q], words[q + 1], k);
    }
  }

  // ----- the packing loop

  /** One more byte above the bytes a word already holds. */
  lemma PlaceByte1(b0: u8, x: u8)
    ensures Or(LeSum(b0, 0, 0, 0), LeSum(0, x, 0, 0)) == LeSum(b0, x, 0, 0)
  {
    OrWord1(b0, x, 0, 0);
  }

  lemma PlaceByte2(b0: u8, b1: u8, x: u8)
    ensures Or(LeSum(b0, b1, 0, 0), LeSum(0, 0, x, 0)) == LeSum(b0, b1, x, 0)
  {
    OrWord2(b0, b1, x, 0);
  }

  /** A byte moved to its place in a word. */
  lemma ByteInPlace(x: u8, k: nat)
    requires k <= 3
    ensures ShlBytes(x, k) == (if k == 0 then LeSum(x, 0, 0, 0) else if k == 1 then LeSum(0, x, 0, 0)
                               else if k == 2 then LeSum(0, 0, x, 0) else LeSum(0, 0, 0, x))
  {
    ShlWord(x, 0, 0, 0, k);
  }

  lemma PlaceAt(b0: u8, b1: u8, b2: u8, x: u8, k: nat, v: u32)
    requires k <= 3 && v == ShlBytes(x, k)
    ensures k == 0 ==> Or(0, v) == LeSum(x, 0, 0, 0)
    ensures k == 1 ==> Or(LeSum(b0, 0, 0, 0), v) == LeSum(b0, x, 0, 0)
    ensures k == 2 ==> Or(LeSum(b0, b1, 0, 0), v) == LeSum(b0, b1, x, 0)
    ensures k == 3 ==> Or(LeSum(b0, b1, b2, 0), v) == LeSum(b0, b1, b2, x)
  {
    ByteInPlace(x, k);
    if k == 1 {
      PlaceByte1(b0, x);
    } else if k == 2 {
      PlaceByte2(b0, b1, x);
    } else if k == 3 {
      OrWord3(b0, b1, b2, x);
    }
  }

  lemma AppendByte(b: seq<u8>, x: u8)
    requires |b| <= 3
    ensures OrU32(LeWord(b), ShlBytes(x, |b|)) == LeWord(b + [x])
  {
    PlaceAt(ByteOrZero(b, 0), ByteOrZero(b, 1), ByteOrZero(b, 2), x, |b|, ShlBytes(x, |b|));
  }

  function Min(a: nat, b: nat): nat { if a < b then a else b }

  /** The bytes of the first n that fall into word j. */
  function Chunk(bytes: seq<u8>, n: nat, j: nat): (c: seq<u8>)
    requires n <= |bytes|
    ensures |c| <= 4
  {
    bytes[Min(4 * j, n)..Min(4 * j + 4, n)]
  }

  lemma SliceOfRest<T>(s: seq<T>, n: nat, a: nat, b: nat)
    requires n <= |s| && a <= b <= |s| - n
    ensures s[n..][a..b] == s[n + a..n + b]
  {
  }

  lemma {:induction false} PackWord(bytes: seq<u8>, j: nat)
    requires j < |Pack(bytes)|
    ensures Pack(bytes)[j] == LeWord(Chunk(bytes, |bytes|, j))
  {
    if j == 0 {
      assert |bytes| <= 4 ==> Chunk(bytes, |bytes|, 0) == bytes;
    } else {
      PackWord(bytes[4..], j - 1);
      SliceOfRest(bytes, 4, Min(4 * (j - 1), |bytes| - 4), Min(4 * (j - 1) + 4, |bytes| - 4));
    }
  }

  /** Word j holds its share of the first n bytes. */
  predicate WordIs(words: seq<u32>, bytes: seq<u8>, n: nat, j: nat)
    requires n <= |bytes| && j < |words|
  {
    words[j] == LeWord(Chunk(bytes, n, j))
  }

  ghost predicate PackedUpTo(words: seq<u32>, bytes: seq<u8>, n: nat) {
    && n <= |bytes| && |words| == (|bytes| + 3) / 4
    && forall j :: 0 <= j < |words| ==> WordIs(words, bytes, n, j)
  }

  lemma NextChunk(bytes: seq<u8>, n: nat, j: nat)
    requires n < |bytes|
    ensures Chunk(bytes, n + 1, j) == (if j == n / 4 then Chunk(bytes, n, j) + [bytes[n]] else Chunk(bytes, n, j))
    ensures j == n / 4 ==> |Chunk(bytes, n, j)| == n % 4
  {
  }

  lemma PackWordStep(words: seq<u32>, bytes: seq<u8>, n: nat, m: nat, next: u32, j: nat)
    requires m == n + 1 <= |bytes| && n / 4 < |words| && j < |words|
    requires WordIs(words, bytes, n, j) && next == LeWord(Chunk(bytes, m, n / 4))
    ensures WordIs(words[n / 4 := next], bytes, m, j)
  {
    NextChunk(bytes, n, j);
  }

  lemma PackStep(words: seq<u32>, bytes: seq<u8>, n: nat, next: u32)
    requires PackedUpTo(words, bytes, n) && n < |bytes|
    requires next == LeWord(Chunk(bytes, n + 1, n / 4))
    ensures PackedUpTo(words[n / 4 := next], bytes, n + 1)
  {
    var words', m := words[n / 4 := next], n + 1;
    forall j | 0 <= j < |words'| ensures WordIs(words', bytes, m, j) {
      PackWordStep(words, bytes, n, m, next, j);
    }
  }

  /** The byte ORed into its word. */
  lemma PlacedWord(words: seq<u32>, bytes: seq<u8>, n: nat)
    requires PackedUpTo(words, bytes, n) && n < |bytes|
    ensures OrU32(words[n / 4], ShlBytes(bytes[n], n % 4)) == LeWord(Chunk(bytes, n + 1, n / 4))
  {
    NextChunk(bytes, n, n / 4);
    assert WordIs(words, bytes, n, n / 4);
    AppendByte(Chunk(bytes, n, n / 4), bytes[n]);
  }

  lemma PackedIsPack(words: seq<u32>, bytes: seq<u8>)
    requires PackedUpTo(words, bytes, |bytes|)
    ensures words == Pack(bytes)
  {
    forall j | 0 <= j < |words| ensures words[j] == Pack(bytes)[j] {
      assert WordIs(words, bytes, |bytes|, j);
      PackWord(bytes, j);
    }
  }

  lemma NothingPacked(words: seq<u32>, bytes: seq<u8>)
    requires |words| == (|bytes| + 3) / 4 && forall j :: 0 <= j < |words| ==> words[j] == 0
    ensures PackedUpTo(words, bytes, 0)
  {
  }

  /** The host's packing loop: every byte is ORed into its word. */
  method PackBytes(bytes: seq<u8>) returns (packed: seq<u32>)
    ensures packed == Pack(bytes)
  {
    var words := new u32[(|bytes| + 3) / 4](_ => 0);
    var index := 0;
    NothingPacked(words[..], bytes);
    while index < |bytes|
      invariant 0 <= index <= |bytes|
      invariant PackedUpTo(words[..], bytes, index)
    {
      ghost var before := words[..];
      var placed := OrU32(words[index / 4], ShlBytes(bytes[index], index % 4));
      assert placed == LeWord(Chunk(bytes, index + 1, index / 4)) by { PlacedWord(before, bytes, index); }
      PackStep(before, bytes, index, placed);
      words[index / 4] := placed;
      assert words[..] == before[index / 4 := placed];
      index := index + 1;
    }
    packed := words[..];
    PackedIsPack(packed, bytes);
  }

  /** The bytes of the words from a byte position on. */
  function BytesAt(words: seq<u32>, start: nat, len: nat): (b: seq<u8>)
    requires start + len <= 4 * |words|
    ensures |b| == len
  {
    seq<u8>(len, k requires 0 <= k < len => LoadByte(words, start + k))
  }

  lemma HeldBytes(words: seq<u32>, start: nat, bytes: seq<u8>)
    requires HoldsBytes(words, start, bytes)
    ensures BytesAt(words, start, |bytes|) == bytes
  {
    forall k | 0 <= k < |bytes| ensures BytesAt(words, start, |bytes|)[k] == bytes[k] {
      assert HeldAt(words, start, bytes, k);
    }
  }

  // ----- writes confined to a range of words

  /** Nothing outside a range of words has changed. */
  predicate Only(before: seq<u32>, after: seq<u32>, from: nat, to: nat) {
    && from <= to <= |before| == |after|
    && before[..from] == after[..from] && before[to..] == after[to..]
  }

  /** An update inside a slice. */
  lemma UpdateInSlice(before: seq<u32>, i: nat, v: u32, lo: nat, hi: nat)
    requires lo <= i < hi <= |before|
    ensures before[i := v][lo..hi] == before[lo..hi][i - lo := v]
    ensures Only(before, before[i := v], lo, hi)
  {
  }

  /** A slice away from the changes. */
  lemma SliceKept(before: seq<u32>, after: seq<u32>, from: nat, to: nat, lo: nat, hi: nat)
    requires Only(before, after, from, to) && lo <= hi <= |before| && (hi <= from || to <= lo)
    ensures after[lo..hi] == before[lo..hi]
  {
    if hi <= from {
      TakeSlice(before, from, lo, hi);
      TakeSlice(after, from, lo, hi);
    } else {
      SliceOfRest(before, to, lo - to, hi - to);
      SliceOfRest(after, to, lo - to, hi - to);
    }
  }

  lemma TakeSlice(s: seq<u32>, n: nat, lo: nat, hi: nat)
    requires lo <= hi <= n <= |s|
    ensures s[..n][lo..hi] == s[lo..hi]
  {
  }

  lemma OnlyTwice(a: seq<u32>, b: seq<u32>, c: seq<u32>, from: nat, to: nat)
    requires Only(a, b, from, to) && Only(b, c, from, to)
    ensures Only(a, c, from, to)
  {
  }
}
