/** The Internet checksum (section 1 of RFC 1071) as the host computes it
    (src/packet/wire.rs:165-201) and as the shader folds it (src/packet/packet.wgsl:195-204). */
module Checksum {
  import opened Bits

  /** The sum of the big-endian 16-bit words, an odd last byte padded with zero. */
  function SumPairs(bytes: seq<u8>): nat {
    if |bytes| == 0 then 0
    else if |bytes| == 1 then bytes[0] * 0x100
    else bytes[0] * 0x100 + bytes[1] + SumPairs(bytes[2..])
  }

  /** The one's-complement 16-bit representative of a sum. */
  function Fold(sum: nat): u16 {
    if sum == 0 then 0 else (sum - 1) % 0xffff + 1
  }

  /** The checksum field that makes a region with this sum valid. */
  function Complement(sum: nat): u16 {
    0xffff - Fold(sum)
  }

  lemma {:induction false} SumPairsBound(bytes: seq<u8>)
    ensures SumPairs(bytes) <= (|bytes| + 1) / 2 * 0xffff
  {
    if |bytes| >= 2 {
      SumPairsBound(bytes[2..]);
    }
  }

  lemma {:induction false} SumPairsConcat(a: seq<u8>, b: seq<u8>)
    requires |a| % 2 == 0
    ensures SumPairs(a + b) == SumPairs(a) + SumPairs(b)
  {
    if a == [] {
      assert a + b == b;
    } else {
      assert (a + b)[2..] == a[2..] + b;
      SumPairsConcat(a[2..], b);
    }
  }

  function WordAt(s: seq<u8>, i: nat): nat
    requires i + 1 < |s|
  {
    Be16(s[i], s[i + 1])
  }

  lemma SumStep(s: seq<u8>, i: nat)
    requires i + 1 < |s|
    ensures SumPairs(s[i..]) == WordAt(s, i) + SumPairs(s[i + 2..])
  {
    assert s[i..][2..] == s[i + 2..];
  }

  /** A 20-byte header is ten words. */
  lemma SumTwenty(s: seq<u8>)
    requires |s| == 20
    ensures SumPairs(s) == WordAt(s, 0) + WordAt(s, 2) + WordAt(s, 4) + WordAt(s, 6) + WordAt(s, 8)
                           + WordAt(s, 10) + WordAt(s, 12) + WordAt(s, 14) + WordAt(s, 16) + WordAt(s, 18)
  {
    assert s[0..] == s;
    SumStep(s, 0); SumStep(s, 2); SumStep(s, 4); SumStep(s, 6); SumStep(s, 8);
    SumStep(s, 10); SumStep(s, 12); SumStep(s, 14); SumStep(s, 16); SumStep(s, 18);
  }

  // ----- what the sum means

  /** The number the bytes denote, the most significant byte first. */
  function BigEndian(bytes: seq<u8>): nat {
    if bytes == [] then 0 else 0x100 * BigEndian(bytes[..|bytes| - 1]) + bytes[|bytes| - 1]
  }

  /** Padded on the right to an even length. */
  function Padded(bytes: seq<u8>): (p: seq<u8>)
    ensures |p| % 2 == 0
  {
    if |bytes| % 2 == 0 then bytes else bytes + [0]
  }

  lemma BigEndianPair(front: seq<u8>, high: u8, low: u8)
    ensures BigEndian(front + [high, low]) == 0x1_0000 * BigEndian(front) + Be16(high, low)
  {
    var all := front + [high, low];
    assert all[..|all| - 1] == front + [high];
    assert (front + [high])[..|front|] == front;
  }

  lemma SumOfPair(front: seq<u8>, high: u8, low: u8)
    requires |front| % 2 == 0
    ensures SumPairs(front + [high, low]) == SumPairs(front) + Be16(high, low)
  {
    SumPairsConcat(front, [high, low]);
    assert [high, low][2..] == [];
  }

  /** Modulo 0xffff a word's place in a number does not matter. */
  lemma PlacesVanish(n: nat, sum: nat, word: nat)
    requires n % 0xffff == sum % 0xffff
    ensures (0x1_0000 * n + word) % 0xffff == (sum + word) % 0xffff
  {
    var a, b := n / 0xffff, sum / 0xffff;
    var rest := sum % 0xffff + word;
    var q, r := rest / 0xffff, rest % 0xffff;
    assert sum + word == 0xffff * (b + q) + r;
    assert 0x1_0000 * n + word == 0xffff * (n + a + q) + r;
    DivModUnique(sum + word, 0xffff, b + q, r);
    DivModUnique(0x1_0000 * n + word, 0xffff, n + a + q, r);
  }

  lemma {:induction false} EvenSumIsNumber(bytes: seq<u8>)
    requires |bytes| % 2 == 0
    ensures SumPairs(bytes) % 0xffff == BigEndian(bytes) % 0xffff
    ensures SumPairs(bytes) == 0 <==> BigEndian(bytes) == 0
  {
    if bytes != [] {
      var n := |bytes| - 2;
      var front, high, low := bytes[..n], bytes[n], bytes[n + 1];
      EvenSumIsNumber(front);
      assert bytes == front + [high, low];
      SumOfPair(front, high, low);
      BigEndianPair(front, high, low);
      PlacesVanish(BigEndian(front), SumPairs(front), Be16(high, low));
    }
  }

  /** An odd last byte counts as the high half of a word. */
  lemma {:induction false} OddSumIsPadded(bytes: seq<u8>)
    ensures SumPairs(bytes) == SumPairs(Padded(bytes))
  {
    if |bytes| % 2 == 1 {
      var front, last := bytes[..|bytes| - 1], [bytes[|bytes| - 1]];
      SumPairsConcat(front, last);
      SumPairsConcat(front, last + [0]);
      assert front + last == bytes;
      assert front + (last + [0]) == bytes + [0];
      assert SumPairs((last + [0])[2..]) == 0;
    }
  }

  /** The sum of a region is, modulo 0xffff, the number its bytes denote when padded on the right
      to whole words. */
  lemma SumIsNumber(bytes: seq<u8>)
    ensures SumPairs(bytes) % 0xffff == BigEndian(Padded(bytes)) % 0xffff
    ensures SumPairs(bytes) == 0 <==> BigEndian(Padded(bytes)) == 0
  {
    OddSumIsPadded(bytes);
    EvenSumIsNumber(Padded(bytes));
  }

  /** A checksum comes out as zero exactly for a positive multiple of 0xffff. */
  lemma ZeroExactly(sum: nat)
    ensures Complement(sum) == 0 <==> sum > 0 && sum % 0xffff == 0
  {
    if sum > 0 {
      var q, r := sum / 0xffff, sum % 0xffff;
      if r == 0 {
        DivModUnique(sum - 1, 0xffff, q - 1, 0xfffe);
      } else {
        DivModUnique(sum - 1, 0xffff, q, r - 1);
      }
    }
  }

  /** The bytes, padded to whole words, denote a positive multiple of 0xffff: what a receiver checks. */
  predicate ChecksumHolds(bytes: seq<u8>) {
    var n := BigEndian(Padded(bytes));
    n > 0 && n % 0xffff == 0
  }

  lemma HoldsExactly(bytes: seq<u8>)
    ensures Complement(SumPairs(bytes)) == 0 <==> ChecksumHolds(bytes)
  {
    SumIsNumber(bytes);
    ZeroExactly(SumPairs(bytes));
  }

  /** Filling the checksum field with the complement makes the whole sum fold to all ones. */
  lemma ComplementValidates(sum: nat)
    requires sum > 0
    ensures Fold(sum + Complement(sum)) == 0xffff
  {
    var q := (sum - 1) / 0xffff;
    assert sum + Complement(sum) == 0xffff * q + 0xffff;
    DivModUnique(sum + Complement(sum) - 1, 0xffff, q, 0xfffe);
  }

  lemma FilledFieldValidates(sum: nat, filled: nat)
    requires sum > 0 && filled == sum + Complement(sum)
    ensures Complement(filled) == 0
  {
    ComplementValidates(sum);
  }

  lemma FoldStep(sum: nat)
    requires sum >= 0x1_0000
    ensures Fold(sum % 0x1_0000 + sum / 0x1_0000) == Fold(sum)
    ensures 0 < sum % 0x1_0000 + sum / 0x1_0000 < sum
  {
    var q, r := sum / 0x1_0000, sum % 0x1_0000;
    var once := r + q;
    var k := (once - 1) / 0xffff;
    assert sum - 1 == 0xffff * (q + k) + (once - 1) % 0xffff;
    DivModUnique(sum - 1, 0xffff, q + k, (once - 1) % 0xffff);
  }

  /** The host folds until the high half is empty. */
  method FoldChecksum(start: u32) returns (c: u16)
    ensures c == Complement(start)
  {
    var sum: u32 := start;
    while sum / 0x1_0000 != 0
      invariant Fold(sum) == Fold(start)
      decreases sum
    {
      FoldStep(sum);
      sum := sum % 0x1_0000 + sum / 0x1_0000;
    }
    c := 0xffff - sum;
  }

  /** `(sum & 0xffff) + (sum >> 16)` */
  method FoldOnce(sum: u32) returns (folded: u32)
    ensures Fold(folded) == Fold(sum) && (folded == 0 <==> sum == 0)
    ensures sum <= 0x1_fffe ==> folded <= 0xffff
    ensures folded <= 0x1_fffe
  {
    if sum >= 0x1_0000 { FoldStep(sum); }
    folded := sum % 0x1_0000 + sum / 0x1_0000;
  }

  /** The shader folds exactly twice; on u32 that is always enough. */
  method ShaderFold(start: u32) returns (c: u16)
    ensures c == Complement(start)
  {
    var sum := FoldOnce(start);
    sum := FoldOnce(sum);
    c := 0xffff - sum;
  }

  /** The running byte-pair sum over chunks of two, with no u32 overflow on packet-sized input. */
  method SumChunks(bytes: seq<u8>, start: u32, skip: int) returns (sum: u32)
    requires start <= 0xf_ffff && |bytes| <= 0x1_0000
    requires skip >= 0 ==> 2 * skip + 1 < |bytes|
    ensures sum == start + SumPairs(bytes) - (if skip >= 0 then WordAt(bytes, 2 * skip) else 0)
  {
    sum := start;
    var index := 0;
    SumPairsBound(bytes);
    assert bytes[0..] == bytes;
    while 2 * index < |bytes|
      invariant 0 <= 2 * index <= |bytes| + 1
      invariant sum <= start + 0xffff * index
      invariant 2 * index <= |bytes| ==>
        sum + SumPairs(bytes[2 * index..]) ==
          start + SumPairs(bytes) - (if 0 <= skip < index then WordAt(bytes, 2 * skip) else 0)
      invariant 2 * index > |bytes| ==>
        sum == start + SumPairs(bytes) - (if skip >= 0 then WordAt(bytes, 2 * skip) else 0)
    {
      if 2 * index + 1 < |bytes| {
        SumStep(bytes, 2 * index);
      }
      if skip != index {
        var high: nat := Be16(bytes[2 * index], 0);
        var low: nat := if 2 * index + 1 < |bytes| then bytes[2 * index + 1] else 0;
        sum := sum + (high + low);
      }
      index := index + 1;
    }
  }
}
