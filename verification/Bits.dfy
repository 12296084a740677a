/** Machine integers as bounded mathematical integers, and the bit operations that
    the shaders and the host code apply to them.  `&`, `|` and `^` are defined bit by
    bit; the lemmas say when they coincide with arithmetic. */
module Bits {

  type u8 = x: int | 0 <= x < 0x100
  type u16 = x: int | 0 <= x < 0x1_0000
  type u32 = x: int | 0 <= x < 0x1_0000_0000

  datatype Option<+T> = None | Some(value: T)

  /** Wrapping u32 arithmetic. */
  function Add32(a: int, b: int): u32 {
    (a + b) % 0x1_0000_0000
  }

  function Sub32(a: int, b: int): u32 {
    (a - b) % 0x1_0000_0000
  }

  /** Big-endian composition of bytes. */
  function Be16(b1: int, b0: int): int {
    0x100 * b1 + b0
  }

  function Be32(b3: int, b2: int, b1: int, b0: int): int {
    0x100_0000 * b3 + 0x1_0000 * b2 + 0x100 * b1 + b0
  }

  function Pow2(k: nat): (p: nat)
    ensures p > 0
  {
    if k == 0 then 1 else 2 * Pow2(k - 1)
  }

  /** The value of a byte position inside a word: 256 to the power k. */
  function Pow256(k: nat): (p: nat)
    requires k <= 4
    ensures p > 0
  {
    if k == 0 then 1
    else if k == 1 then 0x100
    else if k == 2 then 0x1_0000
    else if k == 3 then 0x100_0000
    else 0x1_0000_0000
  }

  /** `x << 8*k` on u32: the bits pushed past bit 31 are lost. */
  function ShlBytes(x: u32, k: nat): u32
    requires k <= 3
  {
    if k == 0 then x
    else if k == 1 then x * 0x100 % 0x1_0000_0000
    else if k == 2 then x * 0x1_0000 % 0x1_0000_0000
    else x * 0x100_0000 % 0x1_0000_0000
  }

  /** `x >> 8*k` on u32. */
  function ShrBytes(x: u32, k: nat): u32
    requires k <= 3
  {
    if k == 0 then x
    else if k == 1 then x / 0x100
    else if k == 2 then x / 0x1_0000
    else x / 0x100_0000
  }

  function And(a: nat, b: nat): nat {
    if a == 0 || b == 0 then 0
    else 2 * And(a / 2, b / 2) + (if a % 2 == 1 && b % 2 == 1 then 1 else 0)
  }

  function Or(a: nat, b: nat): nat
    decreases a + b
  {
    if a == 0 then b
    else if b == 0 then a
    else 2 * Or(a / 2, b / 2) + (if a % 2 == 1 || b % 2 == 1 then 1 else 0)
  }

  function Xor(a: nat, b: nat): nat
    decreases a + b
  {
    if a == 0 then b
    else if b == 0 then a
    else 2 * Xor(a / 2, b / 2) + (if a % 2 != b % 2 then 1 else 0)
  }

  /** `flags & bit != 0` for a single-bit mask. */
  predicate HasFlag(flags: u8, bit: u8)
    requires bit > 0
  {
    flags / bit % 2 == 1
  }

  lemma HalfAndBit(x: nat, a: nat, s: nat)
    requires s <= 1 && x == 2 * a + s
    ensures x / 2 == a && x % 2 == s
  {
  }

  /** The lowest bit and the others. */
  lemma XorLowest(x: nat, y: nat, a: nat, s: nat, b: nat, t: nat)
    requires s <= 1 && t <= 1 && x == 2 * a + s && y == 2 * b + t
    ensures Xor(x, y) == 2 * Xor(a, b) + (if s == t then 0 else 1)
  {
    HalfAndBit(x, a, s);
    HalfAndBit(y, b, t);
  }

  lemma {:induction false} XorSelf(a: nat)
    ensures Xor(a, a) == 0
  {
    if a != 0 {
      XorSelf(a / 2);
    }
  }

  /** Exclusive or with the same number twice changes nothing. */
  lemma {:induction false} XorTwice(a: nat, b: nat)
    ensures Xor(a, Xor(a, b)) == b
    decreases a + b
  {
    if a != 0 && b != 0 {
      var h, k := Xor(a / 2, b / 2), if a % 2 == b % 2 then 0 else 1;
      XorTwice(a / 2, b / 2);
      XorLowest(a, b, a / 2, a % 2, b / 2, b % 2);
      XorLowest(a, 2 * h + k, a / 2, a % 2, h, k);
    } else if a != 0 {
      XorSelf(a);
    }
  }

  /** Masking with 2^k - 1 keeps the remainder modulo 2^k. */
  lemma {:induction false} AndMask(x: nat, k: nat)
    ensures And(x, Pow2(k) - 1) == x % Pow2(k)
  {
    if k == 0 || x == 0 {
      ZeroMod(Pow2(k));
    } else {
      var m := Pow2(k - 1);
      AndMask(x / 2, k - 1);
      AndOdd(x, m);
      DoubleMod(x, m);
    }
  }

  lemma {:induction false} AndBound(x: nat, m: nat)
    ensures And(x, m) <= m
  {
    if x > 0 && m > 0 {
      AndBound(x / 2, m / 2);
    }
  }

  lemma ZeroMod(m: nat)
    requires m > 0
    ensures 0 % m == 0
  {
  }

  lemma AndOdd(x: nat, m: nat)
    requires m > 0
    ensures And(x, 2 * m - 1) == 2 * And(x / 2, m - 1) + x % 2
  {
    assert (2 * m - 1) / 2 == m - 1;
  }

  lemma DoubleMod(x: nat, m: nat)
    requires m > 0
    ensures x % (2 * m) == 2 * (x / 2 % m) + x % 2
  {
    var q, r := x / 2 / m, x / 2 % m;
    assert x == 2 * m * q + (2 * r + x % 2);
    DivModUnique(x, 2 * m, q, 2 * r + x % 2);
  }

  lemma MulMonotone(d: int, a: int, b: int)
    requires d >= 0 && a <= b
    ensures d * a <= d * b
  {
    assert d * (b - a) >= 0;
  }

  lemma DivModUnique(x: int, d: int, q: int, r: int)
    requires d > 0 && x == d * q + r && 0 <= r < d
    ensures x / d == q && x % d == r
  {
    var q', r' := x / d, x % d;
    assert d * q' + r' == d * q + r && 0 <= r' < d;
    if q' < q {
      MulMonotone(d, q' + 1, q);
    } else if q < q' {
      MulMonotone(d, q + 1, q');
    }
  }

  /** Values on disjoint bit ranges are added by `|`. */
  lemma {:induction false} OrDisjoint(high: nat, low: nat, k: nat)
    requires high % Pow2(k) == 0 && low < Pow2(k)
    ensures Or(high, low) == high + low
    ensures Or(low, high) == high + low
  {
    if k > 0 && high > 0 && low > 0 {
      var m := Pow2(k - 1);
      DoubleMod(high, m);
      OrDisjoint(high / 2, low / 2, k - 1);
    }
  }

  /** `|` on byte-aligned disjoint ranges. */
  lemma OrBytes(high: nat, low: nat, k: nat)
    requires k <= 3 && high % Pow256(k) == 0 && low < Pow256(k)
    ensures Or(high, low) == high + low
    ensures Or(low, high) == high + low
  {
    assert Pow2(8) == 0x100 && Pow2(16) == 0x1_0000 && Pow2(24) == 0x100_0000;
    OrDisjoint(high, low, 8 * k);
  }

  lemma {:induction false} OrBound(a: nat, b: nat, k: nat)
    requires a < Pow2(k) && b < Pow2(k)
    ensures Or(a, b) < Pow2(k)
  {
    if a > 0 && b > 0 {
      OrBound(a / 2, b / 2, k - 1);
    }
  }

  lemma {:induction false} XorBound(a: nat, b: nat, k: nat)
    requires a < Pow2(k) && b < Pow2(k)
    ensures Xor(a, b) < Pow2(k)
  {
    if a > 0 && b > 0 {
      XorBound(a / 2, b / 2, k - 1);
    }
  }

  /** Some shift below n brings any number to any remainder. */
  lemma ShiftRemainder(h: int, n: nat, i: nat) returns (q: nat)
    requires i < n
    ensures q < n && (h + q) % n == i
  {
    var m := (i - h) / n;
    q := (i - h) % n;
    MulNegates(n, m);
    DivModUnique(h + q, n, -m, i);
  }

  /** A shift by less than n changes the remainder. */
  lemma ShiftedRemainderDiffers(x: int, n: nat, d: nat)
    requires 0 < d < n
    ensures x % n != (x + d) % n
  {
    var a, r := x / n, x % n;
    if r + d < n {
      DivModUnique(x + d, n, a, r + d);
    } else {
      MulDistributes(n, a, 1);
      DivModUnique(x + d, n, a + 1, r + d - n);
    }
  }

  /** Wrapping early or late makes no difference. */
  lemma WrapAdd(x: int, n: int)
    ensures Add32(x % 0x1_0000_0000, n) == (x + n) % 0x1_0000_0000
  {
    var q, r := x / 0x1_0000_0000, x % 0x1_0000_0000;
    var s, t := (r + n) / 0x1_0000_0000, (r + n) % 0x1_0000_0000;
    DivModUnique(x + n, 0x1_0000_0000, q + s, t);
  }

  lemma MulNegates(a: int, b: int)
    ensures a * -b == -(a * b)
  {
  }

  lemma ModOfMod(x: nat, m: nat, c: nat)
    requires m > 0 && m * c > 0
    ensures x % (m * c) % m == x % m
  {
    var d := m * c;
    var q, r := x / d, x % d;
    var s, t := r / m, r % m;
    MulAssociates(m, c, q);
    assert x == d * q + (m * s + t);
    MulDistributes(m, c * q, s);
    DivModUnique(x, m, c * q + s, t);
  }

  lemma MulAssociates(a: int, b: int, c: int)
    ensures a * b * c == a * (b * c)
  {
  }

  lemma MulDistributes(a: int, b: int, c: int)
    ensures a * (b + c) == a * b + a * c
  {
  }

  lemma Pow2Of32()
    ensures Pow2(32) == 0x1_0000_0000
  {
    assert Pow2(8) == 0x100;
    assert Pow2(16) == 0x1_0000;
    assert Pow2(24) == 0x100_0000;
  }

  /** A power of two no larger than 2^32 divides the wrap-around of u32 addition. */
  lemma WrapKeepsRemainder(x: nat, k: nat)
    requires k <= 32
    ensures x % 0x1_0000_0000 % Pow2(k) == x % Pow2(k)
  {
    Pow2Of32();
    Pow2Adds(k, 32 - k);
    ModOfMod(x, Pow2(k), Pow2(32 - k));
  }

  lemma {:induction false} Pow2Adds(a: nat, b: nat)
    ensures Pow2(a) * Pow2(b) == Pow2(a + b)
  {
    if a > 0 {
      Pow2Adds(a - 1, b);
      MulAssociates(2, Pow2(a - 1), Pow2(b));
    }
  }
}
