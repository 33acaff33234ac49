/** Machine words as bounded integers, with the saturating and bitwise operations the source uses. */
module Words {

  const U16_MAX: int := 0xFFFF
  const U32_MAX: int := 0xFFFF_FFFF
  const U64_MAX: int := 0xFFFF_FFFF_FFFF_FFFF

  type u8 = x: int | 0 <= x < 0x100
  type u16 = x: int | 0 <= x < 0x1_0000
  type u32 = x: int | 0 <= x < 0x1_0000_0000
  type u64 = x: int | 0 <= x < 0x1_0000_0000_0000_0000

  function SatSub(a: nat, b: nat): nat {
    if a <= b then 0 else a - b
  }

  function SatAdd64(a: u64, b: u64): u64 {
    if a + b <= U64_MAX then a + b else U64_MAX
  }

  function SatMul64(a: u64, b: u64): u64 {
    if 0 <= a * b <= U64_MAX then a * b else U64_MAX
  }

  function SatMul32(a: u32, b: u32): u32 {
    if 0 <= a * b <= U32_MAX then a * b else U32_MAX
  }

  /** `a - b` in 64 bits. */
  function WrapSub64(a: u64, b: u64): u64 {
    if a >= b then a - b else a - b + 0x1_0000_0000_0000_0000
  }

  /** `a + 1` in 32 bits. */
  function WrapInc32(a: u32): u32 {
    if a == U32_MAX then 0 else a + 1
  }

  function Min(a: int, b: int): int {
    if a <= b then a else b
  }

  function Max(a: int, b: int): int {
    if a >= b then a else b
  }

  function Pow2(n: nat): (r: nat)
    ensures r >= 1
  {
    if n == 0 then 1 else 2 * Pow2(n - 1)
  }

  /** Bitwise AND, one binary digit at a time. */
  function And(a: nat, b: nat): (r: nat)
    ensures r <= a
    decreases a
  {
    if a == 0 || b == 0 then 0
    else 2 * And(a / 2, b / 2) + (if a % 2 == 1 && b % 2 == 1 then 1 else 0)
  }

  lemma MulOrder(x: int, y: int, a: int)
    requires x <= y && 0 <= a
    ensures x * a <= y * a
  {
  }

  lemma DivUnique(x: int, a: int, q: int, r: int)
    requires a > 0 && 0 <= r < a && x == q * a + r
    ensures x / a == q && x % a == r
  {
    var d := x / a - q;
    assert d >= 1 ==> d * a >= a;
    assert d <= -1 ==> d * a <= -a;
    assert x == (x / a) * a + x % a;
    assert d * a == r - x % a by {
      assert (x / a) * a - q * a == d * a;
    }
  }

  lemma DivShrinks(x: nat, a: int)
    requires a > 0
    ensures 0 <= x / a <= x
  {
    var q := x / a;
    assert x == q * a + x % a;
    if q < 0 {
      MulOrder(q, -1, a);
    } else {
      MulOrder(1, a, q);
    }
  }

  lemma MulShift(x: int, y: int)
    ensures 2 * (x * y) == (2 * x) * y
  {
  }

  lemma {:induction false} Pow2Add(a: nat, b: nat)
    ensures Pow2(a + b) == Pow2(a) * Pow2(b)
  {
    if a > 0 {
      Pow2Add(a - 1, b);
      assert Pow2(a + b) == 2 * Pow2(a - 1 + b);
      MulShift(Pow2(a - 1), Pow2(b));
    }
  }

  lemma {:induction false} Pow2Monotone(a: nat, b: nat)
    requires a <= b
    ensures Pow2(a) <= Pow2(b)
  {
    Pow2Add(a, b - a);
    assert Pow2(a) * Pow2(b - a) >= Pow2(a);
  }

  lemma Pow2Values()
    ensures Pow2(16) == 0x1_0000 && Pow2(20) == 0x10_0000 && Pow2(32) == 0x1_0000_0000
  {
    assert Pow2(8) == 0x100;
    assert Pow2(16) == 0x1_0000;
    assert Pow2(20) == 0x10_0000;
    Pow2Add(16, 16);
  }

  lemma ModHalf(x: nat, k: int)
    requires k > 0
    ensures x % (2 * k) == 2 * (x / 2 % k) + x % 2
  {
    var h := x / 2;
    assert x == 2 * h + x % 2 && h == h / k * k + h % k;
    assert x == h / k * (2 * k) + (2 * (h % k) + x % 2) by {
      assert 2 * (h / k * k) == h / k * (2 * k);
    }
    DivUnique(x, 2 * k, h / k, 2 * (h % k) + x % 2);
  }

  /** The last digit of an AND, and the rest. */
  lemma AndDigit(x: nat, m: nat)
    ensures And(x, m) == 2 * And(x / 2, m / 2) + (if m % 2 == 1 then x % 2 else 0)
  {
  }

  lemma AndOneMore(x: nat, m: nat)
    requires And(x / 2, m) == x / 2
    ensures And(x, 2 * m + 1) == x
  {
    DivUnique(2 * m + 1, 2, m, 1);
    AndDigit(x, 2 * m + 1);
  }

  lemma AndZeroBelow(x: nat, m: nat, k: int)
    requires k > 0 && And(x / 2, m) == x / 2 - x / 2 % k
    ensures And(x, 2 * m) == x - x % (2 * k)
  {
    DivUnique(2 * m, 2, m, 0);
    AndDigit(x, 2 * m);
    ModHalf(x, k);
  }

  /** A block of ones with `h` zeros below it, `n` digits in all. */
  function HighOnes(n: nat, h: nat): nat
    requires h <= n
  {
    if n == 0 then 0 else if h == 0 then 2 * HighOnes(n - 1, 0) + 1 else 2 * HighOnes(n - 1, h - 1)
  }

  lemma {:induction false} HighOnesIs(n: nat, h: nat)
    requires h <= n
    ensures HighOnes(n, h) == Pow2(n) - Pow2(h)
  {
    if n > 0 {
      HighOnesIs(n - 1, if h == 0 then 0 else h - 1);
    }
  }

  lemma {:induction false} AndWithHighOnes(x: nat, n: nat, h: nat)
    requires h <= n && x < Pow2(n)
    ensures And(x, HighOnes(n, h)) == x - x % Pow2(h)
  {
    if n == 0 {
    } else if h == 0 {
      AndWithHighOnes(x / 2, n - 1, 0);
      AndOneMore(x, HighOnes(n - 1, 0));
    } else {
      AndWithHighOnes(x / 2, n - 1, h - 1);
      AndZeroBelow(x, HighOnes(n - 1, h - 1), Pow2(h - 1));
    }
  }

  /** AND with a block of high ones clears exactly the digits below it. */
  lemma AndHighOnes(x: nat, n: nat, h: nat)
    requires h <= n && x < Pow2(n)
    ensures Pow2(h) <= Pow2(n) && And(x, Pow2(n) - Pow2(h)) == x - x % Pow2(h)
  {
    Pow2Monotone(h, n);
    HighOnesIs(n, h);
    AndWithHighOnes(x, n, h);
  }

  /** `a` followed by `n` zero digits. */
  function Shl(a: nat, n: nat): nat {
    if n == 0 then a else 2 * Shl(a, n - 1)
  }

  lemma {:induction false} ShlIs(a: nat, n: nat)
    ensures Shl(a, n) == a * Pow2(n)
  {
    if n > 0 {
      ShlIs(a, n - 1);
      MulShift(Pow2(n - 1), a);
    }
  }

  /** AND acts on the high and the low digits apart. */
  lemma {:induction false} AndSplits(a: nat, x: nat, b: nat, y: nat, n: nat)
    requires x < Pow2(n) && y < Pow2(n)
    ensures And(Shl(a, n) + x, Shl(b, n) + y) == Shl(And(a, b), n) + And(x, y)
  {
    hide And;
    if n == 0 {
      AndDigit(x, y);
    } else {
      AndSplits(a, x / 2, b, y / 2, n - 1);
      AndSplitStep(Shl(a, n) + x, Shl(a, n - 1) + x / 2, x, Shl(b, n) + y, Shl(b, n - 1) + y / 2, y);
    }
  }

  lemma AndSplitStep(p: nat, p2: nat, x: nat, q: nat, q2: nat, y: nat)
    requires p - x == 2 * (p2 - x / 2) && q - y == 2 * (q2 - y / 2)
    ensures And(p, q) == 2 * (And(p2, q2) - And(x / 2, y / 2)) + And(x, y)
  {
    hide And;
    assert p / 2 == p2 && p % 2 == x % 2 && q / 2 == q2 && q % 2 == y % 2;
    AndDigit(p, q);
    AndDigit(x, y);
  }
}
