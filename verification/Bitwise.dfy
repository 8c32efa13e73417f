// The bitwise operators of C on unsigned words, digit by digit, and the arithmetic they amount to.
module Bitwise {
  import opened Bits

  // A size_t has 64 bits.
  const SIZE_T := 0x1_0000_0000_0000_0000

  // x & y
  function BitAnd(x: nat, y: nat): nat {
    if x == 0 then 0
    else 2 * BitAnd(x / 2, y / 2) + if x % 2 == 1 && y % 2 == 1 then 1 else 0
  }

  // x | y
  function BitOr(x: nat, y: nat): nat
    decreases x + y
  {
    if x == 0 && y == 0 then 0
    else 2 * BitOr(x / 2, y / 2) + if x % 2 == 1 || y % 2 == 1 then 1 else 0
  }

  // ~x in n bits
  function Flip(x: nat, n: nat): nat {
    if n == 0 then 0
    else 2 * Flip(x / 2, n - 1) + if x % 2 == 1 then 0 else 1
  }

  // ~x in a size_t
  function BitNot(x: nat): nat { Flip(x, 64) }

  lemma {:induction false} FlipValue(x: nat, n: nat)
    requires x < Pow2(n)
    ensures Flip(x, n) == Pow2(n) - 1 - x
  {
    if n > 0 { FlipValue(x / 2, n - 1); }
  }

  lemma NotValue(x: nat)
    requires x < SIZE_T
    ensures BitNot(x) == SIZE_T - 1 - x
  {
    Pow2Word();
    FlipValue(x, 64);
  }

  lemma Pow2Word()
    ensures Pow2(64) == SIZE_T
  {
    Pow2Small();
    Pow2Add(32, 32);
  }

  lemma {:induction false} AndZero(x: nat)
    ensures BitAnd(x, 0) == 0
  {
    if x > 0 { AndZero(x / 2); }
  }

  lemma AndStep(x: nat, y: nat)
    ensures BitAnd(x, y) == 2 * BitAnd(x / 2, y / 2) + if x % 2 == 1 && y % 2 == 1 then 1 else 0
  {}

  function Rem(x: nat, p: nat): nat
    requires p > 0
  {
    x % p
  }

  lemma HalfRem(x: nat, p: nat)
    requires p > 0
    ensures Rem(x, 2 * p) == 2 * Rem(x / 2, p) + x % 2
  {
    var h := x / 2;
    var q, r := h / p, h % p;
    assert h == p * q + r;
    assert x == 2 * p * q + (2 * r + x % 2) by { assert 2 * (p * q) == 2 * p * q; }
    RemUnique(x, 2 * p, q, 2 * r + x % 2);
  }

  lemma RemUnique(x: nat, m: nat, q: nat, r: nat)
    requires r < m && x == m * q + r
    ensures x % m == r
  {
    var d := x / m - q;
    assert x == m * (x / m) + x % m;
    assert m * (x / m) - m * q == m * d;
    assert 0 < m + m * d && m * d < m;
    if d != 0 { AwayFromZero(m, d); }
  }

  lemma AwayFromZero(m: nat, d: int)
    requires d != 0
    ensures m * d >= m || m + m * d <= 0
  {
    if d > 0 { assert m * (d - 1) >= 0; } else { assert m * (-1 - d) >= 0; }
  }

  lemma Doubled(k: nat)
    requires k > 0
    ensures Pow2(k) == 2 * Pow2(k - 1) && Pow2(k - 1) > 0
  {}

  // x & (2^k - 1) is the remainder
  lemma {:induction false} AndLow(x: nat, k: nat)
    ensures BitAnd(x, Pow2(k) - 1) == Rem(x, Pow2(k))
  {
    if k == 0 {
      AndZero(x);
    } else {
      hide *;
      Doubled(k);
      AndLow(x / 2, k - 1);
      HalfRem(x, Pow2(k - 1));
      AndStep(x, 2 * Pow2(k - 1) - 1);
    }
  }

  lemma RemSmall(x: nat, p: nat)
    requires x < p
    ensures Rem(x, p) == x && Rem(x, 1) == 0
  {}

  lemma EvenMask(x: nat, a: nat, b: nat)
    requires b <= a
    ensures BitAnd(x, 2 * a - 2 * b) == 2 * BitAnd(x / 2, a - b)
  {
    AndStep(x, 2 * (a - b));
    assert 2 * (a - b) / 2 == a - b;
  }

  // x & ~(2^k - 1) in n bits takes the remainder off
  lemma {:induction false} AndHigh(x: nat, k: nat, n: nat)
    requires x < Pow2(n) && k <= n
    ensures Pow2(k) <= Pow2(n) && BitAnd(x, Pow2(n) - Pow2(k)) == x - Rem(x, Pow2(k))
  {
    assert Pow2(0) == 1;
    hide *;
    if k == 0 {
      AndLow(x, n);
      RemSmall(x, Pow2(n));
    } else {
      Doubled(k);
      Doubled(n);
      AndHigh(x / 2, k - 1, n - 1);
      HalfRem(x, Pow2(k - 1));
      EvenMask(x, Pow2(n - 1), Pow2(k - 1));
    }
  }

  lemma AndNotLow(x: nat, k: nat)
    requires x < SIZE_T && k < 64
    ensures 0 < Pow2(k) < SIZE_T && BitAnd(x, BitNot(Pow2(k) - 1)) == x - x % Pow2(k)
  {
    Pow2Word();
    Pow2Less(k, 64);
    NotValue(Pow2(k) - 1);
    AndHigh(x, k, 64);
  }

  lemma {:induction false} OrWithZero(y: nat)
    ensures BitOr(0, y) == y
  {
    if y > 0 { OrWithZero(y / 2); }
  }

  // Without a common digit, | is +.
  lemma {:induction false} OrApart(x: nat, y: nat, k: nat)
    requires x % Pow2(k) == 0 && y < Pow2(k)
    ensures BitOr(x, y) == x + y
  {
    if k == 0 {
      OrNone(x);
    } else if x == 0 {
      OrWithZero(y);
    } else {
      HalfRem(x, Pow2(k - 1));
      OrApart(x / 2, y / 2, k - 1);
    }
  }

  lemma {:induction false} OrNone(x: nat)
    ensures BitOr(x, 0) == x
  {
    if x > 0 { OrNone(x / 2); }
  }

  ghost predicate IsPow2(align: nat) {
    exists k: nat :: align == Pow2(k)
  }

  // The test (a & (a - 1)) == 0 is the test for a power of two.
  lemma {:induction false} OneBit(a: nat)
    requires a > 0
    ensures BitAnd(a, a - 1) == 0 <==> IsPow2(a)
  {
    HalfPow2(a);
    AndStep(a, a - 1);
    if a == 1 {
      AndZero(0);
    } else if a % 2 == 0 {
      OneBit(a / 2);
      assert (a - 1) / 2 == a / 2 - 1;
    } else {
      AndSelf(a / 2);
    }
  }

  lemma HalfPow2(a: nat)
    requires a > 0
    ensures IsPow2(a) <==> a == 1 || (a % 2 == 0 && IsPow2(a / 2))
  {
    if a == 1 {
      assert a == Pow2(0);
    } else if IsPow2(a) {
      var k: nat :| a == Pow2(k);
      assert a / 2 == Pow2(k - 1);
    } else if a % 2 == 0 && IsPow2(a / 2) {
      var k: nat :| a / 2 == Pow2(k);
      assert a == Pow2(k + 1);
    }
  }

  lemma {:induction false} AndSelf(x: nat)
    ensures BitAnd(x, x) == x
  {
    if x > 0 { AndSelf(x / 2); }
  }

  // The single-bit operators
  lemma LowBitOps(w: nat)
    requires w < SIZE_T
    ensures BitAnd(w, 1) == w % 2
    ensures BitAnd(w, BitNot(1)) == w - w % 2
    ensures BitOr(w, 1) == w - w % 2 + 1
  {
    AndLow(w, 1);
    AndNotLow(w, 1);
    OrLow(w);
  }

  lemma OrLow(w: nat)
    ensures BitOr(w, 1) == w - w % 2 + 1
  {
    OrNone(w / 2);
  }

  lemma SecondBitOps(w: nat)
    requires w < SIZE_T
    ensures BitAnd(w, 2) == 2 * (w / 2 % 2)
    ensures BitAnd(w, BitNot(2)) == w - 2 * (w / 2 % 2)
    ensures BitOr(w, 2) == w - 2 * (w / 2 % 2) + 2
  {
    hide BitAnd, BitOr, BitNot, Pow2;
    AndStep(w, 2);
    AndLowBit(w / 2);
    AndNotSecond(w);
    OrStep(w);
    OrLow(w / 2);
  }

  lemma AndLowBit(x: nat)
    ensures BitAnd(x, 1) == x % 2
  {
    AndLow(x, 1);
  }

  lemma OrStep(w: nat)
    ensures BitOr(w, 2) == 2 * BitOr(w / 2, 1) + w % 2
  {}

  lemma AndNotSecond(w: nat)
    requires w < SIZE_T
    ensures BitAnd(w, BitNot(2)) == w - 2 * (w / 2 % 2)
  {
    NotValue(2);
    Pow2Of63();
    hide BitAnd, BitNot, Pow2;
    AndHigh(w / 2, 1, 63);
    AndStep(w, SIZE_T - 3);
  }

  lemma Pow2Of63()
    ensures Pow2(1) == 2 && Pow2(63) == SIZE_T / 2
  {
    Pow2Small();
    Pow2Add(31, 32);
  }
}
