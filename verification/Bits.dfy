// Single bits of 32-bit words, and the generic find-first-set and find-last-set of tlsf.c (lines 156-186).
module Bits {
  // 1U << i
  function Mask(i: nat): bv32
    requires i < 32
  {
    (1 as bv32) << (i as bv5)
  }

  // ~0U << i
  function From(i: nat): bv32
    requires i < 32
  {
    (0xffff_ffff as bv32) << (i as bv5)
  }

  function Or(w: bv32, x: bv32): bv32 { w | x }
  function And(w: bv32, x: bv32): bv32 { w & x }
  function AndNot(w: bv32, x: bv32): bv32 { w & !x }

  // w | (1U << i), w & ~(1U << i) and w & (~0U << i)
  function With(w: bv32, i: nat): bv32 requires i < 32 { Or(w, Mask(i)) }
  function Minus(w: bv32, i: nat): bv32 requires i < 32 { AndNot(w, Mask(i)) }
  function AtLeast(w: bv32, i: nat): bv32 requires i < 32 { And(w, From(i)) }

  // w & (1U << i)
  function Only(w: bv32, i: nat): bv32 requires i < 32 { w & Mask(i) }

  predicate Hit(w: bv32, m: bv32) { w & m != 0 }

  predicate Bit(w: bv32, i: nat)
    requires i < 32
  {
    Hit(w, Mask(i))
  }

  // m has one bit, so w contains all of m or nothing of it
  predicate Whole(w: bv32, m: bv32) { w & m == 0 || w & m == m }

  lemma Index(i: nat, j: nat)
    requires i < 32 && j < 32
    ensures i <= j <==> (i as bv5) <= (j as bv5)
    ensures i == j <==> (i as bv5) == (j as bv5)
  {}

  lemma MaskWhole(w: bv32, j: nat)
    requires j < 32
    ensures Whole(w, Mask(j))
  {}

  lemma MaskHit(i: nat, j: nat)
    requires i < 32 && j < 32
    ensures Hit(Mask(i), Mask(j)) <==> i == j
  {
    Index(i, j);
  }

  lemma FromHit(i: nat, j: nat)
    requires i < 32 && j < 32
    ensures Hit(From(i), Mask(j)) <==> i <= j
  {
    Index(i, j);
  }

  lemma OrRaw(w: bv32, x: bv32, m: bv32)
    ensures (w | x) & m == (w & m) | (x & m)
  {}

  lemma OrZero(w: bv32, x: bv32)
    ensures w | x == 0 <==> w == 0 && x == 0
  {}

  lemma OrRawHit(w: bv32, x: bv32, m: bv32)
    ensures Hit(w | x, m) <==> Hit(w, m) || Hit(x, m)
  {
    OrRaw(w, x, m);
    OrZero(w & m, x & m);
  }

  lemma AndRaw(w: bv32, x: bv32, m: bv32)
    requires (w & m == 0 || w & m == m) && (x & m == 0 || x & m == m)
    ensures (w & x) & m != 0 <==> w & m != 0 && x & m != 0
    ensures (w & !x) & m != 0 <==> w & m != 0 && x & m == 0
  {}

  lemma AndRawHit(w: bv32, x: bv32, m: bv32)
    requires Whole(w, m) && Whole(x, m)
    ensures Hit(w & x, m) <==> Hit(w, m) && Hit(x, m)
    ensures Hit(w & !x, m) <==> Hit(w, m) && !Hit(x, m)
  {
    AndRaw(w, x, m);
  }

  lemma OrHit(w: bv32, x: bv32, m: bv32)
    ensures Hit(Or(w, x), m) <==> Hit(w, m) || Hit(x, m)
  {
    hide Hit;
    OrRawHit(w, x, m);
  }

  lemma AndHit(w: bv32, x: bv32, m: bv32)
    requires Whole(w, m) && Whole(x, m)
    ensures Hit(And(w, x), m) <==> Hit(w, m) && Hit(x, m)
    ensures Hit(AndNot(w, x), m) <==> Hit(w, m) && !Hit(x, m)
  {
    hide Hit, Whole;
    AndRawHit(w, x, m);
  }

  lemma SetHit(w: bv32, i: nat, j: nat)
    requires i < 32 && j < 32
    ensures Hit(Or(w, Mask(i)), Mask(j)) <==> Hit(w, Mask(j)) || i == j
  {
    hide *;
    MaskHit(i, j);
    OrHit(w, Mask(i), Mask(j));
  }

  lemma SetBit(w: bv32, i: nat, j: nat)
    requires i < 32 && j < 32
    ensures Bit(With(w, i), j) <==> Bit(w, j) || i == j
  {
    hide Mask, Hit, Or;
    SetHit(w, i, j);
  }

  lemma ClearHit(w: bv32, i: nat, j: nat)
    requires i < 32 && j < 32
    ensures Hit(AndNot(w, Mask(i)), Mask(j)) <==> Hit(w, Mask(j)) && i != j
  {
    hide *;
    MaskWhole(w, j);
    MaskWhole(Mask(i), j);
    AndHit(w, Mask(i), Mask(j));
    MaskHit(i, j);
  }

  lemma ClearBit(w: bv32, i: nat, j: nat)
    requires i < 32 && j < 32
    ensures Bit(Minus(w, i), j) <==> Bit(w, j) && i != j
  {
    hide Mask, Hit, AndNot;
    ClearHit(w, i, j);
  }

  lemma CutHit(w: bv32, i: nat, j: nat)
    requires i < 32 && j < 32
    ensures Hit(And(w, From(i)), Mask(j)) <==> Hit(w, Mask(j)) && i <= j
  {
    hide *;
    MaskWhole(w, j);
    MaskWhole(From(i), j);
    AndHit(w, From(i), Mask(j));
    FromHit(i, j);
  }

  lemma CutBit(w: bv32, i: nat, j: nat)
    requires i < 32 && j < 32
    ensures Bit(AtLeast(w, i), j) <==> Bit(w, j) && i <= j
  {
    hide Mask, Hit, From, And;
    CutHit(w, i, j);
  }

  lemma OnlyBit(w: bv32, i: nat)
    requires i < 32
    ensures Only(w, i) != 0 <==> Bit(w, i)
  {
    hide Mask;
  }

  lemma ZeroBit(j: nat)
    requires j < 32
    ensures !Bit(0, j)
  {}

  predicate NoneBelow(w: bv32, i: nat)
    requires i < 32
  {
    w & From(i) == w
  }

  lemma NextIndex(i: nat)
    requires i < 31
    ensures ((i + 1) as bv5) == (i as bv5) + 1
  {}

  lemma NextShift(x: bv5)
    requires x != 31
    ensures (0xffff_ffff as bv32) << x == ((0xffff_ffff as bv32) << (x + 1)) | ((1 as bv32) << x)
  {}

  lemma NextFrom(i: nat)
    requires i < 31
    ensures From(i) == From(i + 1) | Mask(i)
  {
    NextIndex(i);
    Index(i, 31);
    NextShift(i as bv5);
  }

  lemma SkipClear(w: bv32, i: nat)
    requires i < 31 && NoneBelow(w, i) && !Bit(w, i)
    ensures NoneBelow(w, i + 1)
  {
    NextFrom(i);
  }

  lemma TopOrZero(w: bv32)
    requires NoneBelow(w, 31) && w != 0
    ensures Bit(w, 31)
  {}

  lemma {:induction false} SomeBit(w: bv32, i: nat) returns (k: nat)
    requires i < 32 && NoneBelow(w, i) && w != 0
    ensures i <= k < 32 && Bit(w, k) && NoneBelow(w, k)
    decreases 32 - i
  {
    hide *;
    if i == 31 {
      TopOrZero(w);
      k := 31;
    } else if Bit(w, i) {
      k := i;
    } else {
      SkipClear(w, i);
      k := SomeBit(w, i + 1);
    }
  }

  lemma LowestMask(w: bv32, k: nat)
    requires k < 32 && Bit(w, k) && NoneBelow(w, k)
    ensures w & (!w + 1) == Mask(k)
  {}

  // tlsf_fls_generic from its last line to its first: a line shifts d clear top bits out of the word and takes d off
  // the counter, then come the lines behind it.
  function Fls1(w: bv32, bit: int): int { if w & 0x80000000 == 0 then bit - 1 else bit }
  function Fls2(w: bv32, bit: int): int { if w & 0xc0000000 == 0 then Fls1(w << 2, bit - 2) else Fls1(w, bit) }
  function Fls4(w: bv32, bit: int): int { if w & 0xf0000000 == 0 then Fls2(w << 4, bit - 4) else Fls2(w, bit) }
  function Fls8(w: bv32, bit: int): int { if w & 0xff000000 == 0 then Fls4(w << 8, bit - 8) else Fls4(w, bit) }
  function Fls16(w: bv32, bit: int): int { if w & 0xffff0000 == 0 then Fls8(w << 16, bit - 16) else Fls8(w, bit) }

  function FlsGeneric(w: bv32): int {
    Fls16(w, if w == 0 then 31 else 32)
  }

  function Ffs(w: bv32): int
  {
    FlsGeneric(w & (!w + 1)) - 1
  }

  lemma FromZero(w: bv32)
    ensures NoneBelow(w, 0)
  {}

  lemma BelowClear(w: bv32, k: nat, i: nat)
    requires i < k < 32 && NoneBelow(w, k)
    ensures !Bit(w, i)
  {
    hide Mask, From, Bit;
    CutBit(w, k, i);
  }

  lemma FfsMask(w: bv32, k: nat)
    requires k < 32 && w & (!w + 1) == Mask(k)
    ensures Ffs(w) == k
  {
    FlsMask(k);
    hide *;
  }

  lemma FfsLowest(w: bv32)
    requires w != 0
    ensures 0 <= Ffs(w) < 32
    ensures Bit(w, Ffs(w))
    ensures forall i: nat :: i < Ffs(w) ==> !Bit(w, i)
  {
    hide *;
    FromZero(w);
    var k := SomeBit(w, 0);
    LowestMask(w, k);
    FfsMask(w, k);
    forall i: nat | i < k ensures !Bit(w, i) { BelowClear(w, k, i); }
  }

  // ---- the highest bit is the floor of the base-2 logarithm

  function Pow2(k: nat): (p: nat)
    ensures p >= 1
  {
    if k == 0 then 1 else 2 * Pow2(k - 1)
  }

  lemma {:induction false} Pow2Add(a: nat, b: nat)
    ensures Pow2(a + b) == Pow2(a) * Pow2(b)
  {
    if a > 0 {
      Pow2Add(a - 1, b);
    }
  }

  lemma {:induction false} Pow2Less(a: nat, b: nat)
    requires a < b
    ensures 2 * Pow2(a) <= Pow2(b)
  {
    if a + 1 < b {
      Pow2Less(a, b - 1);
    }
  }

  function Val(w: bv32): nat { w as int }

  // The same lines on the value of the word.
  function Step16(v: (int, int)): (int, int) { if v.0 < 0x10000 then (0x10000 * v.0, v.1 - 16) else v }
  function Step8(v: (int, int)): (int, int) { if v.0 < 0x1000000 then (0x100 * v.0, v.1 - 8) else v }
  function Step4(v: (int, int)): (int, int) { if v.0 < 0x10000000 then (0x10 * v.0, v.1 - 4) else v }
  function Step2(v: (int, int)): (int, int) { if v.0 < 0x40000000 then (4 * v.0, v.1 - 2) else v }
  function Step1(v: (int, int)): (int, int) { if v.0 < 0x80000000 then (2 * v.0, v.1 - 1) else v }
  function Normalize(n: nat): (int, int) { Step1(Step2(Step4(Step8(Step16((n, if n == 0 then 31 else 32)))))) }
  function FlsValue(n: nat): int { Normalize(n).1 }

  // A word is below 2^(32 - d) exactly when its top d bits are clear; shifting it left by d then multiplies it by 2^d.
  lemma NonZero(w: bv32) requires w != 0 ensures Val(w) >= 1 {}
  lemma Shl16(w: bv32) requires w & 0xffff0000 == 0 ensures (w << 16) as int == 0x10000 * (w as int) {}
  lemma Shl8(w: bv32) requires w & 0xff000000 == 0 ensures (w << 8) as int == 0x100 * (w as int) {}
  lemma Shl4(w: bv32) requires w & 0xf0000000 == 0 ensures (w << 4) as int == 0x10 * (w as int) {}
  lemma Shl2(w: bv32) requires w & 0xc0000000 == 0 ensures (w << 2) as int == 4 * (w as int) {}
  lemma Shl1(w: bv32) requires w & 0x80000000 == 0 ensures (w << 1) as int == 2 * (w as int) {}
  lemma High8(w: bv32) ensures w as int >= 0x1000000 * ((w >> 24) as int) {}
  lemma High4(w: bv32) ensures w as int >= 0x10000000 * ((w >> 28) as int) {}
  lemma High2(w: bv32) ensures w as int >= 0x40000000 * ((w >> 30) as int) {}
  lemma High1(w: bv32) ensures w as int >= 0x80000000 * ((w >> 31) as int) {}

  lemma High16(w: bv32)
    requires w & 0xffff0000 != 0
    ensures Val(w) >= 0x10000
  {
    if w & 0xff000000 == 0 {
      Shl8(w);
      High8(w << 8);
      NonZero((w << 8) >> 24);
    } else {
      High8(w);
      NonZero(w >> 24);
    }
  }

  lemma Top16(w: bv32)
    ensures w & 0xffff0000 == 0 ==> Val(w) < 0x10000 && Val(w << 16) == 0x10000 * Val(w)
    ensures w & 0xffff0000 != 0 ==> Val(w) >= 0x10000
  {
    if w & 0xffff0000 == 0 { Shl16(w); } else { High16(w); }
  }

  lemma Top8(w: bv32)
    ensures w & 0xff000000 == 0 ==> Val(w) < 0x1000000 && Val(w << 8) == 0x100 * Val(w)
    ensures w & 0xff000000 != 0 ==> Val(w) >= 0x1000000
  {
    if w & 0xff000000 == 0 { Shl8(w); } else { High8(w); NonZero(w >> 24); }
  }

  lemma Top4(w: bv32)
    ensures w & 0xf0000000 == 0 ==> Val(w) < 0x10000000 && Val(w << 4) == 0x10 * Val(w)
    ensures w & 0xf0000000 != 0 ==> Val(w) >= 0x10000000
  {
    if w & 0xf0000000 == 0 { Shl4(w); } else { High4(w); NonZero(w >> 28); }
  }

  lemma Top2(w: bv32)
    ensures w & 0xc0000000 == 0 ==> Val(w) < 0x40000000 && Val(w << 2) == 4 * Val(w)
    ensures w & 0xc0000000 != 0 ==> Val(w) >= 0x40000000
  {
    if w & 0xc0000000 == 0 { Shl2(w); } else { High2(w); NonZero(w >> 30); }
  }

  lemma Top1(w: bv32)
    ensures w & 0x80000000 == 0 ==> Val(w) < 0x80000000 && Val(w << 1) == 2 * Val(w)
    ensures w & 0x80000000 != 0 ==> Val(w) >= 0x80000000
  {
    if w & 0x80000000 == 0 { Shl1(w); } else { High1(w); NonZero(w >> 31); }
  }

  lemma Tail1(w: bv32, bit: int)
    ensures Fls1(w, bit) == Step1((Val(w), bit)).1
  {
    Top1(w);
  }

  lemma Tail2(w: bv32, bit: int)
    ensures Fls2(w, bit) == Step1(Step2((Val(w), bit))).1
  {
    hide Val, Fls1, Step1;
    Top2(w);
    Tail1(w << 2, bit - 2);
    Tail1(w, bit);
  }

  lemma Tail4(w: bv32, bit: int)
    ensures Fls4(w, bit) == Step1(Step2(Step4((Val(w), bit)))).1
  {
    hide Val, Fls2, Step1, Step2;
    Top4(w);
    Tail2(w << 4, bit - 4);
    Tail2(w, bit);
  }

  lemma Tail8(w: bv32, bit: int)
    ensures Fls8(w, bit) == Step1(Step2(Step4(Step8((Val(w), bit))))).1
  {
    hide Val, Fls4, Step1, Step2, Step4;
    Top8(w);
    Tail4(w << 8, bit - 8);
    Tail4(w, bit);
  }

  lemma Tail16(w: bv32, bit: int)
    ensures Fls16(w, bit) == Step1(Step2(Step4(Step8(Step16((Val(w), bit)))))).1
  {
    hide Val, Fls8, Step1, Step2, Step4, Step8;
    Top16(w);
    Tail8(w << 16, bit - 16);
    Tail8(w, bit);
  }

  lemma FlsOfValue(w: bv32)
    requires w != 0
    ensures FlsGeneric(w) == FlsValue(Val(w))
  {
    NonZero(w);
    hide Val, Fls16, Step16, Step8, Step4, Step2, Step1;
    Tail16(w, 32);
  }

  // Each step keeps word == n * 2^(32 - bit).
  ghost predicate Scaled(v: (int, int), n: nat) {
    v.1 <= 32 && v.0 == n * Pow2(32 - v.1)
  }

  lemma Scale(v: (int, int), n: nat, d: nat, f: nat)
    requires Scaled(v, n) && Pow2(d) == f
    ensures Scaled((f * v.0, v.1 - d), n)
  {
    Pow2Add(32 - v.1, d);
    assert n * (Pow2(32 - v.1) * f) == f * (n * Pow2(32 - v.1));
  }

  lemma Square(k: nat, v: nat)
    requires Pow2(k) == v
    ensures Pow2(2 * k) == v * v
  {
    Pow2Add(k, k);
  }

  lemma Pow2Small()
    ensures Pow2(1) == 2 && Pow2(2) == 4 && Pow2(4) == 0x10 && Pow2(8) == 0x100 && Pow2(16) == 0x10000
    ensures Pow2(31) == 0x80000000 && Pow2(32) == 0x100000000
  {
    assert Pow2(32) == 2 * Pow2(31);
    assert Pow2(1) == 2;
    hide Pow2;
    Square(1, 2);
    Square(2, 4);
    Square(4, 16);
    Square(8, 256);
    Square(16, 65536);
  }

  lemma Cancel(a: int, b: int, p: int)
    requires p > 0
    ensures a * p <= b * p ==> a <= b
    ensures a * p < b * p ==> a < b
  {
    if a > b { assert (a - b) * p > 0; }
    if a >= b { assert (a - b) * p >= 0; }
  }

  lemma NormalizeScaled(n: nat)
    requires 0 < n < 0x100000000
    ensures Scaled(Normalize(n), n) && 0x80000000 <= Normalize(n).0 < 0x100000000 && 1 <= Normalize(n).1
  {
    hide Scaled, Pow2;
    Pow2Small();
    ScaleStart(n);
    var v1 := Step16((n, 32));
    Scale((n, 32), n, 16, 0x10000);
    var v2 := Step8(v1);
    Scale(v1, n, 8, 0x100);
    var v3 := Step4(v2);
    Scale(v2, n, 4, 0x10);
    var v4 := Step2(v3);
    Scale(v3, n, 2, 4);
    Scale(v4, n, 1, 2);
  }

  lemma FlsValueIsLog(n: nat)
    requires 0 < n < 0x100000000
    ensures 1 <= FlsValue(n) <= 32
    ensures Pow2(FlsValue(n) - 1) <= n < Pow2(FlsValue(n))
  {
    hide Normalize, Pow2;
    NormalizeScaled(n);
    LogOfScaled(Normalize(n), n);
  }

  lemma ScaleStart(n: nat) ensures Scaled((n, 32), n) {}

  lemma LogOfScaled(v: (int, int), n: nat)
    requires Scaled(v, n) && 1 <= v.1 && 0x80000000 <= v.0 < 0x100000000
    ensures Pow2(v.1 - 1) <= n < Pow2(v.1)
  {
    var p := Pow2(32 - v.1);
    Pow2Small();
    Pow2Add(v.1 - 1, 32 - v.1);
    Pow2Add(v.1, 32 - v.1);
    Cancel(Pow2(v.1 - 1), n, p);
    Cancel(n, Pow2(v.1), p);
  }

  lemma LogUnique(n: nat, a: nat, b: nat)
    requires Pow2(a) <= n < 2 * Pow2(a) && Pow2(b) <= n < 2 * Pow2(b)
    ensures a == b
  {
    if a < b { Pow2Less(a, b); }
    if b < a { Pow2Less(b, a); }
  }

  lemma FlsMask(k: nat)
    requires k < 32
    ensures FlsGeneric(Mask(k)) == k + 1
  {
    hide *;
    FlsOfMask(k);
    LogOfPow2(k);
  }

  lemma LogOfPow2(k: nat)
    requires k < 32
    ensures FlsValue(Pow2(k)) == k + 1
  {
    hide FlsValue;
    if k < 31 { Pow2Less(k, 31); }
    Pow2Small();
    var f := FlsValue(Pow2(k));
    FlsValueIsLog(Pow2(k));
    assert Pow2(f) == 2 * Pow2(f - 1);
    LogUnique(Pow2(k), f - 1, k);
  }

  lemma FlsOfMask(k: nat)
    requires k < 32
    ensures FlsGeneric(Mask(k)) == FlsValue(Pow2(k))
  {
    MaskNonZero(k);
    FlsOfValue(Mask(k));
    MaskValue(k);
    hide *;
  }

  lemma MaskNonZero(k: nat) requires k < 32 ensures Mask(k) != 0 {}

  lemma NextMask(k: nat)
    requires k < 31
    ensures Mask(k + 1) == Mask(k) << 1
    ensures Mask(k) & 0x80000000 == 0
  {
    assert ((k + 1) as bv5) == (k as bv5) + 1;
    Index(k, 31);
  }

  lemma NextMaskValue(k: nat)
    requires k < 31
    ensures Val(Mask(k + 1)) == 2 * Val(Mask(k))
  {
    NextMask(k);
    Shl1(Mask(k));
    hide *;
  }

  lemma {:induction false} MaskValue(k: nat)
    requires k < 32
    ensures Val(Mask(k)) == Pow2(k)
  {
    hide Mask, Val;
    if k > 0 { MaskValue(k - 1); NextMaskValue(k - 1); } else { MaskOne(); }
  }

  lemma MaskOne() ensures Val(Mask(0)) == 1 {}
}
