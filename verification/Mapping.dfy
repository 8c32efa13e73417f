// Sizes: alignment, adjusted requests, size classes and the gap before an aligned block.
module Mapping {
  import opened Bits
  import opened Bitwise

  const ALIGN_SIZE := 8
  const SL_INDEX_COUNT_LOG2 := 5
  const SL_INDEX_COUNT := 32
  const FL_INDEX_SHIFT := 8
  const FL_INDEX_COUNT := 25
  const SMALL_BLOCK_SIZE := 256
  const HEADER_OVERHEAD := 8
  const HEADER_SIZE := 32
  const BLOCK_SIZE_MIN := 24
  const BLOCK_SIZE_MAX := 0x1_0000_0000
  const CLASSES := 800
  const TOP_ALIGN := 0x8000_0000_0000_0000

  // ---- tlsf_fls_sizet

  // The 8-, 16- and 32-bit words with value n, joined from their halves.
  function Byte(n: nat): bv8
    requires n < 0x100
  {
    (((n / 0x10) as bv4) as bv8 << 4) | (((n % 0x10) as bv4) as bv8)
  }

  function NibbleNum(b: bv4): nat { b as int }
  function Num(b: bv8): nat { b as int }

  function Half(n: nat): bv16
    requires n < 0x1_0000
  {
    (Byte(n / 0x100) as bv16 << 8) | (Byte(n % 0x100) as bv16)
  }

  function Word(n: nat): bv32
    requires n < 0x1_0000_0000
  {
    Join(Half(n / 0x1_0000), Half(n % 0x1_0000))
  }

  function Join(a: bv16, b: bv16): bv32 { (a as bv32 << 16) | b as bv32 }
  function HalfNum(h: bv16): nat { h as int }

  lemma NibbleValue(n: nat)
    requires n < 0x10
    ensures NibbleNum(n as bv4) == n
  {}

  lemma ByteJoin(a: bv4, b: bv4)
    ensures Num((a as bv8 << 4) | b as bv8) == 0x10 * NibbleNum(a) + NibbleNum(b)
  {}

  lemma ByteValue(n: nat)
    requires n < 0x100
    ensures Num(Byte(n)) == n
  {
    hide Num, NibbleNum;
    ByteJoin((n / 0x10) as bv4, (n % 0x10) as bv4);
    NibbleValue(n / 0x10);
    NibbleValue(n % 0x10);
  }

  lemma HalfJoin(a: bv8, b: bv8)
    ensures HalfNum((a as bv16 << 8) | b as bv16) == 0x100 * Num(a) + Num(b)
  {}

  lemma WordJoin(a: bv16, b: bv16)
    ensures Val(Join(a, b)) == 0x1_0000 * HalfNum(a) + HalfNum(b)
  {}

  lemma HalfValue(n: nat)
    requires n < 0x1_0000
    ensures HalfNum(Half(n)) == n
  {
    hide Byte, Num, HalfNum;
    HalfJoin(Byte(n / 0x100), Byte(n % 0x100));
    ByteValue(n / 0x100);
    ByteValue(n % 0x100);
  }

  lemma WordValue(n: nat)
    requires n < 0x1_0000_0000
    ensures Val(Word(n)) == n
  {
    hide Join, Val, Half, HalfNum;
    WordJoin(Half(n / 0x1_0000), Half(n % 0x1_0000));
    HalfValue(n / 0x1_0000);
    HalfValue(n % 0x1_0000);
  }

  lemma WordNonZero(n: nat)
    requires 0 < n < 0x1_0000_0000
    ensures Word(n) != 0
  {
    hide Join, Word;
    WordValue(n);
    ZeroValue();
  }

  lemma ZeroValue() ensures Val(0) == 0 {}

  function FlsSizet(size: nat): int
    requires size < SIZE_T
  {
    var high := size / 0x1_0000_0000;
    if high != 0 then 32 + FlsGeneric(Word(high)) - 1
    else FlsGeneric(Word(size % 0x1_0000_0000)) - 1
  }

  lemma FlsOfWord(n: nat)
    requires 0 < n < 0x1_0000_0000
    ensures 1 <= FlsGeneric(Word(n)) <= 32
    ensures Pow2(FlsGeneric(Word(n)) - 1) <= n < Pow2(FlsGeneric(Word(n)))
  {
    hide *;
    WordValue(n);
    WordNonZero(n);
    FlsOfValue(Word(n));
    FlsValueIsLog(n);
  }

  lemma FlsSizetIsLog(size: nat)
    requires 0 < size < SIZE_T
    ensures 0 <= FlsSizet(size) < 64
    ensures Pow2(FlsSizet(size)) <= size < Pow2(FlsSizet(size) + 1)
  {
    hide FlsGeneric, Pow2, Word;
    var high := size / 0x1_0000_0000;
    if high != 0 {
      FlsOfWord(high);
      var b := FlsGeneric(Word(high));
      Pow2Small();
      Pow2Add(32, b - 1);
      Pow2Add(32, b);
      assert 0x1_0000_0000 * high <= size < 0x1_0000_0000 * (high + 1);
    } else {
      FlsOfWord(size);
    }
  }

  // The floor of the base-2 logarithm, which tlsf_fls_sizet computes.
  ghost function Log2(n: nat): nat {
    if n < 2 then 0 else 1 + Log2(n / 2)
  }

  lemma {:induction false} Log2Bounds(n: nat)
    requires n > 0
    ensures Pow2(Log2(n)) <= n < Pow2(Log2(n) + 1) == 2 * Pow2(Log2(n))
  {
    if n >= 2 { Log2Bounds(n / 2); }
  }

  lemma FlsIsLog2(size: nat)
    requires 0 < size < SIZE_T
    ensures FlsSizet(size) == Log2(size)
  {
    FlsSizetIsLog(size);
    Log2Bounds(size);
    assert Pow2(FlsSizet(size) + 1) == 2 * Pow2(FlsSizet(size));
    hide *;
    LogUnique(size, FlsSizet(size), Log2(size));
  }

  // ---- alignment and request sizes (size_t arithmetic wraps at 2^64)

  // (x + (align - 1)) & ~(align - 1); clearing the low bits of a power of two is v - v % align
  function AlignUp(x: nat, align: nat): nat
    requires 0 < align
  {
    var v := (x + (align - 1)) % SIZE_T;
    v - v % align
  }

  // x - (x & (align - 1))
  function AlignDown(x: nat, align: nat): nat
    requires 0 < align
  {
    x - x % align
  }

  // The two functions in C's own operators; the disabled assert before them holds exactly for powers of two.
  lemma AlignBits(x: nat, align: nat)
    requires x < SIZE_T && 0 < align < SIZE_T
    ensures BitAnd(align, align - 1) == 0 <==> IsPow2(align)
    ensures IsPow2(align) ==> AlignUp(x, align) == BitAnd((x + (align - 1)) % SIZE_T, BitNot(align - 1))
    ensures IsPow2(align) ==> AlignDown(x, align) == x - BitAnd(x, align - 1)
  {
    OneBit(align);
    if IsPow2(align) {
      var k: nat :| align == Pow2(k);
      Pow2Word();
      if k >= 64 { Pow2Mono(64, k); }
      hide Pow2, BitAnd, BitNot;
      AndNotLow((x + (align - 1)) % SIZE_T, k);
      AndLow(x, k);
    }
  }

  function AdjustRequestSize(size: nat, align: nat): nat
    requires 0 < align
  {
    if size == 0 then 0 else
      var aligned := AlignUp(size, align);
      if aligned < BLOCK_SIZE_MAX then
        if aligned > BLOCK_SIZE_MIN then aligned else BLOCK_SIZE_MIN
      else 0
  }

  // ---- size classes

  // (int)(size >> (fl - 5)) ^ (1 << 5); the shifted size always lies in [32, 64)
  function SecondLevel(x: nat): nat
    requires x < 64
  {
    (x as bv6 ^ 32) as int
  }

  lemma SecondLevelValue(x: nat)
    requires 32 <= x < 64
    ensures SecondLevel(x) == x - 32
  {}

  lemma ShiftedSize(size: nat)
    requires size >= SMALL_BLOCK_SIZE
    ensures Log2(size) >= 8
    ensures 32 <= ShiftRight(size, Log2(size) - SL_INDEX_COUNT_LOG2) < 64
  {
    hide Pow2, Log2, ShiftRight;
    Log2Bounds(size);
    var f := Log2(size);
    LogAtLeast8(size, f);
    TopFive(f - 5);
    ShiftBounds(size, f - 5, 32, 64);
  }

  lemma LogAtLeast8(size: nat, f: nat)
    requires SMALL_BLOCK_SIZE <= size < Pow2(f + 1)
    ensures f >= 8
  {
    Pow2Small();
    if f + 1 <= 8 { Pow2Mono(f + 1, 8); }
  }

  lemma TopFive(k: nat)
    ensures Pow2(k + 5) == 32 * Pow2(k)
    ensures Pow2(k + 6) == 64 * Pow2(k)
  {
    Pow2Add(k, 5);
    assert Pow2(5) == 32;
  }

  lemma Pow2Mono(a: nat, b: nat)
    requires a <= b
    ensures Pow2(a) <= Pow2(b)
  {
    if a < b { Pow2Less(a, b); }
  }

  // x >> k
  function ShiftRight(x: nat, k: nat): int { x / Pow2(k) }

  lemma ShiftBounds(x: nat, k: nat, lo: nat, hi: nat)
    requires lo * Pow2(k) <= x < hi * Pow2(k)
    ensures lo <= ShiftRight(x, k) < hi
  {
    hide Pow2;
    DivBounds(x, Pow2(k), lo, hi);
  }

  lemma DivBounds(x: nat, p: nat, lo: nat, hi: nat)
    requires p > 0 && lo * p <= x < hi * p
    ensures lo <= x / p < hi
  {
    var q := x / p;
    assert x == p * q + x % p;
    assert q * p <= x < (q + 1) * p;
    Cancel(lo, q + 1, p);
    Cancel(q, hi, p);
  }

  function MappingInsert(size: nat): (int, int)
    requires size < SIZE_T
  {
    if size < SMALL_BLOCK_SIZE then
      (0, size / (SMALL_BLOCK_SIZE / SL_INDEX_COUNT))
    else
      FlsIsLog2(size);
      var fl := FlsSizet(size);
      (fl - (FL_INDEX_SHIFT - 1), LargeLevel(size, fl))
  }

  // The five bits below the top one
  function LargeLevel(size: nat, fl: nat): int
    requires size >= SMALL_BLOCK_SIZE && fl == Log2(size)
  {
    ShiftedSize(size);
    SecondLevel(ShiftRight(size, fl - SL_INDEX_COUNT_LOG2))
  }

  function MappingSearch(size: nat): (int, int)
    requires size < BLOCK_SIZE_MAX
  {
    MappingInsert(RoundUp(size))
  }

  lemma SearchBound(size: nat)
    requires size >= SMALL_BLOCK_SIZE && Log2(size) >= 8
    ensures Pow2(Log2(size) - SL_INDEX_COUNT_LOG2) <= size
  {
    Log2Bounds(size);
    hide Log2;
    Pow2Mono(Log2(size) - 5, Log2(size));
  }

  // The class of a size and the least size of a class, by halving: classes 32 apart hold sizes a
  // factor of two apart, and the first 64 classes are eight bytes wide.
  function Class(size: nat): nat {
    if size < 2 * SMALL_BLOCK_SIZE then size / ALIGN_SIZE else SL_INDEX_COUNT + Class(size / 2)
  }

  function Least(c: nat): nat {
    if c < 2 * SL_INDEX_COUNT then ALIGN_SIZE * c else 2 * Least(c - SL_INDEX_COUNT)
  }

  lemma {:induction false} ClassBounds(size: nat)
    ensures Least(Class(size)) <= size < Least(Class(size) + 1)
  {
    if size >= 512 {
      ClassBounds(size / 2);
      ClassLarge(size / 2);
    }
  }

  lemma {:induction false} ClassLarge(size: nat)
    requires size >= 256
    ensures Class(size) >= 32
  {
    if size >= 512 { ClassLarge(size / 2); }
  }

  lemma {:induction false} LeastStep(c: nat)
    ensures Least(c) + ALIGN_SIZE <= Least(c + 1)
  {
    if c >= 64 { LeastStep(c - 32); }
  }

  lemma {:induction false} LeastMono(c: nat, d: nat)
    requires c <= d
    ensures Least(c) + ALIGN_SIZE * (d - c) <= Least(d)
  {
    if c < d {
      LeastMono(c, d - 1);
      LeastStep(d - 1);
    }
  }

  // Class is monotone: its intervals are consecutive.
  lemma ClassMono(s: nat, t: nat)
    requires s <= t
    ensures Class(s) <= Class(t)
  {
    hide Class, Least;
    ClassBounds(s);
    ClassBounds(t);
    if Class(t) < Class(s) { LeastMono(Class(t) + 1, Class(s)); }
  }

  lemma ClassOf(size: nat, c: nat)
    requires Least(c) <= size < Least(c + 1)
    ensures Class(size) == c
  {
    hide Class, Least;
    ClassBounds(size);
    if Class(size) < c { LeastMono(Class(size) + 1, c); }
    if Class(size) > c { LeastMono(c + 1, Class(size)); }
  }

  // Sizes whose top bit is f = k + 8 lie in classes 32 (k + 1) .. 32 (k + 2), 2^(k + 3) bytes wide.
  lemma {:induction false} LeastClosed(k: nat, j: nat)
    requires j <= 32
    ensures Least(32 * (k + 1) + j) == (32 + j) * Pow2(k + 3)
  {
    if k > 0 {
      LeastClosed(k - 1, j);
      assert Least(32 * (k + 1) + j) == 2 * Least(32 * k + j);
      assert Pow2(k + 3) == 2 * Pow2(k + 2);
    } else {
      assert Pow2(3) == 8;
    }
  }

  lemma ClassClosed(k: nat, x: nat, size: nat)
    requires 32 <= x < 64 && x * Pow2(k + 3) <= size < (x + 1) * Pow2(k + 3)
    ensures Class(size) == 32 * (k + 1) + (x - 32)
  {
    hide Class, Least, Pow2;
    LeastClosed(k, x - 32);
    LeastClosed(k, x - 31);
    ClassOf(size, 32 * (k + 1) + (x - 32));
  }

  lemma DivInterval(x: nat, p: nat)
    requires p > 0
    ensures (x / p) * p <= x < (x / p + 1) * p
  {
    assert x == p * (x / p) + x % p;
  }

  lemma ShiftInterval(x: nat, k: nat)
    ensures ShiftRight(x, k) * Pow2(k) <= x < (ShiftRight(x, k) + 1) * Pow2(k)
  {
    hide Pow2;
    DivInterval(x, Pow2(k));
  }

  lemma MappingIsClass(size: nat)
    requires size < SIZE_T
    ensures var (fl, sl) := MappingInsert(size);
            0 <= sl < SL_INDEX_COUNT && SL_INDEX_COUNT * fl + sl == Class(size)
  {
    if size >= SMALL_BLOCK_SIZE {
      hide FlsSizet, LargeLevel, Class, Log2;
      FlsIsLog2(size);
      LargeClass(size);
    }
  }

  lemma LargeClass(size: nat)
    requires size >= SMALL_BLOCK_SIZE
    ensures Log2(size) >= 8 && 0 <= LargeLevel(size, Log2(size)) < SL_INDEX_COUNT
    ensures SL_INDEX_COUNT * (Log2(size) - 7) + LargeLevel(size, Log2(size)) == Class(size)
  {
    hide Log2, Pow2, Class, SecondLevel, ShiftRight;
    ShiftedSize(size);
    var f := Log2(size);
    var x := ShiftRight(size, f - 5);
    ShiftInterval(size, f - 5);
    SecondLevelValue(x);
    ClassClosed(f - 8, x, size);
  }

  // mapping_search finds the first class all of whose sizes are at least the request.
  ghost predicate FirstFit(c: nat, size: nat) {
    Least(c) >= size && forall d: nat :: d < c ==> Least(d) < size
  }

  lemma MappingSearchIsFirstFit(size: nat)
    requires size < BLOCK_SIZE_MAX && (size >= SMALL_BLOCK_SIZE || size % ALIGN_SIZE == 0)
    ensures var (fl, sl) := MappingSearch(size);
            0 <= sl < SL_INDEX_COUNT && fl >= 0 && FirstFit(SL_INDEX_COUNT * fl + sl, size)
  {
    hide Class, Least, MappingInsert, FirstFit, RoundUp;
    MappingIsClass(RoundUp(size));
    RoundUpClass(size);
  }

  function RoundUp(size: nat): (r: nat)
    requires size < BLOCK_SIZE_MAX
    ensures size <= r < SIZE_T
  {
    if size >= SMALL_BLOCK_SIZE then
      ShiftedSize(size);
      SearchBound(size);
      FlsIsLog2(size);
      size + Pow2(FlsSizet(size) - SL_INDEX_COUNT_LOG2) - 1
    else size
  }

  lemma RoundUpSmall(size: nat)
    requires size < SMALL_BLOCK_SIZE
    ensures RoundUp(size) == size
  {
    hide FlsSizet;
  }

  lemma RoundUpLog2(size: nat)
    requires SMALL_BLOCK_SIZE <= size < BLOCK_SIZE_MAX
    ensures Log2(size) >= 8 && RoundUp(size) == size + Pow2(Log2(size) - SL_INDEX_COUNT_LOG2) - 1
  {
    hide FlsSizet, Log2, Pow2;
    ShiftedSize(size);
    FlsIsLog2(size);
  }

  lemma RoundUpClass(size: nat)
    requires size < BLOCK_SIZE_MAX && (size >= SMALL_BLOCK_SIZE || size % ALIGN_SIZE == 0)
    ensures FirstFit(Class(RoundUp(size)), size)
    ensures 32 * Least(Class(RoundUp(size))) < 33 * size || size < SMALL_BLOCK_SIZE
  {
    hide Class, Least, RoundUp, Log2, Pow2, FirstFit;
    if size < SMALL_BLOCK_SIZE {
      RoundUpSmall(size);
      SmallClass(size);
    } else {
      RoundUpLog2(size);
      var f := Log2(size);
      Log2Bounds(size);
      TopFive(f - 5);
      RoundedClass(f - 8, size);
    }
  }

  lemma SmallClass(size: nat)
    requires size < SMALL_BLOCK_SIZE && size % ALIGN_SIZE == 0
    ensures FirstFit(Class(size), size)
  {
    ClosestLeast(size / 8, size);
  }

  lemma ClosestLeast(c: nat, size: nat)
    requires Least(c) >= size && (c == 0 || Least(c - 1) < size)
    ensures FirstFit(c, size)
  {
    forall d: nat | d < c ensures Least(d) < size { LeastMono(d, c - 1); }
  }

  lemma RoundedClass(k: nat, size: nat)
    requires 32 * Pow2(k + 3) <= size < 64 * Pow2(k + 3)
    ensures FirstFit(Class(size + Pow2(k + 3) - 1), size)
    ensures Least(Class(size + Pow2(k + 3) - 1)) < size + Pow2(k + 3)
  {
    var w := Pow2(k + 3);
    var u := size + w - 1;
    var x := u / w;
    DivInterval(u, w);
    hide Pow2, Class, Least, FirstFit;
    DivBounds(u, w, 32, 65);
    if x < 64 { RoundedInside(k, size, x); } else { RoundedAcross(k, size); }
  }

  lemma RoundedInside(k: nat, size: nat, x: nat)
    requires 32 * Pow2(k + 3) <= size && 32 <= x < 64
    requires x * Pow2(k + 3) <= size + Pow2(k + 3) - 1 < (x + 1) * Pow2(k + 3)
    ensures FirstFit(Class(size + Pow2(k + 3) - 1), size)
    ensures Least(Class(size + Pow2(k + 3) - 1)) < size + Pow2(k + 3)
  {
    hide Pow2, Class, Least, FirstFit;
    ClassClosed(k, x, size + Pow2(k + 3) - 1);
    var c := 32 * (k + 1) + (x - 32);
    LeastClosed(k, x - 32);
    assert (x + 1) * Pow2(k + 3) == x * Pow2(k + 3) + Pow2(k + 3);
    if x > 32 {
      LeastClosed(k, x - 33);
      assert x * Pow2(k + 3) == (x - 1) * Pow2(k + 3) + Pow2(k + 3);
    } else {
      LeastStep(c - 1);
    }
    ClosestLeast(c, size);
  }

  lemma RoundedAcross(k: nat, size: nat)
    requires size < 64 * Pow2(k + 3) <= size + Pow2(k + 3) - 1
    ensures FirstFit(Class(size + Pow2(k + 3) - 1), size)
    ensures Least(Class(size + Pow2(k + 3) - 1)) < size + Pow2(k + 3)
  {
    assert Pow2(k + 4) == 2 * Pow2(k + 3);
    hide Pow2, Class, Least, FirstFit;
    ClassClosed(k + 1, 32, size + Pow2(k + 3) - 1);
    LeastClosed(k, 32);
    LeastClosed(k, 31);
    ClosestLeast(32 * (k + 2), size);
  }

  // The table has a list for a size exactly when the size is below block_size_max.
  lemma ClassInTable(size: nat)
    ensures Class(size) < CLASSES <==> size < BLOCK_SIZE_MAX
  {
    LeastTop();
    hide Class, Least;
    ClassBounds(size);
    if Class(size) < CLASSES { LeastMono(Class(size) + 1, CLASSES); } else { LeastMono(CLASSES, Class(size)); }
  }

  lemma LeastTop() ensures Least(CLASSES) == BLOCK_SIZE_MAX
  {
    Pow2Small();
    Pow2Add(5, 27);
    assert Pow2(5) == 32;
    LeastClosed(24, 0);
  }

  // The request rounded up to the next class boundary
  function Rounded(size: nat): nat
    requires size < BLOCK_SIZE_MAX
  {
    Least(Class(RoundUp(size)))
  }

  lemma SearchClass(size: nat)
    requires size < BLOCK_SIZE_MAX
    ensures var (fl, sl) := MappingSearch(size);
      && 0 <= sl < SL_INDEX_COUNT && 0 <= fl && 32 * fl + sl == Class(RoundUp(size))
  {
    hide Class, MappingInsert, RoundUp;
    MappingIsClass(RoundUp(size));
  }

  // Good fit: a size whose class is at or above the first fit of a request is at least the request.
  lemma FirstFitLarge(c: nat, size: nat, t: nat)
    requires FirstFit(c, size) && Class(t) >= c
    ensures t >= size
  {
    hide Class, Least;
    ClassBounds(t);
    LeastMono(c, Class(t));
  }

  // What adjust_request_size returns for a request it can serve
  predicate GoodSize(size: nat) {
    BLOCK_SIZE_MIN <= size < BLOCK_SIZE_MAX && size % ALIGN_SIZE == 0
  }

  lemma AdjustGood(size: nat)
    requires size < SIZE_T
    ensures var s := AdjustRequestSize(size, ALIGN_SIZE);
      && (s == 0 || GoodSize(s))
      && (s == 0 <==> size == 0 || BLOCK_SIZE_MAX - 8 < size <= SIZE_T - 8)
      && (size <= SIZE_T - 8 ==> s == 0 || (s >= size && (s < size + 8 || s == BLOCK_SIZE_MIN)))
      && (size > SIZE_T - 8 ==> s == BLOCK_SIZE_MIN)
  {}

  // A request whose adjusted size exceeds a block's size is itself larger, so realloc's move copies the whole block.
  lemma AdjustLarge(size: nat, cur: nat)
    requires size < SIZE_T && cur % ALIGN_SIZE == 0 && BLOCK_SIZE_MIN <= cur < AdjustRequestSize(size, ALIGN_SIZE)
    ensures cur < size
  {}

  // ---- the alignment gap of tlsf_memalign (tlsf.c:1158-1174)

  // (aligned - ptr) after moving to the next boundary if the gap is too small for a free block
  function AlignmentGap(ptr: nat, align: nat): nat
    requires ptr < SIZE_T && 0 < align
  {
    var aligned := AlignUp(ptr, align);
    var gap := (aligned - ptr) % SIZE_T;
    if gap != 0 && gap < HEADER_SIZE then
      var gapRemain := HEADER_SIZE - gap;
      var offset := if gapRemain > align then gapRemain else align;
      var nextAligned := (aligned + offset) % SIZE_T;
      (AlignUp(nextAligned, align) - ptr) % SIZE_T
    else gap
  }

  lemma MulStep(a: nat, b: nat, p: nat)
    requires a < b
    ensures a * p + p <= b * p
  {
    assert b * p == (a + 1) * p + (b - a - 1) * p;
  }

  lemma CeilingDiv(x: nat, align: nat)
    requires 0 < align
    ensures var c := (x + (align - 1)) / align;
      && x <= c * align < x + align
      && x + (align - 1) - (x + (align - 1)) % align == c * align
  {
    var y := x + (align - 1);
    var c := y / align;
    assert y == align * c + y % align;
    assert align * c == c * align;
  }

  lemma AlignUpIs(x: nat, align: nat)
    requires x < SIZE_T && 0 < align <= SIZE_T
    ensures x + (align - 1) < SIZE_T ==> AlignUp(x, align) == x + (align - 1) - (x + (align - 1)) % align
    ensures x + (align - 1) >= SIZE_T ==> AlignUp(x, align) == 0
  {
    var v := x + (align - 1);
    if v >= SIZE_T {
      assert v % SIZE_T == v - SIZE_T;
      SmallMod(v - SIZE_T, align);
    } else {
      assert v % SIZE_T == v;
    }
  }

  lemma SmallMod(v: nat, p: nat)
    requires v < p
    ensures v % p == v
  {}

  // The least multiple of align at or above x, which is at most 2^64
  lemma Ceiling(x: nat, align: nat, t: nat) returns (c: nat)
    requires x < SIZE_T && 0 < align <= SIZE_T && SIZE_T == t * align
    ensures x <= c * align < x + align && c <= t
    ensures AlignUp(x, align) == if c == t then 0 else c * align
  {
    hide AlignUp;
    AlignUpIs(x, align);
    CeilingDiv(x, align);
    c := (x + (align - 1)) / align;
    if c > t { MulStep(t, c, align); }
    if c < t { MulStep(c, t, align); }
  }

  lemma Pow2Divides(k: nat)
    requires k <= 64
    ensures SIZE_T == Pow2(64 - k) * Pow2(k)
  {
    Pow2Small();
    assert Pow2(64) == SIZE_T by { hide Pow2; Square(32, 0x1_0000_0000); }
    hide Pow2;
    Pow2Add(64 - k, k);
  }

  lemma Pow2Low(k: nat)
    ensures k < 5 ==> Pow2(k) == 1 || Pow2(k) == 2 || Pow2(k) == 4 || Pow2(k) == 8 || Pow2(k) == 16
    ensures k >= 5 ==> Pow2(k) >= 32 && Pow2(k) % 32 == 0
  {
    if k >= 5 {
      TopFive(k - 5);
      hide Pow2;
    } else if k == 0 {} else if k == 1 {} else if k == 2 {} else if k == 3 {} else {}
  }

  lemma Pow2Below(k: nat)
    requires Pow2(k) < SIZE_T
    ensures k < 64
  {
    Pow2Divides(0);
    hide Pow2;
    if k >= 64 { Pow2Mono(64, k); }
  }

  lemma Pow2Shape(align: nat) returns (t: nat)
    requires IsPow2(align) && align < SIZE_T
    ensures SIZE_T == t * align
    ensures align == 1 || align == 2 || align == 4 || align == 8 || align == 16 || (align >= 32 && align % 32 == 0)
  {
    var k: nat :| align == Pow2(k);
    Pow2Below(k);
    Pow2Divides(k);
    Pow2Low(k);
    t := Pow2(64 - k);
  }

  // The gap is nothing, or large enough for a free block, and at most align + 24; it leads to an aligned address.
  lemma GapRange(ptr: nat, align: nat)
    requires IsPow2(align) && 0 < align < SIZE_T && ptr < SIZE_T && ptr % 8 == 0
    ensures GapGood(ptr, align, AlignmentGap(ptr, align))
  {
    hide AlignUp, AlignmentGap, IsPow2, GapGood;
    var t := Pow2Shape(align);
    var c := Ceiling(ptr, align, t);
    GapOfCeiling(ptr, align, t, c);
  }

  lemma GapOfCeiling(ptr: nat, align: nat, t: nat, c: nat)
    requires ptr < SIZE_T && ptr % 8 == 0 && 0 < align < SIZE_T && SIZE_T == t * align
    requires ptr <= c * align < ptr + align && c <= t
    requires align == 1 || align == 2 || align == 4 || align == 8 || align == 16 || (align >= 32 && align % 32 == 0)
    requires AlignUp(ptr, align) == if c == t then 0 else c * align
    ensures GapGood(ptr, align, AlignmentGap(ptr, align))
  {
    hide AlignUp, AlignmentGap, GapGood;
    var g := FirstGap(ptr, align, t, c);
    if align <= 8 { SmallGap(ptr, align, c); } else { AlignOfEight(align); }
    if g == 0 || g >= 32 {
      GapDirect(ptr, align, c, g);
    } else if align == 16 {
      GapBump(ptr, t, c);
    } else {
      GapJump(ptr, align, t, c, g);
    }
  }

  lemma AlignOfEight(align: nat)
    requires align == 16 || (align >= 32 && align % 32 == 0)
    ensures align % 8 == 0
  {}

  lemma GapDirect(ptr: nat, align: nat, c: nat, g: nat)
    requires ptr < SIZE_T && ptr % 8 == 0 && ptr + g == c * align && g < align && (g == 0 || g >= 32)
    requires g == (AlignUp(ptr, align) - ptr) % SIZE_T && (g != 0 ==> align % 8 == 0)
    ensures GapGood(ptr, align, AlignmentGap(ptr, align))
  {
    hide AlignUp, AlignmentGap, GapGood;
    GapIs(ptr, align);
    if g != 0 { NoMultiple(ptr, align, c); }
    GapGoodIntro(ptr, align, c, g);
  }

  lemma GapBump(ptr: nat, t: nat, c: nat)
    requires ptr < SIZE_T && ptr % 8 == 0 && SIZE_T == t * 16 && ptr < c * 16 < ptr + 16 && c <= t
    requires AlignUp(ptr, 16) == if c == t then 0 else c * 16
    ensures GapGood(ptr, 16, AlignmentGap(ptr, 16))
  {
    hide AlignUp, AlignmentGap, GapGood;
    Gap16(ptr, t, c);
    NoMultiple(ptr, 16, c);
    GapGoodIntro(ptr, 16, c + 2, 40);
  }

  lemma GapJump(ptr: nat, align: nat, t: nat, c: nat, g: nat)
    requires ptr < SIZE_T && ptr % 8 == 0 && 32 <= align < SIZE_T && align % 8 == 0 && SIZE_T == t * align && c <= t
    requires 0 < g < 32 && ptr + g == c * align
    requires AlignUp(ptr, align) == if c == t then 0 else c * align
    ensures GapGood(ptr, align, AlignmentGap(ptr, align))
  {
    hide AlignUp, AlignmentGap, GapGood;
    GapLarge(ptr, align, t, c);
    var d := c + 1;
    assert ptr + (g + align) == d * align;
    NoMultiple(ptr, align, c);
    GapGoodIntro(ptr, align, d, g + align);
  }

  predicate MultipleOf(p: int, align: nat) { align > 0 && p % align == 0 }

  // No multiple of align comes before ptr + gap, be it at ptr itself or behind room for a free block.
  ghost predicate LeastGap(ptr: int, align: nat, gap: nat) {
    forall x: int :: MultipleOf(x, align) && (x == ptr || x >= ptr + HEADER_SIZE) ==> ptr + gap <= x
  }

  // The usable gap before an aligned address
  ghost predicate GapGood(ptr: nat, align: nat, gap: nat) {
    && gap % 8 == 0 && (gap == 0 || HEADER_SIZE <= gap <= align + 24)
    && MultipleOf(ptr + gap, align) && LeastGap(ptr, align, gap) && (align <= ALIGN_SIZE ==> gap == 0)
  }

  lemma GapGoodIntro(ptr: nat, align: nat, c: nat, gap: nat)
    requires 0 < align && ptr % 8 == 0 && ptr + gap == c * align
    requires gap == 0 || (HEADER_SIZE <= gap <= align + 31 && align % 8 == 0 && align > 8)
    requires gap == 0 || (!MultipleOf(ptr, align) && (c - 1) * align < ptr + HEADER_SIZE)
    ensures GapGood(ptr, align, gap)
  {
    MultipleMod(c, align);
    if gap != 0 {
      GapMod8(ptr, align, c);
      MultipleBound(align, gap);
      LeastGapIntro(ptr, align, c, gap);
    }
  }

  lemma LeastGapIntro(ptr: nat, align: nat, c: nat, gap: nat)
    requires ptr + gap == c * align && !MultipleOf(ptr, align) && (c - 1) * align < ptr + HEADER_SIZE
    ensures LeastGap(ptr, align, gap)
  {
    forall x: int | MultipleOf(x, align) && (x == ptr || x >= ptr + HEADER_SIZE) ensures ptr + gap <= x {
      if x < ptr + gap { Between(x, align, c); }
    }
  }

  lemma Between(x: nat, align: nat, c: nat)
    requires MultipleOf(x, align) && x < c * align
    ensures x <= (c - 1) * align
  {
    var d := Quotient(x, align);
    hide MultipleOf;
    OneLess(d, c, align);
  }

  lemma Quotient(x: nat, p: nat) returns (d: nat)
    requires MultipleOf(x, p)
    ensures p > 0 && x == d * p
  {
    d := x / p;
    assert x == p * d + x % p && p * d == d * p;
  }

  lemma OneLess(d: nat, c: nat, p: nat)
    requires p > 0 && d * p < c * p
    ensures c > 0 && d * p <= (c - 1) * p
  {
    Cancel(d, c, p);
    MulMono(d, c - 1, p);
  }

  lemma NoMultiple(x: nat, align: nat, c: nat)
    requires 0 < align && x < c * align < x + align
    ensures !MultipleOf(x, align)
  {
    if MultipleOf(x, align) { Between(x, align, c); }
  }

  lemma MultipleBound(align: nat, gap: nat)
    requires align % 8 == 0 && gap % 8 == 0 && gap <= align + 31
    ensures gap <= align + 24
  {}

  lemma MultipleMod(c: nat, p: nat)
    requires p > 0
    ensures (c * p) % p == 0
  {
    var q, r := c * p / p, c * p % p;
    assert c * p == p * q + r;
    assert p * q == q * p;
    if q < c { MulStep(q, c, p); } else if q > c { MulStep(c, q, p); }
  }

  lemma GapMod8(ptr: nat, align: nat, c: nat)
    requires ptr % 8 == 0 && align % 8 == 0 && ptr <= c * align
    ensures (c * align - ptr) % 8 == 0
  {
    var e := align / 8;
    assert c * align == 8 * (c * e);
  }

  lemma GapIs(ptr: nat, align: nat)
    requires ptr < SIZE_T && 0 < align
    ensures var gap := (AlignUp(ptr, align) - ptr) % SIZE_T;
      gap == 0 || gap >= HEADER_SIZE ==> AlignmentGap(ptr, align) == gap
  {
    hide AlignUp;
  }

  lemma FirstGap(ptr: nat, align: nat, t: nat, c: nat) returns (g: nat)
    requires ptr < SIZE_T && 0 < align < SIZE_T && SIZE_T == t * align && ptr <= c * align < ptr + align && c <= t
    requires AlignUp(ptr, align) == if c == t then 0 else c * align
    ensures g == c * align - ptr && (AlignUp(ptr, align) - ptr) % SIZE_T == g < align
  {
    hide AlignUp;
    g := c * align - ptr;
  }

  lemma SmallGap(ptr: nat, align: nat, c: nat)
    requires align == 1 || align == 2 || align == 4 || align == 8
    requires ptr % 8 == 0 && ptr <= c * align < ptr + align
    ensures c * align == ptr
  {
    MultipleMod(c, align);
    NoGap(ptr, align, c * align);
  }

  lemma NoGap(ptr: nat, align: nat, y: nat)
    requires align == 1 || align == 2 || align == 4 || align == 8
    requires ptr % 8 == 0 && ptr <= y < ptr + align && y % align == 0
    ensures y == ptr
  {
    Halves(ptr);
    MultipleNext(ptr, y, align);
  }

  lemma Halves(x: nat)
    requires x % 8 == 0
    ensures x % 4 == 0 && x % 2 == 0
  {
    var k := x / 8;
    assert x == 4 * (2 * k) && x == 2 * (4 * k);
  }

  lemma MultipleNext(x: nat, y: nat, p: nat)
    requires p > 0 && x % p == 0 && y % p == 0 && x <= y < x + p
    ensures x == y
  {
    var a, b := x / p, y / p;
    assert x == p * a + x % p && y == p * b + y % p;
    assert a * p == p * a && b * p == p * b;
    if a < b { MulStep(a, b, p); }
  }

  lemma ModChain(a0: nat, ptr: nat, k: nat, g: nat)
    requires a0 < SIZE_T && ptr < SIZE_T && (a0 - ptr) % SIZE_T == g && g + k < SIZE_T
    ensures ((a0 + k) % SIZE_T - ptr) % SIZE_T == g + k
  {}

  lemma Align16(x: nat)
    requires x < SIZE_T && x % 16 == 8
    ensures AlignUp(x, 16) == (x + 8) % SIZE_T
  {}

  lemma Gap16(ptr: nat, t: nat, c: nat)
    requires ptr < SIZE_T && ptr % 8 == 0 && SIZE_T == t * 16 && ptr < c * 16 < ptr + 16 && c <= t
    requires AlignUp(ptr, 16) == if c == t then 0 else c * 16
    ensures AlignmentGap(ptr, 16) == 40 && ptr + 40 == (c + 2) * 16
  {
    hide AlignUp;
    var a0 := AlignUp(ptr, 16);
    var g := FirstGap(ptr, 16, t, c);
    assert g == 8;
    Bump16(a0, ptr);
  }

  lemma Bump16(a0: nat, ptr: nat)
    requires a0 < SIZE_T && ptr < SIZE_T && a0 % 16 == 0 && (a0 - ptr) % SIZE_T == 8
    ensures (AlignUp((a0 + 24) % SIZE_T, 16) - ptr) % SIZE_T == 40
  {
    hide AlignUp;
    var next := (a0 + 24) % SIZE_T;
    Align16(next);
    ModChain(a0, ptr, 32, 8);
  }

  lemma AlignedUp(x: nat, align: nat, q: nat, t: nat)
    requires 0 < align && SIZE_T == t * align && x == q * align < SIZE_T
    ensures AlignUp(x, align) == x
  {
    if q >= t { MulMono(t, q, align); }
    MulStep(q, t, align);
    CeilingDiv(x, align);
    var c := (x + (align - 1)) / align;
    if c > q { MulStep(q, c, align); }
    if c < q { MulStep(c, q, align); }
  }

  lemma MulMono(a: nat, b: nat, p: nat)
    requires a <= b
    ensures a * p <= b * p
  {}

  lemma GapLarge(ptr: nat, align: nat, t: nat, c: nat)
    requires ptr < SIZE_T && 32 <= align < SIZE_T && SIZE_T == t * align && ptr < c * align < ptr + 32 && c <= t
    requires AlignUp(ptr, align) == if c == t then 0 else c * align
    ensures AlignmentGap(ptr, align) == c * align - ptr + align == (c + 1) * align - ptr
  {
    hide AlignUp;
    var a0 := AlignUp(ptr, align);
    var g := FirstGap(ptr, align, t, c);
    var next := (a0 + align) % SIZE_T;
    NextMultiple(align, t, c, a0);
    assert AlignUp(next, align) == next;
    ModChain(a0, ptr, align, g);
  }

  lemma NextMultiple(align: nat, t: nat, c: nat, a0: nat)
    requires 32 <= align < SIZE_T && SIZE_T == t * align && c <= t && a0 == if c == t then 0 else c * align
    ensures AlignUp((a0 + align) % SIZE_T, align) == (a0 + align) % SIZE_T
  {
    hide AlignUp;
    assert (c + 1) * align == c * align + align;
    if c == t {
      assert 1 * align == align;
      AlignedUp(align, align, 1, t);
    } else {
      MulStep(c, t, align);
      if c + 1 == t {
        AlignedUp(0, align, 0, t);
      } else {
        MulStep(c + 1, t, align);
        AlignedUp((c + 1) * align, align, c + 1, t);
      }
    }
  }

  function GapRequest(adjust: nat, align: nat): nat
    requires 0 < align
  {
    AdjustRequestSize((adjust + align + HEADER_SIZE) % SIZE_T, align)
  }

  // The size tlsf_memalign asks for (tlsf.c:1143): enough for the request, the alignment and a leading free block.
  lemma SizeWithGap(adjust: nat, align: nat)
    requires IsPow2(align) && 8 < align < SIZE_T && GoodSize(adjust)
    ensures var s := GapRequest(adjust, align);
      && (s == 0 || GoodSize(s))
      && (align <= 0x4000_0000_0000_0000 && s != 0 ==> s >= adjust + align + HEADER_SIZE)
  {
    hide IsPow2, AlignUp;
    var t := Pow2Shape(align);
    GapRequestGood((adjust + align + HEADER_SIZE) % SIZE_T, align);
    if align <= 0x4000_0000_0000_0000 {
      AlignUpLarge(adjust + align + HEADER_SIZE, align);
    }
  }

  // It is enough exactly when the alignment is below 2^63: for 2^63 itself align_up wraps, and 24 bytes are asked for.
  lemma SizeWithGapExact(adjust: nat, align: nat)
    requires IsPow2(align) && 8 < align < SIZE_T && GoodSize(adjust)
    ensures var s := GapRequest(adjust, align);
      (s == 0 || s >= adjust + align + HEADER_SIZE) <==> align < TOP_ALIGN
  {
    hide GapRequest, IsPow2;
    if align <= 0x4000_0000_0000_0000 {
      SizeWithGap(adjust, align);
    } else {
      TopAlign(align);
      WrappedGap(adjust);
    }
  }

  lemma TopAlign(align: nat)
    requires IsPow2(align) && 0x4000_0000_0000_0000 < align < SIZE_T
    ensures align == TOP_ALIGN
  {
    var k: nat :| align == Pow2(k);
    Pow2Below(k);
    AlignLog(62);
    Pow2Small();
    Pow2Add(31, 31);
    Pow2Add(31, 32);
    hide Pow2;
    if k <= 62 { Pow2Mono(k, 62); }
  }

  lemma WrappedGap(adjust: nat)
    requires GoodSize(adjust)
    ensures GapRequest(adjust, TOP_ALIGN) == BLOCK_SIZE_MIN
  {
    var x := adjust + TOP_ALIGN + HEADER_SIZE;
    assert x % SIZE_T == x;
    assert (x + 0x7fff_ffff_ffff_ffff) % SIZE_T == adjust + 31;
    SmallMod(adjust + 31, TOP_ALIGN);
  }

  // The size tlsf_memalign looks for (tlsf.c:1131-1154)
  function MemalignRequest(size: nat, align: nat): nat
    requires 0 < align
  {
    var adjust := AdjustRequestSize(size, ALIGN_SIZE);
    if adjust != 0 && align > ALIGN_SIZE then GapRequest(adjust, align) else adjust
  }

  lemma GapRequestGood(x: nat, align: nat)
    requires align == 16 || (align >= 32 && align % 32 == 0)
    ensures var s := AdjustRequestSize(x, align); s == 0 || GoodSize(s)
  {
    hide AlignUp;
    AlignUpMod8(x, align);
  }

  lemma FloorMod8(v: nat, p: nat, e: nat)
    requires p == 8 * e && e > 0
    ensures (v - v % p) % 8 == 0
  {
    var q := v / p;
    assert v == p * q + v % p;
    assert p * q == 8 * (e * q);
  }

  lemma AlignUpMod8(x: nat, align: nat)
    requires align == 16 || (align >= 32 && align % 32 == 0)
    ensures AlignUp(x, align) % 8 == 0
  {
    Eighth(align);
    FloorMod8((x + (align - 1)) % SIZE_T, align, align / 8);
  }

  lemma Eighth(align: nat)
    requires align == 16 || (align >= 32 && align % 32 == 0)
    ensures align == 8 * (align / 8)
  {}

  lemma AlignUpLarge(x: nat, align: nat)
    requires 0 < align && x + (align - 1) < SIZE_T
    ensures AlignUp(x, align) >= x
  {}

  lemma Pow2Positive(align: nat)
    requires IsPow2(align)
    ensures align > 0
  {}

  // tlsf_add_pool: the bytes left for blocks, and the headers of the first block and of the sentinel
  function PoolBytes(bytes: nat): nat {
    AlignDown((bytes - 2 * HEADER_OVERHEAD) % SIZE_T, ALIGN_SIZE)
  }

  // Rounded down to whole words; fewer than 16 bytes wrap to a size that is refused.
  lemma PoolBytesFit(bytes: nat)
    requires bytes < SIZE_T
    ensures PoolBytes(bytes) % ALIGN_SIZE == 0
    ensures bytes >= 16 ==> PoolBytes(bytes) + 16 <= bytes < PoolBytes(bytes) + 24
    ensures bytes < 16 ==> PoolBytes(bytes) > BLOCK_SIZE_MAX
  {}

  function PoolFirst(mem: nat): int { mem / 8 - 1 }
  function PoolLast(mem: nat, bytes: nat): int { PoolFirst(mem) + 1 + PoolBytes(bytes) / 8 }

  lemma AlignLog(log: nat)
    requires log <= 63
    ensures IsPow2(Pow2(log)) && Pow2(log) <= TOP_ALIGN
    ensures log <= 62 ==> Pow2(log) <= 0x4000_0000_0000_0000
  {
    Pow2Small();
    Pow2Add(31, 31);
    Pow2Add(31, 32);
    hide Pow2;
    Pow2Mono(log, 63);
    if log <= 62 { Pow2Mono(log, 62); }
  }

  lemma SmallRounded(size: nat)
    requires size < SMALL_BLOCK_SIZE && size % ALIGN_SIZE == 0
    ensures Rounded(size) == size
  {}

  // A pool of block_size_max bytes passes tlsf_add_pool's test, but its block has no list.
  lemma MaxPoolOffTable(size: nat)
    requires size <= BLOCK_SIZE_MAX
    ensures MappingInsert(size).0 < FL_INDEX_COUNT <==> size < BLOCK_SIZE_MAX
  {
    hide MappingInsert, Class;
    MappingIsClass(size);
    ClassInTable(size);
  }
}
