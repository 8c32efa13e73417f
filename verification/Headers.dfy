// The size word and its flags, and the header writes of tlsf.c as functions on the memory.
module Headers {
  import Bits
  import opened Bitwise
  import opened Blocks

  // ---- the size word: size in bytes, bit 0 free, bit 1 previous block free

  // block->size & ~3
  function SizeOf(w: int): int { w - w % 4 }

  // size | (oldsize & 3), for sizes that are multiples of 4
  function WithSize(w: int, size: int): int { size + w % 4 }

  predicate IsFree(w: int) { w % 2 == 1 }
  predicate IsPrevFree(w: int) { w % 4 >= 2 }
  function OrFree(w: int): int { if IsFree(w) then w else w + 1 }
  function AndNotFree(w: int): int { if IsFree(w) then w - 1 else w }
  function OrPrevFree(w: int): int { if IsPrevFree(w) then w else w + 2 }
  function AndNotPrevFree(w: int): int { if IsPrevFree(w) then w - 2 else w }

  function Flags(n: nat, f: bool, p: bool): nat {
    8 * n + (if f then 1 else 0) + (if p then 2 else 0)
  }

  lemma FlagOps(n: nat, f: bool, p: bool, k: nat)
    ensures var w := Flags(n, f, p);
      && SizeOf(w) == 8 * n && (IsFree(w) <==> f) && (IsPrevFree(w) <==> p)
      && WithSize(w, 8 * k) == Flags(k, f, p)
      && OrFree(w) == Flags(n, true, p) && AndNotFree(w) == Flags(n, false, p)
      && OrPrevFree(w) == Flags(n, f, true) && AndNotPrevFree(w) == Flags(n, f, false)
  {
    LowBits(2 * n, (if f then 1 else 0) + (if p then 2 else 0));
  }

  // The operations in C's own operators on a 64-bit word: block_header_free_bit is 1, block_header_prev_free_bit is 2.
  lemma FlagBits(w: nat, size: nat)
    requires w < SIZE_T && size < SIZE_T && size % 4 == 0
    ensures SizeOf(w) == BitAnd(w, BitNot(BitOr(1, 2)))
    ensures WithSize(w, size) == BitOr(size, BitAnd(w, BitOr(1, 2)))
    ensures IsFree(w) <==> BitAnd(w, 1) != 0
    ensures IsPrevFree(w) <==> BitAnd(w, 2) != 0
    ensures OrFree(w) == BitOr(w, 1) && AndNotFree(w) == BitAnd(w, BitNot(1))
    ensures OrPrevFree(w) == BitOr(w, 2) && AndNotPrevFree(w) == BitAnd(w, BitNot(2))
  {
    BothFlags();
    hide BitAnd, BitOr, BitNot, Bits.Pow2;
    LowBitOps(w);
    SecondBitOps(w);
    AndNotLow(w, 2);
    AndLow(w, 2);
    OrApart(size, w % 4, 2);
  }

  lemma BothFlags()
    ensures BitOr(1, 2) == 3 && Bits.Pow2(2) == 4
  {
    assert BitOr(0, 1) == 1;
  }

  lemma LowBits(q: int, e: int)
    requires 0 <= e < 4
    ensures (4 * q + e) % 4 == e && (4 * q + e) % 2 == e % 2
  {
    LowBit(2 * q + e / 2, e % 2);
    assert 2 * (2 * q + e / 2) + e % 2 == 4 * q + e;
  }

  lemma LowBit(q: int, e: int)
    requires 0 <= e < 2
    ensures (2 * q + e) % 2 == e
  {}

  lemma TagFlags(h: Heap, a: int)
    requires a in h
    ensures Tag(h, a) == Flags(h[a].words, h[a].free, PrevFree(h, a))
    ensures SizeOf(Tag(h, a)) == 8 * h[a].words
    ensures IsFree(Tag(h, a)) <==> h[a].free
    ensures IsPrevFree(Tag(h, a)) <==> PrevFree(h, a)
  {
    hide SizeOf, IsFree, IsPrevFree, OrFree, OrPrevFree, AndNotFree, AndNotPrevFree, WithSize;
    FlagOps(h[a].words, h[a].free, PrevFree(h, a), 0);
  }

  // ---- header operations as functions on the memory

  // block_next
  function NextHeader(m: Words, a: int): int
    requires 0 <= a && a + 1 < |m|
  {
    a + 1 + SizeOf(m[a + 1]) / 8
  }

  ghost predicate HasNext(m: Words, a: int) {
    0 <= a && a + 1 < |m| && 0 <= NextHeader(m, a) && NextHeader(m, a) + 1 < |m|
  }

  // block_mark_as_free
  function MarkFree(m: Words, a: int): Words
    requires HasNext(m, a)
  {
    var n := NextHeader(m, a);
    var m1 := m[n := a];
    var m2 := m1[n + 1 := OrPrevFree(m1[n + 1])];
    m2[a + 1 := OrFree(m2[a + 1])]
  }

  // block_mark_as_used
  function MarkUsed(m: Words, a: int): Words
    requires HasNext(m, a)
  {
    var n := NextHeader(m, a);
    var m1 := m[n + 1 := AndNotPrevFree(m[n + 1])];
    m1[a + 1 := AndNotFree(m1[a + 1])]
  }

  lemma NextIs(m: Words, nul: int, h: Heap, a: int)
    requires Tiled(h) && Tagged(m, nul, h) && a in h && h[a].words != 0
    ensures Next(h, a) in h && 0 < a && Next(h, a) + 1 < |m|
    ensures NextHeader(m, a) == Next(h, a)
  {
    assert BlockOk(h, a);
    assert TagOk(m, nul, h, a);
    assert TagOk(m, nul, h, Next(h, a));
    TagFlags(h, a);
  }

  // ---- a step that rewrites headers only between block a and a later block e

  ghost predicate Beyond(a: int, e: int, c: int) { c < a || c > e }

  // h' differs from h only in the headers from a to e.
  ghost predicate SameBeyond(h: Heap, h': Heap, a: int, e: int) {
    && (forall c :: c in h && Beyond(a, e, c) ==> c in h' && h'[c] == h[c])
    && (forall c :: c in h' && Beyond(a, e, c) ==> c in h)
  }

  // m' differs from m only in the header words from a to e, leaving out a's own prev_phys word.
  ghost predicate SameWords(m: Words, m': Words, a: int, e: int) {
    |m'| == |m| && forall i {:trigger m'[i]} :: 0 <= i < |m| && (i <= a || i > e + 1) ==> m'[i] == m[i]
  }

  lemma BeyondHeader(h: Heap, a: int, e: int, c: int)
    requires Tiled(h) && a in h && e in h && a < e && c in h && Beyond(a, e, c)
    ensures c + 1 <= a || c + 1 > e + 1
    ensures h[c].prev != -1 ==> c <= a || c > e + 1
    ensures h[c].prev == e || Beyond(a, e, h[c].prev) || h[c].prev == -1
  {
    assert BlockOk(h, c);
    if h[c].prev != -1 {
      var q := h[c].prev;
      assert BlockOk(h, q);
      assert BlockOk(h, e);
      assert Apart(h, q, e);
      assert Apart(h, e, c);
    }
  }

  lemma TaggedAround(m: Words, m': Words, nul: int, h: Heap, h': Heap, a: int, e: int)
    requires Tiled(h) && Tagged(m, nul, h) && a in h && e in h && a < e
    requires SameBeyond(h, h', a, e) && SameWords(m, m', a, e)
    requires e in h' && h'[e].free == h[e].free
    requires forall c {:trigger TagOk(m', nul, h', c)} :: c in h' && a <= c <= e ==> TagOk(m', nul, h', c)
    ensures Tagged(m', nul, h')
  {
    assert TagOk(m, nul, h, a);
    forall c {:trigger TagOk(m', nul, h', c)} | c in h' ensures TagOk(m', nul, h', c) {
      if Beyond(a, e, c) {
        assert TagOk(m, nul, h, c);
        BeyondHeader(h, a, e, c);
        assert -1 in h ==> BlockOk(h, -1);
      }
    }
  }

  lemma MarkIs(m: Words, nul: int, h: Heap, a: int)
    requires Tiled(h) && Tagged(m, nul, h) && a in h && h[a].words != 0
    ensures 0 < a && Next(h, a) in h && Next(h, a) + 1 < |m| && HasNext(m, a)
    ensures var n := Next(h, a);
      && MarkFree(m, a) == m[n := a][n + 1 := Flags(h[n].words, h[n].free, true)]
                            [a + 1 := Flags(h[a].words, true, PrevFree(h, a))]
      && MarkUsed(m, a) == m[n + 1 := Flags(h[n].words, h[n].free, false)]
                            [a + 1 := Flags(h[a].words, false, PrevFree(h, a))]
  {
    NextIs(m, nul, h, a);
    var n := Next(h, a);
    assert TagOk(m, nul, h, a) && TagOk(m, nul, h, n);
    hide MarkFree, MarkUsed, HasNext;
    MarkRaw(m, a, h[a].words, h[a].free, PrevFree(h, a), h[n].words, h[n].free, PrevFree(h, n));
  }

  lemma MarkRaw(m: Words, a: int, k: nat, f: bool, p: bool, nk: nat, nf: bool, np: bool)
    requires 0 < a && 0 < k && a + 2 + k < |m|
    requires m[a + 1] == Flags(k, f, p) && m[a + 2 + k] == Flags(nk, nf, np)
    ensures HasNext(m, a)
    ensures var n := a + 1 + k;
      && MarkFree(m, a) == m[n := a][n + 1 := Flags(nk, nf, true)][a + 1 := Flags(k, true, p)]
      && MarkUsed(m, a) == m[n + 1 := Flags(nk, nf, false)][a + 1 := Flags(k, false, p)]
  {
    hide OrFree, OrPrevFree, AndNotFree, AndNotPrevFree, SizeOf, Flags;
    FlagOps(k, f, p, 0);
    FlagOps(nk, nf, np, 0);
  }

  lemma MarkedTagged(m: Words, m': Words, nul: int, h: Heap, a: int, f: bool)
    requires Tiled(h) && Tagged(m, nul, h) && a in h && h[a].words != 0 && Next(h, a) in h
    requires var n := Next(h, a);
      && 0 < a && n + 1 < |m| && SameWords(m, m', a, n)
      && m'[a + 1] == Flags(h[a].words, f, PrevFree(h, a))
      && m'[n + 1] == Flags(h[n].words, h[n].free, f) && (f ==> m'[n] == a)
    ensures Tagged(m', nul, SetFree(h, a, f))
  {
    var n := Next(h, a);
    var h' := SetFree(h, a, f);
    assert BlockOk(h, a) && BlockOk(h, n);
    assert TagOk(m, nul, h, a) && TagOk(m, nul, h, n);
    assert TagOk(m', nul, h', a);
    assert TagOk(m', nul, h', n);
    forall c {:trigger TagOk(m', nul, h', c)} | c in h' && a <= c <= n ensures c == a || c == n {
      assert Apart(h, a, c);
    }
    hide TagOk;
    TaggedAround(m, m', nul, h, h', a, n);
  }

  lemma MarkFreeTagged(m: Words, nul: int, h: Heap, a: int)
    requires Tiled(h) && Tagged(m, nul, h) && a in h && h[a].words != 0
    ensures HasNext(m, a) && Tagged(MarkFree(m, a), nul, SetFree(h, a, true))
  {
    MarkIs(m, nul, h, a);
    hide MarkFree, MarkUsed, Tiled, Tagged, Flags, PrevFree;
    MarkedTagged(m, MarkFree(m, a), nul, h, a, true);
  }

  lemma MarkUsedTagged(m: Words, nul: int, h: Heap, a: int)
    requires Tiled(h) && Tagged(m, nul, h) && a in h && h[a].words != 0
    ensures HasNext(m, a) && Tagged(MarkUsed(m, a), nul, SetFree(h, a, false))
  {
    MarkIs(m, nul, h, a);
    hide MarkFree, MarkUsed, Tiled, Tagged, Flags, PrevFree;
    MarkedTagged(m, MarkUsed(m, a), nul, h, a, false);
  }

  // block_split: the new header takes over whatever flag bits its memory holds.
  function SplitWords(m: Words, a: int, size: nat): Words
    requires 0 <= a && a + 1 < |m| && 0 <= a + 1 + size / 8 && a + 2 + size / 8 < |m|
    requires HasNext(SplitSizes(m, a, size), a + 1 + size / 8)
  {
    MarkFree(SplitSizes(m, a, size), a + 1 + size / 8)
  }

  function SplitSizes(m: Words, a: int, size: nat): Words
    requires 0 <= a && a + 1 < |m| && 0 <= a + 1 + size / 8 && a + 2 + size / 8 < |m|
  {
    var r := a + 1 + size / 8;
    var m1 := m[r + 1 := WithSize(m[r + 1], SizeOf(m[a + 1]) - (size + 8))];
    m1[a + 1 := WithSize(m1[a + 1], size)]
  }

  ghost predicate Splittable(m: Words, a: int, size: nat) {
    && 0 <= a && a + 1 < |m| && 0 <= a + 1 + size / 8 && a + 2 + size / 8 < |m|
    && HasNext(SplitSizes(m, a, size), a + 1 + size / 8)
  }

  // block_split on a free block, then block_link_next and block_set_prev_free (tlsf.c:721-723, 749-752)
  ghost function FreeSplit(m: Words, a: int, size: nat): Words
    requires Splittable(m, a, size)
  {
    var r := a + 1 + size / 8;
    var m1 := SplitWords(m, a, size);
    m1[r := a][r + 1 := OrPrevFree(m1[r + 1])]
  }

  // block_split on a used block, then block_set_prev_used (tlsf.c:735-736)
  ghost function UsedSplit(m: Words, a: int, size: nat): Words
    requires Splittable(m, a, size)
  {
    var r := a + 1 + size / 8;
    var m1 := SplitWords(m, a, size);
    m1[r + 1 := AndNotPrevFree(m1[r + 1])]
  }

  // block_absorb
  function AbsorbWords(m: Words, a: int, x: int): Words
    requires 0 <= a && a + 1 < |m| && 0 <= x && x + 1 < |m|
    requires HasNext(AbsorbSize(m, a, x), a)
  {
    var m1 := AbsorbSize(m, a, x);
    m1[NextHeader(m1, a) := a]
  }

  function AbsorbSize(m: Words, a: int, x: int): Words
    requires 0 <= a && a + 1 < |m| && 0 <= x && x + 1 < |m|
  {
    m[a + 1 := m[a + 1] + SizeOf(m[x + 1]) + 8]
  }

  lemma AbsorbIs(m: Words, nul: int, h: Heap, a: int)
    requires Tiled(h) && Tagged(m, nul, h) && a in h && h[a].words != 0
    requires Next(h, a) in h && h[Next(h, a)].free
    ensures 0 < a && Next(h, a) + 1 < |m| && Next(h, Next(h, a)) in h && Next(h, Next(h, a)) + 1 < |m|
    ensures HasNext(AbsorbSize(m, a, Next(h, a)), a)
    ensures NextHeader(AbsorbSize(m, a, Next(h, a)), a) == Next(h, Next(h, a))
    ensures AbsorbWords(m, a, Next(h, a)) ==
      m[a + 1 := Flags(h[a].words + 1 + h[Next(h, a)].words, h[a].free, PrevFree(h, a))][Next(h, Next(h, a)) := a]
  {
    var x := Next(h, a);
    assert BlockOk(h, a) && BlockOk(h, x);
    NextIs(m, nul, h, a);
    NextIs(m, nul, h, x);
    assert TagOk(m, nul, h, a) && TagOk(m, nul, h, x);
    var k := h[a].words + 1 + h[x].words;
    FlagOps(h[a].words, h[a].free, PrevFree(h, a), 0);
    FlagOps(h[x].words, true, PrevFree(h, x), 0);
    FlagOps(k, h[a].free, PrevFree(h, a), 0);
    hide SizeOf, Tiled, Tagged, BlockOk, PrevFree;
    assert AbsorbSize(m, a, x) == m[a + 1 := Flags(k, h[a].free, PrevFree(h, a))];
  }

  lemma AbsorbFreeTagged(m: Words, nul: int, h: Heap, a: int)
    requires Tiled(h) && Tagged(m, nul, h) && a in h && h[a].free
    requires Next(h, a) in h && h[Next(h, a)].free
    ensures 0 < a && Next(h, a) + 1 < |m| && Next(h, Next(h, a)) in h && HasNext(AbsorbSize(m, a, Next(h, a)), a)
    ensures Tagged(AbsorbWords(m, a, Next(h, a)), nul, Absorb(h, a))
  {
    assert BlockOk(h, a);
    AbsorbIs(m, nul, h, a);
    assert TagOk(m, nul, h, Next(h, Next(h, a))) by { assert BlockOk(h, Next(h, a)); }
    assert PrevFree(h, Next(h, Next(h, a))) by { assert BlockOk(h, Next(h, a)); }
    AbsorbedTagged(m, AbsorbWords(m, a, Next(h, a)), nul, h, a);
  }

  lemma AbsorbUsedTagged(m: Words, nul: int, h: Heap, a: int)
    requires Tiled(h) && Tagged(m, nul, h) && a in h && h[a].words != 0 && !h[a].free
    requires Next(h, a) in h && h[Next(h, a)].free
    ensures 0 < a && Next(h, a) + 1 < |m| && Next(h, Next(h, a)) in h && HasNext(AbsorbSize(m, a, Next(h, a)), a)
    ensures HasNext(AbsorbWords(m, a, Next(h, a)), a)
    ensures Tagged(MarkUsed(AbsorbWords(m, a, Next(h, a)), a), nul, Absorb(h, a))
  {
    var x := Next(h, a);
    AbsorbIs(m, nul, h, a);
    assert BlockOk(h, a) && BlockOk(h, x);
    var n := Next(h, x);
    assert TagOk(m, nul, h, n);
    FlagOps(h[a].words + 1 + h[x].words, false, PrevFree(h, a), 0);
    FlagOps(h[n].words, h[n].free, true, 0);
    hide SizeOf, AndNotFree, AndNotPrevFree;
    AbsorbedTagged(m, MarkUsed(AbsorbWords(m, a, x), a), nul, h, a);
  }

  lemma AbsorbedTagged(m: Words, m': Words, nul: int, h: Heap, a: int)
    requires Tiled(h) && Tagged(m, nul, h) && a in h && h[a].words != 0
    requires Next(h, a) in h && h[Next(h, a)].free && Next(h, Next(h, a)) in h
    requires SameWords(m, m', a, Next(h, Next(h, a)))
    requires var x := Next(h, a); var n := Next(h, x);
      && 0 < a && n + 1 < |m|
      && m'[a + 1] == Flags(h[a].words + 1 + h[x].words, h[a].free, PrevFree(h, a))
      && m'[n + 1] == Flags(h[n].words, h[n].free, h[a].free)
      && (h[a].free ==> m'[n] == a)
    ensures Tagged(m', nul, Absorb(h, a))
  {
    var x := Next(h, a);
    var n := Next(h, x);
    assert BlockOk(h, a) && BlockOk(h, x) && BlockOk(h, n);
    assert TagOk(m, nul, h, a) && TagOk(m, nul, h, x) && TagOk(m, nul, h, n);
    var h' := Absorb(h, a);
    assert TagOk(m', nul, h', a);
    assert TagOk(m', nul, h', n);
    forall c {:trigger TagOk(m', nul, h', c)} | c in h' && a <= c <= n ensures c == a || c == n {
      assert Apart(h, a, c) && Apart(h, x, c);
    }
    hide TagOk;
    TaggedAround(m, m', nul, h, h', a, n);
  }

  // What block_split leaves: the remainder is marked free and linked to the block after it, but its
  // prev-free bit is the junk bit of the old word.
  lemma SplitIs(m: Words, nul: int, h: Heap, a: int, s: nat)
    requires Tiled(h) && Tagged(m, nul, h) && a in h && s + 4 <= h[a].words
    ensures 0 < a && Next(h, a) in h && Next(h, a) + 1 < |m| && HasNext(SplitSizes(m, a, 8 * s), a + 1 + s)
    ensures var r, n := a + 1 + s, Next(h, a);
      var junk := IsPrevFree(m[r + 1]);
      && SplitWords(m, a, 8 * s) ==
           m[r + 1 := Flags(h[a].words - s - 1, true, junk)][a + 1 := Flags(s, h[a].free, PrevFree(h, a))]
            [n := r][n + 1 := Flags(h[n].words, h[n].free, true)]
  {
    NextIs(m, nul, h, a);
    var n := Next(h, a);
    assert TagOk(m, nul, h, a) && TagOk(m, nul, h, n);
    SplitRaw(m, a, s, h[a].words, h[a].free, PrevFree(h, a), h[n].words, h[n].free, PrevFree(h, n));
  }

  lemma SplitRaw(m: Words, a: int, s: nat, k: nat, f: bool, p: bool, nk: nat, nf: bool, np: bool)
    requires 0 < a && s + 4 <= k && a + 2 + k < |m|
    requires m[a + 1] == Flags(k, f, p) && m[a + 2 + k] == Flags(nk, nf, np)
    ensures HasNext(SplitSizes(m, a, 8 * s), a + 1 + s)
    ensures var r, n := a + 1 + s, a + 1 + k;
      SplitWords(m, a, 8 * s) ==
        m[r + 1 := Flags(k - s - 1, true, IsPrevFree(m[r + 1]))][a + 1 := Flags(s, f, p)]
         [n := r][n + 1 := Flags(nk, nf, true)]
  {
    var r, n := a + 1 + s, a + 1 + k;
    FlagOps(k, f, p, s);
    FlagOps(nk, nf, np, 0);
    JunkFlags(m[r + 1], k - s - 1);
    hide OrFree, OrPrevFree, SizeOf, WithSize, IsPrevFree, Flags;
    var m1 := SplitSizes(m, a, 8 * s);
    assert m1 == m[r + 1 := WithSize(m[r + 1], 8 * (k - s - 1))][a + 1 := Flags(s, f, p)];
    assert NextHeader(m1, r) == n;
  }

  lemma JunkFlags(w: int, k: nat)
    ensures OrFree(WithSize(w, 8 * k)) == Flags(k, true, IsPrevFree(w))
    ensures SizeOf(WithSize(w, 8 * k)) == 8 * k
  {
    LowBits(2 * k, w % 4);
  }

  // Once the caller has repaired the remainder's prev-free bit, every header is right.
  ghost predicate SplitDone(m: Words, m': Words, h: Heap, a: int, s: nat)
    requires a in h && s + 4 <= h[a].words && Next(h, a) in h
  {
    var r, n := a + 1 + s, Next(h, a);
    && 0 < a && n + 1 < |m| && SameWords(m, m', a, n)
    && m'[a + 1] == Flags(s, h[a].free, PrevFree(h, a))
    && m'[r + 1] == Flags(h[a].words - s - 1, true, h[a].free) && (h[a].free ==> m'[r] == a)
    && m'[n + 1] == Flags(h[n].words, h[n].free, true) && m'[n] == r
  }

  lemma SplitTagged(m: Words, m': Words, nul: int, h: Heap, a: int, s: nat)
    requires Tiled(h) && Tagged(m, nul, h) && a in h && 3 <= s && s + 4 <= h[a].words && Next(h, a) in h
    requires SplitDone(m, m', h, a, s)
    ensures Tagged(m', nul, Split(h, a, s))
  {
    var r, n := a + 1 + s, Next(h, a);
    SplitRoom(h, a, s);
    assert BlockOk(h, a) && BlockOk(h, n);
    assert TagOk(m, nul, h, a) && TagOk(m, nul, h, n);
    var h' := Split(h, a, s);
    assert TagOk(m', nul, h', a);
    assert TagOk(m', nul, h', r);
    assert TagOk(m', nul, h', n);
    forall c {:trigger TagOk(m', nul, h', c)} | c in h' && a <= c <= n ensures c == a || c == r || c == n {
      if c in h { assert Apart(h, a, c); }
    }
    hide TagOk;
    TaggedAround(m, m', nul, h, h', a, n);
  }

  // The repairs the callers of block_split make to the remainder (tlsf.c:722-723, 736, 750-752).
  lemma SplitFreeDone(m: Words, nul: int, h: Heap, a: int, s: nat)
    requires Tiled(h) && Tagged(m, nul, h) && a in h && h[a].free && 3 <= s && s + 4 <= h[a].words
    ensures 0 < a && Next(h, a) in h && a + 1 + s !in h && Splittable(m, a, 8 * s)
    ensures HasNext(SplitWords(m, a, 8 * s), a) && NextHeader(SplitWords(m, a, 8 * s), a) == a + 1 + s
    ensures SplitDone(m, FreeSplit(m, a, 8 * s), h, a, s)
  {
    var r := a + 1 + s;
    SplitRoom(h, a, s);
    SplitIs(m, nul, h, a, s);
    FlagOps(s, h[a].free, PrevFree(h, a), 0);
    FlagOps(h[a].words - s - 1, true, IsPrevFree(m[r + 1]), 0);
    hide SizeOf, OrPrevFree, SplitWords, SplitSizes, Flags, IsPrevFree, PrevFree, Tiled, Tagged;
  }

  lemma SplitUsedDone(m: Words, nul: int, h: Heap, a: int, s: nat)
    requires Tiled(h) && Tagged(m, nul, h) && a in h && !h[a].free && s + 4 <= h[a].words
    ensures 0 < a && Next(h, a) in h && a + 1 + s !in h && Splittable(m, a, 8 * s)
    ensures SplitDone(m, UsedSplit(m, a, 8 * s), h, a, s)
    ensures forall i :: 0 <= i < |m| && a + 2 <= i < a + 2 + s ==> UsedSplit(m, a, 8 * s)[i] == m[i]
  {
    var r := a + 1 + s;
    SplitRoom(h, a, s);
    SplitIs(m, nul, h, a, s);
    FlagOps(h[a].words - s - 1, true, IsPrevFree(m[r + 1]), 0);
    hide SizeOf, AndNotPrevFree, SplitWords, SplitSizes, Flags, IsPrevFree, PrevFree, Tiled, Tagged;
  }

  // A live block cut to nothing: the headers say that its pool falls apart there.
  lemma BrokenTagged(m: Words, m': Words, nul: int, h: Heap, a: int)
    requires Tiled(h) && Tagged(m, nul, h) && a in h && !h[a].free && 4 <= h[a].words && Next(h, a) in h
    requires SplitDone(m, m', h, a, 0)
    ensures Tagged(m', nul, Broken(h, a))
  {
    var n, h' := Next(h, a), Broken(h, a);
    NoBlockBefore(h);
    BrokenNear(h, a);
    assert TagOk(m, nul, h, a) && TagOk(m, nul, h, n) && BlockOk(h, a);
    forall c {:trigger TagOk(m', nul, h', c)} | c in h' ensures TagOk(m', nul, h', c) {
      if c in h && c != a && c != n { BrokenTagBeside(m, m', nul, h, a, c); }
    }
  }

  lemma BrokenTagBeside(m: Words, m': Words, nul: int, h: Heap, a: int, c: int)
    requires Tiled(h) && Tagged(m, nul, h) && a in h && !h[a].free && 4 <= h[a].words && Next(h, a) in h
    requires SplitDone(m, m', h, a, 0) && c in h && c != a && c != Next(h, a)
    ensures c in Broken(h, a) && TagOk(m', nul, Broken(h, a), c)
  {
    var n := Next(h, a);
    assert TagOk(m, nul, h, c) && BlockOk(h, c) && Apart(h, a, c);
    BeyondHeader(h, a, n, c);
    BrokenBeside(h, a, c);
    BrokenNear(h, a);
    NoBlockBefore(h);
    if h[c].prev in h && h[c].prev != n { BrokenBeside(h, a, h[c].prev); }
    hide Broken, Tiled, Tagged;
  }

  lemma NextKept(m: Words, a: int, i: int, v: int)
    requires HasNext(m, a) && 0 <= i < |m| && i != a + 1
    ensures HasNext(m[i := v], a) && NextHeader(m[i := v], a) == NextHeader(m, a)
  {}

  lemma SentinelFlags(w: int)
    ensures OrPrevFree(AndNotFree(WithSize(w, 0))) == Flags(0, false, true)
  {
    LowBits(0, w % 4);
  }
}
