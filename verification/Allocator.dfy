// The allocator of tlsf.c on a memory of 8-byte words. A block is known by the word of its header: the physical
// predecessor is at word 0 of the header, size and flags at word 1, payload and list links from word 2 on; the next
// header starts in the last payload word. Pointers handed to callers are byte addresses.
module Allocator {
  import opened Bits
  import opened Bitwise
  import opened Mapping
  import opened Blocks
  import opened FreeLists
  import opened Bitmaps
  import opened Headers
  import opened Invariant
  import opened Plans
  import opened Checks
  import Layout

  class Tlsf {
    const words: array<int>       // the memory; the control structure takes CONTROL_WORDS words of it from nul on
    const nul: int                // block_null, the end of every list
    const heads: array<int>       // control->blocks, row by row
    const sl: array<bv32>         // control->sl_bitmap
    var fl: bv32                  // control->fl_bitmap
    ghost var h: Heap             // what the headers mean
    ghost var L: Lists            // what the links mean

    ghost predicate Shape() {
      && words != heads && words as object != sl && heads as object != sl
      && heads.Length == CLASSES && sl.Length == FL_INDEX_COUNT
    }

    ghost function Now(F: set<int>): State
      reads this, words, heads, sl
    {
      State(words[..], nul, heads[..], fl, sl[..], h, F, L)
    }

    ghost function Plan(): Plan
      reads this
    {
      Plans.Plan.Plan(h, L)
    }

    // Consistent, except that the free blocks in F are on no list
    ghost predicate Core(F: set<int>)
      reads this, words, heads, sl
    {
      && Shape()
      && Inv(Now(F))
    }

    // Consistent, and no two neighbours are free
    ghost predicate Valid()
      reads this, words, heads, sl
    {
      Core({}) && Coalesced(h)
    }

    // The rows and heads that are declared are those of the arrays.
    lemma Fields(x: Layout.Field)
      requires Shape()
      ensures Layout.Declared(x) <==> match x
        case SlBitmap(i) => i < sl.Length
        case Head(i, j) => j < 32 && 32 * i + j < heads.Length
        case _ => true
    {}

    // control_construct, for a control structure at word `at` of the memory
    constructor (memory: array<int>, at: int)
      requires 0 < at && at + CONTROL_WORDS <= memory.Length && 8 * memory.Length <= SIZE_T
      modifies memory
      ensures Valid() && words == memory && nul == at && h == map[] && L == NoLists() && fresh(heads) && fresh(sl)
    {
      words := memory;
      nul := at;
      heads := new int[CLASSES];
      sl := new bv32[FL_INDEX_COUNT];
      fl := 0;
      h := map[];
      L := NoLists();
      new;
      words[nul + 2] := nul;
      words[nul + 3] := nul;
      for i := 0 to FL_INDEX_COUNT
        invariant Shape() && words == memory && nul == at && h == map[] && fresh(heads) && fresh(sl)
        invariant fl == 0 && L == NoLists()
        invariant forall f {:trigger sl[f]} :: 0 <= f < i ==> sl[f] == 0
        invariant forall c {:trigger heads[c]} :: 0 <= c < 32 * i ==> heads[c] == nul
      {
        sl[i] := 0;
        for j := 0 to SL_INDEX_COUNT
          invariant Shape() && words == memory && nul == at && h == map[] && fresh(heads) && fresh(sl)
          invariant fl == 0 && L == NoLists()
          invariant forall f {:trigger sl[f]} :: 0 <= f <= i ==> sl[f] == 0
          invariant forall c {:trigger heads[c]} :: 0 <= c < 32 * i + j ==> heads[c] == nul
        {
          heads[32 * i + j] := nul;
        }
      }
      EmptyInv(words[..], nul, heads[..], sl[..], L);
    }

    // ---- header accessors

    method BlockSetSize(a: int, size: int)
      requires 0 <= a && a + 1 < words.Length
      modifies words
      ensures words[..] == old(words[..])[a + 1 := WithSize(old(words[..])[a + 1], size)]
    {
      words[a + 1] := WithSize(words[a + 1], size);
    }

    method BlockLinkNext(a: int) returns (n: int)
      requires HasNext(words[..], a)
      modifies words
      ensures n == NextHeader(old(words[..]), a)
      ensures words[..] == old(words[..])[n := a]
    {
      n := a + 1 + SizeOf(words[a + 1]) / 8;
      words[n] := a;
    }

    method BlockMarkAsFree(a: int)
      requires HasNext(words[..], a)
      modifies words
      ensures words[..] == MarkFree(old(words[..]), a)
    {
      var n := BlockLinkNext(a);
      words[n + 1] := OrPrevFree(words[n + 1]);
      words[a + 1] := OrFree(words[a + 1]);
    }

    method BlockMarkAsUsed(a: int)
      requires HasNext(words[..], a)
      modifies words
      ensures words[..] == MarkUsed(old(words[..]), a)
    {
      var n := a + 1 + SizeOf(words[a + 1]) / 8;
      words[n + 1] := AndNotPrevFree(words[n + 1]);
      words[a + 1] := AndNotFree(words[a + 1]);
    }

    method BlockSplit(a: int, size: nat) returns (r: int)
      requires 0 <= a && a + 1 < words.Length && a + 2 + size / 8 < words.Length
      requires HasNext(SplitSizes(words[..], a, size), a + 1 + size / 8)
      modifies words
      ensures r == a + 1 + size / 8
      ensures words[..] == SplitWords(old(words[..]), a, size)
    {
      r := a + 1 + size / 8;
      var remainSize := SizeOf(words[a + 1]) - (size + HEADER_OVERHEAD);
      BlockSetSize(r, remainSize);
      BlockSetSize(a, size);
      BlockMarkAsFree(r);
    }

    method BlockAbsorb(a: int, x: int)
      requires 0 <= a && a + 1 < words.Length && 0 <= x && x + 1 < words.Length
      requires HasNext(AbsorbSize(words[..], a, x), a)
      modifies words
      ensures words[..] == AbsorbWords(old(words[..]), a, x)
    {
      words[a + 1] := words[a + 1] + SizeOf(words[x + 1]) + HEADER_OVERHEAD;
      assert words[..] == AbsorbSize(old(words[..]), a, x);
      var n := BlockLinkNext(a);
    }

    // ---- free lists

    method RemoveFreeBlock(a: int, f: nat, s: nat, ghost F: set<int>)
      requires Core(F) && a in h && h[a].free && a !in F
      requires s < 32 && f < FL_INDEX_COUNT && 32 * f + s == ClassAt(h, a)
      modifies this`fl, this`L, words, heads, sl
      ensures Core(F + {a}) && L == Off(h, old(L), a)
      ensures Live(words[..], h) == old(Live(words[..], h))
    {
      hide Inv, Class, Minus, Off;
      ghost var c := 32 * f + s;
      ghost var st := Now(F);
      ghost var k := Locate(st, a);
      InvShape(st);
      UnlinkInv(st, f, s, k);
      OffIs(st, c, k);
      var prev := words[a + 3];
      var next := words[a + 2];
      words[next + 3] := prev;
      words[prev + 2] := next;
      assert words[..] == st.m[next + 3 := prev][prev + 2 := next];
      L := Cut(L, c, k);
      if heads[32 * f + s] == a {
        heads[32 * f + s] := next;
        assert heads[..] == st.heads[c := next];
        if next == nul {
          sl[f] := Minus(sl[f], s);
          assert sl[..] == st.sl[f := Minus(st.sl[f], s)];
          if sl[f] == 0 {
            fl := Minus(fl, f);
          }
        }
      }
    }

    method InsertFreeBlock(a: int, f: nat, s: nat)
      requires Shape() && |L| == CLASSES && s < 32 && f < FL_INDEX_COUNT
      requires Inside(words[..], a) && Inside(words[..], heads[32 * f + s]) && Inside(words[..], nul)
      modifies this`fl, this`L, words, heads, sl
      ensures var current := old(heads[..])[32 * f + s];
        && words[..] == old(words[..])[a + 2 := current][a + 3 := nul][current + 3 := a]
        && heads[..] == old(heads[..])[32 * f + s := a]
      ensures fl == With(old(fl), f) && sl[..] == old(sl[..])[f := With(old(sl[..])[f], s)]
      ensures L == Put(old(L), 32 * f + s, a)
    {
      hide With;
      var current := heads[32 * f + s];
      words[a + 2] := current;
      words[a + 3] := nul;
      words[current + 3] := a;
      heads[32 * f + s] := a;
      fl := With(fl, f);
      sl[f] := With(sl[f], s);
      L := Put(L, 32 * f + s, a);
    }

    method BlockRemove(a: int, ghost F: set<int>)
      requires Core(F) && a in h && h[a].free && a !in F
      modifies this`fl, this`L, words, heads, sl
      ensures Core(F + {a}) && L == Off(h, old(L), a)
      ensures Live(words[..], h) == old(Live(words[..], h))
    {
      hide MappingInsert, Class, Live, Off;
      HeaderOf(Now(F), a);
      hide Inv;
      var (f, s) := MappingInsert(SizeOf(words[a + 1]));
      RemoveFreeBlock(a, f, s, F);
    }

    method BlockInsert(a: int, ghost F: set<int>)
      requires Core(F) && a in h && h[a].free && a in F
      modifies this`fl, this`L, words, heads, sl
      ensures Core(F - {a}) && L == On(h, old(L), a)
      ensures Live(words[..], h) == old(Live(words[..], h))
    {
      hide MappingInsert, Class, Live, With;
      HeaderOf(Now(F), a);
      InvShape(Now(F));
      hide Inv;
      var (f, s) := MappingInsert(SizeOf(words[a + 1]));
      LinkInv(Now(F), f, s, a);
      InsertFreeBlock(a, f, s);
    }

    // ---- merging

    method BlockMergePrev(a: int, ghost F: set<int>) returns (b: int)
      requires Core(F) && a in h && h[a].free && a in F && h[a].prev !in F
      modifies this`fl, this`h, this`L, words, heads, sl
      ensures old(Tiled(h) && h[a].words != 0)
      ensures b == old(Merged(h, a)) && h == old(MergePrev(h, a)) && L == old(PrevOff(h, L, a))
      ensures b in h && h[b].free && Core(F - {a} + {b})
      ensures Live(words[..], h) == old(Live(words[..], h))
    {
      hide Class, Live, Filed, Chained, Mapped, Off;
      InvTiled(Now(F));
      HeaderOf(Now(F), a);
      b := a;
      if IsPrevFree(words[a + 1]) {
        var prev := words[a];
        assert BlockOk(h, a) && BlockOk(h, prev);
        BlockRemove(prev, F);
        AbsorbFree(Now(F + {prev}), prev);
        BlockAbsorb(prev, a);
        h := Absorb(h, prev);
        b := prev;
        assert F + {prev} - {a} == F - {a} + {b};
      } else {
        assert F - {a} + {b} == F;
      }
    }

    // Called on a free block by tlsf_free and block_trim_used, and on a used one by tlsf_realloc; there
    // the header of the block after next still says that its predecessor is free.
    method BlockMergeNext(a: int, ghost F: set<int>) returns (b: int, ghost mid: Words)
      requires Core(F) && a in h && h[a].words != 0 && (h[a].free ==> a in F)
      requires Next(h, a) in h && Next(h, a) !in F
      modifies this`fl, this`h, this`L, words, heads, sl
      ensures b == a && old(Tiled(h)) && L == old(NextOff(h, L, a))
      ensures old(h[a].free || !h[Next(h, a)].free) ==>
        Core(F) && h == old(MergeNext(h, a)) && Live(words[..], h) == old(Live(words[..], h))
      ensures old(!h[a].free && h[Next(h, a)].free) ==>
        h == old(h) && Grown(mid, Now(F), a) && Live(mid, h) == old(Live(words[..], h))
    {
      hide Class, Live, Filed, Chained, Mapped, Off;
      InvTiled(Now(F));
      HeaderOf(Now(F), a);
      var next := a + 1 + SizeOf(words[a + 1]) / 8;
      HeaderOf(Now(F), next);
      b := a;
      mid := words[..];
      if IsFree(words[next + 1]) {
        BlockRemove(next, F);
        mid := words[..];
        if h[a].free {
          AbsorbFree(Now(F + {next}), a);
        } else {
          AbsorbIs(words[..], nul, h, a);
        }
        BlockAbsorb(a, next);
        if h[a].free {
          h := Absorb(h, a);
          assert F + {next} - {next} == F;
        }
      }
    }

    // block_merge_next on a free block, then block_insert (tlsf.c:738-739, 1196-1197)
    method MergeAndInsert(a: int)
      requires Core({a}) && a in h && h[a].free && Next(h, a) in h && Next(h, a) != a
      modifies this`fl, this`h, this`L, words, heads, sl
      ensures old(Tiled(h) && h[a].words != 0) && h == old(MergeNext(h, a)) && L == On(h, old(NextOff(h, L, a)), a)
      ensures Core({}) && Live(words[..], h) == old(Live(words[..], h))
    {
      hide Class, Live, Inv, Grown, MappingInsert, On, NextOff;
      InvTiled(Now({a}));
      HeaderOf(Now({a}), a);
      ghost var none: set<int> := {};
      assert {a} - {a} == none;
      hide Tiled;
      var b, _ := BlockMergeNext(a, {a});
      BlockInsert(b, {b});
    }

    // ---- trimming

    // tlsf.c:721-723
    method SplitFreeBlock(a: int, size: nat) returns (r: int)
      requires Splittable(words[..], a, size)
      requires HasNext(SplitWords(words[..], a, size), a)
      requires NextHeader(SplitWords(words[..], a, size), a) == a + 1 + size / 8
      modifies words
      ensures r == a + 1 + size / 8 && words[..] == FreeSplit(old(words[..]), a, size)
    {
      hide SplitWords, SplitSizes, NextHeader, HasNext, OrPrevFree;
      r := BlockSplit(a, size);
      var n := BlockLinkNext(a);
      words[r + 1] := OrPrevFree(words[r + 1]);
    }

    // tlsf.c:749-752, the same writes in another order
    method SplitLeadingBlock(a: int, size: nat) returns (r: int)
      requires Splittable(words[..], a, size)
      requires HasNext(SplitWords(words[..], a, size), a)
      requires NextHeader(SplitWords(words[..], a, size), a) == a + 1 + size / 8
      modifies words
      ensures r == a + 1 + size / 8 && words[..] == FreeSplit(old(words[..]), a, size)
    {
      hide SplitWords, SplitSizes, NextHeader, HasNext, OrPrevFree;
      r := BlockSplit(a, size);
      ghost var m := words[..];
      words[r + 1] := OrPrevFree(words[r + 1]);
      NextKept(m, a, r + 1, OrPrevFree(m[r + 1]));
      var n := BlockLinkNext(a);
      SwapWrites(m, r + 1, OrPrevFree(m[r + 1]), r, a);
    }

    method BlockTrimFree(a: int, size: nat, ghost F: set<int>)
      requires Core(F) && a in h && h[a].free && a in F && F <= h.Keys
      requires size % ALIGN_SIZE == 0 && BLOCK_SIZE_MIN <= size
      modifies this`fl, this`h, this`L, words, heads, sl
      ensures old(Next(h, a) in h) && h == old(Trim(h, a, size / 8)) && L == old(TrimLists(h, L, a, size / 8))
      ensures Core(F) && Live(words[..], h) == old(Live(words[..], h))
    {
      hide Class, Live, Inv, On;
      HeaderOf(Now(F), a);
      InvTiled(Now(F));
      ghost var s := size / 8;
      assert size == 8 * s;
      if SizeOf(words[a + 1]) >= HEADER_SIZE + size {
        SplitFree(Now(F), a, s);
        hide SplitWords, Splittable, NextHeader, HasNext, FreeSplit, Split;
        var r := SplitFreeBlock(a, size);
        h := Split(h, a, s);
        BlockInsert(r, F + {r});
        assert F + {r} - {r} == F;
      }
    }

    // tlsf.c:735-736
    method SplitUsedBlock(a: int, size: nat) returns (r: int)
      requires Splittable(words[..], a, size)
      modifies words
      ensures r == a + 1 + size / 8 && words[..] == UsedSplit(old(words[..]), a, size)
    {
      hide SplitWords, SplitSizes, NextHeader, HasNext, AndNotPrevFree;
      r := BlockSplit(a, size);
      words[r + 1] := AndNotPrevFree(words[r + 1]);
    }

    // tlsf.c:735-740: what is cut off behind joins a free successor
    method CutUsed(a: int, size: nat, ghost s: nat)
      requires Core({}) && a in h && !h[a].free && size == 8 * s && (s == 0 || 3 <= s) && s + 4 <= h[a].words
      modifies this`fl, this`h, this`L, words, heads, sl
      ensures old(Tiled(h)) && h == old(TrimMerge(h, a, s)) && Core({})
      ensures L == TrimMergeLists(old(h), old(L), a, s, h)
      ensures CutDown(old(Live(words[..], h)), Live(words[..], h), a, s)
    {
      hide Class, Live, Inv, On, NextOff;
      InvTiled(Now({}));
      ShortenUsed(Now({}), a, s);
      ShortenedTiled(h, a, s);
      ghost var none: set<int> := {};
      assert none + {a + 1 + s} == {a + 1 + s};
      hide Splittable, UsedSplit, CutDown, MergeNext, Shortened, Tiled;
      var r := SplitUsedBlock(a, size);
      h := Shortened(h, a, s);
      MergeAndInsert(r);
    }

    // tlsf_realloc passes size 0 for a request that is turned down.
    method BlockTrimUsed(a: int, size: nat)
      requires Core({}) && a in h && !h[a].free && h[a].words != 0
      requires size % ALIGN_SIZE == 0 && (size == 0 || BLOCK_SIZE_MIN <= size <= 8 * h[a].words)
      modifies this`fl, this`h, this`L, words, heads, sl
      ensures old(Tiled(h)) && h == old(TrimMerge(h, a, size / 8))
      ensures L == TrimMergeLists(old(h), old(L), a, size / 8, h)
      ensures Core({})
      ensures old(8 * h[a].words < HEADER_SIZE + size) ==> words[..] == old(words[..])
      ensures size != 0 ==> Shrunk(old(Live(words[..], h)), Live(words[..], h), a)
      ensures size == 0 && old(8 * h[a].words >= HEADER_SIZE) ==> Live(words[..], h) == old(Live(words[..], h)) - {a}
    {
      hide Class, Live, Inv, SizeOf, IsFree, IsPrevFree, MappingInsert, On, NextOff;
      HeaderOf(Now({}), a);
      InvTiled(Now({}));
      LiveHas(words[..], h, a);
      if SizeOf(words[a + 1]) >= HEADER_SIZE + size {
        CutUsed(a, size, size / 8);
      }
    }

    // tlsf.c:748-753: what is kept in front goes back to its list
    method CutLeading(a: int, size: nat, ghost s: nat) returns (r: int)
      requires Core({a}) && a in h && h[a].free && size == 8 * s && 3 <= s && s + 4 <= h[a].words
      modifies this`fl, this`h, this`L, words, heads, sl
      ensures r == a + 1 + s && old(Next(h, a) in h) && h == old(Split(h, a, s)) && L == On(h, old(L), a)
      ensures r in h && h[r].free && Core({r}) && Live(words[..], h) == old(Live(words[..], h))
    {
      hide Class, Live, Inv, On;
      InvTiled(Now({a}));
      SplitFree(Now({a}), a, s);
      SplitNext(h, a, s);
      hide SplitWords, Splittable, NextHeader, HasNext, FreeSplit, Tiled, SizeOf;
      r := SplitLeadingBlock(a, size);
      h := Split(h, a, s);
      hide Split;
      assert {a} + {r} - {a} == {r};
      BlockInsert(a, {a} + {r});
    }

    method BlockTrimFreeLeading(a: int, size: nat) returns (r: int)
      requires Core({a}) && a in h && h[a].free
      requires size % ALIGN_SIZE == 0 && HEADER_SIZE <= size
      modifies this`fl, this`h, this`L, words, heads, sl
      ensures old(HEADER_SIZE + size > 8 * h[a].words) ==> r == a && h == old(h)
      ensures old(HEADER_SIZE + size <= 8 * h[a].words) ==>
        r == a + size / 8 && old(Next(h, a) in h) && h == old(Split(h, a, size / 8 - 1))
      ensures L == old(LeadLists(h, L, a, size / 8))
      ensures r in h && h[r].free && Core({r}) && Live(words[..], h) == old(Live(words[..], h))
    {
      hide Class, Live, Inv, Split, SizeOf, IsFree, IsPrevFree, MappingInsert, On;
      HeaderOf(Now({a}), a);
      r := a;
      if SizeOf(words[a + 1]) >= HEADER_SIZE + size {
        r := CutLeading(a, size - HEADER_OVERHEAD, size / 8 - 1);
      }
    }

    // ---- finding a free block

    method SearchSuitableBlock(f0: nat, s0: nat) returns (block: int, f: int, s: int)
      requires Core({}) && f0 < FL_INDEX_COUNT && s0 < 32
      ensures block == 0 ==> NoneFrom(L, 32 * f0 + s0)
      ensures block != 0 ==> 0 <= f < FL_INDEX_COUNT && 0 <= s < 32 && FirstFrom(L, 32 * f0 + s0, 32 * f + s)
      ensures block != 0 ==> block > 0 && block == L[32 * f + s][0] && block in h && h[block].free
      ensures block != 0 ==> ClassAt(h, block) == 32 * f + s
    {
      hide Bit, Ffs, AtLeast, Class;
      f, s := f0, s0;
      assert RowOk(sl[..][f0], L, f0);
      RowSearch(sl[f0], L, f0, s0);
      var slMap := AtLeast(sl[f0], s0);
      if slMap == 0 {
        UpperSearch(fl, sl[..], L, f0);
        var flMap := AtLeast(fl, f0 + 1);
        if flMap == 0 {
          return 0, f, s;
        }
        f := Ffs(flMap);
        slMap := sl[f];
      }
      s := Ffs(slMap);
      block := heads[32 * f + s];
      FirstMember(Now({}), 32 * f + s);
    }

    method BlockLocateFree(size: nat) returns (block: int)
      requires Core({}) && (size != 0 ==> GoodSize(size))
      modifies this`fl, this`L, words, heads, sl
      ensures (block == 0 <==> Refused(h, size)) && (block == 0 ==> Core({}) && L == old(L))
      // the first block on the first list that is not empty, from the first class that fits on
      ensures block != 0 ==> Picked(old(L), size, block) && GoodFit(h, size, block) && L == Off(h, old(L), block)
      ensures block != 0 ==> block > 0 && block in h && h[block].free && Core({block}) && size <= 8 * h[block].words
      ensures block != 0 ==> size != 0
      ensures Live(words[..], h) == old(Live(words[..], h))
    {
      hide Class, Live, Inv, Least, MappingSearch, Rounded, FirstFrom, FirstFit, Picked, GoodFit, Off;
      InvShape(Now({}));
      InvFiled(Now({}));
      block := 0;
      if size != 0 {
        var (f, s) := MappingSearch(size);
        SearchClass(size);
        if f < FL_INDEX_COUNT {
          block, f, s := SearchSuitableBlock(f, s);
        }
        if block == 0 {
          NoneListed(Now({}), size);
        } else {
          FirstIsLarge(h, L, size, block, 32 * f + s);
          PickedFrom(L, size, 32 * f + s);
          PickedFits(h, L, size, block);
          RemoveFreeBlock(block, f, s, {});
          ghost var none: set<int> := {};
          assert none + {block} == {block};
        }
      }
    }

    method BlockPrepareUsed(block: int, size: nat) returns (p: nat)
      requires block == 0 ==> Core({})
      requires block != 0 ==> block in h && h[block].free && Core({block}) && GoodSize(size)
      modifies this`fl, this`h, this`L, words, heads, sl
      ensures Core({})
      ensures block == 0 ==> p == 0 && Plan() == old(Plan()) && Live(words[..], h) == old(Live(words[..], h))
      ensures block != 0 ==> p == BlockToPtr(block) && Taking(old(Plan()), block, size / 8, Plan())
      ensures block != 0 ==> Allocated(old(Live(words[..], h)), Live(words[..], h), block, h[block].words)
    {
      hide Class, Live, Inv, TrimLists;
      p := 0;
      if block != 0 {
        BlockTrimFree(block, size, {block});
        assert {block} - {block} == {};
        MarkUsedInv(Now({block}), block);
        BlockMarkAsUsed(block);
        h := SetFree(h, block, false);
        p := BlockToPtr(block);
      }
    }

    // ---- public interface

    method Malloc(size: nat) returns (p: nat)
      requires Valid() && size < SIZE_T
      modifies this`fl, this`h, this`L, words, heads, sl
      ensures Valid()
      ensures PoolsOf(h) == old(PoolsOf(h))
      ensures p == 0 ==> Plan() == old(Plan()) && Live(words[..], h) == old(Live(words[..], h))
      // null exactly when nothing is found
      ensures p == 0 <==> Refused(old(h), AdjustRequestSize(size, ALIGN_SIZE))
      // good fit: which block is taken, what is left of it, and how all lists stand then
      ensures p != 0 ==> var q := AdjustRequestSize(size, ALIGN_SIZE);
        Placing(old(Plan()), q, BlockFromPtr(p), q / 8, Plan())
      ensures p != 0 ==> IsLive(p)
      ensures p != 0 ==>
        NewlyAllocated(old(Live(words[..], h)), Live(words[..], h), BlockFromPtr(p), h[BlockFromPtr(p)].words)
      ensures p != 0 ==> GoodSize(AdjustRequestSize(size, ALIGN_SIZE))
      ensures p != 0 ==> 8 * h[BlockFromPtr(p)].words >= AdjustRequestSize(size, ALIGN_SIZE)
      // freeing the block at once restores the physical tiling
      ensures p != 0 ==> Undoes(old(h), h, BlockFromPtr(p))
      ensures p != 0 ==> OthersStay(old(h), h, BlockFromPtr(p))
      // large enough exactly if the size does not wrap
      ensures p != 0 ==> (8 * h[BlockFromPtr(p)].words >= size <==> size <= SIZE_T - 8)
      // what is left over does not make a block of its own
      ensures p != 0 ==> 8 * h[BlockFromPtr(p)].words < AdjustRequestSize(size, ALIGN_SIZE) + HEADER_SIZE
    {
      hide Class, Live, Inv, NoneFits, AdjustRequestSize, Take, Release, Tiled, Coalesced, PoolsOf, OthersStay;
      hide Picked, GoodFit, Off, TrimLists;
      InvTiled(Now({}));
      AdjustGood(size);
      var adjust := AdjustRequestSize(size, ALIGN_SIZE);
      var block := BlockLocateFree(adjust);
      p := BlockPrepareUsed(block, adjust);
      if block != 0 {
        FreeNotLive(old(words[..]), old(h), block);
        TakeWhole(old(h), block, adjust / 8);
        TakeOthers(old(h), block, adjust / 8);
        EnoughUnwrapped(h, block, size);
      }
    }

    // p is a pointer that an allocation returned and that has not been freed
    ghost predicate IsLive(p: int)
      reads this
    {
      var a := BlockFromPtr(p);
      p % ALIGN_SIZE == 0 && a > 0 && a in h && !h[a].free && h[a].words != 0
    }

    method Free(p: nat)
      requires Valid() && (p != 0 ==> IsLive(p))
      modifies this`fl, this`h, this`L, words, heads, sl
      ensures Valid() && PoolsOf(h) == old(PoolsOf(h))
      ensures p == 0 ==> Plan() == old(Plan()) && Live(words[..], h) == old(Live(words[..], h))
      ensures p != 0 ==> Releasing(old(Plan()), BlockFromPtr(p), Plan())
      ensures p != 0 ==> Live(words[..], h) == old(Live(words[..], h)) - {BlockFromPtr(p)}
    {
      hide Class, Live, Inv, On, PrevOff, NextOff;
      InvTiled(Now({}));
      if p != 0 {
        var a := BlockFromPtr(p);
        ReleaseLists(h, L, a);
        ReleaseCoalesced(h, a);
        ReleaseSteps(h, a);
        PoolsRelease(h, a);
        MarkFreeInv(Now({}), a);
        BlockMarkAsFree(a);
        h := SetFree(h, a, true);
        ghost var none: set<int> := {};
        assert none + {a} == {a};
        var b := BlockMergePrev(a, {a});
        assert {a} - {a} + {b} == {b};
        MergeAndInsert(b);
      }
    }

    // A store by the owner of allocation a to its k-th payload word
    method Store(a: int, k: nat, v: int)
      requires Core({}) && a in Live(words[..], h) && k < |Live(words[..], h)[a]|
      modifies words
      ensures Core({})
      ensures var l := old(Live(words[..], h)); Live(words[..], h) == l[a := l[a][k := v]]
    {
      hide Class, Live, Inv;
      PayloadWrite(Now({}), a, k, v);
      words[a + 2 + k] := v;
    }

    method Load(a: int, k: nat) returns (v: int)
      requires Core({}) && a in Live(words[..], h) && k < |Live(words[..], h)[a]|
      ensures v == Live(words[..], h)[a][k]
    {
      hide Class, Live, Inv;
      PayloadRead(Now({}), a, k);
      v := words[a + 2 + k];
    }

    // memcpy(p, q, bytes) between the payloads of two allocations, for a whole number of words
    method Memcpy(p: int, q: int, bytes: nat)
      requires Core({}) && bytes % 8 == 0 && p % 8 == 0 && q % 8 == 0
      requires var b, a := BlockFromPtr(p), BlockFromPtr(q); var l := Live(words[..], h);
        a in l && b in l && a != b && bytes / 8 <= |l[a]| && bytes / 8 <= |l[b]|
      modifies words
      ensures Core({})
      ensures var b, a := BlockFromPtr(p), BlockFromPtr(q); var l := old(Live(words[..], h));
        Live(words[..], h) == l[b := Copied(l[a], l[b], bytes / 8)]
    {
      hide Live, Core, Copied;
      var b, a := BlockFromPtr(p), BlockFromPtr(q);
      ghost var l := Live(words[..], h);
      var n := bytes / 8;
      CopiedNone(l[a], l[b]);
      for k := 0 to n
        invariant Core({})
        invariant Live(words[..], h) == l[b := Copied(l[a], l[b], k)]
      {
        CopiedStep(l[a], l[b], k);
        var w := Load(a, k);
        Store(b, k, w);
      }
    }

    // tlsf.c:1246-1252: allocate, copy, free
    method ReallocMove(p: nat, size: nat, cursize: nat) returns (r: nat)
      requires Valid() && size < SIZE_T && IsLive(p) && cursize == 8 * h[BlockFromPtr(p)].words
      requires cursize < AdjustRequestSize(size, ALIGN_SIZE)
      modifies this`fl, this`h, this`L, words, heads, sl
      ensures r != p
      ensures Valid() && PoolsOf(h) == old(PoolsOf(h))
      ensures r == 0 ==> Plan() == old(Plan()) && Live(words[..], h) == old(Live(words[..], h))
      ensures r == 0 <==> Refused(old(h), AdjustRequestSize(size, ALIGN_SIZE))
      ensures r != 0 ==>
        Moving(old(Plan()), BlockFromPtr(p), AdjustRequestSize(size, ALIGN_SIZE), BlockFromPtr(r), Plan())
      ensures r != 0 ==> IsLive(r) && 8 * h[BlockFromPtr(r)].words >= AdjustRequestSize(size, ALIGN_SIZE)
      ensures r != 0 ==> 8 * h[BlockFromPtr(r)].words < AdjustRequestSize(size, ALIGN_SIZE) + HEADER_SIZE
      ensures r != 0 ==>
        Resized(old(Live(words[..], h)), Live(words[..], h), BlockFromPtr(p), BlockFromPtr(r), cursize / 8)
    {
      hide Class, Live, Inv, NoneFits, AdjustRequestSize, Resized, Placing, Release, Tiled, On, NextOff, PrevOff;
      ghost var a := BlockFromPtr(p);
      InvTiled(Now({}));
      LiveSize(Now({}), a);
      AdjustGood(size);
      r := Malloc(size);
      if r != 0 {
        ghost var b := BlockFromPtr(r);
        ghost var h1 := h;
        var minsize := if cursize < size then cursize else size;
        AdjustLarge(size, cursize);
        MoveResized(old(Live(words[..], h)), Live(words[..], h), a, b, h[b].words);
        Memcpy(r, p, minsize);
        InvTiled(Now({}));
        ReleaseOther(h, a, b);
        ghost var mid := Plan();
        Free(p);
        assert Releasing(mid, a, Plan());
      }
    }

    // tlsf.c:1256-1265: take over the free block behind if the request needs it, then trim; a request that is turned
    // down arrives as size 0
    method ReallocInPlace(p: nat, adjust: nat, cursize: nat)
      requires Valid() && (adjust == 0 || GoodSize(adjust)) && IsLive(p) && cursize == 8 * h[BlockFromPtr(p)].words
      requires adjust > cursize ==> FitsInPlace(h, BlockFromPtr(p), adjust)
      modifies this`fl, this`h, this`L, words, heads, sl
      ensures Valid() && (adjust != 0 ==> PoolsOf(h) == old(PoolsOf(h)))
      ensures adjust != 0 ==> IsLive(p) && adjust <= 8 * h[BlockFromPtr(p)].words < adjust + HEADER_SIZE
      ensures adjust != 0 ==> Resized(old(Live(words[..], h)), Live(words[..], h), BlockFromPtr(p), BlockFromPtr(p),
        (if cursize < adjust then cursize else adjust) / 8)
      ensures Fitting(old(Plan()), BlockFromPtr(p), adjust / 8, Plan())
      ensures adjust == 0 && cursize < HEADER_SIZE ==> words[..] == old(words[..])
      ensures adjust == 0 && cursize >= HEADER_SIZE ==>
        Live(words[..], h) == old(Live(words[..], h)) - {BlockFromPtr(p)}
    {
      hide Class, Live, Inv, Resized, Shrunk, Extended, MarkUsed, NextOff, TrimMergeLists;
      var a := BlockFromPtr(p);
      ghost var l0 := Live(words[..], h);
      InvTiled(Now({}));
      LiveSize(Now({}), a);
      if adjust > cursize {
        AbsorbCoalesced(h, a);
        PoolsAbsorb(h, a);
        ghost var mid;
        a, mid := BlockMergeNext(a, {});
        GrownInv(mid, Now({}), a);
        BlockMarkAsUsed(a);
        h := Absorb(h, a);
      }
      ghost var l1 := Live(words[..], h);
      InvTiled(Now({}));
      if adjust != 0 {
        TrimMergeCoalesced(h, a, adjust / 8);
        PoolsTrimMerge(h, a, adjust / 8);
      } else if cursize >= HEADER_SIZE {
        TrimToNothing(h, a);
      }
      BlockTrimUsed(a, adjust);
      if adjust != 0 {
        LiveSize(Now({}), a);
        GrowShrinkResized(l0, l1, Live(words[..], h), a, (if cursize < adjust then cursize else adjust) / 8);
      }
    }

    // Every size is accepted. The promise is kept exactly for sizes up to 2^32 - 8: above that the block's own pointer
    // comes back although the block is smaller than the size.
    method Realloc(p: nat, size: nat) returns (r: nat)
      requires Valid() && size < SIZE_T && (p != 0 ==> IsLive(p))
      modifies this`fl, this`h, this`L, words, heads, sl
      ensures Valid() && (p == 0 || !TurnedDown(size) ==> PoolsOf(h) == old(PoolsOf(h)))
      // free
      ensures p != 0 && size == 0 ==> r == 0 && Live(words[..], h) == old(Live(words[..], h)) - {BlockFromPtr(p)}
      ensures p != 0 && size == 0 ==> Releasing(old(Plan()), BlockFromPtr(p), Plan())
      // malloc
      ensures p == 0 && r != 0 ==> var q := AdjustRequestSize(size, ALIGN_SIZE);
        && Placing(old(Plan()), q, BlockFromPtr(r), q / 8, Plan())
        && IsLive(r) && q <= 8 * h[BlockFromPtr(r)].words < q + HEADER_SIZE
      ensures p == 0 && r != 0 ==> Undoes(old(h), h, BlockFromPtr(r)) && OthersStay(old(h), h, BlockFromPtr(r))
      ensures p == 0 && r != 0 ==> (8 * h[BlockFromPtr(r)].words >= size <==> size <= SIZE_T - 8)
      ensures p == 0 && r != 0 ==>
        NewlyAllocated(old(Live(words[..], h)), Live(words[..], h), BlockFromPtr(r), h[BlockFromPtr(r)].words)
      // the promise
      ensures p != 0 && size != 0 ==>
        (ReallocPromise(old(Live(words[..], h)), Live(words[..], h), BlockFromPtr(p), r, size)
         <==> size <= BLOCK_SIZE_MAX - 8)
      // the allocation stays where it is exactly when it fits there
      ensures p != 0 && size != 0 ==>
        (r == p <==> old(FitsInPlace(h, BlockFromPtr(p), AdjustRequestSize(size, ALIGN_SIZE))))
      ensures p != 0 && r == p ==>
        Fitting(old(Plan()), BlockFromPtr(p), AdjustRequestSize(size, ALIGN_SIZE) / 8, Plan())
      ensures p != 0 && r != 0 && r != p ==>
        Moving(old(Plan()), BlockFromPtr(p), AdjustRequestSize(size, ALIGN_SIZE), BlockFromPtr(r), Plan())
      // failure leaves everything as it was
      ensures r == 0 && (p == 0 || size != 0) ==>
        Plan() == old(Plan()) && Live(words[..], h) == old(Live(words[..], h))
      ensures p == 0 ==> (r == 0 <==> Refused(old(h), AdjustRequestSize(size, ALIGN_SIZE)))
      ensures p != 0 && size != 0 ==>
        var s := AdjustRequestSize(size, ALIGN_SIZE);
        r == 0 <==> old(!FitsInPlace(h, BlockFromPtr(p), s) && Refused(h, s))
      // success
      ensures p != 0 && r != 0 && !TurnedDown(size) ==>
        var s := AdjustRequestSize(size, ALIGN_SIZE);
        IsLive(r) && s <= 8 * h[BlockFromPtr(r)].words < s + HEADER_SIZE
      ensures p != 0 && r != 0 && !TurnedDown(size) ==>
        var k := if old(8 * h[BlockFromPtr(p)].words) < AdjustRequestSize(size, ALIGN_SIZE)
                 then old(8 * h[BlockFromPtr(p)].words) else AdjustRequestSize(size, ALIGN_SIZE);
        Resized(old(Live(words[..], h)), Live(words[..], h), BlockFromPtr(p), BlockFromPtr(r), k / 8)
      // a size that wraps: the block is cut to 24 bytes
      ensures p != 0 && Wrapped(size) ==> r == p && h[BlockFromPtr(p)].words < 7
      // a size that is turned down: a 24-byte block stays as it is, any other is lost, and its pool falls apart
      ensures p != 0 && TurnedDown(size) ==> r == p && Trimming(old(Plan()), BlockFromPtr(p), 0, Plan())
      ensures p != 0 && TurnedDown(size) ==>
        if old(h[BlockFromPtr(p)].words) == 3 then words[..] == old(words[..])
        else Live(words[..], h) == old(Live(words[..], h)) - {BlockFromPtr(p)}
    {
      hide Class, Live, Inv, NoneFits, AdjustRequestSize, Resized, ReallocPromise, TrimMerge, Release, Tiled;
      hide Coalesced, PoolsOf, Placing, Releasing, Moving, Undoes, OthersStay;
      r := 0;
      if p != 0 && size == 0 {
        Free(p);
      } else if p == 0 {
        r := Malloc(size);
      } else {
        var a := BlockFromPtr(p);
        ghost var l := Live(words[..], h);
        AdjustRanges(size);
        HeaderOf(Now({}), a);
        LiveSize(Now({}), a);
        var next := a + 1 + SizeOf(words[a + 1]) / 8;
        HeaderOf(Now({}), next);
        var cursize := SizeOf(words[a + 1]);
        var combined := cursize + SizeOf(words[next + 1]) + HEADER_OVERHEAD;
        var adjust := AdjustRequestSize(size, ALIGN_SIZE);
        if adjust > cursize && (!IsFree(words[next + 1]) || adjust > combined) {
          r := ReallocMove(p, size, cursize);
        } else {
          ReallocInPlace(p, adjust, cursize);
          r := p;
        }
        if size > BLOCK_SIZE_MAX - 8 {
          OversizeRealloc(Now({}), l, a, r, size);
        } else if r == 0 {
          NothingMoved(l, a, size);
        } else {
          LiveSize(Now({}), BlockFromPtr(r));
          PromiseKept(l, Live(words[..], h), a, r, size, adjust);
        }
      }
    }

    // tlsf.c:1158-1174: the distance from ptr to the aligned address where the allocation starts
    method LeadingGap(ptr: nat, align: nat) returns (gap: nat)
      requires 0 < align && ptr < SIZE_T && ptr % 8 == 0 && align < SIZE_T && IsPow2(align)
      ensures GapGood(ptr, align, gap)
    {
      hide IsPow2, AlignUp, GapGood;
      var aligned := AlignUp(ptr, align);
      gap := (aligned - ptr) % SIZE_T;
      if gap != 0 && gap < HEADER_SIZE {
        var gapRemain := HEADER_SIZE - gap;
        var offset := if gapRemain > align then gapRemain else align;
        var nextAligned := (aligned + offset) % SIZE_T;
        aligned := AlignUp(nextAligned, align);
        gap := (aligned - ptr) % SIZE_T;
      }
      assert gap == AlignmentGap(ptr, align);
      GapRange(ptr, align);
    }

    // tlsf.c:1156-1181: cut a leading free block off so that the payload starts at a multiple of align
    method AlignBlock(block: int, align: nat) returns (r: int, ghost lead: nat)
      requires Core({block}) && block in h && h[block].free && 0 < align < SIZE_T && IsPow2(align)
      modifies this`fl, this`h, this`L, words, heads, sl
      ensures r in h && h[r].free && r > 0 && Core({r}) && Live(words[..], h) == old(Live(words[..], h))
      ensures LeadCut(old(h), h, block, r, lead) && LeadAligns(block, lead, align)
      ensures L == old(LeadLists(h, L, block, lead)) && h == LeadHeap(old(h), block, lead)
    {
      hide Class, Live, Inv, IsPow2, On;
      InvTiled(Now({block}));
      HeaderOf(Now({block}), block);
      InvShape(Now({block}));
      r, lead := block, 0;
      var gap := LeadingGap(BlockToPtr(block), align);
      if gap != 0 {
        lead := gap / 8;
        r := BlockTrimFreeLeading(block, gap);
      }
    }

    // tlsf.c:1152-1181: find a free block and cut its front off
    method LocateAligned(size: nat, align: nat) returns (block: int, ghost first: int, ghost lead: nat)
      requires Valid() && (size != 0 ==> GoodSize(size)) && 0 < align < SIZE_T && IsPow2(align)
      modifies this`fl, this`h, this`L, words, heads, sl
      ensures block == 0 <==> Refused(old(h), size)
      ensures Live(words[..], h) == old(Live(words[..], h))
      ensures block == 0 ==> Core({}) && Plan() == old(Plan())
      ensures block != 0 ==> block > 0 && block in h && h[block].free && Core({block}) && 0 < size
      ensures block != 0 ==> Located(old(Plan()), Plan(), size, align, first, lead, block, words.Length)
    {
      hide Class, Live, Inv, IsPow2, Refused, Picked, GoodFit, Off, LeadLists, LeadHeap, LeadCut, LeadAligns;
      block := BlockLocateFree(size);
      first, lead := block, 0;
      if block != 0 {
        BlockInside(Now({block}), block);
        block, lead := AlignBlock(block, align);
      }
    }

    method Memalign(align: nat, size: nat) returns (p: nat)
      requires Valid() && size < SIZE_T && align < SIZE_T && IsPow2(align)
      modifies this`fl, this`h, this`L, words, heads, sl
      ensures Valid() && PoolsOf(h) == old(PoolsOf(h))
      ensures p == 0 ==> Plan() == old(Plan()) && Live(words[..], h) == old(Live(words[..], h))
      // null exactly when nothing is found
      ensures align > 0 && (p == 0 <==> Refused(old(h), MemalignRequest(size, align)))
      // which block is found, the least aligned address in it, and how all lists stand then
      ensures p != 0 ==> PlacingAligned(old(Plan()), MemalignRequest(size, align), align, BlockFromPtr(p),
                                        AdjustRequestSize(size, ALIGN_SIZE) / 8, Plan())
      ensures p != 0 ==> IsLive(p)
      ensures p != 0 ==>
        NewlyAllocated(old(Live(words[..], h)), Live(words[..], h), BlockFromPtr(p), h[BlockFromPtr(p)].words)
      ensures p != 0 ==> GoodSize(AdjustRequestSize(size, ALIGN_SIZE))
      ensures p != 0 ==> 8 * h[BlockFromPtr(p)].words < AdjustRequestSize(size, ALIGN_SIZE) + HEADER_SIZE
      // freeing the block at once restores the physical tiling
      ensures p != 0 ==> Undoes(old(h), h, BlockFromPtr(p))
      ensures p != 0 && align <= 0x4000_0000_0000_0000 ==> MultipleOf(p, align)
      ensures p != 0 && align <= 0x4000_0000_0000_0000 ==> HoldsRequest(h, BlockFromPtr(p), size)
      // the promise
      ensures align < TOP_ALIGN || 8 * words.Length <= TOP_ALIGN ==>
        (MemalignPromise(h, p, size, align) <==> MemalignServed(old(h), size, align))
      ensures p != 0 && (align < TOP_ALIGN || 8 * words.Length <= TOP_ALIGN) ==>
        (MemalignPromise(h, p, size, align) <==> align < TOP_ALIGN && size <= SIZE_T - 8)
      // an alignment of 2^63 is not refused: any free block at all comes back, as it lies
      ensures 8 * words.Length <= TOP_ALIGN <= align && p != 0 ==>
        TakenAsItLies(old(h), h, BlockFromPtr(p), AdjustRequestSize(size, ALIGN_SIZE) / 8) && !MultipleOf(p, align)
    {
      hide Class, Live, Inv, NoneFits, AdjustRequestSize, GapRequest, IsPow2, Release, Tiled, Take, PoolsOf, Coalesced;
      hide MappingInsert, LeadCut, LeadAligns, HoldsRequest, TakenAsItLies, Refused;
      Pow2Positive(align);
      InvTiled(Now({}));
      var adjust := AdjustRequestSize(size, ALIGN_SIZE);
      var sizeWithGap := GapRequest(adjust, align);
      var alignedSize := if adjust != 0 && align > ALIGN_SIZE then sizeWithGap else adjust;
      AdjustGood(size);
      if adjust != 0 && align > ALIGN_SIZE { SizeWithGap(adjust, align); }
      assert alignedSize == MemalignRequest(size, align);
      hide MemalignRequest, Undoes, GoodSize, MultipleOf, TrimLists, PlacingAligned, Located;
      hide MemalignPromise, MemalignServed, BlockToPtr, BlockFromPtr;
      var block, first, lead := LocateAligned(alignedSize, align);
      ghost var mid := Plan();
      p := BlockPrepareUsed(block, adjust);
      if block != 0 {
        MemalignPlaced(old(Plan()), mid, Plan(), first, block, lead, size, align, words.Length);
        FreeNotLive(old(words[..]), old(h), block);
      }
      if align < TOP_ALIGN || 8 * words.Length <= TOP_ALIGN {
        PromiseServed(old(Plan()), Plan(), p, size, align, words.Length);
      }
    }

    // ---- pools

    // tlsf.c:1020-1023: the pool's one free block
    method PoolHeader(block: int, size: nat)
      requires 0 <= block && block + 1 < words.Length && size % 8 == 0
      modifies words
      ensures words[..] == old(words[..])[block + 1 := Flags(size / 8, true, false)]
    {
      JunkFlags(words[block + 1], size / 8);
      FlagOps(size / 8, true, IsPrevFree(words[block + 1]), 0);
      hide WithSize, OrFree, AndNotPrevFree, Flags, SizeOf;
      BlockSetSize(block, size);
      words[block + 1] := OrFree(words[block + 1]);
      words[block + 1] := AndNotPrevFree(words[block + 1]);
    }

    // tlsf.c:1027-1030: the zero-size sentinel behind it
    method PoolSentinel(block: int)
      requires HasNext(words[..], block)
      modifies words
      ensures var m := old(words[..]); var n := NextHeader(m, block);
        words[..] == m[n := block][n + 1 := Flags(0, false, true)]
    {
      ghost var n := NextHeader(words[..], block);
      SentinelFlags(words[..][n := block][n + 1]);
      hide WithSize, OrPrevFree, AndNotFree, Flags, SizeOf;
      var next := BlockLinkNext(block);
      BlockSetSize(next, 0);
      words[next + 1] := AndNotFree(words[next + 1]);
      words[next + 1] := OrPrevFree(words[next + 1]);
    }

    // tlsf.c:1019-1030
    method PoolBlocks(block: int, size: nat, ghost last: int)
      requires Valid() && PoolRoom(h, block, last) && size == 8 * (last - block - 1) < BLOCK_SIZE_MAX
      requires last + 1 < words.Length && (last + 1 < nul || nul + CONTROL_WORDS <= block + 1)
      modifies this`fl, this`h, this`L, words, heads, sl
      ensures Valid() && Live(words[..], h) == old(Live(words[..], h))
      ensures Extending(old(Plan()), block, last, Plan())
    {
      hide Class, Live, Inv, MappingInsert, With, Flags, SizeOf, HasNext, NextHeader, AddPoolBlocks, Tiled, Coalesced;
      hide IsPrevFree, Put;
      ghost var m := words[..];
      InvShape(Now({}));
      InvTiled(Now({}));
      AddPoolTiled(h, block, last);
      AddPoolClass(last - block - 1);
      ghost var (gf, gs) := MappingInsert(size);
      AddPoolSteps(Now({}), block, last, gf, gs);
      ghost var n := heads[32 * gf + gs];
      WritesCommute(m, nul, block, last, n);
      FlagOps(last - block - 1, true, false, 0);
      PoolHeader(block, size);
      var (f, s) := MappingInsert(SizeOf(words[block + 1]));
      InsertFreeBlock(block, f, s);
      assert words[..] == LinkWritten(FirstWritten(m, block, last), nul, block, n);
      PoolSentinel(block);
      assert words[..] == SentinelWritten(LinkWritten(FirstWritten(m, block, last), nul, block, n), block, last);
      h := AddPoolBlocks(h, block, last);
      AddPoolOn(old(h), old(L), block, last, f, s);
    }

    // The memory handed over must lie outside the control structure and all other pools. A pool of exactly
    // block_size_max bytes passes the size test but has no list (see MaxPoolOffTable): its header is written, then C
    // indexes the table outside and leaves undefined what happens; defined is false, and the model stops there.
    method AddPool(mem: nat, bytes: nat) returns (pool: nat, defined: bool)
      requires Valid() && mem < SIZE_T && bytes < SIZE_T
      requires mem % ALIGN_SIZE == 0 && BLOCK_SIZE_MIN <= PoolBytes(bytes) <= BLOCK_SIZE_MAX ==>
        var first, last := PoolFirst(mem), PoolLast(mem, bytes);
        && Vacancy(h, first, last)
        && last + 1 < words.Length && (last + 1 < nul || nul + CONTROL_WORDS <= first + 1)
      modifies this`fl, this`h, this`L, words, heads, sl
      ensures defined <==> mem % ALIGN_SIZE != 0 || PoolBytes(bytes) != BLOCK_SIZE_MAX
      ensures Valid() && Live(words[..], h) == old(Live(words[..], h))
      ensures pool == 0 || pool == mem
      ensures pool != 0 <==>
        defined && mem != 0 && mem % ALIGN_SIZE == 0 && BLOCK_SIZE_MIN <= PoolBytes(bytes) <= BLOCK_SIZE_MAX
      ensures pool == 0 ==> Plan() == old(Plan())
      ensures pool != 0 ==> Extending(old(Plan()), PoolFirst(mem), PoolLast(mem, bytes), Plan())
      // the payload starts behind one word, and the sentinel's word is the last whole one
      ensures pool != 0 ==>
        && BlockToPtr(PoolFirst(mem)) == mem + 8
        && 8 * (PoolLast(mem, bytes) + 2) <= mem + bytes < 8 * (PoolLast(mem, bytes) + 3)
    {
      hide Live, Inv, AddPoolBlocks, Coalesced, MappingInsert, Flags, On;
      PoolBytesFit(bytes);
      var poolBytes := PoolBytes(bytes);
      if mem % ALIGN_SIZE != 0 {
        return 0, true;
      }
      if poolBytes < BLOCK_SIZE_MIN || poolBytes > BLOCK_SIZE_MAX {
        return 0, true;
      }
      hide PoolBytes;
      var block := mem / 8 - 1;
      MaxPoolOffTable(poolBytes);
      if MappingInsert(poolBytes).0 >= FL_INDEX_COUNT {
        OutsideWrite(Now({}), block, PoolLast(mem, bytes), Flags(poolBytes / 8, true, false));
        PoolHeader(block, poolBytes);
        return 0, false;
      }
      PoolBlocks(block, poolBytes, PoolLast(mem, bytes));
      return mem, true;
    }

    // The pool must be one free block again, as the disabled asserts of tlsf_remove_pool demand.
    method RemovePool(pool: nat)
      requires Valid() && pool % ALIGN_SIZE == 0
      requires var first := PoolFirst(pool);
        first in h && h[first].free && h[first].prev == -1 && Next(h, first) in h && h[Next(h, first)].words == 0
      modifies this`fl, this`h, this`L, words, heads, sl
      ensures Valid() && Live(words[..], h) == old(Live(words[..], h))
      ensures Withdrawing(old(Plan()), PoolFirst(pool), old(Next(h, PoolFirst(pool))), Plan())
    {
      hide Class, Live, Inv, MappingInsert, Off;
      var block := pool / 8 - 1;
      HeaderOf(Now({}), block);
      InvTiled(Now({}));
      ghost var last := Next(h, block);
      DropPoolTiled(h, block, last);
      var (f, s) := MappingInsert(SizeOf(words[block + 1]));
      RemoveFreeBlock(block, f, s, {});
      ghost var none: set<int> := {};
      assert none + {block} == {block};
      DropPoolInv(Now({block}), block, last);
      h := h - {block, last};
    }

    // ---- integrity checks

    // tlsf.c:883-895: walk list l, taking one off status for every test that fails
    method CheckList(c: int, f: int, s: int, status0: int, ghost l: seq<int>) returns (status: int)
      requires 0 <= s < 32 && c == 32 * f + s && 0 <= c < heads.Length && Traced(words[..], nul, heads[c], l)
      ensures status <= status0 && (status == status0 <==> AllProper(words[..], l, c))
    {
      hide Class, MappingInsert, IsFree, IsPrevFree, SizeOf, Traced, AllProper;
      status := status0;
      var block := heads[c];
      ghost var k := 0;
      TracedStart(words[..], nul, heads[c], l, c);
      while block != nul
        invariant 0 <= k <= |l| && block == At(l, k, nul) && status <= status0
        invariant status == status0 <==> AllProper(words[..], l[..k], c)
        decreases |l| - k
      {
        assert k < |l|;
        TracedIs(words[..], nul, heads[c], l, k);
        var w := words[block + 1];
        var n := words[block + 1 + SizeOf(w) / 8 + 1];
        var before := status;
        if !IsFree(w) { status := status - 1; }
        if IsPrevFree(w) { status := status - 1; }
        if IsFree(n) { status := status - 1; }
        if !IsPrevFree(n) { status := status - 1; }
        if SizeOf(w) < BLOCK_SIZE_MIN { status := status - 1; }
        var (fli, sli) := MappingInsert(SizeOf(w));
        if !(fli == f && sli == s) { status := status - 1; }
        MappingIsClass(SizeOf(w));
        assert status <= before && (status == before <==> Proper(words[..], block, c));
        ProperMore(words[..], l, c, k);
        block := words[block + 2];
        k := k + 1;
      }
      ListEnds(words[..], nul, heads[c], l, k);
      assert l[..k] == l;
    }

    // lists holds the lists as the links make them, where a bit says that there is one. The result is 0 exactly when
    // they and the bitmaps are clean.
    method Check(ghost lists: Lists) returns (status: int)
      requires heads.Length == |lists| == CLASSES && sl.Length == FL_INDEX_COUNT
      requires forall i: nat, j: nat {:trigger Bit(sl[i], j)} :: i < FL_INDEX_COUNT && j < 32 && Bit(sl[i], j) ==>
        Traced(words[..], nul, heads[32 * i + j], lists[32 * i + j])
      ensures status <= 0 && (status == 0 <==> Clean(words[..], nul, fl, sl[..], heads[..], lists))
      ensures Valid() ==> status == 0
    {
      hide Only, Bit, Traced, AllProper, Inv, Coalesced;
      status := 0;
      for i := 0 to FL_INDEX_COUNT
        invariant status <= 0 && (status == 0 <==> CleanTo(words[..], nul, fl, sl[..], heads[..], lists, i, 0))
      {
        for j := 0 to SL_INDEX_COUNT
          invariant status <= 0 && (status == 0 <==> CleanTo(words[..], nul, fl, sl[..], heads[..], lists, i, j))
        {
          var flMap := Only(fl, i);
          var slList := sl[i];
          var slMap := Only(slList, j);
          var block := heads[32 * i + j];
          OnlyBit(fl, i);
          OnlyBit(slList, j);
          if flMap == 0 {
            if slMap != 0 { status := status - 1; }
          }
          if slMap == 0 {
            if block != nul { status := status - 1; }
          } else {
            NonZeroBit(slList, j);
            if slList == 0 { status := status - 1; }
            if block == nul { status := status - 1; }
            status := CheckList(32 * i + j, i, j, status, lists[32 * i + j]);
          }
          CleanMore(words[..], nul, fl, sl[..], heads[..], lists, i, j);
        }
      }
      if Valid() { ValidClean(Now({}), lists); }
    }

    // tlsf_block_size
    method SizeAt(p: nat) returns (size: nat)
      requires Valid() && (p != 0 ==> IsLive(p))
      ensures size == if p == 0 then 0 else 8 * h[BlockFromPtr(p)].words
      ensures p != 0 ==> |Live(words[..], h)[BlockFromPtr(p)]| == size / 8
    {
      hide Class, Inv, Live;
      size := 0;
      if p != 0 {
        HeaderOf(Now({}), BlockFromPtr(p));
        LiveSize(Now({}), BlockFromPtr(p));
        size := SizeOf(words[BlockFromPtr(p) + 1]);
      }
    }

    method WalkPool(pool: nat, ghost t: seq<int>) returns (visited: seq<Visit>)
      requires pool % ALIGN_SIZE == 0 && Trail(words[..], t) && t[0] == PoolFirst(pool)
      ensures visited == Seen(words[..], t)
    {
      hide SizeOf, IsFree, Trail, Seen, BlockToPtr;
      ghost var m := words[..];
      TrailHead(m, t);
      WalkAt(m, t, 0);
      visited := [];
      var block := pool / 8 - 1;
      while block != 0 && SizeOf(words[block + 1]) != 0
        invariant |visited| < |t| && block == t[|visited|] && 0 < block && block + 1 < words.Length
        invariant forall i :: 0 <= i < |visited| ==> visited[i] == Seen(m, t)[i]
        decreases |t| - |visited|
      {
        ghost var k := |visited|;
        WalkAt(m, t, k);
        visited := visited + [Visit(BlockToPtr(block), SizeOf(words[block + 1]), !IsFree(words[block + 1]))];
        block := block + 1 + SizeOf(words[block + 1]) / 8;
        WalkAt(m, t, k + 1);
      }
      WalkAt(m, t, |visited|);
    }

    method IntegrityWalker(v: Visit, prevStatus: bool, status0: int) returns (thisStatus: bool, status: int)
      requires v.ptr % 8 == 0 && 0 <= BlockFromPtr(v.ptr) && BlockFromPtr(v.ptr) + 1 < words.Length
      ensures var w := words[..][BlockFromPtr(v.ptr) + 1];
        && thisStatus == IsFree(w)
        && status == status0 - (if prevStatus == IsPrevFree(w) then 0 else 1) - (if v.size == SizeOf(w) then 0 else 1)
    {
      var block := BlockFromPtr(v.ptr);
      var thisPrevStatus := IsPrevFree(words[block + 1]);
      thisStatus := IsFree(words[block + 1]);
      status := status0;
      if prevStatus != thisPrevStatus { status := status - 1; }
      if v.size != SizeOf(words[block + 1]) { status := status - 1; }
    }

    // The result is 0 exactly when every flag but the sentinel's says whether the block before is free.
    method CheckPool(pool: nat, ghost t: seq<int>) returns (status: int)
      requires pool % ALIGN_SIZE == 0 && Trail(words[..], t) && t[0] == PoolFirst(pool)
      ensures status <= 0
      ensures status == 0 <==> forall k :: 0 <= k < |t| - 1 ==> Agrees(words[..], t, k)
      ensures Valid() && PoolFirst(pool) in h && h[PoolFirst(pool)].prev == -1 ==> status == 0
    {
      hide SizeOf, IsFree, IsPrevFree, Inv, Coalesced, Tiled, Visits, Trail;
      var visited := WalkPool(pool, t);
      status := 0;
      var prevStatus := false;
      for i := 0 to |visited|
        invariant status <= 0 && (status == 0 <==> forall k :: 0 <= k < i ==> Agrees(words[..], t, k))
        invariant prevStatus == (i > 0 && FreeAt(words[..], t, i - 1))
      {
        SeenAt(words[..], t, i);
        var before := status;
        prevStatus, status := IntegrityWalker(visited[i], prevStatus, status);
        assert status <= before && (status == before <==> Agrees(words[..], t, i));
      }
      if Valid() && PoolFirst(pool) in h && h[PoolFirst(pool)].prev == -1 {
        ValidPool(Now({}), PoolFirst(pool), t);
      }
    }
  }

  const TLSF_SIZE := 8 * CONTROL_WORDS

  // tlsf_create_with_pool: in aligned memory the control structure comes first, and the rest becomes the pool if its
  // size is in range. For a misaligned address tlsf_create gives null, and tlsf_add_pool refuses the misaligned rest
  // before it looks at the control structure.
  method CreateWithPool(memory: array<int>, mem: nat, bytes: nat) returns (t: Tlsf?, defined: bool)
    requires 0 < mem < SIZE_T && bytes < SIZE_T && 8 * memory.Length <= SIZE_T
    requires mem % ALIGN_SIZE == 0 ==> mem + bytes <= 8 * memory.Length && mem / 8 + CONTROL_WORDS < memory.Length
    modifies memory
    ensures defined <==> mem % ALIGN_SIZE != 0 || PoolBytes((bytes - TLSF_SIZE) % SIZE_T) != BLOCK_SIZE_MAX
    ensures t == null <==> mem % ALIGN_SIZE != 0
    ensures t == null ==> memory[..] == old(memory[..])
    ensures t != null ==> fresh(t) && fresh(t.heads) && fresh(t.sl) && t.words == memory && 8 * t.nul == mem
    ensures t != null ==> t.Valid() && Live(t.words[..], t.h) == map[]
    ensures t != null && !(defined && 6576 <= bytes < 0x1_0000_0000 + 6560) ==>
      t.Plan() == Plans.Plan.Plan(map[], NoLists())
    // the pool lies behind the last field of the control structure and takes all that is left
    ensures t != null && defined && 6576 <= bytes < 0x1_0000_0000 + 6560 ==>
      var first, last := mem / 8 + 816, mem / 8 + 817 + (bytes - 6552) / 8;
      && Extending(Plans.Plan.Plan(map[], NoLists()), first, last, t.Plan())
      && BlockToPtr(first) == mem + 6544 && 8 * (last + 2) <= mem + bytes < 8 * (last + 3)
      && forall x :: Layout.Declared(x) ==> mem + Layout.End(x) <= 8 * (first + 1)
  {
    if mem % ALIGN_SIZE != 0 {
      return null, true;
    }
    RestPool(mem, bytes);
    forall x | Layout.Declared(x) ensures mem + Layout.End(x) <= mem + 6536 { Layout.FieldInside(x); }
    hide Extending, Inv, PoolBytes, PoolFirst, PoolLast, Layout.Declared, Layout.End, Live, Coalesced, NoLists;
    hide BlockToPtr;
    var control := new Tlsf(memory, mem / 8);
    NothingYet(control.words[..]);
    var pool;
    pool, defined := control.AddPool(mem + TLSF_SIZE, (bytes - TLSF_SIZE) % SIZE_T);
    t := control;
  }

  lemma NothingYet(m: Words)
    ensures Live(m, map[]) == map[]
  {}

  // What is left for the pool
  lemma RestPool(mem: nat, bytes: nat)
    requires mem % ALIGN_SIZE == 0 && bytes < SIZE_T
    ensures PoolFirst(mem + TLSF_SIZE) == mem / 8 + 816 && BlockToPtr(mem / 8 + 816) == mem + 6544
    ensures var rest := (bytes - TLSF_SIZE) % SIZE_T;
      && (BLOCK_SIZE_MIN <= PoolBytes(rest) <= BLOCK_SIZE_MAX <==> 6576 <= bytes < 0x1_0000_0000 + 6560)
      && (6576 <= bytes < 0x1_0000_0000 + 6560 ==>
            var last := mem / 8 + 817 + (bytes - 6552) / 8;
            PoolLast(mem + TLSF_SIZE, rest) == last && mem + TLSF_SIZE + rest == mem + bytes
            && mem / 8 + 820 <= last && 8 * (last + 2) <= mem + bytes)
  {
    var rest := (bytes - TLSF_SIZE) % SIZE_T;
    PoolBytesFit(rest);
    RestBytes(bytes);
    hide PoolBytes;
    if bytes >= TLSF_SIZE { SmallMod(bytes - TLSF_SIZE, SIZE_T); }
  }

  lemma RestBytes(bytes: nat)
    requires bytes < SIZE_T
    ensures bytes >= TLSF_SIZE + 16 ==> PoolBytes((bytes - TLSF_SIZE) % SIZE_T) / 8 == (bytes - TLSF_SIZE - 16) / 8
    ensures bytes < TLSF_SIZE + 16 ==> PoolBytes((bytes - TLSF_SIZE) % SIZE_T) > BLOCK_SIZE_MAX
  {
    var n := bytes - TLSF_SIZE;
    PoolBytesFit(n % SIZE_T);
    hide PoolBytes;
    if n >= 0 {
      SmallMod(n, SIZE_T);
      if n >= 16 { Eighths(PoolBytes(n), n - 16); }
    } else {
      assert n % SIZE_T == n + SIZE_T;
    }
  }

  lemma Eighths(p: nat, n: nat)
    requires p % 8 == 0 && p <= n < p + 8
    ensures p / 8 == n / 8
  {}
}
