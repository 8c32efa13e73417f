// The integrity checks of tlsf.c: what they find in any memory, and that a valid allocator has nothing to find.
module Checks {
  import opened Bits
  import opened Bitwise
  import opened Mapping
  import opened Blocks
  import opened FreeLists
  import opened Bitmaps
  import opened Headers
  import opened Invariant

  // ---- the lists

  // Following the links from the head meets the blocks of l and then block_null. Their headers and the ones behind them
  // lie in memory; sizes are multiples of 8.
  ghost predicate Traced(m: Words, nul: int, head: int, l: seq<int>) {
    && head == At(l, 0, nul)
    && forall k {:trigger TracedAt(m, nul, l, k)} :: 0 <= k < |l| ==> TracedAt(m, nul, l, k)
  }

  ghost predicate TracedAt(m: Words, nul: int, l: seq<int>, k: nat)
    requires k < |l|
  {
    var a := l[k];
    && a != nul && 0 <= a && a + 2 < |m| && m[a + 2] == At(l, k + 1, nul)
    && 0 <= m[a + 1] < SIZE_T && SizeOf(m[a + 1]) % 8 == 0 && HasNext(m, a)
  }

  lemma TracedHead(m: Words, nul: int, head: int, l: seq<int>)
    requires Traced(m, nul, head, l)
    ensures (head == nul <==> l == []) && (l != [] ==> l[0] == head)
  {
    if l != [] { assert TracedAt(m, nul, l, 0); }
  }

  lemma TracedStart(m: Words, nul: int, head: int, l: seq<int>, c: int)
    requires Traced(m, nul, head, l)
    ensures head == At(l, 0, nul) && AllProper(m, l[..0], c)
  {}

  lemma TracedGet(m: Words, nul: int, head: int, l: seq<int>, k: nat)
    requires Traced(m, nul, head, l) && k < |l|
    ensures TracedAt(m, nul, l, k) && (k == 0 ==> head == l[k])
  {
    hide TracedAt;
  }

  lemma TracedIs(m: Words, nul: int, head: int, l: seq<int>, k: nat)
    requires Traced(m, nul, head, l) && k < |l|
    ensures (k == 0 ==> head == l[k]) && 0 <= l[k] && l[k] + 2 < |m| && HasNext(m, l[k])
    ensures 0 <= m[l[k] + 1] < SIZE_T && 0 <= SizeOf(m[l[k] + 1]) < SIZE_T
    ensures NextHeader(m, l[k]) == l[k] + 1 + SizeOf(m[l[k] + 1]) / 8 && m[l[k] + 2] == At(l, k + 1, nul)
  {
    hide Traced;
    TracedGet(m, nul, head, l, k);
  }

  lemma ListEnds(m: Words, nul: int, head: int, l: seq<int>, k: nat)
    requires Traced(m, nul, head, l) && k <= |l| && At(l, k, nul) == nul
    ensures k == |l|
  {
    forall i | 0 <= i < |l| ensures l[i] != nul { assert TracedAt(m, nul, l, i); }
  }

  lemma TracedWord(m: Words, nul: int, l: seq<int>, k: nat)
    requires k < |l| && TracedAt(m, nul, l, k)
    ensures HasNext(m, l[k]) && 0 <= m[l[k] + 1] < SIZE_T
  {}

  // A free block between used ones, on the list of its class
  ghost predicate Proper(m: Words, a: int, c: int)
    requires HasNext(m, a) && 0 <= m[a + 1] < SIZE_T
  {
    var w, n := m[a + 1], m[NextHeader(m, a) + 1];
    && IsFree(w) && !IsPrevFree(w) && !IsFree(n) && IsPrevFree(n)
    && BLOCK_SIZE_MIN <= SizeOf(w) && Class(SizeOf(w)) == c
  }

  ghost predicate AllProper(m: Words, l: seq<int>, c: int) {
    forall a {:trigger a in l} :: a in l ==> HasNext(m, a) && 0 <= m[a + 1] < SIZE_T && Proper(m, a, c)
  }

  lemma ProperMore(m: Words, l: seq<int>, c: int, k: nat)
    requires k < |l| && HasNext(m, l[k]) && 0 <= m[l[k] + 1] < SIZE_T
    ensures AllProper(m, l[..k + 1], c) <==> AllProper(m, l[..k], c) && Proper(m, l[k], c)
  {
    hide Proper, SizeOf;
    assert l[..k + 1] == l[..k] + [l[k]];
    if AllProper(m, l[..k + 1], c) {
      assert l[k] in l[..k + 1];
      forall a {:trigger a in l[..k]} | a in l[..k]
        ensures HasNext(m, a) && 0 <= m[a + 1] < SIZE_T && Proper(m, a, c)
      {
        assert a in l[..k + 1];
      }
    }
  }

  // What tlsf_check wants of list j in row i
  ghost predicate CleanAt(m: Words, nul: int, fl: bv32, sl: seq<bv32>, heads: seq<int>, L: Lists, i: nat, j: nat)
    requires |sl| == FL_INDEX_COUNT && |heads| == |L| == CLASSES && i < FL_INDEX_COUNT && j < 32
  {
    && (Bit(sl[i], j) ==> Bit(fl, i) && AllProper(m, L[32 * i + j], 32 * i + j))
    && (Bit(sl[i], j) <==> heads[32 * i + j] != nul)
  }

  ghost predicate Clean(m: Words, nul: int, fl: bv32, sl: seq<bv32>, heads: seq<int>, L: Lists)
    requires |sl| == FL_INDEX_COUNT && |heads| == |L| == CLASSES
  {
    forall i: nat, j: nat :: i < FL_INDEX_COUNT && j < 32 ==> CleanAt(m, nul, fl, sl, heads, L, i, j)
  }

  // Clean as far as column j of row i
  ghost predicate CleanTo(m: Words, nul: int, fl: bv32, sl: seq<bv32>, heads: seq<int>, L: Lists, i: nat, j: nat)
    requires |sl| == FL_INDEX_COUNT && |heads| == |L| == CLASSES
  {
    forall f: nat, s: nat :: f < FL_INDEX_COUNT && s < 32 && (f < i || (f == i && s < j)) ==>
      CleanAt(m, nul, fl, sl, heads, L, f, s)
  }

  lemma CleanMore(m: Words, nul: int, fl: bv32, sl: seq<bv32>, heads: seq<int>, L: Lists, i: nat, j: nat)
    requires |sl| == FL_INDEX_COUNT && |heads| == |L| == CLASSES && i < FL_INDEX_COUNT && j < 32
    ensures CleanTo(m, nul, fl, sl, heads, L, i, j + 1) <==>
      CleanTo(m, nul, fl, sl, heads, L, i, j) && CleanAt(m, nul, fl, sl, heads, L, i, j)
  {
    hide CleanAt;
  }

  // A bit of the first level that stands for an empty row is all that the check does not see of the bitmaps.
  lemma CleanMaps(m: Words, nul: int, fl: bv32, sl: seq<bv32>, heads: seq<int>, L: Lists)
    requires |sl| == FL_INDEX_COUNT && |heads| == |L| == CLASSES && Clean(m, nul, fl, sl, heads, L)
    requires forall c {:trigger L[c]} :: 0 <= c < CLASSES ==> Traced(m, nul, heads[c], L[c])
    ensures Mapped(fl, sl, L) <==> forall i: nat {:trigger Bit(fl, i)} :: i < 32 && Bit(fl, i) ==>
      i < FL_INDEX_COUNT && sl[i] != 0
  {
    hide Bit, AllProper, Traced;
    forall i: nat {:trigger RowOk(sl[i], L, i)} | i < FL_INDEX_COUNT ensures RowOk(sl[i], L, i) {
      forall j: nat {:trigger Bit(sl[i], j)} | j < 32 ensures Bit(sl[i], j) <==> L[32 * i + j] != [] {
        assert CleanAt(m, nul, fl, sl, heads, L, i, j);
        TracedHead(m, nul, heads[32 * i + j], L[32 * i + j]);
      }
    }
    forall i: nat | i < FL_INDEX_COUNT && sl[i] != 0 ensures Bit(fl, i) {
      var j := Ffs(sl[i]);
      FfsLowest(sl[i]);
      assert CleanAt(m, nul, fl, sl, heads, L, i, j);
    }
  }

  // There are such bits that it does not see.
  lemma StrayBit(m: Words, nul: int)
    ensures var none, heads, L := seq(FL_INDEX_COUNT, _ => 0 as bv32), seq(CLASSES, _ => nul), seq(CLASSES, _ => []);
      && Clean(m, nul, With(0, 3), none, heads, L) && !Mapped(With(0, 3), none, L)
      && forall c {:trigger L[c]} :: 0 <= c < CLASSES ==> Traced(m, nul, heads[c], L[c])
  {
    hide Bit, With;
    var none, heads, L := seq(FL_INDEX_COUNT, _ => 0 as bv32), seq(CLASSES, _ => nul), seq(CLASSES, _ => []);
    SetBit(0, 3, 3);
    assert none[3] == 0;
    forall i: nat, j: nat | i < FL_INDEX_COUNT && j < 32 ensures CleanAt(m, nul, With(0, 3), none, heads, L, i, j) {
      ZeroBit(j);
    }
  }

  // ---- a valid allocator passes

  lemma ListedAt(st: State, c: int, k: int)
    requires Inv(st) && st.F == {} && 0 <= c < CLASSES && 0 <= k < |st.L[c]|
    ensures var a := st.L[c][k];
      && Tiled(st.h) && a in st.h && st.h[a].free && ClassAt(st.h, a) == c
      && 0 < a && a + 2 < |st.m| && st.h[a].words >= 3 && a != st.nul
      && st.m[a + 2] == At(st.L[c], k + 1, st.nul) && (At(st.L[c], k + 1, st.nul) == st.nul <==> k + 1 == |st.L[c]|)
  {
    var a := st.L[c][k];
    hide Class;
    assert ListOk(st.m, st.nul, st.heads, st.L, c) && LinkOk(st.m, st.nul, st.L[c], k);
    assert FiledList(st.h, {}, c, st.L[c]);
    assert Member(st.h, {}, c, a);
    ListMembers(st.m, st.nul, st.h, {}, st.L, c);
    assert BlockOk(st.h, a) && TagOk(st.m, st.nul, st.h, a);
  }

  lemma FreeNeighbours(h: Heap, a: int)
    requires Tiled(h) && Coalesced(h) && a in h && h[a].free
    ensures Next(h, a) in h && !h[Next(h, a)].free && PrevFree(h, Next(h, a)) && !PrevFree(h, a)
  {
    assert BlockOk(h, a) && PairOk(h, a);
    assert h[a].prev in h ==> PairOk(h, h[a].prev) && BlockOk(h, h[a].prev);
  }

  lemma WordBounds(w: int)
    ensures SizeOf(w) <= w < SizeOf(w) + 4
  {}

  lemma ListedWell(st: State, c: int, k: int)
    requires Inv(st) && st.F == {} && Coalesced(st.h) && 0 <= c < CLASSES && 0 <= k < |st.L[c]|
    ensures TracedAt(st.m, st.nul, st.L[c], k) && Proper(st.m, st.L[c][k], c)
  {
    var a := st.L[c][k];
    hide Class, MappingInsert, SizeOf, IsFree, IsPrevFree, Inv, Coalesced, PrevFree, Tiled;
    ListedAt(st, c, k);
    FreeNeighbours(st.h, a);
    HeaderOf(st, a);
    WordBounds(st.m[a + 1]);
    HeaderOf(st, Next(st.h, a));
    MappingIsClass(SizeOf(st.m[a + 1]));
  }

  lemma ListsTraced(st: State, c: int)
    requires Inv(st) && st.F == {} && Coalesced(st.h) && 0 <= c < CLASSES
    ensures Traced(st.m, st.nul, st.heads[c], st.L[c])
  {
    hide Inv, Coalesced, TracedAt, Proper;
    InvShape(st);
    HeadOf(st, c);
    forall k | 0 <= k < |st.L[c]| ensures TracedAt(st.m, st.nul, st.L[c], k) { ListedWell(st, c, k); }
  }

  // What follows from a head is determined by the memory.
  lemma {:induction false} OneList(m: Words, nul: int, head: int, l: seq<int>, l': seq<int>)
    requires Traced(m, nul, head, l) && Traced(m, nul, head, l')
    ensures l == l'
    decreases |l|
  {
    hide Traced;
    TracedHead(m, nul, head, l);
    TracedHead(m, nul, head, l');
    if l != [] {
      TracedTail(m, nul, head, l);
      TracedTail(m, nul, head, l');
      OneList(m, nul, m[head + 2], l[1..], l'[1..]);
      assert l == [l[0]] + l[1..] && l' == [l'[0]] + l'[1..];
    }
  }

  lemma TracedTail(m: Words, nul: int, head: int, l: seq<int>)
    requires Traced(m, nul, head, l) && l != []
    ensures 0 <= head && head + 2 < |m| && Traced(m, nul, m[head + 2], l[1..])
  {
    hide TracedAt, At;
    TracedIs(m, nul, head, l, 0);
    forall k | 0 <= k < |l| - 1 ensures TracedAt(m, nul, l[1..], k) {
      TracedGet(m, nul, head, l, k + 1);
      TracedShift(m, nul, l, k);
    }
    AtShift(l, nul);
  }

  lemma AtShift(l: seq<int>, nul: int)
    requires l != []
    ensures At(l[1..], 0, nul) == At(l, 1, nul)
  {}

  lemma TracedShift(m: Words, nul: int, l: seq<int>, k: nat)
    requires k + 1 < |l| && TracedAt(m, nul, l, k + 1)
    ensures TracedAt(m, nul, l[1..], k)
  {
    hide HasNext, SizeOf;
  }

  lemma ValidCleanAt(st: State, L: Lists, i: nat, j: nat)
    requires Inv(st) && st.F == {} && Coalesced(st.h) && i < FL_INDEX_COUNT && j < 32
    requires |st.heads| == |L| == CLASSES && |st.sl| == FL_INDEX_COUNT
    requires Bit(st.sl[i], j) ==> Traced(st.m, st.nul, st.heads[32 * i + j], L[32 * i + j])
    ensures CleanAt(st.m, st.nul, st.fl, st.sl, st.heads, L, i, j)
  {
    hide Inv, Coalesced, TracedAt, Proper, Traced, Bit;
    var c := 32 * i + j;
    var l := L[c];
    InvShape(st);
    HeadOf(st, c);
    ListsTraced(st, c);
    CheckedMaps(st, i, j);
    if Bit(st.sl[i], j) {
      OneList(st.m, st.nul, st.heads[c], st.L[c], l);
      forall a {:trigger a in l} | a in l ensures HasNext(st.m, a) && 0 <= st.m[a + 1] < SIZE_T && Proper(st.m, a, c) {
        var k :| 0 <= k < |l| && l[k] == a;
        ListedWell(st, c, k);
        TracedWord(st.m, st.nul, l, k);
      }
    }
  }

  lemma CheckedMaps(st: State, i: nat, j: nat)
    requires Inv(st) && i < FL_INDEX_COUNT && j < 32
    ensures Bit(st.sl[i], j) <==> st.L[32 * i + j] != []
    ensures Bit(st.sl[i], j) ==> Bit(st.fl, i)
    ensures st.heads[32 * i + j] == st.nul <==> st.L[32 * i + j] == []
  {
    hide Bit;
    HeadOf(st, 32 * i + j);
    assert RowOk(st.sl[i], st.L, i);
    assert Bit(st.sl[i], j) <==> st.L[32 * i + j] != [];
    assert Bit(st.fl, i) <==> st.sl[i] != 0;
    if Bit(st.sl[i], j) { NonZeroBit(st.sl[i], j); }
  }

  lemma ValidClean(st: State, L: Lists)
    requires Inv(st) && st.F == {} && Coalesced(st.h) && |L| == |st.heads| == CLASSES && |st.sl| == FL_INDEX_COUNT
    requires forall i: nat, j: nat {:trigger Bit(st.sl[i], j)} :: i < FL_INDEX_COUNT && j < 32 && Bit(st.sl[i], j) ==>
      Traced(st.m, st.nul, st.heads[32 * i + j], L[32 * i + j])
    ensures Clean(st.m, st.nul, st.fl, st.sl, st.heads, L)
  {
    hide Inv, Coalesced, Traced, CleanAt, Bit;
    forall i: nat, j: nat | i < FL_INDEX_COUNT && j < 32
      ensures CleanAt(st.m, st.nul, st.fl, st.sl, st.heads, L, i, j)
    {
      ValidCleanAt(st, L, i, j);
    }
  }

  // ---- walking a pool

  // What a walker callback is given
  datatype Visit = Visit(ptr: int, size: int, used: bool)

  // Going from header to header leads through t; the last one, and no other, has size 0.
  ghost predicate Trail(m: Words, t: seq<int>) {
    t != [] && forall k {:trigger t[k]} :: 0 <= k < |t| ==> TrailAt(m, t, k)
  }

  ghost predicate TrailAt(m: Words, t: seq<int>, k: nat)
    requires k < |t|
  {
    && 0 < t[k] && t[k] + 1 < |m| && SizeOf(m[t[k] + 1]) % 8 == 0
    && (SizeOf(m[t[k] + 1]) == 0 <==> k == |t| - 1)
    && (k + 1 < |t| ==> t[k + 1] == NextHeader(m, t[k]))
  }

  // What a walk sees: all of the trail but its end
  ghost function Seen(m: Words, t: seq<int>): (v: seq<Visit>)
    requires Trail(m, t)
    ensures |v| == |t| - 1
  {
    seq(|t| - 1, k requires 0 <= k < |t| - 1 =>
      assert TrailAt(m, t, k);
      Visit(BlockToPtr(t[k]), SizeOf(m[t[k] + 1]), !IsFree(m[t[k] + 1])))
  }

  // The prev-free flag at step k of a trail says whether the block before it is free.
  ghost predicate Agrees(m: Words, t: seq<int>, k: nat)
    requires k < |t| && Trail(m, t)
  {
    assert TrailAt(m, t, k);
    assert k > 0 ==> TrailAt(m, t, k - 1);
    IsPrevFree(m[t[k] + 1]) <==> k > 0 && IsFree(m[t[k - 1] + 1])
  }

  ghost function Visits(h: Heap, l: seq<int>): (v: seq<Visit>)
    requires forall a :: a in l ==> a in h
    ensures |v| == |l|
  {
    seq(|l|, i requires 0 <= i < |l| => Visit(BlockToPtr(l[i]), 8 * h[l[i]].words, !h[l[i]].free))
  }

  ghost predicate FreeAt(m: Words, t: seq<int>, k: nat)
    requires k < |t| && Trail(m, t)
  {
    assert TrailAt(m, t, k);
    IsFree(m[t[k] + 1])
  }

  lemma WalkAt(m: Words, t: seq<int>, k: nat)
    requires Trail(m, t) && k < |t|
    ensures 0 < t[k] && t[k] + 1 < |m| && (SizeOf(m[t[k] + 1]) == 0 <==> k == |t| - 1) && |Seen(m, t)| == |t| - 1
    ensures k < |t| - 1 ==>
      && t[k + 1] == t[k] + 1 + SizeOf(m[t[k] + 1]) / 8
      && Seen(m, t)[k] == Visit(BlockToPtr(t[k]), SizeOf(m[t[k] + 1]), !IsFree(m[t[k] + 1]))
  {
    assert TrailAt(m, t, k);
  }

  lemma SeenAt(m: Words, t: seq<int>, k: nat)
    requires Trail(m, t) && k + 1 < |t|
    ensures var v := Seen(m, t)[k];
      && v.ptr % 8 == 0 && BlockFromPtr(v.ptr) == t[k] && 0 < t[k] && t[k] + 1 < |m| && v.size == SizeOf(m[t[k] + 1])
    ensures FreeAt(m, t, k) <==> IsFree(m[t[k] + 1])
    ensures Agrees(m, t, k) <==> (IsPrevFree(m[t[k] + 1]) <==> k > 0 && FreeAt(m, t, k - 1))
  {
    assert TrailAt(m, t, k);
  }

  // From a block of a valid allocator there is one trail: the blocks behind it up to the sentinel.
  lemma {:induction false} ValidTrail(st: State, a: int)
    requires Inv(st) && a in st.h
    ensures Tiled(st.h) && Trail(st.m, Chain(st.h, a) + [st.h[a].pool.last])
    ensures (Chain(st.h, a) + [st.h[a].pool.last])[0] == a
    decreases st.h[a].pool.last - a
  {
    hide Inv, Chain, Tiled, SizeOf;
    InvTiled(st);
    ChainStep(st.h, a);
    HeaderOf(st, a);
    TrailStart(st.h, a);
    if st.h[a].words == 0 {
      assert Chain(st.h, a) + [st.h[a].pool.last] == [a];
      assert TrailAt(st.m, [a], 0);
    } else {
      var n := Next(st.h, a);
      ValidTrail(st, n);
      var u := Chain(st.h, n) + [st.h[n].pool.last];
      TrailLonger(st.m, a, u);
      assert Chain(st.h, a) + [st.h[a].pool.last] == [a] + u;
    }
  }

  lemma TrailLonger(m: Words, a: int, u: seq<int>)
    requires Trail(m, u) && 0 < a && a + 1 < |m| && SizeOf(m[a + 1]) % 8 == 0 && SizeOf(m[a + 1]) != 0
    requires u[0] == NextHeader(m, a)
    ensures Trail(m, [a] + u)
  {
    hide SizeOf;
    var t := [a] + u;
    forall k | 0 <= k < |t| ensures TrailAt(m, t, k) {
      if k > 0 { assert TrailAt(m, u, k - 1); }
    }
  }

  lemma TrailStart(h: Heap, a: int)
    requires Tiled(h) && a in h
    ensures a <= h[a].pool.last && (h[a].words == 0 <==> a == h[a].pool.last)
    ensures h[a].words != 0 ==> Next(h, a) in h && a < Next(h, a) && h[Next(h, a)].pool == h[a].pool
  {
    assert BlockOk(h, a);
  }

  lemma {:induction false} OneTrail(m: Words, t: seq<int>, u: seq<int>)
    requires Trail(m, t) && Trail(m, u) && t[0] == u[0]
    ensures t == u
    decreases |t|
  {
    TrailHead(m, t);
    TrailHead(m, u);
    hide Trail, SizeOf;
    assert |t| == 1 <==> |u| == 1;
    if |t| > 1 {
      TrailTail(m, t);
      TrailTail(m, u);
      OneTrail(m, t[1..], u[1..]);
      assert t == [t[0]] + t[1..] && u == [u[0]] + u[1..];
    }
  }

  lemma TrailHead(m: Words, t: seq<int>)
    requires Trail(m, t)
    ensures |t| > 0 && 0 < t[0] && t[0] + 1 < |m| && (SizeOf(m[t[0] + 1]) == 0 <==> |t| == 1)
    ensures |t| > 1 ==> t[1] == NextHeader(m, t[0])
  {
    assert TrailAt(m, t, 0);
  }

  lemma TrailTail(m: Words, t: seq<int>)
    requires Trail(m, t) && |t| > 1
    ensures Trail(m, t[1..])
  {
    forall k | 0 <= k < |t| - 1 ensures TrailAt(m, t[1..], k) { assert TrailAt(m, t, k + 1); }
  }

  // On a trail of a valid allocator the walk sees what the blocks are, and every flag agrees.
  lemma ValidPool(st: State, first: int, t: seq<int>)
    requires Inv(st) && first in st.h && Trail(st.m, t) && t[0] == first
    ensures Tiled(st.h) && (forall a :: a in Chain(st.h, first) ==> a in st.h)
    ensures t == Chain(st.h, first) + [st.h[first].pool.last] && Seen(st.m, t) == Visits(st.h, Chain(st.h, first))
    ensures st.h[first].prev == -1 ==> forall k :: 0 <= k < |t| ==> Agrees(st.m, t, k)
  {
    hide Inv, Trail, Chain, Tiled;
    ValidTrail(st, first);
    OneTrail(st.m, t, Chain(st.h, first) + [st.h[first].pool.last]);
    ChainExact(st.h, first);
    var l := Chain(st.h, first);
    forall k | 0 <= k < |l| ensures Seen(st.m, t)[k] == Visits(st.h, l)[k] {
      assert l[k] in l;
      HeaderOf(st, l[k]);
    }
    if st.h[first].prev == -1 {
      forall k | 0 <= k < |t| ensures Agrees(st.m, t, k) { ValidAgrees(st, first, t, k); }
    }
  }

  lemma ValidAgrees(st: State, first: int, t: seq<int>, k: nat)
    requires Inv(st) && first in st.h && st.h[first].prev == -1 && Tiled(st.h)
    requires Trail(st.m, t) && t == Chain(st.h, first) + [st.h[first].pool.last] && k < |t|
    ensures Agrees(st.m, t, k)
  {
    hide Inv, Trail, Chain, Tiled;
    ChainLink(st.h, first, k);
    HeaderOf(st, t[k]);
    if k > 0 {
      ChainLink(st.h, first, k - 1);
      HeaderOf(st, t[k - 1]);
    }
    NoBlockBefore(st.h);
  }
}
