// The physical layer: which blocks there are, what splitting and merging do to them, and how their headers lie in the
// memory. Addresses are words; block a has its payload size at a + 1 and its payload from a + 2 to Next(h, a).
module Blocks {

  // A pool runs from the header of its first block to its zero-size sentinel.
  datatype Pool = Pool(first: int, last: int)

  // What the headers mean: the payload size in words, the free flag, the physical predecessor
  // (-1 for the first block of a pool) and the pool.
  datatype Block = Block(words: nat, free: bool, prev: int, pool: Pool)

  type Heap = map<int, Block>

  function Next(h: Heap, a: int): int
    requires a in h
  {
    a + 1 + h[a].words
  }

  ghost predicate BlockOk(h: Heap, a: int)
    requires a in h
  {
    var x := h[a];
    && 0 <= x.pool.first <= a <= x.pool.last <= x.pool.first + 0x2000_0000 && x.pool.first < x.pool.last
    && x.pool.first in h && h[x.pool.first].pool == x.pool
    && x.pool.last in h && h[x.pool.last].pool == x.pool
    && (a == x.pool.first <==> x.prev == -1)
    && (a == x.pool.last <==> x.words == 0)
    && (x.words == 0 ==> !x.free)
    && (x.words != 0 ==> x.words >= 3 && Next(h, a) in h && h[Next(h, a)].prev == a && h[Next(h, a)].pool == x.pool)
    && (x.prev != -1 ==> x.prev in h && h[x.prev].words != 0 && Next(h, x.prev) == a)
  }

  ghost predicate Apart(h: Heap, a: int, c: int)
    requires a in h && c in h
  {
    a < c ==> Next(h, a) <= c
  }

  ghost predicate Tiled(h: Heap) {
    && (forall a {:trigger BlockOk(h, a)} :: a in h ==> BlockOk(h, a))
    && (forall a, c {:trigger Apart(h, a, c)} :: a in h && c in h ==> Apart(h, a, c))
  }

  predicate PrevFree(h: Heap, a: int)
    requires a in h
  {
    h[a].prev in h && h[h[a].prev].free
  }

  function SetFree(h: Heap, a: int, f: bool): Heap
    requires a in h
  {
    h[a := h[a].(free := f)]
  }

  // Cut block a to s words; the rest becomes a free block of its own.
  function Split(h: Heap, a: int, s: nat): Heap
    requires a in h && s + 4 <= h[a].words && Next(h, a) in h
  {
    var r := a + 1 + s;
    var n := Next(h, a);
    h[a := h[a].(words := s)][r := Block(h[a].words - s - 1, true, a, h[a].pool)][n := h[n].(prev := r)]
  }

  // Block a takes over its successor.
  function Absorb(h: Heap, a: int): Heap
    requires a in h && Next(h, a) in h && Next(h, Next(h, a)) in h
  {
    var x := Next(h, a);
    var n := Next(h, x);
    (h - {x})[a := h[a].(words := h[a].words + 1 + h[x].words)][n := h[n].(prev := a)]
  }

  lemma SetFreeTiled(h: Heap, a: int, f: bool)
    requires Tiled(h) && a in h && h[a].words != 0
    ensures Tiled(SetFree(h, a, f))
  {
    var h' := SetFree(h, a, f);
    forall c {:trigger BlockOk(h', c)} | c in h' ensures BlockOk(h', c) { assert BlockOk(h, c); }
    forall c, d {:trigger Apart(h', c, d)} | c in h' && d in h' ensures Apart(h', c, d) { assert Apart(h, c, d); }
  }

  lemma SplitRoom(h: Heap, a: int, s: nat)
    requires Tiled(h) && a in h && s + 4 <= h[a].words
    ensures Next(h, a) in h && a + 1 + s !in h
    ensures h[a].pool.first in h && h[a].pool.first != a + 1 + s
  {
    assert BlockOk(h, a);
    if a + 1 + s in h { assert Apart(h, a, a + 1 + s); }
  }

  lemma SplitTiled(h: Heap, a: int, s: nat)
    requires Tiled(h) && a in h && 3 <= s && s + 4 <= h[a].words
    ensures Next(h, a) in h && a + 1 + s !in h
    ensures Tiled(Split(h, a, s))
  {
    SplitRoom(h, a, s);
    var h' := Split(h, a, s);
    hide Split, BlockOk, Apart;
    forall c {:trigger BlockOk(h', c)} | c in h' ensures BlockOk(h', c) { SplitBlock(h, a, s, c); }
    forall c, d {:trigger Apart(h', c, d)} | c in h' && d in h' ensures Apart(h', c, d) { SplitApart(h, a, s, c, d); }
  }

  lemma SplitBlock(h: Heap, a: int, s: nat, c: int)
    requires Tiled(h) && a in h && 3 <= s && s + 4 <= h[a].words && Next(h, a) in h && a + 1 + s !in h
    requires c in Split(h, a, s)
    ensures BlockOk(Split(h, a, s), c)
  {
    assert BlockOk(h, a) && BlockOk(h, Next(h, a));
    if c in h { assert BlockOk(h, c); }
    hide Tiled;
  }

  lemma SplitApart(h: Heap, a: int, s: nat, c: int, d: int)
    requires Tiled(h) && a in h && s + 4 <= h[a].words && Next(h, a) in h
    requires c in Split(h, a, s) && d in Split(h, a, s)
    ensures Apart(Split(h, a, s), c, d)
  {
    if c in h && d in h { assert Apart(h, c, d); }
    if c in h { assert Apart(h, a, c); assert Apart(h, c, a); }
    if d in h { assert Apart(h, a, d); }
  }

  lemma AbsorbTiled(h: Heap, a: int)
    requires Tiled(h) && a in h && h[a].words != 0
    requires Next(h, a) in h && h[Next(h, a)].words != 0
    ensures Next(h, Next(h, a)) in h
    ensures Tiled(Absorb(h, a))
  {
    assert BlockOk(h, Next(h, a));
    var h' := Absorb(h, a);
    hide Absorb, BlockOk, Apart;
    forall c {:trigger BlockOk(h', c)} | c in h' ensures BlockOk(h', c) { AbsorbBlock(h, a, c); }
    forall c, d {:trigger Apart(h', c, d)} | c in h' && d in h' ensures Apart(h', c, d) { AbsorbApart(h, a, c, d); }
  }

  lemma AbsorbBlock(h: Heap, a: int, c: int)
    requires Tiled(h) && a in h && h[a].words != 0
    requires Next(h, a) in h && h[Next(h, a)].words != 0 && Next(h, Next(h, a)) in h
    requires c in Absorb(h, a)
    ensures BlockOk(Absorb(h, a), c)
  {
    assert BlockOk(h, a) && BlockOk(h, Next(h, a)) && BlockOk(h, Next(h, Next(h, a))) && BlockOk(h, c);
    hide Tiled;
  }

  lemma AbsorbApart(h: Heap, a: int, c: int, d: int)
    requires Tiled(h) && a in h && h[a].words != 0
    requires Next(h, a) in h && h[Next(h, a)].words != 0 && Next(h, Next(h, a)) in h
    requires c in Absorb(h, a) && d in Absorb(h, a)
    ensures Apart(Absorb(h, a), c, d)
  {
    assert Apart(h, c, d) && Apart(h, Next(h, a), d);
    hide Tiled;
  }

  lemma AbsorbSplit(h: Heap, a: int, s: nat)
    requires Tiled(h) && a in h && 3 <= s && s + 4 <= h[a].words
    ensures Next(h, a) in h
    ensures Absorb(Split(h, a, s), a) == h
  {
    SplitTiled(h, a, s);
    assert BlockOk(h, a);
  }

  // ---- headers in memory: prev_phys_block at word 0, size and flags at word 1

  type Words = seq<int>

  // Words taken by the control structure: block_null comes first, then bitmaps and list heads.
  const CONTROL_WORDS := 817

  function Tag(h: Heap, a: int): nat
    requires a in h
  {
    8 * h[a].words + (if h[a].free then 1 else 0) + (if PrevFree(h, a) then 2 else 0)
  }

  ghost predicate TagOk(m: Words, nul: int, h: Heap, a: int)
    requires a in h
  {
    && 0 < a && Next(h, a) < |m|
    && (Next(h, a) < nul || nul + CONTROL_WORDS <= a + 1)
    && m[a + 1] == Tag(h, a)
    && (PrevFree(h, a) ==> m[a] == h[a].prev)
  }

  ghost predicate Tagged(m: Words, nul: int, h: Heap) {
    forall a {:trigger TagOk(m, nul, h, a)} :: a in h ==> TagOk(m, nul, h, a)
  }

  // The words that carry the headers of h
  ghost predicate HeaderWord(h: Heap, i: int) {
    (i - 1) in h || (i in h && PrevFree(h, i))
  }

  lemma TaggedFrame(m: Words, m': Words, nul: int, h: Heap)
    requires Tagged(m, nul, h) && |m'| == |m|
    requires forall i :: 0 <= i < |m| && HeaderWord(h, i) ==> m'[i] == m[i]
    ensures Tagged(m', nul, h)
  {
    forall a {:trigger TagOk(m', nul, h, a)} | a in h ensures TagOk(m', nul, h, a) {
      assert TagOk(m, nul, h, a);
      assert HeaderWord(h, a + 1);
      if PrevFree(h, a) { assert HeaderWord(h, a); }
    }
  }

  // ---- live allocations: header address to payload

  function Payload(m: Words, h: Heap, a: int): Words
    requires a in h
  {
    if 0 <= a && Next(h, a) < |m| then m[a + 2..Next(h, a) + 1] else []
  }

  function Live(m: Words, h: Heap): map<int, Words> {
    map a | a in h && !h[a].free && h[a].words != 0 :: Payload(m, h, a)
  }

  ghost predicate LiveWord(h: Heap, a: int, i: int) {
    a in h && !h[a].free && a + 2 <= i <= Next(h, a)
  }

  lemma LiveFrame(m: Words, m': Words, h: Heap)
    requires |m'| == |m|
    requires forall a, i {:trigger LiveWord(h, a, i)} :: 0 <= i < |m| && LiveWord(h, a, i) ==> m'[i] == m[i]
    ensures Live(m', h) == Live(m, h)
  {
    forall a | a in h && !h[a].free && 0 <= a && Next(h, a) < |m| ensures Payload(m', h, a) == Payload(m, h, a) {
      forall i | a + 2 <= i <= Next(h, a) ensures m'[i] == m[i] { assert LiveWord(h, a, i); }
    }
  }

  // Free blocks and the null block keep the list links; nothing else is stored in those two words.
  ghost predicate Linkable(nul: int, h: Heap, y: int) {
    y == nul || (y in h && h[y].free)
  }

  lemma LinkWordApart(m: Words, nul: int, h: Heap, y: int, i: int, a: int)
    requires Tiled(h) && Tagged(m, nul, h) && Linkable(nul, h, y) && y + 2 <= i <= y + 3 && a in h
    ensures a + 1 != i && (PrevFree(h, a) ==> a != i) && !LiveWord(h, a, i)
  {
    assert TagOk(m, nul, h, a);
    if y != nul {
      assert BlockOk(h, y);
      assert Apart(h, a, y) && Apart(h, y, a);
    }
    if PrevFree(h, a) {
      assert BlockOk(h, a);
      assert TagOk(m, nul, h, h[a].prev);
    }
  }

  lemma LinkWrite(m: Words, nul: int, h: Heap, y: int, i: int, v: int)
    requires Tiled(h) && Tagged(m, nul, h) && Linkable(nul, h, y) && y + 2 <= i <= y + 3 && 0 <= i < |m|
    ensures Tagged(m[i := v], nul, h)
    ensures Live(m[i := v], h) == Live(m, h)
  {
    forall a | a in h ensures a + 1 != i && (PrevFree(h, a) ==> a != i) && !LiveWord(h, a, i) {
      LinkWordApart(m, nul, h, y, i, a);
    }
    TaggedFrame(m, m[i := v], nul, h);
    LiveFrame(m, m[i := v], h);
  }

  // ---- coalescing

  ghost predicate PairOk(h: Heap, x: int)
    requires x in h
  {
    h[x].free && Next(h, x) in h ==> !h[Next(h, x)].free
  }

  ghost predicate Coalesced(h: Heap) {
    forall x {:trigger PairOk(h, x)} :: x in h ==> PairOk(h, x)
  }

  // as Coalesced, but block a may follow a free block
  ghost predicate CoalescedAfter(h: Heap, a: int) {
    forall x {:trigger PairOk(h, x)} :: x in h && Next(h, x) != a ==> PairOk(h, x)
  }

  // block_trim_free and block_trim_used on a block with nothing free behind it
  function Trim(h: Heap, a: int, s: nat): Heap
    requires a in h && (s + 4 <= h[a].words ==> Next(h, a) in h)
  {
    if s + 4 <= h[a].words then Split(h, a, s) else h
  }

  // Allocating the first s words of free block a.
  function Take(h: Heap, a: int, s: nat): Heap
    requires a in h && (s + 4 <= h[a].words ==> Next(h, a) in h)
  {
    SetFree(Trim(h, a, s), a, false)
  }

  function MergePrev(h: Heap, a: int): Heap
    requires Tiled(h) && a in h && h[a].words != 0
  {
    assert BlockOk(h, a);
    if PrevFree(h, a) then
      assert BlockOk(h, h[a].prev);
      Absorb(h, h[a].prev)
    else h
  }

  function Merged(h: Heap, a: int): int
    requires a in h
  {
    if PrevFree(h, a) then h[a].prev else a
  }

  function MergeNext(h: Heap, a: int): Heap
    requires Tiled(h) && a in h && h[a].words != 0
  {
    assert BlockOk(h, a);
    if h[Next(h, a)].free then
      assert BlockOk(h, Next(h, a));
      Absorb(h, a)
    else h
  }

  lemma MergePrevTiled(h: Heap, a: int)
    requires Tiled(h) && a in h && h[a].words != 0
    ensures Tiled(MergePrev(h, a))
    ensures Merged(h, a) in MergePrev(h, a) && MergePrev(h, a)[Merged(h, a)].words != 0
  {
    assert BlockOk(h, a);
    if PrevFree(h, a) { assert BlockOk(h, h[a].prev); AbsorbTiled(h, h[a].prev); }
  }

  // Giving live block a back.
  function Release(h: Heap, a: int): Heap
    requires Tiled(h) && a in h && h[a].words != 0
  {
    var h1 := SetFree(h, a, true);
    SetFreeTiled(h, a, true);
    MergePrevTiled(h1, a);
    MergeNext(MergePrev(h1, a), Merged(h1, a))
  }

  lemma TakeCoalesced(h: Heap, a: int, s: nat)
    requires Tiled(h) && CoalescedAfter(h, a) && a in h && h[a].free && 3 <= s
    ensures Next(h, a) in h && Coalesced(Take(h, a, s))
  {
    assert BlockOk(h, a);
    assert PairOk(h, a);
    var h' := Take(h, a, s);
    if s + 4 <= h[a].words { SplitRoom(h, a, s); }
    forall x {:trigger PairOk(h', x)} | x in h' ensures PairOk(h', x) {
      if x in h && Next(h, x) != a { assert PairOk(h, x) && BlockOk(h, x); }
    }
  }

  lemma ReleaseTake(h: Heap, a: int, s: nat)
    requires Tiled(h) && Coalesced(h) && a in h && h[a].free && 3 <= s
    ensures Next(h, a) in h && Tiled(Take(h, a, s)) && a in Take(h, a, s) && Take(h, a, s)[a].words != 0
    ensures Release(Take(h, a, s), a) == h
  {
    assert BlockOk(h, a);
    assert PairOk(h, a);
    assert h[a].prev in h ==> PairOk(h, h[a].prev) && BlockOk(h, h[a].prev);
    var h1 := Trim(h, a, s);
    if s + 4 <= h[a].words { SplitTiled(h, a, s); AbsorbSplit(h, a, s); }
    SetFreeTiled(h1, a, false);
    assert SetFree(Take(h, a, s), a, true) == h1;
    assert !PrevFree(h1, a);
    assert MergeNext(h1, a) == h;
  }

  // as Coalesced, but block a may touch free neighbours
  ghost predicate CoalescedAround(h: Heap, a: int) {
    forall x {:trigger PairOk(h, x)} :: x in h && x != a && Next(h, x) != a ==> PairOk(h, x)
  }

  // as Coalesced, but block a may precede a free block
  ghost predicate CoalescedBefore(h: Heap, a: int) {
    forall x {:trigger PairOk(h, x)} :: x in h && x != a ==> PairOk(h, x)
  }

  lemma MergePrevCoalesced(h: Heap, a: int)
    requires Tiled(h) && CoalescedAround(h, a) && a in h && h[a].words != 0
    ensures CoalescedBefore(MergePrev(h, a), Merged(h, a))
  {
    assert BlockOk(h, a);
    var h' := MergePrev(h, a);
    var b := Merged(h, a);
    if PrevFree(h, a) { assert BlockOk(h, b); }
    forall x {:trigger PairOk(h', x)} | x in h' && x != b ensures PairOk(h', x) {
      assert x != a && Next(h, x) != a ==> PairOk(h, x);
      if Next(h, x) == a {
        assert BlockOk(h, x);
      } else if PrevFree(h, a) && Next(h, x) == b {
        assert PairOk(h, x);
      }
    }
  }

  lemma MergeNextCoalesced(h: Heap, a: int)
    requires Tiled(h) && CoalescedBefore(h, a) && a in h && h[a].words != 0
    ensures Tiled(MergeNext(h, a)) && Coalesced(MergeNext(h, a))
  {
    assert BlockOk(h, a);
    assert BlockOk(h, Next(h, a));
    if h[Next(h, a)].free { AbsorbTiled(h, a); assert PairOk(h, Next(h, a)); }
    var h' := MergeNext(h, a);
    forall x {:trigger PairOk(h', x)} | x in h' ensures PairOk(h', x) {
      if x != a { assert PairOk(h, x); assert BlockOk(h, x); }
    }
  }

  lemma ReleaseCoalesced(h: Heap, a: int)
    requires Tiled(h) && Coalesced(h) && a in h && h[a].words != 0
    ensures Tiled(Release(h, a)) && Coalesced(Release(h, a))
  {
    var h1 := SetFree(h, a, true);
    SetFreeTiled(h, a, true);
    forall x {:trigger PairOk(h1, x)} | x in h1 && x != a && Next(h1, x) != a
      ensures PairOk(h1, x)
    {
      assert PairOk(h, x);
    }
    MergePrevTiled(h1, a);
    MergePrevCoalesced(h1, a);
    MergeNextCoalesced(MergePrev(h1, a), Merged(h1, a));
  }

  // What block_split leaves of a live block cut to nothing: a zero-size header, which reads as a sentinel. Its pool
  // ends there, and what is behind is a pool of its own.
  function Broken(h: Heap, a: int): Heap
    requires a in h && 4 <= h[a].words
  {
    var p := h[a].pool;
    var right := Pool(a + 1, p.last);
    map c | c in h.Keys + {a + 1} && (c != a || a != p.first) ::
      if c == a + 1 then Block(h[a].words - 1, true, -1, right)
      else if h[c].pool != p then h[c]
      else if c == a then h[c].(words := 0, pool := Pool(p.first, a))
      else if c < a then h[c].(pool := Pool(p.first, a))
      else if c == Next(h, a) then h[c].(prev := a + 1, pool := right)
      else h[c].(pool := right)
  }

  // The pools beside a's are not touched, nor are the links between blocks on one side of a.
  lemma BrokenBeside(h: Heap, a: int, c: int)
    requires Tiled(h) && a in h && 4 <= h[a].words && c in h && c != a && c != Next(h, a)
    ensures c in Broken(h, a) && Broken(h, a)[c].(pool := h[c].pool) == h[c]
    ensures h[c].pool != h[a].pool ==> Broken(h, a)[c].pool == h[c].pool
    ensures h[c].pool == h[a].pool ==>
      Broken(h, a)[c].pool == if c < a then Pool(h[a].pool.first, a) else Pool(a + 1, h[a].pool.last)
  {
    SplitRoom(h, a, 0);
  }

  lemma BrokenEdge(h: Heap, a: int, c: int)
    requires Tiled(h) && a in h && !h[a].free && 4 <= h[a].words && c in Broken(h, a)
    requires c == a || c == a + 1 || c == Next(h, a)
    ensures BlockOk(Broken(h, a), c)
  {
    var n, p, q := Next(h, a), h[a].pool, h[a].prev;
    assert BlockOk(h, a) && BlockOk(h, n) && Apart(h, a, p.last);
    BrokenNear(h, a);
    if p.last != n { BrokenBeside(h, a, p.last); }
    if h[n].words != 0 { BrokenBeside(h, a, Next(h, n)); }
    if c == a {
      assert BlockOk(h, q);
      BrokenBeside(h, a, q);
      BrokenBeside(h, a, p.first);
    }
    hide Tiled, Broken, Apart;
  }

  lemma BrokenOther(h: Heap, a: int, c: int)
    requires Tiled(h) && a in h && 4 <= h[a].words && c in h && h[c].pool != h[a].pool
    ensures c in Broken(h, a) && BlockOk(Broken(h, a), c)
  {
    var q, n := h[c].prev, Next(h, c);
    assert BlockOk(h, a) && BlockOk(h, c);
    BrokenNear(h, a);
    BrokenBeside(h, a, c);
    BrokenBeside(h, a, h[c].pool.first);
    BrokenBeside(h, a, h[c].pool.last);
    if q in h { assert BlockOk(h, q); }
    if q in h { BrokenBeside(h, a, q); }
    if h[c].words != 0 { BrokenBeside(h, a, n); }
    hide Tiled, Broken, Apart;
  }

  lemma BrokenLeft(h: Heap, a: int, c: int)
    requires Tiled(h) && a in h && 4 <= h[a].words && c in h && h[c].pool == h[a].pool && c < a
    ensures c in Broken(h, a) && BlockOk(Broken(h, a), c)
  {
    var q, n := h[c].prev, Next(h, c);
    assert BlockOk(h, a) && BlockOk(h, c) && Apart(h, c, a);
    BrokenNear(h, a);
    BrokenBeside(h, a, c);
    BrokenBeside(h, a, h[c].pool.first);
    if q in h { assert BlockOk(h, q); BrokenBeside(h, a, q); }
    if n != a { BrokenBeside(h, a, n); }
    hide Tiled, Broken, Apart;
  }

  lemma BrokenRight(h: Heap, a: int, c: int)
    requires Tiled(h) && a in h && 4 <= h[a].words && c in h && h[c].pool == h[a].pool && c > a && c != Next(h, a)
    ensures c in Broken(h, a) && BlockOk(Broken(h, a), c)
  {
    var q, n, last := h[c].prev, Next(h, c), h[c].pool.last;
    assert BlockOk(h, a) && BlockOk(h, c) && Apart(h, a, c) && BlockOk(h, q);
    assert Apart(h, q, a) && Apart(h, a, q) && Apart(h, a, last);
    BrokenNear(h, a);
    BrokenBeside(h, a, c);
    if last != Next(h, a) { BrokenBeside(h, a, last); }
    if q != Next(h, a) { BrokenBeside(h, a, q); }
    if n in h { BrokenBeside(h, a, n); }
    hide Tiled, Broken, Apart;
  }

  lemma BrokenNear(h: Heap, a: int)
    requires Tiled(h) && a in h && 4 <= h[a].words
    ensures var h', n, p := Broken(h, a), Next(h, a), h[a].pool;
      && n in h && n in h' && n != a && h'[n] == h[n].(prev := a + 1, pool := Pool(a + 1, p.last))
      && a + 1 in h' && h'[a + 1] == Block(h[a].words - 1, true, -1, Pool(a + 1, p.last))
      && (a in h' <==> a != p.first)
      && (a in h' ==> h'[a] == h[a].(words := 0, pool := Pool(p.first, a)))
  {
    assert BlockOk(h, a);
  }

  lemma BrokenBlock(h: Heap, a: int, c: int)
    requires Tiled(h) && a in h && !h[a].free && 4 <= h[a].words && c in Broken(h, a)
    ensures BlockOk(Broken(h, a), c)
  {
    if c == a || c == a + 1 || c == Next(h, a) {
      BrokenEdge(h, a, c);
    } else if h[c].pool != h[a].pool {
      BrokenOther(h, a, c);
    } else if c < a {
      BrokenLeft(h, a, c);
    } else {
      BrokenRight(h, a, c);
    }
  }

  lemma BrokenApart(h: Heap, a: int, c: int, d: int)
    requires Tiled(h) && a in h && 4 <= h[a].words && c in Broken(h, a) && d in Broken(h, a)
    ensures Apart(Broken(h, a), c, d)
  {
    SplitRoom(h, a, 0);
    if c in h && d in h { assert Apart(h, c, d); }
    if c in h { assert Apart(h, a, c) && Apart(h, c, a); }
    if d in h { assert Apart(h, a, d); }
    hide Tiled;
  }

  lemma BrokenTiled(h: Heap, a: int)
    requires Tiled(h) && a in h && !h[a].free && 4 <= h[a].words
    ensures Tiled(Broken(h, a)) && a + 1 in Broken(h, a) && Broken(h, a)[a + 1].free && Broken(h, a)[a + 1].words != 0
    ensures Coalesced(h) ==> CoalescedBefore(Broken(h, a), a + 1)
  {
    var h' := Broken(h, a);
    forall c {:trigger BlockOk(h', c)} | c in h' ensures BlockOk(h', c) { BrokenBlock(h, a, c); }
    forall c, d {:trigger Apart(h', c, d)} | c in h' && d in h' ensures Apart(h', c, d) { BrokenApart(h, a, c, d); }
    if Coalesced(h) {
      forall x {:trigger PairOk(h', x)} | x in h' && x != a + 1 ensures PairOk(h', x) {
        assert PairOk(h, x) && BlockOk(h, x);
        assert BlockOk(h, a) && Apart(h, x, a) && Apart(h, a, x);
      }
    }
  }

  // block_split on a live block
  function Shortened(h: Heap, a: int, s: nat): Heap
    requires a in h && s + 4 <= h[a].words && Next(h, a) in h
  {
    if s == 0 then Broken(h, a) else Split(h, a, s)
  }

  lemma ShortenedTiled(h: Heap, a: int, s: nat)
    requires Tiled(h) && a in h && !h[a].free && (s == 0 || 3 <= s) && s + 4 <= h[a].words
    ensures Next(h, a) in h && Tiled(Shortened(h, a, s))
    ensures var r, h' := a + 1 + s, Shortened(h, a, s);
      r in h' && h'[r].free && h'[r].words != 0 && Next(h', r) == Next(h, a) && Next(h, a) in h' && Next(h, a) != r
  {
    assert BlockOk(h, a);
    if s == 0 {
      BrokenTiled(h, a);
      BrokenNear(h, a);
    } else {
      SplitNext(h, a, s);
    }
  }

  // block_trim_used: what is cut off a live block joins a free successor.
  function TrimMerge(h: Heap, a: int, s: nat): Heap
    requires Tiled(h) && a in h && !h[a].free && (s == 0 || 3 <= s)
  {
    if s + 4 > h[a].words then h
    else
      ShortenedTiled(h, a, s);
      MergeNext(Shortened(h, a, s), a + 1 + s)
  }

  lemma SplitNext(h: Heap, a: int, s: nat)
    requires Tiled(h) && a in h && 3 <= s && s + 4 <= h[a].words
    ensures Next(h, a) in h && a + 1 + s !in h && Tiled(Split(h, a, s))
    ensures var r := a + 1 + s; var h' := Split(h, a, s);
      && r in h' && h'[r].free && h'[r].words != 0 && Next(h', r) == Next(h, a)
      && Next(h, a) in h' && a in h' && Next(h, a) != r
  {
    SplitTiled(h, a, s);
    assert BlockOk(h, a);
  }

  lemma ReleaseSteps(h: Heap, a: int)
    requires Tiled(h) && a in h && h[a].words != 0
    ensures var h1 := SetFree(h, a, true);
      && Tiled(h1) && h1[a].prev != a
      && var h2, b := MergePrev(h1, a), Merged(h1, a);
      && Tiled(h2) && b in h2 && h2[b].words != 0 && Next(h2, b) in h2 && Next(h2, b) != b
  {
    var h1 := SetFree(h, a, true);
    SetFreeTiled(h, a, true);
    assert BlockOk(h1, a);
    MergePrevTiled(h1, a);
    assert BlockOk(MergePrev(h1, a), Merged(h1, a));
  }

  // Live blocks other than a are where they were.
  ghost predicate OthersStay(h: Heap, h': Heap, a: int) {
    forall c :: c in h && !h[c].free && h[c].words != 0 && c != a ==>
      c in h' && !h'[c].free && h'[c].words == h[c].words
  }

  lemma TakeOthers(h: Heap, b: int, s: nat)
    requires Tiled(h) && b in h && h[b].free && 3 <= s
    ensures Next(h, b) in h && b in Take(h, b, s) && (h[b].words >= s ==> Take(h, b, s)[b].words >= s)
    ensures Take(h, b, s)[b].words < s + 4
    ensures OthersStay(h, Take(h, b, s), b)
  {
    assert BlockOk(h, b);
    if s + 4 <= h[b].words { SplitRoom(h, b, s); }
  }

  lemma AbsorbCoalesced(h: Heap, a: int)
    requires Tiled(h) && Coalesced(h) && a in h && !h[a].free && h[a].words != 0
    requires Next(h, a) in h && h[Next(h, a)].free
    ensures Next(h, Next(h, a)) in h && Tiled(Absorb(h, a)) && Coalesced(Absorb(h, a))
    ensures a in Absorb(h, a) && Absorb(h, a)[a].words == h[a].words + 1 + h[Next(h, a)].words
  {
    assert BlockOk(h, Next(h, a));
    AbsorbTiled(h, a);
    var h' := Absorb(h, a);
    forall x {:trigger PairOk(h', x)} | x in h' ensures PairOk(h', x) {
      assert PairOk(h, x) && BlockOk(h, x);
    }
  }

  lemma TrimMergeCoalesced(h: Heap, a: int, s: nat)
    requires Tiled(h) && Coalesced(h) && a in h && !h[a].free && 3 <= s <= h[a].words
    ensures Coalesced(TrimMerge(h, a, s))
    ensures a in TrimMerge(h, a, s) && !TrimMerge(h, a, s)[a].free && s <= TrimMerge(h, a, s)[a].words < s + 4
  {
    if s + 4 <= h[a].words {
      SplitNext(h, a, s);
      var h1 := Split(h, a, s);
      var r := a + 1 + s;
      forall x {:trigger PairOk(h1, x)} | x in h1 && x != r ensures PairOk(h1, x) {
        assert PairOk(h, x) && BlockOk(h, x);
      }
      MergeNextCoalesced(h1, r);
    }
  }

  // Cutting a live block to nothing leaves a coalesced heap in which it is no longer live.
  lemma TrimToNothing(h: Heap, a: int)
    requires Tiled(h) && Coalesced(h) && a in h && !h[a].free && 4 <= h[a].words
    ensures Tiled(TrimMerge(h, a, 0)) && Coalesced(TrimMerge(h, a, 0))
    ensures a in TrimMerge(h, a, 0) ==> TrimMerge(h, a, 0)[a].words == 0
    ensures a + 1 in TrimMerge(h, a, 0) && TrimMerge(h, a, 0)[a + 1].free
  {
    BrokenTiled(h, a);
    BrokenNear(h, a);
    assert BlockOk(Broken(h, a), a + 1);
    MergeNextCoalesced(Broken(h, a), a + 1);
  }

  // Freeing a leaves every other live block where it is.
  lemma ReleaseOther(h: Heap, a: int, b: int)
    requires Tiled(h) && a in h && h[a].words != 0 && b in h && !h[b].free && a != b && h[b].words != 0
    ensures b in Release(h, a) && !Release(h, a)[b].free && Release(h, a)[b].words == h[b].words
  {
    ReleaseSteps(h, a);
    var h1 := SetFree(h, a, true);
    assert BlockOk(h1, a);
    assert -1 in h1 ==> BlockOk(h1, -1);
    var h2 := MergePrev(h1, a);
    assert b in h2 && !h2[b].free && h2[b].words == h[b].words;
  }

  // ---- cutting a leading free block off the one to be allocated

  lemma LeadCoalesced(h: Heap, a: int, s: nat)
    requires Tiled(h) && Coalesced(h) && a in h && h[a].free && 3 <= s && s + 4 <= h[a].words
    ensures Next(h, a) in h && Tiled(Split(h, a, s)) && CoalescedAfter(Split(h, a, s), a + 1 + s)
  {
    SplitNext(h, a, s);
    var h' := Split(h, a, s);
    assert PairOk(h, a);
    forall x {:trigger PairOk(h', x)} | x in h' && Next(h', x) != a + 1 + s ensures PairOk(h', x) {
      assert x in h ==> PairOk(h, x) && BlockOk(h, x);
    }
  }

  lemma ReleaseLead(h: Heap, a: int, s: nat, t: nat)
    requires Tiled(h) && Coalesced(h) && a in h && h[a].free && 3 <= s && s + 4 <= h[a].words && 3 <= t
    ensures Next(h, a) in h
    ensures var r := a + 1 + s; var h1 := Split(h, a, s);
      && Tiled(h1) && r in h1 && h1[r].free && Next(h1, r) in h1
      && var h2 := Take(h1, r, t);
      && Tiled(h2) && r in h2 && h2[r].words != 0 && Release(h2, r) == h
  {
    var r := a + 1 + s;
    SplitNext(h, a, s);
    AbsorbSplit(h, a, s);
    assert PairOk(h, a);
    var h1 := Split(h, a, s);
    if t + 4 <= h1[r].words { SplitTiled(h1, r, t); AbsorbSplit(h1, r, t); }
    var h1' := Trim(h1, r, t);
    SetFreeTiled(h1', r, false);
    assert SetFree(Take(h1, r, t), r, true) == h1';
  }

  // Free block a is cut lead words behind its start if that leaves enough behind; r is where the rest starts.
  ghost predicate LeadCut(h: Heap, h1: Heap, a: int, r: int, lead: nat)
    requires a in h
  {
    && (lead == 0 || lead >= 4)
    && (lead == 0 || lead + 4 > h[a].words ==> r == a && h1 == h)
    && (lead != 0 && lead + 4 <= h[a].words ==> r == a + lead && Next(h, a) in h && h1 == Split(h, a, lead - 1))
  }

  // tlsf_memalign: block a is cut at lead words if that leaves enough behind, then t words are taken.
  lemma MemalignTiling(h: Heap, h1: Heap, a: int, r: int, lead: nat, t: nat)
    requires Tiled(h) && Coalesced(h) && a in h && h[a].free && 3 <= t && LeadCut(h, h1, a, r, lead)
    ensures Tiled(h1) && r in h1 && h1[r].free && Next(h1, r) in h1 && (r in h ==> h[r].free)
    ensures var h2 := Take(h1, r, t);
      && Tiled(h2) && Coalesced(h2) && r in h2 && !h2[r].free && h2[r].words != 0 && Release(h2, r) == h
      && (h1[r].words >= t ==> h2[r].words >= t) && h2[r].words < t + 4 && PoolsOf(h2) == PoolsOf(h)
  {
    hide Release, Tiled, Coalesced, PoolsOf;
    if lead == 0 || lead + 4 > h[a].words {
      TakeWhole(h, a, t);
    } else {
      TakeBehind(h, a, lead - 1, t);
    }
  }

  // What an allocation from free block r does to the tiling: freeing it restores h.
  ghost predicate Undoes(h: Heap, h2: Heap, r: int) {
    && Tiled(h2) && Coalesced(h2) && r in h2 && !h2[r].free && h2[r].words != 0
    && Release(h2, r) == h && PoolsOf(h2) == PoolsOf(h)
  }

  lemma TakeWhole(h: Heap, a: int, t: nat)
    requires Tiled(h) && Coalesced(h) && a in h && h[a].free && 3 <= t
    ensures Next(h, a) in h && Undoes(h, Take(h, a, t), a)
    ensures (h[a].words >= t ==> Take(h, a, t)[a].words >= t) && Take(h, a, t)[a].words < t + 4
  {
    ReleaseTake(h, a, t);
    TakeCoalesced(h, a, t);
    PoolsTake(h, a, t);
    hide Release, Tiled, Coalesced, PoolsOf;
  }

  lemma TakeBehind(h: Heap, a: int, s: nat, t: nat)
    requires Tiled(h) && Coalesced(h) && a in h && h[a].free && 3 <= s && s + 4 <= h[a].words && 3 <= t
    ensures Next(h, a) in h && a + 1 + s !in h
    ensures var r := a + 1 + s; var h1 := Split(h, a, s);
      && Tiled(h1) && r in h1 && h1[r].free && Next(h1, r) in h1
      && Undoes(h, Take(h1, r, t), r)
      && (h1[r].words >= t ==> Take(h1, r, t)[r].words >= t) && Take(h1, r, t)[r].words < t + 4
  {
    SplitNext(h, a, s);
    var r := a + 1 + s;
    var h1 := Split(h, a, s);
    ReleaseLead(h, a, s, t);
    LeadCoalesced(h, a, s);
    TakeCoalesced(h1, r, t);
    PoolsSplit(h, a, s);
    PoolsTake(h1, r, t);
    hide Release, Tiled, Coalesced, PoolsOf;
  }

  // ---- pools

  // The words first + 1 .. last + 1 belong to no block yet.
  ghost predicate Vacancy(h: Heap, first: int, last: int) {
    && 0 < first && first + 4 <= last
    && forall a {:trigger Next(h, a)} :: a in h ==> Next(h, a) <= first || last + 1 <= a
  }

  // Room for a pool whose block is below 2^32 bytes
  ghost predicate PoolRoom(h: Heap, first: int, last: int) {
    Vacancy(h, first, last) && last <= first + 0x2000_0000
  }

  // A new pool is one free block and its sentinel.
  function AddPoolBlocks(h: Heap, first: int, last: int): Heap
    requires first + 4 <= last
  {
    var p := Pool(first, last);
    h[first := Block(last - first - 1, true, -1, p)][last := Block(0, false, first, p)]
  }

  lemma AddPoolTiled(h: Heap, first: int, last: int)
    requires Tiled(h) && PoolRoom(h, first, last)
    ensures first !in h && last !in h && Tiled(AddPoolBlocks(h, first, last))
    ensures Coalesced(h) ==> Coalesced(AddPoolBlocks(h, first, last))
  {
    var h' := AddPoolBlocks(h, first, last);
    assert first in h ==> Next(h, first) <= first || last + 1 <= first;
    assert last in h ==> Next(h, last) <= first || last + 1 <= last;
    forall c {:trigger BlockOk(h', c)} | c in h' ensures BlockOk(h', c) {
      assert c in h ==> BlockOk(h, c);
    }
    forall c, d {:trigger Apart(h', c, d)} | c in h' && d in h' ensures Apart(h', c, d) {
      if c in h && d in h { assert Apart(h, c, d); }
      if c in h { assert Next(h, c) <= first || last + 1 <= c; }
      if d in h { assert Next(h, d) <= first || last + 1 <= d; }
    }
    if Coalesced(h) {
      forall x {:trigger PairOk(h', x)} | x in h' ensures PairOk(h', x) {
        assert x in h ==> PairOk(h, x) && BlockOk(h, x);
      }
    }
  }

  lemma DropPoolTiled(h: Heap, first: int, last: int)
    requires Tiled(h) && first in h && h[first].prev == -1 && h[first].words != 0 && Next(h, first) == last
    requires last in h && h[last].words == 0
    ensures Tiled(h - {first, last})
    ensures Coalesced(h) ==> Coalesced(h - {first, last})
  {
    var h' := h - {first, last};
    assert BlockOk(h, first) && BlockOk(h, last);
    forall c {:trigger BlockOk(h', c)} | c in h' ensures BlockOk(h', c) {
      assert BlockOk(h, c) && Apart(h, first, c);
    }
    forall c, d {:trigger Apart(h', c, d)} | c in h' && d in h' ensures Apart(h', c, d) { assert Apart(h, c, d); }
    if Coalesced(h) {
      forall x {:trigger PairOk(h', x)} | x in h' ensures PairOk(h', x) { assert PairOk(h, x); }
    }
  }

  // ---- walking a pool

  // The blocks from a up to the sentinel, in physical order
  ghost function Chain(h: Heap, a: int): seq<int>
    requires Tiled(h) && a in h
    decreases h[a].pool.last - a
  {
    assert BlockOk(h, a);
    if h[a].words == 0 then [] else
      assert BlockOk(h, Next(h, a));
      [a] + Chain(h, Next(h, a))
  }

  // It holds every block of the pool from a on, in strictly increasing order of addresses.
  lemma {:induction false} ChainExact(h: Heap, a: int)
    requires Tiled(h) && a in h
    ensures forall b :: b in Chain(h, a) <==> b in h && h[b].pool == h[a].pool && a <= b && h[b].words != 0
    ensures forall i, j :: 0 <= i < j < |Chain(h, a)| ==> Chain(h, a)[i] < Chain(h, a)[j]
    decreases h[a].pool.last - a
  {
    assert BlockOk(h, a);
    if h[a].words != 0 {
      var n := Next(h, a);
      assert BlockOk(h, n);
      ChainExact(h, n);
      forall b | b in h && a < b ensures n <= b { assert Apart(h, a, b); }
      forall i, j | 0 <= i < j < |Chain(h, a)| ensures Chain(h, a)[i] < Chain(h, a)[j] {
        assert Chain(h, a)[j] == Chain(h, n)[j - 1] && Chain(h, n)[j - 1] in Chain(h, n);
        if i > 0 { assert Chain(h, a)[i] == Chain(h, n)[i - 1]; }
      }
    } else {
      forall b | b in h && h[b].pool == h[a].pool && a <= b ensures h[b].words == 0 { assert BlockOk(h, b); }
    }
  }

  // Block sizes and their header words, in bytes
  ghost function Bytes(h: Heap, l: seq<int>): int
    requires forall i {:trigger l[i]} :: 0 <= i < |l| ==> l[i] in h
  {
    if l == [] then 0 else 8 * h[l[0]].words + 8 + Bytes(h, l[1..])
  }

  // Conservation: they add up to the distance to the sentinel, however the pool is cut.
  lemma {:induction false} ChainBytes(h: Heap, a: int)
    requires Tiled(h) && a in h
    ensures forall i {:trigger Chain(h, a)[i]} :: 0 <= i < |Chain(h, a)| ==> Chain(h, a)[i] in h
    ensures Bytes(h, Chain(h, a)) == 8 * (h[a].pool.last - a)
    decreases h[a].pool.last - a
  {
    assert BlockOk(h, a);
    if h[a].words != 0 {
      var n := Next(h, a);
      assert BlockOk(h, n);
      ChainBytes(h, n);
      assert Chain(h, a)[1..] == Chain(h, n);
    }
  }

  // A pool with no live block is one free block.
  lemma AllFreed(h: Heap, p: Pool)
    requires Tiled(h) && Coalesced(h) && p.first in h && h[p.first].pool == p
    requires forall a :: a in h && h[a].pool == p && h[a].words != 0 ==> h[a].free
    ensures h[p.first].free && Next(h, p.first) == p.last && p.last in h && h[p.last].words == 0
  {
    var a := p.first;
    assert BlockOk(h, a);
    assert BlockOk(h, p.last);
    assert PairOk(h, a);
    assert BlockOk(h, Next(h, a));
  }

  lemma ChainStep(h: Heap, a: int)
    requires Tiled(h) && a in h
    ensures h[a].words == 0 ==> Chain(h, a) == []
    ensures h[a].words != 0 ==> Next(h, a) in h && Chain(h, a) == [a] + Chain(h, Next(h, a))
  {
    assert BlockOk(h, a);
  }

  // Consecutive blocks of the chain, and the sentinel behind them, are physical neighbours.
  lemma {:induction false} ChainLink(h: Heap, a: int, k: nat)
    requires Tiled(h) && a in h && k <= |Chain(h, a)|
    ensures var t := Chain(h, a) + [h[a].pool.last];
      && t[k] in h && (k == 0 ==> t[k] == a) && (k > 0 ==> h[t[k]].prev == t[k - 1])
    decreases k
  {
    ChainStep(h, a);
    assert BlockOk(h, a);
    if h[a].words != 0 {
      var n := Next(h, a);
      ChainStep(h, n);
      assert BlockOk(h, n);
      assert Chain(h, a) + [h[a].pool.last] == [a] + (Chain(h, n) + [h[n].pool.last]);
      if k > 0 { ChainLink(h, n, k - 1); }
    }
  }

  lemma NoBlockBefore(h: Heap)
    requires Tiled(h)
    ensures -1 !in h
  {
    assert -1 in h ==> BlockOk(h, -1);
  }

  // ---- the pools of a heap, which only tlsf_add_pool and tlsf_remove_pool change

  function PoolsOf(h: Heap): set<Pool> {
    set a | a in h :: h[a].pool
  }

  lemma InPools(h: Heap, a: int)
    requires a in h
    ensures h[a].pool in PoolsOf(h)
  {}

  lemma SamePools(h: Heap, h': Heap)
    requires forall a :: a in h ==> h[a].pool in PoolsOf(h')
    requires forall a :: a in h' ==> h'[a].pool in PoolsOf(h)
    ensures PoolsOf(h') == PoolsOf(h)
  {}

  lemma PoolsSetFree(h: Heap, a: int, f: bool)
    requires a in h
    ensures PoolsOf(SetFree(h, a, f)) == PoolsOf(h)
  {
    var h' := SetFree(h, a, f);
    forall c | c in h ensures h[c].pool in PoolsOf(h') { InPools(h', c); assert h'[c].pool == h[c].pool; }
    forall c | c in h' ensures h'[c].pool in PoolsOf(h) { InPools(h, c); assert h'[c].pool == h[c].pool; }
    SamePools(h, h');
  }

  lemma PoolsSplit(h: Heap, a: int, s: nat)
    requires a in h && s + 4 <= h[a].words && Next(h, a) in h && a + 1 + s !in h
    ensures PoolsOf(Split(h, a, s)) == PoolsOf(h)
  {
    var h' := Split(h, a, s);
    forall c | c in h ensures h[c].pool in PoolsOf(h') { InPools(h', c); assert h'[c].pool == h[c].pool; }
    forall c | c in h' ensures h'[c].pool in PoolsOf(h) { InPools(h, if c in h then c else a); }
    SamePools(h, h');
  }

  lemma PoolsAbsorb(h: Heap, a: int)
    requires Tiled(h) && a in h && h[a].words != 0 && Next(h, a) in h && Next(h, Next(h, a)) in h
    ensures PoolsOf(Absorb(h, a)) == PoolsOf(h)
  {
    var h' := Absorb(h, a);
    var x := Next(h, a);
    assert BlockOk(h, a);
    forall c | c in h ensures h[c].pool in PoolsOf(h') { InPools(h', if c == x then a else c); }
    forall c | c in h' ensures h'[c].pool in PoolsOf(h) { InPools(h, c); assert h'[c].pool == h[c].pool; }
    SamePools(h, h');
  }

  lemma PoolsTake(h: Heap, a: int, s: nat)
    requires Tiled(h) && a in h && h[a].free && 3 <= s
    ensures Next(h, a) in h && PoolsOf(Take(h, a, s)) == PoolsOf(h)
  {
    assert BlockOk(h, a);
    if s + 4 <= h[a].words { SplitRoom(h, a, s); PoolsSplit(h, a, s); }
    PoolsSetFree(Trim(h, a, s), a, false);
  }

  lemma PoolsMergeNext(h: Heap, a: int)
    requires Tiled(h) && a in h && h[a].words != 0
    ensures PoolsOf(MergeNext(h, a)) == PoolsOf(h)
  {
    assert BlockOk(h, a);
    assert BlockOk(h, Next(h, a));
    if h[Next(h, a)].free { PoolsAbsorb(h, a); }
  }

  lemma PoolsRelease(h: Heap, a: int)
    requires Tiled(h) && a in h && h[a].words != 0
    ensures PoolsOf(Release(h, a)) == PoolsOf(h)
  {
    ReleaseSteps(h, a);
    var h1 := SetFree(h, a, true);
    PoolsSetFree(h, a, true);
    assert BlockOk(h1, a);
    if PrevFree(h1, a) { assert BlockOk(h1, h1[a].prev); PoolsAbsorb(h1, h1[a].prev); }
    PoolsMergeNext(MergePrev(h1, a), Merged(h1, a));
  }

  lemma PoolsTrimMerge(h: Heap, a: int, s: nat)
    requires Tiled(h) && a in h && !h[a].free && 3 <= s
    ensures PoolsOf(TrimMerge(h, a, s)) == PoolsOf(h)
  {
    if s + 4 <= h[a].words {
      SplitNext(h, a, s);
      PoolsSplit(h, a, s);
      PoolsMergeNext(Split(h, a, s), a + 1 + s);
    }
  }

  // What becomes of a block's pool when the block is cut to nothing
  function Pieces(p: Pool, a: int): set<Pool> {
    {Pool(a + 1, p.last)} + if a == p.first then {} else {Pool(p.first, a)}
  }

  lemma PoolsBroken(h: Heap, a: int)
    requires Tiled(h) && a in h && !h[a].free && 4 <= h[a].words
    ensures PoolsOf(TrimMerge(h, a, 0)) == PoolsOf(h) - {h[a].pool} + Pieces(h[a].pool, a)
  {
    BrokenTiled(h, a);
    PoolsMergeNext(Broken(h, a), a + 1);
    var h', p := Broken(h, a), h[a].pool;
    forall q | q in PoolsOf(h') ensures q in PoolsOf(h) - {p} + Pieces(p, a) {
      var c :| c in h' && h'[c].pool == q;
      assert c in h ==> BlockOk(h, c);
      if c in h { InPools(h, c); }
    }
    BrokenNear(h, a);
    forall q | q in PoolsOf(h) - {p} + Pieces(p, a) ensures q in PoolsOf(h') {
      if q == Pool(a + 1, p.last) {
        InPools(h', a + 1);
      } else if q in Pieces(p, a) {
        InPools(h', a);
      } else {
        var c :| c in h && h[c].pool == q;
        assert BlockOk(h, a);
        BrokenBeside(h, a, c);
        InPools(h', c);
      }
    }
  }

  // With nothing live, every pool is one free block from its first header to its sentinel.
  ghost predicate AllOneBlock(h: Heap) {
    forall p :: p in PoolsOf(h) ==>
      p.first in h && h[p.first].free && Next(h, p.first) == p.last && h[p.first].prev == -1
  }

  lemma NothingLive(m: Words, h: Heap)
    requires Tiled(h) && Coalesced(h) && Live(m, h) == map[]
    ensures AllOneBlock(h)
  {
    forall p | p in PoolsOf(h)
      ensures p.first in h && h[p.first].free && Next(h, p.first) == p.last && h[p.first].prev == -1
    {
      var a :| a in h && h[a].pool == p;
      assert BlockOk(h, a);
      assert BlockOk(h, p.first);
      forall c | c in h && h[c].pool == p && h[c].words != 0 ensures h[c].free { assert c !in Live(m, h); }
      AllFreed(h, p);
    }
  }
}
