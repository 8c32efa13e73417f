// The allocator without its memory: which blocks there are and on which lists the free ones stand, in order. Every
// operation is given here as what it makes of that.
module Plans {
  import opened Bitwise
  import opened Mapping
  import opened Blocks
  import opened FreeLists
  import opened Bitmaps
  import opened Invariant

  datatype Plan = Plan(h: Heap, L: Lists)

  function NoLists(): Lists { seq(CLASSES, _ => []) }

  // ---- one block off or on a list

  ghost function Struck(l: seq<int>, a: int): seq<int> {
    if a in l then
      var k :| 0 <= k < |l| && l[k] == a;
      Without(l, k)
    else l
  }

  // a is taken off the list of its class.
  ghost function Off(h: Heap, L: Lists, a: int): Lists {
    if a in h && ClassAt(h, a) < |L| then L[ClassAt(h, a) := Struck(L[ClassAt(h, a)], a)] else L
  }

  // a is put in front of the list of its class.
  ghost function On(h: Heap, L: Lists, a: int): Lists {
    if a in h && ClassAt(h, a) < |L| then Put(L, ClassAt(h, a), a) else L
  }

  lemma OffIs(st: State, c: int, k: int)
    requires Inv(st) && 0 <= c < CLASSES && 0 <= k < |st.L[c]|
    ensures Off(st.h, st.L, st.L[c][k]) == Cut(st.L, c, k)
  {
    var a := st.L[c][k];
    assert FiledList(st.h, st.F, c, st.L[c]);
    assert Member(st.h, st.F, c, a);
    StruckAt(st.L[c], k);
  }

  lemma StruckAt(l: seq<int>, k: int)
    requires NoDup(l) && 0 <= k < |l|
    ensures Struck(l, l[k]) == Without(l, k)
  {
    var j :| 0 <= j < |l| && l[j] == l[k] && Struck(l, l[k]) == Without(l, j);
    assert j == k;
  }

  // ---- the steps

  // A free block before a, or behind it, is taken off its list.
  ghost function PrevOff(h: Heap, L: Lists, a: int): Lists {
    if a in h && PrevFree(h, a) then Off(h, L, h[a].prev) else L
  }

  ghost function NextOff(h: Heap, L: Lists, a: int): Lists {
    if a in h && Next(h, a) in h && h[Next(h, a)].free then Off(h, L, Next(h, a)) else L
  }

  // Free block a is cut behind s words if that leaves a block, and the rest is put on its list.
  ghost function TrimLists(h: Heap, L: Lists, a: int, s: nat): Lists {
    if a in h && Next(h, a) in h && s + 4 <= h[a].words then On(Split(h, a, s), L, a + 1 + s) else L
  }

  // Used block a is cut behind s words if that leaves a block; the rest, joined with a free block behind it, is put on
  // its list. h' is the heap that results.
  ghost function TrimMergeLists(h: Heap, L: Lists, a: int, s: nat, h': Heap): Lists {
    if a in h && Next(h, a) in h && s + 4 <= h[a].words then
      On(h', NextOff(Shortened(h, a, s), L, a + 1 + s), a + 1 + s)
    else L
  }

  // Free block a is cut in front of its aligned part, and the front goes back to the lists.
  ghost function LeadHeap(h: Heap, a: int, lead: nat): Heap {
    if a in h && Next(h, a) in h && 4 <= lead && lead + 4 <= h[a].words then Split(h, a, lead - 1) else h
  }

  ghost function LeadLists(h: Heap, L: Lists, a: int, lead: nat): Lists {
    if a in h && Next(h, a) in h && 4 <= lead && lead + 4 <= h[a].words then On(Split(h, a, lead - 1), L, a) else L
  }

  // ---- which block is taken

  // The block taken for q bytes is the first one on the first list that is not empty, counted from the first class
  // all of whose sizes reach q.
  ghost predicate Picked(L: Lists, q: nat, a: int) {
    |L| == CLASSES && exists c0: nat, c: nat :: FirstFit(c0, q) && FirstFrom(L, c0, c) && a == L[c][0]
  }

  // Seen from the blocks: no free block of a smaller class reaches q rounded up.
  ghost predicate GoodFit(h: Heap, q: nat, a: int) {
    a in h && h[a].free && exists c0: nat :: FirstFit(c0, q) && SmallestFrom(h, c0, a)
  }

  ghost predicate SmallestFrom(h: Heap, c0: nat, a: int)
    requires a in h
  {
    c0 <= ClassAt(h, a) && forall x :: x in h && h[x].free && c0 <= ClassAt(h, x) ==> ClassAt(h, a) <= ClassAt(h, x)
  }

  lemma PickedFits(h: Heap, L: Lists, q: nat, a: int)
    requires Filed(h, {}, L) && Picked(L, q, a)
    ensures GoodFit(h, q, a)
  {
    hide Class, FirstFit;
    var none: set<int> := {};
    var c0: nat, c: nat :| FirstFit(c0, q) && FirstFrom(L, c0, c) && a == L[c][0];
    assert FiledList(h, none, c, L[c]);
    assert Member(h, none, c, a);
    forall x | x in h && h[x].free && c0 <= ClassAt(h, x) ensures c <= ClassAt(h, x) {
      assert Listed(h, none, L, x);
    }
    assert SmallestFrom(h, c0, a);
  }

  lemma PickedFrom(L: Lists, q: nat, c: nat)
    requires GoodSize(q) && |L| == CLASSES && FirstFrom(L, Class(RoundUp(q)), c)
    ensures Picked(L, q, L[c][0])
  {
    hide Class, Least, RoundUp, MappingSearch;
    MappingSearchIsFirstFit(q);
    SearchClass(q);
  }

  // ---- the operations

  // t words are taken of free block a, which is off the lists.
  ghost predicate Taking(pl: Plan, a: int, t: nat, pl': Plan) {
    && a in pl.h && pl.h[a].free && Next(pl.h, a) in pl.h
    && pl'.h == Take(pl.h, a, t) && pl'.L == TrimLists(pl.h, pl.L, a, t)
  }

  // Block a is found for q bytes, and t words are taken of it.
  ghost predicate Placing(pl: Plan, q: nat, a: int, t: nat, pl': Plan) {
    && Picked(pl.L, q, a) && GoodFit(pl.h, q, a)
    && Taking(Plan(pl.h, Off(pl.h, pl.L, a)), a, t, pl')
  }

  // A block is found for q bytes and cut in front of the least aligned address in it; t words are taken from there on.
  ghost predicate PlacingAligned(pl: Plan, q: nat, align: nat, r: int, t: nat, pl': Plan) {
    exists a: int, lead: nat :: Picked(pl.L, q, a) && LeadAligns(a, lead, align) && PlacingAt(pl, q, a, lead, r, t, pl')
  }

  // lead words are cut off in front unless that leaves nothing behind.
  ghost predicate PlacingAt(pl: Plan, q: nat, a: int, lead: nat, r: int, t: nat, pl': Plan) {
    && GoodFit(pl.h, q, a)
    && r == (if lead + 4 <= pl.h[a].words then a + lead else a)
    && Taking(Plan(LeadHeap(pl.h, a, lead), LeadLists(pl.h, Off(pl.h, pl.L, a), a, lead)), r, t, pl')
  }

  // Block a is found for q bytes in pl; in mid it is cut, so that r is what starts at the aligned address.
  ghost predicate Located(pl: Plan, mid: Plan, q: nat, align: nat, a: int, lead: nat, r: int, length: nat) {
    && Picked(pl.L, q, a) && GoodFit(pl.h, q, a) && q <= 8 * pl.h[a].words && 0 < a && Next(pl.h, a) < length
    && LeadAligns(a, lead, align) && LeadCut(pl.h, mid.h, a, r, lead)
    && mid == Plan(LeadHeap(pl.h, a, lead), LeadLists(pl.h, Off(pl.h, pl.L, a), a, lead))
  }

  lemma LocatedIs(pl: Plan, mid: Plan, q: nat, align: nat, a: int, lead: nat, r: int, length: nat)
    requires Located(pl, mid, q, align, a, lead, r, length)
    ensures a in pl.h && pl.h[a].free && q <= 8 * pl.h[a].words && 0 < a && Next(pl.h, a) < length
    ensures LeadAligns(a, lead, align) && LeadCut(pl.h, mid.h, a, r, lead)
  {}

  lemma AlignedPlacing(pl: Plan, mid: Plan, pl': Plan, q: nat, align: nat, a: int, lead: nat, r: int, t: nat,
                       length: nat)
    requires Located(pl, mid, q, align, a, lead, r, length) && Taking(mid, r, t, pl')
    ensures PlacingAligned(pl, q, align, r, t, pl')
  {
    hide Picked, LeadAligns, Taking, LeadHeap, LeadLists, Off;
    assert PlacingAt(pl, q, a, lead, r, t, pl');
  }

  // What tlsf_memalign promises of a pointer p, from a search that was not refused
  ghost predicate MemalignOutcome(pl: Plan, pl': Plan, p: nat, size: nat, align: nat, length: nat)
    requires size < SIZE_T && 0 < align
  {
    var r, s := BlockFromPtr(p), AdjustRequestSize(size, ALIGN_SIZE);
    && Undoes(pl.h, pl'.h, r) && (r in pl.h ==> pl.h[r].free)
    && r in pl'.h && 8 * pl'.h[r].words < s + HEADER_SIZE
    && (align <= 0x4000_0000_0000_0000 ==> MultipleOf(p, align) && HoldsRequest(pl'.h, r, size))
    && (align < TOP_ALIGN || 8 * length <= TOP_ALIGN ==>
          (MemalignPromise(pl'.h, p, size, align) <==> align < TOP_ALIGN && size <= SIZE_T - 8))
    && (8 * length <= TOP_ALIGN <= align ==> TakenAsItLies(pl.h, pl'.h, r, s / 8) && !MultipleOf(p, align))
  }

  // Block r, cut from block a of pl, is allocated in pl'.
  lemma MemalignPlaced(pl: Plan, mid: Plan, pl': Plan, a: int, r: int, lead: nat, size: nat, align: nat, length: nat)
    requires Tiled(pl.h) && Coalesced(pl.h) && 0 < r && 0 < align < SIZE_T && IsPow2(align) && size < SIZE_T
    requires GoodSize(AdjustRequestSize(size, ALIGN_SIZE)) && 0 < MemalignRequest(size, align)
    requires Located(pl, mid, MemalignRequest(size, align), align, a, lead, r, length)
    requires Taking(mid, r, AdjustRequestSize(size, ALIGN_SIZE) / 8, pl')
    ensures PlacingAligned(pl, MemalignRequest(size, align), align, r, AdjustRequestSize(size, ALIGN_SIZE) / 8, pl')
    ensures BlockFromPtr(BlockToPtr(r)) == r && 0 < BlockToPtr(r) && BlockToPtr(r) % ALIGN_SIZE == 0
    ensures MemalignOutcome(pl, pl', BlockToPtr(r), size, align, length)
    ensures r in pl'.h && !pl'.h[r].free && pl'.h[r].words != 0 && (r in pl.h ==> pl.h[r].free)
  {
    var t := AdjustRequestSize(size, ALIGN_SIZE) / 8;
    TakingIs(mid, r, t, pl');
    assert BlockFromPtr(BlockToPtr(r)) == r;
    hide Located, Taking, AdjustRequestSize, MemalignRequest, Undoes, Tiled, Coalesced, PlacingAligned, MultipleOf;
    hide HoldsRequest, TakenAsItLies, LeadAligns, LeadCut, Take, IsPow2, PoolsOf, GoodSize, MemalignPromise;
    LocatedIs(pl, mid, MemalignRequest(size, align), align, a, lead, r, length);
    AlignedPlacing(pl, mid, pl', MemalignRequest(size, align), align, a, lead, r, t, length);
    MemalignFound(pl.h, mid.h, pl'.h, a, r, lead, size, align, length);
  }

  // When the promise is kept, null included
  lemma PromiseServed(pl: Plan, pl': Plan, p: nat, size: nat, align: nat, length: nat)
    requires size < SIZE_T && 0 < align && (align < TOP_ALIGN || 8 * length <= TOP_ALIGN)
    requires if p == 0 then Refused(pl.h, MemalignRequest(size, align))
      else !Refused(pl.h, MemalignRequest(size, align)) && MemalignOutcome(pl, pl', p, size, align, length)
    ensures MemalignPromise(pl'.h, p, size, align) <==> MemalignServed(pl.h, size, align)
  {
    hide Refused, MemalignRequest, AdjustRequestSize, Undoes, MultipleOf, HoldsRequest, TakenAsItLies;
  }

  lemma TakingIs(pl: Plan, a: int, t: nat, pl': Plan)
    requires Taking(pl, a, t, pl')
    ensures a in pl.h && Next(pl.h, a) in pl.h && pl'.h == Take(pl.h, a, t)
  {}

  // ---- the outcome is determined

  lemma OnePick(L: Lists, q: nat, a: int, b: int)
    requires Picked(L, q, a) && Picked(L, q, b)
    ensures a == b
  {
    var c0: nat, c: nat :| FirstFit(c0, q) && FirstFrom(L, c0, c) && a == L[c][0];
    var d0: nat, d: nat :| FirstFit(d0, q) && FirstFrom(L, d0, d) && b == L[d][0];
    hide Least;
    assert c0 == d0;
    assert L[c] != [] && L[d] != [];
  }

  lemma OneLead(a: int, lead: nat, lead': nat, align: nat)
    requires LeadAligns(a, lead, align) && LeadAligns(a, lead', align)
    ensures lead == lead'
  {
    hide MultipleOf;
  }

  lemma OnePlace(pl: Plan, q: nat, a: int, b: int, t: nat, pl1: Plan, pl2: Plan)
    requires Placing(pl, q, a, t, pl1) && Placing(pl, q, b, t, pl2)
    ensures a == b && pl1 == pl2
  {
    hide Picked, GoodFit, Take, TrimLists, Off;
    OnePick(pl.L, q, a, b);
  }

  lemma OneAlignedPlace(pl: Plan, q: nat, align: nat, r: int, r': int, t: nat, pl1: Plan, pl2: Plan)
    requires PlacingAligned(pl, q, align, r, t, pl1) && PlacingAligned(pl, q, align, r', t, pl2)
    ensures r == r' && pl1 == pl2
  {
    hide Picked, GoodFit, Take, TrimLists, Off, LeadAligns, LeadHeap, LeadLists;
    var a: int, m: nat :| Picked(pl.L, q, a) && LeadAligns(a, m, align) && PlacingAt(pl, q, a, m, r, t, pl1);
    var b: int, n: nat :| Picked(pl.L, q, b) && LeadAligns(b, n, align) && PlacingAt(pl, q, b, n, r', t, pl2);
    OnePick(pl.L, q, a, b);
    OneLead(a, m, n, align);
  }

  lemma OneMove(pl: Plan, a: int, q: nat, b: int, b': int, pl1: Plan, pl2: Plan)
    requires Moving(pl, a, q, b, pl1) && Moving(pl, a, q, b', pl2)
    ensures b == b' && pl1 == pl2
  {
    hide Placing, Release, Tiled, On, NextOff, PrevOff;
    var m: Plan :| Placing(pl, q, b, q / 8, m) && Releasing(m, a, pl1);
    var n: Plan :| Placing(pl, q, b', q / 8, n) && Releasing(n, a, pl2);
    OnePlace(pl, q, b, b', q / 8, m, n);
  }

  // Block a is given back: its free neighbours leave their lists, and the three, joined, go on one.
  ghost predicate Releasing(pl: Plan, a: int, pl': Plan) {
    && Tiled(pl.h) && a in pl.h && pl.h[a].words != 0 && pl'.h == Release(pl.h, a)
    && pl'.L == On(pl'.h, NextOff(pl.h, PrevOff(pl.h, pl.L, a), a), Merged(pl.h, a))
  }

  // The neighbours of a are those before and behind it, whichever is joined first.
  lemma ReleaseLists(h: Heap, L: Lists, a: int)
    requires Tiled(h) && a in h && !h[a].free && h[a].words != 0
    ensures var h1 := SetFree(h, a, true);
      && Tiled(h1) && PrevOff(h1, L, a) == PrevOff(h, L, a)
      && forall L1 {:trigger NextOff(h, L1, a)} :: NextOff(MergePrev(h1, a), L1, Merged(h, a)) == NextOff(h, L1, a)
  {
    SetFreeTiled(h, a, true);
    var h1 := SetFree(h, a, true);
    assert BlockOk(h, a);
    PrevOffSame(h, L, a);
    NextBehind(h, a);
    hide Class, MergePrev, PrevOff, Tiled, SetFree, Merged;
    var h2, b, n := MergePrev(h1, a), Merged(h, a), Next(h, a);
    forall L1 {:trigger NextOff(h, L1, a)} ensures NextOff(h2, L1, b) == NextOff(h, L1, a) {
      if h[n].free { OffSame(h2, h, L1, n); }
    }
  }

  lemma OffSame(h: Heap, h': Heap, L: Lists, a: int)
    requires a in h && a in h' && h[a].words == h'[a].words
    ensures Off(h, L, a) == Off(h', L, a)
  {}

  lemma PrevOffSame(h: Heap, L: Lists, a: int)
    requires Tiled(h) && a in h && h[a].words != 0
    ensures PrevOff(SetFree(h, a, true), L, a) == PrevOff(h, L, a)
  {
    assert BlockOk(h, a);
    if PrevFree(h, a) {
      assert BlockOk(h, h[a].prev);
      OffSame(SetFree(h, a, true), h, L, h[a].prev);
    }
  }

  lemma NextBehind(h: Heap, a: int)
    requires Tiled(h) && a in h && !h[a].free && h[a].words != 0 && Tiled(SetFree(h, a, true))
    ensures var h2, b, n := MergePrev(SetFree(h, a, true), a), Merged(h, a), Next(h, a);
      && n in h && b in h2 && Next(h2, b) == n && n in h2 && h2[n].words == h[n].words && h2[n].free == h[n].free
  {
    assert BlockOk(h, a);
    if PrevFree(h, a) { assert BlockOk(h, h[a].prev); }
  }

  // Block a is made s words long where it is: it takes over the free block behind it if it is too small, and what is
  // left over is cut off.
  ghost predicate Fitting(pl: Plan, a: int, s: nat, pl': Plan) {
    && a in pl.h && !pl.h[a].free
    && if pl.h[a].words < s then Next(pl.h, a) in pl.h && Trimming(Widened(pl, a), a, s, pl')
       else Trimming(pl, a, s, pl')
  }

  ghost predicate Trimming(pl: Plan, a: int, s: nat, pl': Plan) {
    && Tiled(pl.h) && a in pl.h && !pl.h[a].free && (s == 0 || 3 <= s) && pl'.h == TrimMerge(pl.h, a, s)
    && pl'.L == TrimMergeLists(pl.h, pl.L, a, s, pl'.h)
  }

  ghost function Widened(pl: Plan, a: int): Plan
    requires a in pl.h
  {
    if Next(pl.h, a) in pl.h && Next(pl.h, Next(pl.h, a)) in pl.h then
      Plan(Absorb(pl.h, a), NextOff(pl.h, pl.L, a))
    else pl
  }

  // Another block b is found for q bytes, and a is given back.
  ghost predicate Moving(pl: Plan, a: int, q: nat, b: int, pl': Plan) {
    exists mid: Plan :: Placing(pl, q, b, q / 8, mid) && Releasing(mid, a, pl')
  }

  ghost predicate Extending(pl: Plan, first: int, last: int, pl': Plan) {
    first + 4 <= last && pl'.h == AddPoolBlocks(pl.h, first, last) && pl'.L == On(pl'.h, pl.L, first)
  }

  lemma AddPoolOn(h: Heap, L: Lists, first: int, last: int, f: int, s: int)
    requires |L| == CLASSES && first + 4 <= last && 8 * (last - first - 1) < BLOCK_SIZE_MAX
    requires (f, s) == MappingInsert(8 * (last - first - 1))
    ensures 0 <= 32 * f + s < CLASSES
    ensures On(AddPoolBlocks(h, first, last), L, first) == Put(L, 32 * f + s, first)
  {
    hide MappingInsert, Class;
    AddPoolClass(last - first - 1);
    MappingIsClass(8 * (last - first - 1));
  }

  ghost predicate Withdrawing(pl: Plan, first: int, last: int, pl': Plan) {
    pl'.h == pl.h - {first, last} && pl'.L == Off(pl.h, pl.L, first)
  }
}
