// What holds of the memory, the list heads and the bitmaps between the steps of every operation, and what each step of
// tlsf.c does to it. h says what the headers mean, L which blocks are on which list, and F holds the free blocks that
// are off the lists for the moment.
module Invariant {
  import opened Bits
  import opened Bitwise
  import opened Mapping
  import opened Blocks
  import opened FreeLists
  import opened Bitmaps
  import opened Headers

  // The memory with the control structure's parts, and what they mean: h the headers, L the lists, and F the free
  // blocks that are off the lists for the moment
  datatype State = State(
    m: Words, nul: int, heads: seq<int>, fl: bv32, sl: seq<bv32>,
    h: Heap, F: set<int>, L: Lists)

  // The whole state is consistent, except that the free blocks in F are on no list.
  ghost predicate Inv(st: State) {
    && 0 < st.nul && st.nul + CONTROL_WORDS <= |st.m| && 8 * |st.m| <= SIZE_T
    && Tiled(st.h) && Tagged(st.m, st.nul, st.h)
    && Filed(st.h, st.F, st.L) && Chained(st.m, st.nul, st.heads, st.L) && Mapped(st.fl, st.sl, st.L)
  }

  lemma InvShape(st: State)
    requires Inv(st)
    ensures 0 < st.nul && st.nul + CONTROL_WORDS <= |st.m| && 8 * |st.m| <= SIZE_T && |st.heads| == |st.L| == CLASSES
    ensures |st.sl| == FL_INDEX_COUNT
  {}

  lemma InvFiled(st: State)
    requires Inv(st)
    ensures Filed(st.h, st.F, st.L)
  {}

  lemma UnlinkInv(st: State, f: nat, s: nat, k: nat)
    requires Inv(st)
    requires f < FL_INDEX_COUNT && s < 32 && k < |st.L[32 * f + s]|
    ensures var c := 32 * f + s;
      var p, n := At(st.L[c], k - 1, st.nul), At(st.L[c], k + 1, st.nul); var L' := Cut(st.L, c, k);
      && Inside(st.m, p) && Inside(st.m, n)
      && var m' := st.m[n + 3 := p][p + 2 := n];
      && Live(m', st.h) == Live(st.m, st.h)
      && (k > 0 ==> Inv(st.(m := m', F := st.F + {st.L[c][k]}, L := L')))
      && (k == 0 && n != st.nul ==> Inv(st.(m := m', heads := st.heads[c := n], F := st.F + {st.L[c][k]}, L := L')))
      && (k == 0 && n == st.nul ==>
           && var sl' := st.sl[f := Minus(st.sl[f], s)];
           Inv(st.(m := m', heads := st.heads[c := n], fl := if sl'[f] == 0 then Minus(st.fl, f) else st.fl,
                    sl := sl', F := st.F + {st.L[c][k]}, L := L')))
  {
    assert |st.L| == CLASSES;
    hide Tiled, Tagged, Filed, Chained, Mapped, Live, Minus, Without, Inside;
    var c := 32 * f + s;
    var n := At(st.L[c], k + 1, st.nul);
    UnlinkWords(st.m, st.nul, st.h, st.F, st.L, c, k);
    CutFiled(st.h, st.F, st.L, c, k);
    UnlinkChain(st.m, st.nul, st.heads, st.h, st.F, st.L, c, k);
    CutEmpty(st.L, c, k, st.nul, n);
    if k > 0 || n != st.nul {
      MapSame(st.fl, st.sl, st.L, Cut(st.L, c, k), c);
    } else {
      MapClear(st.fl, st.sl, st.L, Cut(st.L, c, k), f, s);
    }
  }

  lemma CutEmpty(L: Lists, c: int, k: int, nul: int, n: int)
    requires |L| == CLASSES && 0 <= c < CLASSES && 0 <= k < |L[c]| && n == At(L[c], k + 1, nul)
    ensures SameRows(L, Cut(L, c, k), c)
    ensures k > 0 || n != nul ==> Cut(L, c, k)[c] != []
    ensures k == 0 && (k + 1 < |L[c]| ==> L[c][k + 1] != nul) && n == nul ==> Cut(L, c, k)[c] == []
  {}

  lemma UnlinkWords(m: Words, nul: int, h: Heap, F: set<int>, L: Lists, c: int, k: int)
    requires 0 < nul && nul + CONTROL_WORDS <= |m|
    requires Tiled(h) && Tagged(m, nul, h) && Filed(h, F, L) && 0 <= c < CLASSES && 0 <= k < |L[c]|
    ensures var p, n := At(L[c], k - 1, nul), At(L[c], k + 1, nul);
      && Inside(m, p) && Inside(m, n)
      && (k + 1 < |L[c]| ==> n != nul)
      && var m' := m[n + 3 := p][p + 2 := n];
      && Tagged(m', nul, h) && Live(m', h) == Live(m, h)
  {
    assert |L| == CLASSES;
    hide Filed, Tiled, Tagged, Live;
    var p, n := At(L[c], k - 1, nul), At(L[c], k + 1, nul);
    ListMembers(m, nul, h, F, L, c);
    LinkWrite(m, nul, h, n, n + 3, p);
    LinkWrite(m[n + 3 := p], nul, h, p, p + 2, n);
  }

  lemma UnlinkChain(m: Words, nul: int, heads: seq<int>, h: Heap, F: set<int>, L: Lists, c: int, k: int)
    requires 0 < nul && nul + CONTROL_WORDS <= |m|
    requires Tiled(h) && Tagged(m, nul, h) && Filed(h, F, L) && Chained(m, nul, heads, L) && 0 <= c < CLASSES
    requires 0 <= k < |L[c]|
    ensures var p, n := At(L[c], k - 1, nul), At(L[c], k + 1, nul);
      && Inside(m, p) && Inside(m, n)
      && Chained(m[n + 3 := p][p + 2 := n], nul, if k == 0 then heads[c := n] else heads, Cut(L, c, k))
  {
    assert |L| == CLASSES;
    hide Filed, Tiled, Tagged;
    var p, n := At(L[c], k - 1, nul), At(L[c], k + 1, nul);
    ListMembers(m, nul, h, F, L, c);
    assert ListOk(m, nul, heads, L, c);
    assert heads[c := At(Without(L[c], k), 0, nul)] == if k == 0 then heads[c := n] else heads;
    ChainedCut(m, m[n + 3 := p][p + 2 := n], nul, heads, h, F, L, c, k);
  }

  lemma ListMembers(m: Words, nul: int, h: Heap, F: set<int>, L: Lists, c: int)
    requires Tiled(h) && Tagged(m, nul, h) && Filed(h, F, L) && 0 <= c < CLASSES && 0 < nul
    requires nul + CONTROL_WORDS <= |m|
    ensures forall i {:trigger At(L[c], i, nul)} :: Inside(m, At(L[c], i, nul)) && Linkable(nul, h, At(L[c], i, nul))
    ensures forall i {:trigger L[c][i]} :: 0 <= i < |L[c]| ==> L[c][i] != nul
  {
    assert FiledList(h, F, c, L[c]);
    SpreadList(m, nul, h, F, c, L[c]);
    forall i {:trigger At(L[c], i, nul)} ensures Inside(m, At(L[c], i, nul)) && Linkable(nul, h, At(L[c], i, nul)) {
      if 0 <= i < |L[c]| { assert Member(h, F, c, L[c][i]); }
    }
    forall i {:trigger L[c][i]} | 0 <= i < |L[c]| ensures L[c][i] != nul { assert Far(L[c][i], nul); }
  }

  // Where a filed block stands on its list, and what its header links say.
  lemma Locate(st: State, a: int) returns (k: nat)
    requires Inv(st) && a in st.h && st.h[a].free && a !in st.F
    ensures ClassAt(st.h, a) < CLASSES && Inside(st.m, a) && a != st.nul
    ensures var l := st.L[ClassAt(st.h, a)];
      && k < |l| && l[k] == a
      && st.m[a + 2] == At(l, k + 1, st.nul) && st.m[a + 3] == At(l, k - 1, st.nul)
      && st.heads[ClassAt(st.h, a)] == At(l, 0, st.nul)
      && (a == At(l, 0, st.nul) <==> k == 0)
  {
    hide Class;
    assert Listed(st.h, st.F, st.L, a);
    var c := ClassAt(st.h, a);
    k :| k < |st.L[c]| && st.L[c][k] == a;
    assert ListOk(st.m, st.nul, st.heads, st.L, c);
    assert LinkOk(st.m, st.nul, st.L[c], k);
    assert FiledList(st.h, st.F, c, st.L[c]);
    FarNull(st.m, st.nul, st.h, a);
  }

  // ---- pushing a block on the list of its class

  lemma LinkInv(st: State, f: nat, s: nat, a: int)
    requires Inv(st)
    requires f < FL_INDEX_COUNT && s < 32 && a in st.h && st.h[a].free && a in st.F && ClassAt(st.h, a) == 32 * f + s
    ensures var c := 32 * f + s; var n := st.heads[c];
      && Inside(st.m, a) && Inside(st.m, n)
      && var m' := st.m[a + 2 := n][a + 3 := st.nul][n + 3 := a];
      && Live(m', st.h) == Live(st.m, st.h)
      && Inv(st.(m := m', heads := st.heads[c := a], fl := With(st.fl, f), sl := st.sl[f := With(st.sl[f], s)],
                 F := st.F - {a}, L := Put(st.L, c, a)))
  {
    assert |st.L| == CLASSES && |st.heads| == CLASSES;
    var c := 32 * f + s;
    var n := st.heads[c];
    assert n == At(st.L[c], 0, st.nul) by { assert ListOk(st.m, st.nul, st.heads, st.L, c); }
    ListMembers(st.m, st.nul, st.h, st.F, st.L, c);
    FarNull(st.m, st.nul, st.h, a);
    hide Tiled, Tagged, Filed, Chained, Mapped, Live, With;
    var m1 := st.m[a + 2 := n];
    var m2 := m1[a + 3 := st.nul];
    LinkWrite(st.m, st.nul, st.h, a, a + 2, n);
    LinkWrite(m1, st.nul, st.h, a, a + 3, st.nul);
    LinkWrite(m2, st.nul, st.h, n, n + 3, a);
    PutFiled(st.h, st.F, st.L, a);
    ChainedPut(st.m, m2[n + 3 := a], st.nul, st.heads, st.h, st.F, st.L, a);
    MapSet(st.fl, st.sl, st.L, Put(st.L, c, a), f, s);
  }

  // ---- steps on the headers between block a and a later block e

  lemma ChainedAround(m: Words, m': Words, nul: int, heads: seq<int>, h: Heap, F: set<int>, L: Lists, a: int, e: int)
    requires Tiled(h) && Tagged(m, nul, h) && Filed(h, F, L) && Chained(m, nul, heads, L)
    requires a in h && e in h && SameWords(m, m', a, e)
    requires forall x :: x in h && h[x].free && x !in F ==> x < a || x >= e
    ensures Chained(m', nul, heads, L)
  {
    forall c {:trigger ListOk(m', nul, heads, L, c)} | 0 <= c < CLASSES ensures ListOk(m', nul, heads, L, c) {
      assert ListOk(m, nul, heads, L, c);
      assert FiledList(h, F, c, L[c]);
      forall x | x in L[c] && 0 <= x && x + 3 < |m| ensures m'[x + 2] == m[x + 2] && m'[x + 3] == m[x + 3] {
        assert Member(h, F, c, x);
        assert BlockOk(h, x);
        assert Apart(h, x, a);
      }
      LinkedFrame(m, m', nul, L[c]);
    }
  }

  ghost predicate Same(h: Heap, h': Heap, F: set<int>, F': set<int>, x: int) {
    && ((x in h && h[x].free && x !in F) <==> (x in h' && h'[x].free && x !in F'))
    && (x in h && x in h' && h[x].free && x !in F ==> h'[x].words == h[x].words)
  }

  lemma FiledStep(h: Heap, h': Heap, F: set<int>, F': set<int>, L: Lists)
    requires Filed(h, F, L)
    requires forall x {:trigger Same(h, h', F, F', x)} :: x in h || x in h' ==> Same(h, h', F, F', x)
    ensures Filed(h', F', L)
  {
    hide Class;
    forall c {:trigger FiledList(h', F', c, L[c])} | 0 <= c < CLASSES ensures FiledList(h', F', c, L[c]) {
      assert FiledList(h, F, c, L[c]);
      forall x {:trigger Member(h', F', c, x)} | x in L[c] ensures Member(h', F', c, x) {
        assert Member(h, F, c, x);
        assert Same(h, h', F, F', x);
      }
    }
    forall x {:trigger Listed(h', F', L, x)} | x in h' ensures Listed(h', F', L, x) {
      assert Same(h, h', F, F', x);
      if h'[x].free && x !in F' { assert Listed(h, F, L, x); }
    }
  }

  // Payloads other than a's are not touched.
  lemma LiveAround(m: Words, m': Words, h: Heap, h': Heap, a: int, e: int)
    requires Tiled(h) && a in h && e in h && a < e && SameWords(m, m', a, e) && SameBeyond(h, h', a, e)
    requires e in h' && h'[e].free == h[e].free && h'[e].words == h[e].words
    requires forall c :: c in h && a < c < e ==> h[c].free
    requires forall c :: c in h' && a < c < e ==> h'[c].free
    ensures Live(m', h') - {a} == Live(m, h) - {a}
  {
    forall c | c in h && c != a && !h[c].free
      ensures c in h' && h'[c].free == h[c].free && h'[c].words == h[c].words && Payload(m', h', c) == Payload(m, h, c)
    {
      assert Apart(h, c, a);
      assert c < a || c >= e;
    }
  }

  lemma MarkFreeInv(st: State, a: int)
    requires Inv(st) && a in st.h && !st.h[a].free && st.h[a].words != 0
    ensures HasNext(st.m, a)
    ensures Inv(st.(m := MarkFree(st.m, a), h := SetFree(st.h, a, true), F := st.F + {a}))
    ensures Live(MarkFree(st.m, a), SetFree(st.h, a, true)) == Live(st.m, st.h) - {a}
  {
    SetFreeTiled(st.h, a, true);
    MarkFreeTagged(st.m, st.nul, st.h, a);
    var h' := SetFree(st.h, a, true);
    var m' := MarkFree(st.m, a);
    MarkWords(st.m, st.nul, st.h, a);
    forall x {:trigger Same(st.h, h', st.F, st.F + {a}, x)} | x in st.h || x in h'
      ensures Same(st.h, h', st.F, st.F + {a}, x)
    {}
    FiledStep(st.h, h', st.F, st.F + {a}, st.L);
    BlocksAround(st.h, a, Next(st.h, a));
    ChainedAround(st.m, m', st.nul, st.heads, st.h, st.F, st.L, a, Next(st.h, a));
    LiveAround(st.m, m', st.h, h', a, Next(st.h, a));
    MapRemove(Live(m', h'), Live(st.m, st.h), a);
  }

  lemma MarkUsedInv(st: State, a: int)
    requires Inv(st) && a in st.h && st.h[a].free && a in st.F
    ensures HasNext(st.m, a)
    ensures Inv(st.(m := MarkUsed(st.m, a), h := SetFree(st.h, a, false), F := st.F - {a}))
    ensures var m', h' := MarkUsed(st.m, a), SetFree(st.h, a, false);
      Live(m', h') == Live(st.m, st.h)[a := Payload(m', h', a)] && |Payload(m', h', a)| == st.h[a].words
  {
    assert BlockOk(st.h, a);
    SetFreeTiled(st.h, a, false);
    MarkUsedTagged(st.m, st.nul, st.h, a);
    var h' := SetFree(st.h, a, false);
    var m' := MarkUsed(st.m, a);
    MarkWords(st.m, st.nul, st.h, a);
    forall x {:trigger Same(st.h, h', st.F, st.F - {a}, x)} | x in st.h || x in h'
      ensures Same(st.h, h', st.F, st.F - {a}, x)
    {}
    FiledStep(st.h, h', st.F, st.F - {a}, st.L);
    BlocksAround(st.h, a, Next(st.h, a));
    ChainedAround(st.m, m', st.nul, st.heads, st.h, st.F, st.L, a, Next(st.h, a));
    LiveAround(st.m, m', st.h, h', a, Next(st.h, a));
    assert TagOk(m', st.nul, h', a);
    MapUpdate(Live(m', h'), Live(st.m, st.h), a);
  }

  lemma MapUpdate(l': map<int, Words>, l: map<int, Words>, a: int)
    requires l' - {a} == l - {a} && a in l'
    ensures l' == l[a := l'[a]]
  {
    assert l'.Keys == (l' - {a}).Keys + {a};
    forall x | x in l' && x != a ensures x in l && l'[x] == l[x] { assert x in l' - {a}; }
    forall x | x in l && x != a ensures x in l' { assert x in l - {a}; }
  }

  lemma MapRemove(l': map<int, Words>, l: map<int, Words>, a: int)
    requires l' - {a} == l - {a} && a !in l'
    ensures l' == l - {a}
  {
    assert l' == l' - {a};
  }

  lemma BlocksAround(h: Heap, a: int, e: int)
    requires Tiled(h) && a in h && e == Next(h, a) && h[a].words != 0
    ensures e in h && a < e
    ensures forall c :: c in h && a < c ==> c >= e
  {
    assert BlockOk(h, a);
    forall c | c in h && a < c ensures c >= e { assert Apart(h, a, c); }
  }

  lemma MarkWords(m: Words, nul: int, h: Heap, a: int)
    requires Tiled(h) && Tagged(m, nul, h) && a in h && h[a].words != 0
    ensures HasNext(m, a) && SameWords(m, MarkFree(m, a), a, Next(h, a)) && SameWords(m, MarkUsed(m, a), a, Next(h, a))
    ensures forall i :: a + 1 < i < Next(h, a) && i < |m| ==> MarkFree(m, a)[i] == m[i]
    ensures forall i :: a + 1 < i <= Next(h, a) && i < |m| ==> MarkUsed(m, a)[i] == m[i]
  {
    NextIs(m, nul, h, a);
  }

  lemma SplitInv(st: State, m': Words, a: int, s: nat)
    requires Inv(st) && a in st.h && 3 <= s && s + 4 <= st.h[a].words && Next(st.h, a) in st.h
    requires st.h[a].free ==> a in st.F
    requires SplitDone(st.m, m', st.h, a, s)
    ensures Inv(st.(m := m', h := Split(st.h, a, s), F := st.F + {a + 1 + s}))
    ensures Live(m', Split(st.h, a, s)) - {a} == Live(st.m, st.h) - {a}
  {
    var r := a + 1 + s;
    var n := Next(st.h, a);
    var h' := Split(st.h, a, s);
    SplitTiled(st.h, a, s);
    SplitTagged(st.m, m', st.nul, st.h, a, s);
    forall x {:trigger Same(st.h, h', st.F, st.F + {r}, x)} | x in st.h || x in h'
      ensures Same(st.h, h', st.F, st.F + {r}, x)
    {}
    FiledStep(st.h, h', st.F, st.F + {r}, st.L);
    BlocksAround(st.h, a, n);
    ChainedAround(st.m, m', st.nul, st.heads, st.h, st.F, st.L, a, n);
    LiveAround(st.m, m', st.h, h', a, n);
  }

  lemma AbsorbInv(st: State, m': Words, a: int)
    requires Inv(st) && a in st.h && st.h[a].words != 0
    requires st.h[a].free ==> a in st.F
    requires Next(st.h, a) in st.h && st.h[Next(st.h, a)].free && Next(st.h, a) in st.F
    requires Next(st.h, Next(st.h, a)) in st.h
    requires SameWords(st.m, m', a, Next(st.h, Next(st.h, a))) && Tagged(m', st.nul, Absorb(st.h, a))
    ensures Inv(st.(m := m', h := Absorb(st.h, a), F := st.F - {Next(st.h, a)}))
    ensures Live(m', Absorb(st.h, a)) - {a} == Live(st.m, st.h) - {a}
  {
    var x := Next(st.h, a);
    var n := Next(st.h, x);
    var h' := Absorb(st.h, a);
    assert BlockOk(st.h, x);
    AbsorbTiled(st.h, a);
    forall y {:trigger Same(st.h, h', st.F, st.F - {x}, y)} | y in st.h || y in h'
      ensures Same(st.h, h', st.F, st.F - {x}, y)
    {}
    FiledStep(st.h, h', st.F, st.F - {x}, st.L);
    BlocksAround(st.h, a, x);
    BlocksAround(st.h, x, n);
    ChainedAround(st.m, m', st.nul, st.heads, st.h, st.F, st.L, a, n);
    LiveAround(st.m, m', st.h, h', a, n);
  }

  // ---- what the size word of a block says

  lemma HeaderOf(st: State, a: int)
    requires Inv(st) && a in st.h
    ensures 0 < a && a + 1 < |st.m| && SizeOf(st.m[a + 1]) == 8 * st.h[a].words < BLOCK_SIZE_MAX
    ensures IsFree(st.m[a + 1]) <==> st.h[a].free
    ensures IsPrevFree(st.m[a + 1]) <==> PrevFree(st.h, a)
    ensures PrevFree(st.h, a) ==> st.m[a] == st.h[a].prev
    ensures var (f, s) := MappingInsert(8 * st.h[a].words);
      0 <= f < FL_INDEX_COUNT && 0 <= s < 32 && 32 * f + s == ClassAt(st.h, a)
    ensures st.h[a].words != 0 ==> Next(st.h, a) in st.h && HasNext(st.m, a) && NextHeader(st.m, a) == Next(st.h, a)
  {
    hide MappingInsert, Class, SizeOf, IsFree, IsPrevFree;
    assert TagOk(st.m, st.nul, st.h, a);
    assert BlockOk(st.h, a);
    assert Apart(st.h, a, st.h[a].pool.last);
    TagFlags(st.h, a);
    if st.h[a].words != 0 {
      assert TagOk(st.m, st.nul, st.h, Next(st.h, a));
      NextIs(st.m, st.nul, st.h, a);
    }
    MappingIsClass(8 * st.h[a].words);
    ClassInTable(8 * st.h[a].words);
  }

  lemma BlockInside(st: State, a: int)
    requires Inv(st) && a in st.h
    ensures 0 < a && Next(st.h, a) < |st.m|
  {
    assert TagOk(st.m, st.nul, st.h, a);
  }

  lemma InvTiled(st: State)
    requires Inv(st)
    ensures Tiled(st.h)
    ensures forall a :: a in st.h && st.h[a].free ==> st.h[a].words != 0
  {
    forall a | a in st.h && st.h[a].free ensures st.h[a].words != 0 { assert BlockOk(st.h, a); }
  }

  // Free block a takes over the free block after it; both are off the lists.
  lemma AbsorbFree(st: State, a: int)
    requires Inv(st) && a in st.h && st.h[a].free && a in st.F
    requires Next(st.h, a) in st.h && st.h[Next(st.h, a)].free && Next(st.h, a) in st.F
    ensures var x := Next(st.h, a);
      && 0 < a && x + 1 < |st.m| && Next(st.h, x) in st.h && HasNext(AbsorbSize(st.m, a, x), a)
      && Inv(st.(m := AbsorbWords(st.m, a, x), h := Absorb(st.h, a), F := st.F - {x}))
      && Live(AbsorbWords(st.m, a, x), Absorb(st.h, a)) == Live(st.m, st.h)
  {
    var x := Next(st.h, a);
    assert BlockOk(st.h, a);
    AbsorbFreeTagged(st.m, st.nul, st.h, a);
    AbsorbIs(st.m, st.nul, st.h, a);
    var m' := AbsorbWords(st.m, a, x);
    AbsorbInv(st, m', a);
    assert Live(m', Absorb(st.h, a)) == Live(m', Absorb(st.h, a)) - {a};
    assert Live(st.m, st.h) == Live(st.m, st.h) - {a};
  }

  // The state after block_absorb on a used block a: mid is the memory before it.
  ghost predicate Grown(mid: Words, st: State, a: int) {
    && a in st.h && Next(st.h, a) in st.h
    && var x := Next(st.h, a);
    && Inv(st.(m := mid, F := st.F + {x}))
    && 0 < a && x + 1 < |mid| && HasNext(AbsorbSize(mid, a, x), a)
    && st.m == AbsorbWords(mid, a, x)
  }

  lemma SplitFree(st: State, a: int, s: nat)
    requires Inv(st) && a in st.h && st.h[a].free && a in st.F && 3 <= s && s + 4 <= st.h[a].words
    ensures 0 < a && Next(st.h, a) in st.h && a + 1 + s !in st.h && Splittable(st.m, a, 8 * s)
    ensures HasNext(SplitWords(st.m, a, 8 * s), a) && NextHeader(SplitWords(st.m, a, 8 * s), a) == a + 1 + s
    ensures Inv(st.(m := FreeSplit(st.m, a, 8 * s), h := Split(st.h, a, s), F := st.F + {a + 1 + s}))
    ensures Live(FreeSplit(st.m, a, 8 * s), Split(st.h, a, s)) == Live(st.m, st.h)
  {
    SplitFreeDone(st.m, st.nul, st.h, a, s);
    hide SplitWords, FreeSplit, Splittable, NextHeader, HasNext, SplitDone;
    var m2 := FreeSplit(st.m, a, 8 * s);
    SplitInv(st, m2, a, s);
    NotLive(m2, Split(st.h, a, s), a);
    NotLive(st.m, st.h, a);
  }

  lemma NotLive(m: Words, h: Heap, a: int)
    requires a in h && h[a].free
    ensures Live(m, h) == Live(m, h) - {a}
  {}

  lemma SplitUsed(st: State, a: int, s: nat)
    requires Inv(st) && a in st.h && !st.h[a].free && 3 <= s && s + 4 <= st.h[a].words
    ensures 0 < a && Next(st.h, a) in st.h && a + 1 + s !in st.h && Splittable(st.m, a, 8 * s)
    ensures Inv(st.(m := UsedSplit(st.m, a, 8 * s), h := Split(st.h, a, s), F := st.F + {a + 1 + s}))
    ensures Shrunk(Live(st.m, st.h), Live(UsedSplit(st.m, a, 8 * s), Split(st.h, a, s)), a)
  {
    SplitUsedDone(st.m, st.nul, st.h, a, s);
    var m2 := UsedSplit(st.m, a, 8 * s);
    assert |m2| == |st.m|;
    hide SplitWords, UsedSplit, Splittable, NextHeader, HasNext, SplitDone;
    SplitInv(st, m2, a, s);
    SplitPrefix(st.m, m2, st.nul, st.h, a, s);
  }

  // The same at size 0: the allocation is gone, and its pool falls apart.
  lemma SplitToNothing(st: State, a: int)
    requires Inv(st) && a in st.h && !st.h[a].free && 4 <= st.h[a].words
    ensures 0 < a && Next(st.h, a) in st.h && Splittable(st.m, a, 0)
    ensures Inv(st.(m := UsedSplit(st.m, a, 0), h := Broken(st.h, a), F := st.F + {a + 1}))
    ensures Live(UsedSplit(st.m, a, 0), Broken(st.h, a)) == Live(st.m, st.h) - {a}
  {
    SplitUsedDone(st.m, st.nul, st.h, a, 0);
    var m' := UsedSplit(st.m, a, 0);
    hide SplitWords, UsedSplit, Splittable, NextHeader, HasNext;
    BrokenInv(st, m', a);
  }

  lemma BrokenInv(st: State, m': Words, a: int)
    requires Inv(st) && a in st.h && !st.h[a].free && 4 <= st.h[a].words && Next(st.h, a) in st.h
    requires SplitDone(st.m, m', st.h, a, 0)
    ensures Inv(st.(m := m', h := Broken(st.h, a), F := st.F + {a + 1}))
    ensures Live(m', Broken(st.h, a)) == Live(st.m, st.h) - {a}
  {
    var h, h', F' := st.h, Broken(st.h, a), st.F + {a + 1};
    BrokenTiled(h, a);
    BrokenTagged(st.m, m', st.nul, h, a);
    SplitRoom(h, a, 0);
    forall x {:trigger Same(h, h', st.F, F', x)} | x in h || x in h' ensures Same(h, h', st.F, F', x) {}
    FiledStep(h, h', st.F, F', st.L);
    BlocksAround(h, a, Next(h, a));
    ChainedAround(st.m, m', st.nul, st.heads, h, st.F, st.L, a, Next(h, a));
    BrokenLive(st.m, m', h, a);
  }

  lemma BrokenLive(m: Words, m': Words, h: Heap, a: int)
    requires Tiled(h) && a in h && !h[a].free && 4 <= h[a].words && SameWords(m, m', a, Next(h, a))
    ensures Live(m', Broken(h, a)) == Live(m, h) - {a}
  {
    var h' := Broken(h, a);
    SplitRoom(h, a, 0);
    BrokenNear(h, a);
    forall c | c in h && c != a && !h[c].free
      ensures c in h' && !h'[c].free && h'[c].words == h[c].words && Payload(m', h', c) == Payload(m, h, c)
    {
      assert Apart(h, c, a) && Apart(h, a, c);
    }
    forall c | c in Live(m', h') ensures c in h && c != a { }
    assert Live(m', h').Keys == (Live(m, h) - {a}).Keys;
  }

  lemma SplitPrefix(m: Words, m2: Words, nul: int, h: Heap, a: int, s: nat)
    requires Tagged(m, nul, h) && a in h && !h[a].free && 0 < s && s + 4 <= h[a].words && Next(h, a) in h
    requires |m2| == |m| && forall i :: 0 <= i < |m| && a + 2 <= i < a + 2 + s ==> m2[i] == m[i]
    ensures a in Live(m2, Split(h, a, s)) && a in Live(m, h) && Live(m2, Split(h, a, s))[a] <= Live(m, h)[a]
  {
    assert TagOk(m, nul, h, a);
    assert Payload(m2, Split(h, a, s), a) == Payload(m, h, a)[..s];
  }

  // Allocation a is cut to its first s words or a little more; cut to nothing, it is gone.
  ghost predicate CutDown(l: map<int, Words>, l': map<int, Words>, a: int, s: nat) {
    if s == 0 then l' == l - {a} else Shrunk(l, l', a)
  }

  lemma ShortenUsed(st: State, a: int, s: nat)
    requires Inv(st) && a in st.h && !st.h[a].free && (s == 0 || 3 <= s) && s + 4 <= st.h[a].words
    ensures 0 < a && Next(st.h, a) in st.h && Splittable(st.m, a, 8 * s)
    ensures Inv(st.(m := UsedSplit(st.m, a, 8 * s), h := Shortened(st.h, a, s), F := st.F + {a + 1 + s}))
    ensures CutDown(Live(st.m, st.h), Live(UsedSplit(st.m, a, 8 * s), Shortened(st.h, a, s)), a, s)
  {
    hide Live, Inv, UsedSplit, Splittable, Broken, Split;
    if s == 0 { SplitToNothing(st, a); } else { SplitUsed(st, a, s); }
  }

  // Allocation a has lost words at its end, if anything; the others are what they were.
  ghost predicate Shrunk(l: map<int, Words>, l': map<int, Words>, a: int) {
    l' - {a} == l - {a} && a in l && a in l' && l'[a] <= l[a]
  }

  lemma LiveHas(m: Words, h: Heap, a: int)
    requires a in h && !h[a].free && h[a].words != 0
    ensures a in Live(m, h)
  {}

  lemma FirstMember(st: State, c: int)
    requires Inv(st) && 0 <= c < CLASSES && st.L[c] != []
    ensures st.heads[c] == st.L[c][0] && st.heads[c] > 0 && st.heads[c] in st.h && st.h[st.heads[c]].free
    ensures st.heads[c] !in st.F && ClassAt(st.h, st.heads[c]) == c
  {
    hide Class;
    assert ListOk(st.m, st.nul, st.heads, st.L, c);
    assert FiledList(st.h, st.F, c, st.L[c]);
    assert Member(st.h, st.F, c, st.L[c][0]);
    assert TagOk(st.m, st.nul, st.h, st.L[c][0]);
  }

  // ---- finding a free block

  // Every free block is smaller than the request rounded up to a class boundary.
  ghost predicate NoneFits(h: Heap, size: nat)
    requires size < BLOCK_SIZE_MAX
  {
    forall x :: x in h && h[x].free ==> 8 * h[x].words < Rounded(size)
  }

  // A search for q bytes finds nothing: nothing is asked for, or no free block reaches q rounded up.
  ghost predicate Refused(h: Heap, q: nat) {
    q == 0 || (q < BLOCK_SIZE_MAX && NoneFits(h, q))
  }

  ghost predicate NoneFree(h: Heap) {
    forall x :: x in h ==> !h[x].free
  }

  lemma NoneFitsLeast(h: Heap)
    requires Tiled(h)
    ensures NoneFits(h, BLOCK_SIZE_MIN) <==> NoneFree(h)
  {
    SmallRounded(BLOCK_SIZE_MIN);
    hide Rounded;
    if NoneFits(h, BLOCK_SIZE_MIN) {
      forall x | x in h ensures !h[x].free { assert BlockOk(h, x); }
    }
  }

  lemma NoneListed(st: State, size: nat)
    requires Inv(st) && st.F == {} && GoodSize(size)
    requires NoneFrom(st.L, Class(RoundUp(size)))
    ensures NoneFits(st.h, size)
  {
    hide Class, Least, RoundUp;
    var k := Class(RoundUp(size));
    forall x | x in st.h && st.h[x].free ensures 8 * st.h[x].words < Rounded(size) {
      assert Listed(st.h, {}, st.L, x);
      ClassBounds(8 * st.h[x].words);
      assert ClassAt(st.h, x) < k;
      LeastMono(ClassAt(st.h, x) + 1, k);
    }
  }

  lemma FirstIsLarge(h: Heap, L: Lists, size: nat, block: int, c: int)
    requires GoodSize(size) && |L| == CLASSES && FirstFrom(L, Class(RoundUp(size)), c)
    requires block in h && ClassAt(h, block) == c
    ensures size <= 8 * h[block].words && (h[block].free ==> !NoneFits(h, size))
  {
    hide Class, Least, RoundUp, FirstFit;
    var k := Class(RoundUp(size));
    RoundUpClass(size);
    FirstFitLarge(k, size, 8 * h[block].words);
    ClassBounds(8 * h[block].words);
    LeastMono(k, c);
  }

  // a is an allocation of n words; the others are what they were.
  ghost predicate Allocated(l: map<int, Words>, l': map<int, Words>, a: int, n: nat) {
    a in l' && |l'[a]| == n && l' == l[a := l'[a]]
  }

  // As Allocated, and a was no allocation before.
  ghost predicate NewlyAllocated(l: map<int, Words>, l': map<int, Words>, a: int, n: nat) {
    a !in l && Allocated(l, l', a, n)
  }

  function BlockToPtr(a: int): int { 8 * (a + 2) }
  function BlockFromPtr(p: int): int { p / 8 - 2 }

  lemma FreeNotLive(m: Words, h: Heap, a: int)
    requires a in h ==> h[a].free
    ensures a !in Live(m, h)
  {}

  // ---- payload accesses

  lemma PayloadWrite(st: State, a: int, k: nat, v: int)
    requires Inv(st) && a in Live(st.m, st.h) && k < |Live(st.m, st.h)[a]|
    ensures 0 < a && a + 2 + k < |st.m|
    ensures Inv(st.(m := st.m[a + 2 + k := v]))
    ensures Live(st.m[a + 2 + k := v], st.h) == Live(st.m, st.h)[a := Live(st.m, st.h)[a][k := v]]
  {
    assert TagOk(st.m, st.nul, st.h, a);
    assert BlockOk(st.h, a);
    var i := a + 2 + k;
    var m' := st.m[i := v];
    PayloadNoHeader(st.h, a, i);
    TaggedFrame(st.m, m', st.nul, st.h);
    forall c {:trigger ListOk(m', st.nul, st.heads, st.L, c)} | 0 <= c < CLASSES
      ensures ListOk(m', st.nul, st.heads, st.L, c)
    {
      assert ListOk(st.m, st.nul, st.heads, st.L, c);
      assert FiledList(st.h, st.F, c, st.L[c]);
      forall x | x in st.L[c] && 0 <= x && x + 3 < |st.m| ensures m'[x + 2] == st.m[x + 2] && m'[x + 3] == st.m[x + 3] {
        assert Member(st.h, st.F, c, x);
        assert BlockOk(st.h, x);
        assert Apart(st.h, x, a) && Apart(st.h, a, x);
      }
      LinkedFrame(st.m, m', st.nul, st.L[c]);
    }
    forall c | c in Live(st.m, st.h) && c != a ensures Payload(m', st.h, c) == Payload(st.m, st.h, c) {
      assert Apart(st.h, c, a) && Apart(st.h, a, c);
    }
    assert Payload(m', st.h, a) == Payload(st.m, st.h, a)[k := v];
  }

  lemma PayloadNoHeader(h: Heap, a: int, i: int)
    requires Tiled(h) && LiveWord(h, a, i)
    ensures !HeaderWord(h, i)
  {
    assert BlockOk(h, a);
    assert i - 1 in h ==> Apart(h, a, i - 1);
    assert i in h ==> Apart(h, a, i) && BlockOk(h, i);
  }

  lemma PayloadRead(st: State, a: int, k: nat)
    requires Inv(st) && a in Live(st.m, st.h) && k < |Live(st.m, st.h)[a]|
    ensures 0 < a && a + 2 + k < |st.m| && st.m[a + 2 + k] == Live(st.m, st.h)[a][k]
  {
    assert TagOk(st.m, st.nul, st.h, a);
  }

  // tlsf_realloc growing into the free block behind: block_absorb, then block_mark_as_used
  lemma GrownInv(mid: Words, st: State, a: int)
    requires Grown(mid, st, a) && st.F == {} && !st.h[a].free && st.h[a].words != 0 && st.h[Next(st.h, a)].free
    ensures HasNext(st.m, a) && Next(st.h, Next(st.h, a)) in st.h
    ensures Inv(st.(m := MarkUsed(st.m, a), h := Absorb(st.h, a)))
    ensures Extended(Live(mid, st.h), Live(MarkUsed(st.m, a), Absorb(st.h, a)), a)
  {
    var x := Next(st.h, a);
    AbsorbUsedTagged(mid, st.nul, st.h, a);
    GrownWords(mid, st.nul, st.h, a);
    hide AbsorbWords, AbsorbSize, MarkUsed, HasNext, Tiled, Tagged;
    var m' := MarkUsed(st.m, a);
    assert st.F + {x} - {x} == st.F;
    AbsorbInv(st.(m := mid, F := st.F + {x}), m', a);
    GrownPayload(mid, m', st.nul, st.h, a);
  }

  lemma GrownWords(mid: Words, nul: int, h: Heap, a: int)
    requires Tiled(h) && Tagged(mid, nul, h) && a in h && !h[a].free && h[a].words != 0
    requires Next(h, a) in h && h[Next(h, a)].free
    ensures 0 < a && Next(h, a) + 1 < |mid| && Next(h, Next(h, a)) in h && HasNext(AbsorbSize(mid, a, Next(h, a)), a)
    ensures HasNext(AbsorbWords(mid, a, Next(h, a)), a)
    ensures var x := Next(h, a); var m' := MarkUsed(AbsorbWords(mid, a, x), a);
      SameWords(mid, m', a, Next(h, x)) && forall i :: 0 <= i < |mid| && a + 2 <= i <= x ==> m'[i] == mid[i]
  {
    var x := Next(h, a);
    AbsorbUsedTagged(mid, nul, h, a);
    AbsorbIs(mid, nul, h, a);
    assert BlockOk(h, a) && BlockOk(h, x);
    FlagOps(h[a].words + 1 + h[x].words, false, PrevFree(h, a), 0);
    hide SizeOf, AndNotFree, AndNotPrevFree, Tiled, Tagged, BlockOk, Flags;
  }

  lemma GrownPayload(mid: Words, m': Words, nul: int, h: Heap, a: int)
    requires Tagged(mid, nul, h) && a in h && !h[a].free && h[a].words != 0 && |m'| == |mid|
    requires Next(h, a) in h && Next(h, Next(h, a)) in h && Next(h, a) != a && a != Next(h, Next(h, a))
    requires Tagged(m', nul, Absorb(h, a))
    requires forall i :: 0 <= i < |mid| && a + 2 <= i <= Next(h, a) ==> m'[i] == mid[i]
    ensures a in Live(mid, h) && a in Live(m', Absorb(h, a)) && Live(mid, h)[a] <= Live(m', Absorb(h, a))[a]
  {
    assert TagOk(mid, nul, h, a);
    assert TagOk(m', nul, Absorb(h, a), a);
    assert Payload(mid, h, a) <= Payload(m', Absorb(h, a), a);
  }

  // Allocation a has gained words at its end, if anything; the others are what they were.
  ghost predicate Extended(l: map<int, Words>, l': map<int, Words>, a: int) {
    l' - {a} == l - {a} && a in l && a in l' && l[a] <= l'[a]
  }

  // Block a has s bytes, alone or with the free block behind it.
  ghost predicate FitsInPlace(h: Heap, a: int, s: nat)
    requires a in h
  {
    s <= 8 * h[a].words || (Next(h, a) in h && h[Next(h, a)].free && s <= 8 * h[a].words + 8 * h[Next(h, a)].words + 8)
  }

  // Allocation a lives on as b, starting with a's first k words; the others are what they were.
  ghost predicate Resized(l: map<int, Words>, l': map<int, Words>, a: int, b: int, k: nat) {
    && a in l && b in l' && (b == a || b !in l) && l' - {b} == l - {a}
    && k <= |l[a]| && k <= |l'[b]| && l'[b][..k] == l[a][..k]
  }

  lemma MoveResized(l0: map<int, Words>, l1: map<int, Words>, a: int, b: int, n: nat)
    requires a in l0 && NewlyAllocated(l0, l1, b, n) && |l0[a]| <= n
    ensures a in l1 && l1[a] == l0[a] && b in l1 && a != b
    ensures var l2 := l1[b := Copied(l1[a], l1[b], |l0[a]|)]; Resized(l0, l2 - {a}, a, b, |l0[a]|)
  {
    var l2 := l1[b := Copied(l1[a], l1[b], |l0[a]|)];
    assert l2 - {a} - {b} == l0 - {a};
  }

  lemma GrowShrinkResized(l0: map<int, Words>, l1: map<int, Words>, l2: map<int, Words>, a: int, k: nat)
    requires (l0 == l1 && a in l0) || Extended(l0, l1, a)
    requires Shrunk(l1, l2, a) && k <= |l0[a]| && k <= |l2[a]|
    ensures Resized(l0, l2, a, a, k)
  {
    assert l2[a][..k] == l1[a][..k];
    assert l1[a][..k] == l0[a][..k];
  }

  lemma LiveSize(st: State, a: int)
    requires Inv(st) && a in st.h && !st.h[a].free && st.h[a].words != 0
    ensures a in Live(st.m, st.h) && |Live(st.m, st.h)[a]| == st.h[a].words >= 3
  {
    assert TagOk(st.m, st.nul, st.h, a) && BlockOk(st.h, a);
  }

  // t after its first k words were overwritten with those of s
  function Copied(s: Words, t: Words, k: nat): Words
    requires k <= |s| && k <= |t|
  {
    s[..k] + t[k..]
  }

  lemma CopiedNone(s: Words, t: Words) ensures Copied(s, t, 0) == t {}

  lemma CopiedStep(s: Words, t: Words, k: nat)
    requires k < |s| && k < |t|
    ensures |Copied(s, t, k)| == |t| && Copied(s, t, k)[k := s[k]] == Copied(s, t, k + 1)
  {}

  lemma SwapWrites(m: Words, i: int, v: int, j: int, w: int)
    requires 0 <= i < |m| && 0 <= j < |m| && i != j
    ensures m[i := v][j := w] == m[j := w][i := v]
  {}

  // ---- pools

  // The pool's headers are written; its one free block is on no list yet.
  lemma AddPoolInv(st: State, m': Words, first: int, last: int)
    requires Inv(st) && st.F == {} && PoolRoom(st.h, first, last)
    requires last + 1 < |st.m| && (last + 1 < st.nul || st.nul + CONTROL_WORDS <= first + 1)
    requires m' == st.m[first + 1 := Flags(last - first - 1, true, false)]
                       [last := first][last + 1 := Flags(0, false, true)]
    ensures Inv(st.(m := m', h := AddPoolBlocks(st.h, first, last), F := {first}))
    ensures Live(m', AddPoolBlocks(st.h, first, last)) == Live(st.m, st.h)
  {
    var h' := AddPoolBlocks(st.h, first, last);
    AddPoolTiled(st.h, first, last);
    AddPoolTagged(st.m, m', st.nul, st.h, first, last);
    var none: set<int> := {};
    forall x {:trigger Same(st.h, h', none, {first}, x)} | x in st.h || x in h'
      ensures Same(st.h, h', none, {first}, x)
    {}
    FiledStep(st.h, h', none, {first}, st.L);
    forall c {:trigger ListOk(m', st.nul, st.heads, st.L, c)} | 0 <= c < CLASSES
      ensures ListOk(m', st.nul, st.heads, st.L, c)
    {
      assert ListOk(st.m, st.nul, st.heads, st.L, c);
      assert FiledList(st.h, none, c, st.L[c]);
      forall x | x in st.L[c] && 0 <= x && x + 3 < |st.m| ensures m'[x + 2] == st.m[x + 2] && m'[x + 3] == st.m[x + 3] {
        assert Member(st.h, none, c, x);
        assert BlockOk(st.h, x);
        assert Next(st.h, x) <= first || last + 1 <= x;
      }
      LinkedFrame(st.m, m', st.nul, st.L[c]);
    }
    forall c | c in st.h && !st.h[c].free ensures Payload(m', h', c) == Payload(st.m, st.h, c) {
      assert Next(st.h, c) <= first || last + 1 <= c;
    }
  }

  lemma AddPoolTagged(m: Words, m': Words, nul: int, h: Heap, first: int, last: int)
    requires Tiled(h) && Tagged(m, nul, h) && PoolRoom(h, first, last) && first !in h && last !in h
    requires last + 1 < |m| && (last + 1 < nul || nul + CONTROL_WORDS <= first + 1)
    requires m' == m[first + 1 := Flags(last - first - 1, true, false)]
                    [last := first][last + 1 := Flags(0, false, true)]
    ensures Tagged(m', nul, AddPoolBlocks(h, first, last))
  {
    var h' := AddPoolBlocks(h, first, last);
    assert -1 in h ==> BlockOk(h, -1);
    forall c {:trigger TagOk(m', nul, h', c)} | c in h' ensures TagOk(m', nul, h', c) {
      if c in h {
        assert TagOk(m, nul, h, c) && BlockOk(h, c);
        assert Next(h, c) <= first || last + 1 <= c;
        if h[c].prev != -1 { assert Next(h, h[c].prev) <= first || last + 1 <= h[c].prev; }
      }
    }
  }

  // A word outside all blocks and the control structure is nobody's.
  lemma OutsideWrite(st: State, first: int, last: int, v: int)
    requires Inv(st) && Vacancy(st.h, first, last)
    requires last + 1 < |st.m| && (last + 1 < st.nul || st.nul + CONTROL_WORDS <= first + 1)
    ensures Inv(st.(m := st.m[first + 1 := v])) && Live(st.m[first + 1 := v], st.h) == Live(st.m, st.h)
  {
    var m' := st.m[first + 1 := v];
    forall c {:trigger TagOk(m', st.nul, st.h, c)} | c in st.h ensures TagOk(m', st.nul, st.h, c) {
      assert TagOk(st.m, st.nul, st.h, c) && BlockOk(st.h, c);
      assert Next(st.h, c) <= first || last + 1 <= c;
      if st.h[c].prev != -1 { assert Next(st.h, st.h[c].prev) <= first || last + 1 <= st.h[c].prev; }
    }
    forall c {:trigger ListOk(m', st.nul, st.heads, st.L, c)} | 0 <= c < CLASSES
      ensures ListOk(m', st.nul, st.heads, st.L, c)
    {
      assert ListOk(st.m, st.nul, st.heads, st.L, c);
      assert FiledList(st.h, st.F, c, st.L[c]);
      forall x | x in st.L[c] && 0 <= x && x + 3 < |st.m| ensures m'[x + 2] == st.m[x + 2] && m'[x + 3] == st.m[x + 3] {
        assert Member(st.h, st.F, c, x);
        assert BlockOk(st.h, x);
        assert Next(st.h, x) <= first || last + 1 <= x;
      }
      LinkedFrame(st.m, m', st.nul, st.L[c]);
    }
    forall c | c in st.h && !st.h[c].free ensures Payload(m', st.h, c) == Payload(st.m, st.h, c) {
      assert Next(st.h, c) <= first || last + 1 <= c;
    }
  }

  // A pool that is one free block, off the lists, can be forgotten.
  lemma DropPoolInv(st: State, first: int, last: int)
    requires Inv(st) && st.F == {first}
    requires first in st.h && st.h[first].free && st.h[first].prev == -1 && Next(st.h, first) == last && last in st.h
    requires st.h[last].words == 0
    ensures Inv(st.(h := st.h - {first, last}, F := {}))
    ensures Live(st.m, st.h - {first, last}) == Live(st.m, st.h)
  {
    var h' := st.h - {first, last};
    var none: set<int> := {};
    assert BlockOk(st.h, first) && BlockOk(st.h, last);
    DropPoolTiled(st.h, first, last);
    forall c {:trigger TagOk(st.m, st.nul, h', c)} | c in h' ensures TagOk(st.m, st.nul, h', c) {
      assert TagOk(st.m, st.nul, st.h, c) && BlockOk(st.h, c);
    }
    forall x {:trigger Same(st.h, h', {first}, none, x)} | x in st.h || x in h'
      ensures Same(st.h, h', {first}, none, x)
    {}
    FiledStep(st.h, h', {first}, none, st.L);
  }

  // The empty structure of control_construct
  lemma EmptyInv(m: Words, nul: int, heads: seq<int>, sl: seq<bv32>, L: Lists)
    requires 0 < nul && nul + CONTROL_WORDS <= |m| && 8 * |m| <= SIZE_T
    requires |heads| == CLASSES && forall c {:trigger heads[c]} :: 0 <= c < CLASSES ==> heads[c] == nul
    requires |sl| == FL_INDEX_COUNT && forall f {:trigger sl[f]} :: 0 <= f < FL_INDEX_COUNT ==> sl[f] == 0
    requires |L| == CLASSES && forall c {:trigger L[c]} :: 0 <= c < CLASSES ==> L[c] == []
    ensures Inv(State(m, nul, heads, 0, sl, map[], {}, L))
  {
    forall f: nat {:trigger RowOk(sl[f], L, f)} | f < FL_INDEX_COUNT ensures RowOk(sl[f], L, f) {
      hide Bit;
      forall s: nat {:trigger Bit(sl[f], s)} | s < 32 ensures Bit(sl[f], s) <==> L[32 * f + s] != [] { ZeroBit(s); }
    }
    forall f: nat {:trigger Bit(0, f)} | f < 32 ensures !Bit(0, f) { ZeroBit(f); }
    forall c {:trigger ListOk(m, nul, heads, L, c)} | 0 <= c < CLASSES ensures ListOk(m, nul, heads, L, c) {
      assert L[c] == [];
    }
  }

  // The writes of tlsf_add_pool: the block's size word, its links, the sentinel.
  function FirstWritten(m: Words, first: int, last: int): Words
    requires 0 <= first && first + 1 < |m| && first < last
  {
    m[first + 1 := Flags(last - first - 1, true, false)]
  }

  function LinkWritten(m: Words, nul: int, a: int, n: int): Words
    requires Inside(m, a) && Inside(m, n)
  {
    m[a + 2 := n][a + 3 := nul][n + 3 := a]
  }

  function SentinelWritten(m: Words, first: int, last: int): Words
    requires 0 <= last && last + 1 < |m|
  {
    m[last := first][last + 1 := Flags(0, false, true)]
  }

  // The block is inserted before the sentinel is written; the two do not interfere.
  lemma WritesCommute(m: Words, nul: int, first: int, last: int, n: int)
    requires 0 < first && first + 4 <= last && last + 1 < |m| && Inside(m, n) && (n + 3 <= first || last + 1 < n + 3)
    ensures var m1 := FirstWritten(m, first, last);
      SentinelWritten(LinkWritten(m1, nul, first, n), first, last)
      == LinkWritten(SentinelWritten(m1, first, last), nul, first, n)
    ensures var m2 := LinkWritten(FirstWritten(m, first, last), nul, first, n);
      HasNext(m2, first) && NextHeader(m2, first) == last
  {
    FlagOps(last - first - 1, true, false, 0);
    hide Flags, SizeOf;
  }

  lemma AddPoolClass(n: nat)
    requires 8 * n < BLOCK_SIZE_MAX
    ensures var (f, s) := MappingInsert(8 * n); 0 <= f < FL_INDEX_COUNT && 0 <= s < 32 && 32 * f + s == Class(8 * n)
  {
    hide Class, MappingInsert;
    MappingIsClass(8 * n);
    ClassInTable(8 * n);
  }

  lemma AddPoolSteps(st: State, first: int, last: int, f: nat, s: nat)
    requires Inv(st) && st.F == {} && PoolRoom(st.h, first, last)
    requires last + 1 < |st.m| && (last + 1 < st.nul || st.nul + CONTROL_WORDS <= first + 1)
    requires f < FL_INDEX_COUNT && s < 32 && 32 * f + s == Class(8 * (last - first - 1))
    ensures var c := 32 * f + s; var n := st.heads[c];
      && Inside(st.m, first) && Inside(st.m, n) && (n + 3 <= first || last + 1 < n + 3)
      && var m' := LinkWritten(SentinelWritten(FirstWritten(st.m, first, last), first, last), st.nul, first, n);
      && var h' := AddPoolBlocks(st.h, first, last);
      && Inv(st.(m := m', heads := st.heads[c := first], fl := With(st.fl, f), sl := st.sl[f := With(st.sl[f], s)],
                 h := h', L := Put(st.L, c, first)))
      && Live(m', h') == Live(st.m, st.h)
  {
    var c := 32 * f + s;
    hide Class, With, Live, MappingInsert;
    assert |st.heads| == CLASSES;
    HeadOutside(st, c, first, last);
    var m0 := SentinelWritten(FirstWritten(st.m, first, last), first, last);
    AddPoolTiled(st.h, first, last);
    hide Tiled, Tagged, Filed, Chained, Mapped, PoolRoom;
    AddPoolInv(st, m0, first, last);
    var none: set<int> := {};
    assert {first} - {first} == none;
    hide Inv;
    LinkInv(st.(m := m0, h := AddPoolBlocks(st.h, first, last), F := {first}), f, s, first);
  }

  lemma HeadOutside(st: State, c: int, first: int, last: int)
    requires Inv(st) && st.F == {} && PoolRoom(st.h, first, last) && 0 <= c < CLASSES
    requires last + 1 < |st.m| && (last + 1 < st.nul || st.nul + CONTROL_WORDS <= first + 1)
    ensures Inside(st.m, st.heads[c]) && (st.heads[c] + 3 <= first || last + 1 < st.heads[c] + 3)
  {
    hide Class;
    assert ListOk(st.m, st.nul, st.heads, st.L, c);
    if st.L[c] != [] {
      FirstMember(st, c);
      assert BlockOk(st.h, st.heads[c]) && TagOk(st.m, st.nul, st.h, st.heads[c]);
      assert Next(st.h, st.heads[c]) <= first || last + 1 <= st.heads[c];
    }
  }

  lemma HeadOf(st: State, c: int)
    requires Inv(st) && 0 <= c < CLASSES
    ensures st.heads[c] == At(st.L[c], 0, st.nul) && (st.heads[c] == st.nul <==> st.L[c] == [])
  {
    assert ListOk(st.m, st.nul, st.heads, st.L, c);
    ListMembers(st.m, st.nul, st.h, st.F, st.L, c);
  }

  // ---- the promise of tlsf_realloc (tlsf.c:1204-1213) and where it stops

  // The two ranges of sizes that tlsf_realloc neither serves nor refuses: those that adjust_request_size turns down,
  // and those that wrap to the smallest block.
  predicate TurnedDown(size: nat) { BLOCK_SIZE_MAX - 8 < size <= SIZE_T - 8 }
  predicate Wrapped(size: nat) { SIZE_T - 8 < size < SIZE_T }

  // On failure the buffer is untouched; on success the pointer leads to at least size bytes that start with the old
  // contents, as far as both reach, and no other allocation has changed.
  ghost predicate ReallocPromise(l: map<int, Words>, l': map<int, Words>, a: int, r: int, size: nat) {
    if r == 0 then l' == l
    else
      var b := BlockFromPtr(r);
      && a in l && b in l' && (b == a || b !in l) && l' - {b} == l - {a} && 8 * |l'[b]| >= size
      && forall i :: 0 <= i < |l[a]| && 8 * i < size ==> i < |l'[b]| && l'[b][i] == l[a][i]
  }

  // ---- the promise of tlsf_memalign and where it stops

  // tlsf_memalign returns null, or an aligned block of at least size bytes.
  ghost predicate MemalignPromise(h: Heap, p: nat, size: nat, align: nat) {
    p == 0 || (var a := BlockFromPtr(p); a in h && 8 * h[a].words >= size && MultipleOf(p, align))
  }

  // The block has the adjusted request, which is the size unless that wraps.
  ghost predicate HoldsRequest(h: Heap, a: int, size: nat) {
    a in h && 8 * h[a].words >= AdjustRequestSize(size, ALIGN_SIZE)
  }

  // Free block a is allocated from its first word on.
  ghost predicate TakenAsItLies(h: Heap, h': Heap, a: int, s: nat) {
    a in h && h[a].free && Next(h, a) in h && h' == Take(h, a, s)
  }

  // Below the address 2^63 no block reaches it, so none is cut to start there.
  lemma TopLead(a: int, lead: nat, words: nat, length: nat)
    requires 0 < a && 0 < words && a + 1 + words < length && 8 * length <= TOP_ALIGN && LeadAligns(a, lead, TOP_ALIGN)
    ensures lead >= words && 0 < BlockToPtr(a) && BlockToPtr(a) % TOP_ALIGN != 0
  {
    var p := BlockToPtr(a);
    SmallMod(p, TOP_ALIGN);
    if p + 8 * lead < TOP_ALIGN { SmallMod(p + 8 * lead, TOP_ALIGN); }
  }

  // When the promise of tlsf_memalign is kept, in a memory below the address 2^63: the alignment and the size are in
  // range, or the search finds nothing.
  ghost predicate MemalignServed(h: Heap, size: nat, align: nat)
    requires 0 < align
  {
    (align < TOP_ALIGN && size <= SIZE_T - 8) || Refused(h, MemalignRequest(size, align))
  }

  // At the alignment 2^63 the search finds nothing exactly when there is nothing to find.
  lemma TopRefused(h: Heap, size: nat)
    requires Tiled(h) && size < SIZE_T
    ensures Refused(h, MemalignRequest(size, TOP_ALIGN)) <==> AdjustRequestSize(size, ALIGN_SIZE) == 0 || NoneFree(h)
  {
    AdjustGood(size);
    hide AdjustRequestSize, GapRequest, NoneFits, NoneFree, Tiled;
    if AdjustRequestSize(size, ALIGN_SIZE) != 0 {
      WrappedGap(AdjustRequestSize(size, ALIGN_SIZE));
      NoneFitsLeast(h);
    }
  }

  // A size that wraps does not fail: at the alignment 16 any free block of 80 bytes will do.
  lemma WrappedFound(h: Heap, a: int, size: nat)
    requires Wrapped(size) && a in h && h[a].free && 8 * h[a].words >= 80
    ensures MemalignRequest(size, 16) == 80 && !Refused(h, MemalignRequest(size, 16))
  {
    AdjustGood(size);
    assert GapRequest(BLOCK_SIZE_MIN, 16) == 80;
    hide AdjustRequestSize, GapRequest, Rounded;
    SmallRounded(80);
  }

  // lead words behind the payload of block a lies a multiple of align.
  ghost predicate LeadAligns(a: int, lead: nat, align: nat) {
    && (lead == 0 || 4 <= lead) && (align <= ALIGN_SIZE ==> lead == 0) && 8 * lead <= align + 24
    && MultipleOf(BlockToPtr(a) + 8 * lead, align) && LeastGap(BlockToPtr(a), align, 8 * lead)
  }

  // Block a holds the enlarged request, so it is cut if need be, and what is left holds the request.
  lemma MemalignFits(h: Heap, h1: Heap, a: int, r: int, lead: nat, size: nat, align: nat)
    requires a in h && LeadCut(h, h1, a, r, lead) && LeadAligns(a, lead, align)
    requires var s := AdjustRequestSize(size, ALIGN_SIZE);
      GoodSize(s) && (if align > ALIGN_SIZE then s + align + HEADER_SIZE else s) <= 8 * h[a].words
    ensures r in h1 && MultipleOf(BlockToPtr(r), align) && HoldsRequest(h1, r, size)
  {
    hide AdjustRequestSize;
    assert r == a + lead;
  }

  lemma HoldsTaken(h1: Heap, h2: Heap, r: int, size: nat)
    requires GoodSize(AdjustRequestSize(size, ALIGN_SIZE)) && HoldsRequest(h1, r, size) && r in h2
    requires var t := AdjustRequestSize(size, ALIGN_SIZE) / 8; h1[r].words >= t ==> h2[r].words >= t
    ensures HoldsRequest(h2, r, size)
  {
    hide AdjustRequestSize;
  }

  // Up to the alignment 2^62 the located block is large enough for everything.
  lemma MemalignBelow(h: Heap, h1: Heap, h2: Heap, a: int, r: int, lead: nat, size: nat, align: nat)
    requires a in h && LeadCut(h, h1, a, r, lead) && LeadAligns(a, lead, align)
    requires IsPow2(align) && align <= 0x4000_0000_0000_0000 && GoodSize(AdjustRequestSize(size, ALIGN_SIZE))
    requires 0 < MemalignRequest(size, align) <= 8 * h[a].words && r in h2
    requires r in h1 ==> var t := AdjustRequestSize(size, ALIGN_SIZE) / 8; h1[r].words >= t ==> h2[r].words >= t
    ensures MultipleOf(BlockToPtr(r), align) && HoldsRequest(h2, r, size)
  {
    hide AdjustRequestSize, IsPow2, GapRequest, LeadAligns, LeadCut, HoldsRequest;
    if align > ALIGN_SIZE { SizeWithGap(AdjustRequestSize(size, ALIGN_SIZE), align); }
    MemalignFits(h, h1, a, r, lead, size, align);
    HoldsTaken(h1, h2, r, size);
  }

  // At 2^63 no block of a memory below that address can be cut to fit.
  lemma MemalignAbove(h: Heap, h1: Heap, a: int, r: int, lead: nat, align: nat, length: nat)
    requires Tiled(h) && a in h && h[a].free && 0 < a && Next(h, a) < length && 8 * length <= TOP_ALIGN
    requires LeadCut(h, h1, a, r, lead) && LeadAligns(a, lead, align)
    requires IsPow2(align) && 0x4000_0000_0000_0000 < align < SIZE_T
    ensures align == TOP_ALIGN && r == a && h1 == h && 0 < BlockToPtr(r) && BlockToPtr(r) % TOP_ALIGN != 0
  {
    assert BlockOk(h, a);
    hide IsPow2, LeadAligns, Tiled, BlockOk;
    TopAlign(align);
    TopLead(a, lead, h[a].words, length);
  }

  // Block r, cut from free block a of h, is allocated in h2.
  lemma MemalignFound(h: Heap, h1: Heap, h2: Heap, a: int, r: int, lead: nat, size: nat, align: nat, length: nat)
    requires Tiled(h) && Coalesced(h) && a in h && h[a].free && 0 < a && 0 < r && Next(h, a) < length
    requires LeadCut(h, h1, a, r, lead) && LeadAligns(a, lead, align) && IsPow2(align) && align < SIZE_T
    requires size < SIZE_T && GoodSize(AdjustRequestSize(size, ALIGN_SIZE)) && r in h1 && Next(h1, r) in h1
    requires h2 == Take(h1, r, AdjustRequestSize(size, ALIGN_SIZE) / 8)
    requires 0 < MemalignRequest(size, align) <= 8 * h[a].words
    ensures Undoes(h, h2, r) && (r in h ==> h[r].free)
    ensures r in h2 && !h2[r].free && h2[r].words != 0 && Coalesced(h2) && PoolsOf(h2) == PoolsOf(h)
    ensures 8 * h2[r].words < AdjustRequestSize(size, ALIGN_SIZE) + HEADER_SIZE
    ensures align <= 0x4000_0000_0000_0000 ==> MultipleOf(BlockToPtr(r), align) && HoldsRequest(h2, r, size)
    ensures align < TOP_ALIGN || 8 * length <= TOP_ALIGN ==>
      (MemalignPromise(h2, BlockToPtr(r), size, align) <==> align < TOP_ALIGN && size <= SIZE_T - 8)
    ensures 8 * length <= TOP_ALIGN <= align ==>
      TakenAsItLies(h, h2, r, AdjustRequestSize(size, ALIGN_SIZE) / 8) && !MultipleOf(BlockToPtr(r), align)
  {
    MemalignTiling(h, h1, a, r, lead, AdjustRequestSize(size, ALIGN_SIZE) / 8);
    hide AdjustRequestSize, IsPow2, Tiled, Coalesced, Take, Release, PoolsOf, MemalignRequest, LeadAligns, LeadCut;
    hide HoldsRequest;
    if align <= 0x4000_0000_0000_0000 {
      MemalignBelow(h, h1, h2, a, r, lead, size, align);
      EnoughUnwrapped(h2, r, size);
    } else {
      TopAlign(align);
      if 8 * length <= TOP_ALIGN { MemalignAbove(h, h1, a, r, lead, align, length); }
    }
  }

  // A block cut to the adjusted request has size bytes exactly if the size does not wrap.
  lemma EnoughUnwrapped(h: Heap, a: int, size: nat)
    requires size < SIZE_T && GoodSize(AdjustRequestSize(size, ALIGN_SIZE)) && HoldsRequest(h, a, size)
    requires 8 * h[a].words < AdjustRequestSize(size, ALIGN_SIZE) + HEADER_SIZE
    ensures 8 * h[a].words >= size <==> size <= SIZE_T - 8
  {
    AdjustGood(size);
    hide AdjustRequestSize;
  }

  lemma AdjustRanges(size: nat)
    requires 0 < size < SIZE_T
    ensures var s := AdjustRequestSize(size, ALIGN_SIZE);
      && (s == 0 <==> TurnedDown(size)) && (Wrapped(size) ==> s == BLOCK_SIZE_MIN) && (s != 0 ==> GoodSize(s))
      && (size <= BLOCK_SIZE_MAX - 8 ==> s >= size)
  {
    AdjustGood(size);
  }

  lemma PromiseKept(l: map<int, Words>, l': map<int, Words>, a: int, r: int, size: nat, s: nat)
    requires r != 0 && s >= size && s % ALIGN_SIZE == 0 && a in l && BlockFromPtr(r) in l'
    requires 8 * |l'[BlockFromPtr(r)]| >= s
    requires Resized(l, l', a, BlockFromPtr(r), (if 8 * |l[a]| < s then 8 * |l[a]| else s) / 8)
    ensures ReallocPromise(l, l', a, r, size)
  {
    var b := BlockFromPtr(r);
    var k := (if 8 * |l[a]| < s then 8 * |l[a]| else s) / 8;
    forall i | 0 <= i < |l[a]| && 8 * i < size ensures i < |l'[b]| && l'[b][i] == l[a][i] {
      assert i < k;
      assert l'[b][..k][i] == l[a][..k][i];
    }
  }

  lemma NothingMoved(l: map<int, Words>, a: int, size: nat)
    ensures ReallocPromise(l, l, a, 0, size)
  {}

  // No block is as large as a size in one of the two ranges.
  lemma OversizeRealloc(st: State, l: map<int, Words>, a: int, r: int, size: nat)
    requires Inv(st) && size > BLOCK_SIZE_MAX - 8 && r != 0
    ensures !ReallocPromise(l, Live(st.m, st.h), a, r, size)
  {
    hide Inv, MappingInsert, Class, HasNext, NextHeader, SizeOf, IsFree, IsPrevFree, PrevFree, Next;
    var b := BlockFromPtr(r);
    if b in Live(st.m, st.h) {
      HeaderOf(st, b);
      LiveSize(st, b);
    }
  }

  // Bounded waste: if malloc finds nothing, no free block exceeds the request by a 32nd part, and below 256 bytes
  // none reaches it.
  lemma BoundedWaste(h: Heap, size: nat)
    requires GoodSize(size) && NoneFits(h, size)
    ensures forall x ::
      x in h && h[x].free ==> 32 * (8 * h[x].words) < 33 * size && (size < SMALL_BLOCK_SIZE ==> 8 * h[x].words < size)
  {
    hide RoundUp, Class, Least, FirstFit;
    RoundUpClass(size);
    if size < SMALL_BLOCK_SIZE { SmallRounded(size); }
  }
}
