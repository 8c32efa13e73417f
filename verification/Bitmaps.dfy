// The two-level bitmap over the free lists, and its search.
module Bitmaps {
  import opened Bits
  import opened Mapping
  import opened FreeLists

  // ---- the two bitmap levels mirror which lists are empty

  ghost predicate RowOk(sl: bv32, L: Lists, f: nat)
    requires |L| == CLASSES && f < FL_INDEX_COUNT
  {
    forall s: nat {:trigger Bit(sl, s)} :: s < 32 ==> (Bit(sl, s) <==> L[32 * f + s] != [])
  }

  ghost predicate Mapped(fl: bv32, sl: seq<bv32>, L: Lists) {
    && |sl| == FL_INDEX_COUNT && |L| == CLASSES
    && (forall f: nat {:trigger RowOk(sl[f], L, f)} :: f < FL_INDEX_COUNT ==> RowOk(sl[f], L, f))
    && (forall f: nat {:trigger Bit(fl, f)} :: f < 32 ==> (Bit(fl, f) <==> f < FL_INDEX_COUNT && sl[f] != 0))
  }

  // lists of other rows may not change
  ghost predicate SameRows(L: Lists, L': Lists, c: int) {
    |L| == |L'| == CLASSES && 0 <= c < CLASSES && L' == L[c := L'[c]]
  }

  lemma MapSet(fl: bv32, sl: seq<bv32>, L: Lists, L': Lists, f: nat, s: nat)
    requires Mapped(fl, sl, L) && f < FL_INDEX_COUNT && s < 32
    requires SameRows(L, L', 32 * f + s) && L'[32 * f + s] != []
    ensures Mapped(With(fl, f), sl[f := With(sl[f], s)], L')
  {
    hide Bit, With, Minus;
    var sl' := sl[f := With(sl[f], s)];
    SetBit(sl[f], s, s);
    NonZeroBit(sl'[f], s);
    forall g: nat {:trigger RowOk(sl'[g], L', g)} | g < FL_INDEX_COUNT ensures RowOk(sl'[g], L', g) {
      assert RowOk(sl[g], L, g);
      forall t: nat {:trigger Bit(sl'[g], t)} | t < 32 ensures Bit(sl'[g], t) <==> L'[32 * g + t] != [] {
        SetBit(sl[f], s, t);
      }
    }
    forall g: nat {:trigger Bit(With(fl, f), g)} | g < 32
      ensures Bit(With(fl, f), g) <==> g < FL_INDEX_COUNT && sl'[g] != 0
    {
      SetBit(fl, f, g);
    }
  }

  lemma NonZeroBit(w: bv32, s: nat)
    requires s < 32 && Bit(w, s)
    ensures w != 0
  {
    if w == 0 { ZeroBit(s); }
  }

  lemma MapClear(fl: bv32, sl: seq<bv32>, L: Lists, L': Lists, f: nat, s: nat)
    requires Mapped(fl, sl, L) && f < FL_INDEX_COUNT && s < 32
    requires SameRows(L, L', 32 * f + s) && L'[32 * f + s] == []
    ensures var sl' := sl[f := Minus(sl[f], s)];
            Mapped(if sl'[f] == 0 then Minus(fl, f) else fl, sl', L')
  {
    hide Bit, With, Minus;
    var sl' := sl[f := Minus(sl[f], s)];
    forall g: nat {:trigger RowOk(sl'[g], L', g)} | g < FL_INDEX_COUNT ensures RowOk(sl'[g], L', g) {
      assert RowOk(sl[g], L, g);
      forall t: nat {:trigger Bit(sl'[g], t)} | t < 32 ensures Bit(sl'[g], t) <==> L'[32 * g + t] != [] {
        ClearBit(sl[f], s, t);
      }
    }
    var fl' := if sl'[f] == 0 then Minus(fl, f) else fl;
    forall g: nat {:trigger Bit(fl', g)} | g < 32
      ensures Bit(fl', g) <==> g < FL_INDEX_COUNT && sl'[g] != 0
    {
      ClearBit(fl, f, g);
      StillClear(sl[f], s);
    }
  }

  lemma StillClear(w: bv32, s: nat)
    requires s < 32
    ensures w == 0 ==> Minus(w, s) == 0
  {}

  lemma MapSame(fl: bv32, sl: seq<bv32>, L: Lists, L': Lists, c: int)
    requires Mapped(fl, sl, L) && SameRows(L, L', c) && (L[c] == [] <==> L'[c] == [])
    ensures Mapped(fl, sl, L')
  {
    hide Bit;
    forall g: nat {:trigger RowOk(sl[g], L', g)} | g < FL_INDEX_COUNT ensures RowOk(sl[g], L', g) {
      assert RowOk(sl[g], L, g);
    }
  }

  // ---- the bitmap search

  // The lowest bit of w at or above s, if any.
  lemma LowestFrom(w: bv32, s: nat)
    requires s < 32
    ensures AtLeast(w, s) == 0 ==> forall j: nat {:trigger Bit(w, j)} :: s <= j < 32 ==> !Bit(w, j)
    ensures AtLeast(w, s) != 0 ==>
      var k := Ffs(AtLeast(w, s));
      s <= k < 32 && Bit(w, k) && forall j: nat {:trigger Bit(w, j)} :: s <= j < k ==> !Bit(w, j)
  {
    hide Bit, Ffs, AtLeast;
    var v := AtLeast(w, s);
    forall j: nat {:trigger Bit(w, j)} | j < 32 ensures Bit(v, j) <==> Bit(w, j) && s <= j { CutBit(w, s, j); }
    if v == 0 {
      forall j: nat {:trigger Bit(v, j)} | j < 32 ensures !Bit(v, j) { ZeroBit(j); }
    } else {
      FfsLowest(v);
      CutBit(w, s, Ffs(v));
    }
  }

  // First non-empty list at or above c
  ghost predicate FirstFrom(L: Lists, c: int, d: int)
    requires |L| == CLASSES
  {
    0 <= c <= d < CLASSES && L[d] != [] && forall e {:trigger L[e]} :: c <= e < d ==> L[e] == []
  }

  ghost predicate NoneFrom(L: Lists, c: int)
    requires |L| == CLASSES
  {
    forall e {:trigger L[e]} :: 0 <= c <= e < CLASSES ==> L[e] == []
  }

  lemma RowSearch(sl: bv32, L: Lists, f: nat, s: nat)
    requires |L| == CLASSES && f < FL_INDEX_COUNT && s < 32 && RowOk(sl, L, f)
    ensures AtLeast(sl, s) == 0 ==> forall e {:trigger L[e]} :: 32 * f + s <= e < 32 * f + 32 ==> L[e] == []
    ensures AtLeast(sl, s) != 0 ==> 0 <= Ffs(AtLeast(sl, s)) < 32
    ensures AtLeast(sl, s) != 0 ==> FirstFrom(L, 32 * f + s, 32 * f + Ffs(AtLeast(sl, s)))
  {
    hide Bit, Ffs, AtLeast;
    LowestFrom(sl, s);
    forall e {:trigger L[e]} | 32 * f + s <= e < 32 * f + 32
      ensures L[e] != [] <==> Bit(sl, e - 32 * f)
    {
      assert L[e] == L[32 * f + (e - 32 * f)];
    }
  }

  lemma EmptyRows(fl: bv32, sl: seq<bv32>, L: Lists, f: nat, g: nat)
    requires Mapped(fl, sl, L) && f <= g <= FL_INDEX_COUNT
    requires forall j: nat {:trigger Bit(fl, j)} :: f <= j < g ==> !Bit(fl, j)
    ensures forall e {:trigger L[e]} :: 32 * f <= e < 32 * g ==> L[e] == []
  {
    hide Bit;
    forall e {:trigger L[e]} | 32 * f <= e < 32 * g ensures L[e] == [] {
      var j := e / 32;
      assert !Bit(fl, j);
      assert RowOk(sl[j], L, j);
      ZeroBit(e % 32);
      assert L[32 * j + e % 32] == L[e];
    }
  }

  lemma UpperSearch(fl: bv32, sl: seq<bv32>, L: Lists, f: nat)
    requires Mapped(fl, sl, L) && f < FL_INDEX_COUNT
    ensures AtLeast(fl, f + 1) == 0 ==> NoneFrom(L, 32 * f + 32)
    ensures AtLeast(fl, f + 1) != 0 ==>
      var g := Ffs(AtLeast(fl, f + 1));
      f < g < FL_INDEX_COUNT && sl[g] != 0 && 0 <= Ffs(sl[g]) < 32 && FirstFrom(L, 32 * f + 32, 32 * g + Ffs(sl[g]))
  {
    hide Bit, Ffs, AtLeast;
    LowestFrom(fl, f + 1);
    if AtLeast(fl, f + 1) == 0 {
      EmptyRows(fl, sl, L, f + 1, FL_INDEX_COUNT);
    } else {
      var g := Ffs(AtLeast(fl, f + 1));
      assert Bit(fl, g);
      EmptyRows(fl, sl, L, f + 1, g);
      assert RowOk(sl[g], L, g);
      RowSearch(sl[g], L, g, 0);
      AtLeastZero(sl[g]);
    }
  }

  lemma AtLeastZero(w: bv32) ensures AtLeast(w, 0) == w {}
}
