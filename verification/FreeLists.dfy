// The 800 doubly linked free lists.
module FreeLists {
  import opened Blocks
  import opened Mapping
  import opened Bits

  type Lists = seq<seq<int>>

  // ---- one doubly linked list: next_free at word 2 of the header, prev_free at word 3

  function At(l: seq<int>, i: int, nul: int): int {
    if 0 <= i < |l| then l[i] else nul
  }

  ghost predicate LinkOk(m: Words, nul: int, l: seq<int>, i: int)
    requires 0 <= i < |l|
  {
    && 0 <= l[i] && l[i] + 3 < |m|
    && m[l[i] + 2] == At(l, i + 1, nul)
    && m[l[i] + 3] == At(l, i - 1, nul)
  }

  ghost predicate Linked(m: Words, nul: int, l: seq<int>) {
    forall i {:trigger LinkOk(m, nul, l, i)} :: 0 <= i < |l| ==> LinkOk(m, nul, l, i)
  }

  ghost predicate NoDup(l: seq<int>) {
    forall i, j :: 0 <= i < j < |l| ==> l[i] != l[j]
  }

  ghost predicate Far(x: int, y: int) {
    x + 4 <= y || y + 4 <= x
  }

  // The links of different headers, and those of the null block, do not overlap.
  ghost predicate Spread(l: seq<int>, nul: int) {
    && (forall i, j {:trigger Far(l[i], l[j])} :: 0 <= i < |l| && 0 <= j < |l| && i != j ==> Far(l[i], l[j]))
    && (forall i {:trigger Far(l[i], nul)} :: 0 <= i < |l| ==> Far(l[i], nul))
  }

  lemma FarAt(l: seq<int>, nul: int, i: int, j: int)
    requires Spread(l, nul) && 0 <= i < |l| && i != j
    ensures Far(l[i], At(l, j, nul))
  {
    if 0 <= j < |l| { assert Far(l[i], l[j]); } else { assert Far(l[i], nul); }
  }

  ghost predicate Inside(m: Words, x: int) {
    0 <= x && x + 3 < |m|
  }

  lemma LinkedFrame(m: Words, m': Words, nul: int, l: seq<int>)
    requires Linked(m, nul, l) && |m'| == |m|
    requires forall x :: x in l && 0 <= x && x + 3 < |m| ==> m'[x + 2] == m[x + 2] && m'[x + 3] == m[x + 3]
    ensures Linked(m', nul, l)
  {
    forall i {:trigger LinkOk(m', nul, l, i)} | 0 <= i < |l| ensures LinkOk(m', nul, l, i) {
      assert LinkOk(m, nul, l, i);
      assert l[i] in l;
    }
  }

  function Without(l: seq<int>, k: int): seq<int>
    requires 0 <= k < |l|
  {
    l[..k] + l[k + 1..]
  }

  lemma LinkedRemove(m: Words, m': Words, nul: int, l: seq<int>, k: int)
    requires Linked(m, nul, l) && Spread(l, nul) && 0 <= k < |l|
    requires var p, n := At(l, k - 1, nul), At(l, k + 1, nul);
             Inside(m, p) && Inside(m, n) && m' == m[n + 3 := p][p + 2 := n]
    ensures Linked(m', nul, Without(l, k))
  {
    var l' := Without(l, k);
    forall i {:trigger LinkOk(m', nul, l', i)} | 0 <= i < |l'| ensures LinkOk(m', nul, l', i) {
      var j := if i < k then i else i + 1;
      assert LinkOk(m, nul, l, j);
      assert l'[i] == l[j];
      if j != k + 1 { FarAt(l, nul, j, k + 1); }
      if j != k - 1 { FarAt(l, nul, j, k - 1); }
    }
  }

  lemma LinkedInsert(m: Words, m': Words, nul: int, l: seq<int>, a: int)
    requires Linked(m, nul, l) && Spread([a] + l, nul)
    requires var c := At(l, 0, nul);
             Inside(m, a) && Inside(m, c) && m' == m[a + 2 := c][a + 3 := nul][c + 3 := a]
    ensures Linked(m', nul, [a] + l)
  {
    var l' := [a] + l;
    forall i {:trigger LinkOk(m', nul, l', i)} | 0 <= i < |l'| ensures LinkOk(m', nul, l', i) {
      if i > 0 { assert LinkOk(m, nul, l, i - 1); FarAt(l', nul, i, 0); }
      if i != 1 { FarAt(l', nul, i, 1); }
    }
  }

  // writing the links of i leaves the links of x alone
  ghost predicate Misses(x: int, i: int) {
    i + 1 != x && i != x && i != x + 1
  }

  // ---- all lists: 800 heads in row-major order

  function ClassAt(h: Heap, a: int): nat
    requires a in h
  {
    Class(8 * h[a].words)
  }

  ghost predicate ListOk(m: Words, nul: int, heads: seq<int>, L: Lists, c: int)
    requires 0 <= c < |heads| == |L|
  {
    heads[c] == At(L[c], 0, nul) && Linked(m, nul, L[c])
  }

  ghost predicate Chained(m: Words, nul: int, heads: seq<int>, L: Lists) {
    && |heads| == |L| == CLASSES
    && forall c {:trigger ListOk(m, nul, heads, L, c)} :: 0 <= c < CLASSES ==> ListOk(m, nul, heads, L, c)
  }

  // x is filed in the list of its class
  ghost predicate Member(h: Heap, F: set<int>, c: int, x: int) {
    x in h && h[x].free && x !in F && ClassAt(h, x) == c
  }

  ghost predicate FiledList(h: Heap, F: set<int>, c: int, l: seq<int>) {
    NoDup(l) && forall x {:trigger Member(h, F, c, x)} :: x in l ==> Member(h, F, c, x)
  }

  ghost predicate Listed(h: Heap, F: set<int>, L: Lists, x: int)
    requires |L| == CLASSES && x in h
  {
    h[x].free && x !in F ==> ClassAt(h, x) < CLASSES && x in L[ClassAt(h, x)]
  }

  // Every free block outside F is on the list of its class, once, and nothing else is on a list.
  ghost predicate Filed(h: Heap, F: set<int>, L: Lists) {
    && |L| == CLASSES
    && (forall c {:trigger FiledList(h, F, c, L[c])} :: 0 <= c < CLASSES ==> FiledList(h, F, c, L[c]))
    && (forall x {:trigger Listed(h, F, L, x)} :: x in h ==> Listed(h, F, L, x))
  }

  lemma FarBlocks(h: Heap, x: int, y: int)
    requires Tiled(h) && x in h && y in h && x != y && h[x].free && h[y].free
    ensures Far(x, y)
  {
    assert Apart(h, x, y);
    assert Apart(h, y, x);
    assert BlockOk(h, x);
    assert BlockOk(h, y);
  }

  lemma FarNull(m: Words, nul: int, h: Heap, x: int)
    requires Tiled(h) && Tagged(m, nul, h) && x in h && h[x].free
    ensures Far(x, nul) && Inside(m, x)
  {
    assert BlockOk(h, x);
    assert TagOk(m, nul, h, x);
  }

  lemma SpreadList(m: Words, nul: int, h: Heap, F: set<int>, c: int, l: seq<int>)
    requires Tiled(h) && Tagged(m, nul, h) && FiledList(h, F, c, l)
    ensures Spread(l, nul)
    ensures forall x :: x in l ==> Inside(m, x)
  {
    forall i | 0 <= i < |l| ensures Far(l[i], nul) && Inside(m, l[i]) {
      assert l[i] in l;
      assert Member(h, F, c, l[i]);
      FarNull(m, nul, h, l[i]);
    }
    forall i, j {:trigger Far(l[i], l[j])} | 0 <= i < |l| && 0 <= j < |l| && i != j ensures Far(l[i], l[j]) {
      assert Member(h, F, c, l[i]) && Member(h, F, c, l[j]);
      FarBlocks(h, l[i], l[j]);
    }
  }

  function Cut(L: Lists, c: int, k: int): Lists
    requires 0 <= c < |L| && 0 <= k < |L[c]|
  {
    L[c := Without(L[c], k)]
  }

  function Put(L: Lists, c: int, a: int): Lists
    requires 0 <= c < |L|
  {
    L[c := [a] + L[c]]
  }

  lemma CutFiled(h: Heap, F: set<int>, L: Lists, c: int, k: int)
    requires Filed(h, F, L) && 0 <= c < CLASSES && 0 <= k < |L[c]|
    ensures Filed(h, F + {L[c][k]}, Cut(L, c, k))
  {
    var a := L[c][k];
    var F' := F + {a};
    var L' := Cut(L, c, k);
    assert FiledList(h, F, c, L[c]);
    assert Member(h, F, c, a);
    forall d {:trigger FiledList(h, F', d, L'[d])} | 0 <= d < CLASSES ensures FiledList(h, F', d, L'[d]) {
      assert FiledList(h, F, d, L[d]);
      forall x {:trigger Member(h, F', d, x)} | x in L'[d] ensures Member(h, F', d, x) {
        assert Member(h, F, d, x);
      }
    }
    forall x {:trigger Listed(h, F', L', x)} | x in h ensures Listed(h, F', L', x) {
      assert Listed(h, F, L, x);
      if ClassAt(h, x) == c && x in L[c] {
        var i :| 0 <= i < |L[c]| && L[c][i] == x;
        if i < k { assert L'[c][i] == x; } else if i > k { assert L'[c][i - 1] == x; }
      }
    }
  }

  lemma PutFiled(h: Heap, F: set<int>, L: Lists, a: int)
    requires Filed(h, F, L) && a in h && h[a].free && a in F && ClassAt(h, a) < CLASSES
    ensures Filed(h, F - {a}, Put(L, ClassAt(h, a), a))
  {
    var c := ClassAt(h, a);
    var F' := F - {a};
    var L' := Put(L, c, a);
    forall d {:trigger FiledList(h, F', d, L'[d])} | 0 <= d < CLASSES ensures FiledList(h, F', d, L'[d]) {
      assert FiledList(h, F, d, L[d]);
      forall x {:trigger Member(h, F', d, x)} | x in L'[d] ensures Member(h, F', d, x) {
        assert x in L[d] ==> Member(h, F, d, x);
      }
      assert FiledList(h, F, c, L[c]);
      assert a in L[c] ==> Member(h, F, c, a);
    }
    forall x {:trigger Listed(h, F', L', x)} | x in h ensures Listed(h, F', L', x) {
      assert Listed(h, F, L, x);
    }
  }

  lemma ChainedCut(m: Words, m': Words, nul: int, heads: seq<int>, h: Heap, F: set<int>, L: Lists, c: int, k: int)
    requires Tiled(h) && Tagged(m, nul, h) && Filed(h, F, L) && Chained(m, nul, heads, L)
    requires 0 <= c < CLASSES && 0 <= k < |L[c]| && Inside(m, nul)
    requires var p, n := At(L[c], k - 1, nul), At(L[c], k + 1, nul);
             Inside(m, p) && Inside(m, n) && m' == m[n + 3 := p][p + 2 := n]
    ensures Chained(m', nul, heads[c := At(Without(L[c], k), 0, nul)], Cut(L, c, k))
  {
    var heads' := heads[c := At(Without(L[c], k), 0, nul)];
    var L' := Cut(L, c, k);
    assert FiledList(h, F, c, L[c]);
    forall d {:trigger ListOk(m', nul, heads', L', d)} | 0 <= d < CLASSES ensures ListOk(m', nul, heads', L', d) {
      assert ListOk(m, nul, heads, L, d);
      assert FiledList(h, F, d, L[d]);
      if d == c {
        SpreadList(m, nul, h, F, c, L[c]);
        LinkedRemove(m, m', nul, L[c], k);
      } else {
        forall x | x in L[d] ensures Misses(x, At(L[c], k + 1, nul)) && Misses(x, At(L[c], k - 1, nul)) {
          MissesList(m, nul, h, F, L, d, x, c, k + 1);
          MissesList(m, nul, h, F, L, d, x, c, k - 1);
        }
        LinkedFrame(m, m', nul, L[d]);
      }
    }
  }

  lemma MissesList(m: Words, nul: int, h: Heap, F: set<int>, L: Lists, d: int, x: int, c: int, i: int)
    requires Tiled(h) && Tagged(m, nul, h) && Filed(h, F, L)
    requires 0 <= d < CLASSES && 0 <= c < CLASSES && c != d && x in L[d]
    ensures Misses(x, At(L[c], i, nul))
  {
    assert FiledList(h, F, d, L[d]) && FiledList(h, F, c, L[c]);
    assert Member(h, F, d, x);
    FarNull(m, nul, h, x);
    if 0 <= i < |L[c]| {
      assert Member(h, F, c, L[c][i]);
      FarBlocks(h, x, L[c][i]);
    }
  }

  lemma ChainedPut(m: Words, m': Words, nul: int, heads: seq<int>, h: Heap, F: set<int>, L: Lists, a: int)
    requires Tiled(h) && Tagged(m, nul, h) && Filed(h, F, L) && Chained(m, nul, heads, L)
    requires a in h && h[a].free && a in F && ClassAt(h, a) < CLASSES && Inside(m, nul)
    requires var n := heads[ClassAt(h, a)];
             Inside(m, a) && Inside(m, n) && m' == m[a + 2 := n][a + 3 := nul][n + 3 := a]
    ensures Chained(m', nul, heads[ClassAt(h, a) := a], Put(L, ClassAt(h, a), a))
  {
    var c := ClassAt(h, a);
    var heads' := heads[c := a];
    var L' := Put(L, c, a);
    PutFiled(h, F, L, a);
    forall d {:trigger ListOk(m', nul, heads', L', d)} | 0 <= d < CLASSES ensures ListOk(m', nul, heads', L', d) {
      assert ListOk(m, nul, heads, L, d);
      assert ListOk(m, nul, heads, L, c);
      assert FiledList(h, F - {a}, d, L'[d]);
      if d == c {
        SpreadList(m, nul, h, F - {a}, c, [a] + L[c]);
        LinkedInsert(m, m', nul, L[c], a);
      } else {
        forall x | x in L[d] ensures Misses(x, a) && Misses(x, heads[c]) {
          MissesList(m, nul, h, F - {a}, L', d, x, c, 0);
          MissesList(m, nul, h, F - {a}, L', d, x, c, 1);
        }
        LinkedFrame(m, m', nul, L[d]);
      }
    }
  }
}
