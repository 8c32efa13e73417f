// Runs of a client against one allocator.
module Runs {
  import opened Bits
  import opened Bitwise
  import opened Mapping
  import opened Blocks
  import opened FreeLists
  import opened Invariant
  import opened Plans
  import opened Allocator

  // A client keeps its pointers in numbered slots and remembers the pools it has handed over.
  datatype Request =
    | Alloc(slot: nat, size: nat)
    | AllocAligned(slot: nat, log: nat, size: nat)
    | Drop(slot: nat)
    | Resize(slot: nat, size: nat)
    | Put(slot: nat, k: nat, v: int)
    | AddMemory(mem: nat, bytes: nat)
    | TakeBack(mem: nat)

  datatype Cell = Cell(ptr: nat, data: Words)
  type Contents = map<nat, Cell>

  // The client's pools by their first header, and all memory that it has handed over and not taken back
  datatype Ledger = Ledger(pools: map<int, Pool>, lent: set<Pool>)

  // The client's memory, the blocks and free lists behind it, and the client's ledger
  datatype World = World(cells: Contents, plan: Plan, known: Ledger)

  // ---- what a request does

  // Served in full, but for a size that wraps: then there are 24 to 55 bytes
  ghost predicate Holds(c: Cell, size: nat) {
    c.ptr % ALIGN_SIZE == 0 && if Wrapped(size) then 3 <= |c.data| < 7 else 8 * |c.data| >= size
  }

  // The words of the first size bytes, as far as there were any
  ghost predicate Keeps(d: Words, d': Words, size: nat) {
    forall i :: 0 <= i < |d| && 8 * i < size ==> i < |d'| && d'[i] == d[i]
  }

  // Slot s is filled; freeing it would restore the blocks.
  ghost predicate Placed(w: World, s: nat, w': World) {
    && s in w'.cells && w'.cells == w.cells[s := w'.cells[s]] && w'.known == w.known
    && w'.cells[s].ptr % ALIGN_SIZE == 0 && Undoes(w.plan.h, w'.plan.h, BlockFromPtr(w'.cells[s].ptr))
  }

  ghost predicate Dropped(w: World, s: nat, w': World)
    requires s in w.cells
  {
    var a := BlockFromPtr(w.cells[s].ptr);
    && w'.cells == w.cells - {s} && w'.known == w.known
    && Releasing(w.plan, a, w'.plan)
  }

  ghost predicate Moved(w: World, s: nat, w': World) {
    && s in w'.cells && w'.cells == w.cells[s := w'.cells[s]] && w'.known == w.known
    && PoolsOf(w'.plan.h) == PoolsOf(w.plan.h)
  }

  // The block behind slot s has q bytes, alone or with the free block behind it.
  ghost predicate Roomy(w: World, s: nat, q: nat)
    requires s in w.cells
  {
    var a := BlockFromPtr(w.cells[s].ptr);
    a in w.plan.h && FitsInPlace(w.plan.h, a, q)
  }

  // A resized block with room for it stays and is fitted; otherwise another block is taken and it is given back.
  ghost predicate Relaid(pl: Plan, p: nat, p': nat, q: nat, roomy: bool, pl': Plan) {
    if roomy then p' == p && Fitting(pl, BlockFromPtr(p), q / 8, pl')
    else p' != p && Moving(pl, BlockFromPtr(p), q, BlockFromPtr(p'), pl')
  }

  // A size that is turned down: a slot of 24 bytes stays as it is, any other is lost, and its pool falls apart.
  ghost predicate Lost(w: World, s: nat, w': World)
    requires s in w.cells
  {
    var a := BlockFromPtr(w.cells[s].ptr);
    if |w.cells[s].data| == 3 then w' == w
    else
      && w'.cells == w.cells - {s} && w'.known == Elsewhere(w.known, a)
      && Trimming(w.plan, a, 0, w'.plan)
  }

  function Elsewhere(known: Ledger, a: int): Ledger {
    var pools := known.pools;
    known.(pools := map f | f in pools && !(pools[f].first <= a <= pools[f].last) :: pools[f])
  }

  // Memory that tlsf_add_pool makes a pool of; for exactly 2^32 bytes it has no list.
  predicate Accepted(mem: nat, bytes: nat) {
    8 < mem < SIZE_T && bytes < SIZE_T && mem % ALIGN_SIZE == 0 && BLOCK_SIZE_MIN <= PoolBytes(bytes) < BLOCK_SIZE_MAX
  }

  // A pool that the client knows and has nothing in
  predicate Vacant(w: World, first: int) {
    && first in w.known.pools
    && forall s :: s in w.cells ==> !(first <= BlockFromPtr(w.cells[s].ptr) <= w.known.pools[first].last)
  }

  // The pool that a request would add
  function Asked(r: Request): set<Pool> {
    if r.AddMemory? && Accepted(r.mem, r.bytes) then {Pool(PoolFirst(r.mem), PoolLast(r.mem, r.bytes))} else {}
  }

  predicate Beside(p: Pool, q: Pool) {
    p.last + 1 <= q.first || q.last + 1 <= p.first
  }

  predicate AllBeside(ps: set<Pool>, qs: set<Pool>) {
    forall p, q :: p in ps && q in qs ==> Beside(p, q)
  }

  function Added(known: Ledger, p: Pool): Ledger {
    Ledger(known.pools[p.first := p], known.lent + {p})
  }

  function Taken(known: Ledger, first: int): Ledger
    requires first in known.pools
  {
    Ledger(known.pools - {first}, known.lent - {known.pools[first]})
  }

  ghost predicate Step(w: World, r: Request, w': World) {
    match r
    case Alloc(s, size) =>
      if s in w.cells || size >= SIZE_T then w' == w
      else if Refused(w.plan.h, AdjustRequestSize(size, ALIGN_SIZE)) then w' == w
      else
        && Placed(w, s, w') && Holds(w'.cells[s], size)
        && var q := AdjustRequestSize(size, ALIGN_SIZE);
        Placing(w.plan, q, BlockFromPtr(w'.cells[s].ptr), q / 8, w'.plan)
    case AllocAligned(s, log, size) =>
      if s in w.cells || size >= SIZE_T || log >= 64 then w' == w
      else if Refused(w.plan.h, MemalignRequest(size, Pow2(log))) then w' == w
      else
        && Placed(w, s, w') && (log <= 62 || Wrapped(size) ==> Holds(w'.cells[s], size))
        && (log <= 62 ==> w'.cells[s].ptr % Pow2(log) == 0)
        && PlacingAligned(w.plan, MemalignRequest(size, Pow2(log)), Pow2(log), BlockFromPtr(w'.cells[s].ptr),
                          AdjustRequestSize(size, ALIGN_SIZE) / 8, w'.plan)
    case Drop(s) =>
      if s in w.cells then Dropped(w, s, w') else w' == w
    case Resize(s, size) =>
      if s !in w.cells || size >= SIZE_T then w' == w
      else if size == 0 then Dropped(w, s, w')
      else if TurnedDown(size) then Lost(w, s, w')
      else
        var q := AdjustRequestSize(size, ALIGN_SIZE);
        if !Roomy(w, s, q) && Refused(w.plan.h, q) then w' == w
        else
          && Moved(w, s, w') && ResizedCell(w.cells[s], w'.cells[s], size)
          && Relaid(w.plan, w.cells[s].ptr, w'.cells[s].ptr, q, Roomy(w, s, q), w'.plan)
    case Put(s, k, v) =>
      if s in w.cells && k < |w.cells[s].data| then
        w' == w.(cells := w.cells[s := Cell(w.cells[s].ptr, w.cells[s].data[k := v])])
      else w' == w
    case AddMemory(mem, bytes) =>
      if Accepted(mem, bytes) && AllBeside(w.known.lent, Asked(r)) then
        var first, last := PoolFirst(mem), PoolLast(mem, bytes);
        && first + 4 <= last
        && w' == World(w.cells, w'.plan, Added(w.known, Pool(first, last))) && Extending(w.plan, first, last, w'.plan)
      else w' == w
    case TakeBack(mem) =>
      var first := PoolFirst(mem);
      if mem % ALIGN_SIZE == 0 && Vacant(w, first) then
        && w' == World(w.cells, w'.plan, Taken(w.known, first))
        && Withdrawing(w.plan, first, w.known.pools[first].last, w'.plan)
      else w' == w
  }

  // But for the contents of fresh memory a request has one outcome: all addresses, blocks and lists are determined.
  lemma OneOutcome(w: World, r: Request, w1: World, w2: World)
    requires Step(w, r, w1) && Step(w, r, w2)
    ensures w1.plan == w2.plan && w1.known == w2.known && w1.cells.Keys == w2.cells.Keys
    ensures forall s :: s in w1.cells ==> w1.cells[s].ptr == w2.cells[s].ptr
  {
    match r {
      case Alloc(s, size) => OneAlloc(w, s, size, w1, w2);
      case AllocAligned(s, log, size) => OneAligned(w, s, log, size, w1, w2);
      case Resize(s, size) => OneResize(w, s, size, w1, w2);
      case AddMemory(_, _) => OneOther(w, r, w1, w2);
      case TakeBack(_) => OneOther(w, r, w1, w2);
      case Drop(_) => OneOther(w, r, w1, w2);
      case Put(_, _, _) => OneOther(w, r, w1, w2);
    }
    hide *;
  }

  lemma OneOther(w: World, r: Request, w1: World, w2: World)
    requires Step(w, r, w1) && Step(w, r, w2) && !r.Alloc? && !r.AllocAligned? && !r.Resize?
    ensures w1.plan == w2.plan && w1.known == w2.known && w1.cells.Keys == w2.cells.Keys
    ensures forall s :: s in w1.cells ==> w1.cells[s].ptr == w2.cells[s].ptr
  {
    hide Release, Tiled, On, Off, PrevOff, NextOff, AddPoolBlocks, Accepted, Vacant, AllBeside;
  }

  lemma OneAlloc(w: World, s: nat, size: nat, w1: World, w2: World)
    requires Step(w, Alloc(s, size), w1) && Step(w, Alloc(s, size), w2)
    ensures w1.plan == w2.plan && w1.known == w2.known && w1.cells.Keys == w2.cells.Keys
    ensures forall s :: s in w1.cells ==> w1.cells[s].ptr == w2.cells[s].ptr
  {
    hide Refused, Undoes, AdjustRequestSize, Holds, Placing;
    if s !in w.cells && size < SIZE_T && !Refused(w.plan.h, AdjustRequestSize(size, ALIGN_SIZE)) {
      var q := AdjustRequestSize(size, ALIGN_SIZE);
      OnePlace(w.plan, q, BlockFromPtr(w1.cells[s].ptr), BlockFromPtr(w2.cells[s].ptr), q / 8, w1.plan, w2.plan);
    }
  }

  lemma OneAligned(w: World, s: nat, log: nat, size: nat, w1: World, w2: World)
    requires Step(w, AllocAligned(s, log, size), w1) && Step(w, AllocAligned(s, log, size), w2)
    ensures w1.plan == w2.plan && w1.known == w2.known && w1.cells.Keys == w2.cells.Keys
    ensures forall s :: s in w1.cells ==> w1.cells[s].ptr == w2.cells[s].ptr
  {
    hide Refused, Undoes, AdjustRequestSize, MemalignRequest, Pow2, Holds, PlacingAligned;
    if s !in w.cells && size < SIZE_T && log < 64 && !Refused(w.plan.h, MemalignRequest(size, Pow2(log))) {
      OneAlignedPlace(w.plan, MemalignRequest(size, Pow2(log)), Pow2(log), BlockFromPtr(w1.cells[s].ptr),
                      BlockFromPtr(w2.cells[s].ptr), AdjustRequestSize(size, ALIGN_SIZE) / 8, w1.plan, w2.plan);
    }
  }

  lemma OneResize(w: World, s: nat, size: nat, w1: World, w2: World)
    requires Step(w, Resize(s, size), w1) && Step(w, Resize(s, size), w2)
    ensures w1.plan == w2.plan && w1.known == w2.known && w1.cells.Keys == w2.cells.Keys
    ensures forall s :: s in w1.cells ==> w1.cells[s].ptr == w2.cells[s].ptr
  {
    hide Refused, Roomy, AdjustRequestSize, Release, Tiled, On, Off, PrevOff, NextOff, TrimMerge, TrimMergeLists;
    hide Keeps, Absorb, Moving;
    if s in w.cells && 0 < size < SIZE_T && !TurnedDown(size) {
      var a, q := BlockFromPtr(w.cells[s].ptr), AdjustRequestSize(size, ALIGN_SIZE);
      if !Roomy(w, s, q) && !Refused(w.plan.h, q) {
        OneMove(w.plan, a, q, BlockFromPtr(w1.cells[s].ptr), BlockFromPtr(w2.cells[s].ptr), w1.plan, w2.plan);
      }
    }
  }

  // A size that wraps leaves 24 to 55 bytes at the same place; any other is served in full with the old contents.
  ghost predicate ResizedCell(c: Cell, c': Cell, size: nat) {
    if Wrapped(size) then c'.ptr == c.ptr && 3 <= |c'.data| < 7 && |c.data| >= 3 && c'.data[..3] == c.data[..3]
    else Holds(c', size) && Keeps(c.data, c'.data, size)
  }

  // ---- what holds after every request

  // No two allocations overlap.
  ghost predicate Disjoint(c: Contents) {
    forall s, t :: s in c && t in c && s != t ==>
      c[s].ptr + 8 * |c[s].data| <= c[t].ptr || c[t].ptr + 8 * |c[t].data| <= c[s].ptr
  }

  // Every allocation lies inside a pool.
  ghost predicate Contained(pools: set<Pool>, c: Contents) {
    forall s :: s in c ==> exists p :: p in pools && Within(p, c[s])
  }

  ghost predicate Within(p: Pool, c: Cell) {
    8 * (p.first + 2) <= c.ptr && c.ptr + 8 * |c.data| <= 8 * (p.last + 1)
  }

  // The used blocks are exactly those behind the client's slots.
  ghost predicate Backed(c: Contents, h: Heap) {
    && (forall s :: s in c ==> Used(h, BlockFromPtr(c[s].ptr)) && |c[s].data| == h[BlockFromPtr(c[s].ptr)].words)
    && (forall a {:trigger Used(h, a)} :: Used(h, a) ==> exists s :: s in c && c[s].ptr == BlockToPtr(a))
  }

  ghost predicate Used(h: Heap, a: int) {
    a in h && !h[a].free && h[a].words != 0
  }

  ghost predicate Sound(w: World) {
    && Tiled(w.plan.h) && Coalesced(w.plan.h) && Filed(w.plan.h, {}, w.plan.L) && Backed(w.cells, w.plan.h)
    && Disjoint(w.cells) && Contained(PoolsOf(w.plan.h), w.cells) && Known(w.known, w.plan.h)
  }

  // The client's pools are pools in one piece.
  ghost predicate Known(known: Ledger, h: Heap) {
    forall f :: f in known.pools ==>
      var p := known.pools[f]; p.first == f && f in h && h[f].pool == p && p in known.lent
  }

  // Every pool lies inside one of the others.
  ghost predicate Inside(ps: set<Pool>, qs: set<Pool>) {
    forall p :: p in ps ==> exists q :: q in qs && Covers(q, p)
  }

  ghost predicate Covers(q: Pool, p: Pool) { q.first <= p.first && p.last <= q.last }

  // The allocator uses no memory but the pools it had and what the client lends it.
  ghost predicate Bounded(w: World, base: set<Pool>) {
    Inside(PoolsOf(w.plan.h), base + w.known.lent)
  }

  // The client's memory after each of the requests
  ghost predicate Trace(trace: seq<World>, rs: seq<Request>) {
    && |trace| == |rs| + 1
    && (forall i {:trigger rs[i]} :: 0 <= i < |rs| ==> Step(trace[i], rs[i], trace[i + 1]))
    && (forall i {:trigger trace[i]} :: 0 <= i < |trace| ==>
          Sound(trace[i]) && Bounded(trace[i], PoolsOf(trace[0].plan.h)))
  }

  // ---- the client's slots and the live payloads

  // The slots hold the headers of exactly the live allocations; own is the inverse of slots.
  ghost predicate Coupled(slots: map<nat, int>, own: map<int, nat>, l: map<int, Words>) {
    && own.Keys == l.Keys
    && (forall s :: s in slots ==> slots[s] in own && own[slots[s]] == s)
    && (forall a :: a in own ==> own[a] in slots && slots[own[a]] == a && a > 0)
  }

  ghost function View(slots: map<nat, int>, own: map<int, nat>, l: map<int, Words>): Contents
    requires Coupled(slots, own, l)
  {
    map s | s in slots :: Cell(BlockToPtr(slots[s]), l[slots[s]])
  }

  lemma ViewAdd(slots: map<nat, int>, own: map<int, nat>, l: map<int, Words>, s: nat, b: int, l': map<int, Words>,
                n: nat)
    requires Coupled(slots, own, l) && s !in slots && b > 0 && NewlyAllocated(l, l', b, n)
    ensures Coupled(slots[s := b], own[b := s], l')
    ensures View(slots[s := b], own[b := s], l') == View(slots, own, l)[s := Cell(BlockToPtr(b), l'[b])]
  {}

  lemma ViewDrop(slots: map<nat, int>, own: map<int, nat>, l: map<int, Words>, s: nat)
    requires Coupled(slots, own, l) && s in slots
    ensures Coupled(slots - {s}, own - {slots[s]}, l - {slots[s]})
    ensures View(slots - {s}, own - {slots[s]}, l - {slots[s]}) == View(slots, own, l) - {s}
  {}

  lemma ResizedKeys(l: map<int, Words>, l': map<int, Words>, a: int, b: int, k: nat)
    requires Resized(l, l', a, b, k)
    ensures l'.Keys == l.Keys - {a} + {b}
    ensures forall c :: c in l && c != a ==> c in l' && l'[c] == l[c] && c != b
  {
    assert l'.Keys == (l' - {b}).Keys + {b};
    forall c | c in l && c != a ensures c in l' && l'[c] == l[c] && c != b { assert c in l - {a} && c in l' - {b}; }
    forall c | c in l' && c != b ensures c in l && c != a { assert c in l' - {b} && c in l - {a}; }
  }

  lemma ViewChange(slots: map<nat, int>, own: map<int, nat>, l: map<int, Words>, s: nat, b: int, l': map<int, Words>,
                   k: nat)
    requires Coupled(slots, own, l) && s in slots && b > 0 && Resized(l, l', slots[s], b, k)
    ensures Coupled(slots[s := b], (own - {slots[s]})[b := s], l')
    ensures View(slots[s := b], (own - {slots[s]})[b := s], l') == View(slots, own, l)[s := Cell(BlockToPtr(b), l'[b])]
  {
    ResizedKeys(l, l', slots[s], b, k);
    hide Resized;
    ViewMove(slots, own, l, s, b, l');
  }

  lemma ViewMove(slots: map<nat, int>, own: map<int, nat>, l: map<int, Words>, s: nat, b: int, l': map<int, Words>)
    requires Coupled(slots, own, l) && s in slots && b > 0 && l'.Keys == l.Keys - {slots[s]} + {b}
    requires forall c :: c in l && c != slots[s] ==> c in l' && l'[c] == l[c] && c != b
    ensures Coupled(slots[s := b], (own - {slots[s]})[b := s], l')
    ensures View(slots[s := b], (own - {slots[s]})[b := s], l') == View(slots, own, l)[s := Cell(BlockToPtr(b), l'[b])]
  {
    var slots', own' := slots[s := b], (own - {slots[s]})[b := s];
    assert own'.Keys == l'.Keys;
    forall u | u in slots' ensures slots'[u] in own' && own'[slots'[u]] == u { }
    forall a | a in own' ensures own'[a] in slots' && slots'[own'[a]] == a && a > 0 { }
  }

  // ---- the client's pools

  lemma InsideSame(ps: set<Pool>)
    ensures Inside(ps, ps)
  {
    forall p | p in ps ensures exists q :: q in ps && Covers(q, p) { assert Covers(p, p); }
  }

  lemma KnownPool(h: Heap, p: Pool)
    requires Tiled(h) && p in PoolsOf(h)
    ensures p.first in h && h[p.first].pool == p
  {
    var a :| a in h && h[a].pool == p;
    assert BlockOk(h, a);
  }

  lemma KnownKept(known: Ledger, h: Heap, h': Heap)
    requires Known(known, h) && Tiled(h') && forall f :: f in known.pools ==> known.pools[f] in PoolsOf(h')
    ensures Known(known, h')
  {
    hide Tiled, PoolsOf;
    forall f | f in known.pools ensures f in h' && h'[f].pool == known.pools[f] { KnownPool(h', known.pools[f]); }
  }

  lemma KnownSame(known: Ledger, h: Heap, h': Heap)
    requires Known(known, h) && Tiled(h') && PoolsOf(h') == PoolsOf(h)
    ensures Known(known, h')
  {
    forall f | f in known.pools ensures known.pools[f] in PoolsOf(h') { InPools(h, f); }
    KnownKept(known, h, h');
  }

  lemma KnownLost(known: Ledger, h: Heap, a: int)
    requires Known(known, h) && Tiled(h) && Coalesced(h) && a in h && !h[a].free && 4 <= h[a].words
    ensures Known(Elsewhere(known, a), TrimMerge(h, a, 0)) && Inside(PoolsOf(TrimMerge(h, a, 0)), PoolsOf(h))
  {
    PoolsBroken(h, a);
    TrimToNothing(h, a);
    var h', known' := TrimMerge(h, a, 0), Elsewhere(known, a);
    hide TrimMerge;
    assert BlockOk(h, a);
    InPools(h, a);
    forall f | f in known'.pools ensures known'.pools[f] in PoolsOf(h') { InPools(h, f); }
    KnownKept(known', h, h');
    forall p | p in PoolsOf(h') ensures exists q :: q in PoolsOf(h) && Covers(q, p) {
      assert Covers(if p in PoolsOf(h) then p else h[a].pool, p);
    }
  }

  lemma PoolsAdd(h: Heap, first: int, last: int)
    requires Tiled(h) && PoolRoom(h, first, last)
    ensures first !in h && last !in h && PoolsOf(AddPoolBlocks(h, first, last)) == PoolsOf(h) + {Pool(first, last)}
  {
    AddPoolTiled(h, first, last);
    var h' := AddPoolBlocks(h, first, last);
    forall p | p in PoolsOf(h) + {Pool(first, last)} ensures p in PoolsOf(h') {
      var a := if p == Pool(first, last) then first else var c :| c in h && h[c].pool == p; c;
      InPools(h', a);
    }
    forall p | p in PoolsOf(h') ensures p in PoolsOf(h) + {Pool(first, last)} {
      var a :| a in h' && h'[a].pool == p;
      if a in h { InPools(h, a); }
    }
  }

  lemma KnownAdded(known: Ledger, h: Heap, first: int, last: int)
    requires Known(known, h) && first !in h && last !in h && first + 4 <= last
    ensures Known(Added(known, Pool(first, last)), AddPoolBlocks(h, first, last))
  {
    var pools, h' := Added(known, Pool(first, last)).pools, AddPoolBlocks(h, first, last);
    hide AddPoolBlocks;
    forall f | f in pools ensures pools[f].first == f && f in h' && h'[f].pool == pools[f] {
      AddedBlock(h, first, last, f);
    }
  }

  lemma AddedBlock(h: Heap, first: int, last: int, a: int)
    requires first + 4 <= last && first !in h && last !in h && (a in h || a == first)
    ensures a in AddPoolBlocks(h, first, last)
    ensures AddPoolBlocks(h, first, last)[a].pool == if a == first then Pool(first, last) else h[a].pool
  {}

  // What is left of the pools when one of a single block is taken back still lies in what is lent.
  lemma KnownTaken(known: Ledger, h: Heap, first: int, base: set<Pool>)
    requires Known(known, h) && Tiled(h) && first in known.pools && Inside(PoolsOf(h), base + known.lent)
    requires first in h && Next(h, first) == known.pools[first].last
    ensures var h' := h - {first, known.pools[first].last};
      Known(Taken(known, first), h') && Inside(PoolsOf(h'), base + Taken(known, first).lent)
  {
    var p := known.pools[first];
    var h' := h - {first, p.last};
    forall f | f in known.pools && f != first ensures f in h' { assert BlockOk(h, first); }
    forall r | r in PoolsOf(h') ensures exists q :: q in base + Taken(known, first).lent && Covers(q, r) {
      var a :| a in h' && h'[a].pool == r;
      InPools(h, a);
      assert BlockOk(h, a) && Apart(h, first, a);
      var q :| q in base + known.lent && Covers(q, r);
      assert q != p;
    }
  }

  // ---- one request

  ghost predicate Ready(t: Tlsf, slots: map<nat, int>, own: map<int, nat>, known: Ledger)
    reads t, t.words, t.heads, t.sl
  {
    t.Valid() && Coupled(slots, own, Live(t.words[..], t.h)) && Known(known, t.h)
  }

  ghost function WorldOf(t: Tlsf, slots: map<nat, int>, own: map<int, nat>, known: Ledger): World
    reads t, t.words
    requires Coupled(slots, own, Live(t.words[..], t.h))
  {
    World(View(slots, own, Live(t.words[..], t.h)), t.Plan(), known)
  }

  lemma ReadyTiled(t: Tlsf, slots: map<nat, int>, own: map<int, nat>, known: Ledger)
    requires Ready(t, slots, own, known)
    ensures Tiled(t.h) && Coalesced(t.h) && Filed(t.h, {}, t.L)
  {
    hide Inv, Live;
    InvTiled(t.Now({}));
    InvFiled(t.Now({}));
  }

  lemma LiveWords(t: Tlsf, a: int)
    requires t.Valid() && Used(t.h, a)
    ensures a in Live(t.words[..], t.h) && |Live(t.words[..], t.h)[a]| == t.h[a].words >= 3
  {
    hide Inv, Live;
    LiveSize(t.Now({}), a);
  }

  // A slot's pointer is one that the allocator handed out.
  lemma SlotLive(t: Tlsf, slots: map<nat, int>, own: map<int, nat>, known: Ledger, s: nat)
    requires Ready(t, slots, own, known) && s in slots
    ensures t.IsLive(BlockToPtr(slots[s])) && slots[s] > 0 && BlockFromPtr(BlockToPtr(slots[s])) == slots[s]
    ensures slots[s] in Live(t.words[..], t.h) && |Live(t.words[..], t.h)[slots[s]]| == t.h[slots[s]].words >= 3
    ensures s in WorldOf(t, slots, own, known).cells
    ensures WorldOf(t, slots, own, known).cells[s] == Cell(BlockToPtr(slots[s]), Live(t.words[..], t.h)[slots[s]])
  {
    hide t.Valid, Known, Inv, Tiled, Coalesced;
    assert slots[s] in Live(t.words[..], t.h);
    LiveUsed(t.words[..], t.h, slots[s]);
    hide Live;
    LiveWords(t, slots[s]);
  }

  lemma LiveUsed(m: Words, h: Heap, a: int)
    requires a in Live(m, h)
    ensures Used(h, a)
  {}

  lemma PlacedStep(w: World, s: nat, c: Cell, pl: Plan, b: int)
    requires c.ptr == BlockToPtr(b) && Undoes(w.plan.h, pl.h, b)
    ensures Placed(w, s, World(w.cells[s := c], pl, w.known))
  {
    hide Undoes;
  }

  lemma AllocStep(w: World, w': World, r: Request)
    requires r.Alloc? && r.slot !in w.cells && r.size < SIZE_T && Placed(w, r.slot, w')
    requires !Refused(w.plan.h, AdjustRequestSize(r.size, ALIGN_SIZE)) && Fitted(w'.cells[r.slot], r.size)
    requires var q := AdjustRequestSize(r.size, ALIGN_SIZE);
      Placing(w.plan, q, BlockFromPtr(w'.cells[r.slot].ptr), q / 8, w'.plan)
    ensures Step(w, r, w')
  {
    FittedHolds(w'.cells[r.slot], r.size);
    hide AdjustRequestSize, Placed, Refused, Holds, Placing;
  }

  lemma AlignedStep(w: World, w': World, r: Request)
    requires r.AllocAligned? && r.slot !in w.cells && r.size < SIZE_T && r.log < 64 && Placed(w, r.slot, w')
    requires !Refused(w.plan.h, MemalignRequest(r.size, Pow2(r.log)))
    requires w'.cells[r.slot].ptr % ALIGN_SIZE == 0 && |w'.cells[r.slot].data| >= 3
    requires var s := AdjustRequestSize(r.size, ALIGN_SIZE);
      && GoodSize(s) && 8 * |w'.cells[r.slot].data| < s + HEADER_SIZE
      && (r.log <= 62 ==> 8 * |w'.cells[r.slot].data| >= s)
    requires r.log <= 62 ==> MultipleOf(w'.cells[r.slot].ptr, Pow2(r.log))
    requires PlacingAligned(w.plan, MemalignRequest(r.size, Pow2(r.log)), Pow2(r.log),
      BlockFromPtr(w'.cells[r.slot].ptr), AdjustRequestSize(r.size, ALIGN_SIZE) / 8, w'.plan)
    ensures Step(w, r, w')
  {
    AdjustGood(r.size);
    if r.log <= 62 || Wrapped(r.size) { FittedHolds(w'.cells[r.slot], r.size); }
    hide AdjustRequestSize, Placed, Refused, Holds, MemalignRequest, Pow2, Fitted, PlacingAligned;
  }

  // What a new cell has: the adjusted request and less than 32 bytes more
  ghost predicate Fitted(c: Cell, size: nat)
    requires size < SIZE_T
  {
    var s := AdjustRequestSize(size, ALIGN_SIZE);
    c.ptr % ALIGN_SIZE == 0 && GoodSize(s) && s <= 8 * |c.data| < s + HEADER_SIZE
  }

  lemma FittedHolds(c: Cell, size: nat)
    requires size < SIZE_T && Fitted(c, size)
    ensures Holds(c, size)
  {
    AdjustGood(size);
    hide AdjustRequestSize;
  }

  lemma RefusedStep(w: World, r: Request)
    requires match r
      case Alloc(s, size) =>
        s !in w.cells && size < SIZE_T && Refused(w.plan.h, AdjustRequestSize(size, ALIGN_SIZE))
      case AllocAligned(s, log, size) =>
        s !in w.cells && size < SIZE_T && log < 64 && Refused(w.plan.h, MemalignRequest(size, Pow2(log)))
      case Resize(s, size) =>
        && s in w.cells && 0 < size < SIZE_T && !TurnedDown(size)
        && var q := AdjustRequestSize(size, ALIGN_SIZE); !Roomy(w, s, q) && Refused(w.plan.h, q)
      case _ => false
    ensures Step(w, r, w)
  {
    hide AdjustRequestSize, Refused, MemalignRequest, Pow2, Roomy;
  }

  method ServeAlloc(t: Tlsf, slots: map<nat, int>, ghost own: map<int, nat>, ghost known: Ledger, r: Request)
    returns (slots': map<nat, int>, ghost own': map<int, nat>)
    requires r.Alloc? && r.slot !in slots && r.size < SIZE_T && Ready(t, slots, own, known)
    modifies t`fl, t`h, t`L, t.words, t.heads, t.sl
    ensures Ready(t, slots', own', known) && Inside(PoolsOf(t.h), old(PoolsOf(t.h)))
    ensures Step(old(WorldOf(t, slots, own, known)), r, WorldOf(t, slots', own', known))
  {
    ghost var w, l, h := WorldOf(t, slots, own, known), Live(t.words[..], t.h), t.h;
    InsideSame(PoolsOf(t.h));
    hide t.Valid, Live, PoolsOf, Inside, Inv, View, Coupled, Step, Tiled, Known, AdjustRequestSize, Release, Placed;
    hide Refused, OthersStay, Coalesced, Placing;
    slots', own' := slots, own;
    var p := t.Malloc(r.size);
    if p == 0 {
      RefusedStep(w, r);
    } else {
      var b := BlockFromPtr(p);
      slots', own' := slots[r.slot := b], own[b := r.slot];
      ViewAdd(slots, own, l, r.slot, b, Live(t.words[..], t.h), t.h[b].words);
      PlacedStep(w, r.slot, Cell(p, Live(t.words[..], t.h)[b]), t.Plan(), b);
      KnownSame(known, h, t.h);
      AllocStep(w, WorldOf(t, slots', own', known), r);
    }
  }

  method ServeAligned(t: Tlsf, slots: map<nat, int>, ghost own: map<int, nat>, ghost known: Ledger, r: Request)
    returns (slots': map<nat, int>, ghost own': map<int, nat>)
    requires r.AllocAligned? && r.slot !in slots && r.size < SIZE_T && r.log < 64 && Ready(t, slots, own, known)
    modifies t`fl, t`h, t`L, t.words, t.heads, t.sl
    ensures Ready(t, slots', own', known) && Inside(PoolsOf(t.h), old(PoolsOf(t.h)))
    ensures Step(old(WorldOf(t, slots, own, known)), r, WorldOf(t, slots', own', known))
  {
    ghost var w, l, h := WorldOf(t, slots, own, known), Live(t.words[..], t.h), t.h;
    InsideSame(PoolsOf(t.h));
    AlignLog(r.log);
    hide t.Valid, Live, PoolsOf, Inside, Inv, View, Coupled, Step, Tiled, Known, AdjustRequestSize, Release, Placed;
    hide PlacingAligned, Refused, MultipleOf, Coalesced, MemalignRequest, MemalignPromise, TakenAsItLies, Pow2, IsPow2;
    slots', own' := slots, own;
    var p := t.Memalign(Pow2(r.log), r.size);
    if p == 0 {
      RefusedStep(w, r);
    } else {
      var b := BlockFromPtr(p);
      slots', own' := slots[r.slot := b], own[b := r.slot];
      ViewAdd(slots, own, l, r.slot, b, Live(t.words[..], t.h), t.h[b].words);
      PlacedStep(w, r.slot, Cell(p, Live(t.words[..], t.h)[b]), t.Plan(), b);
      KnownSame(known, h, t.h);
      LiveWords(t, b);
      AlignedStep(w, WorldOf(t, slots', own', known), r);
    }
  }

  lemma DropStep(w: World, r: Request, a: int)
    requires (r.Drop? || (r.Resize? && r.size == 0)) && r.slot in w.cells && a == BlockFromPtr(w.cells[r.slot].ptr)
    ensures forall pl: Plan {:trigger Releasing(w.plan, a, pl)} ::
      Releasing(w.plan, a, pl) ==> Step(w, r, World(w.cells - {r.slot}, pl, w.known))
  {
    hide Releasing;
  }

  method ServeDrop(t: Tlsf, slots: map<nat, int>, ghost own: map<int, nat>, ghost known: Ledger, r: Request)
    returns (slots': map<nat, int>, ghost own': map<int, nat>)
    requires (r.Drop? || (r.Resize? && r.size == 0)) && r.slot in slots && Ready(t, slots, own, known)
    modifies t`fl, t`h, t`L, t.words, t.heads, t.sl
    ensures Ready(t, slots', own', known) && Inside(PoolsOf(t.h), old(PoolsOf(t.h)))
    ensures Step(old(WorldOf(t, slots, own, known)), r, WorldOf(t, slots', own', known))
  {
    ghost var w, l, h := WorldOf(t, slots, own, known), Live(t.words[..], t.h), t.h;
    SlotLive(t, slots, own, known, r.slot);
    ReadyTiled(t, slots, own, known);
    InsideSame(PoolsOf(t.h));
    ViewDrop(slots, own, l, r.slot);
    DropStep(w, r, slots[r.slot]);
    hide Live, PoolsOf, Inside, Inv, View, Coupled, Step, Tiled, Known, Release, Coalesced, On, PrevOff, NextOff;
    hide Releasing;
    var p := BlockToPtr(slots[r.slot]);
    if r.Drop? {
      t.Free(p);
    } else {
      var q := t.Realloc(p, 0);
    }
    slots', own' := slots - {r.slot}, own - {slots[r.slot]};
    InvTiled(t.Now({}));
    KnownSame(known, h, t.h);
  }

  method ServePut(t: Tlsf, slots: map<nat, int>, ghost own: map<int, nat>, ghost known: Ledger, r: Request)
    requires r.Put? && r.slot in slots && Ready(t, slots, own, known)
    modifies t.words
    ensures Ready(t, slots, own, known) && PoolsOf(t.h) == old(PoolsOf(t.h))
    ensures Step(old(WorldOf(t, slots, own, known)), r, WorldOf(t, slots, own, known))
  {
    ghost var l := Live(t.words[..], t.h);
    SlotLive(t, slots, own, known, r.slot);
    PutStep(slots, own, l, t.Plan(), known, r);
    hide Live, Inv, View, Coupled, Step, Tiled, PoolsOf, Coalesced, Known;
    var size := t.SizeAt(BlockToPtr(slots[r.slot]));
    if 8 * r.k < size {
      t.Store(slots[r.slot], r.k, r.v);
    }
  }

  lemma PutStep(slots: map<nat, int>, own: map<int, nat>, l: map<int, Words>, pl: Plan, known: Ledger,
                r: Request)
    requires Coupled(slots, own, l) && r.Put? && r.slot in slots
    ensures slots[r.slot] in l
    ensures var w := World(View(slots, own, l), pl, known);
      && (r.k >= |l[slots[r.slot]]| ==> Step(w, r, w))
      && (r.k < |l[slots[r.slot]]| ==>
            var a := slots[r.slot]; var l' := l[a := l[a][r.k := r.v]];
            Coupled(slots, own, l') && Step(w, r, World(View(slots, own, l'), pl, known)))
  {
    var a := slots[r.slot];
    if r.k < |l[a]| {
      var l' := l[a := l[a][r.k := r.v]];
      assert View(slots, own, l') == View(slots, own, l)[r.slot := Cell(BlockToPtr(a), l[a][r.k := r.v])];
    }
  }

  // The cell of a resized slot: its words are d', the first of them those of d.
  lemma CellResized(c: Cell, c': Cell, size: nat, k: nat)
    requires 0 < size < SIZE_T && !TurnedDown(size) && c'.ptr % ALIGN_SIZE == 0 && |c.data| >= 3
    requires var s := AdjustRequestSize(size, ALIGN_SIZE);
      8 * |c'.data| >= s && k == (if 8 * |c.data| < s then 8 * |c.data| else s) / 8
    requires k <= |c.data| && k <= |c'.data| && c'.data[..k] == c.data[..k]
    requires Wrapped(size) ==> c'.ptr == c.ptr && |c'.data| < 7
    ensures ResizedCell(c, c', size)
  {
    AdjustRanges(size);
    hide AdjustRequestSize;
    if !Wrapped(size) {
      forall i | 0 <= i < |c.data| && 8 * i < size ensures i < |c'.data| && c'.data[i] == c.data[i] {
        assert i < k;
        assert c'.data[..k][i] == c.data[..k][i];
      }
    }
  }

  lemma MovedStep(w: World, r: Request, c: Cell, pl: Plan)
    requires r.Resize? && r.slot in w.cells && 0 < r.size < SIZE_T && !TurnedDown(r.size)
    requires PoolsOf(pl.h) == PoolsOf(w.plan.h) && ResizedCell(w.cells[r.slot], c, r.size)
    requires var q := AdjustRequestSize(r.size, ALIGN_SIZE);
      && (Roomy(w, r.slot, q) || !Refused(w.plan.h, q))
      && Relaid(w.plan, w.cells[r.slot].ptr, c.ptr, q, Roomy(w, r.slot, q), pl)
    ensures Step(w, r, World(w.cells[r.slot := c], pl, w.known))
  {
    hide PoolsOf, ResizedCell, Refused, Roomy, AdjustRequestSize, Relaid;
  }

  // The number of words that a resized allocation keeps
  function KeptWords(words: nat, size: nat): nat
    requires size < SIZE_T
  {
    var s := AdjustRequestSize(size, ALIGN_SIZE);
    (if 8 * words < s then 8 * words else s) / 8
  }

  // What becomes of allocation a when it is resized, and where it is then
  ghost predicate Carried(l: map<int, Words>, l': map<int, Words>, pl: Plan, pl': Plan, a: int, size: nat, q: nat)
    requires size < SIZE_T
  {
    var s, b := AdjustRequestSize(size, ALIGN_SIZE), BlockFromPtr(q);
    && q % ALIGN_SIZE == 0 && b > 0 && a > 0 && a in l && |l[a]| >= 3 && a in pl.h
    && Resized(l, l', a, b, KeptWords(|l[a]|, size)) && 8 * |l'[b]| >= s && PoolsOf(pl'.h) == PoolsOf(pl.h)
    && (Wrapped(size) ==> q == BlockToPtr(a) && |l'[b]| < 7)
    && (FitsInPlace(pl.h, a, s) || !Refused(pl.h, s))
    && Relaid(pl, BlockToPtr(a), q, s, FitsInPlace(pl.h, a, s), pl')
  }

  lemma ResizeStep(slots: map<nat, int>, own: map<int, nat>, l: map<int, Words>, l': map<int, Words>, pl: Plan,
                   pl': Plan, known: Ledger, r: Request, q: nat)
    requires Coupled(slots, own, l) && r.Resize? && r.slot in slots && 0 < r.size < SIZE_T && !TurnedDown(r.size)
    requires Carried(l, l', pl, pl', slots[r.slot], r.size, q)
    ensures var b := BlockFromPtr(q); var slots', own' := slots[r.slot := b], (own - {slots[r.slot]})[b := r.slot];
      && Coupled(slots', own', l')
      && Step(World(View(slots, own, l), pl, known), r, World(View(slots', own', l'), pl', known))
  {
    hide Step, PoolsOf, ResizedCell, AdjustRequestSize, Refused, FitsInPlace, Relaid;
    var b, k := BlockFromPtr(q), KeptWords(|l[slots[r.slot]]|, r.size);
    ViewChange(slots, own, l, r.slot, b, l', k);
    var w := World(View(slots, own, l), pl, known);
    var c := Cell(q, l'[b]);
    CellResized(w.cells[r.slot], c, r.size, k);
    MovedStep(w, r, c, pl');
  }

  // A resize of a live allocation that is not turned down
  method Reallocate(t: Tlsf, a: int, size: nat) returns (q: nat)
    requires t.Valid() && a in Live(t.words[..], t.h) && |Live(t.words[..], t.h)[a]| == t.h[a].words >= 3
    requires t.IsLive(BlockToPtr(a)) && a > 0 && 0 < size < SIZE_T && !TurnedDown(size)
    modifies t`fl, t`h, t`L, t.words, t.heads, t.sl
    ensures t.Valid() && PoolsOf(t.h) == old(PoolsOf(t.h))
    ensures q == 0 ==> t.Plan() == old(t.Plan()) && Live(t.words[..], t.h) == old(Live(t.words[..], t.h))
    ensures q == 0 ==> var s := AdjustRequestSize(size, ALIGN_SIZE);
      a in t.h && !FitsInPlace(t.h, a, s) && Refused(t.h, s)
    ensures q != 0 ==>
      Carried(old(Live(t.words[..], t.h)), Live(t.words[..], t.h), old(t.Plan()), t.Plan(), a, size, q)
  {
    ghost var l, pl := Live(t.words[..], t.h), t.Plan();
    PtrBack(a);
    hide BlockToPtr, BlockFromPtr, Wrapped, TurnedDown;
    hide t.Valid, Live, PoolsOf, Inv, AdjustRequestSize, Refused, Release, ReallocPromise, FitsInPlace, Resized;
    hide Fitting, Moving, Placing, Releasing, Trimming, Undoes, OthersStay, TrimMerge, Carried;
    q := t.Realloc(BlockToPtr(a), size);
    if q != 0 {
      LiveWords(t, BlockFromPtr(q));
      CarriedIs(l, Live(t.words[..], t.h), pl, t.Plan(), a, size, q);
    }
  }

  lemma PtrBack(a: int)
    requires a > 0
    ensures BlockFromPtr(BlockToPtr(a)) == a && BlockToPtr(a) > 0
  {}

  lemma CarriedIs(l: map<int, Words>, l': map<int, Words>, pl: Plan, pl': Plan, a: int, size: nat, q: nat)
    requires 0 < size < SIZE_T && q % ALIGN_SIZE == 0 && BlockFromPtr(q) > 0 && a > 0 && a in l && a in pl.h
    requires 3 <= |l[a]| == pl.h[a].words && PoolsOf(pl'.h) == PoolsOf(pl.h)
    requires var s := AdjustRequestSize(size, ALIGN_SIZE);
      && Resized(l, l', a, BlockFromPtr(q), (if 8 * pl.h[a].words < s then 8 * pl.h[a].words else s) / 8)
      && 8 * |l'[BlockFromPtr(q)]| >= s && (q == BlockToPtr(a) <==> FitsInPlace(pl.h, a, s))
      && (FitsInPlace(pl.h, a, s) || !Refused(pl.h, s))
      && if q == BlockToPtr(a) then Fitting(pl, a, s / 8, pl') else Moving(pl, a, s, BlockFromPtr(q), pl')
    requires Wrapped(size) ==> q == BlockToPtr(a) && |l'[BlockFromPtr(q)]| < 7
    ensures Carried(l, l', pl, pl', a, size, q)
  {
    hide AdjustRequestSize, Refused, FitsInPlace, Resized, Fitting, Moving, PoolsOf;
  }

  method ServeResize(t: Tlsf, slots: map<nat, int>, ghost own: map<int, nat>, ghost known: Ledger, r: Request)
    returns (slots': map<nat, int>, ghost own': map<int, nat>)
    requires r.Resize? && r.slot in slots && 0 < r.size < SIZE_T && !TurnedDown(r.size) && Ready(t, slots, own, known)
    modifies t`fl, t`h, t`L, t.words, t.heads, t.sl
    ensures Ready(t, slots', own', known) && Inside(PoolsOf(t.h), old(PoolsOf(t.h)))
    ensures Step(old(WorldOf(t, slots, own, known)), r, WorldOf(t, slots', own', known))
  {
    ghost var w, l, h := WorldOf(t, slots, own, known), Live(t.words[..], t.h), t.h;
    SlotLive(t, slots, own, known, r.slot);
    InsideSame(PoolsOf(t.h));
    hide Live, PoolsOf, Inside, Inv, View, Coupled, Step, Tiled, Known, Coalesced, AdjustRequestSize, Refused;
    hide FitsInPlace, Carried;
    slots', own' := slots, own;
    var q := Reallocate(t, slots[r.slot], r.size);
    InvTiled(t.Now({}));
    if q == 0 {
      RefusedStep(w, r);
    } else {
      var b := BlockFromPtr(q);
      slots', own' := slots[r.slot := b], (own - {slots[r.slot]})[b := r.slot];
      ResizeStep(slots, own, l, Live(t.words[..], t.h), w.plan, t.Plan(), known, r, q);
      KnownSame(known, h, t.h);
    }
  }

  lemma LostStep(w: World, r: Request, a: int)
    requires r.Resize? && r.slot in w.cells && TurnedDown(r.size) && a == BlockFromPtr(w.cells[r.slot].ptr)
    requires a in w.plan.h && w.plan.h[a].words == |w.cells[r.slot].data|
    ensures forall pl: Plan {:trigger Trimming(w.plan, a, 0, pl)} :: Trimming(w.plan, a, 0, pl) ==>
      if |w.cells[r.slot].data| == 3 then pl == w.plan && Step(w, r, w)
      else Step(w, r, World(w.cells - {r.slot}, pl, Elsewhere(w.known, a)))
  {
    hide Tiled, Elsewhere, MergeNext, Shortened, On, NextOff;
  }

  // The client of a request that was turned down finds its block gone, unless it had the smallest size.
  method ServeLost(t: Tlsf, slots: map<nat, int>, ghost own: map<int, nat>, known: Ledger, r: Request)
    returns (slots': map<nat, int>, ghost own': map<int, nat>, known': Ledger)
    requires r.Resize? && r.slot in slots && TurnedDown(r.size) && Ready(t, slots, own, known)
    modifies t`fl, t`h, t`L, t.words, t.heads, t.sl
    ensures Ready(t, slots', own', known') && known'.lent == known.lent && Inside(PoolsOf(t.h), old(PoolsOf(t.h)))
    ensures Step(old(WorldOf(t, slots, own, known)), r, WorldOf(t, slots', own', known'))
  {
    ghost var w, l, h := WorldOf(t, slots, own, known), Live(t.words[..], t.h), t.h;
    SlotLive(t, slots, own, known, r.slot);
    ReadyTiled(t, slots, own, known);
    InsideSame(PoolsOf(t.h));
    LostStep(w, r, slots[r.slot]);
    ViewDrop(slots, own, l, r.slot);
    if h[slots[r.slot]].words != 3 { KnownLost(known, h, slots[r.slot]); }
    hide Live, PoolsOf, Inside, Inv, View, Coupled, Step, Tiled, Known, Coalesced, AdjustRequestSize, Refused;
    hide Release, ReallocPromise, FitsInPlace, Elsewhere, TrimMergeLists, Fitting, Moving, Placing, Releasing;
    var p := BlockToPtr(slots[r.slot]);
    var size := t.SizeAt(p);
    slots', own', known' := slots, own, known;
    var q := t.Realloc(p, r.size);
    if size != BLOCK_SIZE_MIN {
      slots', own', known' := slots - {r.slot}, own - {slots[r.slot]}, Elsewhere(known, slots[r.slot]);
    }
  }

  // ---- memory handed over and taken back

  // The memory lies in the address space, outside the control structure.
  ghost predicate Addressable(length: nat, nul: int, ps: set<Pool>) {
    forall p :: p in ps ==> p.last + 1 < length && (p.last + 1 < nul || nul + CONTROL_WORDS <= p.first + 1)
  }

  lemma StillBeside(ps: set<Pool>, qs: set<Pool>, a: set<Pool>, b: set<Pool>)
    requires Inside(ps, qs + a) && AllBeside(qs, b) && AllBeside(a, b)
    ensures AllBeside(ps, b)
  {
    forall p, x | p in ps && x in b ensures Beside(p, x) {
      var q :| q in qs + a && Covers(q, p);
      assert Beside(q, x);
    }
  }

  lemma RoomBeside(h: Heap, r: Request)
    requires Tiled(h) && r.AddMemory? && Accepted(r.mem, r.bytes) && AllBeside(PoolsOf(h), Asked(r))
    ensures PoolRoom(h, PoolFirst(r.mem), PoolLast(r.mem, r.bytes))
  {
    var first, last := PoolFirst(r.mem), PoolLast(r.mem, r.bytes);
    PoolBytesFit(r.bytes);
    hide PoolBytes;
    forall a {:trigger Next(h, a)} | a in h ensures Next(h, a) <= first || last + 1 <= a {
      InPools(h, a);
      assert BlockOk(h, a) && Beside(h[a].pool, Pool(first, last));
      if h[a].words != 0 { assert BlockOk(h, Next(h, a)); }
    }
  }

  lemma AddStep(w: World, r: Request)
    requires r.AddMemory? && Accepted(r.mem, r.bytes) && AllBeside(w.known.lent, Asked(r))
    ensures var first, last := PoolFirst(r.mem), PoolLast(r.mem, r.bytes);
      && first + 4 <= last
      && forall pl: Plan {:trigger Extending(w.plan, first, last, pl)} ::
           Extending(w.plan, first, last, pl) ==> Step(w, r, World(w.cells, pl, Added(w.known, Pool(first, last))))
  {
    PoolBytesFit(r.bytes);
    hide AddPoolBlocks, PoolBytes, On, Asked, AllBeside, Added;
  }

  // All that adding the pool needs and gives
  lemma AddFacts(w: World, r: Request, length: nat, nul: int, base: set<Pool>)
    requires r.AddMemory? && Accepted(r.mem, r.bytes) && Tiled(w.plan.h) && Known(w.known, w.plan.h)
    requires Inside(PoolsOf(w.plan.h), base + w.known.lent)
    requires AllBeside(base, Asked(r)) && AllBeside(w.known.lent, Asked(r)) && Addressable(length, nul, Asked(r))
    ensures var first, last := PoolFirst(r.mem), PoolLast(r.mem, r.bytes);
      && PoolRoom(w.plan.h, first, last) && first + 4 <= last && last + 1 < length
      && (last + 1 < nul || nul + CONTROL_WORDS <= first + 1)
      && var h', known' := AddPoolBlocks(w.plan.h, first, last), Added(w.known, Pool(first, last));
      && Known(known', h') && Inside(PoolsOf(h'), base + known'.lent)
      && forall pl: Plan {:trigger Extending(w.plan, first, last, pl)} ::
           Extending(w.plan, first, last, pl) ==> Step(w, r, World(w.cells, pl, known'))
  {
    hide *;
    var first, last := PoolFirst(r.mem), PoolLast(r.mem, r.bytes);
    AskedPool(r, length, nul);
    StillBeside(PoolsOf(w.plan.h), base, w.known.lent, Asked(r));
    RoomBeside(w.plan.h, r);
    AddStep(w, r);
    PoolsAdd(w.plan.h, first, last);
    KnownAdded(w.known, w.plan.h, first, last);
    InsideAdded(PoolsOf(w.plan.h), base, w.known, Pool(first, last));
  }

  lemma InsideAdded(ps: set<Pool>, base: set<Pool>, known: Ledger, p: Pool)
    requires Inside(ps, base + known.lent)
    ensures Inside(ps + {p}, base + Added(known, p).lent)
  {
    assert Covers(p, p);
    forall r | r in ps + {p} ensures exists q :: q in base + Added(known, p).lent && Covers(q, r) {
      if r in ps {
        var q :| q in base + known.lent && Covers(q, r);
        assert q in base + Added(known, p).lent;
      }
    }
  }

  lemma AskedPool(r: Request, length: nat, nul: int)
    requires r.AddMemory? && Accepted(r.mem, r.bytes) && Addressable(length, nul, Asked(r))
    ensures var first, last := PoolFirst(r.mem), PoolLast(r.mem, r.bytes);
      Asked(r) == {Pool(first, last)} && last + 1 < length && (last + 1 < nul || nul + CONTROL_WORDS <= first + 1)
  {
    assert Pool(PoolFirst(r.mem), PoolLast(r.mem, r.bytes)) in Asked(r);
  }

  method ServeAdd(t: Tlsf, slots: map<nat, int>, ghost own: map<int, nat>, known: Ledger, r: Request,
                  ghost base: set<Pool>)
    returns (known': Ledger)
    requires r.AddMemory? && Accepted(r.mem, r.bytes) && Ready(t, slots, own, known)
    requires Inside(PoolsOf(t.h), base + known.lent) && Addressable(t.words.Length, t.nul, Asked(r))
    requires AllBeside(base, Asked(r)) && AllBeside(known.lent, Asked(r))
    modifies t`fl, t`h, t`L, t.words, t.heads, t.sl
    ensures Ready(t, slots, own, known') && Inside(PoolsOf(t.h), base + known'.lent)
    ensures Step(old(WorldOf(t, slots, own, known)), r, WorldOf(t, slots, own, known'))
  {
    ReadyTiled(t, slots, own, known);
    AddFacts(WorldOf(t, slots, own, known), r, t.words.Length, t.nul, base);
    hide Live, PoolsOf, Inside, Inv, View, Coupled, Tiled, Known, Coalesced, AddPoolBlocks, PoolRoom, PoolBytes, Step;
    hide AllBeside, Asked, Addressable, Added;
    var pool, defined := t.AddPool(r.mem, r.bytes);
    known' := Added(known, Pool(PoolFirst(r.mem), PoolLast(r.mem, r.bytes)));
  }

  method ServeTake(t: Tlsf, slots: map<nat, int>, ghost own: map<int, nat>, known: Ledger, r: Request,
                   ghost base: set<Pool>)
    returns (known': Ledger)
    requires r.TakeBack? && Ready(t, slots, own, known) && Inside(PoolsOf(t.h), base + known.lent)
    requires r.mem % ALIGN_SIZE == 0 && Vacant(WorldOf(t, slots, own, known), PoolFirst(r.mem))
    modifies t`fl, t`h, t`L, t.words, t.heads, t.sl
    ensures Ready(t, slots, own, known') && Inside(PoolsOf(t.h), base + known'.lent)
    ensures Step(old(WorldOf(t, slots, own, known)), r, WorldOf(t, slots, own, known'))
  {
    ReadyTiled(t, slots, own, known);
    VacantFree(t, slots, own, known, PoolFirst(r.mem));
    KnownTaken(known, t.h, PoolFirst(r.mem), base);
    hide Live, PoolsOf, Inside, Inv, View, Coupled, Tiled, Known, Coalesced, Taken;
    t.RemovePool(r.mem);
    known' := Taken(known, PoolFirst(r.mem));
  }

  // Every used block is behind a slot.
  lemma UsedSlot(t: Tlsf, slots: map<nat, int>, own: map<int, nat>, known: Ledger, a: int)
    requires Ready(t, slots, own, known) && Used(t.h, a)
    ensures a in own && own[a] in WorldOf(t, slots, own, known).cells
    ensures WorldOf(t, slots, own, known).cells[own[a]].ptr == BlockToPtr(a)
  {
    hide Inv;
    assert a in Live(t.words[..], t.h);
  }

  // A pool with nothing in it is one free block.
  lemma VacantFree(t: Tlsf, slots: map<nat, int>, own: map<int, nat>, known: Ledger, first: int)
    requires Ready(t, slots, own, known) && Vacant(WorldOf(t, slots, own, known), first)
    ensures first in t.h && t.h[first].free && t.h[first].prev == -1 && Next(t.h, first) == known.pools[first].last
    ensures var p := known.pools[first]; p.last in t.h && t.h[p.last].words == 0 && t.h[p.last].pool == p
  {
    ReadyTiled(t, slots, own, known);
    hide t.Valid, Live, View, Coupled;
    var p := known.pools[first];
    forall a | a in t.h && t.h[a].pool == p && t.h[a].words != 0 ensures t.h[a].free {
      assert BlockOk(t.h, a);
      if Used(t.h, a) { UsedSlot(t, slots, own, known, a); }
    }
    assert BlockOk(t.h, first);
    AllFreed(t.h, p);
    assert BlockOk(t.h, p.last);
  }

  // ---- any request

  // Requests that change nothing because they cannot be made: a slot that is full or empty as the case may be, a number
  // that is no size, memory that makes no pool or is lent already, a pool that is unknown or in use
  ghost predicate NotMade(w: World, r: Request) {
    match r
    case Alloc(s, size) => s in w.cells || size >= SIZE_T
    case AllocAligned(s, log, size) => s in w.cells || size >= SIZE_T || log >= 64
    case Drop(s) => s !in w.cells
    case Resize(s, size) => s !in w.cells || size >= SIZE_T
    case Put(s, k, _) => s !in w.cells
    case AddMemory(mem, bytes) => !Accepted(mem, bytes) || !AllBeside(w.known.lent, Asked(r))
    case TakeBack(mem) => mem % ALIGN_SIZE != 0 || !Vacant(w, PoolFirst(mem))
  }

  lemma NoStep(w: World, r: Request)
    requires NotMade(w, r)
    ensures Step(w, r, w)
  {}

  lemma InsideTwice(ps: set<Pool>, qs: set<Pool>, rs: set<Pool>)
    requires Inside(ps, qs) && Inside(qs, rs)
    ensures Inside(ps, rs)
  {
    forall p | p in ps ensures exists r :: r in rs && Covers(r, p) {
      var q :| q in qs && Covers(q, p);
      var r :| r in rs && Covers(r, q);
      assert Covers(r, p);
    }
  }

  lemma SlotCells(t: Tlsf, slots: map<nat, int>, own: map<int, nat>, known: Ledger)
    requires Ready(t, slots, own, known)
    ensures var w := WorldOf(t, slots, own, known);
      && w.known == known && w.cells.Keys == slots.Keys
      && forall s :: s in slots ==> BlockFromPtr(w.cells[s].ptr) == slots[s]
  {
    hide t.Valid, Live;
  }

  method ServeSlot(t: Tlsf, slots: map<nat, int>, ghost own: map<int, nat>, known: Ledger, r: Request)
    returns (slots': map<nat, int>, ghost own': map<int, nat>, known': Ledger)
    requires !r.AddMemory? && !r.TakeBack? && Ready(t, slots, own, known)
    modifies t`fl, t`h, t`L, t.words, t.heads, t.sl
    ensures Ready(t, slots', own', known') && known'.lent == known.lent && Inside(PoolsOf(t.h), old(PoolsOf(t.h)))
    ensures Step(old(WorldOf(t, slots, own, known)), r, WorldOf(t, slots', own', known'))
  {
    SlotCells(t, slots, own, known);
    InsideSame(PoolsOf(t.h));
    if NotMade(WorldOf(t, slots, own, known), r) { NoStep(WorldOf(t, slots, own, known), r); }
    hide t.Valid, Live, PoolsOf, View, Coupled, Step, Inside, Known, Ready, TurnedDown, Vacant, Accepted;
    slots', own', known' := slots, own, known;
    match r {
      case Alloc(s, size) =>
        if s !in slots && size < SIZE_T { slots', own' := ServeAlloc(t, slots, own, known, r); }
      case AllocAligned(s, log, size) =>
        if s !in slots && size < SIZE_T && log < 64 { slots', own' := ServeAligned(t, slots, own, known, r); }
      case Drop(s) =>
        if s in slots { slots', own' := ServeDrop(t, slots, own, known, r); }
      case Resize(s, size) =>
        if s in slots && size < SIZE_T {
          if size == 0 {
            slots', own' := ServeDrop(t, slots, own, known, r);
          } else if TurnedDown(size) {
            slots', own', known' := ServeLost(t, slots, own, known, r);
          } else {
            slots', own' := ServeResize(t, slots, own, known, r);
          }
        }
      case Put(s, _, _) =>
        if s in slots { ServePut(t, slots, own, known, r); }
    }
  }

  // base holds the pools that were there before the client came.
  method Serve(t: Tlsf, slots: map<nat, int>, ghost own: map<int, nat>, known: Ledger, r: Request,
               ghost base: set<Pool>)
    returns (slots': map<nat, int>, ghost own': map<int, nat>, known': Ledger)
    requires Ready(t, slots, own, known) && Inside(PoolsOf(t.h), base + known.lent)
    requires AllBeside(base, Asked(r)) && Addressable(t.words.Length, t.nul, Asked(r))
    modifies t`fl, t`h, t`L, t.words, t.heads, t.sl
    ensures Ready(t, slots', own', known') && Inside(PoolsOf(t.h), base + known'.lent)
    ensures Step(old(WorldOf(t, slots, own, known)), r, WorldOf(t, slots', own', known'))
  {
    ghost var w, ps := WorldOf(t, slots, own, known), PoolsOf(t.h);
    SlotCells(t, slots, own, known);
    if NotMade(w, r) { NoStep(w, r); }
    hide t.Valid, Live, PoolsOf, View, Coupled, Step, Inside, AllBeside, Addressable, Asked, Known, Accepted, Ready;
    slots', own', known' := slots, own, known;
    match r {
      case AddMemory(mem, bytes) =>
        if Accepted(mem, bytes) && AllBeside(known.lent, Asked(r)) {
          known' := ServeAdd(t, slots, own, known, r, base);
        }
      case TakeBack(mem) =>
        var first := PoolFirst(mem);
        if mem % ALIGN_SIZE == 0 && first in known.pools
           && forall s :: s in slots ==> !(first <= slots[s] <= known.pools[first].last) {
          known' := ServeTake(t, slots, own, known, r, base);
        }
      case _ =>
        slots', own', known' := ServeSlot(t, slots, own, known, r);
        InsideTwice(PoolsOf(t.h), ps, base + known.lent);
    }
  }

  // ---- all requests

  // Live payloads do not overlap.
  lemma LiveApart(t: Tlsf, a: int, b: int)
    requires t.Valid() && Used(t.h, a) && Used(t.h, b) && a < b
    ensures a + 2 + t.h[a].words < b + 2
  {
    assert Apart(t.h, a, b);
  }

  lemma WorldDisjoint(t: Tlsf, slots: map<nat, int>, own: map<int, nat>, known: Ledger)
    requires Ready(t, slots, own, known)
    ensures Disjoint(WorldOf(t, slots, own, known).cells)
  {
    var c := WorldOf(t, slots, own, known).cells;
    SlotCells(t, slots, own, known);
    hide Live, View, Coupled, Inv;
    forall s, u | s in c && u in c && s != u
      ensures c[s].ptr + 8 * |c[s].data| <= c[u].ptr || c[u].ptr + 8 * |c[u].data| <= c[s].ptr
    {
      SlotLive(t, slots, own, known, s);
      SlotLive(t, slots, own, known, u);
      SlotsDiffer(slots, own, Live(t.words[..], t.h), s, u);
      if slots[s] < slots[u] { LiveApart(t, slots[s], slots[u]); } else { LiveApart(t, slots[u], slots[s]); }
    }
  }

  lemma SlotsDiffer(slots: map<nat, int>, own: map<int, nat>, l: map<int, Words>, s: nat, u: nat)
    requires Coupled(slots, own, l) && s in slots && u in slots && s != u
    ensures slots[s] != slots[u]
  {}

  lemma WorldContained(t: Tlsf, slots: map<nat, int>, own: map<int, nat>, known: Ledger)
    requires Ready(t, slots, own, known)
    ensures Contained(PoolsOf(t.h), WorldOf(t, slots, own, known).cells)
  {
    var c := WorldOf(t, slots, own, known).cells;
    ReadyTiled(t, slots, own, known);
    SlotCells(t, slots, own, known);
    hide Live, View, Coupled, t.Valid;
    forall s | s in c ensures exists p :: p in PoolsOf(t.h) && Within(p, c[s]) {
      var a := slots[s];
      SlotLive(t, slots, own, known, s);
      assert BlockOk(t.h, a) && BlockOk(t.h, Next(t.h, a));
      InPools(t.h, a);
      assert Within(t.h[a].pool, c[s]);
    }
  }

  lemma WorldBacked(t: Tlsf, slots: map<nat, int>, own: map<int, nat>, known: Ledger)
    requires Ready(t, slots, own, known)
    ensures Backed(WorldOf(t, slots, own, known).cells, t.h)
  {
    var c := WorldOf(t, slots, own, known).cells;
    SlotCells(t, slots, own, known);
    hide Live, View, Coupled, t.Valid;
    forall s | s in c ensures Used(t.h, BlockFromPtr(c[s].ptr)) && |c[s].data| == t.h[BlockFromPtr(c[s].ptr)].words {
      SlotLive(t, slots, own, known, s);
    }
    forall a {:trigger Used(t.h, a)} | Used(t.h, a) ensures exists s :: s in c && c[s].ptr == BlockToPtr(a) {
      UsedSlot(t, slots, own, known, a);
    }
  }

  lemma WorldSound(t: Tlsf, slots: map<nat, int>, own: map<int, nat>, known: Ledger)
    requires Ready(t, slots, own, known)
    ensures Sound(WorldOf(t, slots, own, known))
  {
    ReadyTiled(t, slots, own, known);
    WorldDisjoint(t, slots, own, known);
    WorldContained(t, slots, own, known);
    WorldBacked(t, slots, own, known);
    hide Live, View, Coupled, t.Valid, Tiled, Coalesced, Disjoint, Contained, Backed, Known;
  }

  // The memory that the client will hand over lies apart from the pools there are and from the control structure.
  ghost predicate Handed(t: Tlsf, rs: seq<Request>)
    reads t
  {
    && (forall i :: 0 <= i < |rs| ==> Addressable(t.words.Length, t.nul, Asked(rs[i])))
    && (forall i :: 0 <= i < |rs| ==> AllBeside(PoolsOf(t.h), Asked(rs[i])))
  }

  // Every run: the allocator stays consistent, every request does to the client's memory what it promises and
  // nothing else, and once nothing is live every pool is one free block again.
  method Run(t: Tlsf, rs: seq<Request>) returns (ghost trace: seq<World>)
    requires t.Valid() && Live(t.words[..], t.h) == map[] && Handed(t, rs)
    modifies t`fl, t`h, t`L, t.words, t.heads, t.sl
    ensures t.Valid() && Trace(trace, rs)
    ensures trace[0] == World(map[], old(t.Plan()), Ledger(map[], {})) && trace[|rs|].plan == t.Plan()
    ensures trace[|rs|].cells == map[] ==> AllOneBlock(t.h)
  {
    EmptyView();
    hide t.Valid, Live, PoolsOf, View, Coupled, Step, Sound, Inside, AllBeside, Addressable, Asked, Known;
    var slots: map<nat, int> := map[];
    ghost var own: map<int, nat> := map[];
    var known := Ledger(map[], {});
    ghost var base := PoolsOf(t.h);
    InsideSame(base);
    assert base + known.lent == base;
    trace := [WorldOf(t, slots, own, known)];
    WorldSound(t, slots, own, known);
    for i := 0 to |rs|
      invariant Ready(t, slots, own, known) && Inside(PoolsOf(t.h), base + known.lent)
      invariant Trace(trace, rs[..i]) && trace[0] == World(map[], old(t.Plan()), Ledger(map[], {}))
      invariant trace[i] == WorldOf(t, slots, own, known)
    {
      ghost var before := trace;
      slots, own, known := Serve(t, slots, own, known, rs[i], base);
      WorldSound(t, slots, own, known);
      trace := trace + [WorldOf(t, slots, own, known)];
      TraceStep(before, rs[..i], rs[i], trace[i + 1]);
      assert rs[..i + 1] == rs[..i] + [rs[i]];
    }
    assert rs[..|rs|] == rs;
    if trace[|rs|].cells == map[] { NothingLeft(t, slots, own, known); }
  }

  lemma TraceStep(trace: seq<World>, rs: seq<Request>, r: Request, w: World)
    requires Trace(trace, rs) && Step(trace[|rs|], r, w) && Sound(w) && Bounded(w, PoolsOf(trace[0].plan.h))
    ensures Trace(trace + [w], rs + [r])
  {
    hide Step, Sound, Bounded;
    var trace', rs' := trace + [w], rs + [r];
    forall i {:trigger rs'[i]} | 0 <= i < |rs'| ensures Step(trace'[i], rs'[i], trace'[i + 1]) {
      if i < |rs| { assert rs'[i] == rs[i]; }
    }
  }

  lemma EmptyView()
    ensures Coupled(map[], map[], map[]) && View(map[], map[], map[]) == map[]
    ensures forall h {:trigger Known(Ledger(map[], {}), h)} :: Known(Ledger(map[], {}), h)
  {}

  lemma NothingLeft(t: Tlsf, slots: map<nat, int>, own: map<int, nat>, known: Ledger)
    requires Ready(t, slots, own, known) && WorldOf(t, slots, own, known).cells == map[]
    ensures AllOneBlock(t.h)
  {
    ReadyTiled(t, slots, own, known);
    SlotCells(t, slots, own, known);
    assert slots == map[];
    assert Live(t.words[..], t.h) == map[] by { hide Live, t.Valid; }
    hide t.Valid, Live;
    NothingLive(t.words[..], t.h);
  }
}
