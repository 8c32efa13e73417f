// The SSDT that dsdt_fix.c builds from two lists of device paths.
module Ssdt {
  import opened Bytes
  import opened Aml
  import opened AmlGrammar

  // The segments of a device's absolute path, root first
  type Path = seq<Seg>

  ghost predicate ValidPath(p: Path) { ValidName(Absolute(p)) }

  // ---- lists of encoded names

  lemma {:induction false} WriteSegsSnoc(segs: seq<Seg>, i: nat)
    requires i < |segs|
    ensures WriteSegs(segs[..i + 1]) == WriteSegs(segs[..i]) + segs[i]
  {
    if i == 0 {
      assert segs[..1] == [segs[0]] && segs[..1][1..] == [];
    } else {
      WriteSegsSnoc(segs[1..], i - 1);
      assert segs[..i + 1][1..] == segs[1..][..i] && segs[..i][1..] == segs[1..][..i - 1];
      assert segs[1..][..i - 1 + 1] == segs[1..][..i];
    }
  }

  lemma {:induction false} WriteSegsLength(segs: seq<Seg>)
    requires forall i {:trigger segs[i]} :: 0 <= i < |segs| ==> |segs[i]| == 4
    ensures |WriteSegs(segs)| == 4 * |segs|
  {
    if segs != [] { WriteSegsLength(segs[1..]); }
  }

  // memcpy(buf + at, names, 4 * depth): the segments lie one behind the other
  method CopySegs(buf: array<Byte>, at: nat, segs: seq<Seg>)
    requires forall i {:trigger segs[i]} :: 0 <= i < |segs| ==> |segs[i]| == 4
    requires at + 4 * |segs| <= buf.Length
    modifies buf
    ensures |WriteSegs(segs)| == 4 * |segs| && buf[..] == Splice(old(buf[..]), at, WriteSegs(segs))
  {
    for i := 0 to |segs|
      invariant |WriteSegs(segs[..i])| == 4 * i && buf[..] == Splice(old(buf[..]), at, WriteSegs(segs[..i]))
    {
      WriteSegsSnoc(segs, i);
      SpliceSplice(old(buf[..]), at, WriteSegs(segs[..i]), segs[i]);
      CopyInto(buf, at + 4 * i, segs[i]);
    }
    assert segs[..|segs|] == segs;
  }

  class DevpathNode {
    var next: DevpathNode?
    const name: seq<Byte>

    constructor (name: seq<Byte>)
      ensures next == null && this.name == name
    {
      next := null;
      this.name := name;
    }
  }

  ghost function Nexts(nodes: seq<DevpathNode>): (r: seq<DevpathNode?>)
    reads nodes
    ensures |r| == |nodes|
  {
    seq(|nodes|, i requires 0 <= i < |nodes| reads nodes => nodes[i].next)
  }

  // Where a walk from head stands after i steps
  ghost function WalkTo(head: DevpathNode?, nexts: seq<DevpathNode?>, i: nat): DevpathNode?
    requires i <= |nexts|
  {
    if i == 0 then head else nexts[i - 1]
  }

  // A walk from head meets nodes one after the other, then null.
  ghost predicate Linked(head: DevpathNode?, nexts: seq<DevpathNode?>, nodes: seq<DevpathNode>) {
    && |nexts| == |nodes|
    && forall i :: 0 <= i <= |nodes| ==> WalkTo(head, nexts, i) == if i < |nodes| then nodes[i] else null
  }

  // One node more at the end
  lemma Longer(head: DevpathNode, nexts: seq<DevpathNode?>, nodes: seq<DevpathNode>, node: DevpathNode)
    requires nodes != [] && Linked(head, nexts, nodes)
    ensures Linked(head, nexts[..|nexts| - 1] + [node, null], nodes + [node])
  {
    var more := nexts[..|nexts| - 1] + [node, null];
    forall i | 0 <= i <= |nodes| + 1
      ensures WalkTo(head, more, i) == if i <= |nodes| then (nodes + [node])[i] else null
    {
      if i < |nodes| { assert WalkTo(head, nexts, i) == nodes[i]; }
    }
  }

  ghost function Names(nodes: seq<DevpathNode>): (r: seq<seq<Byte>>)
    ensures |r| == |nodes|
  {
    seq(|nodes|, i requires 0 <= i < |nodes| => nodes[i].name)
  }

  class DevpathList {
    var head: DevpathNode?
    ghost var nodes: seq<DevpathNode>
    ghost var paths: seq<Path>

    ghost predicate Valid()
      reads this, nodes
    {
      Linked(head, Nexts(nodes), nodes) && Encoded(Names(nodes), paths)
    }

    constructor ()
      ensures Valid() && paths == [] && nodes == []
    {
      head := null;
      nodes := [];
      paths := [];
    }

    // Where a walk through the list stands after i steps
    ghost function At(i: nat): DevpathNode?
      requires i <= |nodes|
      reads this, nodes
    {
      WalkTo(head, Nexts(nodes), i)
    }

    // One step of a walk
    lemma Walk(i: nat)
      requires Valid() && i <= |nodes|
      ensures At(i) == null <==> i == |nodes|
      ensures i == 0 ==> At(i) == head
      ensures i < |nodes| ==> At(i) == nodes[i] && nodes[i].next == At(i + 1)
      ensures i < |nodes| ==> Names(nodes)[i] == nodes[i].name
    {
      hide Encoded;
      assert WalkTo(head, Nexts(nodes), i) == if i < |nodes| then nodes[i] else null;
    }

    method Count() returns (n: nat)
      requires Valid()
      ensures n == |nodes|
    {
      hide Encoded;
      n := 0;
      var node := head;
      while node != null
        invariant n <= |nodes| && node == At(n)
        decreases |nodes| - n
      {
        n := n + 1;
        node := node.next;
      }
    }

    // devpath_list_append_uacpi_object_names
    method Append(path: Path)
      requires Valid() && ValidPath(path)
      modifies this, nodes
      ensures Valid() && paths == old(paths) + [path]
      ensures |nodes| == |old(nodes)| + 1 && nodes[..|old(nodes)|] == old(nodes) && fresh(nodes[|old(nodes)|])
    {
      hide WriteName, ValidName, Encoded, Names, Linked;
      var name := NameString(path);
      var node := new DevpathNode(name);
      OneMore(nodes, node, paths, path);
      Link(node);
      nodes := nodes + [node];
      paths := paths + [path];
    }

    // Hangs node behind the last node.
    method Link(node: DevpathNode)
      requires Linked(head, Nexts(nodes), nodes) && node !in nodes && node.next == null
      modifies this`head, nodes
      ensures Linked(head, Nexts(nodes + [node]), nodes + [node])
    {
      ghost var nexts := Nexts(nodes);
      assert WalkTo(head, nexts, 0) == head;
      if head == null {
        head := node;
      } else {
        var last := Last();
        assert forall i :: 0 <= i < |nodes| ==> WalkTo(head, nexts, i + 1) == nodes[i].next;
        last.next := node;
        Longer(head, nexts, nodes, node);
        assert Nexts(nodes + [node]) == nexts[..|nexts| - 1] + [node, null];
      }
    }

    // The end of the list
    method Last() returns (last: DevpathNode)
      requires Linked(head, Nexts(nodes), nodes) && head != null
      ensures nodes != [] && last == nodes[|nodes| - 1]
    {
      last := head;
      ghost var i := 0;
      assert WalkTo(head, Nexts(nodes), 0) == head;
      while last.next != null
        invariant 0 <= i < |nodes| && last == nodes[i]
        decreases |nodes| - i
      {
        assert WalkTo(head, Nexts(nodes), i + 1) == last.next;
        last := last.next;
        i := i + 1;
      }
      assert WalkTo(head, Nexts(nodes), i + 1) == last.next;
    }
  }

  lemma OneMore(nodes: seq<DevpathNode>, node: DevpathNode, paths: seq<Path>, path: Path)
    requires Encoded(Names(nodes), paths) && ValidPath(path) && node.name == WriteName(Absolute(path))
    ensures Encoded(Names(nodes + [node]), paths + [path])
  {
    hide WriteName, ValidPath;
    assert Names(nodes + [node]) == Names(nodes) + [node.name];
  }

  // RootChar and a DualNamePath or a MultiNamePath
  method NameString(path: Path) returns (r: seq<Byte>)
    requires ValidPath(path)
    ensures r == WriteName(Absolute(path))
  {
    SegLengths(path);
    hide WriteSegs, IsSeg, ValidName, ValidPath;
    var depth := |path|;
    if depth == 2 {
      var name := new Byte[10](_ => 0);
      name[0], name[1] := 0x5c, 0x2e;
      assert name[..2] == [0x5c, 0x2e];
      CopySegs(name, 2, path);
      r := name[..];
    } else {
      var name := new Byte[3 + depth * 4](_ => 0);
      name[0], name[1], name[2] := 0x5c, 0x2f, depth;
      assert name[..3] == [0x5c, 0x2f, depth];
      CopySegs(name, 3, path);
      r := name[..];
    }
  }

  lemma SegLengths(path: Path)
    requires ValidPath(path)
    ensures 1 <= |path| <= 255 && |WriteSegs(path)| == 4 * |path|
    ensures forall i {:trigger path[i]} :: 0 <= i < |path| ==> |path[i]| == 4
  {
    WriteSegsLength(path);
  }

  ghost predicate Encoded(names: seq<seq<Byte>>, paths: seq<Path>) {
    && |names| == |paths|
    && (forall i {:trigger paths[i]} :: 0 <= i < |paths| ==> ValidPath(paths[i]))
    && (forall i {:trigger names[i]} :: 0 <= i < |names| ==> names[i] == WriteName(Absolute(paths[i])))
  }

  // ---- the tree

  function ExternalNode(name: seq<Byte>): Node {
    Tree(EXTERNAL_OP, [Data(name), Data([0x06]), Data([0x00])])
  }

  function HexDigit(d: nat): Byte
    requires d < 16
  {
    if d < 10 then 0x30 + d else 0x41 + d - 10
  }

  // DIXY%04X
  function HidText(index: nat): seq<Byte>
    requires index < 0x10000
  {
    [0x44, 0x49, 0x58, 0x59,
     HexDigit(index / 0x1000), HexDigit(index / 0x100 % 0x10), HexDigit(index / 0x10 % 0x10), HexDigit(index % 0x10)]
  }

  const HID: Seg := [0x5f, 0x48, 0x49, 0x44]
  const STA: Seg := [0x5f, 0x53, 0x54, 0x41]

  function HidNode(name: seq<Byte>, index: nat): Node
    requires index < 0x10000
  {
    Tree(SCOPE_OP, [Data(name), Data([0x08] + HID + [0x0d] + HidText(index) + [0x00])])
  }

  function StaNode(name: seq<Byte>): Node {
    Tree(SCOPE_OP, [Data(name), Data([0x08] + STA + [0x00])])
  }

  function Externals(names: seq<seq<Byte>>): (r: seq<Node>)
    ensures |r| == |names|
  {
    seq(|names|, i requires 0 <= i < |names| => ExternalNode(names[i]))
  }

  function Hids(names: seq<seq<Byte>>): (r: seq<Node>)
    requires |names| < 0xffff
    ensures |r| == |names|
  {
    seq(|names|, i requires 0 <= i < |names| => HidNode(names[i], i + 1))
  }

  function Stas(names: seq<seq<Byte>>): (r: seq<Node>)
    ensures |r| == |names|
  {
    seq(|names|, i requires 0 <= i < |names| => StaNode(names[i]))
  }

  function IfZero(missing: seq<seq<Byte>>, offline: seq<seq<Byte>>): Node {
    Tree(IF_OP, [Tree(ZERO_OP, [])] + Externals(missing) + Externals(offline))
  }

  function Root(missing: seq<seq<Byte>>, offline: seq<seq<Byte>>): Node
    requires |missing| < 0xffff
  {
    Tree(ROOT, [IfZero(missing, offline)] + Hids(missing) + Stas(offline))
  }

  lemma IfZeroIs(mn: seq<seq<Byte>>, on: seq<seq<Byte>>)
    ensures IfZero(mn, on) == Tree(IF_OP, [Tree(ZERO_OP, [])] + Externals(mn) + Externals(on))
  {}

  lemma RootIs(mn: seq<seq<Byte>>, on: seq<seq<Byte>>)
    requires |mn| < 0xffff
    ensures Root(mn, on) == Tree(ROOT, [IfZero(mn, on)] + Hids(mn) + Stas(on))
  {}

  // The children arrays are filled through running indices; their lengths are 16 bits wide.
  method BuildTree(missing: DevpathList, offline: DevpathList, missingCount: nat, offlineCount: nat)
    returns (root: Node)
    requires missing.Valid() && offline.Valid() && 1 + missingCount + offlineCount < 0x10000
    requires missingCount == |missing.nodes| && offlineCount == |offline.nodes|
    ensures root == Root(Names(missing.nodes), Names(offline.nodes))
  {
    hide Names, Hids, Stas, IfZero, Root, Encoded, Linked, WalkTo, DevpathList.Valid, DevpathList.At;
    ghost var mn, on := Names(missing.nodes), Names(offline.nodes);
    var children := new Node[1 + missingCount + offlineCount](_ => Null);
    var rootIndex := 0;
    children[rootIndex] := BuildExternals(missing, offline, missingCount, offlineCount);
    rootIndex := rootIndex + 1;
    assert children[..1] == [IfZero(mn, on)];
    rootIndex := AddHids(children, rootIndex, missing);
    assert children[..rootIndex] == [IfZero(mn, on)] + Hids(mn);
    rootIndex := AddStas(children, rootIndex, offline);
    assert children[..rootIndex] == [IfZero(mn, on)] + Hids(mn) + Stas(on);
    assert children[..] == children[..rootIndex];
    root := Tree(ROOT, children[..]);
    RootIs(mn, on);
  }

  method AddHids(children: array<Node>, start: nat, list: DevpathList) returns (index: nat)
    requires list.Valid() && start + |list.nodes| <= children.Length && |list.nodes| < 0xffff
    modifies children
    ensures index == start + |list.nodes|
    ensures children[..index] == old(children[..start]) + Hids(Names(list.nodes))
  {
    hide Names, HidNode, DevpathList.Valid, DevpathList.At;
    ghost var names := Names(list.nodes);
    index := start;
    var hidIndex := 1;
    var node := list.head;
    list.Walk(0);
    while node != null
      invariant start <= index <= start + |names| && hidIndex == 1 + index - start && node == list.At(index - start)
      invariant list.Valid() && children[..index] == old(children[..start]) + Hids(names)[..index - start]
      decreases start + |names| - index
    {
      list.Walk(index - start);
      children[index] := HidNode(node.name, hidIndex);
      hidIndex := hidIndex + 1;
      index := index + 1;
      node := node.next;
    }
    list.Walk(index - start);
  }

  method AddStas(children: array<Node>, start: nat, list: DevpathList) returns (index: nat)
    requires list.Valid() && start + |list.nodes| <= children.Length
    modifies children
    ensures index == start + |list.nodes|
    ensures children[..index] == old(children[..start]) + Stas(Names(list.nodes))
  {
    hide Names, StaNode, DevpathList.Valid, DevpathList.At;
    ghost var names := Names(list.nodes);
    index := start;
    var node := list.head;
    list.Walk(0);
    while node != null
      invariant start <= index <= start + |names| && node == list.At(index - start)
      invariant list.Valid() && children[..index] == old(children[..start]) + Stas(names)[..index - start]
      decreases start + |names| - index
    {
      list.Walk(index - start);
      children[index] := StaNode(node.name);
      index := index + 1;
      node := node.next;
    }
    list.Walk(index - start);
  }

  method AddExternals(children: array<Node>, start: nat, list: DevpathList) returns (index: nat)
    requires list.Valid() && start + |list.nodes| <= children.Length
    modifies children
    ensures index == start + |list.nodes|
    ensures children[..index] == old(children[..start]) + Externals(Names(list.nodes))
  {
    hide Names, ExternalNode, DevpathList.Valid, DevpathList.At;
    ghost var names := Names(list.nodes);
    index := start;
    var node := list.head;
    list.Walk(0);
    while node != null
      invariant start <= index <= start + |names| && node == list.At(index - start)
      invariant list.Valid() && children[..index] == old(children[..start]) + Externals(names)[..index - start]
      decreases start + |names| - index
    {
      list.Walk(index - start);
      children[index] := ExternalNode(node.name);
      index := index + 1;
      node := node.next;
    }
    list.Walk(index - start);
  }

  method BuildExternals(missing: DevpathList, offline: DevpathList, missingCount: nat, offlineCount: nat)
    returns (r: Node)
    requires missing.Valid() && offline.Valid() && 1 + missingCount + offlineCount < 0x10000
    requires missingCount == |missing.nodes| && offlineCount == |offline.nodes|
    ensures r == IfZero(Names(missing.nodes), Names(offline.nodes))
  {
    hide Names, Externals, IfZero, Encoded, Linked, WalkTo, DevpathList.Valid, DevpathList.At;
    ghost var mn, on := Names(missing.nodes), Names(offline.nodes);
    var children := new Node[1 + missingCount + offlineCount](_ => Null);
    var index := 0;
    children[index] := Tree(ZERO_OP, []);
    index := index + 1;
    assert children[..1] == [Tree(ZERO_OP, [])];
    index := AddExternals(children, index, missing);
    assert children[..index] == [Tree(ZERO_OP, [])] + Externals(mn);
    index := AddExternals(children, index, offline);
    assert children[..index] == [Tree(ZERO_OP, [])] + Externals(mn) + Externals(on);
    assert children[..] == children[..index];
    r := Tree(IF_OP, children[..]);
    IfZeroIs(mn, on);
  }

  // ---- what the table says

  function ExternalTerms(paths: seq<Path>): (r: seq<Term>)
    ensures |r| == |paths|
  {
    seq(|paths|, i requires 0 <= i < |paths| => External(Absolute(paths[i]), 6, 0))
  }

  function HidTerm(path: Path, index: nat): Term
    requires index < 0x10000
  {
    Scope(Absolute(path), [Define(Local(HID), Text(HidText(index)))])
  }

  function StaTerm(path: Path): Term {
    Scope(Absolute(path), [Define(Local(STA), Zero)])
  }

  function HidTerms(paths: seq<Path>): (r: seq<Term>)
    requires |paths| < 0xffff
    ensures |r| == |paths|
  {
    seq(|paths|, i requires 0 <= i < |paths| => HidTerm(paths[i], i + 1))
  }

  function StaTerms(paths: seq<Path>): (r: seq<Term>)
    ensures |r| == |paths|
  {
    seq(|paths|, i requires 0 <= i < |paths| => StaTerm(paths[i]))
  }

  // If (Zero) { External per device }, then a Scope with a _HID per missing device and one with _STA zero per offline
  // one
  function Table(missing: seq<Path>, offline: seq<Path>): seq<Term>
    requires |missing| < 0xffff
  {
    [If(Zero, ExternalTerms(missing) + ExternalTerms(offline))] + HidTerms(missing) + StaTerms(offline)
  }

  // ---- the emitter's bytes are those of the grammar

  lemma {:induction false} WriteTermsSnoc(ts: seq<Term>, i: nat)
    requires i < |ts|
    ensures WriteTerms(ts[..i + 1]) == WriteTerms(ts[..i]) + WriteTerm(ts[i])
  {
    hide WriteTerm;
    if i == 0 {
      assert ts[..1] == [ts[0]] && ts[..1][1..] == [];
    } else {
      WriteTermsSnoc(ts[1..], i - 1);
      assert ts[..i + 1][1..] == ts[1..][..i] && ts[..i][1..] == ts[1..][..i - 1];
      assert ts[1..][..i - 1 + 1] == ts[1..][..i];
    }
  }

  // Children b, b + 1, ... of n have the bytes of the terms ts.
  ghost predicate Spells(n: Node, b: nat, ts: seq<Term>) {
    && n.Tree? && |n.children| == b + |ts|
    && forall i {:trigger ts[i]} :: 0 <= i < |ts| ==> Encode(n.children[b + i]) == WriteTerm(ts[i])
  }

  lemma {:induction false} SpelledFirst(n: Node, b: nat, ts: seq<Term>, k: nat)
    requires Spells(n, b, ts) && k <= |ts|
    ensures EncodeFirst(n, b + k) == EncodeFirst(n, b) + WriteTerms(ts[..k])
  {
    hide Encode, WriteTerm;
    if k > 0 {
      SpelledFirst(n, b, ts, k - 1);
      WriteTermsSnoc(ts, k - 1);
      assert Encode(n.children[b + (k - 1)]) == WriteTerm(ts[k - 1]);
      assert EncodeFirst(n, b + k) == EncodeFirst(n, b + (k - 1)) + Encode(n.children[b + (k - 1)]);
    }
  }

  lemma SpelledAll(n: Node, b: nat, ts: seq<Term>)
    requires Spells(n, b, ts)
    ensures EncodeFirst(n, |n.children|) == EncodeFirst(n, b) + WriteTerms(ts)
  {
    SpelledFirst(n, b, ts, |ts|);
    assert ts[..|ts|] == ts;
  }

  lemma TwoChildren(op: nat, x: Node, y: Node)
    ensures EncodeFirst(Tree(op, [x, y]), 2) == Encode(x) + Encode(y)
  {
    assert EncodeFirst(Tree(op, [x, y]), 1) == Encode(x);
  }

  lemma OneTerm(t: Term)
    ensures WriteTerms([t]) == WriteTerm(t)
  {}

  lemma ExternalSpelled(path: Path)
    ensures Encode(ExternalNode(WriteName(Absolute(path)))) == WriteTerm(External(Absolute(path), 6, 0))
  {
    hide WriteName;
    var name := WriteName(Absolute(path));
    var n := ExternalNode(name);
    assert EncodeFirst(n, 1) == name;
    assert EncodeFirst(n, 2) == name + [6];
    assert EncodeFirst(n, 3) == name + [6, 0];
  }

  lemma ScopeSpelled(path: Path, data: seq<Byte>, t: Term)
    requires data == WriteTerm(t)
    ensures var name := WriteName(Absolute(path));
      Encode(Tree(SCOPE_OP, [Data(name), Data(data)])) == WriteTerm(Scope(Absolute(path), [t]))
  {
    hide WriteName;
    TwoChildren(SCOPE_OP, Data(WriteName(Absolute(path))), Data(data));
    OneTerm(t);
  }

  lemma HidSpelled(path: Path, index: nat)
    requires index < 0x10000
    ensures Encode(HidNode(WriteName(Absolute(path)), index)) == WriteTerm(HidTerm(path, index))
  {
    ScopeSpelled(path, [0x08] + HID + [0x0d] + HidText(index) + [0x00], Define(Local(HID), Text(HidText(index))));
  }

  lemma StaSpelled(path: Path)
    ensures Encode(StaNode(WriteName(Absolute(path)))) == WriteTerm(StaTerm(path))
  {
    ScopeSpelled(path, [0x08] + STA + [0x00], Define(Local(STA), Zero));
  }

  lemma IfSpelled(mn: seq<seq<Byte>>, mp: seq<Path>, on: seq<seq<Byte>>, op: seq<Path>)
    requires Encoded(mn, mp) && Encoded(on, op)
    ensures Encode(IfZero(mn, on)) == WriteTerm(If(Zero, ExternalTerms(mp) + ExternalTerms(op)))
  {
    hide WriteName, ValidPath, WriteTerm, Encode;
    var n, ts := IfZero(mn, on), ExternalTerms(mp) + ExternalTerms(op);
    forall i {:trigger ts[i]} | 0 <= i < |ts| ensures Encode(n.children[1 + i]) == WriteTerm(ts[i]) {
      ExternalSpelled(if i < |mp| then mp[i] else op[i - |mp|]);
    }
    SpelledAll(n, 1, ts);
    ZeroNode(n);
    IfBytes(n, ts);
  }

  lemma ZeroNode(n: Node)
    requires n.Tree? && |n.children| >= 1 && n.children[0] == Tree(ZERO_OP, [])
    ensures EncodeFirst(n, 1) == [0]
  {
    assert Encode(n.children[0]) == [0];
  }

  lemma IfBytes(n: Node, ts: seq<Term>)
    requires n.Tree? && n.opcode == IF_OP && EncodeFirst(n, |n.children|) == [0] + WriteTerms(ts)
    ensures Encode(n) == WriteTerm(If(Zero, ts))
  {}

  lemma Spelled(mn: seq<seq<Byte>>, mp: seq<Path>, on: seq<seq<Byte>>, op: seq<Path>)
    requires Encoded(mn, mp) && Encoded(on, op) && |mn| < 0xffff
    ensures Encode(Root(mn, on)) == WriteTerms(Table(mp, op))
  {
    hide WriteName, ValidPath, WriteTerm, HidNode, StaNode, IfZero, HidTerm, StaTerm;
    var n, ts := Root(mn, on), Table(mp, op);
    IfSpelled(mn, mp, on, op);
    forall i {:trigger ts[i]} | 0 <= i < |ts| ensures Encode(n.children[0 + i]) == WriteTerm(ts[i]) {
      if 1 <= i <= |mp| {
        HidSpelled(mp[i - 1], i);
      } else if i > |mp| {
        StaSpelled(op[i - 1 - |mp|]);
      }
    }
    SpelledAll(n, 0, ts);
  }

  // ---- no package of the table comes near 2^28 bytes

  lemma NameLength(path: Path)
    requires ValidPath(path)
    ensures 4 <= |WriteName(Absolute(path))| <= 1023
  {
    hide WriteSegs;
    SegLengths(path);
  }

  lemma {:induction false} ExternalsLength(paths: seq<Path>, ts: seq<Term>)
    requires |ts| == |paths| && forall i {:trigger paths[i]} :: 0 <= i < |paths| ==> ValidPath(paths[i])
    requires forall i {:trigger ts[i]} :: 0 <= i < |ts| ==> ts[i] == External(Absolute(paths[i]), 6, 0)
    ensures |WriteTerms(ts)| <= 1026 * |ts|
  {
    hide ValidPath, WriteName;
    if ts != [] {
      NameLength(paths[0]);
      ExternalsLength(paths[1..], ts[1..]);
    }
  }

  lemma ValidExternals(paths: seq<Path>, ts: seq<Term>)
    requires |ts| == |paths| < 0xffff && forall i {:trigger paths[i]} :: 0 <= i < |paths| ==> ValidPath(paths[i])
    requires forall i {:trigger ts[i]} :: 0 <= i < |ts| ==> ts[i] == External(Absolute(paths[i]), 6, 0)
    ensures ValidTerm(If(Zero, ts))
  {
    ExternalsLength(paths, ts);
  }

  lemma ValidScope(path: Path, name: Seg, v: Value)
    requires ValidPath(path) && IsSeg(name) && ValidValue(v) && |WriteValue(v)| <= 16
    ensures ValidTerm(Scope(Absolute(path), [Define(Local(name), v)]))
  {
    NameLength(path);
    var t := Define(Local(name), v);
    OneTerm(t);
    assert ValidTerm(t);
    hide WriteName, WriteTerm, IsSeg, ValidValue;
    assert ValidTerms([t]);
  }

  lemma ValidTable(missing: seq<Path>, offline: seq<Path>)
    requires 1 + |missing| + |offline| < 0x10000
    requires forall i {:trigger missing[i]} :: 0 <= i < |missing| ==> ValidPath(missing[i])
    requires forall i {:trigger offline[i]} :: 0 <= i < |offline| ==> ValidPath(offline[i])
    ensures ValidTerms(Table(missing, offline))
  {
    hide ValidPath, ValidTerm, HidText;
    var ts := Table(missing, offline);
    ValidExternals(missing + offline, ExternalTerms(missing) + ExternalTerms(offline));
    forall i {:trigger ts[i]} | 0 <= i < |ts| ensures ValidTerm(ts[i]) {
      if 1 <= i <= |missing| {
        HidTextValid(i);
        ValidScope(missing[i - 1], HID, Text(HidText(i)));
      } else if i > |missing| {
        ValidScope(offline[i - 1 - |missing|], STA, Zero);
      }
    }
  }

  lemma HidTextValid(index: nat)
    requires index < 0x10000
    ensures ValidValue(Text(HidText(index))) && |HidText(index)| == 8
  {}

  // Devices get different _HIDs.
  lemma HidsDiffer(i: nat, j: nat)
    requires i < 0x10000 && j < 0x10000 && i != j
    ensures HidText(i) != HidText(j)
  {
    hide HexDigit;
    if HidText(i) == HidText(j) {
      Digits(i);
      Digits(j);
      DigitSame(i / 0x1000, j / 0x1000, HidText(i)[4]);
      DigitSame(i / 0x100 % 0x10, j / 0x100 % 0x10, HidText(i)[5]);
      DigitSame(i / 0x10 % 0x10, j / 0x10 % 0x10, HidText(i)[6]);
      DigitSame(i % 0x10, j % 0x10, HidText(i)[7]);
    }
  }

  lemma Digits(i: nat)
    requires i < 0x10000
    ensures i / 0x1000 < 16
    ensures i == 0x1000 * (i / 0x1000) + 0x100 * (i / 0x100 % 0x10) + 0x10 * (i / 0x10 % 0x10) + i % 0x10
  {
    var a := i / 0x10;
    var b := a / 0x10;
    assert i / 0x100 == b && i / 0x1000 == b / 0x10;
  }

  lemma DigitSame(d: nat, e: nat, c: Byte)
    requires d < 16 && e < 16 && HexDigit(d) == c && HexDigit(e) == c
    ensures d == e
  {}

  // ---- the memory the tree needs

  lemma {:induction false} BulkBound(n: Node, b: nat, k: nat, each: nat)
    requires n.Tree? && b <= k <= |n.children|
    requires forall i {:trigger n.children[i]} :: b <= i < k ==> Bulk(n.children[i]) <= each
    ensures BulkFirst(n, k) <= BulkFirst(n, b) + (k - b) * each
    decreases k
  {
    hide Bulk;
    if k > b {
      BulkBound(n, b, k - 1, each);
      assert (k - b) * each == (k - 1 - b) * each + each;
    }
  }

  lemma SmallLeaves(n: Node)
    requires n.Tree? && Known(n.opcode) && |n.children| <= 3
    requires forall i {:trigger n.children[i]} ::
      0 <= i < |n.children| ==> n.children[i].Data? && |n.children[i].data| <= 1023
    ensures Supported(n) && Bulk(n) <= 4000
  {
    BulkBound(n, 0, |n.children|, 1023);
  }

  lemma SmallNodes(name: seq<Byte>, index: nat)
    requires |name| <= 1023 && index < 0x10000
    ensures Bulk(ExternalNode(name)) <= 4000 && Bulk(HidNode(name, index)) <= 4000 && Bulk(StaNode(name)) <= 4000
    ensures Supported(ExternalNode(name)) && Supported(HidNode(name, index)) && Supported(StaNode(name))
  {
    hide Supported, Bulk, HidText;
    SmallLeaves(ExternalNode(name));
    HidTextValid(index);
    SmallLeaves(HidNode(name, index));
    SmallLeaves(StaNode(name));
  }

  lemma SmallTree(mn: seq<seq<Byte>>, on: seq<seq<Byte>>)
    requires 1 + |mn| + |on| < 0x10000
    requires forall i {:trigger mn[i]} :: 0 <= i < |mn| ==> |mn[i]| <= 1023
    requires forall i {:trigger on[i]} :: 0 <= i < |on| ==> |on[i]| <= 1023
    ensures Supported(Root(mn, on)) && Bulk(Root(mn, on)) < 0x8000_0000
  {
    SmallIf(mn, on);
    hide HidNode, StaNode, IfZero;
    var n := Root(mn, on);
    forall i {:trigger n.children[i]} | 0 <= i < |n.children|
      ensures Supported(n.children[i]) && (i > 0 ==> Bulk(n.children[i]) <= 4000)
    {
      if 1 <= i <= |mn| { SmallNodes(mn[i - 1], i); } else if i > |mn| { SmallNodes(on[i - 1 - |mn|], 0); }
    }
    BulkBound(n, 1, |n.children|, 4000);
    assert BulkFirst(n, 1) == Bulk(IfZero(mn, on));
  }

  lemma SmallIf(mn: seq<seq<Byte>>, on: seq<seq<Byte>>)
    requires 1 + |mn| + |on| < 0x10000
    requires forall i {:trigger mn[i]} :: 0 <= i < |mn| ==> |mn[i]| <= 1023
    requires forall i {:trigger on[i]} :: 0 <= i < |on| ==> |on[i]| <= 1023
    ensures Supported(IfZero(mn, on)) && Bulk(IfZero(mn, on)) <= 0x2000_0000
  {
    hide ExternalNode;
    var n := IfZero(mn, on);
    assert Supported(n.children[0]) && Bulk(n.children[0]) <= 4000;
    forall i {:trigger n.children[i]} | 0 <= i < |n.children|
      ensures Supported(n.children[i]) && Bulk(n.children[i]) <= 4000
    {
      if 1 <= i <= |mn| { SmallNodes(mn[i - 1], 0); } else if i > |mn| { SmallNodes(on[i - 1 - |mn|], 0); }
    }
    BulkBound(n, 0, |n.children|, 4000);
  }

  // ---- the whole table

  const HEADER_BYTES := 36

  // EFI_ACPI_DESCRIPTION_HEADER: signature SSDT, length, revision, checksum, OEM names and numbers, creator
  function Header(length: nat): (h: seq<Byte>)
    requires length < 0x1_0000_0000
    ensures |h| == HEADER_BYTES
  {
    Bytes4(0x54445353) + Bytes4(length) + [2, 0] + [0x44, 0x49, 0x58, 0x59, 0x45, 0x53]
    + [0x44, 0x53, 0x44, 0x54, 0x46, 0x49, 0x58, 0x20] + Bytes4(1) + Bytes4(0x59584944) + Bytes4(1)
  }

  // ---- what a reader finds, in characters and numbers

  // The fields of the header of an ACPI table (ACPI 6.5, section 5.2.6), for an SSDT of length bytes
  ghost predicate ReadsHeader(t: seq<Byte>, length: nat) {
    && |t| >= 36 && Reads(t, 0, "SSDT") && LittleEndian(t[4..8]) == length
    && t[8] == 2 && t[9] == 0 && Reads(t, 10, "DIXYES") && Reads(t, 16, "DSDTFIX ")
    && LittleEndian(t[24..28]) == 1 && Reads(t, 28, "DIXY") && LittleEndian(t[32..36]) == 1
  }

  // The value of an upper-case hexadecimal digit, 16 for any other character
  function DigitValue(c: Byte): nat {
    if '0' as int <= c <= '9' as int then c - '0' as int
    else if 'A' as int <= c <= 'F' as int then c - 'A' as int + 10
    else 16
  }

  // s is n in upper-case hexadecimal digits.
  ghost predicate ReadsHex(s: seq<Byte>, n: nat)
    decreases |s|
  {
    if s == [] then n == 0
    else DigitValue(s[|s| - 1]) == n % 16 && ReadsHex(s[..|s| - 1], n / 16)
  }

  // Name (_HID, "DIXYnnnn") in the scope of the device, nnnn being its number
  ghost predicate NamesHid(t: Term, path: Path, number: nat) {
    && t.Scope? && t.name == Absolute(path) && |t.body| == 1
    && var d := t.body[0];
    && d.Define? && d.name.Local? && |d.name.seg| == 4 && Reads(d.name.seg, 0, "_HID")
    && d.value.Text? && |d.value.chars| == 8 && Reads(d.value.chars, 0, "DIXY") && ReadsHex(d.value.chars[4..], number)
  }

  // Name (_STA, Zero) in the scope of the device
  ghost predicate NamesSta(t: Term, path: Path) {
    && t.Scope? && t.name == Absolute(path) && |t.body| == 1
    && var d := t.body[0];
    && d.Define? && d.name.Local? && |d.name.seg| == 4 && Reads(d.name.seg, 0, "_STA") && d.value == Zero
  }

  // External (path, DeviceObj, 0)
  ghost predicate Declares(t: Term, path: Path) {
    t.External? && t.name == Absolute(path) && t.kind == 6 && t.arguments == 0
  }

  // If (Zero) with an External for every device, then the scopes of the missing ones with their numbers from 1 on, then
  // those of the offline ones
  ghost predicate Says(ts: seq<Term>, missing: seq<Path>, offline: seq<Path>) {
    && |ts| == 1 + |missing| + |offline|
    && ts[0].If? && ts[0].cond == Zero && |ts[0].body| == |missing| + |offline|
    && (forall i :: 0 <= i < |missing| ==> Declares(ts[0].body[i], missing[i]))
    && (forall i :: 0 <= i < |offline| ==> Declares(ts[0].body[|missing| + i], offline[i]))
    && (forall i :: 0 <= i < |missing| ==> NamesHid(ts[1 + i], missing[i], i + 1))
    && (forall i :: 0 <= i < |offline| ==> NamesSta(ts[1 + |missing| + i], offline[i]))
  }

  // The table has its own length and is, behind its header, a list of terms that say what is intended.
  ghost predicate Describes(table: seq<Byte>, missing: seq<Path>, offline: seq<Path>) {
    && ReadsHeader(table, |table|)
    && var r := ReadTerms(table[36..]); r.Got? && r.rest == [] && Says(r.value, missing, offline)
  }

  lemma DigitRead(d: nat)
    requires d < 16
    ensures DigitValue(HexDigit(d)) == d
  {}

  lemma HidReads(index: nat)
    requires index < 0x10000
    ensures Reads(HidText(index), 0, "DIXY") && |HidText(index)| == 8 && ReadsHex(HidText(index)[4..], index)
  {
    var t := HidText(index)[4..];
    DigitRead(index / 0x1000);
    DigitRead(index / 0x100 % 0x10);
    DigitRead(index / 0x10 % 0x10);
    DigitRead(index % 0x10);
    Digits(index);
    hide DigitValue, HexDigit;
    var t3, t2, t1 := t[..3], t[..3][..2], t[..3][..2][..1];
    assert t1[..0] == [];
    assert ReadsHex(t1, index / 0x1000);
    assert ReadsHex(t2, index / 0x100);
    assert ReadsHex(t3, index / 0x10);
  }

  lemma TableSays(missing: seq<Path>, offline: seq<Path>)
    requires |missing| < 0xffff
    ensures Says(Table(missing, offline), missing, offline)
  {
    var ts := Table(missing, offline);
    forall i | 0 <= i < |missing| ensures NamesHid(ts[1 + i], missing[i], i + 1) { HidSays(missing[i], i + 1); }
    forall i | 0 <= i < |offline| ensures NamesSta(ts[1 + |missing| + i], offline[i]) { StaSays(offline[i]); }
    hide HidTerm, StaTerm, NamesHid, NamesSta;
  }

  lemma HidSays(path: Path, index: nat)
    requires index < 0x10000
    ensures NamesHid(HidTerm(path, index), path, index)
  {
    HidReads(index);
    hide HidText, ReadsHex;
  }

  lemma StaSays(path: Path)
    ensures NamesSta(StaTerm(path), path)
  {}

  lemma TableDescribes(mn: seq<seq<Byte>>, mp: seq<Path>, on: seq<seq<Byte>>, op: seq<Path>)
    requires Encoded(mn, mp) && Encoded(on, op) && 1 + |mn| + |on| < 0x10000
    ensures Supported(Root(mn, on)) && Bulk(Root(mn, on)) < 0x8000_0000 && |Encode(Root(mn, on))| < 0x8000_0000
    ensures var aml := Encode(Root(mn, on));
      Describes(Header(HEADER_BYTES + |aml|) + aml, mp, op)
  {
    EncodedValid(mn, mp);
    EncodedValid(on, op);
    hide Encode, Bulk, Supported, Root, Table, ValidPath, Encoded, Header, Describes;
    SmallTree(mn, on);
    EncodeBulk(Root(mn, on));
    Spelled(mn, mp, on, op);
    ValidTable(mp, op);
    ReadTermsBack(Table(mp, op));
    BodyRead(Encode(Root(mn, on)), mp, op);
  }

  lemma ReadsSlice(t: seq<Byte>, at: nat, b: seq<Byte>, text: string)
    requires at + |b| <= |t| && t[at..at + |b|] == b && Reads(b, 0, text) && |text| == |b|
    ensures Reads(t, at, text)
  {
    forall i | 0 <= i < |text| ensures t[at + i] as int == text[i] as int {
      assert t[at..at + |b|][i] == b[0 + i];
    }
  }

  const OEM: seq<Byte> := [0x44, 0x49, 0x58, 0x59, 0x45, 0x53]
  const OEM_TABLE: seq<Byte> := [0x44, 0x53, 0x44, 0x54, 0x46, 0x49, 0x58, 0x20]

  lemma HeaderBytes(length: nat, aml: seq<Byte>)
    requires length < 0x1_0000_0000
    ensures var t := Header(length) + aml;
      && t[0..4] == Bytes4(0x54445353) && t[4..8] == Bytes4(length) && t[8] == 2 && t[9] == 0
      && t[10..16] == OEM && t[16..24] == OEM_TABLE
      && t[24..28] == Bytes4(1) && t[28..32] == Bytes4(0x59584944) && t[32..36] == Bytes4(1) && t[36..] == aml
  {
    hide Bytes4;
  }

  lemma Texts()
    ensures Reads(Bytes4(0x54445353), 0, "SSDT") && Reads(Bytes4(0x59584944), 0, "DIXY")
    ensures Reads(OEM, 0, "DIXYES") && Reads(OEM_TABLE, 0, "DSDTFIX ")
  {}

  lemma HeaderReads(aml: seq<Byte>)
    requires |aml| < 0x8000_0000
    ensures var t := Header(HEADER_BYTES + |aml|) + aml;
      |t| == HEADER_BYTES + |aml| && ReadsHeader(t, |t|) && t[HEADER_BYTES..] == aml
  {
    var length := HEADER_BYTES + |aml|;
    var t := Header(length) + aml;
    HeaderBytes(length, aml);
    Texts();
    LittleBytes4(length);
    LittleBytes4(1);
    hide Header, Reads, LittleEndian, Bytes4;
    ReadsSlice(t, 0, Bytes4(0x54445353), "SSDT");
    ReadsSlice(t, 10, OEM, "DIXYES");
    ReadsSlice(t, 16, OEM_TABLE, "DSDTFIX ");
    ReadsSlice(t, 28, Bytes4(0x59584944), "DIXY");
  }

  lemma LittleBytes4(w: nat)
    requires w < 0x1_0000_0000
    ensures LittleEndian(Bytes4(w)) == w
  {
    Little4(Bytes4(w));
    Word4Bytes4(w);
  }

  lemma BodyRead(aml: seq<Byte>, missing: seq<Path>, offline: seq<Path>)
    requires |missing| < 0xffff && |aml| < 0x8000_0000
    requires aml == WriteTerms(Table(missing, offline))
    requires ReadTerms(WriteTerms(Table(missing, offline))) == Got(Table(missing, offline), [])
    ensures Describes(Header(HEADER_BYTES + |aml|) + aml, missing, offline)
  {
    hide Header, Table, ReadTerms, WriteTerms, ReadsHeader, Says;
    HeaderReads(aml);
    TableSays(missing, offline);
  }

  // The names are short, for the paths they encode are valid.
  lemma EncodedValid(names: seq<seq<Byte>>, paths: seq<Path>)
    requires Encoded(names, paths)
    ensures |names| == |paths|
    ensures forall i {:trigger paths[i]} :: 0 <= i < |paths| ==> ValidPath(paths[i])
    ensures forall i {:trigger names[i]} :: 0 <= i < |names| ==> |names[i]| <= 1023
  {
    hide WriteName, ValidPath;
    forall i {:trigger names[i]} | 0 <= i < |names| ensures |names[i]| <= 1023 { NameLength(paths[i]); }
  }

  // fix_dsdt, from the two lists on: no table when there is nothing to fix
  method FixDsdt(missing: DevpathList, offline: DevpathList) returns (table: array?<Byte>)
    requires missing.Valid() && offline.Valid() && 1 + |missing.paths| + |offline.paths| < 0x10000
    ensures table == null <==> missing.paths == [] && offline.paths == []
    ensures table != null ==> fresh(table) && Describes(table[..], missing.paths, offline.paths)
  {
    assert missing.At(0) == missing.head && offline.At(0) == offline.head;
    if missing.head == null && offline.head == null {
      return null;
    }
    var missingCount := missing.Count();
    var offlineCount := offline.Count();
    var root := BuildTree(missing, offline, missingCount, offlineCount);
    TableDescribes(Names(missing.nodes), missing.paths, Names(offline.nodes), offline.paths);
    hide Encode, Bulk, Supported, Root, Describes;
    var size := NodeSize(root);
    var buffer := new Byte[HEADER_BYTES + size](_ => 0);
    WriteHeader(buffer);
    ghost var head := buffer[..];
    WrittenAll(root);
    var ret := Serialize(buffer, HEADER_BYTES, root);
    assert buffer[..] == Header(HEADER_BYTES + size) + Encode(root);
    table := buffer;
  }

  method WriteHeader(buffer: array<Byte>)
    requires HEADER_BYTES <= buffer.Length < 0x1_0000_0000
    modifies buffer
    ensures buffer[..] == Splice(old(buffer[..]), 0, Header(buffer.Length))
  {
    hide Bytes4, Splice;
    ghost var s, h := buffer[..], Bytes4(0x54445353);
    CopyInto(buffer, 0, Bytes4(0x54445353));
    h := WriteField(buffer, 4, Bytes4(buffer.Length), s, h);
    h := WriteField(buffer, 8, [2, 0], s, h);
    h := WriteField(buffer, 10, [0x44, 0x49, 0x58, 0x59, 0x45, 0x53], s, h);
    h := WriteField(buffer, 16, [0x44, 0x53, 0x44, 0x54, 0x46, 0x49, 0x58, 0x20], s, h);
    h := WriteField(buffer, 24, Bytes4(1), s, h);
    h := WriteField(buffer, 28, Bytes4(0x59584944), s, h);
    h := WriteField(buffer, 32, Bytes4(1), s, h);
  }

  // The next field behind those written so far
  method WriteField(buffer: array<Byte>, at: nat, field: seq<Byte>, ghost s: seq<Byte>, ghost h: seq<Byte>)
    returns (ghost h': seq<Byte>)
    requires at == |h| && at + |field| <= buffer.Length == |s| && buffer[..] == Splice(s, 0, h)
    modifies buffer
    ensures h' == h + field && buffer[..] == Splice(s, 0, h')
  {
    h' := h + field;
    SpliceSplice(s, 0, h, field);
    CopyInto(buffer, at, field);
  }
}
