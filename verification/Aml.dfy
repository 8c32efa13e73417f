// The AML emitter of aml.c.
module Aml {
  import Bits
  import opened Bitwise
  import opened Bytes

  const ROOT := 0xff01
  const ZERO_OP := 0x00
  const SCOPE_OP := 0x10
  const EXTERNAL_OP := 0x15
  const IF_OP := 0xa0

  const NOT_IMPLEMENTED := -38
  const SIZE_NOT_IMPLEMENTED := SIZE_T - 38

  // Data is a node with the opcode 0xff00, Tree one with any other opcode.
  datatype Node = Null | Data(data: seq<Byte>) | Tree(opcode: nat, children: seq<Node>)

  predicate Package(op: nat) { op == SCOPE_OP || op == IF_OP }
  predicate Known(op: nat) { Package(op) || op == EXTERNAL_OP || op == ZERO_OP || op == ROOT }

  lemma KnownOpcodes(op: nat)
    ensures Known(op) <==> op in {0x00, 0x10, 0x15, 0xa0, 0xff01}
    ensures Package(op) <==> op in {0x10, 0xa0}
  {}

  predicate Supported(n: Node)
    decreases n, 1
  {
    n.Tree? ==> Known(n.opcode) && SupportedFirst(n, |n.children|)
  }

  // The first k children are supported.
  predicate SupportedFirst(n: Node, k: nat)
    requires n.Tree? && k <= |n.children|
    decreases n, 0
  {
    forall i {:trigger n.children[i]} :: 0 <= i < k ==> Supported(n.children[i])
  }

  // ---- PkgLength (ACPI 6.5, section 20.2.4): a package length counts the package and the bytes of the length itself

  // The fewest bytes whose capacity holds the length of a package with this many bytes of content
  function Width(content: nat): nat {
    if content + 1 < 0x40 then 1 else if content + 2 < 0x1000 then 2 else if content + 3 < 0x10_0000 then 3 else 4
  }

  function PkgLength(length: nat): seq<Byte> {
    if length < 0x40 then [length]
    else if length < 0x1000 then [0x40 + length % 0x10, length / 0x10 % 0x100]
    else if length < 0x10_0000 then [0x80 + length % 0x10, length / 0x10 % 0x100, length / 0x1000 % 0x100]
    else [0xc0 + length % 0x10, length / 0x10 % 0x100, length / 0x1000 % 0x100, length / 0x10_0000 % 0x100]
  }

  // The bytes in C's own operators: lead | (length & 0x0f) for the lead bits 0x40, 0x80 and 0xc0, and
  // (length >> k) & 0xff
  lemma LengthBits(lead: nat, length: nat)
    requires lead % 0x10 == 0
    ensures lead + length % 0x10 == BitOr(lead, BitAnd(length, 0x0f))
    ensures length % 0x100 == BitAnd(length, 0xff)
  {
    Bits.Pow2Small();
    AndLow(length, 4);
    AndLow(length, 8);
    OrApart(lead, length % 0x10, 4);
  }

  function Wrapped(content: seq<Byte>): seq<Byte> {
    PkgLength(|content| + Width(|content|)) + content
  }

  // How a reader of the table takes a PkgLength apart: bits 7-6 of the lead byte count the bytes that follow it
  function PkgWidth(lead: Byte): nat { 1 + lead / 0x40 }

  function PkgValue(s: seq<Byte>): nat
    requires |s| >= 1 && |s| >= PkgWidth(s[0])
  {
    var b0: int := s[0];
    if b0 < 0x40 then b0
    else
      var b1: int := s[1];
      if b0 < 0x80 then b0 % 0x10 + 0x10 * b1
      else
        var b2: int := s[2];
        if b0 < 0xc0 then b0 % 0x10 + 0x10 * b1 + 0x1000 * b2
        else
          var b3: int := s[3];
          b0 % 0x10 + 0x10 * b1 + 0x1000 * b2 + 0x10_0000 * b3
  }

  // The size method's thresholds and the serializer's always agree on the number of length bytes.
  lemma WidthsAgree(content: nat)
    ensures Width(content) ==
      if content < 63 then 1 else if content < 4094 then 2 else if content < 1048573 then 3 else 4
    ensures |PkgLength(content + Width(content))| == Width(content)
  {}

  lemma Digits(length: nat)
    ensures length == length % 0x10 + 0x10 * (length / 0x10 % 0x100) + 0x1000 * (length / 0x1000 % 0x100)
                      + 0x10_0000 * (length / 0x10_0000)
  {
    var a := length / 0x10;
    var b := a / 0x100;
    assert length / 0x1000 == b;
    assert length / 0x10_0000 == b / 0x100;
  }

  // The lead byte holds the low four bits, unless the length fits it whole.
  lemma LeadByte(k: nat, low: nat)
    requires k < 4 && low < 0x10
    ensures PkgWidth(0x40 * k + low) == k + 1 && (0x40 * k + low) % 0x10 == low
  {}

  // Reading the length of a package back gives its own byte count, unless it has 2^28 bytes or more.
  lemma PkgRoundTrip(length: nat, rest: seq<Byte>)
    ensures var s := PkgLength(length) + rest;
      && PkgWidth(s[0]) == |PkgLength(length)|
      && (PkgValue(s) == length <==> length < 0x1000_0000)
  {
    assert 0 < |PkgLength(length)| == PkgWidth((PkgLength(length) + rest)[0]) by {
      if length >= 0x40 { LeadByte(if length < 0x1000 then 1 else if length < 0x10_0000 then 2 else 3, length % 0x10); }
    }
    Digits(length);
    var low, mid, high, top := length % 0x10, length / 0x10 % 0x100, length / 0x1000 % 0x100, length / 0x10_0000;
    PkgFields(length, rest);
    TopByte(top);
  }

  lemma TopByte(top: nat)
    ensures top % 0x100 == top <==> top < 0x100
  {}

  lemma PkgFields(length: nat, rest: seq<Byte>)
    ensures var s := PkgLength(length) + rest;
      && |s| >= PkgWidth(s[0])
      && (length < 0x40 ==> PkgValue(s) == length)
      && (0x40 <= length < 0x1000 ==> PkgValue(s) == length % 0x10 + 0x10 * (length / 0x10 % 0x100))
      && (0x1000 <= length < 0x10_0000 ==>
            PkgValue(s) == length % 0x10 + 0x10 * (length / 0x10 % 0x100) + 0x1000 * (length / 0x1000 % 0x100))
      && (0x10_0000 <= length ==>
            PkgValue(s) == length % 0x10 + 0x10 * (length / 0x10 % 0x100) + 0x1000 * (length / 0x1000 % 0x100)
                           + 0x10_0000 * (length / 0x10_0000 % 0x100))
  {
    if length >= 0x40 { LeadByte(if length < 0x1000 then 1 else if length < 0x10_0000 then 2 else 3, length % 0x10); }
  }

  // ---- the bytes of a node

  function Encode(n: Node): seq<Byte>
    decreases n, 0
  {
    match n
    case Null => []
    case Data(b) => b
    case Tree(op, cs) =>
      if op == ROOT then EncodeFirst(n, |cs|)
      else if Package(op) then [op] + Wrapped(EncodeFirst(n, |cs|))
      else Opcode(op) + EncodeFirst(n, |cs|)
  }

  // The bytes of the first k children
  function EncodeFirst(n: Node, k: nat): seq<Byte>
    requires n.Tree? && k <= |n.children|
    decreases n, 0, k
  {
    if k == 0 then [] else EncodeFirst(n, k - 1) + Encode(n.children[k - 1])
  }

  // More bytes than any node needs
  ghost function Bulk(n: Node): nat
    decreases n, 0
  {
    match n
    case Null => 0
    case Data(b) => |b|
    case Tree(_, cs) => 6 + BulkFirst(n, |cs|)
  }

  ghost function BulkFirst(n: Node, k: nat): nat
    requires n.Tree? && k <= |n.children|
    decreases n, 0, k
  {
    if k == 0 then 0 else BulkFirst(n, k - 1) + Bulk(n.children[k - 1])
  }

  // A tree of 2^63 bytes does not fit the memory.
  ghost predicate InMemory(n: Node) { Bulk(n) < SIZE_T / 2 }

  lemma {:induction false} EncodeBulk(n: Node)
    ensures |Encode(n)| <= Bulk(n)
    decreases n, 0
  {
    if n.Tree? {
      EncodeFirstBulk(n, |n.children|);
      WidthsAgree(|EncodeFirst(n, |n.children|)|);
    }
  }

  lemma {:induction false} EncodeFirstBulk(n: Node, k: nat)
    requires n.Tree? && k <= |n.children|
    ensures |EncodeFirst(n, k)| <= BulkFirst(n, k)
    decreases n, 0, k
  {
    if k > 0 {
      EncodeFirstBulk(n, k - 1);
      EncodeBulk(n.children[k - 1]);
    }
  }

  lemma {:induction false} BulkMono(n: Node, k: nat, l: nat)
    requires n.Tree? && k <= l <= |n.children|
    ensures BulkFirst(n, k) <= BulkFirst(n, l)
    decreases l
  {
    if k < l { BulkMono(n, k, l - 1); }
  }

  // The sizes of the children, or the error of the first one that is not supported
  method ChildrenSize(n: Node) returns (size: int)
    requires n.Tree? && InMemory(n)
    ensures size == if SupportedFirst(n, |n.children|) then |EncodeFirst(n, |n.children|)| else SIZE_NOT_IMPLEMENTED
    decreases n, 0
  {
    size := 0;
    EncodeFirstBulk(n, |n.children|);
    for i := 0 to |n.children|
      invariant SupportedFirst(n, i)
      invariant size == |EncodeFirst(n, i)|
    {
      BulkMono(n, i + 1, |n.children|);
      EncodeBulk(n.children[i]);
      var ret := NodeSize(n.children[i]);
      if ret == SIZE_NOT_IMPLEMENTED {
        return ret;
      }
      size := size + ret;
    }
  }

  // aml_node_size
  method NodeSize(n: Node) returns (size: int)
    requires InMemory(n)
    ensures size == if Supported(n) then |Encode(n)| else SIZE_NOT_IMPLEMENTED
    decreases n, 1
  {
    if n.Null? {
      return 0;
    }
    if n.Data? {
      return |n.data|;
    }
    EncodeFirstBulk(n, |n.children|);
    size := ChildrenSize(n);
    if size == SIZE_NOT_IMPLEMENTED || n.opcode == ROOT {
      return size;
    }
    if Package(n.opcode) {
      WidthsAgree(size);
      if size < 63 {
        size := size + 1;
      } else if size < 4094 {
        size := size + 2;
      } else if size < 1048573 {
        size := size + 3;
      } else {
        size := size + 4;
      }
    } else if n.opcode != EXTERNAL_OP && n.opcode != ZERO_OP {
      return SIZE_NOT_IMPLEMENTED;
    }
    size := size + 1;
    if n.opcode > 0xff {
      size := size + 1;
    }
  }

  // What serializing writes from its start position on, also when it stops at a node that is not supported: then the
  // length of every package around it has been computed from the error value.
  ghost function Written(n: Node): seq<Byte>
    decreases n, 0
  {
    match n
    case Null => []
    case Data(b) => b
    case Tree(op, cs) =>
      if op == ROOT then WrittenFirst(n, |cs|)
      else if !Known(op) then Opcode(op)
      else Head(op, (if Supported(n) then |Encode(n)| else SIZE_NOT_IMPLEMENTED) - 1) + WrittenFirst(n, |cs|)
  }

  // Of the first k children, up to the first one that is not supported
  ghost function WrittenFirst(n: Node, k: nat): seq<Byte>
    requires n.Tree? && k <= |n.children|
    decreases n, 0, k
  {
    if k == 0 then []
    else if SupportedFirst(n, k - 1) then EncodeFirst(n, k - 1) + Written(n.children[k - 1])
    else WrittenFirst(n, k - 1)
  }

  lemma {:induction false} WrittenAll(n: Node)
    requires Supported(n)
    ensures Written(n) == Encode(n)
    decreases n, 0
  {
    if n.Tree? {
      WrittenAllFirst(n, |n.children|);
      WidthsAgree(|EncodeFirst(n, |n.children|)|);
    }
  }

  lemma {:induction false} WrittenAllFirst(n: Node, k: nat)
    requires n.Tree? && k <= |n.children| && SupportedFirst(n, k)
    ensures WrittenFirst(n, k) == EncodeFirst(n, k)
    decreases n, 0, k
  {
    if k > 0 { WrittenAll(n.children[k - 1]); }
  }

  // Writing stops at the first child that is not supported.
  lemma {:induction false} WrittenStop(n: Node, i: nat, k: nat)
    requires n.Tree? && i < k <= |n.children| && SupportedFirst(n, i) && !Supported(n.children[i])
    ensures WrittenFirst(n, k) == EncodeFirst(n, i) + Written(n.children[i])
    decreases k
  {
    if k > i + 1 {
      WrittenStop(n, i, k - 1);
      assert !SupportedFirst(n, k - 1);
    }
  }

  lemma {:induction false} WrittenMono(n: Node, i: nat, k: nat)
    requires n.Tree? && i < k <= |n.children| && SupportedFirst(n, i)
    ensures |EncodeFirst(n, i)| + |Written(n.children[i])| <= |WrittenFirst(n, k)|
    decreases k
  {
    if !Supported(n.children[i]) {
      WrittenStop(n, i, k);
    } else {
      WrittenAll(n.children[i]);
      if k > i + 1 {
        if SupportedFirst(n, k - 1) { EncodeMono(n, i + 1, k - 1); } else { WrittenMono(n, i, k - 1); }
      }
    }
  }

  lemma {:induction false} EncodeMono(n: Node, i: nat, k: nat)
    requires n.Tree? && i <= k <= |n.children|
    ensures |EncodeFirst(n, i)| <= |EncodeFirst(n, k)|
    decreases k
  {
    if i < k { EncodeMono(n, i, k - 1); }
  }

  method SerializeChildren(buffer: array<Byte>, pos: nat, n: Node) returns (ret: int)
    requires n.Tree? && InMemory(n) && pos + |WrittenFirst(n, |n.children|)| <= buffer.Length
    modifies buffer
    ensures ret == if SupportedFirst(n, |n.children|) then 0 else NOT_IMPLEMENTED
    ensures buffer[..] == Splice(old(buffer[..]), pos, WrittenFirst(n, |n.children|))
    decreases n, 0
  {
    FirstNone(n);
    SpliceNone(buffer[..], pos);
    hide Encode, EncodeFirst, Written, WrittenFirst, Supported, SupportedFirst, InMemory, Splice;
    ghost var s := buffer[..];
    var p := pos;
    for i := 0 to |n.children|
      invariant SupportedFirst(n, i)
      invariant p == pos + |EncodeFirst(n, i)| <= buffer.Length
      invariant buffer[..] == Splice(s, pos, EncodeFirst(n, i))
    {
      ChildStep(n, i);
      SpliceSplice(s, pos, EncodeFirst(n, i), Written(n.children[i]));
      ret := Serialize(buffer, p, n.children[i]);
      if ret < 0 {
        return ret;
      }
      var size := NodeSize(n.children[i]);
      p := p + size;
    }
    AllWritten(n);
    return 0;
  }

  lemma FirstNone(n: Node)
    requires n.Tree?
    ensures EncodeFirst(n, 0) == [] && SupportedFirst(n, 0)
  {}

  lemma SpliceNone(s: seq<Byte>, pos: nat)
    requires pos <= |s|
    ensures Splice(s, pos, []) == s
  {}

  lemma AllWritten(n: Node)
    requires n.Tree? && SupportedFirst(n, |n.children|)
    ensures WrittenFirst(n, |n.children|) == EncodeFirst(n, |n.children|)
  {
    WrittenAllFirst(n, |n.children|);
  }

  // What one more child adds
  lemma ChildStep(n: Node, i: nat)
    requires n.Tree? && i < |n.children| && SupportedFirst(n, i)
    ensures var child := n.children[i];
      && EncodeFirst(n, i + 1) == EncodeFirst(n, i) + Encode(child)
      && (SupportedFirst(n, i + 1) <==> Supported(child))
      && (SupportedFirst(n, |n.children|) ==> Supported(child))
      && |EncodeFirst(n, i)| + |Written(child)| <= |WrittenFirst(n, |n.children|)|
      && (InMemory(n) ==> InMemory(child))
      && (Supported(child) ==> Written(child) == Encode(child))
      && (!Supported(child) ==> WrittenFirst(n, |n.children|) == EncodeFirst(n, i) + Written(child))
  {
    BulkMono(n, i + 1, |n.children|);
    WrittenMono(n, i, |n.children|);
    if Supported(n.children[i]) { WrittenAll(n.children[i]); } else { WrittenStop(n, i, |n.children|); }
  }

  // aml.c:118-172: opcode, package length and children
  method SerializeTerm(buffer: array<Byte>, pos: nat, n: Node) returns (ret: int)
    requires n.Tree? && n.opcode != ROOT && InMemory(n) && pos + |Written(n)| <= buffer.Length
    modifies buffer
    ensures ret == if Supported(n) then 0 else NOT_IMPLEMENTED
    ensures buffer[..] == Splice(old(buffer[..]), pos, Written(n))
    decreases n, 1
  {
    Parts(n);
    hide Encode, EncodeFirst, Written, WrittenFirst, PkgLength, Supported, SupportedFirst, Width, InMemory;
    hide Splice, Opcode, Head, Known;
    ghost var s := buffer[..];
    var length := NodeSize(n);
    length := length - 1;
    if n.opcode > 0xff {
      length := length - 1;
    }
    var known, p := WriteHead(buffer, pos, n.opcode, length);
    if !known {
      return NOT_IMPLEMENTED;
    }
    SpliceSplice(s, pos, Head(n.opcode, length), WrittenFirst(n, |n.children|));
    ret := SerializeChildren(buffer, p, n);
  }

  // Opcode and package length
  ghost function Head(op: nat, length: nat): seq<Byte> {
    if Package(op) then Opcode(op) + PkgLength(length) else Opcode(op)
  }

  method WriteHead(buffer: array<Byte>, pos: nat, op: nat, length: nat) returns (known: bool, p: nat)
    requires op != ROOT && pos + |Head(op, length)| <= buffer.Length
    modifies buffer
    ensures known == Known(op) && p == pos + |Head(op, length)|
    ensures buffer[..] == Splice(old(buffer[..]), pos, Head(op, length))
  {
    hide Opcode, PkgLength, Splice;
    p := WriteOpcode(buffer, pos, op);
    known := true;
    if Package(op) {
      SpliceSplice(old(buffer[..]), pos, Opcode(op), PkgLength(length));
      p := WritePkgLength(buffer, p, length);
    } else if op != EXTERNAL_OP && op != ZERO_OP {
      known := false;
    }
  }

  // aml_node_serialize
  method Serialize(buffer: array<Byte>, pos: nat, n: Node) returns (ret: int)
    requires InMemory(n) && pos + |Written(n)| <= buffer.Length
    modifies buffer
    ensures ret == if Supported(n) then 0 else NOT_IMPLEMENTED
    ensures buffer[..] == Splice(old(buffer[..]), pos, Written(n))
    decreases n, 2
  {
    hide EncodeFirst, WrittenFirst, PkgLength, InMemory, Opcode, Wrapped, Head;
    if n.Null? {
      SpliceNone(buffer[..], pos);
      return 0;
    }
    if n.Data? {
      CopyInto(buffer, pos, n.data);
      return 0;
    }
    if n.opcode == ROOT {
      ret := SerializeChildren(buffer, pos, n);
    } else {
      ret := SerializeTerm(buffer, pos, n);
    }
  }

  // Little-endian, two bytes for the opcodes that need them
  function Opcode(op: nat): seq<Byte> {
    if op > 0xff then [op % 0x100, op / 0x100 % 0x100] else [op]
  }

  method WriteOpcode(buffer: array<Byte>, pos: nat, op: nat) returns (p: nat)
    requires pos + |Opcode(op)| <= buffer.Length
    modifies buffer
    ensures p == pos + |Opcode(op)| && buffer[..] == Splice(old(buffer[..]), pos, Opcode(op))
  {
    p := pos;
    buffer[p] := op % 0x100;
    p := p + 1;
    if op > 0xff {
      buffer[p] := op / 0x100 % 0x100;
      p := p + 1;
    }
  }

  // How what is written of a node with an opcode is put together
  lemma Parts(n: Node)
    requires n.Tree? && n.opcode != ROOT
    ensures Supported(n) <==> Known(n.opcode) && SupportedFirst(n, |n.children|)
    ensures n.opcode > 0xff ==> !Known(n.opcode)
    ensures !Known(n.opcode) ==> forall l: nat :: Head(n.opcode, l) == Written(n)
    ensures Known(n.opcode) && !Supported(n) ==>
      Written(n) == Head(n.opcode, SIZE_NOT_IMPLEMENTED - 1) + WrittenFirst(n, |n.children|)
    ensures Supported(n) ==> Written(n) == Encode(n) && |Encode(n)| >= 1
    ensures Supported(n) ==> Encode(n) == Head(n.opcode, |Encode(n)| - 1) + WrittenFirst(n, |n.children|)
  {
    WidthsAgree(|EncodeFirst(n, |n.children|)|);
    if Supported(n) { WrittenAll(n); }
  }

  method WritePkgLength(buffer: array<Byte>, pos: nat, length: nat) returns (p: nat)
    requires pos + |PkgLength(length)| <= buffer.Length
    modifies buffer
    ensures p == pos + |PkgLength(length)|
    ensures buffer[..] == Splice(old(buffer[..]), pos, PkgLength(length))
  {
    p := pos;
    if length < 64 {
      buffer[p] := length % 0x100;
      p := p + 1;
    } else if length < 4096 {
      buffer[p] := 0x40 + length % 0x10;
      buffer[p + 1] := length / 0x10 % 0x100;
      p := p + 2;
    } else if length < 1048576 {
      buffer[p] := 0x80 + length % 0x10;
      buffer[p + 1] := length / 0x10 % 0x100;
      buffer[p + 2] := length / 0x1000 % 0x100;
      p := p + 3;
    } else {
      buffer[p] := 0xc0 + length % 0x10;
      buffer[p + 1] := length / 0x10 % 0x100;
      buffer[p + 2] := length / 0x1000 % 0x100;
      buffer[p + 3] := length / 0x10_0000 % 0x100;
      p := p + 4;
    }
  }
}
