// The EL3 patcher of patch_bl.c.
module Patcher {
  import Bits
  import opened Bitwise
  import opened Bytes
  import opened Patterns

  // "Unhandled Interrupt Exception in EL3.\n"
  const STRING: seq<Byte> := [
    0x55, 0x6e, 0x68, 0x61, 0x6e, 0x64, 0x6c, 0x65, 0x64, 0x20, 0x49, 0x6e,
    0x74, 0x65, 0x72, 0x72, 0x75, 0x70, 0x74, 0x20, 0x45, 0x78, 0x63, 0x65,
    0x70, 0x74, 0x69, 0x6f, 0x6e, 0x20, 0x69, 0x6e, 0x20, 0x45, 0x4c, 0x33,
    0x2e, 0x0a]

  // msr DAIFClr, 4; mov x0, 0; msr CPTR_EL3, x0
  const INIT: seq<Byte> := [0xff, 0x44, 0x03, 0xd5, 0x00, 0x00, 0x80, 0xd2, 0x40, 0x11, 0x1e, 0xd5]

  const STUB_TEXT: seq<Byte> := [
    0x00, 0x00, 0x90, 0xd2, 0x00, 0x3c, 0x50, 0xd3, 0x00, 0xa5, 0x1e, 0xd5,
    0xdf, 0x3f, 0x03, 0xd5, 0x00, 0x00, 0x80, 0xd2, 0xc0, 0x03, 0x5f, 0xd6]

  lemma StringText()
    ensures |STRING| == 38 && Reads(STRING, 0, "Unhandled Interrupt Exception in EL3.\n")
  {}

  // ---- the branch instruction

  // C division by four, which truncates toward zero
  function Quarter(d: int): int {
    if d >= 0 then d / 4 else -((-d) / 4)
  }

  // 0x94000000 | (bl_offset & 0x3FFFFFF) for a BL at pc; the mask keeps the offset modulo 2^26
  function BlInstr(stub: int, pc: int): (w: nat)
    ensures 0x9400_0000 <= w < 0x9800_0000
  {
    0x9400_0000 + Quarter(stub - pc) % 0x400_0000
  }

  // The word in C's own operators: bl_offset is a 64-bit number in two's complement.
  lemma BlBits(stub: int, pc: int)
    requires -0x8000_0000_0000_0000 <= Quarter(stub - pc) < 0x8000_0000_0000_0000
    ensures BlInstr(stub, pc) == BitOr(0x9400_0000, BitAnd(Quarter(stub - pc) % SIZE_T, 0x3ff_ffff))
  {
    var q := Quarter(stub - pc) % SIZE_T;
    Pow2Of26();
    assert q % 0x400_0000 == Quarter(stub - pc) % 0x400_0000;
    AndLow(q, 26);
    OrApart(0x9400_0000, q % 0x400_0000, 26);
  }

  lemma Pow2Of26()
    ensures Bits.Pow2(26) == 0x400_0000
  {
    Bits.Pow2Small();
    Bits.Pow2Add(16, 8);
    Bits.Pow2Add(24, 2);
  }

  // A64 BL: six opcode bits 100101 and a signed count of words relative to the instruction.
  predicate IsBl(w: nat) { w / 0x400_0000 == 0x25 }

  function BlTarget(w: nat, pc: int): int {
    var imm := w % 0x400_0000;
    pc + 4 * (if imm < 0x200_0000 then imm else imm - 0x400_0000)
  }

  predicate InRange(stub: int, pc: int) {
    (stub - pc) % 4 == 0 && -0x800_0000 <= stub - pc < 0x800_0000
  }

  // What is written is always a BL; it reaches the stub exactly when the distance is whole words within 128 MB.
  lemma BlReaches(stub: int, pc: int)
    ensures IsBl(BlInstr(stub, pc))
    ensures BlTarget(BlInstr(stub, pc), pc) == stub <==> InRange(stub, pc)
  {}

  // ---- occurrences of the init sequence

  lemma InitByte(s: seq<Byte>, j: int, i: int)
    requires At(s, j, INIT) && j <= i < j + 12
    ensures s[i] == 0xff <==> i == j
    ensures s[i] < 0x94 || s[i] > 0x97
    ensures i == j || i == j + 11 ==> s[i] >= 0x80
  {
    assert Same(s, j, INIT, i - j);
  }

  lemma InitApart(s: seq<Byte>, j: int, k: int)
    requires At(s, j, INIT) && At(s, k, INIT) && j < k
    ensures j + 12 <= k
  {
    hide At;
    InitByte(s, k, k);
    if k < j + 12 { InitByte(s, j, k); }
  }

  lemma AtElsewhere(s: seq<Byte>, t: seq<Byte>, k: int, b: seq<Byte>, lo: int, hi: int)
    requires At(s, k, b) && |s| == |t| && (k + |b| <= lo || hi <= k)
    requires forall i :: 0 <= i < |s| && !(lo <= i < hi) ==> s[i] == t[i]
    ensures At(t, k, b)
  {
    forall i {:trigger Same(t, k, b, i)} | 0 <= i < |b| ensures Same(t, k, b, i) { assert Same(s, k, b, i); }
  }

  // A word whose top byte is that of a BL, written over the second word of an occurrence, ends this occurrence and
  // starts no other.
  lemma PatchEnds(s: seq<Byte>, j: int, w: seq<Byte>, k: int)
    requires At(s, j, INIT) && |w| == 4 && 0x94 <= w[3] <= 0x97
    ensures At(Splice(s, j + 4, w), k, INIT) <==> At(s, k, INIT) && k != j
  {
    var t := Splice(s, j + 4, w);
    assert t[j + 7] == w[3] && t[j] == s[j];
    InitByte(s, j, j);
    if At(t, k, INIT) {
      if j - 4 <= k <= j + 7 { InitByte(t, k, j + 7); }
      if j - 11 <= k <= j { InitByte(t, k, j); }
      AtElsewhere(t, s, k, INIT, j + 4, j + 8);
    } else if At(s, k, INIT) && k != j {
      if k < j { InitApart(s, k, j); } else { InitApart(s, j, k); }
      AtElsewhere(s, t, k, INIT, j + 4, j + 8);
    }
  }

  ghost function Inits(s: seq<Byte>): set<int> { Occurrences(s, INIT) }

  // The BL written into the occurrence at j
  function Bl(stub: int, j: int): (b: seq<Byte>)
    ensures |b| == 4 && 0x94 <= b[3] <= 0x97
  {
    Bytes4(BlInstr(stub, j + 4))
  }

  // The second words of the occurrences in done, all replaced at once
  ghost function NewByte(s: seq<Byte>, stub: int, done: set<int>, i: nat): Byte
    requires i < |s|
  {
    if i - 4 in done then Bl(stub, i - 4)[0]
    else if i - 5 in done then Bl(stub, i - 5)[1]
    else if i - 6 in done then Bl(stub, i - 6)[2]
    else if i - 7 in done then Bl(stub, i - 7)[3]
    else s[i]
  }

  ghost function Replaced(s: seq<Byte>, stub: int, done: set<int>): (r: seq<Byte>)
    ensures |r| == |s|
  {
    seq(|s|, i requires 0 <= i < |s| => NewByte(s, stub, done, i))
  }

  // One pass of the rewriting loop
  lemma ReplaceStep(s: seq<Byte>, stub: int, done: set<int>, j: int)
    requires done <= Inits(s) && Inits(Replaced(s, stub, done)) == Inits(s) - done
    requires At(Replaced(s, stub, done), j, INIT)
    ensures j in Inits(s) && j !in done
    ensures Splice(Replaced(s, stub, done), j + 4, Bl(stub, j)) == Replaced(s, stub, done + {j})
    ensures Inits(Replaced(s, stub, done + {j})) == Inits(s) - (done + {j})
  {
    hide Bl;
    var r := Replaced(s, stub, done);
    var t := Splice(r, j + 4, Bl(stub, j));
    assert j in Inits(r);
    forall i | 0 <= i < |s| ensures t[i] == NewByte(s, stub, done + {j}, i) {
      if j + 4 <= i < j + 8 { OnlyOwner(s, done + {j}, j, i); }
    }
    assert t == Replaced(s, stub, done + {j});
    forall k ensures k in Inits(t) <==> k in Inits(r) && k != j { PatchEnds(r, j, Bl(stub, j), k); }
  }

  // No two occurrences share a byte.
  lemma OnlyOwner(s: seq<Byte>, done: set<int>, j: int, i: int)
    requires done <= Inits(s) && j in done && j <= i < j + 12
    ensures forall k :: k in done && k <= i < k + 12 ==> k == j
  {
    forall k | k in done && k <= i < k + 12 ensures k == j {
      if k < j { InitApart(s, k, j); } else if j < k { InitApart(s, j, k); }
    }
  }

  // ---- the stub

  // Rounding up to four bytes, (x + 3) & ~3
  function AlignUp4(x: nat): nat { x + 3 - (x + 3) % 4 }

  lemma AlignBits(x: nat)
    requires x + 3 < SIZE_T
    ensures AlignUp4(x) == BitAnd(x + 3, BitNot(3))
  {
    assert Bits.Pow2(2) == 4;
    AndNotLow(x + 3, 2);
  }

  lemma StringByte(s: seq<Byte>, q: int, i: int)
    requires At(s, q, STRING) && q <= i < q + 38
    ensures s[i] < 0x80
  {
    assert Same(s, q, STRING, i - q);
  }

  lemma StringApart(s: seq<Byte>, q: int, j: int)
    requires At(s, q, STRING) && At(s, j, INIT)
    ensures j + 12 <= q || q + 38 <= j
  {
    hide At;
    InitByte(s, j, j);
    InitByte(s, j, j + 11);
    if q <= j < q + 38 { StringByte(s, q, j); } else if q <= j + 11 < q + 38 { StringByte(s, q, j + 11); }
  }

  ghost predicate FirstString(img: seq<Byte>, q: nat) {
    At(img, q, STRING) && forall j :: At(img, j, STRING) ==> q <= j
  }

  // The rewriting does not touch the string.
  lemma StringKept(s: seq<Byte>, stub: int, done: set<int>, q: int)
    requires At(s, q, STRING) && done <= Inits(s)
    ensures At(Replaced(s, stub, done), q, STRING)
  {
    var r := Replaced(s, stub, done);
    forall k {:trigger Same(r, q, STRING, k)} | 0 <= k < 38 ensures Same(r, q, STRING, k) {
      assert Same(s, q, STRING, k);
      forall j | j in done ensures !(j <= q + k < j + 12) { StringApart(s, q, j); }
    }
  }

  // The stub lies inside the string and is aligned.
  lemma StubInside(q: nat)
    ensures q <= AlignUp4(q) && AlignUp4(q) + |STUB_TEXT| <= q + |STRING| && AlignUp4(q) % 4 == 0
  {}

  lemma StubBytes(t: seq<Byte>, stub: int, i: int)
    requires At(t, stub, STUB_TEXT) && stub <= i < stub + 24
    ensures t[i] != 0xff
    ensures i == stub ==> t[i] == 0
    ensures i == stub + 1 ==> t[i] == 0
    ensures i == stub + 2 ==> t[i] == 0x90
  {
    assert Same(t, stub, STUB_TEXT, i - stub);
  }

  lemma InitZero(s: seq<Byte>, k: int, i: int)
    requires At(s, k, INIT) && k < i < k + 12 && s[i] == 0
    ensures i <= k + 5 && (s[i + 1] == 0x80 || (s[i + 1] == 0 && s[i + 2] == 0x80))
  {
    assert Same(s, k, INIT, i - k);
    assert i == k + 4 || i == k + 5;
    assert Same(s, k, INIT, 5) && Same(s, k, INIT, 6);
  }

  // No end of the init sequence is a beginning of the stub, and the stub holds no beginning of the init sequence.
  lemma NoInitAcross(t: seq<Byte>, stub: int, k: int)
    requires At(t, stub, STUB_TEXT) && stub - 12 < k < stub + 24
    ensures !At(t, k, INIT)
  {
    hide At;
    StubBytes(t, stub, stub);
    StubBytes(t, stub, stub + 1);
    StubBytes(t, stub, stub + 2);
    if k >= stub { StubBytes(t, stub, k); }
    if At(t, k, INIT) {
      if k >= stub { InitByte(t, k, k); } else { InitZero(t, k, stub); }
    }
  }

  lemma StubAt(s: seq<Byte>, stub: nat)
    requires stub + |STUB_TEXT| <= |s|
    ensures At(Splice(s, stub, STUB_TEXT), stub, STUB_TEXT)
  {}

  // Copying the stub over a part of an image starts no init sequence.
  lemma StubStartsNone(s: seq<Byte>, stub: nat)
    requires stub + |STUB_TEXT| <= |s|
    ensures Inits(Splice(s, stub, STUB_TEXT)) <= Inits(s)
  {
    var t := Splice(s, stub, STUB_TEXT);
    StubAt(s, stub);
    forall k | k in Inits(t) ensures k in Inits(s) {
      if stub - 12 < k < stub + 24 { NoInitAcross(t, stub, k); }
      AtElsewhere(t, s, k, INIT, stub, stub + 24);
    }
  }

  // ---- the whole patch

  // What patch_el3 makes of an image whose first stub string is at q
  ghost function Patched(s: seq<Byte>, q: nat): (r: seq<Byte>)
    requires q + |STRING| <= |s|
    ensures |r| == |s|
  {
    StubInside(q);
    Splice(Replaced(s, AlignUp4(q), Inits(s)), AlignUp4(q), STUB_TEXT)
  }

  // What the second word of a rewritten occurrence does
  ghost predicate Calls(r: seq<Byte>, j: int, stub: int)
    requires 0 <= j && j + 8 <= |r|
  {
    var w := Word4(r[j + 4..j + 8]);
    IsBl(w) && (BlTarget(w, j + 4) == stub <==> InRange(stub, j + 4))
  }

  // Byte i is in the second word of an init sequence.
  ghost predicate Overwritten(s: seq<Byte>, i: int) {
    exists j :: j in Inits(s) && j + 4 <= i < j + 8
  }

  // The patched image holds no init sequence any more, the stub stands where the string was, every old occurrence
  // calls it if it can be reached at all, and no other byte has changed.
  lemma PatchedImage(s: seq<Byte>, q: nat)
    requires At(s, q, STRING)
    ensures var r, stub := Patched(s, q), AlignUp4(q);
      && Inits(Replaced(s, stub, Inits(s))) == {}
      && Inits(r) == {}
      && At(r, stub, STUB_TEXT) && q <= stub && stub + |STUB_TEXT| <= q + |STRING|
      && (forall j :: j in Inits(s) ==> Calls(r, j, stub))
      && (forall i :: 0 <= i < |s| && !(stub <= i < stub + |STUB_TEXT|) && !Overwritten(s, i) ==> r[i] == s[i])
  {
    var stub := AlignUp4(q);
    var m := Replaced(s, stub, Inits(s));
    var r := Patched(s, q);
    StubInside(q);
    AllReplaced(s, stub, Inits(s));
    StubStartsNone(m, stub);
    StubAt(m, stub);
    forall j | j in Inits(s) ensures Calls(r, j, stub) { OccurrenceCalls(s, q, j); }
  }

  // patch_el3 returns 0 as soon as there is a stub string. That it has done more than copy the stub is exactly that the
  // image holds an init sequence.
  lemma PatchedOrNot(s: seq<Byte>, q: nat)
    requires At(s, q, STRING)
    ensures Patched(s, q) != Splice(s, AlignUp4(q), STUB_TEXT) <==> Inits(s) != {}
  {
    var stub := AlignUp4(q);
    StubInside(q);
    if Inits(s) == {} {
      assert Replaced(s, stub, {}) == s;
    } else {
      var j :| j in Inits(s);
      InitByte(s, j, j + 7);
      StringApart(s, q, j);
      Rewritten(s, stub, Inits(s), j);
      assert Patched(s, q)[j + 7] == Replaced(s, stub, Inits(s))[j + 4..j + 8][3] == Bl(stub, j)[3];
    }
  }

  // An image that is nothing but the string gets the stub and no call of it.
  lemma StubNeverCalled(s: seq<Byte>)
    requires s == STRING
    ensures FirstString(s, 0) && Inits(s) == {}
    ensures Patched(s, 0) == Splice(s, 0, STUB_TEXT)
  {
    hide Patched, Splice, Occurrences, Same;
    StringAlone(s);
    PatchedOrNot(s, 0);
  }

  lemma StringAlone(s: seq<Byte>)
    requires s == STRING
    ensures FirstString(s, 0) && Inits(s) == {}
  {
    assert At(s, 0, s);
    hide Same;
    forall j | At(s, j, INIT) ensures false { StringApart(s, 0, j); }
  }

  lemma OccurrenceCalls(s: seq<Byte>, q: nat, j: int)
    requires At(s, q, STRING) && j in Inits(s)
    ensures Calls(Patched(s, q), j, AlignUp4(q))
  {
    var stub := AlignUp4(q);
    StringApart(s, q, j);
    Rewritten(s, stub, Inits(s), j);
    hide Replaced, At, Word4, Bytes4, BlInstr, BlTarget, IsBl, InRange;
    assert Patched(s, q)[j + 4..j + 8] == Replaced(s, stub, Inits(s))[j + 4..j + 8];
    Word4Bytes4(BlInstr(stub, j + 4));
    BlReaches(stub, j + 4);
  }

  lemma Rewritten(s: seq<Byte>, stub: int, done: set<int>, j: int)
    requires done <= Inits(s) && j in done
    ensures j + 8 <= |s| && Replaced(s, stub, done)[j + 4..j + 8] == Bl(stub, j)
  {
    hide Bl;
    var r := Replaced(s, stub, done);
    forall i | j + 4 <= i < j + 8 ensures r[i] == Bl(stub, j)[i - j - 4] { OnlyOwner(s, done, j, i); }
  }

  // Once every occurrence is rewritten there is none left.
  lemma {:induction false} AllReplaced(s: seq<Byte>, stub: int, done: set<int>)
    requires done <= Inits(s)
    ensures Inits(Replaced(s, stub, done)) == Inits(s) - done
  {
    if done == {} {
      assert Replaced(s, stub, done) == s;
    } else {
      var j :| j in done;
      AllReplaced(s, stub, done - {j});
      assert j in Inits(Replaced(s, stub, done - {j}));
      ReplaceStep(s, stub, done - {j}, j);
      assert done - {j} + {j} == done;
    }
  }

  // ---- the firmware package around the image

  const MAGIC := 0x12345678_AA640001

  // uuid of the BL31 image
  const UUID: seq<Byte> := [
    0x47, 0xd4, 0x08, 0x6d, 0x4c, 0xfe, 0x98, 0x46, 0x9b, 0x95, 0x29, 0x50, 0xcb, 0xbd, 0x5a, 0x00]

  // Where entry e starts: behind magic and serial number, 40 bytes each (uuid, file_offset, file_size, flags)
  function EntryAt(e: nat): nat { 16 + 40 * e }

  const ENTRIES := 16
  const HEADER_BYTES := 656

  // The fields of the package header and of its entries, packed
  datatype Field =
    | TocMagic
    | Serial
    | Uuid(entry: nat)
    | OffsetField(entry: nat)
    | SizeField(entry: nat)
    | Flags(entry: nat)

  function Position(x: Field): nat {
    match x
    case TocMagic => 0
    case Serial => 8
    case Uuid(e) => 16 + 40 * e
    case OffsetField(e) => 32 + 40 * e
    case SizeField(e) => 40 + 40 * e
    case Flags(e) => 48 + 40 * e
  }

  function Length(x: Field): nat { if x.Uuid? then 16 else 8 }

  // The field declared before x
  function Before(x: Field): Field
    requires !x.TocMagic?
  {
    match x
    case Serial => TocMagic
    case Uuid(e) => if e == 0 then Serial else Flags(e - 1)
    case OffsetField(e) => Uuid(e)
    case SizeField(e) => OffsetField(e)
    case Flags(e) => SizeField(e)
  }

  lemma FieldsPacked(x: Field)
    ensures x.TocMagic? ==> Position(x) == 0
    ensures !x.TocMagic? ==> Position(x) == Position(Before(x)) + Length(Before(x))
  {}

  // What is read of the package is read from these fields.
  lemma FieldsRead(s: seq<Byte>, e: nat)
    requires |s| >= HEADER_BYTES && e < 16
    ensures Position(Flags(15)) + Length(Flags(15)) == HEADER_BYTES && EntryAt(e) + 32 <= |s|
    ensures Magic(s) <==>
      s[Position(TocMagic)..Position(TocMagic) + 8] == [0x01, 0x00, 0x64, 0xaa, 0x78, 0x56, 0x34, 0x12]
    ensures IsBl31(s, e) <==> s[Position(Uuid(e))..Position(Uuid(e)) + 16] == UUID
    ensures FileOffset(s, e) == LittleEndian(s[Position(OffsetField(e))..Position(OffsetField(e)) + 8])
    ensures FileSize(s, e) == LittleEndian(s[Position(SizeField(e))..Position(SizeField(e)) + 8])
  {
    assert s[0..8] == s[..8];
    MagicBytes(s[..8]);
  }

  lemma {:induction false} LittleEndianBack(b: seq<Byte>, c: seq<Byte>)
    requires |b| == |c| && LittleEndian(b) == LittleEndian(c)
    ensures b == c
  {
    if b != [] {
      LittleEndianBack(b[1..], c[1..]);
      assert b == [b[0]] + b[1..] && c == [c[0]] + c[1..];
    }
  }

  lemma MagicBytes(b: seq<Byte>)
    requires |b| == 8
    ensures LittleEndian(b) == MAGIC <==> b == [0x01, 0x00, 0x64, 0xaa, 0x78, 0x56, 0x34, 0x12]
  {
    var c: seq<Byte> := [0x01, 0x00, 0x64, 0xaa, 0x78, 0x56, 0x34, 0x12];
    MagicValue(c);
    if LittleEndian(b) == MAGIC { LittleEndianBack(b, c); }
  }

  lemma MagicValue(c: seq<Byte>)
    requires c == [0x01, 0x00, 0x64, 0xaa, 0x78, 0x56, 0x34, 0x12]
    ensures LittleEndian(c) == MAGIC
  {
    Little(c, 7);
    Little(c, 6);
    Little(c, 5);
    Little(c, 4);
    Little(c, 3);
    Little(c, 2);
    Little(c, 1);
    Little(c, 0);
    hide LittleEndian;
    assert c[0..] == c;
  }

  // 6d08d447-fe4c-4698-9b95-2950cbbd5a00, its first three groups little-endian
  lemma UuidText()
    ensures LittleEndian(UUID[0..4]) == 0x6d08d447 && LittleEndian(UUID[4..6]) == 0xfe4c
    ensures LittleEndian(UUID[6..8]) == 0x4698 && UUID[8..] == [0x9b, 0x95, 0x29, 0x50, 0xcb, 0xbd, 0x5a, 0x00]
  {
    hide LittleEndian;
    Little4(UUID[0..4]);
    Little2(UUID[4..6]);
    Little2(UUID[6..8]);
  }

  predicate Magic(s: seq<Byte>)
    requires |s| >= HEADER_BYTES
  {
    LittleEndian(s[..8]) == MAGIC
  }

  predicate IsBl31(s: seq<Byte>, e: nat)
    requires EntryAt(e) + 32 <= |s|
  {
    s[EntryAt(e)..EntryAt(e) + 16] == UUID
  }

  // The first entry from i on that describes the BL31 image
  function Bl31From(s: seq<Byte>, i: nat): (e: int)
    requires |s| >= HEADER_BYTES && i <= ENTRIES
    ensures e == -1 || i <= e < ENTRIES
    decreases ENTRIES - i
  {
    if i == ENTRIES then -1
    else if IsBl31(s, i) then i
    else Bl31From(s, i + 1)
  }

  // It is the least one of the sixteen.
  lemma Bl31First(s: seq<Byte>)
    requires |s| >= HEADER_BYTES
    ensures Bl31From(s, 0) == -1 <==> forall e :: 0 <= e < 16 ==> !IsBl31(s, e)
    ensures Bl31From(s, 0) != -1 ==>
      IsBl31(s, Bl31From(s, 0)) && forall e :: 0 <= e < Bl31From(s, 0) ==> !IsBl31(s, e)
  {
    Bl31Least(s, 0);
  }

  lemma {:induction false} Bl31Least(s: seq<Byte>, i: nat)
    requires |s| >= HEADER_BYTES && i <= ENTRIES
    ensures Bl31From(s, i) == -1 <==> forall e :: i <= e < ENTRIES ==> !IsBl31(s, e)
    ensures Bl31From(s, i) != -1 ==>
      IsBl31(s, Bl31From(s, i)) && forall e :: i <= e < Bl31From(s, i) ==> !IsBl31(s, e)
    decreases ENTRIES - i
  {
    hide IsBl31;
    if i < ENTRIES { Bl31Least(s, i + 1); }
  }

  function Bl31(s: seq<Byte>): int
    requires |s| >= HEADER_BYTES
  {
    if Magic(s) then Bl31From(s, 0) else -1
  }

  function FileOffset(s: seq<Byte>, e: nat): nat
    requires EntryAt(e) + 32 <= |s|
  {
    LittleEndian(s[EntryAt(e) + 16..EntryAt(e) + 24])
  }

  function FileSize(s: seq<Byte>, e: nat): nat
    requires EntryAt(e) + 32 <= |s|
  {
    LittleEndian(s[EntryAt(e) + 24..EntryAt(e) + 32])
  }

  // The image lies in the buffer and is no shorter than the patterns: past its end the search would read outside.
  predicate ImageOk(s: seq<Byte>, e: nat)
    requires EntryAt(e) + 32 <= |s|
  {
    FileOffset(s, e) + FileSize(s, e) <= |s| && FileSize(s, e) >= |STRING|
  }

  function Image(s: seq<Byte>, e: nat): (img: seq<Byte>)
    requires EntryAt(e) + 32 <= |s| && ImageOk(s, e)
    ensures |img| == FileSize(s, e) >= |STRING|
  {
    s[FileOffset(s, e)..FileOffset(s, e) + FileSize(s, e)]
  }

  const STUB_PATTERNS := [Pattern(STRING, NoMask)]
  const INIT_PATTERN := [Pattern(INIT, NoMask)]

  lemma SearchedPlain(b: seq<Byte>, s: seq<Byte>, found: int)
    requires FirstMatch([Pattern(b, NoMask)], s, found)
    ensures found == -1 ==> Occurrences(s, b) == {}
    ensures found != -1 ==> 0 <= found && found + |b| <= |s| && found in Occurrences(s, b)
    ensures found != -1 ==> At(s, found, b) && forall j :: At(s, j, b) ==> found <= j
  {
    assert [Pattern(b, NoMask)][0] == Pattern(b, NoMask);
    forall j ensures MatchesAt(s, j, Pattern(b, NoMask)) <==> At(s, j, b) { PlainMatch(s, j, b); }
  }

  // The entry that locates the image is read again on every pass of the loop, and nothing keeps it out of the image.
  // In a buffer of less than 2^47 bytes no init sequence has its second word on the two fields that are read: its bytes
  // 0xff, 0xd5, 0x80 and 0xd2 are neither in the end of the uuid nor at the top of a field.
  const BUFFER_LIMIT := 0x8000_0000_0000

  lemma TopBytes(b: seq<Byte>)
    requires |b| == 8 && LittleEndian(b) < BUFFER_LIMIT
    ensures b[5] < 0x80 && b[6] == 0 && b[7] == 0
  {
    hide LittleEndian;
    assert b[0..] == b;
    Little(b, 0);
    Little(b, 1);
    Little(b, 2);
    Little(b, 3);
    Little(b, 4);
    Little(b, 5);
    Little(b, 6);
    Little(b, 7);
    assert LittleEndian(b[1..]) < 0x80_0000_0000;
    assert LittleEndian(b[2..]) < 0x8000_0000;
    assert LittleEndian(b[3..]) < 0x80_0000;
    assert LittleEndian(b[4..]) < 0x8000;
    assert LittleEndian(b[5..]) < 0x80;
  }

  // What the bytes from the second half of the uuid to the end of file_size are not
  lemma FieldBytes(s: seq<Byte>, e: nat, i: int)
    requires EntryAt(e) + 32 <= |s| < BUFFER_LIMIT && IsBl31(s, e) && ImageOk(s, e)
    ensures var f := EntryAt(e) + 16; f - 7 <= i < f ==> s[i] != 0xff
    ensures var f := EntryAt(e) + 16; i == f + 5 || i == f + 13 ==> s[i] < 0x80
    ensures var f := EntryAt(e) + 16; f + 6 <= i < f + 8 || f + 14 <= i < f + 16 ==> s[i] == 0
  {
    var a := EntryAt(e);
    if a + 9 <= i < a + 16 { assert s[a..a + 16][i - a] == UUID[i - a]; }
    TopBytes(s[a + 16..a + 24]);
    TopBytes(s[a + 24..a + 32]);
  }

  lemma NoInitOnEntry(s: seq<Byte>, e: nat, k: int)
    requires EntryAt(e) + 32 <= |s| < BUFFER_LIMIT && IsBl31(s, e) && ImageOk(s, e)
    requires At(s, k, INIT)
    ensures k + 8 <= EntryAt(e) + 16 || EntryAt(e) + 32 <= k + 4
  {
    hide IsBl31, ImageOk;
    assert Same(s, k, INIT, 0) && Same(s, k, INIT, 3) && Same(s, k, INIT, 6);
    FieldBytes(s, e, k);
    FieldBytes(s, e, k + 3);
    FieldBytes(s, e, k + 6);
  }

  // So the entry reads the same after every pass.
  lemma SameEntry(s: seq<Byte>, t: seq<Byte>, e: nat)
    requires EntryAt(e) + 32 <= |s| == |t|
    requires forall i :: EntryAt(e) + 16 <= i < EntryAt(e) + 32 ==> t[i] == s[i]
    ensures FileOffset(t, e) == FileOffset(s, e) && FileSize(t, e) == FileSize(s, e)
  {
    var a := EntryAt(e) + 16;
    assert t[a..a + 8] == s[a..a + 8] && t[a + 8..a + 16] == s[a + 8..a + 16];
  }

  lemma ImageInit(s: seq<Byte>, e: nat, j: int)
    requires EntryAt(e) + 32 <= |s| && ImageOk(s, e) && At(Image(s, e), j, INIT)
    ensures At(s, FileOffset(s, e) + j, INIT)
  {
    hide LittleEndian;
    ShiftedAt(s, FileOffset(s, e), FileSize(s, e), j);
  }

  lemma ShiftedAt(s: seq<Byte>, off: nat, size: nat, j: int)
    requires off + size <= |s| && At(s[off..off + size], j, INIT)
    ensures At(s, off + j, INIT)
  {
    forall k {:trigger Same(s, off + j, INIT, k)} | 0 <= k < 12 ensures Same(s, off + j, INIT, k) {
      assert Same(s[off..off + size], j, INIT, k);
    }
  }

  method FindBl31(buf: array<Byte>) returns (e: int)
    requires buf.Length >= HEADER_BYTES
    ensures e == Bl31From(buf[..], 0)
    ensures e != -1 ==> IsBl31(buf[..], e)
  {
    hide IsBl31;
    e := -1;
    for i := 0 to ENTRIES
      invariant Bl31From(buf[..], 0) == Bl31From(buf[..], i)
    {
      if IsBl31(buf[..], i) {
        return i;
      }
    }
  }

  // s with its image replaced by r
  ghost function Framed(s: seq<Byte>, e: nat, r: seq<Byte>): (t: seq<Byte>)
    requires EntryAt(e) + 32 <= |s| && ImageOk(s, e) && |r| == FileSize(s, e)
    ensures |t| == |s|
  {
    s[..FileOffset(s, e)] + r + s[FileOffset(s, e) + FileSize(s, e)..]
  }

  lemma FramedEntry(s: seq<Byte>, e: nat, stub: int, done: set<int>)
    requires EntryAt(e) + 32 <= |s| < BUFFER_LIMIT && IsBl31(s, e) && ImageOk(s, e)
    requires done <= Inits(Image(s, e))
    ensures var r := Replaced(Image(s, e), stub, done); var t := Framed(s, e, r);
      && var off, size := FileOffset(s, e), FileSize(s, e);
      && FileOffset(t, e) == off && FileSize(t, e) == size && off + size <= |t| && t[off..off + size] == r
  {
    var off := FileOffset(s, e);
    var t := Framed(s, e, Replaced(Image(s, e), stub, done));
    hide FileOffset, FileSize, At, IsBl31;
    forall i | EntryAt(e) + 16 <= i < EntryAt(e) + 32 ensures t[i] == s[i] {
      forall j | j in done ensures !(off + j + 4 <= i < off + j + 8) {
        ImageInit(s, e, j);
        NoInitOnEntry(s, e, off + j);
      }
    }
    SameEntry(s, t, e);
  }

  lemma FramedSplice(s: seq<Byte>, e: nat, r: seq<Byte>, at: nat, b: seq<Byte>)
    requires EntryAt(e) + 32 <= |s| && ImageOk(s, e) && |r| == FileSize(s, e) && at + |b| <= |r|
    ensures Splice(Framed(s, e, r), FileOffset(s, e) + at, b) == Framed(s, e, Splice(r, at, b))
  {
    hide FileOffset, FileSize;
  }

  // patch_bl.c:147-172; the stub's place is relative to the image. Every pass leaves fewer occurrences.
  method RewriteInits(buf: array<Byte>, e: nat, stub: int) returns (ret: int)
    requires EntryAt(e) + 32 <= buf.Length < BUFFER_LIMIT && IsBl31(buf[..], e) && ImageOk(buf[..], e)
    modifies buf
    ensures var s := old(buf[..]); var img := Image(s, e);
      && buf[..] == Framed(s, e, Replaced(img, stub, Inits(img)))
      && ret == if Inits(img) == {} then 1 else 0
  {
    hide Replaced, Occurrences, At, FirstMatch, Bl, Framed, FileOffset, FileSize, IsBl31, ImageOk, Image, Splice;
    ghost var s, img := buf[..], Image(buf[..], e);
    ghost var done: set<int> := {};
    var patched := false;
    ret := 1;
    NothingDone(s, e, stub);
    while true
      invariant done <= Inits(img) && Inits(Replaced(img, stub, done)) == Inits(img) - done
      invariant buf[..] == Framed(s, e, Replaced(img, stub, done))
      invariant patched <==> done != {}
      decreases Inits(img) - done
    {
      ghost var r := Replaced(img, stub, done);
      FramedEntry(s, e, stub, done);
      var off := FileOffset(buf[..], e);
      var init := SearchPatternInBuffer(INIT_PATTERN, buf, off, FileSize(buf[..], e));
      SearchedPlain(INIT, r, init);
      if init == -1 {
        ret := if patched then 0 else 1;
        break;
      }
      patched := true;
      ReplaceStep(img, stub, done, init);
      FramedSplice(s, e, r, init + 4, Bl(stub, init));
      CopyInto(buf, off + (init + 4), Bl(stub, init));
      done := done + {init};
    }
    assert done == Inits(img);
  }

  lemma NothingDone(s: seq<Byte>, e: nat, stub: int)
    requires EntryAt(e) + 32 <= |s| && ImageOk(s, e)
    ensures Replaced(Image(s, e), stub, {}) == Image(s, e) && Framed(s, e, Image(s, e)) == s
  {}

  method PatchEl3(buf: array<Byte>) returns (ret: int)
    requires HEADER_BYTES <= buf.Length < BUFFER_LIMIT
    requires Bl31(buf[..]) != -1 ==> ImageOk(buf[..], Bl31(buf[..]))
    modifies buf
    ensures ret == 1 || ret == 0
    ensures ret == 1 <==> Bl31(old(buf[..])) == -1 || Occurrences(Image(old(buf[..]), Bl31(old(buf[..]))), STRING) == {}
    ensures ret == 1 ==> buf[..] == old(buf[..])
    ensures ret == 0 ==> var s := old(buf[..]); var e := Bl31(s);
      exists q: nat :: FirstString(Image(s, e), q) && buf[..] == Framed(s, e, Patched(Image(s, e), q))
  {
    hide Replaced, Occurrences, At, FirstMatch, Framed, FileOffset, FileSize, IsBl31, ImageOk, Image, Splice;
    ghost var s := buf[..];
    ret := 1;
    assert buf[..][..8] == buf[..8];
    if LittleEndian(buf[..8]) != MAGIC {
      return 1;
    }
    var e := FindBl31(buf);
    if e == -1 {
      return 1;
    }
    ghost var img := Image(s, e);
    NothingDone(s, e, 0);
    FramedEntry(s, e, 0, {});
    var stub := -1;
    for i := 0 to |STUB_PATTERNS|
      invariant buf[..] == s && stub == -1 && (i > 0 ==> Occurrences(img, STRING) == {})
    {
      stub := SearchPatternInBuffer(STUB_PATTERNS[i..], buf, FileOffset(buf[..], e), FileSize(buf[..], e));
      assert STUB_PATTERNS[i..] == STUB_PATTERNS;
      SearchedPlain(STRING, img, stub);
      if stub != -1 {
        break;
      }
    }
    if stub == -1 {
      return 1;
    }
    ghost var q := stub;
    stub := AlignUp4(stub);
    StubInside(q);
    var start := FileOffset(buf[..], e) + stub;
    ret := RewriteInits(buf, e, stub);
    FramedSplice(s, e, Replaced(img, stub, Inits(img)), stub, STUB_TEXT);
    CopyInto(buf, start, STUB_TEXT);
    ret := 0;
    assert FirstString(img, q) && buf[..] == Framed(s, e, Patched(img, q));
  }
}
