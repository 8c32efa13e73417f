// What the code does that the patcher finds and the code that it leaves behind.
module Stub {
  import opened Bits
  import opened Bytes
  import opened Patterns
  import opened A64
  import opened Patcher

  // S3_6_C10_C5_0 is MPAM3_EL3, S3_6_C1_C1_2 is CPTR_EL3; op1 3 and op2 7 name DAIFClr.
  const MPAM3_EL3 := SysReg(3, 6, 10, 5, 0)
  const CPTR_EL3 := SysReg(3, 6, 1, 1, 2)
  const MPAM_ENABLE := 0x8000_0000_0000_0000

  // ---- the words

  // The word at position k of b
  function WordIn(b: seq<Byte>, k: nat): nat
    requires k + 4 <= |b|
  {
    LittleEndian(b[k..k + 4])
  }

  lemma WordIs(b: seq<Byte>, k: nat, b0: int, b1: int, b2: int, b3: int)
    requires k + 4 <= |b| && b[k] == b0 && b[k + 1] == b1 && b[k + 2] == b2 && b[k + 3] == b3
    ensures WordIn(b, k) == b0 + 0x100 * b1 + 0x1_0000 * b2 + 0x100_0000 * b3
  {
    Little4(b[k..k + 4]);
  }

  lemma WordAt(m: seq<Byte>, p: int, b: seq<Byte>, k: nat)
    requires At(m, p, b) && k + 4 <= |b|
    ensures 0 <= p && p + k + 4 <= |m| && WordIn(m, p + k) == WordIn(b, k)
  {
    assert Same(m, p, b, k) && Same(m, p, b, k + 1) && Same(m, p, b, k + 2) && Same(m, p, b, k + 3);
    assert m[p + k..p + k + 4] == b[k..k + 4];
  }

  lemma StubHead()
    ensures WordIn(STUB_TEXT, 0) == 0xd290_0000 && WordIn(STUB_TEXT, 4) == 0xd350_3c00
    ensures WordIn(STUB_TEXT, 8) == 0xd51e_a500
  {
    hide WordIn;
    WordIs(STUB_TEXT, 0, 0x00, 0x00, 0x90, 0xd2);
    WordIs(STUB_TEXT, 4, 0x00, 0x3c, 0x50, 0xd3);
    WordIs(STUB_TEXT, 8, 0x00, 0xa5, 0x1e, 0xd5);
  }

  lemma StubTail()
    ensures WordIn(STUB_TEXT, 12) == 0xd503_3fdf
    ensures WordIn(STUB_TEXT, 16) == 0xd280_0000 && WordIn(STUB_TEXT, 20) == 0xd65f_03c0
  {
    hide WordIn;
    WordIs(STUB_TEXT, 12, 0xdf, 0x3f, 0x03, 0xd5);
    WordIs(STUB_TEXT, 16, 0x00, 0x00, 0x80, 0xd2);
    WordIs(STUB_TEXT, 20, 0xc0, 0x03, 0x5f, 0xd6);
  }

  lemma InitWords()
    ensures WordIn(INIT, 0) == 0xd503_44ff && WordIn(INIT, 4) == 0xd280_0000 && WordIn(INIT, 8) == 0xd51e_1140
  {
    hide WordIn;
    WordIs(INIT, 0, 0xff, 0x44, 0x03, 0xd5);
    WordIs(INIT, 4, 0x00, 0x00, 0x80, 0xd2);
    WordIs(INIT, 8, 0x40, 0x11, 0x1e, 0xd5);
  }

  lemma Moves()
    ensures Decode(0xd290_0000) == Movz(0, 0x8000) && Decode(0xd280_0000) == Movz(0, 0)
  {
    hide Decode, Pow2;
    OnePattern(0xd290_0000);
    OnePattern(0xd280_0000);
    NoShift();
  }

  lemma NoShift() ensures Pow2(0) == 1 {}

  lemma ShiftAndReturn()
    ensures Decode(0xd350_3c00) == Lsl(0, 0, 48) && Decode(0xd65f_03c0) == Ret(30)
  {
    hide Decode, Pow2;
    OnePattern(0xd350_3c00);
    OnePattern(0xd65f_03c0);
  }

  lemma RegisterWrites()
    ensures Decode(0xd51e_a500) == Msr(MPAM3_EL3, 0) && Decode(0xd51e_1140) == Msr(CPTR_EL3, 0)
  {
    hide Decode, Pow2;
    OnePattern(0xd51e_a500);
    OnePattern(0xd51e_1140);
  }

  lemma OtherWrites()
    ensures Decode(0xd503_3fdf) == Isb && Decode(0xd503_44ff) == MsrImmediate(3, 7, 4)
  {
    hide Decode, Pow2;
    OnePattern(0xd503_3fdf);
    OnePattern(0xd503_44ff);
  }

  // ---- runs

  lemma Shifted()
    ensures 0x8000 * Pow2(48) % TWO_64 == MPAM_ENABLE
  {
    hide Pow2;
    Pow2Small();
    Pow2Add(32, 16);
  }

  // What one instruction at position c.pc does
  lemma Runs1(m: seq<Byte>, c: Cpu, n: nat, i: Instr)
    requires c.Cpu? && 0 <= c.pc && c.pc + 4 <= |m| && c.pc % 4 == 0 && Decode(WordIn(m, c.pc)) == i
    ensures Steps(m, c, n + 1) == Steps(m, Perform(i, c), n)
  {
    hide Decode, Perform;
  }

  // The word at position k of b, which is in m at p, runs as i.
  lemma Runs(m: seq<Byte>, p: int, b: seq<Byte>, k: nat, c: Cpu, n: nat, i: Instr)
    requires At(m, p, b) && k + 4 <= |b| && k % 4 == 0 && p % 4 == 0 && Decode(WordIn(b, k)) == i
    requires c.Cpu? && c.pc == p + k
    ensures Steps(m, c, n + 1) == Steps(m, Perform(i, c), n)
  {
    hide Decode, Perform, Steps;
    WordAt(m, p, b, k);
    Runs1(m, c, n, i);
  }

  // The stub switches MPAM on, lets that take effect, and returns with 0 in x0, whatever x0 was.
  lemma StubRuns(m: seq<Byte>, stub: int, c: Cpu)
    requires At(m, stub, STUB_TEXT) && stub % 4 == 0 && c.Cpu? && c.pc == stub && |c.x| == 31
    ensures Steps(m, c, 6) == Cpu(c.x[30], c.x[0 := 0], c.log + [Wrote(MPAM3_EL3, MPAM_ENABLE), Synchronized])
  {
    StubHead();
    StubTail();
    Moves();
    ShiftAndReturn();
    RegisterWrites();
    OtherWrites();
    Shifted();
    hide Decode, WordIn, At, Steps, Pow2;
    var c1 := Cpu(stub + 4, c.x[0 := 0x8000], c.log);
    var c2 := Cpu(stub + 8, c.x[0 := MPAM_ENABLE], c.log);
    var c3 := Cpu(stub + 12, c2.x, c.log + [Wrote(MPAM3_EL3, MPAM_ENABLE)]);
    var c4 := Cpu(stub + 16, c2.x, c.log + [Wrote(MPAM3_EL3, MPAM_ENABLE)] + [Synchronized]);
    var c5 := Cpu(stub + 20, c.x[0 := 0], c4.log);
    assert c.x[0 := 0x8000][0 := MPAM_ENABLE] == c2.x && c2.x[0 := 0] == c.x[0 := 0];
    Runs(m, stub, STUB_TEXT, 0, c, 5, Movz(0, 0x8000));
    Runs(m, stub, STUB_TEXT, 4, c1, 4, Lsl(0, 0, 48));
    Runs(m, stub, STUB_TEXT, 8, c2, 3, Msr(MPAM3_EL3, 0));
    Runs(m, stub, STUB_TEXT, 12, c3, 2, Isb);
    Runs(m, stub, STUB_TEXT, 16, c4, 1, Movz(0, 0));
    Runs(m, stub, STUB_TEXT, 20, c5, 0, Ret(30));
    StepsNone(m, Perform(Ret(30), c5));
    assert c.log + [Wrote(MPAM3_EL3, MPAM_ENABLE)] + [Synchronized]
      == c.log + [Wrote(MPAM3_EL3, MPAM_ENABLE), Synchronized];
  }

  // The sequence that is searched for clears an exception mask bit and writes 0 to CPTR_EL3.
  lemma InitRuns(m: seq<Byte>, j: int, c: Cpu)
    requires At(m, j, INIT) && j % 4 == 0 && c.Cpu? && c.pc == j && |c.x| == 31
    ensures Steps(m, c, 3) == Cpu(j + 12, c.x[0 := 0], c.log + [WroteField(3, 7, 4), Wrote(CPTR_EL3, 0)])
  {
    InitWords();
    Moves();
    RegisterWrites();
    OtherWrites();
    hide Decode, WordIn, At, Steps;
    var c1 := Cpu(j + 4, c.x, c.log + [WroteField(3, 7, 4)]);
    var c2 := Cpu(j + 8, c.x[0 := 0], c1.log);
    Runs(m, j, INIT, 0, c, 2, MsrImmediate(3, 7, 4));
    Runs(m, j, INIT, 4, c1, 1, Movz(0, 0));
    Runs(m, j, INIT, 8, c2, 0, Msr(CPTR_EL3, 0));
    StepsNone(m, Perform(Msr(CPTR_EL3, 0), c2));
    assert c1.log + [Wrote(CPTR_EL3, 0)] == c.log + [WroteField(3, 7, 4), Wrote(CPTR_EL3, 0)];
  }

  lemma BlDecodes(w: nat, pc: int)
    requires IsBl(w)
    ensures Decode(w) == Bl(BlTarget(w, pc) - pc)
  {
    hide Decode, Pow2;
    OnePattern(w);
  }

  // Of a rewritten occurrence the first and the last word are as they were.
  lemma ByteKept(s: seq<Byte>, q: nat, j: int, i: int)
    requires At(s, q, STRING) && At(s, j, INIT) && (j <= i < j + 4 || j + 8 <= i < j + 12)
    ensures i < |s| == |Patched(s, q)| && Patched(s, q)[i] == s[i]
  {
    PatchedImage(s, q);
    StringApart(s, q, j);
    StubInside(q);
    assert j in Inits(s);
    OnlyOwner(s, Inits(s), j, i);
    hide At, Patched, Calls, Replaced, Inits, AlignUp4;
  }

  lemma WordKept(s: seq<Byte>, q: nat, j: int, k: nat)
    requires At(s, q, STRING) && At(s, j, INIT) && (k == 0 || k == 8)
    ensures j + k + 4 <= |Patched(s, q)| && WordIn(Patched(s, q), j + k) == WordIn(INIT, k)
  {
    WordAt(s, j, INIT, k);
    hide At, Patched, WordIn;
    var r := Patched(s, q);
    forall i | j + k <= i < j + k + 4 ensures r[i] == s[i] { ByteKept(s, q, j, i); }
    assert r[j + k..j + k + 4] == s[j + k..j + k + 4];
    SameWord(r, s, j + k);
  }

  lemma SameWord(r: seq<Byte>, s: seq<Byte>, p: nat)
    requires p + 4 <= |r| && p + 4 <= |s| && r[p..p + 4] == s[p..p + 4]
    ensures WordIn(r, p) == WordIn(s, p)
  {}

  lemma CallDecodes(s: seq<Byte>, q: nat, j: int)
    requires At(s, q, STRING) && j in Inits(s) && InRange(AlignUp4(q), j + 4)
    requires q + |STRING| <= |s| && 0 <= j && j + 8 <= |s| == |Patched(s, q)|
    ensures j + 8 <= |Patched(s, q)| && Decode(WordIn(Patched(s, q), j + 4)) == Bl(AlignUp4(q) - (j + 4))
  {
    hide *;
    OccurrenceCalls(s, q, j);
    CallsDecode(Patched(s, q), j, AlignUp4(q));
  }

  lemma CallsDecode(r: seq<Byte>, j: int, stub: int)
    requires 0 <= j && j + 8 <= |r| && Calls(r, j, stub) && InRange(stub, j + 4)
    ensures Decode(WordIn(r, j + 4)) == Bl(stub - (j + 4))
  {
    hide Decode, BlTarget, IsBl, InRange, Word4;
    Little4(r[j + 4..j + 8]);
    BlDecodes(Word4(r[j + 4..j + 8]), j + 4);
  }

  lemma CallingRuns(r: seq<Byte>, stub: int, j: int, c: Cpu)
    requires At(r, stub, STUB_TEXT) && stub % 4 == 0 && 0 <= j && j + 12 <= |r| && j % 4 == 0
    requires Decode(WordIn(r, j)) == MsrImmediate(3, 7, 4) && Decode(WordIn(r, j + 4)) == Bl(stub - (j + 4))
    requires Decode(WordIn(r, j + 8)) == Msr(CPTR_EL3, 0)
    requires c.Cpu? && c.pc == j && |c.x| == 31
    ensures Steps(r, c, 9) == Cpu(j + 12, c.x[30 := j + 8][0 := 0],
      c.log + [WroteField(3, 7, 4), Wrote(MPAM3_EL3, MPAM_ENABLE), Synchronized, Wrote(CPTR_EL3, 0)])
  {
    hide Decode, WordIn, At, Steps;
    var c1 := Cpu(j + 4, c.x, c.log + [WroteField(3, 7, 4)]);
    var c2 := Cpu(stub, c.x[30 := j + 8], c1.log);
    var c8 := Cpu(j + 8, c2.x[0 := 0], c2.log + [Wrote(MPAM3_EL3, MPAM_ENABLE), Synchronized]);
    Runs1(r, c, 8, MsrImmediate(3, 7, 4));
    Runs1(r, c1, 7, Bl(stub - (j + 4)));
    StubRuns(r, stub, c2);
    StepsAdd(r, c2, 6, 1);
    Runs1(r, c8, 0, Msr(CPTR_EL3, 0));
    StepsNone(r, Perform(Msr(CPTR_EL3, 0), c8));
    assert c8.log + [Wrote(CPTR_EL3, 0)] == c.log
      + [WroteField(3, 7, 4), Wrote(MPAM3_EL3, MPAM_ENABLE), Synchronized, Wrote(CPTR_EL3, 0)];
  }

  // Patched, the sequence does what it did, with MPAM switched on in between; of the registers only x30 differs.
  lemma PatchedRuns(s: seq<Byte>, q: nat, j: int, c: Cpu)
    requires At(s, q, STRING) && At(s, j, INIT) && InRange(AlignUp4(q), j + 4)
    requires c.Cpu? && c.pc == j && |c.x| == 31
    ensures Steps(s, c, 3) == Cpu(j + 12, c.x[0 := 0], c.log + [WroteField(3, 7, 4), Wrote(CPTR_EL3, 0)])
    ensures Steps(Patched(s, q), c, 9) == Cpu(j + 12, c.x[30 := j + 8][0 := 0],
      c.log + [WroteField(3, 7, 4), Wrote(MPAM3_EL3, MPAM_ENABLE), Synchronized, Wrote(CPTR_EL3, 0)])
  {
    hide *;
    Placed(s, q, j);
    InitRuns(s, j, c);
    PatchedWords(s, q, j);
    CallingRuns(Patched(s, q), AlignUp4(q), j, c);
  }

  lemma Placed(s: seq<Byte>, q: nat, j: int)
    requires At(s, q, STRING) && At(s, j, INIT) && InRange(AlignUp4(q), j + 4)
    ensures j % 4 == 0 && AlignUp4(q) % 4 == 0 && 0 <= j && j + 12 <= |s| && j in Inits(s)
    ensures q + |STRING| <= |s| && |Patched(s, q)| == |s|
  {
    hide Patched;
  }

  lemma PatchedWords(s: seq<Byte>, q: nat, j: int)
    requires At(s, q, STRING) && At(s, j, INIT) && InRange(AlignUp4(q), j + 4) && j in Inits(s)
    requires q + |STRING| <= |s| && 0 <= j && j + 12 <= |s| == |Patched(s, q)|
    ensures At(Patched(s, q), AlignUp4(q), STUB_TEXT) && Decode(WordIn(Patched(s, q), j)) == MsrImmediate(3, 7, 4)
    ensures Decode(WordIn(Patched(s, q), j + 4)) == Bl(AlignUp4(q) - (j + 4))
    ensures Decode(WordIn(Patched(s, q), j + 8)) == Msr(CPTR_EL3, 0)
  {
    hide *;
    StubPlaced(s, q);
    InitWords();
    RegisterWrites();
    OtherWrites();
    WordKept(s, q, j, 0);
    WordKept(s, q, j, 8);
    CallDecodes(s, q, j);
  }

  lemma StubPlaced(s: seq<Byte>, q: nat)
    requires At(s, q, STRING)
    ensures q + |STRING| <= |s| && |Patched(s, q)| == |s| && At(Patched(s, q), AlignUp4(q), STUB_TEXT)
  {
    PatchedImage(s, q);
  }

  lemma StepsNone(m: seq<Byte>, c: Cpu)
    ensures Steps(m, c, 0) == c
  {}
}
