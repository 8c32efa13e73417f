// A few A64 instructions: how their words read, and what they do (Arm Architecture Reference Manual for A-profile,
// DDI 0487, part C). Addresses are positions in the image; a system register is known by its encoding.
module A64 {
  import opened Bits
  import opened Bytes

  datatype SysReg = SysReg(op0: nat, op1: nat, crn: nat, crm: nat, op2: nat)

  datatype Instr =
    | Movz(rd: nat, value: nat)
    | Lsl(rd: nat, rn: nat, shift: nat)
    | Msr(reg: SysReg, rt: nat)
    | MsrImmediate(op1: nat, op2: nat, imm: nat)
    | Isb
    | Bl(distance: int)
    | Ret(rn: nat)
    | Other

  const TWO_64 := 0x1_0000_0000_0000_0000

  // ---- fields of a word

  function Rd(w: nat): nat { w % 0x20 }
  function Rn(w: nat): nat { w / 0x20 % 0x20 }
  function Imm16(w: nat): nat { w / 0x20 % 0x1_0000 }
  function Imms(w: nat): nat { w / 0x400 % 0x40 }
  function Immr(w: nat): nat { w / 0x1_0000 % 0x40 }
  function Hw(w: nat): nat { w / 0x20_0000 % 4 }
  function Op1(w: nat): nat { w / 0x1_0000 % 8 }
  function Crn(w: nat): nat { w / 0x1000 % 0x10 }
  function Crm(w: nat): nat { w / 0x100 % 0x10 }
  function Op2(w: nat): nat { w / 0x20 % 8 }
  function Imm26(w: nat): nat { w % 0x400_0000 }

  // Register number 31 means other things than x31; no instruction here uses it.

  // 1 10 100101 hw imm16 Rd
  predicate MovzWord(w: nat) { w / 0x80_0000 == 0x1a5 && Rd(w) < 31 }

  // UBFM, 1 10 100110 1 immr imms Rn Rd, where it is the alias LSL
  predicate LslWord(w: nat) {
    w / 0x40_0000 == 0x34d && Imms(w) < 63 && Immr(w) == Imms(w) + 1 && Rd(w) < 31 && Rn(w) < 31
  }

  // 110101010001 o0 op1 CRn CRm op2 Rt
  predicate MsrWord(w: nat) { w / 0x10_0000 == 0xd51 && Rd(w) < 31 }

  // 1101010100000 op1 0100 CRm op2 11111
  predicate MsrImmediateWord(w: nat) { w / 0x8_0000 == 0x1aa0 && Crn(w) == 4 && Rd(w) == 31 }

  // 11010101000000110011 CRm 110 11111
  predicate IsbWord(w: nat) { w / 0x1000 == 0xd5033 && w % 0x100 == 0xdf }

  // 100101 imm26
  predicate BlWord(w: nat) { w / 0x400_0000 == 0x25 }

  // 1101011001011111000000 Rn 00000
  predicate RetWord(w: nat) { w / 0x400 == 0x3597c0 && Rd(w) == 0 && Rn(w) < 31 }

  function Decode(w: nat): Instr {
    if MovzWord(w) then Movz(Rd(w), Imm16(w) * Pow2(16 * Hw(w)))
    else if LslWord(w) then Lsl(Rd(w), Rn(w), 63 - Imms(w))
    else if MsrWord(w) then Msr(SysReg(2 + w / 0x8_0000 % 2, Op1(w), Crn(w), Crm(w), Op2(w)), Rd(w))
    else if MsrImmediateWord(w) then MsrImmediate(Op1(w), Op2(w), Crm(w))
    else if IsbWord(w) then Isb
    else if BlWord(w) then Bl(4 * (if Imm26(w) < 0x200_0000 then Imm26(w) else Imm26(w) - 0x400_0000))
    else if RetWord(w) then Ret(Rn(w))
    else Other
  }

  // The patterns exclude each other.
  lemma OnePattern(w: nat)
    ensures MovzWord(w) ==> Decode(w) == Movz(Rd(w), Imm16(w) * Pow2(16 * Hw(w)))
    ensures LslWord(w) ==> Decode(w) == Lsl(Rd(w), Rn(w), 63 - Imms(w))
    ensures MsrWord(w) ==>
      Decode(w) == Msr(SysReg(2 + w / 0x8_0000 % 2, Op1(w), Crn(w), Crm(w), Op2(w)), Rd(w))
    ensures MsrImmediateWord(w) ==> Decode(w) == MsrImmediate(Op1(w), Op2(w), Crm(w))
    ensures IsbWord(w) ==> Decode(w) == Isb
    ensures BlWord(w) ==>
      Decode(w) == Bl(4 * (if Imm26(w) < 0x200_0000 then Imm26(w) else Imm26(w) - 0x400_0000))
    ensures RetWord(w) ==> Decode(w) == Ret(Rn(w))
  {
    Apart(w);
    hide MovzWord, LslWord, MsrWord, MsrImmediateWord, IsbWord, BlWord, RetWord, Pow2, Imm16, Hw, Op1, Crn, Crm, Op2;
    hide Imm26, Rd, Rn, Immr;
  }

  lemma Apart(w: nat)
    ensures (if MovzWord(w) then 1 else 0) + (if LslWord(w) then 1 else 0) + (if MsrWord(w) then 1 else 0)
      + (if MsrImmediateWord(w) then 1 else 0) + (if IsbWord(w) then 1 else 0) + (if BlWord(w) then 1 else 0)
      + (if RetWord(w) then 1 else 0) <= 1
  {}

  // ---- execution

  datatype Event =
    | Wrote(reg: SysReg, value: int)
    | WroteField(op1: nat, op2: nat, imm: nat)
    | Synchronized

  // Program counter, x0 to x30, and what the system has seen so far
  datatype Cpu = Cpu(pc: int, x: seq<int>, log: seq<Event>) | Stuck

  function Reg(x: seq<int>, r: nat): int { if r < |x| then x[r] else 0 }

  function WithReg(x: seq<int>, r: nat, v: int): seq<int> { if r < |x| then x[r := v] else x }

  function Perform(i: Instr, c: Cpu): Cpu
    requires c.Cpu?
  {
    match i
    case Movz(rd, value) => Cpu(c.pc + 4, WithReg(c.x, rd, value), c.log)
    case Lsl(rd, rn, shift) => Cpu(c.pc + 4, WithReg(c.x, rd, Reg(c.x, rn) * Pow2(shift) % TWO_64), c.log)
    case Msr(reg, rt) => Cpu(c.pc + 4, c.x, c.log + [Wrote(reg, Reg(c.x, rt))])
    case MsrImmediate(op1, op2, imm) => Cpu(c.pc + 4, c.x, c.log + [WroteField(op1, op2, imm)])
    case Isb => Cpu(c.pc + 4, c.x, c.log + [Synchronized])
    case Bl(distance) => Cpu(c.pc + distance, WithReg(c.x, 30, c.pc + 4), c.log)
    case Ret(rn) => Cpu(Reg(c.x, rn), c.x, c.log)
    case Other => Stuck
  }

  // Instructions are little-endian words at multiples of four.
  function Step(m: seq<Byte>, c: Cpu): Cpu {
    if c.Cpu? && 0 <= c.pc && c.pc + 4 <= |m| && c.pc % 4 == 0 then
      Perform(Decode(LittleEndian(m[c.pc..c.pc + 4])), c)
    else Stuck
  }

  function Steps(m: seq<Byte>, c: Cpu, n: nat): Cpu
    decreases n
  {
    if n == 0 then c else Steps(m, Step(m, c), n - 1)
  }

  lemma {:induction false} StepsAdd(m: seq<Byte>, c: Cpu, n: nat, k: nat)
    ensures Steps(m, c, n + k) == Steps(m, Steps(m, c, n), k)
    decreases n
  {
    if n > 0 { StepsAdd(m, Step(m, c), n - 1, k); }
  }
}
