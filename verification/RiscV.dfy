/** The control flow of RV32I and its compressed extension: sections 2.5 and 16.4 of the RISC-V
    Unprivileged ISA, version 20191213. */
module RiscV {
  import opened Words

  /** Memory by address, and the registers by number. */
  type Memory = bv32 -> bv8
  type Registers = map<nat, bv32>

  /** Address arithmetic, modulo the size of memory. */
  function Plus(a: bv32, b: bv32): bv32 { a + b }

  /** Four neighbouring addresses are different. */
  lemma FourApart(a: bv32)
    ensures a != Plus(a, 1) && a != Plus(a, 2) && a != Plus(a, 3)
    ensures Plus(a, 1) != Plus(a, 2) && Plus(a, 1) != Plus(a, 3) && Plus(a, 2) != Plus(a, 3)
    ensures Plus(Plus(a, 2), 1) == Plus(a, 3)
  {
  }

  /** The four bytes at an address, or the two bytes when it is short. */
  function Word(m: Memory, a: bv32, long: bool): bv32 {
    if long then Pack(m(a), m(Plus(a, 1)), m(Plus(a, 2)), m(Plus(a, 3))) else Pack(m(a), m(Plus(a, 1)), 0, 0)
  }

  function ClearLow(a: bv32): bv32 { a & 0xffff_fffe }

  function Upper(w: bv32): bv32 { w & 0xffff_f000 }

  /** An instruction whose two low bits are set is four bytes long, any other two. */
  predicate IsLong(m: Memory, a: bv32) { Word(m, a, false) & 3 == 3 }

  function Instruction(m: Memory, a: bv32): bv32 { Word(m, a, IsLong(m, a)) }

  function Reg(r: Registers, i: nat): bv32 { if i == 0 || i !in r then 0 else r[i] }

  // The fields of a four-byte instruction.
  function Op(w: bv32): bv32 { w & 0x7f }
  function Rd(w: bv32): nat { ((w >> 7) & 31) as nat }
  function F3(w: bv32): bv32 { (w >> 12) & 7 }
  function Rs1(w: bv32): nat { ((w >> 15) & 31) as nat }
  function Rs2(w: bv32): nat { ((w >> 20) & 31) as nat }

  // The fields of a two-byte instruction.
  function Quadrant(h: bv32): bv32 { h & 3 }
  function F3Short(h: bv32): bv32 { (h >> 13) & 7 }
  function Rs1Short(h: bv32): nat { 8 + ((h >> 7) & 7) as nat }
  function Rs2Short(h: bv32): nat { ((h >> 2) & 31) as nat }
  function Bit12(h: bv32): nat { ((h >> 12) & 1) as nat }

  // ------------------------------------------------------------------ immediates, by their fields and sign bit

  /** imm[20|10:1|11|19:12] in bits 31 to 12. */
  function JOffset(w: bv32): bv32 {
    (if w >> 31 == 1 then 0xfff0_0000 else 0) | (w & 0x000f_f000) | ((w >> 9) & 0x800) | ((w >> 20) & 0x7fe)
  }

  /** imm[12|10:5] in bits 31 to 25 and imm[4:1|11] in bits 11 to 7. */
  function BOffset(w: bv32): bv32 {
    (if w >> 31 == 1 then 0xffff_f000 else 0) | ((w << 4) & 0x800) | ((w >> 20) & 0x7e0) | ((w >> 7) & 0x1e)
  }

  /** imm[11:0] in bits 31 to 20. */
  function IImm(w: bv32): bv32 {
    (if w >> 31 == 1 then 0xffff_f800 else 0) | ((w >> 20) & 0x7ff)
  }

  /** offset[11|4|9:8|10|6|7|3:1|5] in bits 12 to 2. */
  function CjOffset(h: bv32): bv32 {
    (if (h >> 12) & 1 == 1 then 0xffff_f800 else 0) | ((h << 2) & 0x400) | ((h >> 1) & 0x300) | ((h << 1) & 0x80)
      | ((h >> 1) & 0x40)
      | ((h << 3) & 0x20) | ((h >> 7) & 0x10) | ((h >> 2) & 0xe)
  }

  /** offset[8|4:3] in bits 12 to 10 and offset[7:6|2:1|5] in bits 6 to 2. */
  function CbOffset(h: bv32): bv32 {
    (if (h >> 12) & 1 == 1 then 0xffff_ff00 else 0) | ((h << 1) & 0xc0) | ((h << 3) & 0x20) | ((h >> 7) & 0x18)
      | ((h >> 2) & 0x6)
  }

  // ------------------------------------------------------------------ control flow

  /** An instruction as far as it says where to go next. A compressed one is the one it stands for. */
  datatype Control =
    | Jump(rd: nat, offset: bv32)
    | JumpReg(rd: nat, rs1: nat, imm: bv32)
    | Branch(kind: bv32, rs1: nat, rs2: nat, offset: bv32)
    | Straight

  function DecodeLong(w: bv32): Control {
    if Op(w) == 0x6f then Jump(Rd(w), JOffset(w))
    else if Op(w) == 0x67 then JumpReg(Rd(w), Rs1(w), IImm(w))
    else if Op(w) == 0x63 then Branch(F3(w), Rs1(w), Rs2(w), BOffset(w))
    else Straight
  }

  function DecodeShort(h: bv32): Control {
    if Quadrant(h) == 1 && F3Short(h) == 1 then Jump(1, CjOffset(h))
    else if Quadrant(h) == 1 && F3Short(h) == 5 then Jump(0, CjOffset(h))
    else if Quadrant(h) == 1 && F3Short(h) == 6 then Branch(0, Rs1Short(h), 0, CbOffset(h))
    else if Quadrant(h) == 1 && F3Short(h) == 7 then Branch(1, Rs1Short(h), 0, CbOffset(h))
    else if Quadrant(h) == 2 && F3Short(h) == 4 && Rd(h) != 0 && Rs2Short(h) == 0 then JumpReg(Bit12(h), Rd(h), 0)
    else Straight
  }

  function ControlAt(m: Memory, pc: bv32): Control {
    if IsLong(m, pc) then DecodeLong(Instruction(m, pc)) else DecodeShort(Instruction(m, pc))
  }

  /** Signed comparison of words. */
  predicate SignedLess(a: bv32, b: bv32) {
    if a >> 31 != b >> 31 then a >> 31 == 1 else a < b
  }

  predicate Taken(kind: bv32, a: bv32, b: bv32) {
    if kind == 0 then a == b
    else if kind == 1 then a != b
    else if kind == 4 then SignedLess(a, b)
    else if kind == 5 then !SignedLess(a, b)
    else if kind == 6 then a < b
    else if kind == 7 then a >= b
    else false
  }

  function After(m: Memory, pc: bv32): bv32 { Plus(pc, if IsLong(m, pc) then 4 else 2) }

  /** Where a jump or branch goes when it goes. */
  function TargetOf(c: Control, pc: bv32, r: Registers): bv32 {
    match c
    case Jump(_, offset) => Plus(pc, offset)
    case JumpReg(_, rs1, imm) => ClearLow(Plus(Reg(r, rs1), imm))
    case Branch(_, _, _, offset) => Plus(pc, offset)
    case Straight => 0
  }

  /** The address of the next instruction that the machine executes. */
  function NextPc(m: Memory, pc: bv32, r: Registers): bv32 {
    var c := ControlAt(m, pc);
    match c
    case Jump(_, _) => TargetOf(c, pc, r)
    case JumpReg(_, _, _) => TargetOf(c, pc, r)
    case Branch(kind, rs1, rs2, _) => if Taken(kind, Reg(r, rs1), Reg(r, rs2)) then TargetOf(c, pc, r) else After(m, pc)
    case Straight => After(m, pc)
  }

  // ------------------------------------------------------------------ the instructions of a stub

  datatype Cpu = Cpu(pc: bv32, r: Registers)

  function Put(r: Registers, rd: nat, v: bv32): Registers {
    if rd == 0 then r else r[rd := v]
  }

  lemma PutGet(r: Registers, rd: nat, v: bv32)
    requires rd != 0
    ensures Reg(Put(r, rd, v), rd) == v
  {
  }

  function Auipc(c: Cpu, w: bv32): Cpu {
    Cpu(Plus(c.pc, 4), Put(c.r, Rd(w), Plus(c.pc, Upper(w))))
  }

  function LoadWord(m: Memory, c: Cpu, w: bv32): Cpu {
    Cpu(Plus(c.pc, 4), Put(c.r, Rd(w), Word(m, Plus(Reg(c.r, Rs1(w)), IImm(w)), true)))
  }

  function Jalr(c: Cpu, w: bv32): Cpu {
    Cpu(ClearLow(Plus(Reg(c.r, Rs1(w)), IImm(w))), Put(c.r, Rd(w), Plus(c.pc, 4)))
  }

  /** One step of AUIPC, LW or JALR; any other instruction is not executed here. */
  function Execute(m: Memory, c: Cpu): Cpu {
    var w := Word(m, c.pc, true);
    if Op(w) == 0x17 then Auipc(c, w)
    else if Op(w) == 0x03 && F3(w) == 2 then LoadWord(m, c, w)
    else if Op(w) == 0x67 then Jalr(c, w)
    else c
  }
}
