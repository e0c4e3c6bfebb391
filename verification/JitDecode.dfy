/** The debugger's own decoding of jumps, branches and call stubs, and that it is the machine's. */
module JitDecode {
  import opened Wrappers
  import opened RiscV

  // The bits are gathered, and the sign is extended by flipping the sign bit and taking it away again.

  function JalImm(w: bv32): bv32 {
    ((((w >> 31) << 20) | (((w >> 12) & 0xff) << 12) | (((w >> 20) & 1) << 11)
      | (((w >> 21) & 0x3ff) << 1)) ^ 0x10_0000) - 0x10_0000
  }

  function BranchImm(w: bv32): bv32 {
    ((((w >> 31) << 12) | (((w >> 7) & 1) << 11) | (((w >> 25) & 0x3f) << 5)
      | (((w >> 8) & 0xf) << 1)) ^ 0x1000) - 0x1000
  }

  function IType(w: bv32): bv32 { ((w >> 20) ^ 0x800) - 0x800 }

  function SType(w: bv32): bv32 { ((((w >> 25) << 5) | ((w >> 7) & 0x1f)) ^ 0x800) - 0x800 }

  function CjImm(h: bv32): bv32 {
    (((((h >> 12) & 1) << 11) | (((h >> 11) & 1) << 4) | (((h >> 9) & 3) << 8) | (((h >> 8) & 1) << 10)
      | (((h >> 7) & 1) << 6) | (((h >> 6) & 1) << 7) | (((h >> 3) & 7) << 1) | (((h >> 2) & 1) << 5)) ^ 0x800) - 0x800
  }

  function CbImm(h: bv32): bv32 {
    (((((h >> 12) & 1) << 8) | (((h >> 10) & 3) << 3) | (((h >> 5) & 3) << 6) | (((h >> 3) & 3) << 1)
      | (((h >> 2) & 1) << 5)) ^ 0x100) - 0x100
  }

  lemma JalImmRight(w: bv32)
    ensures JalImm(w) == JOffset(w)
  {
  }

  lemma BranchImmRight(w: bv32)
    ensures BranchImm(w) == BOffset(w)
  {
  }

  lemma ITypeRight(w: bv32)
    ensures IType(w) == IImm(w)
  {
  }

  lemma CjImmRight(h: bv32)
    ensures CjImm(h) == CjOffset(h)
  {
  }

  lemma CbImmRight(h: bv32)
    ensures CbImm(h) == CbOffset(h)
  {
  }

  // ------------------------------------------------------------------ stubs

  /** Where the LW of a stub at `pc` loads from. */
  function StubSlot(m: Memory, pc: bv32): bv32 {
    Plus(Plus(pc, Upper(Word(m, pc, true))), IType(Word(m, Plus(pc, 4), true)))
  }

  /** AUIPC, LW and JALR through one register at `pc`: the address that the JALR goes to. */
  function StubAt(m: Memory, pc: bv32): Option<bv32> {
    var pc1 := Plus(pc, 4);
    var pc2 := Plus(pc1, 4);
    if !IsLong(m, pc) || !IsLong(m, pc1) || !IsLong(m, pc2) then None
    else
      var w0, w1, w2 := Word(m, pc, true), Word(m, pc1, true), Word(m, pc2, true);
      var rd := Rd(w0);
      if Op(w0) != 0x17 || Op(w1) != 0x03 || F3(w1) != 2 || Op(w2) != 0x67 then None
      else if rd == 0 || Rd(w1) != rd || Rs1(w1) != rd || Rs1(w2) != rd || Rd(w2) == 0 then None
      else
        var got := StubSlot(m, pc);
        if got == 0 then None else Some(ClearLow(Plus(Word(m, got, true), IType(w2))))
  }

  /** The machine gets to that address by executing the three instructions. */
  lemma StubReaches(m: Memory, pc: bv32, r: Registers)
    requires StubAt(m, pc).Some?
    ensures Execute(m, Execute(m, Execute(m, Cpu(pc, r)))).pc == StubAt(m, pc).value
  {
    var w0 := Word(m, pc, true);
    var w1 := Word(m, Plus(pc, 4), true);
    var w2 := Word(m, Plus(Plus(pc, 4), 4), true);
    var c0 := Cpu(pc, r);
    var c1 := Auipc(c0, w0);
    var c2 := LoadWord(m, c1, w1);
    hide Word, IsLong, IImm, IType, Op, Rd, F3, Rs1, Put, Reg, Plus, ClearLow, Upper;
    StubRegisters(m, c0, w0, w1);
    ITypeRight(w1);
    ITypeRight(w2);
    assert Execute(m, c0) == c1 && Execute(m, c1) == c2;
  }

  /** What the stub's register holds after its first two instructions. */
  lemma StubRegisters(m: Memory, c: Cpu, w0: bv32, w1: bv32)
    requires Rd(w0) != 0 && Rd(w1) == Rs1(w1) == Rd(w0)
    ensures Reg(LoadWord(m, Auipc(c, w0), w1).r, Rd(w0)) == Word(m, Plus(Plus(c.pc, Upper(w0)), IImm(w1)), true)
  {
    hide Word, IImm, Rd, Rs1, Put, Reg, Plus, Upper;
    var a := Plus(c.pc, Upper(w0));
    PutGet(c.r, Rd(w0), a);
    PutGet(Auipc(c, w0).r, Rd(w0), Word(m, Plus(a, IImm(w1)), true));
  }

  // ------------------------------------------------------------------ compressed jumps and branches

  /** The place stepped to, whether the instruction is a jump or branch, and its target. */
  datatype ShortStep = ShortStep(pc: bv32, control: bool, target: bv32)

  function StepShort(pc: bv32, h: bv32, r: Registers): ShortStep {
    var next, q, f3 := Plus(pc, 2), Quadrant(h), F3Short(h);
    if q == 1 && (f3 == 1 || f3 == 5) then
      var t := Plus(pc, CjImm(h));
      ShortStep(t, true, t)
    else if q == 1 && (f3 == 6 || f3 == 7) then
      var v, t := Reg(r, Rs1Short(h)), Plus(pc, CbImm(h));
      ShortStep(if (f3 == 6 && v == 0) || (f3 == 7 && v != 0) then t else next, true, t)
    else if q == 2 && f3 == 4 && Rd(h) != 0 && Rs2Short(h) == 0 then
      ShortStep(Reg(r, Rd(h)), true, Reg(r, Rd(h)))
    else ShortStep(next, false, 0)
  }

  /** The debugger takes a compressed instruction for what it stands for, except that a jump through a
      register keeps the register's lowest bit. */
  lemma StepShortRight(pc: bv32, h: bv32, r: Registers)
    ensures StepMatches(pc, DecodeShort(h), StepShort(pc, h, r), r)
  {
    CjImmRight(h);
    CbImmRight(h);
    PlusZero(Reg(r, Rd(h)));
    CompareZero(Reg(r, Rs1Short(h)));
    assert Reg(r, 0) == 0;
    hide CjImm, CjOffset, CbImm, CbOffset, Rd, Rs1Short, Rs2Short, Quadrant, F3Short, Plus, ClearLow, Bit12, Taken, Reg;
  }

  predicate StepMatches(pc: bv32, c: Control, s: ShortStep, r: Registers) {
    match c
    case Straight => !s.control && s.pc == Plus(pc, 2)
    case Jump(_, _) => s.control && s.target == s.pc == TargetOf(c, pc, r)
    case Branch(kind, rs1, rs2, _) =>
      && s.control && s.target == TargetOf(c, pc, r)
      && s.pc == if Taken(kind, Reg(r, rs1), Reg(r, rs2)) then s.target else Plus(pc, 2)
    case JumpReg(_, rs1, imm) => s.control && s.target == s.pc == Reg(r, rs1) && Plus(Reg(r, rs1), imm) == Reg(r, rs1)
  }

  lemma CompareZero(v: bv32)
    ensures Taken(0, v, 0) == (v == 0) && Taken(1, v, 0) == (v != 0)
  {
  }

  lemma PlusZero(a: bv32)
    ensures Plus(a, 0) == a
  {
  }

  /** A load or store through the zero register near the bottom or in the first page of memory. */
  predicate BareMemFault(w: bv32) {
    var imm := if Op(w) == 0x23 then SType(w) else IType(w);
    (Op(w) == 0x03 || Op(w) == 0x23) && Rs1(w) == 0 && !SignedLess(imm, 0xffff_fff0) && SignedLess(imm, 4096)
  }
}
