/** Where a single step puts its breakpoints, what they do to the program while they are in, and what is
    left when they are taken out. */
module JitPlan {
  import opened Wrappers
  import opened Words
  import opened RiscV
  import opened CodePatch
  import opened JitDecode

  datatype Slot = Slot(active: bool, addr: bv32, long: bool, orig: bv32)

  predicate SlotFor(s: Slot, m: Memory) {
    s.long == IsLong(m, s.addr) && s.orig == Word(m, s.addr, s.long)
  }

  /** The breakpoints in memory are the ones of the table, put in in its order. */
  ghost predicate TableFor(clean: Memory, mem: Memory, s0: Slot, s1: Slot) {
    && (s1.active ==> s0.active && s1.addr != s0.addr)
    && (!s0.active ==> mem == clean)
    && (s0.active ==> SlotFor(s0, clean) && (!s1.active ==> mem == Patched(clean, s0.addr)))
    && (s1.active ==> SlotFor(s1, Patched(clean, s0.addr)) && mem == Patched(Patched(clean, s0.addr), s1.addr))
  }

  /** Two active breakpoints share no byte, except where the first one's byte is the program's own. */
  ghost predicate Harmless(clean: Memory, s0: Slot, s1: Slot) {
    s0.active && s1.active ==>
      forall x: bv32 :: Covers(s0.addr, s0.long, x) && Covers(s1.addr, s1.long, x) ==>
        PatchByte(clean, s0.addr, x) == clean(x)
  }

  function UndoneByte(clean: Memory, s0: Slot, s1: Slot, x: bv32): bv8 {
    if s0.active && s1.active && Covers(s0.addr, s0.long, x) && Covers(s1.addr, s1.long, x)
    then PatchByte(clean, s0.addr, x)
    else clean(x)
  }

  function Undo(m: Memory, s: Slot): Memory {
    if s.active then Store(m, s.addr, s.long, s.orig) else m
  }

  lemma UndoTable(clean: Memory, mem: Memory, s0: Slot, s1: Slot, x: bv32)
    requires TableFor(clean, mem, s0, s1)
    ensures Undo(Undo(mem, s0), s1)(x) == UndoneByte(clean, s0, s1, x)
  {
    hide IsLong, Word, Patched, Store, Covers, PatchByte;
    if s1.active {
      UndoTwo(clean, s0.addr, s1.addr, x);
    } else if s0.active {
      UndoOne(clean, s0.addr, x);
    }
  }

  // ------------------------------------------------------------------ where to stop

  /** The range of code that is stepped through. */
  datatype Range = Range(lo: bv32, hi: bv32)
  {
    predicate Has(a: bv32) { lo != 0 && hi != 0 && lo <= a < hi }
  }

  /** A call to code at `a` leaves the range, at once or through a stub. */
  predicate Leaves(m: Memory, code: Range, a: bv32) {
    !code.Has(a) || (StubAt(m, a).Some? && !code.Has(StubAt(m, a).value))
  }

  predicate IsCall(m: Memory, pc: bv32) {
    var c := ControlAt(m, pc);
    IsLong(m, pc) && (c.Jump? || c.JumpReg?) && c.rd != 0
  }

  /** Where the machine is to stop: at the next instruction, or behind a call that leaves the range. */
  function StopPc(m: Memory, code: Range, pc: bv32, r: Registers): bv32 {
    var n := NextPc(m, pc, r);
    if IsCall(m, pc) && Leaves(m, code, n) then After(m, pc) else n
  }

  function Target(m: Memory, pc: bv32, r: Registers): bv32 { TargetOf(ControlAt(m, pc), pc, r) }

  /** A compressed jump through a register goes to an even address. */
  predicate EvenJump(m: Memory, pc: bv32, r: Registers) {
    var c := ControlAt(m, pc);
    !IsLong(m, pc) && c.JumpReg? ==> ClearLow(Reg(r, c.rs1)) == Reg(r, c.rs1)
  }

  /** A branch's target is a four-byte instruction two bytes before the instruction after the branch,
      so that a breakpoint there lands on that instruction. */
  predicate Clobbers(m: Memory, code: Range, pc: bv32, r: Registers) {
    var t := Target(m, pc, r);
    ControlAt(m, pc).Branch? && code.Has(t) && IsLong(m, t) && Plus(t, 2) == After(m, pc)
  }

  lemma SameParity(pc: bv32, offset: bv32, next: bv32)
    requires offset & 1 == 0 && next & 1 == 0
    ensures (Plus(pc, offset) ^ Plus(pc, next)) & 1 == 0
  {
  }

  lemma OddDiffers(t: bv32, n: bv32)
    requires (t ^ n) & 1 == 0
    ensures Plus(t, 1) != n && Plus(t, 3) != n && t != Plus(n, 1) && Plus(t, 2) != Plus(n, 1)
  {
  }

  lemma Injective(t: bv32, n: bv32)
    requires Plus(t, 1) == Plus(n, 1)
    ensures t == n
  {
  }

  lemma Cancel(t: bv32, n: bv32)
    ensures (Plus(t, 1) == Plus(n, 1) <==> t == n) && (Plus(t, 3) == Plus(n, 1) <==> Plus(t, 2) == n)
  {
    hide Plus;
    FourApart(t);
    if Plus(t, 1) == Plus(n, 1) { Injective(t, n); }
    if Plus(Plus(t, 2), 1) == Plus(n, 1) { Injective(Plus(t, 2), n); }
  }

  /** A jump's target and the instruction behind it are an even distance apart. */
  lemma EvenApart(pc: bv32, offset: bv32, next: bv32)
    requires offset & 1 == 0 && next & 1 == 0
    ensures var t, n := Plus(pc, offset), Plus(pc, next);
      && Plus(t, 1) != n && Plus(t, 3) != n && t != Plus(n, 1) && Plus(t, 2) != Plus(n, 1)
      && (Plus(t, 1) == Plus(n, 1) <==> t == n) && (Plus(t, 3) == Plus(n, 1) <==> Plus(t, 2) == n)
  {
    hide Plus;
    SameParity(pc, offset, next);
    OddDiffers(Plus(pc, offset), Plus(pc, next));
    Cancel(Plus(pc, offset), Plus(pc, next));
  }

  /** A breakpoint at a branch's target leaves the instruction behind the branch as it was, unless its
      second half lands there. */
  lemma TargetSpares(m: Memory, pc: bv32, offset: bv32, next: bv32)
    requires offset & 1 == 0 && next & 1 == 0
    ensures var t, n := Plus(pc, offset), Plus(pc, next);
      t != n && !(IsLong(m, t) && Plus(t, 2) == n) ==>
        Armable(Patched(m, t), n) == Armable(m, n) && IsLong(Patched(m, t), n) == IsLong(m, n)
  {
    EvenApart(pc, offset, next);
    hide IsLong, Armable, Patched, Plus;
    var t, n := Plus(pc, offset), Plus(pc, next);
    if t != n && !(IsLong(m, t) && Plus(t, 2) == n) { StillArmable(m, t, n); }
  }

  lemma EbreakBytes()
    ensures ByteOf(0x0010_0073, 2) == 0x10 && ByteOf(0x0010_0073, 3) == 0 && Pack(0x10, 0, 0, 0) == 0x10
  {
  }

  /** The second half of a four-byte breakpoint is no instruction that can be armed. */
  lemma SecondHalf(m: Memory, t: bv32)
    requires IsLong(m, t)
    ensures !Armable(Patched(m, t), Plus(t, 2))
  {
    EbreakBytes();
    FourApart(t);
    HalfBytes(m, t);
    hide ByteOf, Pack, Plus, Patched;
  }

  lemma HalfBytes(m: Memory, t: bv32)
    requires IsLong(m, t)
    ensures Patched(m, t)(Plus(t, 2)) == ByteOf(0x0010_0073, 2) && Patched(m, t)(Plus(t, 3)) == ByteOf(0x0010_0073, 3)
  {
    FourApart(t);
    hide ByteOf, Pack, Plus, IsLong;
    assert Covers(t, true, Plus(t, 2)) && Covers(t, true, Plus(t, 3)) && Ebreak(true) == 0x0010_0073;
    assert StoredByte(t, 0x0010_0073, Plus(t, 2)) == ByteOf(0x0010_0073, 2);
    assert StoredByte(t, 0x0010_0073, Plus(t, 3)) == ByteOf(0x0010_0073, 3);
    assert Patched(m, t)(Plus(t, 2)) == StoredByte(t, 0x0010_0073, Plus(t, 2));
    assert Patched(m, t)(Plus(t, 3)) == StoredByte(t, 0x0010_0073, Plus(t, 3));
  }

  /** With the target of a branch armed if it can be, the instruction behind the branch can be armed as
      before, unless the target's breakpoint lands on it. */
  lemma OtherWay(m: Memory, code: Range, pc: bv32, offset: bv32, next: bv32)
    requires offset & 1 == 0 && next & 1 == 0
    ensures var t, n := Plus(pc, offset), Plus(pc, next);
      t != n ==> (Armable(if code.Has(t) && Armable(m, t) then Patched(m, t) else m, n) <==>
                  Armable(m, n) && !(code.Has(t) && IsLong(m, t) && Plus(t, 2) == n))
  {
    var t := Plus(pc, offset);
    TargetSpares(m, pc, offset, next);
    if IsLong(m, t) { SecondHalf(m, t); }
    assert IsLong(m, t) ==> Armable(m, t);
    hide IsLong, Armable, Patched, Plus, Range.Has;
  }

  lemma EvenOffsets(w: bv32)
    ensures BOffset(w) & 1 == 0 && CbOffset(w) & 1 == 0
  {
  }

  /** The compressed branches. */
  lemma ShortBranch(h: bv32)
    ensures DecodeShort(h).Branch? <==> Quadrant(h) == 1 && (F3Short(h) == 6 || F3Short(h) == 7)
    ensures DecodeShort(h).Branch? ==> DecodeShort(h).offset == CbOffset(h)
  {
    hide Quadrant, F3Short, CbOffset, CjOffset;
  }

  /** A place in the range with an instruction that can be armed. */
  predicate CanArm(m: Memory, code: Range, a: bv32) {
    code.Has(a) && Armable(m, a)
  }

  /** Where the debugger takes an instruction to go: to the stop, but for an odd jump. */
  function Sought(m: Memory, code: Range, pc: bv32, r: Registers): bv32 {
    if EvenJump(m, pc, r) then StopPc(m, code, pc, r) else Reg(r, ControlAt(m, pc).rs1)
  }

  /** The debugger does not step: the instruction is out of the range, no instruction, a suspect load or
      store, or a jump to itself. */
  predicate Barred(m: Memory, code: Range, pc: bv32, r: Registers) {
    !CanArm(m, code, pc) || (IsLong(m, pc) && BareMemFault(Word(m, pc, true))) || Sought(m, code, pc, r) == pc
  }

  /** A place to arm: both ways of a branch, the one behind it unless the target's breakpoint lands on it;
      otherwise the place sought. The address 0 stands for none and is replaced by another place. */
  predicate Wanted(m: Memory, code: Range, pc: bv32, r: Registers, a: bv32) {
    CanArm(m, code, a) &&
    if ControlAt(m, pc).Branch? then
      a == Target(m, pc, r) || (a == After(m, pc) && !Clobbers(m, code, pc, r))
    else if Sought(m, code, pc, r) != 0 then a == Sought(m, code, pc, r)
    else if IsLong(m, pc) then IsCall(m, pc) && a == Target(m, pc, r)
    else a == After(m, pc)
  }

  /** The step from `pc` arms `a`. */
  predicate Placed(m: Memory, code: Range, pc: bv32, r: Registers, a: bv32) {
    !Barred(m, code, pc, r) && Wanted(m, code, pc, r, a)
  }

  /** What a step from `pc` has armed, and its result: -1 exactly when nothing is. */
  ghost predicate SteppedSpec(m: Memory, code: Range, pc: bv32, r: Registers, rc: int, armed: set<bv32>) {
    && (rc == 0 || rc == -1) && (rc == 0 <==> armed != {})
    && forall a :: a in armed <==> Placed(m, code, pc, r, a)
  }

  /** The stop can be armed, is reached by an even jump and is not spoilt by the other way of a branch. */
  predicate CanStop(m: Memory, code: Range, pc: bv32, r: Registers) {
    var s := StopPc(m, code, pc, r);
    CanArm(m, code, s) && EvenJump(m, pc, r) && !(s == After(m, pc) && Clobbers(m, code, pc, r))
  }

  /** A step that is not barred arms its stop exactly when that can be, and, but for odd jumps, nothing but
      the next instruction and the target. */
  lemma StopPlaced(m: Memory, code: Range, pc: bv32, r: Registers)
    requires !Barred(m, code, pc, r)
    ensures Placed(m, code, pc, r, StopPc(m, code, pc, r)) <==> CanStop(m, code, pc, r)
    ensures forall a :: Placed(m, code, pc, r, a) && EvenJump(m, pc, r) ==> a == After(m, pc) || a == Target(m, pc, r)
  {
    NullOutside(code);
    OddSought(m, code, pc, r);
    FourApart(Target(m, pc, r));
    hide Armable, IsLong, Plus, Taken, Range.Has, Leaves, ClearLow, Barred;
  }

  /** An odd jump is sought elsewhere than it goes. */
  lemma OddSought(m: Memory, code: Range, pc: bv32, r: Registers)
    ensures !EvenJump(m, pc, r) ==> !ControlAt(m, pc).Branch? && Sought(m, code, pc, r) != 0
    ensures !EvenJump(m, pc, r) ==> Sought(m, code, pc, r) != StopPc(m, code, pc, r)
  {
    hide IsLong, Instruction, DecodeShort, Plus, ClearLow, Reg, Leaves, Taken;
    if !EvenJump(m, pc, r) {
      ZeroIsEven();
      PlusZero(Reg(r, ControlAt(m, pc).rs1));
      ShortJumpReg(Instruction(m, pc));
    }
  }

  lemma ZeroIsEven()
    ensures ClearLow(0) == 0
  {
  }

  lemma ShortJumpReg(h: bv32)
    ensures DecodeShort(h).JumpReg? ==> DecodeShort(h).imm == 0
  {
    hide Quadrant, F3Short, CbOffset, CjOffset, Rd, Rs2Short, Bit12, Rs1Short;
  }

  lemma NullOutside(code: Range)
    ensures !code.Has(0)
  {
  }

  lemma NothingStepped(m: Memory, code: Range, pc: bv32, r: Registers)
    requires forall a :: !Placed(m, code, pc, r, a)
    ensures SteppedSpec(m, code, pc, r, -1, {})
  {
  }

  lemma BarredStepped(m: Memory, code: Range, pc: bv32, r: Registers)
    requires Barred(m, code, pc, r)
    ensures SteppedSpec(m, code, pc, r, -1, {})
  {
  }

  /** The place sought is out of the range. */
  lemma OutStepped(m: Memory, code: Range, pc: bv32, r: Registers)
    requires !ControlAt(m, pc).Branch? && !code.Has(Sought(m, code, pc, r))
    requires Sought(m, code, pc, r) == 0 ==> IsLong(m, pc) && !IsCall(m, pc)
    ensures SteppedSpec(m, code, pc, r, -1, {})
  {
  }

  /** The debugger's reading of a four-byte instruction is the machine's. */
  lemma LongTarget(m: Memory, code: Range, pc: bv32, w: bv32, r: Registers)
    requires IsLong(m, pc) && w == Word(m, pc, true)
    ensures After(m, pc) == Plus(pc, 4) && Sought(m, code, pc, r) == StopPc(m, code, pc, r)
    ensures Op(w) == 0x6f || Op(w) == 0x67 ==>
      (var t := if Op(w) == 0x6f then Plus(pc, JalImm(w)) else ClearLow(Plus(Reg(r, Rs1(w)), IType(w)));
      && (ControlAt(m, pc).Jump? || ControlAt(m, pc).JumpReg?) && t == Target(m, pc, r) == NextPc(m, pc, r)
      && StopPc(m, code, pc, r) == if Rd(w) != 0 && Leaves(m, code, t) then After(m, pc) else t)
    ensures Op(w) == 0x63 ==>
      ControlAt(m, pc).Branch? && Target(m, pc, r) == Plus(pc, BranchImm(w)) && BranchImm(w) == BOffset(w)
    ensures Op(w) == 0x63 && Taken(F3(w), Reg(r, Rs1(w)), Reg(r, Rs2(w))) ==> StopPc(m, code, pc, r) == Target(m, pc, r)
    ensures Op(w) != 0x6f && Op(w) != 0x67 && Op(w) != 0x63 ==>
      ControlAt(m, pc).Straight? && StopPc(m, code, pc, r) == Plus(pc, 4)
  {
    JalImmRight(w);
    ITypeRight(w);
    BranchImmRight(w);
    hide Word, IsLong, Plus, Op, Rd, Rs1, Rs2, F3, ClearLow, Leaves, JalImm, JOffset, IType, IImm, BranchImm, BOffset,
         Taken, Reg;
  }

  lemma FourOn(pc: bv32)
    ensures Plus(pc, 4) != pc && Plus(pc, 2) != pc
  {
  }

  /** What bars a four-byte instruction. */
  lemma LongBarred(m: Memory, code: Range, pc: bv32, w: bv32, r: Registers)
    requires IsLong(m, pc) && w == Word(m, pc, true) && code.Has(pc)
    ensures BareMemFault(w) ==> Barred(m, code, pc, r)
    ensures !BareMemFault(w) && Sought(m, code, pc, r) != pc ==> !Barred(m, code, pc, r)
    ensures Op(w) == 0x6f || Op(w) == 0x67 ==> (IsCall(m, pc) <==> Rd(w) != 0)
    ensures Op(w) == 0x63 ==>
      !(Target(m, pc, r) == pc && Taken(F3(w), Reg(r, Rs1(w)), Reg(r, Rs2(w)))) ==> Sought(m, code, pc, r) != pc
    ensures Op(w) != 0x6f && Op(w) != 0x67 && Op(w) != 0x63 ==>
      !IsCall(m, pc) && !ControlAt(m, pc).Branch? && Sought(m, code, pc, r) == Plus(pc, 4) != pc
  {
    FourOn(pc);
    hide Word, IsLong, Plus, Op, Rd, Rs1, Rs2, F3, Leaves, JOffset, IImm, BOffset, Taken, Reg, ClearLow, BareMemFault,
         Range.Has;
  }

  /** What bars a two-byte instruction. */
  lemma ShortBarred(m: Memory, code: Range, pc: bv32, h: bv32, r: Registers)
    requires !IsLong(m, pc) && h == Word(m, pc, false) && code.Has(pc)
    ensures !CompressedValid(h) ==> Barred(m, code, pc, r)
    ensures var s := StepShort(pc, h, r);
      && (s.control && s.pc == pc ==> Barred(m, code, pc, r))
      && (CompressedValid(h) && !(s.control && s.pc == pc) ==> !Barred(m, code, pc, r))
      && (!s.control ==> Sought(m, code, pc, r) == Plus(pc, 2))
  {
    FourOn(pc);
    StepShortRight(pc, h, r);
    ShortTarget(m, code, pc, h, r);
    hide Word, IsLong, DecodeShort, StepShort, Plus, Taken, ClearLow, Quadrant, F3Short, CbOffset, Reg,
         CompressedValid, BareMemFault, Range.Has;
  }

  /** A call to itself is no stub. */
  lemma OwnTarget(m: Memory, code: Range, pc: bv32, r: Registers)
    requires IsLong(m, pc) && (ControlAt(m, pc).Jump? || ControlAt(m, pc).JumpReg?) && NextPc(m, pc, r) == pc
    ensures SteppedSpec(m, code, pc, r, -1, {})
  {
    if code.Has(pc) {
      NoStub(m, pc);
      assert StopPc(m, code, pc, r) == pc;
    }
    BarredStepped(m, code, pc, r);
  }

  lemma NoStub(m: Memory, pc: bv32)
    requires IsLong(m, pc) && !ControlAt(m, pc).Straight?
    ensures StubAt(m, pc) == None
  {
    hide Word, JOffset, BOffset, IImm, IType, Plus, Rd, Rs1, F3;
  }

  /** A two-byte instruction that is no branch is stepped to `p`. */
  predicate SteppedTo(m: Memory, pc: bv32, r: Registers, p: bv32) {
    match ControlAt(m, pc)
    case Straight => p == After(m, pc)
    case Jump(_, _) => p == Target(m, pc, r)
    case JumpReg(_, rs1, imm) => p == Reg(r, rs1) && Plus(p, imm) == p
    case Branch(_, _, _, _) => false
  }

  /** The debugger's reading of a two-byte instruction is the machine's, but for odd register jumps. */
  lemma ShortTarget(m: Memory, code: Range, pc: bv32, h: bv32, r: Registers)
    requires !IsLong(m, pc) && h == Word(m, pc, false)
    ensures After(m, pc) == Plus(pc, 2)
    ensures var s := StepShort(pc, h, r);
      && (s.control ==> Sought(m, code, pc, r) == s.pc) && (!s.control ==> s.pc == Plus(pc, 2))
      && (if Quadrant(h) == 1 && (F3Short(h) == 6 || F3Short(h) == 7) then
            ControlAt(m, pc).Branch? && s.target == Target(m, pc, r) == Plus(pc, CbOffset(h))
          else SteppedTo(m, pc, r, s.pc) && !ControlAt(m, pc).Branch? && (s.control ==> s.pc == s.target))
  {
    StepShortRight(pc, h, r);
    ShortBranch(h);
    hide Word, IsLong, DecodeShort, StepShort, Plus, Taken, ClearLow, Quadrant, F3Short, CbOffset, Reg;
  }

  /** Both ways of a branch were armed where they could be. */
  lemma BranchStepped(m: Memory, code: Range, pc: bv32, r: Registers, offset: bv32, length: bv32, armed: set<bv32>)
    requires offset & 1 == 0 && length & 1 == 0 && ControlAt(m, pc).Branch? && !Barred(m, code, pc, r)
    requires Target(m, pc, r) == Plus(pc, offset) && After(m, pc) == Plus(pc, length)
    requires var t, n := Target(m, pc, r), After(m, pc);
      && (forall a :: a in armed ==> a == t || a == n)
      && (t in armed <==> CanArm(m, code, t))
      && (t != n ==> (n in armed <==> code.Has(n) && Armable(if CanArm(m, code, t) then Patched(m, t) else m, n)))
    ensures SteppedSpec(m, code, pc, r, if armed == {} then -1 else 0, armed)
  {
    OtherWay(m, code, pc, offset, length);
    FourApart(Target(m, pc, r));
    hide IsLong, Armable, Patched, Range.Has, Plus, ControlAt, Target, After, Barred;
  }

  /** A two-byte instruction that is no branch was stepped to `p`. */
  lemma ShortStepped(m: Memory, code: Range, pc: bv32, r: Registers, p: bv32, armed: set<bv32>)
    requires !IsLong(m, pc) && SteppedTo(m, pc, r, p) && !Barred(m, code, pc, r)
    requires p != 0 ==> forall a :: a in armed <==> a == p && CanArm(m, code, a)
    requires p == 0 ==> forall a :: a in armed <==> a == After(m, pc) && CanArm(m, code, a)
    ensures SteppedSpec(m, code, pc, r, if armed == {} then -1 else 0, armed)
  {
    ShortSought(m, code, pc, r, p);
    hide IsLong, CanArm, Plus, ControlAt, After, ClearLow, Sought, Barred;
  }

  /** Where a two-byte instruction that is no branch is sought. */
  lemma ShortSought(m: Memory, code: Range, pc: bv32, r: Registers, p: bv32)
    requires !IsLong(m, pc) && SteppedTo(m, pc, r, p)
    ensures Sought(m, code, pc, r) == p && !ControlAt(m, pc).Branch?
  {
    hide IsLong, Plus, ControlAt, After, ClearLow;
  }

  /** A four-byte instruction that is no branch was stepped to its stop. */
  lemma LongStepped(m: Memory, code: Range, pc: bv32, r: Registers, p: bv32, armed: set<bv32>)
    requires IsLong(m, pc) && !ControlAt(m, pc).Branch? && p == StopPc(m, code, pc, r) && !Barred(m, code, pc, r)
    requires p != 0 ==> forall a :: a in armed <==> a == p && CanArm(m, code, a)
    requires p == 0 ==> forall a :: a in armed <==> IsCall(m, pc) && a == Target(m, pc, r) && CanArm(m, code, a)
    ensures SteppedSpec(m, code, pc, r, if armed == {} then -1 else 0, armed)
  {
    assert Sought(m, code, pc, r) == p;
    hide CanArm, Plus, ControlAt, After, ClearLow, Sought, Barred, StopPc, IsCall;
  }

  // ------------------------------------------------------------------ giving the code back

  /** The first two bytes of a breakpoint. */
  function HalfBreak(long: bool): bv32 { if long then 0x0073 else 0x9002 }

  /** The one case in which taking the breakpoints out does not give the code back: a branch to the middle
      of the four-byte instruction behind it, both of which can be armed, where the program does not have
      the breakpoint's own first two bytes. */
  predicate Spoils(m: Memory, code: Range, pc: bv32, r: Registers) {
    var t, n := Target(m, pc, r), After(m, pc);
    && code.Has(pc) && ControlAt(m, pc).Branch?
    && CanArm(m, code, t) && CanArm(m, code, n) && IsLong(m, n) && t == Plus(n, 2)
    && Word(m, t, false) != HalfBreak(IsLong(m, t))
  }

  lemma FirstApart(t: bv32, n: bv32, ln: bool)
    requires (t ^ n) & 1 == 0 && t != n && Covers(n, ln, t)
    ensures ln && t == Plus(n, 2)
  {
  }

  lemma SecondApart(t: bv32, n: bv32, ln: bool)
    requires (t ^ n) & 1 == 0 && t != n && Covers(n, ln, Plus(t, 1))
    ensures ln && t == Plus(n, 2)
  {
    OddDiffers(t, n);
    OneByOne(n);
    hide Plus;
    if Plus(t, 1) == Plus(n, 1) {
      Injective(t, n);
    } else if Plus(t, 1) == Plus(n, 2) {
      Injective(t, Plus(n, 1));
    } else {
      Injective(t, Plus(n, 2));
    }
  }

  lemma OneByOne(a: bv32)
    ensures Plus(Plus(a, 1), 1) == Plus(a, 2) && Plus(Plus(a, 2), 1) == Plus(a, 3)
  {
  }

  lemma ThirdApart(t: bv32, n: bv32, ln: bool)
    requires (t ^ n) & 1 == 0 && t != n && Plus(t, 2) != n
    ensures !Covers(n, ln, Plus(t, 2))
  {
  }

  lemma FourthApart(t: bv32, n: bv32, ln: bool)
    requires (t ^ n) & 1 == 0 && t != n && Plus(t, 2) != n
    ensures !Covers(n, ln, Plus(t, 3))
  {
    OddDiffers(t, n);
    OneByOne(n);
    OneByOne(t);
    hide Plus;
    if Plus(t, 3) == Plus(n, 1) { Injective(Plus(t, 2), n); }
    if Plus(t, 3) == Plus(n, 2) { Injective(Plus(t, 2), Plus(n, 1)); }
    if Plus(t, 3) == Plus(n, 3) {
      Injective(Plus(t, 2), Plus(n, 2));
      Injective(Plus(t, 1), Plus(n, 1));
      Injective(t, n);
    }
  }

  /** Two places an even distance apart share no byte unless one is the middle of the other. */
  lemma Apart(t: bv32, n: bv32, lt: bool, ln: bool, x: bv32)
    requires (t ^ n) & 1 == 0 && t != n && !(lt && Plus(t, 2) == n)
    requires Covers(t, lt, x) && Covers(n, ln, x)
    ensures ln && t == Plus(n, 2) && (x == t || x == Plus(t, 1))
  {
    hide Plus, Covers;
    CoversOne(t, lt, x);
    if x == t {
      FirstApart(t, n, ln);
    } else if x == Plus(t, 1) {
      SecondApart(t, n, ln);
    } else if x == Plus(t, 2) {
      ThirdApart(t, n, ln);
    } else {
      FourthApart(t, n, ln);
    }
  }

  lemma CoversOne(t: bv32, lt: bool, x: bv32)
    requires Covers(t, lt, x)
    ensures x == t || x == Plus(t, 1) || (lt && (x == Plus(t, 2) || x == Plus(t, 3)))
  {
  }

  lemma MiddleShared(t: bv32, n: bv32, lt: bool)
    requires t == Plus(n, 2)
    ensures Covers(t, lt, t) && Covers(t, lt, Plus(t, 1)) && Covers(n, true, t) && Covers(n, true, Plus(t, 1))
    ensures t != n && Plus(t, 2) != n && Plus(t, 1) != t
  {
  }

  /** The first two bytes of a breakpoint are there already exactly when the halfword is. */
  lemma HalfThere(m: Memory, t: bv32)
    ensures Word(m, t, false) == HalfBreak(IsLong(m, t)) <==>
      PatchByte(m, t, t) == m(t) && PatchByte(m, t, Plus(t, 1)) == m(Plus(t, 1))
  {
    FourApart(t);
    BreakBytes(IsLong(m, t));
    PackBytes(m(t), m(Plus(t, 1)), 0, 0);
    hide IsLong, ByteOf, Pack, Plus, HalfBreak, Ebreak;
  }

  lemma BreakBytes(long: bool)
    ensures ByteOf(Ebreak(long), 0) == ByteOf(HalfBreak(long), 0)
    ensures ByteOf(Ebreak(long), 1) == ByteOf(HalfBreak(long), 1)
    ensures HalfBreak(long) == Pack(ByteOf(HalfBreak(long), 0), ByteOf(HalfBreak(long), 1), 0, 0)
  {
  }

  /** The two ways of a branch are an even distance apart. */
  lemma WaysEven(m: Memory, pc: bv32, r: Registers)
    requires ControlAt(m, pc).Branch?
    ensures (Target(m, pc, r) ^ After(m, pc)) & 1 == 0
    ensures var t, n := Target(m, pc, r), After(m, pc);
      t != n && !(IsLong(m, t) && Plus(t, 2) == n) ==> IsLong(Patched(m, t), n) == IsLong(m, n)
  {
    var offset, length: bv32 := ControlAt(m, pc).offset, if IsLong(m, pc) then 4 else 2;
    BranchOffsetEven(m, pc);
    hide Word, Patched, IsLong, Plus, ControlAt;
    SameParity(pc, offset, length);
    TargetSpares(m, pc, offset, length);
  }

  lemma BranchOffsetEven(m: Memory, pc: bv32)
    requires ControlAt(m, pc).Branch?
    ensures ControlAt(m, pc).offset & 1 == 0
  {
    EvenOffsets(Instruction(m, pc));
    hide Word, BOffset, CbOffset, JOffset, CjOffset, IImm, Rd, Rs1, Rs2, F3, Rs1Short, Rs2Short;
  }

  /** Where the code is spoilt both ways of the branch are armed. */
  lemma SpoiltIsArmed(m: Memory, code: Range, pc: bv32, r: Registers, rc: int, armed: set<bv32>)
    requires Spoils(m, code, pc, r) && SteppedSpec(m, code, pc, r, rc, armed)
    ensures Target(m, pc, r) in armed && After(m, pc) in armed && Target(m, pc, r) != After(m, pc)
  {
    var t, n := Target(m, pc, r), After(m, pc);
    BranchIsSound(m, pc);
    MiddleElsewhere(m, pc, t);
    MiddleShared(t, n, IsLong(m, t));
    hide Word, IsLong, Plus, ControlAt, After, Target, Armable, Range.Has, HalfBreak, BareMemFault, Taken;
    assert StopPc(m, code, pc, r) == t || StopPc(m, code, pc, r) == n;
    assert Placed(m, code, pc, r, t) && Placed(m, code, pc, r, n);
  }

  lemma BranchIsSound(m: Memory, pc: bv32)
    requires ControlAt(m, pc).Branch?
    ensures Armable(m, pc) && !(IsLong(m, pc) && BareMemFault(Word(m, pc, true)))
  {
    hide Word, BOffset, CbOffset, JOffset, CjOffset, IImm, IType, Rd, Rs1, Rs2, F3, Rs1Short, Rs2Short;
  }

  lemma MiddleElsewhere(m: Memory, pc: bv32, t: bv32)
    requires t == Plus(After(m, pc), 2)
    ensures t != pc && After(m, pc) != pc
  {
    hide IsLong;
  }

  function ArmedOf(s0: Slot, s1: Slot): set<bv32> {
    (if s0.active then {s0.addr} else {}) + (if s1.active then {s1.addr} else {})
  }

  /** Two breakpoints are in the table only for a branch, the target's first. */
  predicate InOrder(clean: Memory, pc: bv32, r: Registers, s0: Slot, s1: Slot) {
    s1.active ==> ControlAt(clean, pc).Branch? && s0.addr == Target(clean, pc, r) && s1.addr == After(clean, pc)
  }

  /** The table and the memory after a step from `pc` was prepared with result `rc`. */
  ghost predicate Prepared(clean: Memory, mem: Memory, code: Range, pc: bv32, r: Registers, rc: int, s0: Slot,
                           s1: Slot) {
    && TableFor(clean, mem, s0, s1) && InOrder(clean, pc, r, s0, s1)
    && SteppedSpec(clean, code, pc, r, rc, ArmedOf(s0, s1))
  }

  /** Taking the breakpoints of a step out gives back every byte unless the step spoils one. */
  lemma HarmlessExactly(clean: Memory, mem: Memory, code: Range, pc: bv32, r: Registers, rc: int, s0: Slot, s1: Slot)
    requires Prepared(clean, mem, code, pc, r, rc, s0, s1)
    ensures Harmless(clean, s0, s1) <==> !Spoils(clean, code, pc, r)
  {
    hide Word, IsLong, Patched, Plus, ControlAt, After, Target, Armable, Range.Has, HalfBreak, Covers, PatchByte,
         SteppedSpec, Spoils;
    if Spoils(clean, code, pc, r) { SpoiltIsArmed(clean, code, pc, r, rc, ArmedOf(s0, s1)); }
    if s1.active { BothArmed(clean, mem, code, pc, r, rc, s0, s1); }
  }

  lemma BothArmed(clean: Memory, mem: Memory, code: Range, pc: bv32, r: Registers, rc: int, s0: Slot, s1: Slot)
    requires Prepared(clean, mem, code, pc, r, rc, s0, s1) && s1.active
    ensures Harmless(clean, s0, s1) <==> !Spoils(clean, code, pc, r)
  {
    BothPlaced(clean, mem, code, pc, r, rc, s0, s1);
    hide Word, Patched, IsLong, Plus, ControlAt, After, Target, Armable, Range.Has, HalfBreak, Harmless, Covers,
         Prepared;
    OverlapExactly(clean, s0, s1);
  }

  /** What is known of two breakpoints in the table. */
  lemma BothPlaced(clean: Memory, mem: Memory, code: Range, pc: bv32, r: Registers, rc: int, s0: Slot, s1: Slot)
    requires Prepared(clean, mem, code, pc, r, rc, s0, s1) && s1.active
    ensures var t, n := Target(clean, pc, r), After(clean, pc);
      && s0.active && ControlAt(clean, pc).Branch? && s0.addr == t && s1.addr == n && t != n && (t ^ n) & 1 == 0
      && s0.long == IsLong(clean, t) && s1.long == IsLong(clean, n) && !(s0.long && Plus(t, 2) == n)
      && Placed(clean, code, pc, r, t) && Placed(clean, code, pc, r, n) && code.Has(pc)
      && CanArm(clean, code, t) && CanArm(clean, code, n)
  {
    WaysEven(clean, pc, r);
    hide Word, Patched, IsLong, Plus, ControlAt, After, Target, Armable, Range.Has;
    assert s0.addr in ArmedOf(s0, s1) && s1.addr in ArmedOf(s0, s1);
  }

  /** What two breakpoints an even distance apart can do to each other. */
  lemma OverlapExactly(clean: Memory, s0: Slot, s1: Slot)
    requires s0.active && s1.active && s0.long == IsLong(clean, s0.addr)
    requires (s0.addr ^ s1.addr) & 1 == 0 && s0.addr != s1.addr && !(s0.long && Plus(s0.addr, 2) == s1.addr)
    ensures Harmless(clean, s0, s1) <==>
      !(s1.long && s0.addr == Plus(s1.addr, 2) && Word(clean, s0.addr, false) != HalfBreak(s0.long))
  {
    var t, n := s0.addr, s1.addr;
    HalfThere(clean, t);
    hide Word, IsLong, Plus, HalfBreak, Covers, PatchByte;
    if s1.long && t == Plus(n, 2) { MiddleShared(t, n, s0.long); }
    forall x: bv32 | Covers(t, s0.long, x) && Covers(n, s1.long, x)
      ensures s1.long && t == Plus(n, 2) && (x == t || x == Plus(t, 1))
    {
      Apart(t, n, s0.long, s1.long, x);
    }
  }
}
