/** Which instructions a step refuses, and which places it arms for each kind of instruction, told by the bits of the
    program. */
module JitCases {
  import opened Words
  import opened RiscV
  import opened CodePatch
  import opened JitDecode
  import opened JitPlan
  import opened Assembler

  /** The place is in the range and holds an instruction: four bytes, or two that are neither all zero nor the
      addition to the stack pointer with nothing to add. */
  predicate Stands(m: Memory, code: Range, a: bv32) {
    code.Has(a) && (IsLong(m, a) || Word(m, a, false) & 0xffe3 != 0)
  }

  /** The machine would stay where it is. The debugger compares the whole register of a compressed jump. */
  predicate StaysAt(m: Memory, pc: bv32, r: Registers) {
    var c := ControlAt(m, pc);
    if !IsLong(m, pc) && c.JumpReg? then Reg(r, c.rs1) == pc else NextPc(m, pc, r) == pc
  }

  /** What a step refuses: a place without an instruction, a load or store through register 0 near address 0, a
      jump or branch to itself. */
  predicate Refused(m: Memory, code: Range, pc: bv32, r: Registers) {
    !Stands(m, code, pc) || (IsLong(m, pc) && Suspect(Word(m, pc, true))) || StaysAt(m, pc, r)
  }

  lemma ValidShort(m: Memory, a: bv32)
    ensures CompressedValid(Word(m, a, false)) <==> Word(m, a, false) & 0xffe3 != 0
  {
    ShortHigh(m(a), m(Plus(a, 1)));
    ValidBits(Word(m, a, false));
    hide CompressedValid;
  }

  lemma ShortHigh(a: bv8, b: bv8)
    ensures Pack(a, b, 0, 0) >> 16 == 0
  {
  }

  lemma ValidBits(h: bv32)
    requires h >> 16 == 0
    ensures CompressedValid(h) <==> h & 0xffe3 != 0
  {
  }

  lemma StandsArmable(m: Memory, code: Range, a: bv32)
    ensures Stands(m, code, a) <==> CanArm(m, code, a)
  {
    ValidShort(m, a);
    hide CompressedValid, Word, Range.Has;
  }

  lemma NotNext(m: Memory, pc: bv32)
    ensures After(m, pc) != pc
  {
  }

  /** No call to itself is a stub. */
  lemma CallIsNoStub(m: Memory, pc: bv32)
    ensures IsCall(m, pc) ==> StubAt(m, pc).None?
  {
    hide Word, IsLong, Plus, Rd, Rs1, F3, JOffset, IImm, BOffset, Rs2, StubSlot, IType, ClearLow;
  }

  lemma RefusedExactly(m: Memory, code: Range, pc: bv32, r: Registers)
    ensures Barred(m, code, pc, r) <==> Refused(m, code, pc, r)
  {
    StandsArmable(m, code, pc);
    SuspectWord(Word(m, pc, true));
    NotNext(m, pc);
    CallIsNoStub(m, pc);
    OddSought(m, code, pc, r);
    SoughtSelf(m, code, pc, r);
    hide Word, IsLong, Plus, ControlAt, NextPc, Armable, Suspect, BareMemFault, StubAt, Range.Has, Sought, StaysAt;
  }

  lemma SoughtSelf(m: Memory, code: Range, pc: bv32, r: Registers)
    requires code.Has(pc) ==> IsCall(m, pc) ==> StubAt(m, pc).None?
    ensures code.Has(pc) ==> (Sought(m, code, pc, r) == pc <==> StaysAt(m, pc, r))
  {
    NotNext(m, pc);
    EvenSame(m, pc, r);
    hide Word, IsLong, Instruction, DecodeLong, DecodeShort, Plus, StubAt, Taken, ClearLow, Reg;
  }

  /** An even compressed jump goes where its register says. */
  lemma EvenSame(m: Memory, pc: bv32, r: Registers)
    ensures var c := ControlAt(m, pc);
      !IsLong(m, pc) && c.JumpReg? ==>
        NextPc(m, pc, r) == ClearLow(Reg(r, c.rs1)) && !IsCall(m, pc)
  {
    ShortJumpReg(Instruction(m, pc));
    if ControlAt(m, pc).JumpReg? { PlusZero(Reg(r, ControlAt(m, pc).rs1)); }
    hide IsLong, Instruction, DecodeShort, Plus, ClearLow, Reg, Taken;
  }

  // ------------------------------------------------------------------ what is armed

  /** What a step of an instruction that goes on to the next one does: it arms just that, unless there is no
      instruction at one of the two places or the one that is stepped is a suspect load or store. */
  ghost predicate StraightStep(m: Memory, code: Range, pc: bv32, rc: int, armed: set<bv32>) {
    var n := After(m, pc);
    if Stands(m, code, pc) && !(IsLong(m, pc) && Suspect(Word(m, pc, true))) && Stands(m, code, n) then
      rc == 0 && armed == {n}
    else rc == -1 && armed == {}
  }

  lemma StraightArms(m: Memory, code: Range, pc: bv32, r: Registers, rc: int, armed: set<bv32>)
    requires SteppedSpec(m, code, pc, r, rc, armed) && ControlAt(m, pc).Straight?
    ensures StraightStep(m, code, pc, rc, armed)
  {
    RefusedExactly(m, code, pc, r);
    StandsArmable(m, code, After(m, pc));
    NotNext(m, pc);
    NullOutside(code);
    hide Word, IsLong, Plus, ControlAt, Armable, Suspect, BareMemFault, StubAt, Range.Has, Barred, Leaves, Stands,
         After;
    var n := After(m, pc);
    assert Sought(m, code, pc, r) == n;
    assert Refused(m, code, pc, r) <==> !Stands(m, code, pc) || (IsLong(m, pc) && Suspect(Word(m, pc, true)));
    var ok := !Refused(m, code, pc, r) && Stands(m, code, n);
    assert forall a :: a in armed <==> ok && a == n;
    assert armed == if ok then {n} else {};
  }

  /** A branch: both ways are armed, but for the next instruction when the breakpoint at the target lands on it. */
  lemma BranchArms(m: Memory, code: Range, pc: bv32, r: Registers, rc: int, armed: set<bv32>)
    requires SteppedSpec(m, code, pc, r, rc, armed) && ControlAt(m, pc).Branch? && !Refused(m, code, pc, r)
    ensures var t, n := Target(m, pc, r), After(m, pc);
      && (rc == 0 <==> armed != {})
      && forall a :: a in armed <==>
           Stands(m, code, a) && (a == t || (a == n && !(code.Has(t) && IsLong(m, t) && Plus(t, 2) == n)))
  {
    RefusedExactly(m, code, pc, r);
    forall a
      ensures Stands(m, code, a) <==> CanArm(m, code, a)
    {
      StandsArmable(m, code, a);
    }
    hide Word, IsLong, Plus, ControlAt, Armable, Range.Has, Barred, Refused, Stands, After;
  }

  /** The place that a jump or a call is to stop at, as the debugger takes it. */
  function JumpStop(m: Memory, code: Range, pc: bv32, r: Registers): bv32 {
    var c := ControlAt(m, pc);
    if !IsLong(m, pc) && c.JumpReg? then Reg(r, c.rs1) else StopPc(m, code, pc, r)
  }

  /** A jump or a call: the place where the machine is to stop is armed, and nothing else; for a compressed jump
      through a register, the place that the register says. The address 0 counts as none, and the instruction behind
      a compressed jump or the target of a call stands in for it. */
  lemma JumpArms(m: Memory, code: Range, pc: bv32, r: Registers, rc: int, armed: set<bv32>)
    requires SteppedSpec(m, code, pc, r, rc, armed) && (ControlAt(m, pc).Jump? || ControlAt(m, pc).JumpReg?)
    requires !Refused(m, code, pc, r)
    ensures var s := JumpStop(m, code, pc, r);
      var a := if s != 0 then s else if IsLong(m, pc) then Target(m, pc, r) else After(m, pc);
      if Stands(m, code, a) && (s == 0 && IsLong(m, pc) ==> IsCall(m, pc)) then rc == 0 && armed == {a}
      else rc == -1 && armed == {}
  {
    RefusedExactly(m, code, pc, r);
    EvenSame(m, pc, r);
    hide Word, IsLong, Plus, ControlAt, Armable, Range.Has, Barred, Refused, Stands, NextPc, After, Leaves;
    var s := Sought(m, code, pc, r);
    assert s == JumpStop(m, code, pc, r);
    var a := if s != 0 then s else if IsLong(m, pc) then Target(m, pc, r) else After(m, pc);
    StandsArmable(m, code, a);
    var ok := Stands(m, code, a) && (s == 0 && IsLong(m, pc) ==> IsCall(m, pc));
    assert forall x :: x in armed <==> ok && x == a;
    assert armed == if ok then {a} else {};
  }

  lemma RefusedArms(m: Memory, code: Range, pc: bv32, r: Registers, rc: int, armed: set<bv32>)
    requires SteppedSpec(m, code, pc, r, rc, armed) && Refused(m, code, pc, r)
    ensures rc == -1 && armed == {}
  {
    RefusedExactly(m, code, pc, r);
    hide Refused, Barred;
    assert forall a :: a !in armed;
  }

  /** A call stops behind itself when it goes out of the range, at once or through the three instructions of a
      stub; else where it goes to. */
  lemma CallStops(m: Memory, code: Range, pc: bv32, r: Registers)
    requires IsCall(m, pc)
    ensures var t := NextPc(m, pc, r);
      var w0, w1, w2 := Word(m, t, true), Word(m, Plus(t, 4), true), Word(m, Plus(Plus(t, 4), 4), true);
      var stub := StubOf(w0, w1, w2, (w0 >> 7) & 31, (w2 >> 7) & 31) && StubSlot(m, t) != 0;
      var out := !code.Has(t) || (stub && !code.Has(Execute(m, Execute(m, Execute(m, Cpu(t, r)))).pc));
      StopPc(m, code, pc, r) == if out then After(m, pc) else t
  {
    var t := NextPc(m, pc, r);
    StubFound(m, t);
    if StubAt(m, t).Some? { StubReaches(m, t, r); }
    hide Word, IsLong, Plus, StubAt, StubOf, StubSlot, Execute, Range.Has, IsCall, NextPc, After;
  }
}
