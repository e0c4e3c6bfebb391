/** Single stepping: breakpoints where the next instruction will be, and their removal. */
module JitStep {
  import opened RiscV
  import opened CodePatch
  import opened JitDecode
  import opened JitPlan
  import opened JitHits
  import opened JitCases

  class Stepper {
    var mem: Memory
    var code: Range
    const slots: array<Slot>
    /** Memory without the breakpoints. */
    ghost var clean: Memory

    ghost predicate Valid()
      reads this, slots
    {
      slots.Length == 2 && TableFor(clean, mem, slots[0], slots[1])
    }

    constructor (mem: Memory, code: Range)
      ensures Valid() && this.mem == mem && this.code == code && forall a :: !ArmedAt(a)
      ensures fresh(slots)
    {
      this.mem, this.code, clean := mem, code, mem;
      slots := new Slot[2](_ => Slot(false, 0, false, 0));
    }

    predicate ArmedAt(a: bv32)
      requires slots.Length == 2
      reads slots
    {
      (slots[0].active && slots[0].addr == a) || (slots[1].active && slots[1].addr == a)
    }

    predicate NoneActive()
      requires slots.Length == 2
      reads slots
    {
      !slots[0].active && !slots[1].active
    }

    /** Takes the breakpoints out: every byte is back exactly when no breakpoint hid another's byte. */
    method Restore()
      requires Valid()
      modifies this`mem, this`clean, slots
      ensures Valid() && NoneActive() && mem == clean
      ensures forall x: bv32 :: mem(x) == UndoneByte(old(clean), old(slots[0]), old(slots[1]), x)
      ensures (forall x: bv32 :: mem(x) == old(clean(x))) <==> old(Harmless(clean, slots[0], slots[1]))
      ensures old(NoneActive()) ==> clean == old(clean)
    {
      ghost var m, s0, s1 := mem, slots[0], slots[1];
      for i := 0 to 2
        invariant slots.Length == 2 && clean == old(clean) && (i <= 1 ==> slots[1] == s1) && (i == 0 ==> slots[0] == s0)
        invariant mem == (if i == 0 then m else if i == 1 then Undo(m, s0) else Undo(Undo(m, s0), s1))
        invariant (i >= 1 ==> !slots[0].active) && (i >= 2 ==> !slots[1].active)
      {
        if slots[i].active {
          mem := Store(mem, slots[i].addr, slots[i].long, slots[i].orig);
          slots[i] := slots[i].(active := false);
        }
      }
      forall x: bv32
        ensures mem(x) == UndoneByte(old(clean), s0, s1, x)
      {
        UndoTable(old(clean), m, s0, s1, x);
      }
      clean := mem;
    }

    /** A breakpoint at `a` would be taken. */
    predicate Accepts(a: bv32)
      requires slots.Length == 2
      reads this, slots
    {
      code.Has(a) && !ArmedAt(a) && Armable(mem, a) && !slots[1].active
    }

    method AddTempBreak(a: bv32)
      requires Valid()
      modifies this`mem, slots
      ensures Valid()
      ensures old(Accepts(a)) ==>
        mem == Patched(old(mem), a) && (slots[1].active <==> old(slots[0].active)) && slots[0].active
      ensures old(Accepts(a)) ==>
        if old(slots[0].active) then slots[0] == old(slots[0]) && slots[1].addr == a else slots[0].addr == a
      ensures forall b :: ArmedAt(b) <==> old(ArmedAt(b)) || (b == a && old(Accepts(a)))
      ensures !old(Accepts(a)) ==> mem == old(mem) && slots[0] == old(slots[0]) && slots[1] == old(slots[1])
    {
      hide IsLong, Word, Patched, Store, CompressedValid;
      if !code.Has(a) || ArmedAt(a) { return; }
      var long := IsLong(mem, a);
      if !long && !CompressedValid(Word(mem, a, false)) { return; }
      var i := 0;
      while i < 2 && slots[i].active
        invariant i <= 2 && forall k :: 0 <= k < i ==> slots[k].active
      {
        i := i + 1;
      }
      if i == 2 { return; }
      slots[i] := Slot(true, a, long, Word(mem, a, long));
      mem := Patched(mem, a);
    }

    /** Arms both ways of a branch. */
    method ArmBranch(t: bv32, n: bv32) returns (rc: int)
      requires Valid() && NoneActive()
      modifies this`mem, slots
      ensures Valid() && (rc == 0 || rc == -1) && (rc == 0 <==> !NoneActive())
      ensures forall a :: ArmedAt(a) ==> a == t || a == n
      ensures slots[1].active ==> slots[0].addr == t && slots[1].addr == n
      ensures ArmedAt(t) <==> code.Has(t) && Armable(clean, t)
      ensures t != n ==> (ArmedAt(n) <==>
        code.Has(n) && Armable(if code.Has(t) && Armable(clean, t) then Patched(clean, t) else clean, n))
    {
      hide IsLong, Word, Patched, Armable, Range.Has;
      if code.Has(t) { AddTempBreak(t); }
      assert forall a :: ArmedAt(a) ==> a == t;
      assert ArmedAt(t) <==> code.Has(t) && Armable(clean, t);
      if code.Has(n) { AddTempBreak(n); }
      rc := if !slots[0].active && !slots[1].active then -1 else 0;
    }

    /** Arms the one place to stop at, or with none the next instruction and the target, of which at most
        one is in the range. */
    method ArmStep(stepPc: bv32, next: bv32, hasTarget: bool, target: bv32) returns (rc: int)
      requires Valid() && NoneActive() && (stepPc == 0 ==> !code.Has(next) || !hasTarget || !code.Has(target))
      modifies this`mem, slots
      ensures Valid() && (rc == 0 || rc == -1) && (rc == 0 <==> !NoneActive()) && !slots[1].active
      ensures stepPc != 0 ==> forall a :: ArmedAt(a) <==> a == stepPc && CanArm(clean, code, a)
      ensures stepPc == 0 ==> forall a :: ArmedAt(a) <==>
        (a == next || (hasTarget && a == target)) && CanArm(clean, code, a)
    {
      hide IsLong, Word, Patched, Armable, Range.Has;
      if stepPc != 0 {
        AddTempBreak(stepPc);
      } else {
        AddTempBreak(next);
        if hasTarget && code.Has(target) { AddTempBreak(target); }
      }
      rc := if !slots[0].active && !slots[1].active then -1 else 0;
    }

    /** What preparing a step of the instruction at `pc` has done. */
    ghost predicate Stepped(pc: bv32, r: Registers, rc: int)
      requires slots.Length == 2
      reads this, slots
    {
      && InOrder(clean, pc, r, slots[0], slots[1]) && SteppedSpec(clean, code, pc, r, rc, Armed())
    }

    ghost function Armed(): set<bv32>
      requires slots.Length == 2
      reads slots
    {
      ArmedOf(slots[0], slots[1])
    }

    lemma ArmedMeaning()
      requires slots.Length == 2
      ensures (forall a :: a in Armed() <==> ArmedAt(a)) && (NoneActive() <==> Armed() == {})
    {
      if !NoneActive() { assert ArmedAt(if slots[0].active then slots[0].addr else slots[1].addr); }
    }

    lemma NoneMeansClean()
      requires Valid() && NoneActive()
      ensures mem == clean
    {
    }

    /** Both ways of a branch at `pc`. */
    method StepBranch(pc: bv32, t: bv32, n: bv32, ghost offset: bv32, ghost length: bv32, ghost r: Registers)
      returns (rc: int)
      requires Valid() && NoneActive() && t == Plus(pc, offset) && n == Plus(pc, length) && offset & 1 == 0
      requires length & 1 == 0
      requires ControlAt(clean, pc).Branch? && Target(clean, pc, r) == t && After(clean, pc) == n
      requires !Barred(clean, code, pc, r)
      modifies this`mem, slots
      ensures Valid() && Stepped(pc, r, rc)
    {
      hide TableFor, IsLong, Patched, Armable, Range.Has, Plus, ControlAt, Target, After, SteppedSpec, Barred;
      rc := ArmBranch(t, n);
      ArmedMeaning();
      BranchStepped(clean, code, pc, r, offset, length, Armed());
    }

    /** Breakpoints for the two-byte instruction at `pc`. */
    method InstallShort(pc: bv32, r: Registers) returns (rc: int)
      requires Valid() && NoneActive() && !IsLong(mem, pc) && code.Has(pc)
      modifies this`mem, slots
      ensures Valid() && Stepped(pc, r, rc)
    {
      var h, next := Word(mem, pc, false), Plus(pc, 2);
      NoneMeansClean();
      ShortTarget(clean, code, pc, h, r);
      ShortBarred(clean, code, pc, h, r);
      hide TableFor, Barred, CanArm, Sought, Word, Patched, Armable, IsLong, Plus, StepShort, CompressedValid,
           SteppedSpec, ControlAt, Target, After, Quadrant, F3Short, SteppedTo, Range.Has;
      ArmedMeaning();
      if !CompressedValid(h) {
        BarredStepped(clean, code, pc, r);
        return -1;
      }
      var step := StepShort(pc, h, r);
      if step.control && step.pc == pc {
        BarredStepped(clean, code, pc, r);
        return -1;
      }
      if Quadrant(h) == 1 && (F3Short(h) == 6 || F3Short(h) == 7) {
        EvenOffsets(h);
        rc := StepBranch(pc, step.target, next, CbOffset(h), 2, r);
        return;
      }
      var stepPc := step.pc;
      if stepPc != 0 && !code.Has(stepPc) {
        if step.control && step.target != 0 && stepPc == step.target {
          OutStepped(clean, code, pc, r);
          return -1;
        }
        stepPc := next;
      }
      rc := ArmShort(pc, stepPc, step.control && step.target != 0, step.target, r);
    }

    /** Arms the place to which a two-byte instruction that is no branch is stepped. */
    method ArmShort(pc: bv32, stepPc: bv32, hasTarget: bool, target: bv32, ghost r: Registers) returns (rc: int)
      requires Valid() && NoneActive() && !IsLong(clean, pc) && SteppedTo(clean, pc, r, stepPc)
      requires !Barred(clean, code, pc, r)
      requires stepPc == 0 ==> !hasTarget
      modifies this`mem, slots
      ensures Valid() && Stepped(pc, r, rc)
    {
      assert After(clean, pc) == Plus(pc, 2);
      hide TableFor, CanArm, Word, IsLong, Plus, SteppedSpec, ControlAt, SteppedTo, Barred, Range.Has;
      rc := ArmStep(stepPc, Plus(pc, 2), hasTarget, target);
      ArmedMeaning();
      ShortStepped(clean, code, pc, r, stepPc, Armed());
    }

    /** Where to step from a four-byte jump or call to `target`. */
    method SingleStepPc(pc: bv32, target: bv32, rd: nat) returns (p: bv32)
      requires slots.Length == 2
      ensures p == if rd != 0 && Leaves(mem, code, target) then After(mem, pc) else target
    {
      hide Range.Has, StubAt;
      if rd == 0 { return target; }
      if !code.Has(target) { return After(mem, pc); }
      var stub := StubAt(mem, target);
      if stub.Some? && !code.Has(stub.value) { return After(mem, pc); }
      return target;
    }

    /** Breakpoints for the four-byte instruction at `pc`. */
    method InstallLong(pc: bv32, r: Registers) returns (rc: int)
      requires Valid() && NoneActive() && IsLong(mem, pc) && code.Has(pc)
      modifies this`mem, slots
      ensures Valid() && Stepped(pc, r, rc)
    {
      var w, next := Word(mem, pc, true), Plus(pc, 4);
      NoneMeansClean();
      LongTarget(clean, code, pc, w, r);
      LongBarred(clean, code, pc, w, r);
      hide TableFor, Barred, Sought, Word, Patched, Armable, IsLong, Plus, Taken, SteppedSpec, Op, Rd, Rs1, Rs2, F3,
           BareMemFault, ClearLow, Leaves, ControlAt, NextPc, StopPc, IsCall, Target, After, BranchImm, BOffset,
           Range.Has;
      ArmedMeaning();
      if BareMemFault(w) {
        BarredStepped(clean, code, pc, r);
        return -1;
      }
      if Op(w) == 0x6f || Op(w) == 0x67 {
        var target := if Op(w) == 0x6f then Plus(pc, JalImm(w)) else ClearLow(Plus(Reg(r, Rs1(w)), IType(w)));
        rc := InstallJump(pc, target, Rd(w), r);
      } else if Op(w) == 0x63 {
        EvenOffsets(w);
        var target := Plus(pc, BranchImm(w));
        if target == pc && Taken(F3(w), Reg(r, Rs1(w)), Reg(r, Rs2(w))) {
          BarredStepped(clean, code, pc, r);
          return -1;
        }
        rc := StepBranch(pc, target, next, BOffset(w), 4, r);
      } else if next != 0 && !code.Has(next) {
        OutStepped(clean, code, pc, r);
        return -1;
      } else {
        rc := ArmLong(pc, next, false, 0, r);
      }
    }

    /** Arms the stop of a four-byte instruction that is no branch. */
    method ArmLong(pc: bv32, stepPc: bv32, hasTarget: bool, target: bv32, ghost r: Registers) returns (rc: int)
      requires Valid() && NoneActive() && IsLong(clean, pc) && !ControlAt(clean, pc).Branch?
      requires !Barred(clean, code, pc, r)
      requires stepPc == StopPc(clean, code, pc, r) && (hasTarget ==> target == Target(clean, pc, r))
      requires stepPc == 0 ==> !code.Has(Plus(pc, 4)) && (hasTarget <==> IsCall(clean, pc))
      modifies this`mem, slots
      ensures Valid() && Stepped(pc, r, rc)
    {
      hide TableFor, Word, IsLong, Plus, SteppedSpec, ControlAt, StopPc, Target, Range.Has, Barred, IsCall, Armable;
      rc := ArmStep(stepPc, Plus(pc, 4), hasTarget, target);
      ArmedMeaning();
      LongStepped(clean, code, pc, r, stepPc, Armed());
    }

    /** Breakpoints for a JAL or JALR to `target`. */
    method InstallJump(pc: bv32, target: bv32, rd: nat, ghost r: Registers) returns (rc: int)
      requires Valid() && NoneActive() && IsLong(mem, pc) && code.Has(pc)
      requires (ControlAt(clean, pc).Jump? || ControlAt(clean, pc).JumpReg?) && (IsCall(clean, pc) <==> rd != 0)
      requires target == Target(clean, pc, r) == NextPc(clean, pc, r)
      requires Sought(clean, code, pc, r) == StopPc(clean, code, pc, r)
      requires StopPc(clean, code, pc, r) == if rd != 0 && Leaves(clean, code, target) then After(clean, pc) else target
      requires Sought(clean, code, pc, r) != pc ==> !Barred(clean, code, pc, r)
      modifies this`mem, slots
      ensures Valid() && Stepped(pc, r, rc)
    {
      assert After(mem, pc) == Plus(pc, 4);
      NoneMeansClean();
      FourOn(pc);
      hide TableFor, Sought, Word, Patched, Armable, IsLong, Plus, SteppedSpec, Leaves, ControlAt, NextPc, StopPc,
           IsCall, Target, Range.Has, After, Barred;
      ArmedMeaning();
      NullOutside(code);
      if target == pc {
        OwnTarget(clean, code, pc, r);
        return -1;
      }
      if rd == 0 && !code.Has(target) {
        OutStepped(clean, code, pc, r);
        return -1;
      }
      var stepPc := SingleStepPc(pc, target, rd);
      if stepPc != 0 && !code.Has(stepPc) {
        OutStepped(clean, code, pc, r);
        return -1;
      }
      rc := ArmLong(pc, stepPc, true, target, r);
    }

    /** Takes old breakpoints out and installs those for one step from `pc`. */
    method Install(pc: bv32, r: Registers) returns (rc: int)
      requires Valid()
      modifies this`mem, this`clean, slots
      ensures Valid()
      ensures pc == 0 ==> rc == -1 && mem == old(mem) && clean == old(clean) && slots[..] == old(slots[..])
      ensures pc != 0 ==> forall x: bv32 :: clean(x) == UndoneByte(old(clean), old(slots[0]), old(slots[1]), x)
      ensures old(NoneActive()) ==> clean == old(clean)
      ensures pc != 0 ==> Stepped(pc, r, rc)
      ensures pc != 0 ==> (Instruction(mem, pc) == Instruction(clean, pc) <==> !Hit(clean, code, pc, r))
      ensures pc != 0 ==> (Caught(clean, mem, code, pc, r, Armed()) <==> Catches(clean, code, pc, r))
      ensures pc != 0 ==> (Harmless(clean, slots[0], slots[1]) <==> !Spoils(clean, code, pc, r))
      ensures pc != 0 && Refused(clean, code, pc, r) ==> rc == -1 && Armed() == {}
      ensures pc != 0 && ControlAt(clean, pc).Straight? ==> StraightStep(clean, code, pc, rc, Armed())
    {
      if pc == 0 { return -1; }
      Restore();
      hide Range.Has, IsLong, SteppedSpec, Armed, Harmless, Spoils, TableFor, Instruction, Hit, Caught, Catches,
           Refused, StraightStep, ControlAt;
      ArmedMeaning();
      if !code.Has(pc) {
        BarredStepped(clean, code, pc, r);
        rc := -1;
      } else if IsLong(mem, pc) {
        rc := InstallLong(pc, r);
      } else {
        rc := InstallShort(pc, r);
      }
      StepFacts(pc, r, rc);
      StepCases(pc, r, rc);
    }

    lemma StepCases(pc: bv32, r: Registers, rc: int)
      requires slots.Length == 2 && Stepped(pc, r, rc)
      ensures Refused(clean, code, pc, r) ==> rc == -1 && Armed() == {}
      ensures ControlAt(clean, pc).Straight? ==> StraightStep(clean, code, pc, rc, Armed())
    {
      hide Armed, SteppedSpec, ControlAt, Refused, StraightStep, InOrder;
      if Refused(clean, code, pc, r) { RefusedArms(clean, code, pc, r, rc, Armed()); }
      if ControlAt(clean, pc).Straight? { StraightArms(clean, code, pc, r, rc, Armed()); }
    }

    /** What a prepared step means for the code and for the machine. */
    lemma StepFacts(pc: bv32, r: Registers, rc: int)
      requires Valid() && Stepped(pc, r, rc)
      ensures Instruction(mem, pc) == Instruction(clean, pc) <==> !Hit(clean, code, pc, r)
      ensures Caught(clean, mem, code, pc, r, Armed()) <==> Catches(clean, code, pc, r)
      ensures Harmless(clean, slots[0], slots[1]) <==> !Spoils(clean, code, pc, r)
    {
      hide TableFor, InOrder, SteppedSpec, ArmedOf, Instruction, Hit, Caught, Catches, Harmless, Spoils;
      IntactExactly(clean, mem, code, pc, r, rc, slots[0], slots[1]);
      CaughtExactly(clean, mem, code, pc, r, rc, slots[0], slots[1]);
      HarmlessExactly(clean, mem, code, pc, r, rc, slots[0], slots[1]);
    }

    /** One step from a program without breakpoints: what goes in for it comes out again, and the code is
        whole afterwards if and only if the step spoils none of it. */
    method StepOnce(pc: bv32, r: Registers) returns (rc: int)
      requires Valid() && NoneActive()
      modifies this`mem, this`clean, slots
      ensures Valid() && NoneActive()
      ensures (forall x: bv32 :: mem(x) == old(mem(x))) <==> !Spoils(old(mem), code, pc, r)
    {
      NullOutside(code);
      rc := Install(pc, r);
      Restore();
    }
  }
}
