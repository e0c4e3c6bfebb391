/** What the breakpoints of a step do to the code that the machine executes until it stops. */
module JitHits {
  import opened Wrappers
  import opened Words
  import opened RiscV
  import opened CodePatch
  import opened JitDecode
  import opened JitPlan

  // ------------------------------------------------------------------ bytes that a breakpoint changes

  predicate ChangesByte(m: Memory, a: bv32, x: bv32) {
    Covers(a, IsLong(m, a), x) && PatchByte(m, a, x) != m(x)
  }

  /** A breakpoint at `a` covers a byte of the two or four at `b` and changes it. */
  predicate Damages(m: Memory, a: bv32, b: bv32, long: bool) {
    || ChangesByte(m, a, b) || ChangesByte(m, a, Plus(b, 1))
    || (long && (ChangesByte(m, a, Plus(b, 2)) || ChangesByte(m, a, Plus(b, 3))))
  }

  predicate SameBytes(m1: Memory, m2: Memory, b: bv32, long: bool) {
    && m1(b) == m2(b) && m1(Plus(b, 1)) == m2(Plus(b, 1))
    && (long ==> m1(Plus(b, 2)) == m2(Plus(b, 2)) && m1(Plus(b, 3)) == m2(Plus(b, 3)))
  }

  /** Words are the same when their bytes are. */
  lemma WordBytes(m1: Memory, m2: Memory, b: bv32, long: bool)
    ensures Word(m1, b, long) == Word(m2, b, long) <==> SameBytes(m1, m2, b, long)
  {
    hide Pack, ByteOf, Plus;
    PackBytes(m1(b), m1(Plus(b, 1)), if long then m1(Plus(b, 2)) else 0, if long then m1(Plus(b, 3)) else 0);
    PackBytes(m2(b), m2(Plus(b, 1)), if long then m2(Plus(b, 2)) else 0, if long then m2(Plus(b, 3)) else 0);
  }

  lemma PatchedWord(m: Memory, a: bv32, b: bv32, long: bool)
    ensures Word(Patched(m, a), b, long) == Word(m, b, long) <==> !Damages(m, a, b, long)
  {
    WordBytes(Patched(m, a), m, b, long);
    hide Word, IsLong, Plus, Covers, Ebreak, StoredByte;
  }

  lemma LowBits(a: bv8, b: bv8, c: bv8, d: bv8)
    ensures Pack(a, b, c, d) & 3 == Pack(a, b, 0, 0) & 3
  {
  }

  /** The low bits of an instruction say how long it is. */
  lemma LowBitsOf(m: Memory, pc: bv32)
    ensures Instruction(m, pc) & 3 == Word(m, pc, false) & 3
  {
    hide Pack, Plus;
    LowBits(m(pc), m(Plus(pc, 1)), m(Plus(pc, 2)), m(Plus(pc, 3)));
  }

  /** Two memories hold the same instruction when they hold the same bytes as far as it goes. */
  lemma SameInstruction(m1: Memory, m2: Memory, pc: bv32)
    ensures Instruction(m1, pc) == Instruction(m2, pc) <==> Word(m1, pc, IsLong(m2, pc)) == Word(m2, pc, IsLong(m2, pc))
    ensures Instruction(m1, pc) == Instruction(m2, pc) ==> IsLong(m1, pc) == IsLong(m2, pc)
  {
    LowBitsOf(m1, pc);
    LowBitsOf(m2, pc);
    WordBytes(m1, m2, pc, IsLong(m2, pc));
    WordBytes(m1, m2, pc, false);
    hide Word, Plus;
  }

  // ------------------------------------------------------------------ the instruction that is stepped

  /** The one place, besides the next instruction, that a step may arm. */
  function Aim(m: Memory, code: Range, pc: bv32, r: Registers): bv32 {
    if ControlAt(m, pc).Branch? || Sought(m, code, pc, r) == 0 then Target(m, pc, r) else Sought(m, code, pc, r)
  }

  /** The step arms a place whose breakpoint changes the instruction that is to be stepped. */
  predicate Hit(m: Memory, code: Range, pc: bv32, r: Registers) {
    var a := Aim(m, code, pc, r);
    Placed(m, code, pc, r, a) && Damages(m, a, pc, IsLong(m, pc))
  }

  /** A breakpoint behind an instruction does not touch it. */
  lemma BehindApart(pc: bv32, long: bool, la: bool, x: bv32)
    requires Covers(pc, long, x)
    ensures !Covers(Plus(pc, if long then 4 else 2), la, x)
  {
  }

  lemma AfterSpares(m: Memory, pc: bv32)
    ensures !Damages(m, After(m, pc), pc, IsLong(m, pc))
    ensures forall m1 :: SameBytes(Patched(m1, After(m, pc)), m1, pc, IsLong(m, pc))
  {
    var long := IsLong(m, pc);
    forall x, la | Covers(pc, long, x)
      ensures !Covers(After(m, pc), la, x)
    {
      BehindApart(pc, long, la, x);
    }
    assert Covers(pc, long, pc) && Covers(pc, long, Plus(pc, 1));
    assert long ==> Covers(pc, long, Plus(pc, 2)) && Covers(pc, long, Plus(pc, 3));
    hide Covers, IsLong, Plus, After, PatchByte, StoredByte;
  }

  /** After a step was prepared the instruction at `pc` is the program's own if and only if no armed place
      hits it. */
  lemma IntactExactly(clean: Memory, mem: Memory, code: Range, pc: bv32, r: Registers, rc: int, s0: Slot, s1: Slot)
    requires Prepared(clean, mem, code, pc, r, rc, s0, s1)
    ensures Instruction(mem, pc) == Instruction(clean, pc) <==> !Hit(clean, code, pc, r)
  {
    AfterSpares(clean, pc);
    SameInstruction(mem, clean, pc);
    if s1.active {
      BothPlaced(clean, mem, code, pc, r, rc, s0, s1);
      BothHit(clean, mem, code, pc, r, s0.addr, s1.addr);
    } else if s0.active {
      PatchedWord(clean, s0.addr, pc, IsLong(clean, pc));
      OneAim(clean, mem, code, pc, r, rc, s0, s1);
    } else {
      hide Word, IsLong, Patched, Plus, Aim, Damages, Placed;
      assert Aim(clean, code, pc, r) !in ArmedOf(s0, s1);
    }
  }

  lemma BothHit(clean: Memory, mem: Memory, code: Range, pc: bv32, r: Registers, t: bv32, n: bv32)
    requires ControlAt(clean, pc).Branch? && t == Target(clean, pc, r) && n == After(clean, pc)
    requires mem == Patched(Patched(clean, t), n) && Placed(clean, code, pc, r, t)
    ensures Word(mem, pc, IsLong(clean, pc)) == Word(clean, pc, IsLong(clean, pc)) <==> !Hit(clean, code, pc, r)
  {
    AfterSpares(clean, pc);
    var m1 := Patched(clean, t);
    WordBytes(mem, m1, pc, IsLong(clean, pc));
    PatchedWord(clean, t, pc, IsLong(clean, pc));
    hide Word, IsLong, Patched, Plus, Placed, Damages, ControlAt, Target, After, SameBytes;
  }

  /** A single armed place is the aim, or it is the next instruction and the aim is not armed. */
  lemma OneAim(clean: Memory, mem: Memory, code: Range, pc: bv32, r: Registers, rc: int, s0: Slot, s1: Slot)
    requires Prepared(clean, mem, code, pc, r, rc, s0, s1) && s0.active && !s1.active
    ensures Placed(clean, code, pc, r, s0.addr) && forall b :: Placed(clean, code, pc, r, b) ==> b == s0.addr
    ensures s0.addr == Aim(clean, code, pc, r) || s0.addr == After(clean, pc)
  {
    hide Word, IsLong, Patched, Plus, ControlAt, Target, After, Armable, Range.Has, Sought, Clobbers, Barred, TableFor;
    assert forall b :: b in ArmedOf(s0, s1) <==> b == s0.addr;
  }

  // ------------------------------------------------------------------ the stub of a call

  /** A call leaves the range through a stub that is not the next instruction. */
  predicate ThroughStub(m: Memory, code: Range, pc: bv32, r: Registers) {
    var n := NextPc(m, pc, r);
    IsCall(m, pc) && code.Has(n) && Leaves(m, code, n) && n != After(m, pc)
  }

  /** The three instructions of the stub at `n` of `m2`, and the word it loads, are the same in `m1`. */
  predicate StubWords(m1: Memory, m2: Memory, n: bv32) {
    && Word(m1, n, true) == Word(m2, n, true) && Word(m1, Plus(n, 4), true) == Word(m2, Plus(n, 4), true)
    && Word(m1, Plus(Plus(n, 4), 4), true) == Word(m2, Plus(Plus(n, 4), 4), true)
    && Word(m1, StubSlot(m2, n), true) == Word(m2, StubSlot(m2, n), true)
  }

  /** A breakpoint at `a` changes an instruction of the stub at `n`, or the word it loads. */
  predicate StubDamaged(m: Memory, a: bv32, n: bv32) {
    || Damages(m, a, n, true) || Damages(m, a, Plus(n, 4), true) || Damages(m, a, Plus(Plus(n, 4), 4), true)
    || Damages(m, a, StubSlot(m, n), true)
  }

  /** The step arms the return of a call whose stub that breakpoint changes. */
  predicate StubHit(m: Memory, code: Range, pc: bv32, r: Registers) {
    ThroughStub(m, code, pc, r) && Placed(m, code, pc, r, After(m, pc))
      && StubDamaged(m, After(m, pc), NextPc(m, pc, r))
  }

  lemma PatchedStub(m: Memory, a: bv32, n: bv32)
    ensures StubWords(Patched(m, a), m, n) <==> !StubDamaged(m, a, n)
  {
    PatchedWord(m, a, n, true);
    PatchedWord(m, a, Plus(n, 4), true);
    PatchedWord(m, a, Plus(Plus(n, 4), 4), true);
    PatchedWord(m, a, StubSlot(m, n), true);
    hide Word, Patched, Plus, Damages, StubSlot;
  }

  lemma SameWord(m1: Memory, m2: Memory, a: bv32)
    requires Word(m1, a, true) == Word(m2, a, true)
    ensures IsLong(m1, a) == IsLong(m2, a)
  {
    WordBytes(m1, m2, a, true);
    WordBytes(m1, m2, a, false);
    hide Word, Plus;
  }

  /** A stub whose words are the same goes to the same place. */
  lemma StubSame(m1: Memory, m2: Memory, n: bv32)
    requires StubWords(m1, m2, n)
    ensures StubAt(m1, n) == StubAt(m2, n)
  {
    SameWord(m1, m2, n);
    SameWord(m1, m2, Plus(n, 4));
    SameWord(m1, m2, Plus(Plus(n, 4), 4));
    hide IsLong, Word, Plus, IType, Upper, Rd, Rs1, F3, Op, ClearLow;
  }

  /** What a breakpoint puts at its own place. */
  lemma BreakThere(m: Memory, a: bv32)
    ensures Word(Patched(m, a), a, IsLong(m, a)) == Ebreak(IsLong(m, a)) && IsLong(Patched(m, a), a) == IsLong(m, a)
    ensures Instruction(Patched(m, a), a) == Ebreak(IsLong(m, a))
  {
    var long := IsLong(m, a);
    FourApart(a);
    BreakWord(long);
    if long { HalfBytes(m, a); }
    var e, p := Ebreak(long), Patched(m, a);
    assert Covers(a, long, a) && Covers(a, long, Plus(a, 1));
    assert p(a) == ByteOf(e, 0) && p(Plus(a, 1)) == ByteOf(e, 1);
    hide ByteOf, Pack, Plus, Patched;
  }

  lemma BreakWord(long: bool)
    ensures var e := Ebreak(long);
      && Pack(ByteOf(e, 0), ByteOf(e, 1), if long then ByteOf(e, 2) else 0, if long then ByteOf(e, 3) else 0) == e
      && (Pack(ByteOf(e, 0), ByteOf(e, 1), 0, 0) & 3 == 3 <==> long)
  {
  }

  /** No stub begins at a breakpoint. */
  lemma NoStubAtBreak(m: Memory, a: bv32)
    ensures StubAt(Patched(m, a), a) == None
  {
    BreakThere(m, a);
    hide Word, IsLong, Patched, Plus, IType, Upper, Rd, Rs1, F3;
  }

  // ------------------------------------------------------------------ whether the machine is caught

  /** The machine traps at `a`. */
  predicate Traps(m: Memory, a: bv32) {
    Instruction(m, a) == Ebreak(IsLong(m, a))
  }

  /** Running on `mem`, the machine executes the program's own instruction at `pc`, and the program's own
      stub when it calls through one; the place that it then reaches is in the table, and it traps there. */
  ghost predicate Caught(clean: Memory, mem: Memory, code: Range, pc: bv32, r: Registers, armed: set<bv32>) {
    && Instruction(mem, pc) == Instruction(clean, pc)
    && (ThroughStub(clean, code, pc, r) ==> StubWords(mem, clean, NextPc(clean, pc, r)))
    && StopPc(mem, code, pc, r) in armed && Traps(mem, StopPc(mem, code, pc, r))
  }

  /** A branch stops at its target, in the middle of the instruction behind it, whose breakpoint comes to
      lie over the target's. */
  predicate Overlaid(m: Memory, code: Range, pc: bv32, r: Registers) {
    var t, n := Target(m, pc, r), After(m, pc);
    ControlAt(m, pc).Branch? && StopPc(m, code, pc, r) == t && t == Plus(n, 2) && IsLong(m, n) && CanArm(m, code, n)
  }

  /** What it takes, of the program before the step, for the machine to be caught. */
  predicate Catches(m: Memory, code: Range, pc: bv32, r: Registers) {
    && !Barred(m, code, pc, r) && CanStop(m, code, pc, r)
    && !Hit(m, code, pc, r) && !StubHit(m, code, pc, r) && !Overlaid(m, code, pc, r)
  }

  /** With its instruction and its stub as they were, the machine goes where it went. */
  lemma StopKept(clean: Memory, mem: Memory, code: Range, pc: bv32, r: Registers, rc: int, s0: Slot, s1: Slot)
    requires Prepared(clean, mem, code, pc, r, rc, s0, s1) && Instruction(mem, pc) == Instruction(clean, pc)
    requires ThroughStub(clean, code, pc, r) ==> StubWords(mem, clean, NextPc(clean, pc, r))
    ensures StopPc(mem, code, pc, r) == StopPc(clean, code, pc, r)
  {
    ControlKept(clean, mem, pc, r);
    var n := NextPc(clean, pc, r);
    hide Word, IsLong, Patched, Plus, ControlAt, NextPc, After, Range.Has, StubAt, Prepared, StubWords, IsCall, Leaves;
    if IsCall(clean, pc) && code.Has(n) && n != After(clean, pc) {
      LeavesKept(clean, mem, code, pc, r, rc, s0, s1);
    }
    OutLeaves(clean, mem, code, n);
  }

  lemma ControlKept(clean: Memory, mem: Memory, pc: bv32, r: Registers)
    requires Instruction(mem, pc) == Instruction(clean, pc)
    ensures NextPc(mem, pc, r) == NextPc(clean, pc, r) && After(mem, pc) == After(clean, pc)
    ensures IsCall(mem, pc) == IsCall(clean, pc)
  {
    SameInstruction(mem, clean, pc);
    assert ControlAt(mem, pc) == ControlAt(clean, pc);
    hide IsLong, Instruction, ControlAt, Plus, Taken, ClearLow;
  }

  lemma OutLeaves(m1: Memory, m2: Memory, code: Range, n: bv32)
    ensures !code.Has(n) ==> Leaves(m1, code, n) && Leaves(m2, code, n)
  {
  }

  lemma LeavesKept(clean: Memory, mem: Memory, code: Range, pc: bv32, r: Registers, rc: int, s0: Slot, s1: Slot)
    requires Prepared(clean, mem, code, pc, r, rc, s0, s1)
    requires IsCall(clean, pc) && code.Has(NextPc(clean, pc, r)) && NextPc(clean, pc, r) != After(clean, pc)
    requires ThroughStub(clean, code, pc, r) ==> StubWords(mem, clean, NextPc(clean, pc, r))
    ensures Leaves(mem, code, NextPc(clean, pc, r)) == Leaves(clean, code, NextPc(clean, pc, r))
  {
    var n := NextPc(clean, pc, r);
    hide Word, IsLong, Patched, Plus, ControlAt, NextPc, After, Range.Has, StubAt, Prepared, Placed, StubWords, IsCall;
    if Leaves(clean, code, n) {
      StubSame(mem, clean, n);
    } else if s0.active {
      CallsArmOne(clean, mem, code, pc, r, rc, s0, s1);
      OneAim(clean, mem, code, pc, r, rc, s0, s1);
      NoStubAtBreak(clean, n);
      NotLeft(clean, code, pc, r, s0.addr);
      SinglePatch(clean, mem, code, pc, r, rc, s0, s1);
    } else {
      NonePatched(clean, mem, code, pc, r, rc, s0, s1);
    }
  }

  lemma SinglePatch(clean: Memory, mem: Memory, code: Range, pc: bv32, r: Registers, rc: int, s0: Slot, s1: Slot)
    requires Prepared(clean, mem, code, pc, r, rc, s0, s1) && s0.active && !s1.active
    ensures mem == Patched(clean, s0.addr)
  {
  }

  lemma NonePatched(clean: Memory, mem: Memory, code: Range, pc: bv32, r: Registers, rc: int, s0: Slot, s1: Slot)
    requires Prepared(clean, mem, code, pc, r, rc, s0, s1) && !s0.active
    ensures mem == clean && !s1.active
  {
  }

  lemma CallsArmOne(clean: Memory, mem: Memory, code: Range, pc: bv32, r: Registers, rc: int, s0: Slot, s1: Slot)
    requires Prepared(clean, mem, code, pc, r, rc, s0, s1) && IsCall(clean, pc)
    ensures !s1.active
  {
    hide ControlAt, IsLong;
  }

  lemma NotLeft(m: Memory, code: Range, pc: bv32, r: Registers, a: bv32)
    requires IsCall(m, pc) && code.Has(NextPc(m, pc, r)) && !Leaves(m, code, NextPc(m, pc, r))
    requires Placed(m, code, pc, r, a)
    ensures a == NextPc(m, pc, r)
  {
    NullOutside(code);
    hide IsLong, Plus, ControlAt, NextPc, Range.Has, Leaves, Armable;
  }

  /** Which of two breakpoints, put in first at `t` and then at `n`, still trap. */
  lemma BothTrap(m: Memory, t: bv32, n: bv32)
    requires (t ^ n) & 1 == 0 && t != n && !(IsLong(m, t) && Plus(t, 2) == n)
    ensures Traps(Patched(Patched(m, t), n), n)
    ensures Traps(Patched(Patched(m, t), n), t) <==> !(IsLong(Patched(m, t), n) && t == Plus(n, 2))
  {
    var m1 := Patched(m, t);
    BreakThere(m1, n);
    BreakThere(m, t);
    if IsLong(m1, n) && t == Plus(n, 2) {
      SecondHalfTraps(m1, n);
    } else {
      UncoveredTraps(m1, t, n);
    }
    hide Word, IsLong, Patched, Plus, Instruction;
  }

  lemma SecondHalfTraps(m: Memory, n: bv32)
    requires IsLong(m, n)
    ensures !Traps(Patched(m, n), Plus(n, 2))
  {
    HalfBytes(m, n);
    OneByOne(n);
    SecondHalfWord();
    hide IsLong, Patched, Plus, ByteOf, Pack;
  }

  lemma SecondHalfWord()
    ensures Pack(ByteOf(0x0010_0073, 2), ByteOf(0x0010_0073, 3), 0, 0) & 3 != 3
    ensures Pack(ByteOf(0x0010_0073, 2), ByteOf(0x0010_0073, 3), 0, 0) != Ebreak(false)
  {
  }

  lemma UncoveredTraps(m: Memory, t: bv32, n: bv32)
    requires (t ^ n) & 1 == 0 && t != n && !(IsLong(m, t) && Plus(t, 2) == n) && !(IsLong(m, n) && t == Plus(n, 2))
    requires Traps(m, t)
    ensures Traps(Patched(m, n), t)
  {
    var lt := IsLong(m, t);
    assert Covers(t, lt, t) && Covers(t, lt, Plus(t, 1))
      && (lt ==> Covers(t, lt, Plus(t, 2)) && Covers(t, lt, Plus(t, 3)));
    forall x | Covers(t, lt, x)
      ensures !Covers(n, IsLong(m, n), x)
    {
      if Covers(n, IsLong(m, n), x) { Apart(t, n, lt, IsLong(m, n), x); }
    }
    assert SameBytes(Patched(m, n), m, t, lt) by { hide IsLong, Covers, Plus; }
    WordBytes(Patched(m, n), m, t, lt);
    SameInstruction(Patched(m, n), m, t);
    hide Word, IsLong, Patched, Plus, Instruction, Covers;
  }

  lemma StubExactly(clean: Memory, mem: Memory, code: Range, pc: bv32, r: Registers, rc: int, s0: Slot, s1: Slot)
    requires Prepared(clean, mem, code, pc, r, rc, s0, s1) && ThroughStub(clean, code, pc, r)
    requires After(clean, pc) in ArmedOf(s0, s1)
    ensures StubWords(mem, clean, NextPc(clean, pc, r)) <==> !StubDamaged(clean, After(clean, pc), NextPc(clean, pc, r))
  {
    assert IsCall(clean, pc);
    hide Word, IsLong, Patched, Plus, After, NextPc, StubWords, StubDamaged, ThroughStub, Prepared, IsCall, Leaves;
    CallsArmOne(clean, mem, code, pc, r, rc, s0, s1);
    SinglePatch(clean, mem, code, pc, r, rc, s0, s1);
    PatchedStub(clean, After(clean, pc), NextPc(clean, pc, r));
  }

  /** An armed stop traps unless the other breakpoint lies over it. */
  lemma TrapsExactly(clean: Memory, mem: Memory, code: Range, pc: bv32, r: Registers, rc: int, s0: Slot, s1: Slot)
    requires Prepared(clean, mem, code, pc, r, rc, s0, s1) && StopPc(clean, code, pc, r) in ArmedOf(s0, s1)
    ensures Traps(mem, StopPc(clean, code, pc, r)) <==> !Overlaid(clean, code, pc, r)
  {
    var s := StopPc(clean, code, pc, r);
    if s1.active {
      BothPlaced(clean, mem, code, pc, r, rc, s0, s1);
      WaysEven(clean, pc, r);
      BothTrap(clean, s0.addr, s1.addr);
      hide Word, IsLong, Patched, Plus, Instruction, Traps, ControlAt, Target, After, StopPc, CanArm;
    } else {
      BreakThere(clean, s);
      SinglePatch(clean, mem, code, pc, r, rc, s0, s1);
      OneAim(clean, mem, code, pc, r, rc, s0, s1);
      if Overlaid(clean, code, pc, r) { NotOverlaid(clean, code, pc, r); }
      hide Word, IsLong, Patched, Plus, Instruction, ControlAt, Target, After, StopPc, Overlaid, Prepared;
    }
  }

  /** Where the other breakpoint lies over the stop, both are armed. */
  lemma NotOverlaid(m: Memory, code: Range, pc: bv32, r: Registers)
    requires Placed(m, code, pc, r, StopPc(m, code, pc, r)) && Overlaid(m, code, pc, r)
    ensures Placed(m, code, pc, r, After(m, pc)) && After(m, pc) != StopPc(m, code, pc, r)
  {
    MiddleShared(Target(m, pc, r), After(m, pc), true);
    hide Word, IsLong, Plus, ControlAt, Target, After, StopPc, CanArm, Barred;
  }

  /** The machine is caught at its stop if and only if the program before the step meets the condition. */
  lemma CaughtExactly(clean: Memory, mem: Memory, code: Range, pc: bv32, r: Registers, rc: int, s0: Slot, s1: Slot)
    requires Prepared(clean, mem, code, pc, r, rc, s0, s1)
    ensures Caught(clean, mem, code, pc, r, ArmedOf(s0, s1)) <==> Catches(clean, code, pc, r)
  {
    var armed, s, n := ArmedOf(s0, s1), StopPc(clean, code, pc, r), NextPc(clean, pc, r);
    IntactExactly(clean, mem, code, pc, r, rc, s0, s1);
    assert forall a :: a in armed <==> Placed(clean, code, pc, r, a);
    if !Barred(clean, code, pc, r) { StopPlaced(clean, code, pc, r); }
    assert ThroughStub(clean, code, pc, r) ==> s == After(clean, pc);
    assert s in armed ==> !Barred(clean, code, pc, r);
    hide IsLong, Instruction, ControlAt, Word, Plus, Patched, StopPc, NextPc, After, Target, Placed, Barred, CanStop,
         Hit, ThroughStub, StubWords, StubDamaged, Traps, Overlaid, ArmedOf, Prepared, Leaves;
    if s in armed {
      TrapsExactly(clean, mem, code, pc, r, rc, s0, s1);
      if ThroughStub(clean, code, pc, r) { StubExactly(clean, mem, code, pc, r, rc, s0, s1); }
    }
    if Instruction(mem, pc) == Instruction(clean, pc)
      && (ThroughStub(clean, code, pc, r) ==> StubWords(mem, clean, n)) {
      StopKept(clean, mem, code, pc, r, rc, s0, s1);
    }
  }

  // ------------------------------------------------------------------ which places hit the instruction

  /** The places whose breakpoint lands on the instruction at `pc` and changes it. The last three are those
      of a compressed jump to an odd address. */
  predicate Lands(m: Memory, a: bv32, pc: bv32) {
    || a == pc
    || (IsLong(m, pc) && a == Plus(pc, 2) && Word(m, a, false) != HalfBreak(IsLong(m, a)))
    || (IsLong(m, a) && Plus(a, 2) == pc)
    || (!IsLong(m, pc) && (a == Plus(pc, 1) || Plus(a, 1) == pc || (IsLong(m, a) && Plus(a, 3) == pc)))
  }

  lemma CoversFour(b: bv32, long: bool)
    ensures Covers(b, long, b) && Covers(b, long, Plus(b, 1))
    ensures long ==> Covers(b, long, Plus(b, 2)) && Covers(b, long, Plus(b, 3))
    ensures !long ==> !Covers(b, long, Plus(b, 2)) && !Covers(b, long, Plus(b, 3))
  {
  }

  /** A breakpoint changes every jump and branch at its own place. */
  lemma OwnPlaceDamaged(m: Memory, pc: bv32)
    requires !ControlAt(m, pc).Straight?
    ensures Damages(m, pc, pc, IsLong(m, pc))
  {
    BreakThere(m, pc);
    PatchedWord(m, pc, pc, IsLong(m, pc));
    BreakIsStraight();
    hide IsLong, Patched, Damages, Plus, DecodeLong, DecodeShort, Word;
  }

  lemma BreakIsStraight()
    ensures DecodeLong(Ebreak(true)).Straight? && DecodeShort(Ebreak(false)).Straight?
  {
  }

  /** The second half of a long breakpoint changes every jump and branch that it lands on. */
  lemma SecondHalfDamages(m: Memory, a: bv32)
    requires IsLong(m, a) && !ControlAt(m, Plus(a, 2)).Straight?
    ensures Damages(m, a, Plus(a, 2), IsLong(m, Plus(a, 2)))
  {
    var pc := Plus(a, 2);
    HalfBytes(m, a);
    CoversFour(a, true);
    OneByOne(a);
    if m(pc) == ByteOf(0x0010_0073, 2) && m(Plus(pc, 1)) == ByteOf(0x0010_0073, 3) {
      SecondHalfStraight(m, pc);
    }
    hide IsLong, Plus, ByteOf, Covers, ControlAt, Ebreak;
  }

  lemma SecondHalfStraight(m: Memory, pc: bv32)
    requires m(pc) == ByteOf(0x0010_0073, 2) && m(Plus(pc, 1)) == ByteOf(0x0010_0073, 3)
    ensures ControlAt(m, pc).Straight?
  {
    assert Word(m, pc, false) == 0x10 by { EbreakBytes(); hide Plus; }
    hide Word, Plus;
  }

  lemma DamageEven(m: Memory, a: bv32, pc: bv32)
    requires (a ^ pc) & 1 == 0 && !ControlAt(m, pc).Straight?
    ensures Damages(m, a, pc, IsLong(m, pc)) <==>
      || a == pc
      || (IsLong(m, pc) && a == Plus(pc, 2) && Word(m, a, false) != HalfBreak(IsLong(m, a)))
      || (IsLong(m, a) && Plus(a, 2) == pc)
  {
    var la, lp := IsLong(m, a), IsLong(m, pc);
    CoversFour(pc, lp);
    if a == pc {
      OwnPlaceDamaged(m, pc);
    } else if la && Plus(a, 2) == pc {
      SecondHalfDamages(m, a);
    } else {
      ApartBytes(m, a, pc, lp);
    }
    hide IsLong, Plus, Word, Covers, ControlAt, HalfBreak, PatchByte;
  }

  /** Of a breakpoint elsewhere only its first half can lie on an instruction. */
  lemma ApartBytes(m: Memory, a: bv32, pc: bv32, lp: bool)
    requires (a ^ pc) & 1 == 0 && a != pc && !(IsLong(m, a) && Plus(a, 2) == pc)
    ensures Damages(m, a, pc, lp) <==> lp && a == Plus(pc, 2) && Word(m, a, false) != HalfBreak(IsLong(m, a))
  {
    var la := IsLong(m, a);
    CoversFour(pc, lp);
    HalfThere(m, a);
    forall x | Covers(a, la, x) && Covers(pc, lp, x)
      ensures lp && a == Plus(pc, 2) && (x == a || x == Plus(a, 1))
    {
      Apart(a, pc, la, lp, x);
    }
    if lp && a == Plus(pc, 2) {
      MiddleShared(a, pc, la);
      OneByOne(pc);
    }
    hide IsLong, Plus, Word, Covers, HalfBreak, PatchByte;
  }

  /** The two bytes of a compressed jump through a register. */
  lemma JumpRegBytes(lo: bv8, hi: bv8)
    requires DecodeShort(Pack(lo, hi, 0, 0)).JumpReg?
    ensures lo & 0x7f == 2 && hi & 0x80 == 0x80
  {
    hide CbOffset, CjOffset, Bit12, Rs1Short;
  }

  lemma BreakBytesApart(lo: bv8, hi: bv8)
    requires lo & 0x7f == 2 && hi & 0x80 == 0x80
    ensures ByteOf(0x0010_0073, 0) != hi && ByteOf(0x9002, 0) != hi
    ensures ByteOf(0x0010_0073, 1) != lo && ByteOf(0x9002, 1) != lo && ByteOf(0x0010_0073, 3) != lo
  {
  }

  /** Which places an odd distance away share a byte with a compressed instruction. */
  lemma OddShares(a: bv32, pc: bv32, la: bool)
    requires (a ^ pc) & 1 == 1
    ensures Covers(a, la, pc) <==> Plus(a, 1) == pc || (la && Plus(a, 3) == pc)
    ensures Covers(a, la, Plus(pc, 1)) <==> a == Plus(pc, 1) || (la && Plus(a, 1) == pc)
  {
    OddCovers(a, pc);
    OneByOne(a);
    hide Plus;
    if Plus(Plus(a, 1), 1) == Plus(pc, 1) { Injective(Plus(a, 1), pc); }
  }

  lemma OddCovers(a: bv32, pc: bv32)
    requires (a ^ pc) & 1 == 1
    ensures a != pc && Plus(a, 2) != pc && Plus(a, 1) != Plus(pc, 1) && Plus(a, 3) != Plus(pc, 1)
  {
  }

  lemma DamageOdd(m: Memory, a: bv32, pc: bv32)
    requires (a ^ pc) & 1 == 1 && !IsLong(m, pc) && ControlAt(m, pc).JumpReg?
    ensures Damages(m, a, pc, false) <==> a == Plus(pc, 1) || Plus(a, 1) == pc || (IsLong(m, a) && Plus(a, 3) == pc)
  {
    var la := IsLong(m, a);
    JumpRegBytes(m(pc), m(Plus(pc, 1)));
    BreakBytesApart(m(pc), m(Plus(pc, 1)));
    OddShares(a, pc, la);
    OddCovers(a, pc);
    FourApart(a);
    hide IsLong, Plus, Word, Covers, ControlAt, ByteOf;
  }

  /** What the step of an even place hits, place by place. */
  lemma HitPlaces(m: Memory, code: Range, pc: bv32, r: Registers)
    requires pc & 1 == 0
    ensures var a := Aim(m, code, pc, r); Hit(m, code, pc, r) <==> Placed(m, code, pc, r, a) && Lands(m, a, pc)
  {
    var a := Aim(m, code, pc, r);
    if Placed(m, code, pc, r, a) {
      AimFacts(m, code, pc, r);
      if a == After(m, pc) {
        AfterSpares(m, pc);
        BehindLands(m, pc);
      } else if (a ^ pc) & 1 == 0 {
        DamageEven(m, a, pc);
        EvenLands(a, pc);
      } else {
        DamageOdd(m, a, pc);
        OddLands(a, pc);
      }
    }
    hide Placed, IsLong, Damages, Plus, Word, After, Aim, HalfBreak, ControlAt;
  }

  lemma BehindLands(m: Memory, pc: bv32)
    ensures !Lands(m, After(m, pc), pc)
  {
    hide IsLong, Word;
  }

  lemma EvenLands(a: bv32, pc: bv32)
    requires (a ^ pc) & 1 == 0
    ensures a != Plus(pc, 1) && Plus(a, 1) != pc && Plus(a, 3) != pc
  {
  }

  lemma OddLands(a: bv32, pc: bv32)
    requires (a ^ pc) & 1 == 1
    ensures a != pc && a != Plus(pc, 2) && Plus(a, 2) != pc
  {
  }

  /** The aim is the next instruction, or an even distance away, or where a compressed jump goes that keeps
      the register's lowest bit. */
  lemma AimFacts(m: Memory, code: Range, pc: bv32, r: Registers)
    requires pc & 1 == 0 && Placed(m, code, pc, r, Aim(m, code, pc, r))
    ensures var a := Aim(m, code, pc, r);
      a == After(m, pc) || ((a ^ pc) & 1 == 0 && !ControlAt(m, pc).Straight?)
      || ((a ^ pc) & 1 == 1 && !IsLong(m, pc) && ControlAt(m, pc).JumpReg?)
  {
    NullOutside(code);
    var a, c := Aim(m, code, pc, r), ControlAt(m, pc);
    TargetEven(m, pc, r);
    Parity(a, pc);
    OddSought(m, code, pc, r);
    hide IsLong, Plus, ControlAt, Range.Has, Armable, Leaves, Taken, ClearLow, Barred, Clobbers;
  }

  lemma Parity(a: bv32, pc: bv32)
    ensures (a ^ pc) & 1 == 0 || (a ^ pc) & 1 == 1
  {
  }

  /** From an even place every instruction but a compressed odd jump goes to an even place. */
  lemma TargetEven(m: Memory, pc: bv32, r: Registers)
    requires pc & 1 == 0
    ensures !ControlAt(m, pc).Straight? ==> (Target(m, pc, r) ^ pc) & 1 == 0
  {
    OffsetEven(Instruction(m, pc));
    hide IsLong, Instruction, DecodeLong, DecodeShort;
  }

  lemma OffsetEven(w: bv32)
    ensures DecodeLong(w).Jump? || DecodeLong(w).Branch? ==> DecodeLong(w).offset & 1 == 0
    ensures DecodeShort(w).Jump? || DecodeShort(w).Branch? ==> DecodeShort(w).offset & 1 == 0
  {
    EvenOffsets(w);
    JumpOffsets(w);
    hide JOffset, CjOffset, BOffset, CbOffset, Op, Quadrant, F3Short, IImm, Rd, Rs1, Rs2, F3, Rs1Short, Rs2Short, Bit12;
  }

  lemma JumpOffsets(w: bv32)
    ensures JOffset(w) & 1 == 0 && CjOffset(w) & 1 == 0
  {
  }
}
