/** Programs for which a single step goes wrong, one for each way. */
module JitExamples {
  import opened Wrappers
  import opened Words
  import opened RiscV
  import opened CodePatch
  import opened JitDecode
  import opened JitPlan
  import opened JitHits

  const CODE := Range(0x1000, 0x2000)

  /** Memory full of four-byte instructions, but for the word `w` at `0x1000`. */
  function Program(w: bv32): Memory {
    (x: bv32) => if Covers(0x1000, true, x) then StoredByte(0x1000, w, x) else 0x13
  }

  /** A branch over six bytes: its target is the middle of the instruction behind it, and taking the
      breakpoints out leaves the first two bytes of the target's there. Until then the other breakpoint
      lies over the one at the target, where the branch, which is taken, stops. */
  lemma OverlapSpoils(r: Registers)
    ensures Spoils(Program(0x0000_0363), CODE, 0x1000, r)
    ensures CanStop(Program(0x0000_0363), CODE, 0x1000, r) && Overlaid(Program(0x0000_0363), CODE, 0x1000, r)
  {
  }

  /** A compressed return to an odd address: a place is armed, but not the even one below it, to which the
      machine goes. */
  lemma OddJumpMisses(r: Registers)
    requires Reg(r, 1) == 0x1101
    ensures var m := Program(0x1313_8082);
      && Placed(m, CODE, 0x1000, r, 0x1101) && StopPc(m, CODE, 0x1000, r) == 0x1100
      && CanArm(m, CODE, 0x1100) && !Placed(m, CODE, 0x1000, r, 0x1100)
  {
    var m := Program(0x1313_8082);
    assert !IsLong(m, 0x1000) && Word(m, 0x1000, false) == 0x8082;
    assert IsLong(m, 0x1100) && IsLong(m, 0x1101);
    hide IsLong, Word, Program;
    assert ControlAt(m, 0x1000) == JumpReg(0, 1, 0);
    hide ControlAt;
  }

  /** A branch into its own middle that is not taken. Its upper half is a breakpoint's first half, so the
      breakpoint there leaves the branch as it is; but it lands on the instruction behind the branch. */
  lemma OwnMiddleMisses(r: Registers)
    requires Reg(r, 6) != Reg(r, 7)
    ensures var m := Program(0x0073_0163);
      && Placed(m, CODE, 0x1000, r, 0x1002) && !Hit(m, CODE, 0x1000, r)
      && StopPc(m, CODE, 0x1000, r) == 0x1004 && CanArm(m, CODE, 0x1004) && !Placed(m, CODE, 0x1000, r, 0x1004)
  {
    var m := Program(0x0073_0163);
    assert IsLong(m, 0x1000) && IsLong(m, 0x1002) && IsLong(m, 0x1004) && Word(m, 0x1000, true) == 0x0073_0163;
    assert !Damages(m, 0x1002, 0x1000, true);
    hide IsLong, Word, Program, Damages;
    assert ControlAt(m, 0x1000) == Branch(0, 6, 7, 2);
    hide ControlAt;
  }

  /** A branch to itself that is not taken, a spin loop at its end: the loop itself is armed, and the machine
      traps there again and again. */
  lemma SpinIsHit(r: Registers)
    requires Reg(r, 5) != 0
    ensures var m := Program(0x0002_8063);
      && Placed(m, CODE, 0x1000, r, 0x1000) && Hit(m, CODE, 0x1000, r)
      && CanStop(m, CODE, 0x1000, r) && !Catches(m, CODE, 0x1000, r)
  {
  }

  /** A jump into its own middle: the breakpoint there makes another jump of it. */
  lemma OwnHalfIsHit(r: Registers)
    ensures var m := Program(0x0020_006f);
      && Placed(m, CODE, 0x1000, r, 0x1002) && Hit(m, CODE, 0x1000, r)
      && CanStop(m, CODE, 0x1000, r) && !Catches(m, CODE, 0x1000, r)
      && NextPc(Patched(m, 0x1002), 0x1000, r) != 0x1002
  {
  }

  /** A call over the word behind it to a stub that loads this word. */
  function PoolWord(k: bv32): bv32 {
    if k == 0 then 0x0080_00ef else if k == 4 then 0x0000_3003 else if k == 8 then 0x0000_0317
    else if k == 12 then 0xffc3_2303 else 0x0003_00e7
  }

  function PoolProgram(): Memory {
    (x: bv32) => if 0x1000 <= x < 0x1014 then ByteOf(PoolWord(x & 0x1c), (x & 3) as nat) else 0x13
  }

  lemma PoolWords()
    ensures var m := PoolProgram();
      && Word(m, 0x1000, true) == 0x0080_00ef && Word(m, 0x1004, true) == 0x0000_3003
      && Word(m, 0x1008, true) == 0x0000_0317
      && Word(m, 0x100c, true) == 0xffc3_2303 && Word(m, 0x1010, true) == 0x0003_00e7
      && IsLong(m, 0x1000) && IsLong(m, 0x1004) && IsLong(m, 0x1008) && IsLong(m, 0x100c) && IsLong(m, 0x1010)
      && m(0x1004) == 0x03
  {
  }

  /** The call is to stop behind itself, where the word is that its stub loads: the breakpoint changes where
      the stub goes. */
  lemma PoolIsHit(r: Registers)
    ensures var m := PoolProgram();
      CanStop(m, CODE, 0x1000, r) && StubHit(m, CODE, 0x1000, r) && !Catches(m, CODE, 0x1000, r)
  {
    PoolWords();
    var m := PoolProgram();
    hide Word, IsLong, PoolProgram;
    assert StubAt(m, 0x1008) == Some(0x3002);
    hide StubAt;
    assert ControlAt(m, 0x1000) == Jump(1, 8);
    hide ControlAt;
  }
}
