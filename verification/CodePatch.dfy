/** Code memory with breakpoints in it, and taking them out again. */
module CodePatch {
  import opened Words
  import opened RiscV

  /** Byte `x` of memory is part of the instruction at `a`. */
  predicate Covers(a: bv32, long: bool, x: bv32) {
    x == a || x == Plus(a, 1) || (long && (x == Plus(a, 2) || x == Plus(a, 3)))
  }

  function StoredByte(a: bv32, w: bv32, x: bv32): bv8 {
    if x == a then ByteOf(w, 0)
    else if x == Plus(a, 1) then ByteOf(w, 1)
    else if x == Plus(a, 2) then ByteOf(w, 2)
    else ByteOf(w, 3)
  }

  function Store(m: Memory, a: bv32, long: bool, w: bv32): Memory {
    (x: bv32) => if Covers(a, long, x) then StoredByte(a, w, x) else m(x)
  }

  /** EBREAK or its compressed form. */
  function Ebreak(long: bool): bv32 { if long then 0x0010_0073 else 0x9002 }

  function Patched(m: Memory, a: bv32): Memory { Store(m, a, IsLong(m, a), Ebreak(IsLong(m, a))) }

  /** The byte a breakpoint puts at `x`. */
  function PatchByte(m: Memory, a: bv32, x: bv32): bv8 { StoredByte(a, Ebreak(IsLong(m, a)), x) }

  /** Storing what was loaded changes nothing. */
  lemma StoreLoaded(m: Memory, a: bv32, long: bool, x: bv32)
    requires Covers(a, long, x)
    ensures StoredByte(a, Word(m, a, long), x) == m(x)
  {
    hide ByteOf, Pack, Plus;
    FourApart(a);
    PackBytes(m(a), m(Plus(a, 1)), if long then m(Plus(a, 2)) else 0, if long then m(Plus(a, 3)) else 0);
  }

  /** One breakpoint taken out gives back every byte. */
  lemma UndoOne(m: Memory, a: bv32, x: bv32)
    ensures Store(Patched(m, a), a, IsLong(m, a), Word(m, a, IsLong(m, a)))(x) == m(x)
  {
    hide ByteOf, Pack, Plus;
    if Covers(a, IsLong(m, a), x) { StoreLoaded(m, a, IsLong(m, a), x); }
  }

  /** The bytes after two breakpoints, put in first at `a` and then at `b`, are taken out in that order:
      a byte both cover keeps the first breakpoint's byte. */
  lemma UndoTwo(m: Memory, a: bv32, b: bv32, x: bv32)
    ensures var m1 := Patched(m, a);
      var m2 := Patched(m1, b);
      var m3 := Store(m2, a, IsLong(m, a), Word(m, a, IsLong(m, a)));
      Store(m3, b, IsLong(m1, b), Word(m1, b, IsLong(m1, b)))(x) ==
        if Covers(a, IsLong(m, a), x) && Covers(b, IsLong(m1, b), x) then PatchByte(m, a, x) else m(x)
  {
    hide ByteOf, Pack, Plus;
    var m1 := Patched(m, a);
    if Covers(b, IsLong(m1, b), x) {
      StoreLoaded(m1, b, IsLong(m1, b), x);
    } else if Covers(a, IsLong(m, a), x) {
      StoreLoaded(m, a, IsLong(m, a), x);
    }
  }

  // ------------------------------------------------------------------ which places can be armed

  predicate CompressedValid(h: bv32) {
    h != 0 && (h & 3 == 0 && (h >> 13) & 7 == 0 ==>
      ((h >> 7) & 0x30) | ((h >> 1) & 0x3c0) | ((h >> 4) & 0x4) | ((h >> 2) & 0x8) != 0)
  }

  /** An instruction is there that can be replaced by a breakpoint. */
  predicate Armable(m: Memory, a: bv32) {
    IsLong(m, a) || CompressedValid(Word(m, a, false))
  }

  /** A breakpoint elsewhere that does not touch the first two bytes changes nothing about that. */
  lemma StillArmable(m: Memory, a: bv32, b: bv32)
    requires !Covers(a, IsLong(m, a), b) && !Covers(a, IsLong(m, a), Plus(b, 1))
    ensures IsLong(Patched(m, a), b) == IsLong(m, b) && Armable(Patched(m, a), b) == Armable(m, b)
  {
    hide ByteOf, Pack, Plus;
    assert Patched(m, a)(b) == m(b) && Patched(m, a)(Plus(b, 1)) == m(Plus(b, 1));
    assert Word(Patched(m, a), b, false) == Word(m, b, false);
  }
}
