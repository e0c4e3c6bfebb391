/** Instructions put together from their parts, and that taking them apart gives the parts back. Registers are
    numbers below 32. */
module Assembler {
  import opened Words
  import opened RiscV
  import opened JitDecode

  // ------------------------------------------------------------------ jumps and branches

  /** The bits of a word that `high` selects are all the same: the word is the sign extension of the others and
      the lowest of these. */
  predicate Signed(x: bv32, high: bv32) {
    x & high == 0 || x & high == high
  }

  function JalWord(rd: bv32, offset: bv32): bv32 {
    (((offset >> 20) & 1) << 31) | (((offset >> 1) & 0x3ff) << 21) | (((offset >> 11) & 1) << 20)
      | (((offset >> 12) & 0xff) << 12) | (rd << 7) | 0x6f
  }

  function ITypeWord(op: bv32, f3: bv32, rd: bv32, rs1: bv32, imm: bv32): bv32 {
    ((imm & 0xfff) << 20) | (rs1 << 15) | (f3 << 12) | (rd << 7) | op
  }

  function STypeWord(f3: bv32, rs1: bv32, rs2: bv32, imm: bv32): bv32 {
    (((imm >> 5) & 0x7f) << 25) | (rs2 << 20) | (rs1 << 15) | (f3 << 12) | ((imm & 0x1f) << 7) | 0x23
  }

  function BranchWord(f3: bv32, rs1: bv32, rs2: bv32, offset: bv32): bv32 {
    (((offset >> 12) & 1) << 31) | (((offset >> 5) & 0x3f) << 25) | (rs2 << 20) | (rs1 << 15) | (f3 << 12)
      | (((offset >> 1) & 0xf) << 8) | (((offset >> 11) & 1) << 7) | 0x63
  }

  function UpperWord(op: bv32, rd: bv32, upper: bv32): bv32 { (upper & 0xffff_f000) | (rd << 7) | op }

  /** C.J, or C.JAL when the bit `link` is set; they differ in their function code. */
  function CjWord(link: bool, offset: bv32): bv32 {
    (if link then 0x2001 else 0xa001)
      | (((offset >> 11) & 1) << 12) | (((offset >> 4) & 1) << 11) | (((offset >> 8) & 3) << 9)
      | (((offset >> 10) & 1) << 8) | (((offset >> 6) & 1) << 7) | (((offset >> 7) & 1) << 6)
      | (((offset >> 1) & 7) << 3) | (((offset >> 5) & 1) << 2)
  }

  /** C.BEQZ, or C.BNEZ, of register `8 + r`. */
  function CbWord(nonzero: bool, r: bv32, offset: bv32): bv32 {
    (if nonzero then 0xe001 else 0xc001)
      | (((offset >> 8) & 1) << 12) | (((offset >> 3) & 3) << 10) | (r << 7) | (((offset >> 6) & 3) << 5)
      | (((offset >> 1) & 3) << 3) | (((offset >> 5) & 1) << 2)
  }

  /** C.JR, or C.JALR. */
  function CjrWord(link: bool, rs1: bv32): bv32 { (if link then 0x9002 else 0x8002) | (rs1 << 7) }

  lemma JalDecoded(rd: bv32, offset: bv32)
    requires rd < 32 && Signed(offset, 0xfff0_0000) && offset & 1 == 0
    ensures DecodeLong(JalWord(rd, offset)) == Jump(rd as nat, offset)
  {
    JalFields(rd, offset);
    JalOffset(rd, offset);
    hide JalWord, JOffset, Signed;
  }

  lemma JalFields(rd: bv32, offset: bv32)
    requires rd < 32
    ensures (JalWord(rd, offset) >> 7) & 31 == rd && Op(JalWord(rd, offset)) == 0x6f
  {
  }

  lemma JalOffset(rd: bv32, offset: bv32)
    requires rd < 32 && Signed(offset, 0xfff0_0000) && offset & 1 == 0
    ensures JOffset(JalWord(rd, offset)) == offset
  {
    JalLow(rd, offset);
    JalHigh(rd, offset);
    hide JalWord, Signed;
    JalJoined(offset);
  }

  lemma JalLow(rd: bv32, offset: bv32)
    requires rd < 32
    ensures JalWord(rd, offset) & 0x000f_f000 == offset & 0x000f_f000
    ensures (JalWord(rd, offset) >> 20) & 0x7fe == offset & 0x7fe
  {
  }

  lemma JalHigh(rd: bv32, offset: bv32)
    requires rd < 32
    ensures (JalWord(rd, offset) >> 9) & 0x800 == offset & 0x800
    ensures JalWord(rd, offset) >> 31 == (offset >> 20) & 1
  {
  }

  lemma JalJoined(offset: bv32)
    requires Signed(offset, 0xfff0_0000) && offset & 1 == 0
    ensures (if (offset >> 20) & 1 == 1 then 0xfff0_0000 else 0) | (offset & 0x000f_f000) | (offset & 0x800)
              | (offset & 0x7fe) == offset
  {
  }

  lemma JalrDecoded(rd: bv32, rs1: bv32, imm: bv32)
    requires rd < 32 && rs1 < 32 && Signed(imm, 0xffff_f800)
    ensures DecodeLong(ITypeWord(0x67, 0, rd, rs1, imm)) == JumpReg(rd as nat, rs1 as nat, imm)
  {
    var w := ITypeWord(0x67, 0, rd, rs1, imm);
    assert (w >> 7) & 31 == rd && (w >> 15) & 31 == rs1 && IImm(w) == imm && Op(w) == 0x67;
  }

  lemma BranchDecoded(f3: bv32, rs1: bv32, rs2: bv32, offset: bv32)
    requires f3 < 8 && rs1 < 32 && rs2 < 32 && Signed(offset, 0xffff_f000) && offset & 1 == 0
    ensures DecodeLong(BranchWord(f3, rs1, rs2, offset)) == Branch(f3, rs1 as nat, rs2 as nat, offset)
  {
    BranchFields(f3, rs1, rs2, offset);
    BranchOffset(f3, rs1, rs2, offset);
    hide BranchWord, BOffset, Signed;
  }

  lemma BranchFields(f3: bv32, rs1: bv32, rs2: bv32, offset: bv32)
    requires f3 < 8 && rs1 < 32 && rs2 < 32
    ensures var w := BranchWord(f3, rs1, rs2, offset);
      (w >> 15) & 31 == rs1 && (w >> 20) & 31 == rs2 && Op(w) == 0x63 && F3(w) == f3
  {
  }

  lemma BranchOffset(f3: bv32, rs1: bv32, rs2: bv32, offset: bv32)
    requires f3 < 8 && rs1 < 32 && rs2 < 32 && Signed(offset, 0xffff_f000) && offset & 1 == 0
    ensures BOffset(BranchWord(f3, rs1, rs2, offset)) == offset
  {
    BranchLow(f3, rs1, rs2, offset);
    BranchHigh(f3, rs1, rs2, offset);
    hide BranchWord, Signed;
    BranchJoined(offset);
  }

  lemma BranchLow(f3: bv32, rs1: bv32, rs2: bv32, offset: bv32)
    requires f3 < 8 && rs1 < 32 && rs2 < 32
    ensures (BranchWord(f3, rs1, rs2, offset) >> 20) & 0x7e0 == offset & 0x7e0
    ensures (BranchWord(f3, rs1, rs2, offset) >> 7) & 0x1e == offset & 0x1e
  {
  }

  lemma BranchHigh(f3: bv32, rs1: bv32, rs2: bv32, offset: bv32)
    requires f3 < 8 && rs1 < 32 && rs2 < 32
    ensures (BranchWord(f3, rs1, rs2, offset) << 4) & 0x800 == offset & 0x800
    ensures BranchWord(f3, rs1, rs2, offset) >> 31 == (offset >> 12) & 1
  {
  }

  lemma BranchJoined(offset: bv32)
    requires Signed(offset, 0xffff_f000) && offset & 1 == 0
    ensures (if (offset >> 12) & 1 == 1 then 0xffff_f000 else 0) | (offset & 0x800) | (offset & 0x7e0)
              | (offset & 0x1e) == offset
  {
  }

  lemma CjDecoded(link: bool, offset: bv32)
    requires Signed(offset, 0xffff_f800) && offset & 1 == 0
    ensures DecodeShort(CjWord(link, offset)) == Jump(if link then 1 else 0, offset)
  {
    var h := CjWord(link, offset);
    assert CjOffset(h) == offset && Quadrant(h) == 1 && F3Short(h) == if link then 1 else 5;
  }

  lemma CbDecoded(nonzero: bool, r: bv32, offset: bv32)
    requires r < 8 && Signed(offset, 0xffff_ff00) && offset & 1 == 0
    ensures DecodeShort(CbWord(nonzero, r, offset)) == Branch(if nonzero then 1 else 0, 8 + r as nat, 0, offset)
  {
    var h := CbWord(nonzero, r, offset);
    assert CbOffset(h) == offset && Quadrant(h) == 1 && F3Short(h) == (if nonzero then 7 else 6) && (h >> 7) & 7 == r;
  }

  lemma CjrDecoded(link: bool, rs1: bv32)
    requires 0 < rs1 < 32
    ensures DecodeShort(CjrWord(link, rs1)) == JumpReg(if link then 1 else 0, rs1 as nat, 0)
  {
    var h := CjrWord(link, rs1);
    assert Quadrant(h) == 2 && F3Short(h) == 4 && (h >> 7) & 31 == rs1 && (h >> 2) & 31 == 0;
    assert (h >> 12) & 1 == if link then 1 else 0;
  }

  // ------------------------------------------------------------------ loads and stores that are refused

  /** The lowest twelve bits as a number between -2048 and 2047. */
  function Number12(x: bv32): int { Centred((x & 0xfff) as int) }

  function Centred(n: int): int { if n >= 2048 then n - 4096 else n }

  /** The twelve bits of the offset of a store, and of a load. */
  function StoreBits(w: bv32): bv32 { ((w >> 25) << 5) | ((w >> 7) & 0x1f) }

  function LoadBits(w: bv32): bv32 { w >> 20 }

  function AccessOffset(w: bv32): int {
    if Op(w) == 0x23 then Number12(StoreBits(w)) else Number12(LoadBits(w))
  }

  /** A load or a store whose base is register 0 and whose offset is at least -16: it accesses the first 2048
      bytes or the last 16 of the address space. */
  predicate Suspect(w: bv32) {
    (Op(w) == 0x03 || Op(w) == 0x23) && Rs1(w) == 0 && -16 <= AccessOffset(w) < 4096
  }

  lemma SuspectWord(w: bv32)
    ensures BareMemFault(w) <==> Suspect(w)
  {
    hide SignedLess, Number12, Rs1, Op, StoreBits, LoadBits, SType, IType;
    StoreRange(w);
    LoadRange(w);
  }

  lemma StoreRange(w: bv32)
    ensures !SignedLess(SType(w), 0xffff_fff0) && SignedLess(SType(w), 4096) <==> -16 <= Number12(StoreBits(w)) < 4096
  {
    StoreTwelve(w);
    hide SignedLess, Number12;
    InRange(StoreBits(w));
  }

  lemma StoreTwelve(w: bv32)
    ensures StoreBits(w) & 0xfff == StoreBits(w)
  {
  }

  lemma LoadRange(w: bv32)
    ensures !SignedLess(IType(w), 0xffff_fff0) && SignedLess(IType(w), 4096) <==> -16 <= Number12(LoadBits(w)) < 4096
  {
    LoadTwelve(w);
    hide SignedLess, Number12, LoadBits;
    InRange(LoadBits(w));
    assert IType(w) == (LoadBits(w) ^ 0x800) - 0x800 by { LoadFlipped(w); }
    hide IType;
  }

  lemma LoadTwelve(w: bv32)
    ensures LoadBits(w) & 0xfff == LoadBits(w)
  {
  }

  lemma LoadFlipped(w: bv32)
    ensures IType(w) == (LoadBits(w) ^ 0x800) - 0x800
  {
  }

  lemma InRange(x: bv32)
    requires x & 0xfff == x
    ensures var imm := (x ^ 0x800) - 0x800;
      !SignedLess(imm, 0xffff_fff0) && SignedLess(imm, 4096) <==> -16 <= Number12(x) < 4096
  {
    var imm := (x ^ 0x800) - 0x800;
    assert !SignedLess(imm, 0xffff_fff0) && SignedLess(imm, 4096) <==> x < 0x800 || x >= 0xff0;
    assert x < 0x800 <==> (x as int) < 2048;
    assert x >= 0xff0 <==> (x as int) >= 4080;
    assert x < 0x1000 && (x as int) < 4096;
    hide SignedLess;
  }

  /** A load or store put together from its parts. */
  lemma SuspectAccess(f3: bv32, r: bv32, base: bv32, imm: bv32)
    requires f3 < 8 && r < 32 && base < 32
    ensures Suspect(ITypeWord(0x03, f3, r, base, imm)) <==> base == 0 && -16 <= Number12(imm)
    ensures Suspect(STypeWord(f3, base, r, imm)) <==> base == 0 && -16 <= Number12(imm)
  {
    hide ITypeWord, STypeWord, Number12, Op, LoadBits, StoreBits, Rs1;
    LoadFields(f3, r, base, imm);
    StoreFields(f3, r, base, imm);
    NumberBelow(imm);
  }

  lemma LoadFields(f3: bv32, r: bv32, base: bv32, imm: bv32)
    requires f3 < 8 && r < 32 && base < 32
    ensures var w := ITypeWord(0x03, f3, r, base, imm);
      Op(w) == 0x03 && (Rs1(w) == 0 <==> base == 0) && Number12(LoadBits(w)) == Number12(imm)
  {
    hide ITypeWord, Op, Rs1, LoadBits, Number12;
    LoadParts(f3, r, base, imm);
    NoBase(ITypeWord(0x03, f3, r, base, imm));
    SameNumber(LoadBits(ITypeWord(0x03, f3, r, base, imm)), imm);
  }

  lemma LoadParts(f3: bv32, r: bv32, base: bv32, imm: bv32)
    requires f3 < 8 && r < 32 && base < 32
    ensures var w := ITypeWord(0x03, f3, r, base, imm);
      Op(w) == 0x03 && (w >> 15) & 31 == base && LoadBits(w) & 0xfff == imm & 0xfff
  {
  }

  lemma SameNumber(x: bv32, y: bv32)
    requires x & 0xfff == y & 0xfff
    ensures Number12(x) == Number12(y)
  {
    hide Centred;
  }

  lemma NoBase(w: bv32)
    ensures Rs1(w) == 0 <==> (w >> 15) & 31 == 0
  {
  }

  lemma StoreFields(f3: bv32, r: bv32, base: bv32, imm: bv32)
    requires f3 < 8 && r < 32 && base < 32
    ensures var w := STypeWord(f3, base, r, imm);
      Op(w) == 0x23 && (Rs1(w) == 0 <==> base == 0) && Number12(StoreBits(w)) == Number12(imm)
  {
    hide STypeWord, Op, Rs1, StoreBits, Number12;
    StoreParts(f3, r, base, imm);
    NoBase(STypeWord(f3, base, r, imm));
    SameNumber(StoreBits(STypeWord(f3, base, r, imm)), imm);
  }

  lemma StoreParts(f3: bv32, r: bv32, base: bv32, imm: bv32)
    requires f3 < 8 && r < 32 && base < 32
    ensures var w := STypeWord(f3, base, r, imm);
      Op(w) == 0x23 && (w >> 15) & 31 == base && StoreBits(w) & 0xfff == imm & 0xfff
  {
  }

  lemma NumberBelow(imm: bv32)
    ensures Number12(imm) < 4096
  {
    assert imm & 0xfff < 0x1000;
  }

  // ------------------------------------------------------------------ stubs

  /** The three words are AUIPC, LW and JALR through register `x`, the last one with a link. */
  predicate StubOf(w0: bv32, w1: bv32, w2: bv32, x: bv32, link: bv32) {
    && 0 < x < 32 && 0 < link < 32
    && w0 == UpperWord(0x17, x, w0) && w1 == ITypeWord(0x03, 2, x, x, w1 >> 20)
    && w2 == ITypeWord(0x67, (w2 >> 12) & 7, link, x, w2 >> 20)
  }

  /** A stub is found exactly where these instructions are, and the word they load has an address. */
  lemma StubFound(m: Memory, pc: bv32)
    ensures var w0, w1, w2 := Word(m, pc, true), Word(m, Plus(pc, 4), true), Word(m, Plus(Plus(pc, 4), 4), true);
      StubAt(m, pc).Some? <==> StubOf(w0, w1, w2, (w0 >> 7) & 31, (w2 >> 7) & 31) && StubSlot(m, pc) != 0
  {
    var w0, w1, w2 := Word(m, pc, true), Word(m, Plus(pc, 4), true), Word(m, Plus(Plus(pc, 4), 4), true);
    LongWord(m, pc);
    LongWord(m, Plus(pc, 4));
    LongWord(m, Plus(Plus(pc, 4), 4));
    StubWords(w0, w1, w2);
    hide IsLong, Word, Plus, StubSlot, IType, ClearLow, StubOf, Upper;
  }

  lemma LowPair(a: bv8, b: bv8, c: bv8, d: bv8)
    ensures Pack(a, b, c, d) & 3 == Pack(a, b, 0, 0) & 3
  {
  }

  lemma LongWord(m: Memory, a: bv32)
    ensures IsLong(m, a) <==> Word(m, a, true) & 3 == 3
  {
    hide Pack, Plus;
    LowPair(m(a), m(Plus(a, 1)), m(Plus(a, 2)), m(Plus(a, 3)));
  }

  /** The fields of three words are those of a stub exactly when the words are put together from them. */
  lemma StubWords(w0: bv32, w1: bv32, w2: bv32)
    ensures StubOf(w0, w1, w2, (w0 >> 7) & 31, (w2 >> 7) & 31) <==>
      && w0 & 3 == 3 && w1 & 3 == 3 && w2 & 3 == 3
      && Op(w0) == 0x17 && Op(w1) == 0x03 && F3(w1) == 2 && Op(w2) == 0x67
      && Rd(w0) != 0 && Rd(w1) == Rd(w0) && Rs1(w1) == Rd(w0) && Rs1(w2) == Rd(w0) && Rd(w2) != 0
  {
    var x, link := (w0 >> 7) & 31, (w2 >> 7) & 31;
    assert Rd(w0) != 0 <==> x != 0;
    assert Rd(w2) != 0 <==> link != 0;
    assert Rd(w1) == Rd(w0) <==> (w1 >> 7) & 31 == x;
    assert Rs1(w1) == Rd(w0) <==> (w1 >> 15) & 31 == x;
    assert Rs1(w2) == Rd(w0) <==> (w2 >> 15) & 31 == x;
    StubBits(w0, w1, w2);
    hide Rd, Rs1;
  }

  lemma StubBits(w0: bv32, w1: bv32, w2: bv32)
    ensures var x, link := (w0 >> 7) & 31, (w2 >> 7) & 31;
      StubOf(w0, w1, w2, x, link) <==>
      && Op(w0) == 0x17 && Op(w1) == 0x03 && F3(w1) == 2 && Op(w2) == 0x67
      && x != 0 && (w1 >> 7) & 31 == x && (w1 >> 15) & 31 == x && (w2 >> 15) & 31 == x && link != 0
    ensures Op(w0) == 0x17 ==> w0 & 3 == 3
    ensures Op(w1) == 0x03 ==> w1 & 3 == 3
    ensures Op(w2) == 0x67 ==> w2 & 3 == 3
  {
    LongOp(w0);
    LongOp(w1);
    LongOp(w2);
    UpperBits(w0);
    LoadWordBits(w1, (w0 >> 7) & 31);
    JalrBits(w2, (w0 >> 7) & 31);
    assert (w0 >> 7) & 31 < 32 && (w2 >> 7) & 31 < 32;
    hide UpperWord, ITypeWord, Op, F3;
  }

  lemma LongOp(w: bv32)
    ensures Op(w) == 0x17 || Op(w) == 0x03 || Op(w) == 0x67 ==> w & 3 == 3
  {
  }

  lemma UpperBits(w: bv32)
    ensures w == UpperWord(0x17, (w >> 7) & 31, w) <==> Op(w) == 0x17
  {
  }

  /** Every word is put together from its own fields, and the fields of one put together are its parts. */
  lemma ITypeSplit(w: bv32)
    ensures w == ITypeWord(Op(w), F3(w), (w >> 7) & 31, (w >> 15) & 31, w >> 20)
  {
  }

  lemma ITypeParts(op: bv32, f3: bv32, rd: bv32, rs1: bv32, imm: bv32)
    requires op < 128 && f3 < 8 && rd < 32 && rs1 < 32
    ensures var w := ITypeWord(op, f3, rd, rs1, imm);
      Op(w) == op && F3(w) == f3 && (w >> 7) & 31 == rd && (w >> 15) & 31 == rs1
  {
  }

  lemma LoadWordBits(w: bv32, x: bv32)
    requires x < 32
    ensures w == ITypeWord(0x03, 2, x, x, w >> 20) <==>
      Op(w) == 0x03 && F3(w) == 2 && (w >> 7) & 31 == x && (w >> 15) & 31 == x
  {
    ITypeSplit(w);
    ITypeParts(0x03, 2, x, x, w >> 20);
    hide ITypeWord, Op, F3;
  }

  lemma JalrBits(w: bv32, x: bv32)
    requires x < 32
    ensures w == ITypeWord(0x67, (w >> 12) & 7, (w >> 7) & 31, x, w >> 20) <==> Op(w) == 0x67 && (w >> 15) & 31 == x
  {
    ITypeSplit(w);
    SmallFields(w);
    ITypeParts(0x67, F3(w), (w >> 7) & 31, x, w >> 20);
    hide ITypeWord, Op;
  }

  lemma SmallFields(w: bv32)
    ensures F3(w) < 8 && (w >> 7) & 31 < 32
  {
  }
}
