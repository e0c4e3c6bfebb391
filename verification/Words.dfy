/** 32-bit words and their four bytes, lowest first. */
module Words {

  function Pack(a: bv8, b: bv8, c: bv8, d: bv8): bv32 {
    (a as bv32) | ((b as bv32) << 8) | ((c as bv32) << 16) | ((d as bv32) << 24)
  }

  function LowByte(w: bv32): bv8 { (w & 0xff) as bv8 }

  /** Byte `k` of a word. */
  function ByteOf(w: bv32, k: nat): bv8 {
    if k == 0 then LowByte(w) else if k == 1 then LowByte(w >> 8) else if k == 2 then LowByte(w >> 16)
      else LowByte(w >> 24)
  }

  function SetByte(w: bv32, k: nat, x: bv8): bv32 {
    if k == 0 then (w & !0xff) | (x as bv32)
    else if k == 1 then (w & !(0xff << 8)) | ((x as bv32) << 8)
    else if k == 2 then (w & !(0xff << 16)) | ((x as bv32) << 16)
    else (w & !(0xff << 24)) | ((x as bv32) << 24)
  }

  lemma PackBytes(a: bv8, b: bv8, c: bv8, d: bv8)
    ensures ByteOf(Pack(a, b, c, d), 0) == a && ByteOf(Pack(a, b, c, d), 1) == b
    ensures ByteOf(Pack(a, b, c, d), 2) == c && ByteOf(Pack(a, b, c, d), 3) == d
  {
  }

  /** A word is its four bytes. */
  lemma Unpack(w: bv32)
    ensures w == Pack(LowByte(w), LowByte(w >> 8), LowByte(w >> 16), LowByte(w >> 24))
  {
  }

  lemma SetFirst(a: bv8, b: bv8, c: bv8, d: bv8, x: bv8)
    ensures SetByte(Pack(a, b, c, d), 0, x) == Pack(x, b, c, d)
  {
  }

  lemma SetSecond(a: bv8, b: bv8, c: bv8, d: bv8, x: bv8)
    ensures SetByte(Pack(a, b, c, d), 1, x) == Pack(a, x, c, d)
  {
  }

  lemma SetThird(a: bv8, b: bv8, c: bv8, d: bv8, x: bv8)
    ensures SetByte(Pack(a, b, c, d), 2, x) == Pack(a, b, x, d)
  {
  }

  lemma SetFourth(a: bv8, b: bv8, c: bv8, d: bv8, x: bv8)
    ensures SetByte(Pack(a, b, c, d), 3, x) == Pack(a, b, c, x)
  {
  }

  /** Setting one byte of a word leaves the other three. */
  lemma SetBytes(w: bv32, k: nat, x: bv8, j: nat)
    requires k < 4 && j < 4
    ensures ByteOf(SetByte(w, k, x), j) == if j == k then x else ByteOf(w, j)
  {
    var a, b, c, d := LowByte(w), LowByte(w >> 8), LowByte(w >> 16), LowByte(w >> 24);
    Unpack(w);
    SetPacked(a, b, c, d, k, x, j);
  }

  lemma SetPacked(a: bv8, b: bv8, c: bv8, d: bv8, k: nat, x: bv8, j: nat)
    requires k < 4 && j < 4
    ensures ByteOf(SetByte(Pack(a, b, c, d), k, x), j) == if j == k then x else ByteOf(Pack(a, b, c, d), j)
  {
    hide *;
    PackBytes(a, b, c, d);
    if k == 0 {
      SetFirst(a, b, c, d, x);
      PackBytes(x, b, c, d);
    } else if k == 1 {
      SetSecond(a, b, c, d, x);
      PackBytes(a, x, c, d);
    } else if k == 2 {
      SetThird(a, b, c, d, x);
      PackBytes(a, b, x, d);
    } else {
      SetFourth(a, b, c, d, x);
      PackBytes(a, b, c, x);
    }
  }
}
