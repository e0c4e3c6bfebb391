/** Variable-width codes cut out of the length-prefixed sub-blocks of a GIF image, least significant
    bit first. */
module BitStreams {
  import opened Arithmetic
  import opened DiskModel

  /** The number whose binary digits, least significant first, are `s`. */
  function ToNat(s: seq<bool>): nat {
    if s == [] then 0 else (if s[0] then 1 else 0) + 2 * ToNat(s[1..])
  }

  /** The lowest `n` binary digits of `v`, least significant first. */
  function Digits(v: nat, n: nat): (s: seq<bool>)
    ensures |s| == n
  {
    if n == 0 then [] else [v % 2 == 1] + Digits(v / 2, n - 1)
  }

  function BytesBits(bytes: seq<byte>): seq<bool> {
    if bytes == [] then [] else Digits(bytes[0] as nat, 8) + BytesBits(bytes[1..])
  }

  /** The image data that follows: `rem` more bytes of the current sub-block, then the sub-blocks
      after it up to the empty one. */
  function Payload(buf: seq<byte>, pos: nat, rem: nat): seq<byte>
    decreases |buf| - pos
  {
    if pos >= |buf| then []
    else if rem > 0 then [buf[pos]] + Payload(buf, pos + 1, rem - 1)
    else if buf[pos] == 0 then []
    else Payload(buf, pos + 1, buf[pos] as nat)
  }

  lemma {:induction false} DigitsValue(v: nat, n: nat)
    requires v < Pow2(n)
    ensures ToNat(Digits(v, n)) == v
  {
    if n > 0 {
      DigitsValue(v / 2, n - 1);
      assert Digits(v, n)[1..] == Digits(v / 2, n - 1);
    }
  }

  lemma {:induction false} ToNatConcat(a: seq<bool>, b: seq<bool>)
    ensures ToNat(a + b) == ToNat(a) + Pow2(|a|) * ToNat(b)
  {
    if a == [] {
      assert a + b == b;
    } else {
      assert (a + b)[1..] == a[1..] + b;
      ToNatConcat(a[1..], b);
      Doubled(Pow2(|a| - 1), ToNat(b), Pow2(|a| - 1) * ToNat(b));
    }
  }

  lemma {:induction false} ToNatBound(s: seq<bool>)
    ensures ToNat(s) < Pow2(|s|)
  {
    if s != [] { ToNatBound(s[1..]); }
  }

  /** Masking and shifting split a number where its digits split. */
  lemma ToNatSplit(s: seq<bool>, n: nat)
    requires n <= |s|
    ensures ToNat(s) % Pow2(n) == ToNat(s[..n]) && ToNat(s) / Pow2(n) == ToNat(s[n..])
  {
    hide ToNat, Pow2;
    assert s == s[..n] + s[n..];
    ToNatConcat(s[..n], s[n..]);
    ToNatBound(s[..n]);
    DivMod(ToNat(s), Pow2(n), ToNat(s[n..]), ToNat(s[..n]));
  }

  /** The next byte of data is in this sub-block, or opens the next one. */
  lemma PayloadHead(buf: seq<byte>, pos: nat, rem: nat)
    requires Payload(buf, pos, rem) != []
    ensures pos < |buf|
    ensures if rem == 0 then buf[pos] != 0 && Payload(buf, pos, rem) == Payload(buf, pos + 1, buf[pos] as nat)
            else BytesBits(Payload(buf, pos, rem))
                 == Digits(buf[pos] as nat, 8) + BytesBits(Payload(buf, pos + 1, rem - 1))
  {
    if rem > 0 {
      var p := [buf[pos]] + Payload(buf, pos + 1, rem - 1);
      assert p[1..] == Payload(buf, pos + 1, rem - 1);
    }
  }

  lemma {:induction false} AppendDigits(pending: seq<bool>, b: nat, n: nat, rest: seq<bool>)
    requires b < Pow2(n)
    ensures ToNat(pending + Digits(b, n)) == ToNat(pending) + Pow2(|pending|) * b
    ensures (pending + Digits(b, n)) + rest == pending + (Digits(b, n) + rest)
  {
    DigitsValue(b, n);
    ToNatConcat(pending, Digits(b, n));
  }

  /** One byte of data goes behind the pending bits. */
  lemma TakenByte(pending: seq<bool>, buf: seq<byte>, pos: nat, rem: nat)
    requires rem > 0 && Payload(buf, pos, rem) != []
    ensures pos < |buf|
    ensures var b := buf[pos] as nat;
      var now := pending + Digits(b, 8);
      && |now| == |pending| + 8 && ToNat(now) == ToNat(pending) + Pow2(|pending|) * b
      && now + BytesBits(Payload(buf, pos + 1, rem - 1)) == pending + BytesBits(Payload(buf, pos, rem))
  {
    PayloadHead(buf, pos, rem);
    Pow2Table();
    hide ToNat, Digits, BytesBits, Payload, Pow2;
    AppendDigits(pending, buf[pos] as nat, 8, BytesBits(Payload(buf, pos + 1, rem - 1)));
  }

  /** The accumulator of fewer than 20 bits fits a 32-bit word. */
  lemma AccBound(pending: seq<bool>)
    requires |pending| < 20
    ensures ToNat(pending) < 0x1_0000_0000
  {
    ToNatBound(pending);
    Pow2Monotone(|pending|, 20);
    Pow2Table();
  }

  class BitStream {
    const buf: seq<byte>
    var pos: nat
    var blockRem: nat
    /** Bits taken from the data and not yet used, as a number and as digits. */
    var acc: nat
    var bits: nat
    ghost var pending: seq<bool>

    constructor (buf: seq<byte>, pos: nat)
      ensures Valid() && this.buf == buf && Future() == BytesBits(Payload(buf, pos, 0))
    {
      this.buf, this.pos := buf, pos;
      blockRem, acc, bits, pending := 0, 0, 0, [];
      new;
      assert [] + BytesBits(Payload(buf, pos, 0)) == BytesBits(Payload(buf, pos, 0));
    }

    ghost predicate Valid()
      reads this
    {
      bits == |pending| && acc == ToNat(pending) && bits < 20
    }

    /** Every bit still to come. */
    ghost function Future(): seq<bool>
      reads this
    {
      pending + BytesBits(Payload(buf, pos, blockRem))
    }

    /** Takes one byte of data, opening the next sub-block when the current one is used up. */
    method Refill()
      requires Valid() && bits < 12 && |Future()| > bits
      modifies this
      ensures Valid() && bits == old(bits) + 8 && Future() == old(Future())
      ensures acc < 0x1_0000_0000
    {
      OpenBlock();
      var b := buf[pos] as nat;
      TakenByte(pending, buf, pos, blockRem);
      pending := pending + Digits(b, 8);
      acc := acc + Pow2(bits) * b;
      pos, bits, blockRem := pos + 1, bits + 8, blockRem - 1;
      AccBound(pending);
    }

    /** Goes on to the next sub-block when the current one is used up. */
    method OpenBlock()
      requires Valid() && |Future()| > bits
      modifies this`pos, this`blockRem
      ensures Valid() && Future() == old(Future()) && blockRem > 0 && pos < |buf| && Payload(buf, pos, blockRem) != []
    {
      PayloadHead(buf, pos, blockRem);
      if blockRem == 0 {
        blockRem := buf[pos] as nat;
        pos := pos + 1;
        PayloadHead(buf, pos, blockRem);
      }
    }

    /** Reads the next `n` bits as a code. */
    method Read(n: nat) returns (code: nat)
      requires Valid() && 0 < n <= 12 && |Future()| >= n
      modifies this
      ensures Valid() && code == ToNat(old(Future())[..n]) && Future() == old(Future())[n..]
    {
      while bits < n
        invariant Valid() && Future() == old(Future())
        decreases n - bits
      {
        Refill();
      }
      ToNatSplit(pending, n);
      assert Future()[..n] == pending[..n] && Future()[n..] == pending[n..] + BytesBits(Payload(buf, pos, blockRem));
      code := acc % Pow2(n);
      acc, bits := acc / Pow2(n), bits - n;
      pending := pending[n..];
    }
  }
}
