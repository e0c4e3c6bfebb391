/** The compressor of appendix F of the GIF89a specification, and that the decoder's reference undoes it: the two build
    the same dictionary one code apart, and read and write every code with the same number of bits. */
module LzwEncoder {
  import opened Wrappers
  import opened Arithmetic
  import opened DiskModel
  import opened BitStreams
  import opened Lzw

  // ------------------------------------------------------------------ the width of codes

  /** How many binary digits a number has. */
  function BitsFor(n: nat): nat { if n == 0 then 0 else 1 + BitsFor(n / 2) }

  lemma {:induction false} BitsBound(n: nat)
    ensures n < Pow2(BitsFor(n)) && (n > 0 ==> Pow2(BitsFor(n) - 1) <= n)
  {
    if n > 0 { BitsBound(n / 2); }
  }

  lemma {:induction false} BitsOfPower(k: nat, n: nat)
    requires Pow2(k) <= n < Pow2(k + 1)
    ensures BitsFor(n) == k + 1
  {
    if k > 0 {
      assert n / 2 < Pow2(k) && Pow2(k - 1) <= n / 2;
      BitsOfPower(k - 1, n / 2);
    }
  }

  /** One more takes one more digit exactly at a power of two. */
  lemma BitsStep(n: nat)
    ensures BitsFor(n + 1) == if n + 1 == Pow2(BitsFor(n)) then BitsFor(n) + 1 else BitsFor(n)
  {
    BitsBound(n);
    if n + 1 == Pow2(BitsFor(n)) {
      BitsOfPower(BitsFor(n), n + 1);
    } else {
      BitsOfPower(BitsFor(n) - 1, n + 1);
    }
  }

  /** The width of the next code is the number of digits of the largest code that can come, the one about to be
      learned, which stops at 4095. */
  predicate WidthRight(d: Dictionary) {
    0 < |d.strings| <= TABLE && d.width == BitsFor(if |d.strings| < TABLE then |d.strings| else TABLE - 1)
  }

  lemma FreshWidth(min: nat)
    requires GoodMin(min)
    ensures WidthRight(Fresh(min)) && |Fresh(min).strings| == Pow2(min) + 2 < TABLE
    ensures BitsFor(Pow2(min) + 1) == BitsFor(Pow2(min) + 2) == min + 1
  {
    MinTable(min);
    BitsOfPower(min, Pow2(min) + 1);
    BitsOfPower(min, Pow2(min) + 2);
  }

  lemma TableBits()
    ensures BitsFor(TABLE - 1) == MAX_WIDTH && Pow2(MAX_WIDTH) == TABLE
  {
    Pow2Table();
    assert Pow2(12) == 2 * Pow2(11) == 4 * Pow2(10) == 8 * Pow2(9) == 16 * Pow2(8);
    BitsOfPower(11, TABLE - 1);
  }

  lemma BitsMost(n: nat)
    requires n < TABLE
    ensures BitsFor(n) <= MAX_WIDTH
  {
    TableBits();
    BitsBound(n);
    if BitsFor(n) > MAX_WIDTH { Pow2Monotone(MAX_WIDTH, BitsFor(n) - 1); }
  }

  /** How the width goes on when the table grows from `n` strings. */
  lemma WidthStep(n: nat, width: nat)
    requires n < TABLE && width == BitsFor(n)
    ensures (if n + 1 == Pow2(width) && width < MAX_WIDTH then width + 1 else width)
         == BitsFor(if n + 1 < TABLE then n + 1 else TABLE - 1)
  {
    TableBits();
    BitsStep(n);
    BitsMost(n);
    if n + 1 < TABLE { BitsMost(n + 1); }
  }

  /** Learning keeps the width right. */
  lemma LearnWidth(d: Dictionary, s: seq<byte>)
    requires WidthRight(d) && d.prev != [] && s != []
    ensures WidthRight(Learn(d, s))
  {
    if |d.strings| < TABLE { WidthStep(|d.strings|, d.width); }
    hide BitsFor, Pow2;
  }

  // ------------------------------------------------------------------ the compressor

  function CodeOf(t: seq<seq<byte>>, w: seq<byte>): (c: nat)
    requires w in t
    ensures c < |t| && t[c] == w
  {
    if t[0] == w then 0 else 1 + CodeOf(t[1..], w)
  }

  /** The strings with codes, besides the one-letter ones two places for the control codes. */
  function FirstTable(min: nat): seq<seq<byte>>
    requires GoodMin(min)
  {
    MinTable(min);
    Literals(Pow2(min)) + [[], []]
  }

  /** A code is written with as many digits as the largest code of the table has. */
  function Written(t: seq<seq<byte>>, w: seq<byte>): seq<bool>
    requires w in t
  {
    Digits(CodeOf(t, w), BitsFor(|t| - 1))
  }

  /** Every letter of the data has a code. */
  predicate Known(t: seq<seq<byte>>, data: seq<byte>) {
    forall k :: 0 <= k < |data| ==> [data[k]] in t
  }

  /** Compresses `data` behind `w`, which has a code: as long as a letter more has a code, too, it is taken; else
      the code of `w` is written and the longer string gets the next code, while there is one. */
  function EncodeFrom(t: seq<seq<byte>>, w: seq<byte>, data: seq<byte>): seq<bool>
    requires w in t && Known(t, data)
    decreases |data|
  {
    if data == [] then Written(t, w)
    else
      var longer := w + [data[0]];
      if longer in t then EncodeFrom(t, longer, data[1..])
      else
        var t1 := if |t| < TABLE then t + [longer] else t;
        Written(t, w) + EncodeFrom(t1, [data[0]], data[1..])
  }

  /** Every letter is below the clear code. */
  predicate Plain(data: seq<byte>, min: nat) {
    forall k :: 0 <= k < |data| ==> (data[k] as nat) < Pow2(min)
  }

  /** The whole stream: a clear code, and the codes of the data. */
  function Encode(data: seq<byte>, min: nat): seq<bool>
    requires GoodMin(min) && Plain(data, min)
  {
    MinTable(min);
    LettersKnown(data, min);
    Digits(ClearCode(min), min + 1) + if data == [] then [] else EncodeFrom(FirstTable(min), [data[0]], data[1..])
  }

  lemma LettersKnown(data: seq<byte>, min: nat)
    requires GoodMin(min) && Plain(data, min)
    ensures Known(FirstTable(min), data)
  {
    MinTable(min);
    forall k | 0 <= k < |data|
      ensures [data[k]] in FirstTable(min)
    {
      assert FirstTable(min)[data[k] as nat] == [data[k]];
    }
  }

  // ------------------------------------------------------------------ both dictionaries

  /** A table has the letters, nothing at the control codes, and strings elsewhere. */
  ghost predicate Table(t: seq<seq<byte>>, min: nat) {
    && GoodMin(min) && EndCode(min) < |t| <= TABLE && ClearCode(min) <= 256
    && (forall c :: 0 <= c < ClearCode(min) ==> t[c] == [c as byte])
    && t[ClearCode(min)] == [] && t[EndCode(min)] == []
  }

  /** The compressor at `w` is one entry ahead of the decoder: the string it gave the last code to begins with the
      decoder's last string and goes on with the first letter of `w`. */
  ghost predicate InStep(t: seq<seq<byte>>, w: seq<byte>, d: Dictionary, min: nat) {
    && Table(t, min) && w != [] && w in t && d.width == BitsFor(|t| - 1)
    && if d.prev == [] then t == d.strings == FirstTable(min)
       else if |d.strings| < TABLE then t == d.strings + [d.prev + [w[0]]]
       else t == d.strings
  }

  /** What the decoder takes the code of `w` for. */
  lemma CodeRead(t: seq<seq<byte>>, w: seq<byte>, d: Dictionary, min: nat)
    requires InStep(t, w, d, min)
    ensures Interpret(d, min, CodeOf(t, w)) == Emit(w, Behind(d, w))
  {
    var c := CodeOf(t, w);
    MinTable(min);
    if d.prev == [] {
      assert c < ClearCode(min);
    } else if c == |d.strings| {
      assert w == d.prev + [w[0]];
      assert w[0] == d.prev[0];
    }
  }

  /** The dictionary behind a code that was read. */
  function Behind(d: Dictionary, w: seq<byte>): Dictionary
    requires w != []
  {
    if d.prev == [] then d.(prev := w) else Learn(d, w)
  }

  /** The table behind a code that was written, when the letter `x` comes next. */
  function Grown(t: seq<seq<byte>>, w: seq<byte>, x: byte): seq<seq<byte>> {
    if |t| < TABLE then t + [w + [x]] else t
  }

  lemma GrownTable(t: seq<seq<byte>>, w: seq<byte>, min: nat, x: byte)
    requires Table(t, min) && (x as nat) < Pow2(min)
    ensures Table(Grown(t, w, x), min) && [x] in Grown(t, w, x)
  {
    assert Grown(t, w, x)[x as nat] == [x];
  }

  lemma KnownTail(t: seq<seq<byte>>, w: seq<byte>, data: seq<byte>, min: nat)
    requires Known(t, data) && Plain(data, min) && data != []
    ensures Known(t, data[1..]) && Plain(data[1..], min) && Known(Grown(t, w, data[0]), data[1..])
    ensures (data[0] as nat) < Pow2(min)
  {
  }

  lemma GrownWidth(t: seq<seq<byte>>, w: seq<byte>, d: Dictionary, min: nat, x: byte)
    requires InStep(t, w, d, min)
    ensures w != [] && Behind(d, w).width == BitsFor(|Grown(t, w, x)| - 1)
  {
    hide BitsFor, Pow2, Table, FirstTable, CodeOf;
    InStepSizes(t, w, d, min);
    FreshWidth(min);
    FirstSize(min);
    if d.prev != [] && |d.strings| < TABLE { WidthStep(|d.strings|, d.width); }
  }

  lemma FirstSize(min: nat)
    requires GoodMin(min)
    ensures |FirstTable(min)| == Pow2(min) + 2
  {
  }

  /** Once the decoder has read the code, both are in step again. */
  lemma StillInStep(t: seq<seq<byte>>, w: seq<byte>, d: Dictionary, min: nat, x: byte)
    requires InStep(t, w, d, min) && (x as nat) < Pow2(min)
    ensures w != [] && [x] in Grown(t, w, x) && InStep(Grown(t, w, x), [x], Behind(d, w), min)
  {
    hide Table, BitsFor, Pow2, CodeOf;
    GrownTable(t, w, min, x);
    GrownWidth(t, w, d, min, x);
    FreshWidth(min);
    InStepSizes(t, w, d, min);
  }

  lemma InStepSizes(t: seq<seq<byte>>, w: seq<byte>, d: Dictionary, min: nat)
    requires InStep(t, w, d, min)
    ensures 1 < |t| <= TABLE && |d.strings| <= |t| && GoodMin(min) && w != [] && w in t
    ensures d.width == BitsFor(|t| - 1) > 0 && CodeOf(t, w) < Pow2(d.width)
  {
    BitsBound(|t| - 1);
  }

  /** The first code of a stream of bits. */
  lemma FirstCode(c: nat, n: nat, rest: seq<bool>)
    requires c < Pow2(n)
    ensures ToNat((Digits(c, n) + rest)[..n]) == c && (Digits(c, n) + rest)[n..] == rest
  {
    DigitsValue(c, n);
    assert (Digits(c, n) + rest)[..n] == Digits(c, n);
  }

  lemma WrittenRead(t: seq<seq<byte>>, w: seq<byte>, d: Dictionary, min: nat, rest: seq<bool>, want: nat)
    requires InStep(t, w, d, min) && w in t && want >= |w|
    ensures GoodMin(min) && w != []
    ensures Decode(Written(t, w) + rest, d, min, want) ==
              match Decode(rest, Behind(d, w), min, want - |w|)
              case None => None
              case Some(tail) => Some(w + tail)
  {
    hide Interpret, Learn, InStep, Digits, BitsFor, Pow2, ToNat, Behind;
    InStepSizes(t, w, d, min);
    CodeRead(t, w, d, min);
    FirstCode(CodeOf(t, w), d.width, rest);
    assert w[..|w|] == w;
  }

  /** Decoding gives back what was compressed, whatever follows. */
  lemma {:induction false} DecodesFrom(t: seq<seq<byte>>, w: seq<byte>, data: seq<byte>, d: Dictionary, min: nat,
                                       rest: seq<bool>)
    requires InStep(t, w, d, min) && w in t && Plain(data, min) && Known(t, data)
    ensures Decode(EncodeFrom(t, w, data) + rest, d, min, |w| + |data|) == Some(w + data)
    decreases |data|
  {
    hide InStep, Decode, Known, Plain, Written, Behind, Grown;
    if data == [] {
      WrittenRead(t, w, d, min, rest, |w|);
      NothingWanted(rest, Behind(d, w), min);
      assert w + [] == w;
    } else {
      KnownTail(t, w, data, min);
      assert [data[0]] + data[1..] == data;
      if w + [data[0]] in t {
        LongerInStep(t, w, data[0], d, min);
        DecodesFrom(t, w + [data[0]], data[1..], d, min, rest);
        assert w + [data[0]] + data[1..] == w + data;
      } else {
        Flushed(t, w, data, d, min, rest);
      }
    }
  }

  lemma NothingWanted(rest: seq<bool>, d: Dictionary, min: nat)
    requires GoodMin(min)
    ensures Decode(rest, d, min, 0) == Some([])
  {
  }

  lemma LongerInStep(t: seq<seq<byte>>, w: seq<byte>, x: byte, d: Dictionary, min: nat)
    requires InStep(t, w, d, min) && w + [x] in t
    ensures InStep(t, w + [x], d, min)
  {
  }

  /** The code of `w` is written, and the compression goes on with the next letter. */
  lemma Flushed(t: seq<seq<byte>>, w: seq<byte>, data: seq<byte>, d: Dictionary, min: nat, rest: seq<bool>)
    requires InStep(t, w, d, min) && w in t && Plain(data, min) && Known(t, data)
    requires data != [] && w + [data[0]] !in t
    ensures Decode(EncodeFrom(t, w, data) + rest, d, min, |w| + |data|) == Some(w + data)
    decreases |data|, 0
  {
    hide InStep, Decode, Written, Behind, Known, Plain, Grown, EncodeFrom;
    var t1 := Grown(t, w, data[0]);
    KnownTail(t, w, data, min);
    StillInStep(t, w, d, min, data[0]);
    EncodeStep(t, w, data);
    var more := EncodeFrom(t1, [data[0]], data[1..]);
    DecodesFrom(t1, [data[0]], data[1..], Behind(d, w), min, rest);
    assert (Written(t, w) + more) + rest == Written(t, w) + (more + rest);
    WrittenRead(t, w, d, min, more + rest, |w| + |data|);
    assert [data[0]] + data[1..] == data;
  }

  lemma EncodeStep(t: seq<seq<byte>>, w: seq<byte>, data: seq<byte>)
    requires w in t && Known(t, data) && data != [] && w + [data[0]] !in t
    ensures var t1 := Grown(t, w, data[0]);
      && [data[0]] in t1 && Known(t1, data[1..])
      && EncodeFrom(t, w, data) == Written(t, w) + EncodeFrom(t1, [data[0]], data[1..])
  {
  }

  lemma Started(data: seq<byte>, min: nat)
    requires GoodMin(min) && Plain(data, min) && data != []
    ensures [data[0]] in FirstTable(min) && InStep(FirstTable(min), [data[0]], Fresh(min), min)
    ensures Known(FirstTable(min), data[1..]) && Plain(data[1..], min)
  {
    MinTable(min);
    FreshWidth(min);
    LettersKnown(data, min);
    assert [data[0]] in FirstTable(min);
    hide BitsFor;
  }

  /** A clear code makes a fresh dictionary. */
  lemma ClearRead(d: Dictionary, min: nat, rest: seq<bool>, want: nat)
    requires GoodMin(min) && d.width == min + 1 && want > 0
    ensures Decode(Digits(ClearCode(min), min + 1) + rest, d, min, want) == Decode(rest, Fresh(min), min, want)
  {
    FirstCode(ClearCode(min), min + 1, rest);
    hide Digits, ToNat;
  }

  /** The decoder's reference undoes the compressor. */
  lemma EncodeDecodes(data: seq<byte>, min: nat, d: Dictionary, rest: seq<bool>)
    requires GoodMin(min) && Plain(data, min) && d.width == min + 1
    ensures Decode(Encode(data, min) + rest, d, min, |data|) == Some(data)
  {
    hide Decode, InStep, EncodeFrom, Known, Plain, FirstTable, Digits, Fresh;
    if data == [] {
      NothingWanted(Encode(data, min) + rest, d, min);
    } else {
      LettersKnown(data, min);
      Started(data, min);
      var t, more := FirstTable(min), EncodeFrom(FirstTable(min), [data[0]], data[1..]);
      assert Encode(data, min) + rest == Digits(ClearCode(min), min + 1) + (more + rest);
      DecodesFrom(t, [data[0]], data[1..], Fresh(min), min, rest);
      assert [data[0]] + data[1..] == data;
      ClearRead(d, min, more + rest, |data|);
    }
  }
}
