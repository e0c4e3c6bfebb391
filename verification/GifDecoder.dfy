/** The decoder: prefix and suffix tables, a stack that turns each string round, a growing code
    width, and pixels placed by running counters. */
module GifDecoders {
  import opened Wrappers
  import opened Arithmetic
  import opened DiskModel
  import opened BitStreams
  import opened Lzw
  import opened GifPaint

  // ------------------------------------------------------------------ the pass counters

  /** The counters stand at the `r`-th row of interlaced data. */
  predicate PassAt(h: nat, r: nat, pass: nat, y: nat, step: nat) {
    pass == PassOf(h, r) && step == PassStep(pass) && y == InterlacedRow(h, r)
  }

  /** The counters on the way to row `r`: a pass is still to be left when its rows are used up. */
  predicate PassToward(h: nat, r: nat, pass: nat, y: nat, step: nat) {
    && pass <= 3 && step == PassStep(pass) && PassBase(h, pass) <= r <= PassBase(h, pass + 1)
    && y == PassStart(pass) + step * (r - PassBase(h, pass))
  }

  lemma PassEnds(h: nat, p: nat, k: nat)
    requires p <= 3
    ensures PassStart(p) + PassStep(p) * k < h <==> k < PassBase(h, p + 1) - PassBase(h, p)
  {
    PassSum(h);
    if p == 0 { PassEndsAt(h, k, 8, 0); }
    else if p == 1 { PassEndsAt(h, k, 8, 4); }
    else if p == 2 { assert 2 + 4 * k < h <==> k < (h + 1) / 4; }
    else { assert 1 + 2 * k < h <==> k < h / 2; }
  }

  lemma PassEndsAt(h: nat, k: nat, step: nat, start: nat)
    requires step == 8 && start <= 4
    ensures start + 8 * k < h <==> k < (h + 7 - start) / 8
  {
  }

  lemma PassLeaves(h: nat, r: nat, pass: nat, y: nat, step: nat)
    requires PassToward(h, r, pass, y, step) && y >= h && pass < 3
    ensures PassToward(h, r, pass + 1, PassStart(pass + 1), PassStep(pass + 1))
  {
    PassEnds(h, pass, r - PassBase(h, pass));
    PassSum(h);
  }

  lemma PassArrives(h: nat, r: nat, pass: nat, y: nat, step: nat)
    requires PassToward(h, r, pass, y, step) && r < h && (y < h || pass >= 3)
    ensures PassAt(h, r, pass, y, step)
  {
    PassEnds(h, pass, r - PassBase(h, pass));
    PassSum(h);
  }

  lemma PassSteps(h: nat, r: nat, pass: nat, y: nat, step: nat)
    requires PassAt(h, r, pass, y, step) && r + 1 < h
    ensures PassToward(h, r + 1, pass, y + step, step)
  {
    PassSum(h);
  }

  /** The next pixel of a picture of width `w` is the next column, or the first of the next row. */
  lemma NextPixel(k: nat, w: nat)
    requires w > 0
    ensures if (k + 1) % w == 0 then (k + 1) / w == k / w + 1 && k % w == w - 1
            else (k + 1) / w == k / w && (k + 1) % w == k % w + 1
  {
    assert k == k / w * w + k % w;
    if k % w == w - 1 {
      DivMod(k + 1, w, k / w + 1, 0);
    } else {
      DivMod(k + 1, w, k / w, k % w + 1);
    }
  }

  /** The counters stand at the `k`-th pixel of the picture. */
  predicate NextAt(pic: Picture, k: nat, pass: nat, passY: nat, passStep: nat, outX: nat, outY: nat)
    requires pic.w > 0
  {
    if pic.interlaced then PassAt(pic.h, k / pic.w, pass, passY, passStep)
    else outX == pic.left + k % pic.w && outY == pic.top + k / pic.w
  }

  class Painter {
    const pic: Picture
    const dst: array<nat>
    var current: nat
    var pass: nat
    var passY: nat
    var passStep: nat
    var outX: nat
    var outY: nat
    ghost const canvas0: seq<nat>
    ghost var emitted: seq<byte>

    /** The canvas is the original one painted with what has been emitted, and the counters stand at
        the next pixel. */
    ghost predicate Valid()
      reads this, dst
    {
      && dst.Length == |canvas0| == pic.Size() && current == |emitted| <= pic.Count()
      && (pic.w > 0 ==> dst[..] == pic.Paint(canvas0, emitted))
      && (current < pic.Count() && pic.w > 0 ==> NextAt(pic, current, pass, passY, passStep, outX, outY))
    }

    constructor (pic: Picture, dst: array<nat>)
      requires dst.Length == pic.Size()
      ensures Valid() && this.pic == pic && this.dst == dst && canvas0 == dst[..] && emitted == []
    {
      this.pic, this.dst, canvas0 := pic, dst, dst[..];
      current, pass, passY, passStep, outX, outY, emitted := 0, 0, 0, 8, pic.left, pic.top, [];
      new;
      if pic.w > 0 && pic.Count() > 0 { FirstPixel(pic); }
    }

    /** Places one pixel and moves the counters on. */
    method Put(idx: byte)
      requires Valid() && current < pic.Count()
      modifies this, dst
      ensures Valid() && emitted == old(emitted) + [idx]
    {
      WidthPositive(pic);
      ghost var k := current;
      var x, y;
      if pic.interlaced {
        x := current % pic.w + pic.left;
        y := passY + pic.top;
      } else {
        x, y := outX, outY;
        outX := outX + 1;
        if outX >= pic.left + pic.w {
          outX := pic.left;
          outY := outY + 1;
        }
      }
      Paint(x, y, idx);
      assert (emitted + [idx])[..|emitted|] == emitted;
      emitted := emitted + [idx];
      current := current + 1;
      NextPixel(k, pic.w);
      if pic.interlaced && current < pic.Count() && current % pic.w == 0 {
        RowInImage(pic, current);
        NextPass(k / pic.w);
      }
    }

    /** Writes one pixel's colour where it belongs. */
    method Paint(x: nat, y: nat, idx: byte)
      requires pic.w > 0 && dst.Length == pic.Size() && (x, y) == pic.Place(current) && current < pic.Count()
      modifies dst
      ensures dst[..] == pic.PaintOne(old(dst[..]), current, idx)
    {
      if x < pic.maxW && y < pic.maxH && (idx as nat) < |pic.pal| {
        if idx as int != pic.transparent {
          pic.OffsetInside(x, y);
          dst[y * pic.maxW + x] := pic.pal[idx as nat];
        }
      }
    }

    /** From the end of row `r` of the data to its next row. */
    method NextPass(ghost r: nat)
      requires PassAt(pic.h, r, pass, passY, passStep) && r + 1 < pic.h
      modifies this`pass, this`passY, this`passStep
      ensures PassAt(pic.h, r + 1, pass, passY, passStep)
    {
      hide PassAt, PassToward, PassBase;
      PassSteps(pic.h, r, pass, passY, passStep);
      passY := passY + passStep;
      while passY >= pic.h && pass < 3
        invariant PassToward(pic.h, r + 1, pass, passY, passStep)
        decreases 3 - pass
      {
        PassLeaves(pic.h, r + 1, pass, passY, passStep);
        pass := pass + 1;
        if pass == 1 { passY, passStep := 4, 8; }
        else if pass == 2 { passY, passStep := 2, 4; }
        else { passY, passStep := 1, 2; }
      }
      PassArrives(pic.h, r + 1, pass, passY, passStep);
    }
  }

  lemma WidthPositive(p: Picture)
    requires p.Count() > 0
    ensures p.w > 0 && p.h > 0
  {
  }

  lemma FirstPixel(p: Picture)
    requires p.w > 0 && p.Count() > 0
    ensures 0 / p.w == 0 && 0 % p.w == 0 && PassAt(p.h, 0, 0, 0, 8)
  {
    WidthPositive(p);
    DivMod(0, p.w, 0, 0);
  }

  // ------------------------------------------------------------------ the decoder

  /** One step down a learned code: its prefix's string is its own without the last letter. */
  lemma Walk(prefix: seq<nat>, suffix: seq<byte>, d: Dictionary, min: nat, k: nat)
    requires Stands(prefix, suffix, d, min) && HasString(d, min, k) && k >= ClearCode(min)
    ensures prefix[k] < k && HasString(d, min, prefix[k])
    ensures d.strings[k] == d.strings[prefix[k]] + [suffix[k]] && d.strings[prefix[k]] != []
  {
    assert EntryStands(prefix, suffix, d, min, k);
    assert LengthOk(d, min, prefix[k]);
  }

  lemma Bottom(prefix: seq<nat>, suffix: seq<byte>, d: Dictionary, min: nat, k: nat)
    requires Stands(prefix, suffix, d, min) && HasString(d, min, k) && k < ClearCode(min)
    ensures d.strings[k] == [k as byte]
  {
  }

  class GifDecoder {
    const min: nat
    const prefix: array<nat>
    const suffix: array<byte>
    const stack: array<byte>
    var codeSize: nat
    var nextCode: nat
    /** The code before, or -1 after a clear. */
    var oldCode: int
    /** The dictionary the tables stand for. */
    ghost var dict: Dictionary

    /** The tables stand for the dictionary, and the counters are its sizes. */
    ghost predicate Valid()
      reads this, prefix, suffix
    {
      && GoodMin(min) && stack.Length == TABLE && stack != suffix
      && Stands(prefix[..], suffix[..], dict, min) && PrevStands(dict, min, oldCode)
      && nextCode == |dict.strings| && codeSize == dict.width && 0 < codeSize <= MAX_WIDTH
    }

    constructor (min: nat)
      requires GoodMin(min)
      ensures Valid() && this.min == min && dict == Fresh(min)
      ensures fresh(prefix) && fresh(suffix) && fresh(stack)
    {
      this.min := min;
      prefix, suffix, stack := new nat[TABLE], new byte[TABLE], new byte[TABLE];
      codeSize, nextCode, oldCode, dict := min + 1, EndCode(min) + 1, -1, Fresh(min);
      new;
      FreshStands(prefix[..], suffix[..], min);
    }

    /** The first letter of a code's string, at the bottom of its chain of prefixes. */
    method FirstChar(code: nat) returns (c: nat)
      requires Valid() && HasString(dict, min, code)
      ensures c < 256 && dict.strings[code] != [] && c as byte == dict.strings[code][0]
    {
      var cur: nat := code;
      assert LengthOk(dict, min, code);
      while cur >= ClearCode(min) && cur < TABLE
        invariant HasString(dict, min, cur) && dict.strings[cur] != [] && dict.strings[cur][0] == dict.strings[code][0]
        decreases cur
      {
        Walk(prefix[..], suffix[..], dict, min, cur);
        cur := prefix[cur];
      }
      Bottom(prefix[..], suffix[..], dict, min, cur);
      c := cur;
    }

    /** Pushes a code's string from its last letter to its first; `curr` is that first letter. */
    method PushString(code: nat, sp0: nat) returns (curr: nat, sp: nat)
      requires Valid() && HasString(dict, min, code) && sp0 + |dict.strings[code]| <= TABLE
      modifies stack
      ensures Valid() && sp == sp0 + |dict.strings[code]| && stack[..sp0] == old(stack[..sp0])
      ensures Reverse(stack[sp0..sp]) == dict.strings[code] != []
      ensures curr < 256 && curr as byte == dict.strings[code][0]
    {
      curr, sp := code, sp0;
      assert LengthOk(dict, min, code);
      ghost var whole := dict.strings[code];
      assert stack[sp0..sp0] == [] && whole == whole + Reverse([]);
      while curr >= ClearCode(min) && curr < TABLE
        invariant sp0 <= sp && HasString(dict, min, curr) && sp - sp0 + |dict.strings[curr]| == |whole|
        invariant dict.strings[curr] != [] && whole == dict.strings[curr] + Reverse(stack[sp0..sp])
        invariant stack[..sp0] == old(stack[..sp0])
        decreases curr
      {
        Walk(prefix[..], suffix[..], dict, min, curr);
        ReverseSnoc(stack[sp0..sp], suffix[curr]);
        ghost var below := stack[sp0..sp];
        stack[sp] := suffix[curr];
        assert stack[sp0..sp + 1] == below + [suffix[curr]];
        sp := sp + 1;
        curr := prefix[curr];
      }
      Bottom(prefix[..], suffix[..], dict, min, curr);
      ReverseSnoc(stack[sp0..sp], curr as byte);
      ghost var below := stack[sp0..sp];
      stack[sp] := curr as byte;
      assert stack[sp0..sp + 1] == below + [curr as byte];
      sp := sp + 1;
    }

    /** Pushes what a code after another one means; the newest code means the previous string and its
        first letter again. */
    method PushMeaning(code: nat) returns (curr: nat, sp: nat)
      requires Valid() && dict.prev != [] && Interpret(dict, min, code).Emit?
      modifies stack
      ensures Valid() && sp <= TABLE && Reverse(stack[..sp]) == Meaning(dict, code) != []
      ensures curr < 256 && curr as byte == Meaning(dict, code)[0]
    {
      CodeMeans(prefix[..], suffix[..], dict, min, oldCode, code);
      var start := code;
      sp := 0;
      if code >= nextCode {
        var c := FirstChar(oldCode);
        stack[0] := c as byte;
        sp := 1;
        start := oldCode;
      }
      ghost var sp0 := sp;
      curr, sp := PushString(start, sp);
      ReverseSplit(stack[..sp], sp0);
      assert stack[..sp][sp0..] == stack[sp0..sp] && stack[..sp][..sp0] == stack[..sp0];
      if sp0 == 1 {
        assert stack[..1] == [stack[0]];
        assert Reverse([stack[0]]) == [stack[0]];
      }
    }

    method Learn(code: nat, curr: nat)
      requires Valid() && dict.prev != [] && Interpret(dict, min, code).Emit?
      requires curr < 256 && Meaning(dict, code) != [] && curr as byte == Meaning(dict, code)[0]
      modifies this`codeSize, this`nextCode, this`oldCode, this`dict, prefix, suffix
      ensures Valid() && dict == Lzw.Learn(old(dict), Meaning(old(dict), code))
    {
      CodeMeans(prefix[..], suffix[..], dict, min, oldCode, code);
      LearnStands(prefix[..], suffix[..], dict, min, oldCode, Meaning(dict, code), code);
      ghost var p0: seq<nat>, s0: seq<byte> := prefix[..], suffix[..];
      dict := Lzw.Learn(dict, Meaning(dict, code));
      if nextCode < TABLE {
        prefix[nextCode] := oldCode;
        suffix[nextCode] := curr as byte;
        assert prefix[..] == p0[nextCode := prefix[nextCode]] && suffix[..] == s0[nextCode := curr as byte];
        nextCode := nextCode + 1;
        if nextCode == Pow2(codeSize) && codeSize < MAX_WIDTH { codeSize := codeSize + 1; }
      }
      oldCode := code;
    }

    /** What one data code puts on the stack, and what the tables learn from it. */
    method Expand(code: nat) returns (sp: nat)
      requires Valid() && Interpret(dict, min, code).Emit?
      modifies this, prefix, suffix, stack
      ensures Valid() && sp <= TABLE && Interpret(old(dict), min, code) == Emit(Reverse(stack[..sp]), dict)
    {
      if oldCode == -1 {
        MinTable(min);
        LiteralStands(prefix[..], suffix[..], dict, min, code);
        stack[0], sp := code as byte, 1;
        oldCode := code;
        dict := dict.(prev := [code as byte]);
        assert stack[..1] == [stack[0]];
        assert Reverse([stack[0]]) == [stack[0]];
      } else {
        CodeMeans(prefix[..], suffix[..], dict, min, oldCode, code);
        var curr;
        curr, sp := PushMeaning(code);
        Learn(code, curr);
      }
    }

    method Clear()
      requires Valid()
      modifies this
      ensures Valid() && dict == Fresh(min)
    {
      codeSize, nextCode, oldCode, dict := min + 1, EndCode(min) + 1, -1, Fresh(min);
      FreshStands(prefix[..], suffix[..], min);
    }

    /** Paints the stack from the top, as far as the picture still wants pixels. */
    method PopAll(painter: Painter, sp0: nat)
      requires painter.Valid() && sp0 <= stack.Length && painter.dst != prefix
      requires painter.current < painter.pic.Count()
      modifies painter, painter.dst
      ensures painter.Valid() && prefix[..] == old(prefix[..])
      ensures painter.emitted == old(painter.emitted)
        + Reverse(stack[..sp0])[..Lzw.Min(sp0, painter.pic.Count() - old(painter.current))]
    {
      var sp: nat := sp0;
      ghost var s, rest, before := Reverse(stack[..sp0]), Reverse(stack[..sp0]), painter.emitted;
      while sp > 0
        invariant sp <= sp0 && painter.Valid() && prefix[..] == old(prefix[..])
        invariant rest == Reverse(stack[..sp]) && s[sp0 - sp..] == rest
        invariant painter.emitted == before + s[..sp0 - sp]
        invariant sp > 0 ==> painter.current < painter.pic.Count()
      {
        hide *;
        assert stack[..sp] == stack[..sp - 1] + [stack[sp - 1]];
        ReverseSnoc(stack[..sp - 1], stack[sp - 1]);
        TakeOne(s, sp0 - sp, stack[sp - 1], Reverse(stack[..sp - 1]));
        rest := Reverse(stack[..sp - 1]);
        sp := sp - 1;
        painter.Put(stack[sp]);
        if painter.current >= painter.pic.Count() { break; }
      }
    }

    /** One code of the stream: what is still to come stays what it was. */
    method One(stream: BitStream, painter: Painter) returns (more: bool)
      requires Valid() && stream.Valid() && painter.Valid() && painter.current < painter.pic.Count()
      requires painter.dst != prefix
      requires Lzw.Decode(stream.Future(), dict, min, painter.pic.Count() - painter.current).Some?
      modifies this, prefix, suffix, stack, stream, painter, painter.dst
      ensures Valid() && stream.Valid() && painter.Valid() && |stream.Future()| < old(|stream.Future()|)
      ensures Continues(old(painter.emitted),
        old(Lzw.Decode(stream.Future(), dict, min, painter.pic.Count() - painter.current)),
        painter.emitted, Lzw.Decode(stream.Future(), dict, min, painter.pic.Count() - painter.current), more)
    {
      hide Lzw.Learn, Interpret, Stands, PrevStands, NextAt, Lzw.Decode;
      ghost var bits, placed, want := stream.Future(), painter.emitted, painter.pic.Count() - painter.current;
      NextCode(bits, dict, min, want);
      var code := stream.Read(codeSize);
      if code == EndCode(min) {
        return false;
      } else if code == ClearCode(min) {
        Clear();
      } else {
        var sp := Expand(code);
        PopAll(painter, sp);
      }
      more := true;
    }

    /** Decodes an image: the pixels placed are those of the dictionary of strings. */
    method Decode(stream: BitStream, painter: Painter)
      requires Valid() && dict == Fresh(min) && stream.Valid() && painter.Valid() && painter.emitted == []
      requires painter.dst != prefix
      requires Lzw.Decode(stream.Future(), Fresh(min), min, painter.pic.Count()).Some?
      modifies this, prefix, suffix, stack, stream, painter, painter.dst
      ensures painter.Valid()
      ensures painter.emitted == Lzw.Decode(old(stream.Future()), Fresh(min), min, painter.pic.Count()).value
    {
      hide NextAt, Stands, PrevStands;
      ghost var all := Lzw.Decode(stream.Future(), Fresh(min), min, painter.pic.Count()).value;
      var more := true;
      while more && painter.current < painter.pic.Count()
        invariant Valid() && stream.Valid() && painter.Valid()
        invariant if more then
            var rest := Lzw.Decode(stream.Future(), dict, min, painter.pic.Count() - painter.current);
            rest.Some? && painter.emitted + rest.value == all
          else painter.emitted == all
        decreases |stream.Future()|
      {
        more := One(stream, painter);
      }
    }
  }

  /** What the first code of a valid stream does to the pixels to come. */
  lemma NextCode(bits: seq<bool>, d: Dictionary, min: nat, want: nat)
    requires GoodMin(min) && want > 0 && Lzw.Decode(bits, d, min, want).Some?
    ensures 0 < d.width <= |bits|
    ensures var all, c, rest := Lzw.Decode(bits, d, min, want).value, ToNat(bits[..d.width]), bits[d.width..];
      if c == EndCode(min) then all == []
      else if c == ClearCode(min) then Lzw.Decode(bits, d, min, want) == Lzw.Decode(rest, Fresh(min), min, want)
      else
        var e := Interpret(d, min, c);
        e.Emit? && var k := Lzw.Min(|e.s|, want);
          Lzw.Decode(rest, e.d, min, want - k).Some? && all == e.s[..k] + Lzw.Decode(rest, e.d, min, want - k).value
  {
  }

  lemma TakeOne(s: seq<byte>, k: nat, x: byte, rest: seq<byte>)
    requires k < |s| && s[k..] == [x] + rest
    ensures s[k + 1..] == rest && s[..k + 1] == s[..k] + [x] && x == s[k]
  {
    assert s[k + 1..] == s[k..][1..];
  }

  /** Pixels already placed and pixels to come are together the same before and after a step. */
  ghost predicate Continues(placed: seq<byte>, rest: Option<seq<byte>>, placed1: seq<byte>, rest1: Option<seq<byte>>,
                            more: bool) {
    && rest.Some?
    && if more then rest1.Some? && placed + rest.value == placed1 + rest1.value
       else placed1 == placed + rest.value
  }
}
