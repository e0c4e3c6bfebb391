/** The display with a shadow copy in words: only words that changed are written, and the cursor is
    laid over what is written. */
module Vga {
  import opened VgaPixels
  import opened Words

  /** The pixels of a word are the ones of its row in its four columns. */
  lemma WordOf(row: nat, col: nat, q: nat)
    requires row < HEIGHT && col % 4 == 0 && col < WIDTH
    ensures q / 4 == (row * WIDTH + col) / 4 <==> Row(q) == row && col <= Col(q) < col + 4
    ensures q / 4 == (row * WIDTH + col) / 4 ==> row * WIDTH + col <= q < row * WIDTH + col + 4 && q % 4 == Col(q) - col
  {
    var p := row * WIDTH + col;
    WordParts(row, col, 0);
    assert q == q / 4 * 4 + q % 4 && p == p / 4 * 4;
    assert q == q / WIDTH * WIDTH + q % WIDTH;
    if q / 4 == p / 4 {
      WordParts(row, col, q % 4);
    }
  }

  lemma WordShare(p: nat, i: nat)
    ensures p / 4 == i <==> i * 4 <= p < i * 4 + 4
    ensures p / 4 == i ==> p == i * 4 + p % 4
  {
  }

  lemma FourMultiples(x0: nat, x1: nat)
    ensures x0 - x0 % 4 >= 0 && (x0 - x0 % 4) % 4 == 0 && (x1 + (4 - x1 % 4) % 4) % 4 == 0
    ensures x1 <= WIDTH ==> x1 + (4 - x1 % 4) % 4 <= WIDTH
    ensures x0 <= x1 ==> x0 - x0 % 4 <= x1 + (4 - x1 % 4) % 4
  {
  }

  /** What a flush of a rectangle leaves at a pixel that it touches. */
  function Flushed(r: Rect, c: Cursor, back: bv8, p: nat): bv8 {
    if r.Has(p) then Overlaid(back, c, p) else back
  }

  /** Whether an offset is on an arrowhead, looking along its steps. */
  method OnArms(a: int, b: int) returns (on: bool)
    ensures on <==> Abs(a + 7) == Abs(b) <= 3 || Abs(a - 7) == Abs(b) <= 3
  {
    for i := -3 to 4
      invariant forall j :: -3 <= j < i ==> !AtArm(a, b, j)
    {
      if AtArm(a, b, i) { return true; }
    }
    ArmFound(a, b);
    return false;
  }

  method OnCorners(a: int, b: int) returns (on: bool)
    ensures on <==> InCorner(a, b) || InCorner(-a, -b)
  {
    for i := 0 to 4
      invariant forall j :: 0 <= j < i ==> !AtCorner(a, b, j)
    {
      if AtCorner(a, b, i) { return true; }
    }
    CornerFound(a, b);
    return false;
  }

  /** The kind of cursor pixel at an offset, found the way the display code looks for it. */
  method PixelKind(dx: int, dy: int, mode: Mode) returns (k: Kind)
    ensures k == CursorKind(dx, dy, mode)
  {
    hide NormalKind;
    if mode == Normal { return NormalKind(dx, dy); }
    var on: bool;
    if mode == SizeH {
      if dy == 0 && -7 <= dx <= 7 { return Colored; }
      on := OnArms(dx, dy);
    } else if mode == SizeV {
      if dx == 0 && -7 <= dy <= 7 { return Colored; }
      on := OnArms(dy, dx);
    } else if mode == SizeD1 {
      if dx == dy && -6 <= dx <= 6 { return Colored; }
      on := OnCorners(dx, dy);
    } else {
      if dx == -dy && -6 <= dx <= 6 { return Colored; }
      on := OnCorners(dx, -dy);
    }
    k := if on then Colored else Clear;
  }

  /** Step `i` along the arrowheads of a bar. */
  predicate AtArm(a: int, b: int, i: int) {
    (a == -7 + i && (b == i || b == -i)) || (a == 7 - i && (b == i || b == -i))
  }

  lemma ArmFound(a: int, b: int)
    ensures Abs(a + 7) == Abs(b) <= 3 || Abs(a - 7) == Abs(b) <= 3 ==> AtArm(a, b, b) || AtArm(a, b, -b)
  {
  }

  /** Step `i` along the corners of a diagonal. */
  predicate AtCorner(a: int, b: int, i: int) {
    (a == -6 + i && b == -6) || (a == -6 && b == -6 + i) || (a == 6 - i && b == 6) || (a == 6 && b == 6 - i)
  }

  lemma CornerFound(a: int, b: int)
    ensures InCorner(a, b) || InCorner(-a, -b) ==>
      AtCorner(a, b, a + 6) || AtCorner(a, b, b + 6) || AtCorner(a, b, 6 - a) || AtCorner(a, b, 6 - b)
  {
  }

  class Screen {
    const vbuf: array<bv8>
    const vram: array<bv8>
    const shadow: array<bv32>
    var cursorValid: bool
    var cursorX: int
    var cursorY: int
    var cursorW: int
    var cursorH: int

    /** The shadow's words are the pixels of the display memory. */
    ghost predicate Valid()
      reads this, vram, shadow
    {
      && vbuf.Length == vram.Length == SIZE && shadow.Length * 4 == SIZE && vbuf != vram
      && (forall p :: 0 <= p < SIZE ==> vram[p] == ByteOf(shadow[p / 4], p % 4))
    }

    constructor ()
      ensures Valid() && !cursorValid && fresh(vbuf) && fresh(vram) && fresh(shadow)
      ensures forall p :: 0 <= p < SIZE ==> vram[p] == vbuf[p]
    {
      vbuf, vram := new bv8[SIZE](_ => 0), new bv8[SIZE](_ => 0);
      shadow := new bv32[SIZE / 4](_ => 0);
      cursorValid, cursorX, cursorY, cursorW, cursorH := false, 0, 0, 0, 0;
      ZeroPixels();
    }

    static lemma ZeroPixels()
      ensures forall k :: 0 <= k < 4 ==> ByteOf(0, k) == 0
    {
      var z: bv8 := 0;
      PackBytes(z, z, z, z);
      assert Pack(z, z, z, z) == 0;
    }

    /** Writes one word to the display unless it is already there. */
    method PutWord(i: nat, word: bv32)
      requires Valid() && i < SIZE / 4
      modifies vram, shadow
      ensures Valid() && forall q :: 0 <= q < SIZE ==>
        vram[q] == if q / 4 == i then ByteOf(word, q % 4) else old(vram[q])
    {
      hide ByteOf;
      if shadow[i] != word {
        shadow[i] := word;
        var p := i * 4;
        vram[p] := ByteOf(word, 0);
        vram[p + 1] := ByteOf(word, 1);
        vram[p + 2] := ByteOf(word, 2);
        vram[p + 3] := ByteOf(word, 3);
      }
    }

    /** The back buffer's word. */
    method PackAt(i: nat) returns (word: bv32)
      requires Valid() && i < SIZE / 4
      ensures forall k :: 0 <= k < 4 ==> ByteOf(word, k) == vbuf[i * 4 + k]
    {
      hide ByteOf, Pack;
      word := Pack(vbuf[i * 4], vbuf[i * 4 + 1], vbuf[i * 4 + 2], vbuf[i * 4 + 3]);
      PackBytes(vbuf[i * 4], vbuf[i * 4 + 1], vbuf[i * 4 + 2], vbuf[i * 4 + 3]);
    }

    /** Makes the display show the back buffer. */
    method Update()
      requires Valid()
      modifies vram, shadow
      ensures Valid() && vram[..] == vbuf[..]
    {
      hide ByteOf;
      for i := 0 to SIZE / 4
        invariant Valid()
        invariant forall p :: 0 <= p < i * 4 ==> vram[p] == vbuf[p]
      {
        UpdateWord(i);
      }
    }

    /** Makes one word of the display show the back buffer. */
    method UpdateWord(i: nat)
      requires Valid() && i < SIZE / 4
      modifies vram, shadow
      ensures Valid()
      ensures forall p :: 0 <= p < SIZE ==> vram[p] == if i * 4 <= p < i * 4 + 4 then vbuf[p] else old(vram[p])
    {
      hide ByteOf;
      var word := PackAt(i);
      PutWord(i, word);
      forall p | 0 <= p < SIZE
        ensures vram[p] == if i * 4 <= p < i * 4 + 4 then vbuf[p] else old(vram[p])
      {
        WordShare(p, i);
      }
    }

    /** A word of the back buffer with the cursor over the pixels that are in columns `[x0, x1)`. */
    method Compose(r: Rect, c: Cursor, row: nat, col: nat) returns (word: bv32)
      requires Valid() && row < HEIGHT && col % 4 == 0 && col < WIDTH && r.y0 <= row < r.y1
      ensures forall k :: 0 <= k < 4 ==>
        row * WIDTH + col + k < SIZE
          && ByteOf(word, k) == Flushed(r, c, vbuf[row * WIDTH + col + k], row * WIDTH + col + k)
    {
      hide ByteOf, Pack, SetByte, CursorKind, Row, Col;
      WordParts(row, col, 0);
      var p := row * WIDTH + col;
      word := PackAt(p / 4);
      assert p / 4 * 4 == p;
      for k := 0 to 4
        invariant forall j :: 0 <= j < 4 ==>
          ByteOf(word, j) == if j < k then Flushed(r, c, vbuf[p + j], p + j) else vbuf[p + j]
      {
        WordParts(row, col, k);
        if r.x0 <= col + k < r.x1 && c.Cursor? {
          var kind := PixelKind(col + k - c.x, row - c.y, c.mode);
          if kind != Clear {
            var color := if kind == Black then 0 else CURSOR_COLOR;
            forall j | 0 <= j < 4
              ensures ByteOf(SetByte(word, k, color), j) == if j == k then color else ByteOf(word, j)
            {
              SetBytes(word, k, color, j);
            }
            word := SetByte(word, k, color);
          }
        }
      }
    }

    /** Writes the words that a rectangle touches, with the cursor over the rectangle itself. */
    method FlushRect(r: Rect, c: Cursor)
      requires Valid() && r.OnScreen()
      modifies vram, shadow
      ensures Valid()
      ensures forall p :: 0 <= p < SIZE ==>
        vram[p] == if !r.Touches(p) then old(vram[p]) else if r.Has(p) then Overlaid(vbuf[p], c, p) else vbuf[p]
    {
      hide ByteOf, Row, Col, Overlaid;
      var wordX0, wordX1 := r.x0 - r.x0 % 4, r.x1 + (4 - r.x1 % 4) % 4;
      var yy := r.y0;
      while yy < r.y1
        invariant r.y0 <= yy && Valid()
        invariant forall p :: 0 <= p < SIZE ==>
          vram[p] == if r.Touches(p) && Row(p) < yy then Flushed(r, c, vbuf[p], p) else old(vram[p])
      {
        FlushRow(r, c, yy, wordX0, wordX1);
        yy := yy + 1;
      }
    }

    method FlushWord(r: Rect, c: Cursor, yy: nat, xx: nat)
      requires Valid() && yy < HEIGHT && xx % 4 == 0 && xx < WIDTH && r.y0 <= yy < r.y1
      modifies vram, shadow
      ensures Valid()
      ensures forall p :: 0 <= p < SIZE ==>
        vram[p] == if Row(p) == yy && xx <= Col(p) < xx + 4 then Flushed(r, c, vbuf[p], p) else old(vram[p])
    {
      hide ByteOf, Flushed, Row, Col;
      WordParts(yy, xx, 0);
      var i := (yy * WIDTH + xx) / 4;
      var word := Compose(r, c, yy, xx);
      forall q | 0 <= q < SIZE
        ensures q / 4 == i <==> Row(q) == yy && xx <= Col(q) < xx + 4
        ensures q / 4 == i ==> ByteOf(word, q % 4) == Flushed(r, c, vbuf[q], q)
      {
        WordOf(yy, xx, q);
      }
      PutWord(i, word);
    }

    method FlushRow(r: Rect, c: Cursor, yy: nat, wordX0: nat, wordX1: nat)
      requires Valid() && r.OnScreen() && r.y0 <= yy < r.y1
      requires wordX0 == r.x0 - r.x0 % 4 && wordX1 == r.x1 + (4 - r.x1 % 4) % 4
      modifies vram, shadow
      ensures Valid()
      ensures forall p :: 0 <= p < SIZE ==>
        vram[p] == if r.Touches(p) && Row(p) == yy then Flushed(r, c, vbuf[p], p) else old(vram[p])
    {
      hide ByteOf, Flushed, Row, Col;
      FourMultiples(r.x0, r.x1);
      var xx := wordX0;
      while xx < wordX1
        invariant wordX0 <= xx <= wordX1 && xx % 4 == 0 && Valid()
        invariant forall p :: 0 <= p < SIZE ==>
          vram[p] == if Row(p) == yy && wordX0 <= Col(p) < xx then Flushed(r, c, vbuf[p], p) else old(vram[p])
      {
        FlushWord(r, c, yy, xx);
        xx := xx + 4;
      }
    }

    ghost function OldRect(): Rect
      reads this
    {
      Rect(cursorX, cursorY, cursorX + cursorW, cursorY + cursorH)
    }

    /** The display shows the back buffer wherever the old cursor is not. */
    ghost predicate CleanOutside()
      requires Valid()
      reads this, vbuf, vram, shadow
    {
      forall p :: 0 <= p < SIZE ==> vram[p] == vbuf[p] || (cursorValid && OldRect().Has(p))
    }

    /** The old cursor was drawn with this clip height. */
    ghost predicate SameClip(clip: int)
      reads this
    {
      cursorValid ==> OldRect().OnScreen() && !OldRect().Empty() && OldRect().y1 <= ClipOf(clip)
    }

    /** Shows the part of the back buffer in a rectangle; the other pixels of the words it touches are
        written too. */
    method UpdateRect(x: int, y: int, w: int, h: int)
      requires Valid()
      modifies vram, shadow
      ensures Valid()
      ensures var r := ClippedRect(x, y, w, h);
        forall p :: 0 <= p < SIZE ==>
          vram[p] == if w > 0 && h > 0 && !r.Empty() && r.Touches(p) then vbuf[p] else old(vram[p])
      ensures forall p :: 0 <= p < SIZE ==>
        vram[p] == if WordShares(x, y, w, h, p) then vbuf[p] else old(vram[p])
    {
      forall p | 0 <= p < SIZE
        ensures WordShares(x, y, w, h, p) <==>
          w > 0 && h > 0 && !ClippedRect(x, y, w, h).Empty() && ClippedRect(x, y, w, h).Touches(p)
      {
        TouchedWord(x, y, w, h, p);
      }
      hide ByteOf, Row, Col, WordShares;
      if w <= 0 || h <= 0 { return; }
      var r := ClippedRect(x, y, w, h);
      forall p | 0 <= p < SIZE
        ensures Col(p) < WIDTH && Row(p) < HEIGHT
        ensures r.Has(p) ==> r.Touches(p)
      {
        OnScreenPixel(p);
        if r.Has(p) { HasTouches(r, p); }
      }
      if r.Empty() { return; }
      FlushRect(r, NoCursor);
    }

    /** Takes the old cursor away and shows the new one: afterwards the display is the back buffer with
        exactly the new cursor over it. */
    method PresentCursor(x: int, y: int, mode: Mode, clip: int)
      requires Valid() && CleanOutside() && SameClip(clip)
      modifies this, vram, shadow
      ensures Valid() && CleanOutside() && SameClip(clip)
      ensures forall p :: 0 <= p < SIZE ==>
        vram[p] == if Row(p) < clip || clip <= 0 then Overlaid(vbuf[p], Cursor(x, y, mode), p) else vbuf[p]
    {
      hide ByteOf, Row, Col, CursorKind;
      var n := Bounds(x, y, clip);
      var haveNew := n.x1 - n.x0 > 0 && n.y1 - n.y0 > 0;
      if cursorValid || haveNew {
        var u := n;
        if cursorValid { u := Rect(cursorX, cursorY, cursorX + cursorW, cursorY + cursorH); }
        if haveNew { u := Union(u, n); }
        FlushRect(u, if haveNew then Cursor(x, y, mode) else NoCursor);
        assert forall p :: 0 <= p < SIZE && !u.Has(p) ==> vram[p] == vbuf[p];
      }
      forall p | 0 <= p < SIZE
        ensures vram[p] == if Row(p) < ClipOf(clip) then Overlaid(vbuf[p], Cursor(x, y, mode), p) else vbuf[p]
        ensures Row(p) < HEIGHT && (vram[p] == vbuf[p] || (haveNew && n.Has(p)))
      {
        OnScreenPixel(p);
        if Row(p) < ClipOf(clip) && !n.Has(p) { OverlaidOutside(vbuf[p], x, y, mode, clip, p); }
      }
      cursorValid := haveNew;
      if haveNew { cursorX, cursorY, cursorW, cursorH := n.x0, n.y0, n.x1 - n.x0, n.y1 - n.y0; }
    }
  }

  function ClippedRect(x: int, y: int, w: int, h: int): Rect {
    Rect(if x < 0 then 0 else x, if y < 0 then 0 else y,
         if x + w > WIDTH then WIDTH else x + w, if y + h > HEIGHT then HEIGHT else y + h)
  }

  /** Pixel `p` is in one word with a pixel of the rectangle. */
  predicate WordShares(x: int, y: int, w: int, h: int, p: nat) {
    exists q :: 0 <= q < SIZE && q / 4 == p / 4 && Rect(x, y, x + w, y + h).Has(q)
  }

  /** The columns of a word that is touched have one of the rectangle's among them. */
  lemma TouchedColumns(x0: nat, x1: nat, col: nat, c: nat)
    requires x0 < x1 && col % 4 == 0 && col <= c < col + 4
    ensures x0 - x0 % 4 <= c < x1 + (4 - x1 % 4) % 4 <==> x0 < col + 4 && col < x1
  {
  }

  /** These are the words that are written. */
  lemma TouchedWord(x: int, y: int, w: int, h: int, p: nat)
    requires p < SIZE
    ensures WordShares(x, y, w, h, p) <==>
      w > 0 && h > 0 && !ClippedRect(x, y, w, h).Empty() && ClippedRect(x, y, w, h).Touches(p)
  {
    OnScreenPixel(p);
    var row, col := Row(p), Col(p) - Col(p) % 4;
    WordOf(row, col, p);
    var r := ClippedRect(x, y, w, h);
    if r.x0 < r.x1 { TouchedColumns(r.x0, r.x1, col, Col(p)); }
    if WordShares(x, y, w, h, p) { SharesTouches(x, y, w, h, p, row, col); }
    hide Row, Col;
    if w > 0 && h > 0 && !r.Empty() && r.Touches(p) {
      var k := if r.x0 > col then r.x0 - col else 0;
      WordParts(row, col, k);
      assert Rect(x, y, x + w, y + h).Has(row * WIDTH + col + k);
    }
  }

  lemma SharesTouches(x: int, y: int, w: int, h: int, p: nat, row: nat, col: nat)
    requires WordShares(x, y, w, h, p) && p / 4 == (row * WIDTH + col) / 4
    requires row < HEIGHT && col % 4 == 0 && col < WIDTH
    ensures y <= row < y + h && x < x + w && x < col + 4 && col < x + w
  {
    var q :| 0 <= q < SIZE && q / 4 == p / 4 && Rect(x, y, x + w, y + h).Has(q);
    WordOf(row, col, q);
    hide Row, Col;
  }

  function Union(a: Rect, b: Rect): Rect {
    Rect(if b.x0 < a.x0 then b.x0 else a.x0, if b.y0 < a.y0 then b.y0 else a.y0,
         if b.x1 > a.x1 then b.x1 else a.x1, if b.y1 > a.y1 then b.y1 else a.y1)
  }

  lemma OnScreenPixel(p: nat)
    requires p < SIZE
    ensures Col(p) < WIDTH && Row(p) < HEIGHT
  {
  }

  lemma HasTouches(r: Rect, p: nat)
    requires r.Has(p)
    ensures r.Touches(p)
  {
  }
}
