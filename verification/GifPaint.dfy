/** Where the pixels of a GIF image land: the four interlaced passes, and a canvas painted pixel by
    pixel with running counters. */
module GifPaint {
  import opened Arithmetic
  import opened DiskModel

  // ------------------------------------------------------------------ interlaced rows

  function PassStart(p: nat): nat {
    if p == 0 then 0 else if p == 1 then 4 else if p == 2 then 2 else 1
  }

  function PassStep(p: nat): nat {
    if p <= 1 then 8 else if p == 2 then 4 else 2
  }

  /** How many rows of an image of `h` rows the passes before `p` cover: every eighth row, then the
      rows halfway between, then halfway between those, then the odd ones. */
  function PassBase(h: nat, p: nat): nat {
    if p == 0 then 0
    else if p == 1 then (h + 7) / 8
    else if p == 2 then (h + 7) / 8 + (h + 3) / 8
    else if p == 3 then (h + 7) / 8 + (h + 3) / 8 + (h + 1) / 4
    else h
  }

  function PassOf(h: nat, r: nat): nat {
    if r < PassBase(h, 1) then 0 else if r < PassBase(h, 2) then 1 else if r < PassBase(h, 3) then 2 else 3
  }

  /** The row that the `r`-th row of interlaced data belongs to. */
  function InterlacedRow(h: nat, r: nat): nat {
    if r < PassBase(h, 1) then 8 * r
    else if r < PassBase(h, 2) then 4 + 8 * (r - PassBase(h, 1))
    else if r < PassBase(h, 3) then 2 + 4 * (r - PassBase(h, 2))
    else 1 + 2 * (r - PassBase(h, 3))
  }

  /** Where in the interlaced data row `y` is. */
  function InterlacedIndex(h: nat, y: nat): nat {
    if y % 8 == 0 then y / 8
    else if y % 8 == 4 then PassBase(h, 1) + y / 8
    else if y % 4 == 2 then PassBase(h, 2) + y / 4
    else PassBase(h, 3) + y / 2
  }

  /** The interlaced order visits every row exactly once. */
  lemma InterlacedOnce(h: nat, r: nat, y: nat)
    ensures r < h ==> InterlacedRow(h, r) < h && InterlacedIndex(h, InterlacedRow(h, r)) == r
    ensures y < h ==> InterlacedIndex(h, y) < h && InterlacedRow(h, InterlacedIndex(h, y)) == y
  {
    if r < h { RowIndex(h, r); }
    if y < h { IndexRow(h, y); }
  }

  lemma RowIndex(h: nat, r: nat)
    requires r < h
    ensures InterlacedRow(h, r) < h && InterlacedIndex(h, InterlacedRow(h, r)) == r
  {
    PassSum(h);
    if r < PassBase(h, 1) {
      FirstPass(h, r);
    } else if r < PassBase(h, 2) {
      SecondPass(h, r);
    } else if r < PassBase(h, 3) {
      ThirdPass(h, r);
    } else {
      FourthPass(h, r);
    }
  }

  lemma FirstPass(h: nat, r: nat)
    requires r < PassBase(h, 1)
    ensures InterlacedRow(h, r) < h && InterlacedIndex(h, InterlacedRow(h, r)) == r
  {
    EighthRow(r, 0);
  }

  lemma SecondPass(h: nat, r: nat)
    requires PassBase(h, 1) <= r < PassBase(h, 2)
    ensures InterlacedRow(h, r) < h && InterlacedIndex(h, InterlacedRow(h, r)) == r
  {
    EighthRow(r - PassBase(h, 1), 4);
  }

  lemma ThirdPass(h: nat, r: nat)
    requires PassBase(h, 2) <= r < PassBase(h, 3)
    ensures InterlacedRow(h, r) < h && InterlacedIndex(h, InterlacedRow(h, r)) == r
  {
    QuarterRow(r - PassBase(h, 2));
  }

  lemma FourthPass(h: nat, r: nat)
    requires PassBase(h, 3) <= r < h == PassBase(h, 3) + h / 2 && PassBase(h, 1) <= PassBase(h, 2) <= PassBase(h, 3)
    ensures InterlacedRow(h, r) < h && InterlacedIndex(h, InterlacedRow(h, r)) == r
  {
    OddRow(r - PassBase(h, 3));
  }

  /** The four passes together are all the rows. */
  lemma PassSum(h: nat)
    ensures PassBase(h, 3) + h / 2 == h && PassBase(h, 1) <= PassBase(h, 2) <= PassBase(h, 3)
  {
    var a, b := h / 8, h % 8;
    assert h == 8 * a + b;
    assert (h + 7) / 8 == a + (b + 7) / 8;
    assert (h + 3) / 8 == a + (b + 3) / 8;
    assert (h + 1) / 4 == 2 * a + (b + 1) / 4;
    assert h / 2 == 4 * a + b / 2;
    assert b == 0 || b == 1 || b == 2 || b == 3 || b == 4 || b == 5 || b == 6 || b == 7;
  }

  lemma EighthRow(k: nat, c: nat)
    requires c < 8
    ensures (8 * k + c) % 8 == c && (8 * k + c) / 8 == k
  {
  }

  lemma QuarterRow(k: nat)
    ensures (2 + 4 * k) / 4 == k && (2 + 4 * k) % 4 == 2 && (2 + 4 * k) % 8 != 0 && (2 + 4 * k) % 8 != 4
  {
    assert k == 2 * (k / 2) + k % 2;
  }

  lemma OddRow(k: nat)
    ensures (1 + 2 * k) / 2 == k && (1 + 2 * k) % 8 != 0 && (1 + 2 * k) % 8 != 4 && (1 + 2 * k) % 4 != 2
  {
    assert k == 4 * (k / 4) + k % 4;
  }

  lemma IndexRow(h: nat, y: nat)
    requires y < h
    ensures InterlacedIndex(h, y) < h && InterlacedRow(h, InterlacedIndex(h, y)) == y
  {
    PassSum(h);
    if y % 8 == 0 { EighthIndex(h, y); }
    else if y % 8 == 4 { HalfwayIndex(h, y); }
    else if y % 4 == 2 { QuarterIndex(h, y); }
    else { OddIndex(h, y); }
  }

  lemma EighthIndex(h: nat, y: nat)
    requires y < h && y % 8 == 0
    ensures y == 8 * (y / 8) && y / 8 < (h + 7) / 8
  {
  }

  lemma HalfwayIndex(h: nat, y: nat)
    requires y < h && y % 8 == 4
    ensures y == 4 + 8 * (y / 8) && y / 8 < (h + 3) / 8
  {
  }

  lemma QuarterIndex(h: nat, y: nat)
    requires y < h && y % 4 == 2
    ensures y == 2 + 4 * (y / 4) && y / 4 < (h + 1) / 4
  {
  }

  lemma OddIndex(h: nat, y: nat)
    requires y < h && y % 8 != 0 && y % 8 != 4 && y % 4 != 2
    ensures y == 1 + 2 * (y / 2) && y / 2 < h / 2
  {
    EvenByEights(y);
  }

  lemma EvenByEights(y: nat)
    ensures y % 2 == 0 ==> y % 8 == 0 || y % 8 == 4 || y % 4 == 2
  {
  }

  // ------------------------------------------------------------------ the picture

  /** An image placed on a canvas of `maxW` by `maxH`, with its palette and transparent index (or -1). */
  datatype Picture = Picture(left: nat, top: nat, w: nat, h: nat, interlaced: bool,
                             pal: seq<nat>, transparent: int, maxW: nat, maxH: nat)
  {
    function Count(): nat { w * h }

    function Row(r: nat): nat {
      if interlaced then InterlacedRow(h, r) else r
    }

    /** The place of the `k`-th pixel. */
    function Place(k: nat): (nat, nat)
      requires w > 0
    {
      (left + k % w, top + Row(k / w))
    }

    predicate Visible(idx: byte) {
      (idx as nat) < |pal| && idx as int != transparent
    }

    predicate OnCanvas(x: nat, y: nat) {
      x < maxW && y < maxH
    }

    function Offset(x: nat, y: nat): nat { y * maxW + x }

    lemma OffsetInside(x: nat, y: nat)
      requires OnCanvas(x, y)
      ensures Offset(x, y) < Size()
    {
      MulGap(y, maxH, maxW);
    }

    function Size(): nat { maxH * maxW }

    function PaintOne(canvas: seq<nat>, k: nat, idx: byte): (c: seq<nat>)
      requires w > 0 && |canvas| == Size()
      ensures |c| == |canvas|
    {
      var (x, y) := Place(k);
      if OnCanvas(x, y) && Visible(idx) then
        OffsetInside(x, y);
        canvas[Offset(x, y) := pal[idx as nat]]
      else canvas
    }

    /** The canvas after the pixels `s` in order. */
    function Paint(canvas: seq<nat>, s: seq<byte>): (c: seq<nat>)
      requires w > 0 && |canvas| == Size()
      ensures |c| == |canvas|
    {
      if s == [] then canvas
      else PaintOne(Paint(canvas, s[..|s| - 1]), |s| - 1, s[|s| - 1])
    }
  }

  lemma RowInImage(p: Picture, k: nat)
    requires p.w > 0 && k < p.Count()
    ensures k / p.w < p.h
  {
    MulGap(p.h, k / p.w + 1, p.w);
    assert k == k / p.w * p.w + k % p.w;
  }

  /** So a pixel is seen at its own column and row, unless they are off the canvas. */
  lemma PixelShown(p: Picture, canvas: seq<nat>, s: seq<byte>, k: nat, x: nat, y: nat, at: nat)
    requires p.w > 0 && |canvas| == p.Size() && k < |s| <= p.Count()
    requires p.Place(k) == (x, y) && x < p.maxW && y < p.maxH && at == y * p.maxW + x
    ensures var idx, now := s[k] as nat, p.Paint(canvas, s);
      at < |canvas| == |now| && now[at] == if idx < |p.pal| && idx != p.transparent then p.pal[idx] else canvas[at]
  {
    hide Picture.Paint, Picture.Place, Picture.Size, Picture.Count;
    PaintedAt(p, canvas, s, k);
  }

  /** The pass that draws row `y`: every eighth row, those halfway between, those halfway between these, the odd
      ones. */
  function PassOfRow(y: nat): nat {
    if y % 8 == 0 then 0 else if y % 8 == 4 then 1 else if y % 4 == 2 then 2 else 3
  }

  /** Row `y` is drawn before row `z`: in an earlier pass, or further up in the same one. */
  predicate RowBefore(interlaced: bool, y: nat, z: nat) {
    if interlaced then PassOfRow(y) < PassOfRow(z) || (PassOfRow(y) == PassOfRow(z) && y < z) else y < z
  }

  lemma RowPasses(h: nat, r: nat)
    requires r < h
    ensures PassOfRow(InterlacedRow(h, r)) == PassOf(h, r)
  {
    PassSum(h);
    if r < PassBase(h, 1) {
      EighthRow(r, 0);
    } else if r < PassBase(h, 2) {
      EighthRow(r - PassBase(h, 1), 4);
    } else if r < PassBase(h, 3) {
      QuarterRow(r - PassBase(h, 2));
    } else {
      OddRow(r - PassBase(h, 3));
    }
  }

  /** Interlaced data has the rows pass by pass, each pass from the top down. */
  lemma InterlacedOrder(h: nat, a: nat, b: nat)
    requires a < b < h
    ensures RowBefore(true, InterlacedRow(h, a), InterlacedRow(h, b))
  {
    RowPasses(h, a);
    RowPasses(h, b);
    PassSum(h);
    hide PassBase, PassOfRow;
  }

  /** The pixels fill the image's rectangle row by row, from the left. */
  lemma PlaceOrder(p: Picture, j: nat, k: nat)
    requires p.w > 0 && j < k < p.Count()
    ensures var ((x, y), (x1, y1)) := (p.Place(j), p.Place(k));
      && p.left <= x < p.left + p.w && p.top <= y < p.top + p.h
      && (RowBefore(p.interlaced, y - p.top, y1 - p.top) || (y == y1 && x < x1))
  {
    hide RowBefore, Picture.Row;
    RowInImage(p, j);
    RowInImage(p, k);
    RowsApart(j, k, p.w);
    RowInside(p, j / p.w);
    if j / p.w < k / p.w { RowOrder(p, j / p.w, k / p.w); }
  }

  lemma RowsApart(j: nat, k: nat, w: nat)
    requires w > 0 && j < k
    ensures j / w < k / w || (j / w == k / w && j % w < k % w)
  {
    assert j == j / w * w + j % w && k == k / w * w + k % w;
    MulGap(k / w, j / w, w);
  }

  lemma RowInside(p: Picture, r: nat)
    requires r < p.h
    ensures p.Row(r) < p.h
  {
    RowIndex(p.h, r);
  }

  lemma RowOrder(p: Picture, a: nat, b: nat)
    requires a < b < p.h
    ensures RowBefore(p.interlaced, p.Row(a), p.Row(b))
  {
    InterlacedOrder(p.h, a, b);
    hide InterlacedRow, PassOfRow;
  }

  /** Every place of the rectangle has its pixel. */
  lemma PlaceReached(p: Picture, x: nat, y: nat)
    requires p.left <= x < p.left + p.w && p.top <= y < p.top + p.h
    ensures exists k :: 0 <= k < p.Count() && p.Place(k) == (x, y)
  {
    var r := RowReached(p, y - p.top);
    hide Picture.Row;
    var k := r * p.w + (x - p.left);
    MulGap(r, p.h, p.w);
    DivMod(k, p.w, r, x - p.left);
    assert p.Place(k) == (x, y);
  }

  lemma RowReached(p: Picture, y: nat) returns (r: nat)
    requires y < p.h
    ensures r < p.h && p.Row(r) == y
  {
    r := if p.interlaced then InterlacedIndex(p.h, y) else y;
    IndexRow(p.h, y);
    hide InterlacedIndex, InterlacedRow;
  }

  /** Different pixels have different places. */
  lemma PlacesDiffer(p: Picture, j: nat, k: nat)
    requires p.w > 0 && j < k < p.Count()
    ensures p.Place(j) != p.Place(k)
  {
    RowInImage(p, j);
    RowInImage(p, k);
    if j / p.w == k / p.w {
      SamePixel(j, k, p.w);
    } else {
      RowsDiffer(p, j / p.w, k / p.w);
    }
  }

  lemma SamePixel(j: nat, k: nat, w: nat)
    requires w > 0 && j / w == k / w && j != k
    ensures j % w != k % w
  {
    assert j == j / w * w + j % w && k == k / w * w + k % w;
  }

  lemma RowsDiffer(p: Picture, a: nat, b: nat)
    requires a < p.h && b < p.h && a != b
    ensures p.Row(a) != p.Row(b)
  {
    RowIndex(p.h, a);
    RowIndex(p.h, b);
  }

  lemma OffsetsDiffer(p: Picture, x0: nat, y0: nat, x1: nat, y1: nat)
    requires p.OnCanvas(x0, y0) && p.OnCanvas(x1, y1) && (x0, y0) != (x1, y1)
    ensures p.Offset(x0, y0) != p.Offset(x1, y1)
  {
    MulGap(y0, y1, p.maxW);
    MulGap(y1, y0, p.maxW);
  }

  /** What is on the canvas where pixel `k` belongs: its colour, or what was there when the pixel is
      transparent or has no colour. */
  lemma {:induction false} PaintedAt(p: Picture, canvas: seq<nat>, s: seq<byte>, k: nat)
    requires p.w > 0 && |canvas| == p.Size() && k < |s| <= p.Count()
    requires p.OnCanvas(p.Place(k).0, p.Place(k).1)
    ensures var at := p.Offset(p.Place(k).0, p.Place(k).1);
      at < |canvas| && p.Paint(canvas, s)[at] == if p.Visible(s[k]) then p.pal[s[k] as nat] else canvas[at]
    decreases |s|
  {
    var n := |s| - 1;
    var (x, y) := p.Place(k);
    p.OffsetInside(x, y);
    if k < n {
      assert s[..n][k] == s[k];
      PaintedAt(p, canvas, s[..n], k);
      PlacesDiffer(p, k, n);
      if p.OnCanvas(p.Place(n).0, p.Place(n).1) {
        p.OffsetInside(p.Place(n).0, p.Place(n).1);
        OffsetsDiffer(p, x, y, p.Place(n).0, p.Place(n).1);
      }
    } else {
      forall j | 0 <= j < n
        ensures p.Place(j) != (x, y)
      {
        PlacesDiffer(p, j, k);
      }
      Untouched(p, canvas, s[..n], x, y);
    }
  }

  /** A place no pixel belongs to keeps what was there. */
  lemma {:induction false} Untouched(p: Picture, canvas: seq<nat>, s: seq<byte>, x: nat, y: nat)
    requires p.w > 0 && |canvas| == p.Size() && p.OnCanvas(x, y) && |s| <= p.Count()
    requires forall k :: 0 <= k < |s| ==> p.Place(k) != (x, y) || k >= p.Count()
    ensures p.Offset(x, y) < |canvas| && p.Paint(canvas, s)[p.Offset(x, y)] == canvas[p.Offset(x, y)]
    decreases |s|
  {
    p.OffsetInside(x, y);
    if s != [] {
      var n := |s| - 1;
      Untouched(p, canvas, s[..n], x, y);
      if p.OnCanvas(p.Place(n).0, p.Place(n).1) {
        p.OffsetInside(p.Place(n).0, p.Place(n).1);
        OffsetsDiffer(p, x, y, p.Place(n).0, p.Place(n).1);
      }
    }
  }
}
