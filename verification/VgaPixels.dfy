/** The screen's pixels and the cursor's shape, as values. */
module VgaPixels {
  import opened Arithmetic

  const WIDTH: nat := 512
  const HEIGHT: nat := 384
  const SIZE: nat := WIDTH * HEIGHT
  const CURSOR_COLOR: bv8 := 14

  // ------------------------------------------------------------------ the cursor

  datatype Mode = Normal | SizeH | SizeV | SizeD1 | SizeD2

  function Arrow(): seq<string> {
    [ "X...........",
      "XX..........",
      "XOX.........",
      "XOOX........",
      "XOOOX.......",
      "XOOOOX......",
      "XOOOOOX.....",
      "XOOOOOOX....",
      "XOOOOOOOX...",
      "XOOOOX......",
      "XOOXOX......",
      "XOX..OX.....",
      "XX...OX.....",
      "X.....OX....",
      "......OX....",
      ".......XX..." ]
  }

  datatype Kind = Clear | Black | Colored

  function NormalKind(dx: int, dy: int): Kind {
    if dx < 0 || dx >= 12 || dy < 0 || dy >= 16 then Clear
    else
      ArrowRows(dy);
      if Arrow()[dy][dx] == 'O' then Colored else if Arrow()[dy][dx] == 'X' then Black else Clear
  }

  lemma ArrowRows(y: nat)
    requires y < 16
    ensures |Arrow()| == 16 && |Arrow()[y]| == 12
  {
  }

  /** The arrow as a shape: a triangle of nine rows with black sides, below it a wedge that ends after five rows, a
      stem with a black right edge that goes one to the right every other row, and a black foot. */
  function ArrowKind(dx: int, dy: int): Kind {
    if 0 <= dx <= dy <= 8 then (if dx == 0 || dx == dy then Black else Colored)
    else if 9 <= dy <= 14 && dx == 5 + (dy - 9) / 2 then Black
    else if 9 <= dy <= 14 && dx == 4 + (dy - 9) / 2 then Colored
    else if 9 <= dy <= 13 && 0 <= dx <= 13 - dy then (if dx == 0 || dx == 13 - dy then Black else Colored)
    else if dy == 15 && 7 <= dx <= 8 then Black
    else Clear
  }

  lemma ArrowShape(dx: int, dy: int)
    ensures NormalKind(dx, dy) == ArrowKind(dx, dy)
  {
    if 0 <= dx < 12 && 0 <= dy < 16 {
      if dy < 8 { UpperRow(dx, dy); } else { LowerRow(dx, dy); }
      hide Arrow;
    }
  }

  lemma UpperRow(x: nat, y: nat)
    requires x < 12 && y < 8
    ensures |Arrow()| == 16 && |Arrow()[y]| == 12
    ensures Arrow()[y][x] == if x > y then '.' else if x == 0 || x == y then 'X' else 'O'
  {
  }

  lemma LowerRow(x: nat, y: nat)
    requires x < 12 && 8 <= y < 16
    ensures |Arrow()| == 16 && |Arrow()[y]| == 12
    ensures Arrow()[y][x] ==
      match ArrowKind(x, y)
      case Clear => '.'
      case Black => 'X'
      case Colored => 'O'
  {
  }

  function Abs(x: int): nat { if x < 0 then -x else x }

  /** What the cursor is at an offset from its hot spot: the arrow, a bar with an arrowhead of two
      diagonals at each end, or a diagonal with a corner at each end. */
  function CursorKind(dx: int, dy: int, mode: Mode): Kind {
    match mode
    case Normal => NormalKind(dx, dy)
    case SizeH =>
      if (dy == 0 && Abs(dx) <= 7) || Abs(dx + 7) == Abs(dy) <= 3 || Abs(dx - 7) == Abs(dy) <= 3 then Colored else Clear
    case SizeV =>
      if (dx == 0 && Abs(dy) <= 7) || Abs(dy + 7) == Abs(dx) <= 3 || Abs(dy - 7) == Abs(dx) <= 3 then Colored else Clear
    case SizeD1 => if (dx == dy && Abs(dx) <= 6) || InCorner(dx, dy) || InCorner(-dx, -dy) then Colored else Clear
    case SizeD2 => if (dx == -dy && Abs(dx) <= 6) || InCorner(dx, -dy) || InCorner(-dx, dy) then Colored else Clear
  }

  /** The corner at the upper left end of a diagonal. */
  predicate InCorner(dx: int, dy: int) {
    (dy == -6 && -6 <= dx <= -3) || (dx == -6 && -6 <= dy <= -3)
  }

  /** Every mode's cursor is inside the rectangle that is flushed for it. */
  lemma CursorInside(dx: int, dy: int, mode: Mode)
    ensures CursorKind(dx, dy, mode) != Clear ==> -12 <= dx < 20 && -12 <= dy < 20
  {
  }

  // ------------------------------------------------------------------ the screen

  /** Column and row of a pixel. */
  function Col(p: nat): nat { p % WIDTH }

  function Row(p: nat): nat { p / WIDTH }

  datatype Cursor = NoCursor | Cursor(x: int, y: int, mode: Mode)

  datatype Rect = Rect(x0: int, y0: int, x1: int, y1: int)
  {
    predicate Empty() { x0 >= x1 || y0 >= y1 }

    predicate Has(p: nat) { x0 <= Col(p) < x1 && y0 <= Row(p) < y1 }

    /** A pixel of a word that has a pixel in the rectangle's columns, in the rectangle's rows. */
    predicate Touches(p: nat) { x0 - x0 % 4 <= Col(p) < x1 + (4 - x1 % 4) % 4 && y0 <= Row(p) < y1 }

    predicate OnScreen() { 0 <= x0 <= x1 <= WIDTH && 0 <= y0 <= y1 <= HEIGHT }
  }

  /** The height the cursor is drawn to. */
  function ClipOf(clip: int): nat {
    if clip <= 0 || clip > HEIGHT then HEIGHT else clip
  }

  /** What pixel `p` looks like with the cursor over the back buffer. */
  function Overlaid(back: bv8, c: Cursor, p: nat): bv8 {
    if c.NoCursor? then back
    else
      match CursorKind(Col(p) - c.x, Row(p) - c.y, c.mode)
      case Clear => back
      case Black => 0
      case Colored => CURSOR_COLOR
  }

  /** The rectangle that is flushed for a cursor. */
  function Bounds(x: int, y: int, clip: int): Rect {
    Rect(if x - 12 < 0 then 0 else x - 12, if y - 12 < 0 then 0 else y - 12,
         if x + 20 > WIDTH then WIDTH else x + 20, if y + 20 > ClipOf(clip) then ClipOf(clip) else y + 20)
  }

  /** The cursor shows nowhere outside its rectangle. */
  lemma OverlaidOutside(back: bv8, x: int, y: int, mode: Mode, clip: int, p: nat)
    requires Row(p) < ClipOf(clip) && !Bounds(x, y, clip).Has(p)
    ensures Overlaid(back, Cursor(x, y, mode), p) == back
  {
    CursorInside(Col(p) - x, Row(p) - y, mode);
  }

  lemma WordParts(row: nat, col: nat, k: nat)
    requires row < HEIGHT && col % 4 == 0 && col < WIDTH && k < 4
    ensures var p := row * WIDTH + col;
      && p % 4 == 0 && p + 3 < SIZE && col + k < WIDTH && Row(p + k) == row && Col(p + k) == col + k
      && (p + k) / 4 == p / 4 && (p + k) % 4 == k
  {
    assert col == 4 * (col / 4);
    DivMod(row * WIDTH + col + k, WIDTH, row, col + k);
    DivMod(row * WIDTH + col + k, 4, row * 128 + col / 4, k);
    DivMod(row * WIDTH + col, 4, row * 128 + col / 4, 0);
  }
}
