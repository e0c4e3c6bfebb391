/** Lines of text as the editor keeps them. */
module EditorLines {
  import opened DiskModel

  const MAX_LINES: nat := 128
  const LINE_LEN: nat := 64
  const CR: byte := 13
  const NL: byte := 10

  // ------------------------------------------------------------------ the reference

  function DropReturns(s: seq<byte>): (r: seq<byte>)
    ensures CR !in r
  {
    if s == [] then [] else (if s[0] == CR then [] else [s[0]]) + DropReturns(s[1..])
  }

  /** The pieces between newlines; at least one. */
  function Pieces(s: seq<byte>): (r: seq<seq<byte>>)
    ensures |r| >= 1
  {
    if s == [] then [[]]
    else
      var rest := Pieces(s[1..]);
      if s[0] == NL then [[]] + rest else [[s[0]] + rest[0]] + rest[1..]
  }

  function Joined(ls: seq<seq<byte>>): seq<byte>
    requires |ls| >= 1
  {
    if |ls| == 1 then ls[0] else ls[0] + [NL] + Joined(ls[1..])
  }

  /** The pieces are the text: no piece has a newline, and joined by newlines they give it back. */
  lemma {:induction false} PiecesJoined(s: seq<byte>)
    ensures Joined(Pieces(s)) == s && forall k :: 0 <= k < |Pieces(s)| ==> NL !in Pieces(s)[k]
    decreases |s|
  {
    if s != [] {
      PiecesJoined(s[1..]);
      var rest := Pieces(s[1..]);
      if s[0] == NL {
        assert Pieces(s)[1..] == rest;
      } else if |rest| > 1 {
        assert Pieces(s)[1..] == rest[1..];
        assert Joined(Pieces(s)) == ([s[0]] + rest[0]) + [NL] + Joined(rest[1..]);
        assert Joined(rest) == rest[0] + [NL] + Joined(rest[1..]);
        assert ([s[0]] + rest[0]) + [NL] + Joined(rest[1..]) == [s[0]] + (rest[0] + [NL] + Joined(rest[1..]));
      }
    }
  }

  function Cut(line: seq<byte>): (r: seq<byte>)
    ensures r <= line && |r| < LINE_LEN && (r == line || |r| == LINE_LEN - 1)
  {
    if |line| > LINE_LEN - 1 then line[..LINE_LEN - 1] else line
  }

  /** The lines of a file as shown: no carriage returns, split at newlines, cut to 63 characters. */
  function ShownLines(s: seq<byte>): (r: seq<seq<byte>>)
    ensures |r| >= 1
  {
    CutAll(Pieces(DropReturns(s)))
  }

  function CutAll(ls: seq<seq<byte>>): (r: seq<seq<byte>>)
    ensures |r| == |ls| && forall k :: 0 <= k < |ls| ==> r[k] == Cut(ls[k])
  {
    seq(|ls|, k requires 0 <= k < |ls| => Cut(ls[k]))
  }

  // ------------------------------------------------------------------ one more character

  lemma {:induction false} DropSnoc(s: seq<byte>, c: byte)
    ensures DropReturns(s + [c]) == DropReturns(s) + (if c == CR then [] else [c])
    decreases |s|
  {
    if s == [] {
      assert ([] + [c])[1..] == [];
    } else {
      assert (s + [c])[1..] == s[1..] + [c];
      DropSnoc(s[1..], c);
    }
  }

  /** Pieces with one more character in front, or behind. */
  function InFront(c: byte, p: seq<seq<byte>>): seq<seq<byte>>
    requires |p| >= 1
  {
    if c == NL then [[]] + p else [[c] + p[0]] + p[1..]
  }

  function Behind(p: seq<seq<byte>>, c: byte): (r: seq<seq<byte>>)
    requires |p| >= 1
    ensures |r| >= 1
  {
    if c == NL then p + [[]] else p[..|p| - 1] + [p[|p| - 1] + [c]]
  }

  lemma FrontAndBehind(x: byte, p: seq<seq<byte>>, c: byte)
    requires |p| >= 1
    ensures Behind(InFront(x, p), c) == InFront(x, Behind(p, c))
  {
    var l, r := Behind(InFront(x, p), c), InFront(x, Behind(p, c));
    if |p| == 1 && x != NL && c != NL {
      assert ([x] + p[0]) + [c] == [x] + (p[0] + [c]);
    }
    assert |l| == |r| && forall k :: 0 <= k < |l| ==> l[k] == r[k];
  }

  lemma {:induction false} PiecesSnoc(s: seq<byte>, c: byte)
    ensures Pieces(s + [c]) == Behind(Pieces(s), c)
    decreases |s|
  {
    if s == [] {
      assert s + [c] == [c] && [c][1..] == [];
      var none: seq<byte> := [];
      assert [c] + none == none + [c] && Pieces(s) == [none];
      assert Pieces([c]) == InFront(c, [none]) && Behind([none], c) == InFront(c, [none]);
    } else {
      assert (s + [c])[1..] == s[1..] + [c];
      PiecesSnoc(s[1..], c);
      FrontAndBehind(s[0], Pieces(s[1..]), c);
      assert Pieces(s) == InFront(s[0], Pieces(s[1..]));
      assert Pieces(s + [c]) == InFront(s[0], Pieces(s[1..] + [c]));
    }
  }

  /** The lines shown after one more character. */
  function Grown(p: seq<seq<byte>>, c: byte): (r: seq<seq<byte>>)
    requires |p| >= 1
    ensures |r| == |p| + if c == NL then 1 else 0
  {
    if c == CR then p
    else if c == NL then p + [[]]
    else if |p[|p| - 1]| < LINE_LEN - 1 then p[..|p| - 1] + [p[|p| - 1] + [c]]
    else p
  }

  lemma CutBehind(p: seq<seq<byte>>, c: byte)
    requires |p| >= 1 && c != CR
    ensures CutAll(Behind(p, c)) == Grown(CutAll(p), c)
  {
    var l, r := CutAll(Behind(p, c)), Grown(CutAll(p), c);
    if c != NL { CutSnoc(p[|p| - 1], c); }
    assert |l| == |r| && forall k :: 0 <= k < |l| ==> l[k] == r[k];
  }

  lemma ShownSnoc(s: seq<byte>, c: byte)
    ensures ShownLines(s + [c]) == Grown(ShownLines(s), c)
  {
    DropSnoc(s, c);
    var d := DropReturns(s);
    if c == CR {
      assert d + [] == d;
    } else {
      PiecesSnoc(d, c);
      CutBehind(Pieces(d), c);
    }
  }

  lemma CutSnoc(line: seq<byte>, c: byte)
    ensures Cut(line + [c]) == if |Cut(line)| < LINE_LEN - 1 then Cut(line) + [c] else Cut(line)
  {
  }

  /** Lines that are finished stay as they are. */
  lemma {:induction false} ShownPrefix(a: seq<byte>, b: seq<byte>)
    ensures |ShownLines(a)| <= |ShownLines(a + b)|
    ensures forall k :: 0 <= k < |ShownLines(a)| - 1 ==> ShownLines(a + b)[k] == ShownLines(a)[k]
    decreases |b|
  {
    if b == [] {
      assert a + b == a;
    } else {
      assert a + b == (a + b[..|b| - 1]) + [b[|b| - 1]];
      ShownPrefix(a, b[..|b| - 1]);
      ShownSnoc(a + b[..|b| - 1], b[|b| - 1]);
    }
  }
}
