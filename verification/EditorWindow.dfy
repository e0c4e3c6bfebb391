/** The editor's window over a file: loaded whole from memory, or from a given line on straight from
    the file's chain of blocks. */
module EditorWindow {
  import opened DiskModel
  import opened EditorLines
  import opened FsSteps
  import opened Sequences

  class Window {
    const lines: array2<byte>
    var lineCount: nat
    var startLine: nat

    ghost predicate Valid()
    {
      lines.Length0 == MAX_LINES && lines.Length1 == LINE_LEN
    }

    constructor ()
      ensures Valid() && fresh(lines)
    {
      lines := new byte[MAX_LINES, LINE_LEN]((_, _) => 0);
      lineCount, startLine := 1, 0;
    }

    /** Row `r` holds `s`, ended and filled up with zeros. */
    ghost predicate RowIs(r: nat, s: seq<byte>)
      requires Valid() && r < MAX_LINES
      reads lines
    {
      |s| < LINE_LEN && forall c :: 0 <= c < LINE_LEN ==> lines[r, c] == if c < |s| then s[c] else 0
    }

    /** What row `r` shows when `p` are the lines so far and the window starts at `start`. */
    static function RowText(p: seq<seq<byte>>, start: nat, r: nat): seq<byte> {
      if start + r < |p| then p[start + r] else []
    }

    /** The window after the characters whose lines are `p`: the row and column of the next one. */
    ghost predicate Shows(p: seq<seq<byte>>, start: nat, row: nat, col: nat)
      requires Valid() && |p| >= 1
      reads lines
    {
      && row <= MAX_LINES && (forall k :: 0 <= k < |p| ==> |p[k]| < LINE_LEN)
      && (forall r {:trigger RowIs(r, RowText(p, start, r))} :: 0 <= r < MAX_LINES ==> RowIs(r, RowText(p, start, r)))
      && (if |p| <= start then row == 0 && col == 0
           else row == |p| - 1 - start && (row < MAX_LINES ==> col == |p[|p| - 1]|))
    }

    /** `memset(editor_lines, 0, …)`. */
    method Clear()
      requires Valid()
      modifies lines
      ensures forall r, c :: 0 <= r < MAX_LINES && 0 <= c < LINE_LEN ==> lines[r, c] == 0
    {
      for r := 0 to MAX_LINES
        invariant forall i, c :: 0 <= i < r && 0 <= c < LINE_LEN ==> lines[i, c] == 0
      {
        for c := 0 to LINE_LEN
          invariant forall i, j :: 0 <= i < r && 0 <= j < LINE_LEN ==> lines[i, j] == 0
          invariant forall j :: 0 <= j < c ==> lines[r, j] == 0
        {
          lines[r, c] := 0;
        }
      }
    }

    /** Puts a character at the end of a row that has room. */
    method Append(row: nat, col: nat, ch: byte, ghost s: seq<byte>)
      requires Valid() && row < MAX_LINES && col == |s| < LINE_LEN - 1 && RowIs(row, s)
      modifies lines
      ensures RowIs(row, s + [ch])
      ensures forall r, c :: 0 <= r < MAX_LINES && 0 <= c < LINE_LEN && r != row ==> lines[r, c] == old(lines[r, c])
    {
      lines[row, col] := ch;
      lines[row, col + 1] := 0;
    }

    /** One character of the file, as the lazy view takes it. */
    method Take(ch: byte, start: nat, row: nat, col: nat, lineNo: nat, ghost p: seq<seq<byte>>)
      returns (row1: nat, col1: nat, lineNo1: nat)
      requires Valid() && |p| >= 1 && lineNo == |p| - 1 && row < MAX_LINES && Shows(p, start, row, col)
      modifies lines
      ensures Shows(Grown(p, ch), start, row1, col1) && lineNo1 == |Grown(p, ch)| - 1 && row1 <= MAX_LINES
    {
      row1, col1, lineNo1 := row, col, lineNo;
      ghost var q := Grown(p, ch);
      if ch == CR { return; }
      var inWindow := lineNo >= start;
      label Before:
      assert inWindow ==> RowText(p, start, row) == p[|p| - 1] && RowIs(row, RowText(p, start, row));
      if ch == NL {
        if inWindow {
          lines[row, col] := 0;
          row1, col1 := row + 1, 0;
        }
        lineNo1 := lineNo + 1;
      } else if inWindow && col < LINE_LEN - 1 {
        Append(row, col, ch, p[|p| - 1]);
        col1 := col + 1;
      }
      forall r | 0 <= r < MAX_LINES
        ensures RowIs(r, RowText(q, start, r))
      {
        assert old@Before(RowIs(r, RowText(p, start, r)));
        assert RowText(q, start, r) ==
          if inWindow && r == row && ch != NL && |p[|p| - 1]| < LINE_LEN - 1 then p[|p| - 1] + [ch]
          else RowText(p, start, r);
      }
    }

    /** Once every row is taken the rest of the file does not matter. */
    lemma RestIgnored(a: seq<byte>, b: seq<byte>, start: nat, row: nat, col: nat)
      requires Valid() && Shows(ShownLines(a), start, row, col) && row == MAX_LINES
      ensures |ShownLines(a + b)| > start + MAX_LINES
      ensures forall r :: 0 <= r < MAX_LINES ==>
        RowText(ShownLines(a + b), start, r) == RowText(ShownLines(a), start, r)
    {
      hide ShownLines;
      ShownPrefix(a, b);
    }

    /** The window shows the lines of `file` from `start` on, as far as it has rows; when there is no
        such line it shows one empty row. The rows below are empty. */
    ghost predicate ShowsFrom(file: seq<byte>, start: nat)
      requires Valid()
      reads this, lines
    {
      var p := ShownLines(file);
      && lineCount == (if start >= |p| then 1 else if |p| - start < MAX_LINES then |p| - start else MAX_LINES)
      && (forall r {:trigger RowIs(r, RowText(p, start, r))} :: 0 <= r < MAX_LINES ==> RowIs(r, RowText(p, start, r)))
    }

    /** Row `r` of such a window holds line `start + r` of the file. */
    lemma ShowsLine(file: seq<byte>, start: nat, r: nat)
      requires Valid() && ShowsFrom(file, start) && r < MAX_LINES
      ensures var p := ShownLines(file); RowIs(r, if start + r < |p| then p[start + r] else [])
    {
      assert RowIs(r, RowText(ShownLines(file), start, r));
    }

    /** From the state after the whole file, or after every row is taken. */
    lemma Done(a: seq<byte>, b: seq<byte>, start: nat, row: nat, col: nat)
      requires Valid() && Shows(ShownLines(a), start, row, col) && (b == [] || row == MAX_LINES)
      ensures var p := ShownLines(a + b);
        && row == (if start >= |p| then 0 else if |p| - 1 - start < MAX_LINES then |p| - 1 - start else MAX_LINES)
        && (forall r {:trigger RowIs(r, RowText(p, start, r))} :: 0 <= r < MAX_LINES ==> RowIs(r, RowText(p, start, r)))
    {
      hide ShownLines;
      if b == [] { assert a + b == a; } else { RestIgnored(a, b, start, row, col); }
      forall r | 0 <= r < MAX_LINES
        ensures RowIs(r, RowText(ShownLines(a + b), start, r))
      {
        assert RowIs(r, RowText(ShownLines(a), start, r));
      }
    }

    lemma NothingYet(start: nat)
      requires Valid() && forall r, c :: 0 <= r < MAX_LINES && 0 <= c < LINE_LEN ==> lines[r, c] == 0
      ensures ShownLines([]) == [[]] && Shows(ShownLines([]), start, 0, 0)
    {
    }

    /** The characters of one block, until every row is taken. */
    method TakeBlock(chunk: seq<byte>, start: nat, row: nat, col: nat, lineNo: nat, ghost before: seq<byte>)
      returns (row1: nat, col1: nat, lineNo1: nat, ghost taken: nat)
      requires Valid() && row < MAX_LINES && Shows(ShownLines(before), start, row, col)
      requires lineNo == |ShownLines(before)| - 1
      modifies lines
      ensures taken <= |chunk| && row1 <= MAX_LINES && Shows(ShownLines(before + chunk[..taken]), start, row1, col1)
      ensures lineNo1 == |ShownLines(before + chunk[..taken])| - 1 && (taken == |chunk| || row1 == MAX_LINES)
    {
      hide ShownLines, RowIs, Grown, RowText, Shows;
      row1, col1, lineNo1 := row, col, lineNo;
      var i: nat := 0;
      assert before + chunk[..0] == before;
      while i < |chunk| && row1 < MAX_LINES
        invariant i <= |chunk| && row1 <= MAX_LINES && lineNo1 == |ShownLines(before + chunk[..i])| - 1
        invariant Shows(ShownLines(before + chunk[..i]), start, row1, col1)
        decreases |chunk| - i
      {
        ShownSnoc(before + chunk[..i], chunk[i]);
        assert before + chunk[..i + 1] == (before + chunk[..i]) + [chunk[i]];
        row1, col1, lineNo1 := Take(chunk[i], start, row1, col1, lineNo1, ShownLines(before + chunk[..i]));
        i := i + 1;
      }
      taken := i;
    }

    /** Loads a whole file that is in memory. */
    method LoadBytes(src: seq<byte>)
      requires Valid()
      modifies this, lines
      ensures ShowsFrom(src, 0)
    {
      Clear();
      NothingYet(0);
      hide ShownLines, RowIs, RowText, Shows;
      var row, col, lineNo;
      ghost var taken;
      row, col, lineNo, taken := TakeBlock(src, 0, 0, 0, 0, []);
      assert [] + src[..taken] == src[..taken] && src[..taken] + src[taken..] == src;
      Done(src[..taken], src[taken..], 0, row, col);
      if row < MAX_LINES { lineCount := row + 1; } else { lineCount := MAX_LINES; }
    }

    /** Shows a file from line `start` on, reading its blocks one by one and keeping none. */
    method LoadFileWindow(disk: array<Block>, fileBno: nat, fileSize: nat, start: nat, ghost chain: seq<nat>)
      returns (rc: int)
      requires Valid() && IsChain(disk[..], fileBno, chain)
      modifies this, lines
      ensures fileBno == 0 ==> rc == -1 && lineCount == old(lineCount)
      ensures fileBno != 0 ==> rc == 0 && startLine == start && ShowsFrom(ReadChain(disk[..], fileBno, fileSize), start)
    {
      if fileBno == 0 { return -1; }
      assert ChainAt(chain, 0) == fileBno;
      Clear();
      NothingYet(start);
      hide ShownLines, RowIs, RowText, Shows, ShowsFrom, IsChain, Distinct, ReadChain, Content;
      ghost var d := disk[..];
      ghost var file := ReadChain(d, fileBno, fileSize);
      var bno: nat, remaining: nat := fileBno, fileSize;
      var row: nat, col: nat, lineNo: nat := 0, 0, 0;
      ghost var before: seq<byte>, rest: seq<byte>, k: nat := [], file, 0;
      hide Window.Reading;
      Start(d, file, start, fileBno, fileSize);
      while remaining > 0 && bno != 0 && row < MAX_LINES
        invariant k <= |chain| && bno == ChainAt(chain, k) && disk[..] == d && row <= MAX_LINES
        invariant Reading(d, file, before, rest, start, row, col, lineNo, bno, remaining)
        decreases remaining
      {
        ChainStep(d, fileBno, chain, k);
        row, col, lineNo, remaining, before, rest :=
          TakeFrom(d, disk[bno], file, before, rest, start, row, col, lineNo, bno, remaining);
        bno := Next(disk[bno]);
        k := k + 1;
      }
      AllTaken(d, file, before, rest, start, row, col, lineNo, bno, remaining);
      Finish(file, start, row, col, lineNo, before);
      rc := 0;
    }

    /** Between two blocks of a file: what was taken so far, and what the rest of the chain holds unless
        every row is taken. */
    ghost predicate Reading(d: Disk, file: seq<byte>, before: seq<byte>, rest: seq<byte>, start: nat,
                            row: nat, col: nat, lineNo: nat, bno: nat, remaining: nat)
      requires Valid()
      reads lines
    {
      && row <= MAX_LINES && file == before + rest && (row == MAX_LINES || rest == ReadChain(d, bno, remaining))
      && Shows(ShownLines(before), start, row, col) && lineNo == |ShownLines(before)| - 1
    }

    lemma Start(d: Disk, file: seq<byte>, start: nat, bno: nat, size: nat)
      requires Valid() && file == ReadChain(d, bno, size) && ShownLines([]) == [[]]
      requires Shows(ShownLines([]), start, 0, 0)
      ensures Reading(d, file, [], file, start, 0, 0, 0, bno, size)
    {
      hide Shows, ShownLines;
    }

    /** Takes the next block of the chain. */
    method TakeFrom(ghost d: Disk, block: Block, ghost file: seq<byte>, ghost before: seq<byte>, ghost rest: seq<byte>,
                    start: nat, row: nat, col: nat, lineNo: nat, bno: nat, remaining: nat)
      returns (row1: nat, col1: nat, lineNo1: nat, left: nat, ghost before1: seq<byte>, ghost rest1: seq<byte>)
      requires Valid() && 0 < bno < |d| && block == d[bno] && remaining > 0 && row < MAX_LINES
      requires Reading(d, file, before, rest, start, row, col, lineNo, bno, remaining)
      modifies lines
      ensures Reading(d, file, before1, rest1, start, row1, col1, lineNo1, Next(block), left) && left < remaining
      ensures row1 <= MAX_LINES
    {
      hide ShownLines, RowIs, RowText, Shows, ReadChain, Content, Next;
      var data := Content(block);
      var chunk := if remaining > |data| then |data| else remaining;
      left := remaining - chunk;
      ghost var next := ReadChain(d, Next(block), left);
      ChunkRead(d, bno, remaining);
      ghost var taken;
      var bytes := data[..chunk];
      row1, col1, lineNo1, taken := TakeBlock(bytes, start, row, col, lineNo, before);
      Regroup(before, bytes, taken, next);
      before1, rest1 := before + bytes[..taken], bytes[taken..] + next;
    }

    lemma AllTaken(d: Disk, file: seq<byte>, before: seq<byte>, rest: seq<byte>, start: nat,
                   row: nat, col: nat, lineNo: nat, bno: nat, remaining: nat)
      requires Valid() && Reading(d, file, before, rest, start, row, col, lineNo, bno, remaining)
      requires remaining == 0 || bno == 0 || row >= MAX_LINES
      ensures row <= MAX_LINES && Shows(ShownLines(before), start, row, col) && lineNo == |ShownLines(before)| - 1
      ensures row == MAX_LINES || before == file
      ensures var p := ShownLines(file);
        && row == (if start >= |p| then 0 else if |p| - 1 - start < MAX_LINES then |p| - 1 - start else MAX_LINES)
        && (forall r {:trigger RowIs(r, RowText(p, start, r))} :: 0 <= r < MAX_LINES ==> RowIs(r, RowText(p, start, r)))
    {
      hide ShownLines, RowIs, RowText, Shows, ReadChain;
      EndOfChain(d, bno, remaining);
      Done(before, rest, start, row, col);
      assert rest == [] ==> before + rest == before;
    }

    /** Counts the last row and notes where the window starts. */
    method Finish(ghost file: seq<byte>, start: nat, row0: nat, col: nat, lineNo: nat, ghost before: seq<byte>)
      requires Valid() && row0 <= MAX_LINES && Shows(ShownLines(before), start, row0, col)
      requires lineNo == |ShownLines(before)| - 1
      requires row0 == MAX_LINES || before == file
      requires var p := ShownLines(file);
        && row0 == (if start >= |p| then 0 else if |p| - 1 - start < MAX_LINES then |p| - 1 - start else MAX_LINES)
        && (forall r {:trigger RowIs(r, RowText(p, start, r))} :: 0 <= r < MAX_LINES ==> RowIs(r, RowText(p, start, r)))
      modifies this
      ensures startLine == start && ShowsFrom(file, start)
    {
      hide ShownLines, RowIs, RowText;
      var row := row0;
      if row < MAX_LINES && (col > 0 || lineNo >= start) { row := row + 1; }
      if row < 1 { row := 1; }
      lineCount, startLine := row, start;
    }
  }

  lemma Regroup(before: seq<byte>, chunk: seq<byte>, taken: nat, next: seq<byte>)
    requires taken <= |chunk|
    ensures before + (chunk + next) == (before + chunk[..taken]) + (chunk[taken..] + next)
    ensures taken == |chunk| ==> chunk[taken..] + next == next
  {
  }

  /** Nothing is left of a chain that has been read to its end or as far as the file goes. */
  lemma EndOfChain(d: Disk, bno: nat, remaining: nat)
    ensures remaining == 0 || bno == 0 ==> ReadChain(d, bno, remaining) == []
  {
  }

  // ------------------------------------------------------------------ the beginning of a file

  function Prefix(s: seq<byte>, n: nat): seq<byte> { if |s| > n then s[..n] else s }

  /** Reading less of a chain gives the beginning of what reading more gives. */
  lemma {:induction false} ReadLess(d: Disk, b: nat, n: nat, k: nat)
    requires k <= n
    ensures ReadChain(d, b, k) == Prefix(ReadChain(d, b, n), k)
    decreases n
  {
    if k > 0 && b != 0 && b < |d| {
      var c := Content(d[b]);
      if n > |c| && k > |c| {
        ReadLess(d, Next(d[b]), n - |c|, k - |c|);
      }
    }
  }

  lemma PrefixRead(d: Disk, b: nat, size: nat, most: nat)
    ensures ReadChain(d, b, if size > most then most else size) == Prefix(ReadChain(d, b, size), most)
  {
    if size > most { ReadLess(d, b, size, most); }
  }

  lemma ChainStart(d: Disk, b: nat, chain: seq<nat>)
    requires IsChain(d, b, chain)
    ensures ChainAt(chain, 0) == b
  {
  }

  /** Copies at most `maxSize` bytes of a file: its beginning, and whether there is more. */
  method LoadEntryPrefix(disk: array<Block>, fileBno: nat, fileSize: nat, maxSize: nat, ghost chain: seq<nat>)
    returns (rc: int, out: seq<byte>)
    requires IsChain(disk[..], fileBno, chain)
    ensures out == Prefix(ReadChain(disk[..], fileBno, fileSize), maxSize)
    ensures rc == if fileSize > |out| then 1 else 0
  {
    ghost var d := disk[..];
    var want: nat := if fileSize > maxSize then maxSize else fileSize;
    PrefixRead(d, fileBno, fileSize, maxSize);
    hide IsChain, ReadChain, Content, Distinct, Prefix;
    var remaining: nat, bno: nat := want, fileBno;
    ghost var k: nat := 0;
    out := [];
    assert ChainAt(chain, 0) == fileBno by { ChainStart(d, fileBno, chain); }
    while remaining > 0 && bno != 0
      invariant k <= |chain| && bno == ChainAt(chain, k)
      invariant ReadChain(d, fileBno, want) == out + ReadChain(d, bno, remaining)
      decreases remaining
    {
      ChainStep(d, fileBno, chain, k);
      ChunkRead(d, bno, remaining);
      var data := Content(disk[bno]);
      var chunk := if remaining > |data| then |data| else remaining;
      Regrouped(out, data[..chunk], ReadChain(d, Next(d[bno]), remaining - chunk));
      out := out + data[..chunk];
      remaining := remaining - chunk;
      bno := Next(disk[bno]);
      k := k + 1;
    }
    EndOfChain(d, bno, remaining);
    rc := if fileSize > |out| then 1 else 0;
  }
}
