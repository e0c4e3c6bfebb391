/** The buffered descriptors: a growing buffer with a position that behaves as a plain byte sequence,
    loaded from the file system when opened and stored back when closed. */
module FdLayer {
  import opened Wrappers
  import opened DiskModel
  import opened Sequences
  import opened TreeLemmas
  import opened TreeEdits
  import opened Paths
  import opened FsSteps
  import opened Outcomes
  import opened VibeFS

  const MAX_OFFSET: nat := 0x8000_0000
  const FIRST_CAP: nat := 256

  datatype Flags = Flags(read: bool, write: bool, creat: bool, trunc: bool)
  datatype Whence = FromStart | FromPos | FromEnd

  // ------------------------------------------------------------------ the plain byte sequence

  /** What a descriptor is to its user: bytes and a position in them. */
  datatype Stream = Stream(data: seq<byte>, pos: nat)
  {
    predicate Ok() { pos <= |data| < MAX_OFFSET }

    function Read(n: nat): (Stream, seq<byte>)
      requires Ok()
    {
      var k := if n > |data| - pos then |data| - pos else n;
      (this.(pos := pos + k), data[pos..pos + k])
    }

    function Write(bytes: seq<byte>): Stream
      requires Ok()
    {
      var end := pos + |bytes|;
      Stream(data[..pos] + bytes + From(end), end)
    }

    /** The bytes from place `k` on, none when it is past the end. */
    function From(k: nat): seq<byte> { if k < |data| then data[k..] else [] }

    function Base(whence: Whence): nat {
      match whence case FromStart => 0 case FromPos => pos case FromEnd => |data|
    }

    /** The position a seek leads to, or -1: before the start, or past the end without write access. */
    function SeekTo(offset: int, whence: Whence, canWrite: bool): (r: int)
      ensures r >= -1
    {
      var next := Base(whence) + offset;
      if next < 0 || (next > |data| && !canWrite) then -1 else next
    }

    function Seek(offset: int, whence: Whence, canWrite: bool): Stream
    {
      var next := SeekTo(offset, whence, canWrite);
      if next < 0 then this
      else Stream(if next > |data| then data + Zeros(next - |data|) else data, next)
    }
  }

  /** A read takes as many bytes as there are, and two reads are one longer read. */
  lemma ReadTwice(s: Stream, m: nat, n: nat)
    requires s.Ok()
    ensures var (s1, a) := s.Read(m);
      && s1.Ok() && s1.data == s.data && s1.pos == s.pos + |a| && |a| <= m && (|a| < m ==> s1.pos == |s.data|)
      && (forall i :: 0 <= i < |a| ==> a[i] == s.data[s.pos + i])
      && var (s2, b) := s1.Read(n); s.Read(m + n) == (s2, a + b)
  {
    var (s1, a) := s.Read(m);
    var (s2, b) := s1.Read(n);
    assert s.data[s.pos..s2.pos] == a + b;
  }

  /** A write replaces or appends exactly its own bytes; going back and reading gives them again. */
  lemma WriteThenRead(s: Stream, bytes: seq<byte>, canWrite: bool)
    requires s.Ok() && s.pos + |bytes| < MAX_OFFSET
    ensures var w := s.Write(bytes);
      && w.Ok() && w.pos == s.pos + |bytes| && |w.data| == (if w.pos > |s.data| then w.pos else |s.data|)
      && (forall i :: 0 <= i < |w.data| ==>
            w.data[i] == if s.pos <= i < w.pos then bytes[i - s.pos] else s.data[i])
      && w.Seek(-|bytes|, FromPos, canWrite).Read(|bytes|) == (w, bytes)
  {
    var w := s.Write(bytes);
    assert w.data[s.pos..w.pos] == bytes;
  }

  /** Two writes are one longer write. */
  lemma WriteTwice(s: Stream, a: seq<byte>, b: seq<byte>)
    requires s.Ok() && s.pos + |a| + |b| < MAX_OFFSET
    ensures s.Write(a).Ok() && s.Write(a).Write(b) == s.Write(a + b)
  {
    hide Stream.From, Stream.Write;
    WriteParts(s, a);
    WriteParts(s, a + b);
    var w := s.Write(a);
    WriteParts(w, b);
    WrittenFront(s, a);
    WrittenTail(s, a, w.pos + |b|);
    Regrouped(s.data[..s.pos], a, b);
    assert |a + b| == |a| + |b|;
  }

  lemma WriteParts(s: Stream, bytes: seq<byte>)
    requires s.Ok() && s.pos + |bytes| < MAX_OFFSET
    ensures var end := s.pos + |bytes|;
      s.Write(bytes).Ok() && s.Write(bytes) == Stream(s.data[..s.pos] + bytes + s.From(end), end)
  {
  }

  lemma WrittenFront(s: Stream, a: seq<byte>)
    requires s.Ok()
    ensures s.Write(a).data[..s.pos + |a|] == s.data[..s.pos] + a
  {
  }

  /** Behind the bytes written everything is as it was. */
  lemma WrittenTail(s: Stream, a: seq<byte>, k: nat)
    requires s.Ok() && k >= s.pos + |a|
    ensures s.Write(a).From(k) == s.From(k)
  {
    if k < |s.data| {
      assert s.data[s.pos + |a|..][k - (s.pos + |a|)..] == s.data[k..];
    }
  }

  /** A seek leads to the place asked for, counted from the start, the position or the end; within the bytes
      it changes none, and past them it only adds zeros, which takes write access. */
  lemma SeekLeads(s: Stream, offset: int, whence: Whence, canWrite: bool)
    requires s.Ok()
    ensures var at := offset + match whence case FromStart => 0 case FromPos => s.pos case FromEnd => |s.data|;
      var t := s.Seek(offset, whence, canWrite);
      if 0 <= at && (at <= |s.data| || canWrite) then
        && s.SeekTo(offset, whence, canWrite) == t.pos == at
        && |t.data| == (if at > |s.data| then at else |s.data|)
        && forall i :: 0 <= i < |t.data| ==> t.data[i] == if i < |s.data| then s.data[i] else 0
      else s.SeekTo(offset, whence, canWrite) == -1 && t == s
  {
  }

  /** The capacity after growing for `need` bytes: doubled until it fits. */
  function Doubled(cap: nat, need: nat): nat
    requires cap > 0
    decreases need - cap
  {
    if cap >= need then cap else Doubled(2 * cap, need)
  }

  datatype FdOp = ReadOp(n: nat) | WriteOp(bytes: seq<byte>) | SeekOp(offset: int, whence: Whence)

  /** One operation on the plain sequence, with the bytes it reads. */
  function Play(s: Stream, op: FdOp, f: Flags): (Stream, seq<byte>)
    requires s.Ok()
  {
    match op
    case ReadOp(n) => if f.read then s.Read(n) else (s, [])
    case WriteOp(bytes) => (if f.write then s.Write(bytes) else s, [])
    case SeekOp(offset, whence) => (s.Seek(offset, whence, f.write), [])
  }

  /** The operation keeps offsets below 2^31. */
  predicate Fits(s: Stream, op: FdOp) {
    s.Ok() &&
    match op
    case ReadOp(_) => true
    case WriteOp(bytes) => s.pos + |bytes| < MAX_OFFSET
    case SeekOp(offset, whence) => s.Base(whence) + offset < MAX_OFFSET
  }

  predicate AllFit(s: Stream, ops: seq<FdOp>, f: Flags)
    decreases |ops|
  {
    s.Ok() && (ops != [] ==> Fits(s, ops[0]) && AllFit(Play(s, ops[0], f).0, ops[1..], f))
  }

  /** A run of operations on the plain sequence, with everything read. */
  function Played(s: Stream, ops: seq<FdOp>, f: Flags): (Stream, seq<seq<byte>>)
    requires AllFit(s, ops, f)
    decreases |ops|
  {
    if ops == [] then (s, [])
    else
      var (s1, out) := Play(s, ops[0], f);
      var (s2, outs) := Played(s1, ops[1..], f);
      (s2, [out] + outs)
  }

  /** After `i` operations the sequence is at `v` and `outs` has been read. */
  ghost predicate Remaining(v0: Stream, ops: seq<FdOp>, f: Flags, v: Stream, i: nat, outs: seq<seq<byte>>)
    requires i <= |ops|
  {
    && AllFit(v0, ops, f) && AllFit(v, ops[i..], f)
    && var (end, rest) := Played(v, ops[i..], f); Played(v0, ops, f) == (end, outs + rest)
  }

  lemma RemainingStep(v0: Stream, ops: seq<FdOp>, f: Flags, v: Stream, i: nat, outs: seq<seq<byte>>)
    requires i < |ops| && Remaining(v0, ops, f, v, i, outs)
    ensures var (v1, out) := Play(v, ops[i], f); Remaining(v0, ops, f, v1, i + 1, outs + [out])
  {
    var (v1, out) := Play(v, ops[i], f);
    assert ops[i..][0] == ops[i] && ops[i..][1..] == ops[i + 1..];
    var (end, rest) := Played(v1, ops[i + 1..], f);
    assert outs + ([out] + rest) == (outs + [out]) + rest;
  }

  /** Doubling stops at the first capacity that is enough. */
  lemma {:induction false} DoubledEnough(cap: nat, need: nat)
    requires cap > 0
    ensures Doubled(cap, need) >= need && Doubled(cap, need) >= cap
    ensures need > cap ==> Doubled(cap, need) < 2 * need
    decreases need - cap
  {
    if cap < need { DoubledEnough(2 * cap, need); }
  }

  /** What a descriptor holds once opened, or nothing when the open fails. */
  function OpenData(node: Node, f: Flags): Option<seq<byte>> {
    if f.write && (f.creat || f.trunc) then Some([])
    else
      match node
      case File(data) => Some(if f.trunc then [] else data)
      case _ => if f.creat then Some([]) else None
  }

  /** memcpy into a buffer. */
  method CopyInto(b: array<byte>, at: nat, bytes: seq<byte>)
    requires at + |bytes| <= b.Length
    modifies b
    ensures b[..] == old(b[..])[..at] + bytes + old(b[..])[at + |bytes|..]
  {
    ghost var was := b[..];
    for i := 0 to |bytes|
      invariant b[..] == was[..at] + bytes[..i] + was[at + i..]
    {
      b[at + i] := bytes[i];
    }
  }

  /** memset to zero of part of a buffer. */
  method FillZero(b: array<byte>, from: nat, to: nat)
    requires from <= to <= b.Length
    modifies b
    ensures b[..] == old(b[..])[..from] + Zeros(to - from) + old(b[..])[to..]
  {
    ghost var was := b[..];
    for i := from to to
      invariant b[..from] == was[..from] && b[i..] == was[i..] && forall j :: from <= j < i ==> b[j] == 0
    {
      b[i] := 0;
    }
    assert b[from..to] == Zeros(to - from);
    assert b[..] == b[..from] + b[from..to] + b[to..];
  }

  /** The content after a write into a buffer is the plain sequence's. */
  lemma WrittenContent(was: seq<byte>, size: nat, pos: nat, bytes: seq<byte>)
    requires pos <= size <= |was| && pos + |bytes| <= |was| && size < MAX_OFFSET
    ensures bytes == [] ==> was[..pos] + bytes + was[pos + |bytes|..] == was
    ensures var now := was[..pos] + bytes + was[pos + |bytes|..];
      var end := pos + |bytes|;
      Stream(was[..size], pos).Write(bytes) == Stream(now[..if end > size then end else size], end)
  {
  }

  lemma ExtendedContent(was: seq<byte>, size: nat, next: nat)
    requires size <= next <= |was|
    ensures (was[..size] + Zeros(next - size) + was[next..])[..next] == was[..size] + Zeros(next - size)
  {
  }

  /** Some path leads to the name in the directory. */
  ghost predicate SomePathNames(d: Disk, dir: nat, name: string) {
    exists path: seq<string> :: |path| >= 1 && Names(d, path, dir, name)
  }

  lemma NamedInTree(d: Disk, L: Layout, dir: nat, name: string)
    requires WF(d, L) && (dir != 0 || dir in L.depth)
    ensures SomePathNames(d, dir, name) <==> dir in L.depth
  {
    if dir in L.depth {
      var path := PathTo(d, L, dir, name);
    }
    forall path: seq<string> | |path| >= 1
      ensures Home(d, ROOT, path) == 0 || Home(d, ROOT, path) in L.depth
    {
      HomeInTree(d, L, ROOT, path);
    }
  }

  /** An empty directory can be removed. */
  lemma RemovedCode(d: Disk, L: Layout, parent: nat, leaf: string)
    requires WF(d, L) && parent in L.depth && Child(d, parent, leaf) != 0 && EmptyDir(d, Child(d, parent, leaf))
    ensures IsDir(d, parent) && RemoveCode(d, parent, leaf) == OK && HeldBlocks(d, L, parent, leaf) == 1
  {
    assert DirBlockOk(d[parent]);
    FindOnly(d[parent].entries, Find(d[parent].entries, leaf, TYPE_DIR), ANY_TYPE);
  }

  lemma RemovedIsStray(d: Disk, L: Layout, dir: nat, name: string, free: int, n: nat)
    requires dir !in L.depth && dir != 0 && EmptyDir(d, dir) && name != ""
    ensures Stray(d, L, dir, name) && IsDir(d, dir)
    ensures CanStore(d, dir, name, n, free) <==> Room(n, free)
  {
    assert d[dir].entries[0].name == "";
  }

  lemma StoredInTree(d0: Disk, L0: Layout, leaked0: set<nat>, d2: Disk, L2: Layout, leaked2: set<nat>,
                     dir: nat, leaf: string, data: seq<byte>)
    requires StoreOutcome(d0, L0, leaked0, d2, L2, leaked2, dir, leaf, data) && dir in L0.depth
    ensures LookAt(d2, dir, leaf) == File(data) && SizeAt(d2, dir, leaf) == |data|
  {
  }

  lemma StrayOutcome(d0: Disk, L0: Layout, leaked0: set<nat>, d2: Disk, L2: Layout, leaked2: set<nat>,
                     dir: nat, leaf: string, data: seq<byte>)
    requires StoreOutcome(d0, L0, leaked0, d2, L2, leaked2, dir, leaf, data) && dir !in L0.depth
    ensures SameLooks(d0, d2) && leaked0 <= leaked2 && |leaked2 - leaked0| == BlocksFor(|data|)
  {
  }

  lemma LooksThen(d0: Disk, d1: Disk, d2: Disk, dir: nat, leaf: string, node: Node)
    requires OneLookChanged(d0, d1, dir, leaf, node) && SameLooks(d1, d2)
    ensures OneLookChanged(d0, d2, dir, leaf, node)
  {
    hide Look, Names;
  }

  /** Removes an empty directory: a store of `n` bytes in its block then needs nothing but room. */
  method RemoveEmptyDir(fs: FileSystem, parent: nat, leaf: string, ghost dir: nat, ghost name: string, ghost n: nat)
    requires fs.Valid() && parent in fs.lay.depth && dir != 0 && name != ""
    requires Child(fs.Image(), parent, leaf) == dir && EmptyDir(fs.Image(), dir)
    modifies fs, fs.disk, fs.blockMap, fs.blockMap.bytes
    ensures fs.Valid() && OneLookChanged(old(fs.Image()), fs.Image(), parent, leaf, Missing)
    ensures fs.Free() == old(fs.Free()) + 1 && fs.leaked == old(fs.leaked)
    ensures dir !in fs.lay.depth && Stray(fs.Image(), fs.lay, dir, name)
    ensures CanStore(fs.Image(), dir, name, n, fs.Free()) <==> Room(n, fs.Free())
  {
    RemovedCode(fs.Image(), fs.lay, parent, leaf);
    hide OneLookChanged, CanStore, Room, LookAt, Stray, RemoveEnds, RemoveCode, OneStampChanged, AllOldOrNew, WF,
         Accounts;
    var code := fs.Remove(parent, leaf);
    RemovedIsStray(fs.Image(), fs.lay, dir, name, fs.Free(), n);
  }

  class Fd {
    var used: bool
    var flags: Flags
    var pos: nat
    var size: nat
    var cap: nat
    var buf: array?<byte>
    var dir: nat
    var name: string

    /** The position is within the content and the content within the buffer. */
    ghost predicate Valid()
      reads this, buf
    {
      && pos <= size <= cap && size < MAX_OFFSET
      && (if buf == null then cap == 0 else buf.Length == cap > 0)
    }

    ghost function View(): Stream
      reads this, buf
      requires Valid()
    {
      Stream(if buf == null then [] else buf[..size], pos)
    }

    constructor ()
      ensures Valid() && !used && buf == null
    {
      used, flags := false, Flags(false, false, false, false);
      pos, size, cap, buf, dir, name := 0, 0, 0, null, 0, "";
    }

    method Clear()
      modifies this
      ensures Valid() && !used && buf == null
    {
      used, flags := false, Flags(false, false, false, false);
      pos, size, cap, buf, dir, name := 0, 0, 0, null, 0, "";
    }

    /** Makes room for `need` bytes by doubling a 32-bit capacity; the content stays. */
    method Reserve(need: nat)
      requires Valid() && need <= MAX_OFFSET
      modifies this`cap, this`buf
      ensures Valid() && View() == old(View()) && cap >= need
      ensures need <= old(cap) ==> buf == old(buf)
      ensures buf == old(buf) || fresh(buf)
      ensures need > old(cap) ==> cap == Doubled(if old(cap) > 0 then old(cap) else FIRST_CAP, need)
    {
      if need <= cap { return; }
      var start := if cap > 0 then cap else FIRST_CAP;
      var newCap := start;
      while newCap < need
        invariant newCap > 0 && newCap >= start && Doubled(newCap, need) == Doubled(start, need)
        decreases need - newCap
      {
        newCap := (newCap * 2) % 0x1_0000_0000;
        assert newCap >= cap;
      }
      var nbuf := new byte[newCap];
      if buf != null {
        ghost var was := buf[..size];
        for i := 0 to size
          invariant buf == old(buf) && cap == old(cap) && buf[..size] == was && nbuf[..i] == was[..i]
        {
          nbuf[i] := buf[i];
        }
        assert nbuf[..size] == was;
      }
      buf, cap := nbuf, newCap;
    }

    method Read(n: nat) returns (rc: int, out: seq<byte>)
      requires Valid()
      modifies this`pos
      ensures Valid()
      ensures if !used || !flags.read then rc == -1 && out == [] && View() == old(View())
              else (View(), out) == old(View()).Read(n) && rc == |out|
    {
      if !used || !flags.read { return -1, []; }
      ghost var v := View();
      assert |v.data| == size && v.pos == pos && (buf != null ==> v.data == buf[..size]);
      if pos >= size {
        assert v.data[pos..pos] == [];
        return 0, [];
      }
      var chunk := if n > size - pos then size - pos else n;
      out := buf[pos..pos + chunk];
      assert out == v.data[pos..pos + chunk];
      pos := pos + chunk;
      rc := chunk;
    }

    method Write(bytes: seq<byte>) returns (rc: int)
      requires Valid() && pos + |bytes| < MAX_OFFSET
      modifies this, buf
      ensures Valid() && used == old(used) && flags == old(flags) && name == old(name) && dir == old(dir)
      ensures buf == old(buf) || fresh(buf)
      ensures if !used || !flags.write then rc == -1 && View() == old(View())
              else View() == old(View()).Write(bytes) && rc == |bytes|
    {
      if !used || !flags.write { return -1; }
      var need := pos + |bytes|;
      if need > cap { Reserve(need); }
      Insert(bytes);
      rc := |bytes|;
    }

    /** Puts bytes for which there is room at the position. */
    method Insert(bytes: seq<byte>)
      requires Valid() && pos + |bytes| <= cap && pos + |bytes| < MAX_OFFSET
      modifies this`pos, this`size, buf
      ensures Valid() && View() == old(View()).Write(bytes)
    {
      hide Stream.Write;
      ghost var was := if buf == null then [] else buf[..];
      if |bytes| > 0 { CopyInto(buf, pos, bytes); }
      WrittenContent(was, size, pos, bytes);
      pos := pos + |bytes|;
      if pos > size { size := pos; }
    }

    /** Makes the content longer by zeros. */
    method Extend(next: nat)
      requires Valid() && size < next < MAX_OFFSET
      modifies this`size, this`cap, this`buf, buf
      ensures Valid() && View() == old(View()).(data := old(View()).data + Zeros(next - old(size)))
      ensures size == next && (buf == old(buf) || fresh(buf))
    {
      if next > cap { Reserve(next); }
      ghost var was := buf[..];
      FillZero(buf, size, next);
      ExtendedContent(was, size, next);
      size := next;
    }

    method Seek(offset: int, whence: Whence) returns (rc: int)
      requires Valid() && View().Base(whence) + offset < MAX_OFFSET
      modifies this, buf
      ensures Valid() && used == old(used) && flags == old(flags) && name == old(name) && dir == old(dir)
      ensures buf == old(buf) || fresh(buf)
      ensures if !used then rc == -1 && View() == old(View())
              else (rc == old(View()).SeekTo(offset, whence, flags.write)
                    && View() == old(View()).Seek(offset, whence, flags.write))
    {
      if !used { return -1; }
      var base := match whence case FromStart => 0 case FromPos => pos case FromEnd => size;
      var next := base + offset;
      if next < 0 { return -1; }
      if next > size {
        if !flags.write { return -1; }
        Extend(next);
      }
      pos := next;
      rc := next;
    }

    method Tell() returns (rc: int)
      requires Valid()
      ensures rc == if used then View().pos else -1
    {
      rc := if used then pos else -1;
    }

    /** The buffer is not one of the file system's own arrays. */
    ghost predicate Apart(fs: FileSystem)
      reads this
    {
      buf != null ==> buf as object != fs.disk as object && buf as object != fs.blockMap.bytes as object
    }

    // ---------------------------------------------------------------- opening and closing

    /** Opens a file. A descriptor for writing that creates or truncates starts empty without reading
        the file. */
    method Open(fs: FileSystem, d: nat, n: string, f: Flags) returns (rc: int)
      requires fs.Valid() && d in fs.lay.depth && SizeAt(fs.Image(), d, n) < MAX_OFFSET
      modifies this
      ensures Valid()
      ensures match OpenData(LookAt(fs.Image(), d, n), f)
        case None => rc == -3 && !used
        case Some(data) => rc == 0 && used && flags == f && dir == d && name == n && View() == Stream(data, 0)
      ensures rc == -3 <==> !LookAt(fs.Image(), d, n).File? && !f.creat && !(f.write && f.trunc)
      ensures rc == 0 ==>
        View().data == if LookAt(fs.Image(), d, n).File? && !f.trunc && !(f.write && f.creat)
                       then LookAt(fs.Image(), d, n).bytes else []
    {
      hide LookAt, SizeAt, WF, Accounts, AllBelow;
      Clear();
      used, flags, dir, name := true, f, d, n;
      if f.write && (f.creat || f.trunc) { return 0; }
      rc := LoadFile(fs);
      if rc != 0 {
        Clear();
        return -3;
      }
      if f.trunc {
        size := 0;
        if cap == 0 { Reserve(1); }
      }
      pos := 0;
      rc := 0;
    }

    /** Fills the buffer of a descriptor being opened from its file. */
    method LoadFile(fs: FileSystem) returns (rc: int)
      requires Valid() && pos == 0 && buf == null && fs.Valid() && dir in fs.lay.depth
      requires SizeAt(fs.Image(), dir, name) < MAX_OFFSET
      modifies this`size, this`cap, this`buf
      ensures Valid()
      ensures match LookAt(fs.Image(), dir, name)
        case File(data) => rc == 0 && View() == Stream(data, 0)
        case _ => if flags.creat then rc == 0 && View() == Stream([], 0) else rc == -2
    {
      hide WF, Accounts, Doubled;
      var n := fs.EntrySize(dir, name);
      if n < 0 {
        size, cap, buf := 0, 0, null;
        return if flags.creat then 0 else -2;
      }
      Reserve(if n == 0 then 1 else n);
      var out;
      rc, out := fs.Load(dir, name, cap);
      CopyInto(buf, 0, out);
      size := |out|;
      assert buf[..size] == out;
    }

    /** Closes a descriptor: what was opened to be changed is stored back whole. When the store fails
        the descriptor stays open. When the directory was removed in the meantime the close may succeed, but
        what was stored is there under some path if and only if the directory still is in the tree. */
    method Close(fs: FileSystem, now: nat) returns (rc: int)
      requires Valid() && fs.Valid() && Apart(fs) && (used ==> 1 <= |name| <= NAME_MAX)
      requires used ==> dir in fs.lay.depth || Stray(fs.Image(), fs.lay, dir, name)
      modifies this, fs, fs.disk, fs.blockMap, fs.blockMap.bytes
      ensures Valid() && fs.Valid() && fs.lay.depth == old(fs.lay.depth)
      ensures !old(used) ==> rc == -1 && fs.Image() == old(fs.Image())
      ensures old(used) && (old(flags).write || old(flags).creat || old(flags).trunc) ==>
        && (rc == 0 <==>
              CanStore(old(fs.Image()), old(dir), old(name), |old(View()).data|, old(fs.Free())))
        && if rc == 0 then
             !used && StoreOutcome(old(fs.Image()), old(fs.lay), old(fs.leaked), fs.Image(), fs.lay, fs.leaked,
                                   old(dir), old(name), old(View()).data)
           else rc == -1 && used && View() == old(View()) && SameLooks(old(fs.Image()), fs.Image())
      ensures old(used) && !old(flags).write && !old(flags).creat && !old(flags).trunc ==>
        rc == 0 && !used && fs.Image() == old(fs.Image())
      ensures old(used) && rc == 0 && old(dir in fs.lay.depth) ==>
        && (old(flags).write ==> LookAt(fs.Image(), old(dir), old(name)) == File(old(View()).data))
        && (old(flags).creat ==> LookAt(fs.Image(), old(dir), old(name)) == File(old(View()).data))
        && (old(flags).trunc ==> LookAt(fs.Image(), old(dir), old(name)) == File(old(View()).data))
      ensures old(used) ==> (SomePathNames(fs.Image(), old(dir), old(name)) <==> old(dir) in old(fs.lay.depth))
    {
      hide SameLooks, StoreOutcome, StoreLog, AllOld, AllOldOrNew, StoreCode, SomePathNames, WF, Accounts, LookAt,
           CanStore, SameStamps, OneStampChanged;
      if !used { return -1; }
      ghost var d, n, d0, L0, leaked0 := dir, name, fs.Image(), fs.lay, fs.leaked;
      NamedInTree(fs.Image(), fs.lay, dir, name);
      if flags.write || flags.creat || flags.trunc {
        var data := if buf == null then [] else buf[..size];
        var code := fs.Store(dir, name, data, now);
        NamedInTree(fs.Image(), fs.lay, d, n);
        if code != OK { return -1; }
        if d in L0.depth { StoredInTree(d0, L0, leaked0, fs.Image(), fs.lay, fs.leaked, d, n, data); }
      }
      Clear();
      rc := 0;
    }

    /** A close after the directory that the file was opened in was removed, empty as it was: it succeeds
        whenever there is room, and the file is nowhere. */
    method RemoveAndClose(fs: FileSystem, parent: nat, leaf: string, now: nat) returns (rc: int)
      requires Valid() && used && (flags.write || flags.creat || flags.trunc)
      requires fs.Valid() && Apart(fs) && 1 <= |name| <= NAME_MAX
      requires parent in fs.lay.depth && dir != 0 && Child(fs.Image(), parent, leaf) == dir && EmptyDir(fs.Image(), dir)
      modifies this, fs, fs.disk, fs.blockMap, fs.blockMap.bytes
      ensures Valid() && fs.Valid() && OneLookChanged(old(fs.Image()), fs.Image(), parent, leaf, Missing)
      ensures rc == 0 <==> Room(|old(View()).data|, old(fs.Free()) + 1)
      ensures !SomePathNames(fs.Image(), old(dir), old(name))
      ensures rc == 0 ==> !used && old(fs.leaked) <= fs.leaked
      ensures rc == 0 ==> |fs.leaked - old(fs.leaked)| == BlocksFor(|old(View()).data|)
    {
      hide SameLooks, OneLookChanged, StoreOutcome, SomePathNames, CanStore, Room, LookAt, Stray, EmptyDir, Child,
           FileSystem.Valid;
      ghost var d0 := fs.Image();
      RemoveEmptyDir(fs, parent, leaf, dir, name, |View().data|);
      ghost var d1 := fs.Image();
      ghost var L1, leaked1, bytes := fs.lay, fs.leaked, View().data;
      ghost var b, n := dir, name;
      rc := Close(fs, now);
      if rc == 0 { StrayOutcome(d1, L1, leaked1, fs.Image(), fs.lay, fs.leaked, b, n, bytes); }
      LooksThen(d0, d1, fs.Image(), parent, leaf, Missing);
    }

    // ---------------------------------------------------------------- whole sessions

    /** Any run of reads, writes and seeks does to the descriptor what it does to the plain sequence,
        and reads the same bytes. */
    method RunOps(ops: seq<FdOp>) returns (outs: seq<seq<byte>>)
      requires Valid() && used && AllFit(View(), ops, flags)
      modifies this, buf
      ensures Valid() && used && flags == old(flags) && dir == old(dir) && name == old(name)
      ensures buf == old(buf) || fresh(buf)
      ensures (View(), outs) == Played(old(View()), ops, flags)
    {
      outs := [];
      ghost var v0 := View();
      ghost var rest := Played(v0, ops, flags).1;
      assert ops[0..] == ops && [] + rest == rest;
      for i := 0 to |ops|
        invariant Valid() && used && flags == old(flags) && dir == old(dir) && name == old(name)
        invariant buf == old(buf) || fresh(buf)
        invariant AllFit(View(), ops[i..], flags) && Remaining(v0, ops, flags, View(), i, outs)
      {
        ghost var v := View();
        assert ops[i..][0] == ops[i] && ops[i..][1..] == ops[i + 1..];
        var out := Do(ops[i]);
        RemainingStep(v0, ops, flags, v, i, outs);
        outs := outs + [out];
      }
      assert ops[|ops|..] == [] && outs + [] == outs;
    }

    method Do(op: FdOp) returns (out: seq<byte>)
      requires Valid() && used && Fits(View(), op)
      modifies this, buf
      ensures Valid() && used && flags == old(flags) && dir == old(dir) && name == old(name)
      ensures buf == old(buf) || fresh(buf)
      ensures (View(), out) == Play(old(View()), op, flags)
    {
      var rc;
      out := [];
      match op {
        case ReadOp(n) => rc, out := Read(n);
        case WriteOp(bytes) => rc := Write(bytes);
        case SeekOp(offset, whence) => rc := Seek(offset, whence);
      }
    }

    /** A run of operations on an open file, then a close and a fresh open for reading: the bytes that
        come back are those of the plain sequence after the run. */
    method WriteCloseReopen(fs: FileSystem, ops: seq<FdOp>, now: nat) returns (rc: int, data: seq<byte>)
      requires Valid() && used && AllFit(View(), ops, flags) && (flags.write || flags.creat || flags.trunc)
      requires fs.Valid() && Apart(fs) && dir in fs.lay.depth && 1 <= |name| <= NAME_MAX
      modifies this, buf, fs, fs.disk, fs.blockMap, fs.blockMap.bytes
      ensures Valid() && fs.Valid()
      ensures rc == 0 ==> data == Played(old(View()), ops, old(flags)).0.data
      ensures var n := |Played(old(View()), ops, old(flags)).0.data|;
        rc == 0 <==> CanStore(old(fs.Image()), old(dir), old(name), n, old(fs.Free()))
    {
      hide SameLooks, StoreOutcome, CanStore, LookAt, SizeAt, AllFit, Played, FileSystem.Valid, Stray;
      var outs := RunOps(ops);
      ghost var d0, L0, leaked0, final := fs.Image(), fs.lay, fs.leaked, View().data;
      var d, n := dir, name;
      rc := Close(fs, now);
      data := [];
      if rc == 0 {
        StoredInTree(d0, L0, leaked0, fs.Image(), fs.lay, fs.leaked, d, n, final);
        data := ReadBack(fs, d, n);
      }
    }

    /** Opens a file for reading and reads all of it. */
    method ReadBack(fs: FileSystem, d: nat, n: string) returns (data: seq<byte>)
      requires fs.Valid() && d in fs.lay.depth && LookAt(fs.Image(), d, n).File?
      requires SizeAt(fs.Image(), d, n) < MAX_OFFSET
      modifies this
      ensures Valid() && LookAt(fs.Image(), d, n) == File(data)
    {
      hide LookAt, SizeAt, FileSystem.Valid;
      var rc := Open(fs, d, n, Flags(true, false, false, false));
      rc, data := Read(size);
      assert data == View().data[0..|View().data|];
    }
  }
}
