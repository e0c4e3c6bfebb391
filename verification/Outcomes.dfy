/** When the operations on a name in a directory succeed and when they fail, told by what a reader sees: what
    the name is, whether a slot is free, and how many blocks are. */
module Outcomes {
  import opened DiskModel
  import opened TreeLemmas
  import opened TreeEdits
  import opened Paths
  import opened FsSteps
  import opened MoveSteps

  /** A directory block has an entry whose name is empty. */
  predicate FreeSlot(d: Disk, dir: nat) {
    IsDir(d, dir) && exists j :: 0 <= j < MAX_DIR_ENTRIES && d[dir].entries[j].name == ""
  }

  /** `free` blocks hold a file of `n` bytes; an empty file takes one, too. */
  predicate Room(n: nat, free: int) {
    free >= 1 && n <= free * FS_DATA_PAYLOAD
  }

  /** Some name in directory `dir` is something. */
  ghost predicate Populated(d: Disk, dir: nat) {
    exists name: string :: LookAt(d, dir, name) != Missing
  }

  /** A file can be stored under a name: it is no directory, and it has an entry or there is one free, and
      there is room. */
  predicate CanStore(d: Disk, dir: nat, leaf: string, n: nat, free: int) {
    && IsDir(d, dir) && LookAt(d, dir, leaf) != Directory && (LookAt(d, dir, leaf).File? || FreeSlot(d, dir))
    && Room(n, free)
  }

  predicate StoreEnds(d: Disk, dir: nat, leaf: string, n: nat, free: int, rc: int) {
    && (rc == OK <==> CanStore(d, dir, leaf, n, free))
    && (rc == ERR_NO_DIR <==> !IsDir(d, dir))
    && (rc == ERR_IS_DIR <==> LookAt(d, dir, leaf) == Directory)
    && (rc == ERR_FULL_DIR <==> IsDir(d, dir) && LookAt(d, dir, leaf) == Missing && !FreeSlot(d, dir))
    && (rc == ERR_NO_SPACE <==>
          IsDir(d, dir) && LookAt(d, dir, leaf) != Directory && (LookAt(d, dir, leaf).File? || FreeSlot(d, dir))
          && !Room(n, free))
  }

  ghost predicate RemoveEnds(d: Disk, dir: nat, leaf: string, rc: int) {
    && (rc == ERR_NOT_FOUND <==> LookAt(d, dir, leaf) == Missing)
    && (rc == ERR_NOT_EMPTY <==> LookAt(d, dir, leaf) == Directory && Populated(d, Child(d, dir, leaf)))
    && (rc == OK <==> LookAt(d, dir, leaf).File?
                      || (LookAt(d, dir, leaf) == Directory && !Populated(d, Child(d, dir, leaf))))
  }

  predicate MkdirEnds(d: Disk, dir: nat, leaf: string, free: int, rc: int) {
    && (rc == OK <==> LookAt(d, dir, leaf) != Missing || (FreeSlot(d, dir) && free > 0))
    && (rc == ERR_NO_DIR <==> LookAt(d, dir, leaf) == Missing && (!FreeSlot(d, dir) || free <= 0))
  }

  predicate LoadEnds(d: Disk, dir: nat, leaf: string, maxSize: nat, rc: int) {
    && (rc == OK <==> LookAt(d, dir, leaf).File? && SizeAt(d, dir, leaf) <= maxSize)
    && (rc == ERR_NOT_FOUND <==> !LookAt(d, dir, leaf).File?)
    && (rc == ERR_TOO_BIG <==> LookAt(d, dir, leaf).File? && SizeAt(d, dir, leaf) > maxSize)
  }

  /** The number of blocks is the least that holds the file. */
  lemma BlocksLeast(n: nat, free: int)
    ensures Room(n, BlocksFor(n)) && (Room(n, free) <==> free >= BlocksFor(n))
  {
  }

  lemma FreeSlotFound(d: Disk, dir: nat)
    requires IsDir(d, dir)
    ensures FreeSlot(d, dir) <==> FreeFrom(d[dir].entries, 0) >= 0
  {
    var f := FreeFrom(d[dir].entries, 0);
    if f >= 0 { assert d[dir].entries[f].name == ""; }
  }

  lemma StoreCodeMeans(d: Disk, dir: nat, leaf: string, n: nat, free: int)
    ensures StoreEnds(d, dir, leaf, n, free, if IsDir(d, dir) then StoreCode(d, dir, leaf, n, free) else ERR_NO_DIR)
  {
    if IsDir(d, dir) { FreeSlotFound(d, dir); }
    BlocksLeast(n, free);
    hide Room, FreeSlot, BlocksFor;
  }

  lemma EmptyUnpopulated(d: Disk, c: nat)
    requires IsDir(d, c)
    ensures EmptyDir(d, c) <==> !Populated(d, c)
  {
    var es := d[c].entries;
    if !EmptyDir(d, c) {
      var j :| 0 <= j < MAX_DIR_ENTRIES && es[j].name != "";
      assert Matches(es[j], es[j].name, ANY_TYPE);
      assert LookAt(d, c, es[j].name) != Missing;
    }
  }

  lemma RemoveCodeMeans(d: Disk, L: Layout, dir: nat, leaf: string)
    requires WF(d, L) && dir in L.depth
    ensures IsDir(d, dir) && RemoveEnds(d, dir, leaf, RemoveCode(d, dir, leaf))
  {
    ChildIsFound(d, L, dir, leaf);
    var i := Find(d[dir].entries, leaf, ANY_TYPE);
    if i >= 0 && d[dir].entries[i].typ == TYPE_DIR {
      FoundSlot(d, L, dir, leaf);
      EmptyUnpopulated(d, d[dir].entries[i].bno);
    }
    hide Populated, EmptyDir;
  }

  lemma MkdirCodeMeans(d: Disk, dir: nat, leaf: string, free: int)
    requires IsDir(d, dir) && free >= 0
    ensures MkdirEnds(d, dir, leaf, free, MkdirCode(d, dir, leaf, free))
  {
    FreeSlotFound(d, dir);
    hide FreeSlot;
  }

  lemma LoadCodeMeans(d: Disk, L: Layout, dir: nat, leaf: string, maxSize: nat)
    requires WF(d, L) && dir in L.depth
    ensures IsDir(d, dir) && LoadEnds(d, dir, leaf, maxSize, LoadCode(d, dir, leaf, maxSize))
  {
    LoadFindsTheFile(d, L, dir, leaf);
  }

  // ------------------------------------------------------------------ moves

  /** Where the entry goes: into the destination when that is a directory, under its own name. */
  function GoesTo(d: Disk, srcLeaf: string, dstDir: nat, dstLeaf: string): (nat, string) {
    if LookAt(d, dstDir, dstLeaf) == Directory then (Child(d, dstDir, dstLeaf), srcLeaf) else (dstDir, dstLeaf)
  }

  /** A directory is to go into a directory that is itself or less than 64 levels below it. */
  ghost predicate SeenIntoItself(d: Disk, L: Layout, srcDir: nat, srcLeaf: string, dstDir: nat, dstLeaf: string) {
    && LookAt(d, srcDir, srcLeaf) == Directory && LookAt(d, dstDir, dstLeaf) == Directory
    && var c, y := Child(d, srcDir, srcLeaf), Child(d, dstDir, dstLeaf);
       c in L.depth && y in L.depth && Below(d, c, y) && L.depth[y] < L.depth[c] + 64
  }

  ghost predicate MoveEnds(d: Disk, L: Layout, srcDir: nat, srcLeaf: string, dstDir: nat, dstLeaf: string, rc: int) {
    var (b, n) := GoesTo(d, srcLeaf, dstDir, dstLeaf);
    var there, missing := LookAt(d, b, n), LookAt(d, srcDir, srcLeaf) == Missing;
    var seen := SeenIntoItself(d, L, srcDir, srcLeaf, dstDir, dstLeaf);
    if (srcDir, srcLeaf) == (dstDir, dstLeaf) then rc == OK
    else
      && (rc == ERR_NO_SOURCE <==> missing)
      && (rc == ERR_INTO_ITSELF <==> seen)
      && (rc == ERR_EXISTS <==> !missing && !seen && there != Missing && (b, n) != (srcDir, srcLeaf))
      && (rc == ERR_TARGET_FULL <==> !missing && !seen && there == Missing && b != srcDir && !FreeSlot(d, b))
      && (rc == OK <==> !missing && !seen
                        && ((b, n) == (srcDir, srcLeaf) || (there == Missing && (b == srcDir || FreeSlot(d, b)))))
  }

  /** A name is a directory when its slot is one, and then its block is the name's child. */
  lemma NameLook(d: Disk, L: Layout, dir: nat, leaf: string)
    requires WF(d, L) && dir in L.depth
    ensures var i := Find(d[dir].entries, leaf, ANY_TYPE);
      && (LookAt(d, dir, leaf) == Missing <==> i < 0)
      && (LookAt(d, dir, leaf) == Directory <==> i >= 0 && d[dir].entries[i].typ == TYPE_DIR)
      && (LookAt(d, dir, leaf) == Directory ==>
            d[dir].entries[i].bno == Child(d, dir, leaf) && DirSlot(d, Slot(dir, i)) && Child(d, dir, leaf) in L.depth)
  {
    ChildIsFound(d, L, dir, leaf);
    if Find(d[dir].entries, leaf, ANY_TYPE) >= 0 { FoundSlot(d, L, dir, leaf); }
  }

  lemma TargetCodeMeans(d: Disk, L: Layout, srcDir: nat, srcLeaf: string, b: nat, n: string)
    requires WF(d, L) && srcDir in L.depth && b in L.depth && LookAt(d, srcDir, srcLeaf) != Missing
    ensures IsDir(d, b)
    ensures var rc := TargetCode(d, srcDir, Find(d[srcDir].entries, srcLeaf, ANY_TYPE), b, n);
      && (rc == ERR_EXISTS <==> LookAt(d, b, n) != Missing && (b, n) != (srcDir, srcLeaf))
      && (rc == ERR_TARGET_FULL <==> LookAt(d, b, n) == Missing && b != srcDir && !FreeSlot(d, b))
      && (rc == OK <==> (b, n) == (srcDir, srcLeaf) || (LookAt(d, b, n) == Missing && (b == srcDir || FreeSlot(d, b))))
  {
    FreeSlotFound(d, b);
    hide FreeSlot;
  }

  lemma MoveCodeMeans(d: Disk, L: Layout, srcDir: nat, srcLeaf: string, dstDir: nat, dstLeaf: string)
    requires WF(d, L) && srcDir in L.depth && dstDir in L.depth
    ensures MoveEnds(d, L, srcDir, srcLeaf, dstDir, dstLeaf, MoveCode(d, L, srcDir, srcLeaf, dstDir, dstLeaf))
  {
    NameLook(d, L, srcDir, srcLeaf);
    NameLook(d, L, dstDir, dstLeaf);
    if (srcDir, srcLeaf) != (dstDir, dstLeaf) {
      MoveCodeCases(d, L, srcDir, srcLeaf, dstDir, dstLeaf);
      var (b, n) := GoesTo(d, srcLeaf, dstDir, dstLeaf);
      if LookAt(d, srcDir, srcLeaf) != Missing { TargetCodeMeans(d, L, srcDir, srcLeaf, b, n); }
    }
    hide WF, LookAt, TargetCode, Below, FreeSlot;
  }

  // ------------------------------------------------------------------ the times and modes of entries

  /** When an entry was made and last changed, and its mode. */
  datatype Stamp = NoStamp | Stamp(ctime: nat, mtime: nat, mode: nat)

  function StampOf(e: Entry): Stamp { Stamp(e.ctime, e.mtime, e.mode) }

  function StampAt(d: Disk, b: nat, leaf: string): Stamp {
    if !IsDir(d, b) then NoStamp
    else
      var i := Find(d[b].entries, leaf, ANY_TYPE);
      if i < 0 then NoStamp else StampOf(d[b].entries[i])
  }

  /** In the directories of `L` only the stamp of `leaf` in `dir` differs; it is `st`. */
  ghost predicate OneStampChanged(d0: Disk, d1: Disk, L: Layout, dir: nat, leaf: string, st: Stamp) {
    forall b: nat, n: string {:trigger StampAt(d1, b, n)} :: b in L.depth ==>
      StampAt(d1, b, n) == if b == dir && n == leaf then st else StampAt(d0, b, n)
  }

  ghost predicate SameStamps(d0: Disk, d1: Disk, L: Layout) {
    forall b: nat, n: string {:trigger StampAt(d1, b, n)} :: b in L.depth ==> StampAt(d1, b, n) == StampAt(d0, b, n)
  }

  /** Slot `s` has a new entry, and nothing else in the directories of `L` has changed. */
  ghost predicate EntryWritten(d0: Disk, d1: Disk, L: Layout, s: Slot, e: Entry) {
    && IsDir(d0, s.dir) && IsDir(d1, s.dir) && s.idx < MAX_DIR_ENTRIES
    && d1[s.dir].entries == d0[s.dir].entries[s.idx := e]
    && forall b :: b in L.depth && b != s.dir ==> b < |d0| && b < |d1| && d1[b] == d0[b]
  }

  /** How the entry of one name is found after a slot was written. */
  lemma FindAfter(es: seq<Entry>, i: nat, e: Entry, n: string)
    requires i < |es| && UniqueNames(es) && UniqueNames(es[i := e])
    ensures e.name != "" ==> Find(es[i := e], e.name, ANY_TYPE) == i
    ensures n != e.name && n != es[i].name ==>
      Find(es[i := e], n, ANY_TYPE) == Find(es, n, ANY_TYPE) && Find(es, n, ANY_TYPE) != i
    ensures n == es[i].name && n != e.name ==> Find(es[i := e], n, ANY_TYPE) < 0
  {
    var now := es[i := e];
    if e.name != "" { FindOnly(now, i, ANY_TYPE); }
    var r, q := Find(es, n, ANY_TYPE), Find(now, n, ANY_TYPE);
    if n != e.name && n != es[i].name {
      if q >= 0 { assert !Matches(now[i], n, ANY_TYPE) && Matches(es[q], n, ANY_TYPE); }
      if r >= 0 { assert !Matches(es[i], n, ANY_TYPE) && Matches(now[r], n, ANY_TYPE); }
    }
  }

  /** What the times and modes are after a slot was written. */
  lemma StampsAfter(d0: Disk, d1: Disk, L: Layout, s: Slot, e: Entry)
    requires EntryWritten(d0, d1, L, s, e) && DirBlockOk(d0[s.dir]) && DirBlockOk(d1[s.dir])
    ensures var was := d0[s.dir].entries[s.idx].name;
      forall b: nat, n: string {:trigger StampAt(d1, b, n)} :: b in L.depth ==>
        StampAt(d1, b, n) == if b == s.dir && n == e.name != "" then StampOf(e)
                             else if b == s.dir && n == was then NoStamp
                             else StampAt(d0, b, n)
  {
    forall b: nat, n: string | b in L.depth
      ensures StampAt(d1, b, n) == if b == s.dir && n == e.name != "" then StampOf(e)
                                   else if b == s.dir && n == d0[s.dir].entries[s.idx].name then NoStamp
                                   else StampAt(d0, b, n)
    {
      if b == s.dir { FindAfter(d0[b].entries, s.idx, e, n); }
    }
  }

  /** The stamp a stored file's entry gets: a replaced entry's time of making stays. */
  function StoredStamp(d: Disk, dir: nat, leaf: string, now: nat): Stamp {
    match StampAt(d, dir, leaf)
    case NoStamp => Stamp(now, now, 7)
    case Stamp(ctime, _, _) => Stamp(ctime, now, 7)
  }

  /** Slot `s` now holds `leaf` with stamp `st`, and nothing else in the directories of `L` has changed. */
  ghost predicate Stored(d0: Disk, d1: Disk, L: Layout, s: Slot, leaf: string, st: Stamp) {
    && IsDir(d1, s.dir) && s.idx < MAX_DIR_ENTRIES
    && var e := d1[s.dir].entries[s.idx]; EntryWritten(d0, d1, L, s, e) && e.name == leaf && StampOf(e) == st
  }

  lemma StoredStamps(d0: Disk, L0: Layout, d1: Disk, L1: Layout, s: Slot, leaf: string, st: Stamp)
    requires WF(d0, L0) && WF(d1, L1) && s.dir in L0.depth && s.dir in L1.depth && SlotFor(d0, s, leaf) && leaf != ""
    requires Stored(d0, d1, L0, s, leaf, st)
    ensures OneStampChanged(d0, d1, L0, s.dir, leaf, st)
  {
    assert DirBlockOk(d0[s.dir]) && DirBlockOk(d1[s.dir]);
    StampsAfter(d0, d1, L0, s, d1[s.dir].entries[s.idx]);
  }

  /** Blocks outside the directories of `L` say nothing about stamps. */
  lemma StampsKept(d0: Disk, d1: Disk, L: Layout, used: set<nat>)
    requires Agree(d0, d1, used) && Reach(L) <= used
    ensures SameStamps(d0, d1, L)
  {
  }

  /** The directory block that was `dirBlock` is written with entry `e` in slot `s`. */
  predicate DirWritten(d1: Disk, d2: Disk, s: Slot, dirBlock: Block, e: Entry) {
    && s.dir < |d1| && dirBlock.Dir? && s.idx < MAX_DIR_ENTRIES
    && d2 == d1[s.dir := Dir(dirBlock.parent, dirBlock.entries[s.idx := e])]
  }

  /** The slot written by a store: nothing before it touched the directories. */
  lemma StoredAfter(d0: Disk, d1: Disk, d2: Disk, L: Layout, leaked: set<nat>, used: set<nat>, s: Slot, dirBlock: Block,
                    e: Entry)
    requires WF(d0, L) && Accounts(used, Reach(L), leaked) && Agree(d0, d1, used)
    requires IsDir(d0, s.dir) && s.dir < |d0| && d0[s.dir] == dirBlock && DirWritten(d1, d2, s, dirBlock, e)
    ensures Stored(d0, d2, L, s, e.name, StampOf(e))
  {
    ReachIsUsed(used, L, leaked);
    DirsOnDisk(d0, L);
    hide WF, Accounts;
  }

  lemma DirsOnDisk(d: Disk, L: Layout)
    requires WF(d, L)
    ensures forall b :: b in L.depth ==> b < |d|
  {
  }

  /** What a store does to the stamps, told of the directories after it. */
  lemma StoreStamps(d0: Disk, L0: Layout, d1: Disk, L1: Layout, s: Slot, leaf: string, ctime: nat, now: nat)
    requires WF(d0, L0) && WF(d1, L1) && s.dir in L0.depth && L1.depth == L0.depth && SlotFor(d0, s, leaf) && leaf != ""
    requires Stored(d0, d1, L0, s, leaf, Stamp(ctime, now, 7)) && IsDir(d0, s.dir)
    requires var i := Find(d0[s.dir].entries, leaf, ANY_TYPE);
      ctime == if i >= 0 then d0[s.dir].entries[i].ctime else now
    ensures OneStampChanged(d0, d1, L1, s.dir, leaf, StoredStamp(d0, s.dir, leaf, now))
  {
    StoredStamps(d0, L0, d1, L1, s, leaf, Stamp(ctime, now, 7));
    hide WF, Stored, SlotFor;
  }

  /** A cleared entry has no stamp, and no other has changed. */
  lemma ClearedStamps(d0: Disk, L0: Layout, d1: Disk, L1: Layout, s: Slot)
    requires WF(d0, L0) && s.dir in L0.depth && L1.depth.Keys <= L0.depth.Keys && InUse(d0, s)
    requires d1 == d0[s.dir := Dir(d0[s.dir].parent, d0[s.dir].entries[s.idx := FREE])]
    ensures OneStampChanged(d0, d1, L1, s.dir, At(d0, s).name, NoStamp)
  {
    assert DirBlockOk(d0[s.dir]);
    StampsAfter(d0, d1, L1, s, FREE);
  }

  lemma MkdirStamps(d0: Disk, L0: Layout, d1: Disk, d2: Disk, d3: Disk, L3: Layout, s: Slot, e: Entry)
    requires WF(d0, L0) && WF(d3, L3) && MkdirWrites(d0, L0, d1, d2, d3, s, e) && L0.depth.Keys <= L3.depth.Keys
    ensures OneStampChanged(d0, d3, L0, s.dir, e.name, StampOf(e))
  {
    assert DirBlockOk(d0[s.dir]) && DirBlockOk(d3[s.dir]);
    StampsAfter(d0, d3, L0, s, e);
  }

  // ------------------------------------------------------------------ the stamps of a move

  /** The stamp of name `n1` of `b1` went, changed to `st`, to name `n2` of `b2`. */
  ghost predicate StampMoved(d0: Disk, d1: Disk, L: Layout, b1: nat, n1: string, b2: nat, n2: string, st: Stamp) {
    forall b: nat, n: string {:trigger StampAt(d1, b, n)} :: b in L.depth ==>
      StampAt(d1, b, n) == if b == b2 && n == n2 then st else if b == b1 && n == n1 then NoStamp else StampAt(d0, b, n)
  }

  /** The time of the last change is the move's. */
  function MovedStamp(d: Disk, dir: nat, leaf: string, now: nat): Stamp {
    match StampAt(d, dir, leaf)
    case NoStamp => NoStamp
    case Stamp(ctime, _, mode) => Stamp(ctime, now, mode)
  }

  lemma FoundStamp(d: Disk, L: Layout, s: Slot)
    requires WF(d, L) && s.dir in L.depth && InUse(d, s)
    ensures DirBlockOk(d[s.dir]) && StampAt(d, s.dir, At(d, s).name) == StampOf(At(d, s))
  {
    assert DirBlockOk(d[s.dir]);
    FindOnly(d[s.dir].entries, s.idx, ANY_TYPE);
  }

  lemma RenameStamps(d0: Disk, L: Layout, d1: Disk, s: Slot, e: Entry, now: nat)
    requires WF(d0, L) && WF(d1, L) && s.dir in L.depth && InUse(d0, s) && e.name != ""
    requires e == At(d0, s).(name := e.name, mtime := now)
    requires d1 == d0[s.dir := Dir(d0[s.dir].parent, d0[s.dir].entries[s.idx := e])]
    ensures StampMoved(d0, d1, L, s.dir, At(d0, s).name, s.dir, e.name, MovedStamp(d0, s.dir, At(d0, s).name, now))
  {
    FoundStamp(d0, L, s);
    assert DirBlockOk(d1[s.dir]);
    StampsAfter(d0, d1, L, s, e);
  }

  /** One slot is cleared, another one written, and the parent pointer of a directory changed. */
  lemma TransferStamps(d0: Disk, L: Layout, d1: Disk, d2: Disk, d3: Disk, s: Slot, t: Slot, e: Entry, now: nat)
    requires WF(d0, L) && MoveWrites(d0, L, d1, d2, d3, s, t, e)
    requires e == At(d0, s).(name := e.name, mtime := now)
    ensures StampMoved(d0, d3, L, s.dir, At(d0, s).name, t.dir, e.name, MovedStamp(d0, s.dir, At(d0, s).name, now))
  {
    FoundStamp(d0, L, s);
    DirsOnDisk(d0, L);
    assert DirBlockOk(d0[t.dir]);
    StampsAfter(d0, d1, L, s, FREE);
    StampsAfter(d1, d2, L, t, e);
    ParentNoStamp(d2, d3, L, t.dir, e);
    hide WF, DirBlockOk, EntryWritten, NameFree;
  }

  /** A directory's parent pointer is not part of any stamp. */
  lemma ParentNoStamp(d2: Disk, d3: Disk, L: Layout, b: nat, e: Entry)
    requires d3 == if e.typ == TYPE_DIR && IsDir(d2, e.bno) then d2[e.bno := Dir(b, d2[e.bno].entries)] else d2
    ensures SameStamps(d2, d3, L)
  {
  }
}
