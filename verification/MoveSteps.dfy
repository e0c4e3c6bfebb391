/** What the writes of a move establish: the new tree, what every path means in it, and what a crash
    between the writes leaves. */
module MoveSteps {
  import opened DiskModel
  import opened Sequences
  import opened TreeLemmas
  import opened TreeEdits
  import opened Paths
  import opened TreeMoves
  import opened TreeLoss
  import opened FsSteps

  const ERR_NO_SOURCE: int := -3
  const ERR_EXISTS: int := -4
  const ERR_TARGET_FULL: int := -5
  const ERR_INTO_ITSELF: int := -6
  /** How far up the tree the check for a move into a subtree looks. */
  const ANCESTOR_GUARD: nat := 64

  /** Where a move puts the entry: inside the destination when that names a directory. */
  function MoveTarget(d: Disk, srcLeaf: string, dstDir: nat, dstLeaf: string): (nat, string)
    requires IsDir(d, dstDir)
  {
    var j := Find(d[dstDir].entries, dstLeaf, ANY_TYPE);
    if j >= 0 && d[dstDir].entries[j].typ == TYPE_DIR then (d[dstDir].entries[j].bno, srcLeaf) else (dstDir, dstLeaf)
  }

  /** Entry `n1` of `b1` became entry `n2` of `b2`, with everything below it, for every path. */
  ghost predicate MovedPaths(d0: Disk, d1: Disk, b1: nat, n1: string, b2: nat, n2: string) {
    forall u: seq<string>, w: seq<string> {:trigger Names(d0, u, b1, n1), Names(d0, w, b2, n2)} ::
      |u| >= 1 && |w| >= 1 && Names(d0, u, b1, n1) && Names(d0, w, b2, n2) ==> Renamed(d0, d1, u, w)
  }

  /** Entry `n` of `b` and everything below it is gone; every other path reads as before. */
  ghost predicate Vanished(d0: Disk, d1: Disk, b: nat, n: string) {
    forall u: seq<string>, r: seq<string> {:trigger Names(d0, u, b, n), Look(d1, r)} ::
      |u| >= 1 && |r| >= 1 && Names(d0, u, b, n) ==> Look(d1, r) == if u <= r then Missing else Look(d0, r)
  }

  /** The blocks a lost subtree held. */
  ghost function LostBlocks(d: Disk, L: Layout, c: nat): set<nat> {
    Reach(L) - Reach(Detach(d, L, c))
  }

  lemma LostAccounts(marked: set<nat>, reach: set<nat>, leaked: set<nat>, kept: set<nat>)
    requires Accounts(marked, reach, leaked) && kept <= reach && ROOT in kept
    requires forall x :: x in reach && x != ROOT ==> RESERVED <= x
    ensures Accounts(marked, kept, leaked + (reach - kept))
  {
  }

  lemma ReachReserved(d: Disk, L: Layout, x: nat)
    requires WF(d, L) && x in Reach(L) && x != ROOT
    ensures RESERVED <= x < |d|
  {
    if x in L.own {
      assert OwnOk(L, x);
      assert ChainOk(d, L, L.own[x].slot);
    }
  }

  // ------------------------------------------------------------------ renaming in one directory

  ghost predicate RenameWrite(d0: Disk, L0: Layout, d1: Disk, s: Slot, e: Entry) {
    && s.dir in L0.depth && InUse(d0, s) && 1 <= |e.name| <= NAME_MAX && NameFree(d0, s, e.name)
    && e.bno == At(d0, s).bno && e.typ == At(d0, s).typ && e.size == At(d0, s).size
    && d1 == d0[s.dir := Dir(d0[s.dir].parent, d0[s.dir].entries[s.idx := e])]
  }

  lemma RenameFacts(d0: Disk, L0: Layout, d1: Disk, s: Slot, e: Entry)
    requires WF(d0, L0) && RenameWrite(d0, L0, d1, s, e)
    ensures WF(d1, L0)
    ensures if e.name == At(d0, s).name then SameLooks(d0, d1)
            else MovedPaths(d0, d1, s.dir, At(d0, s).name, s.dir, e.name)
  {
    assert Relabelled(d0, L0, d1, s, e);
    RelabelledWF(d0, L0, d1, s, e);
    if e.name == At(d0, s).name {
      forall path: seq<string> | |path| >= 1
        ensures Look(d1, path) == Look(d0, path)
      {
        RetouchedLook(d0, L0, d1, s, e, path);
      }
    } else {
      RelabelledMoved(d0, L0, d1, s, e);
      MovedForAll(d0, L0, d1, L0, s.dir, At(d0, s).name, s.dir, e.name);
    }
  }

  lemma MovedForAll(d0: Disk, L0: Layout, d1: Disk, L1: Layout, b1: nat, n1: string, b2: nat, n2: string)
    requires Moved(d0, L0, d1, L1, b1, n1, b2, n2)
    ensures MovedPaths(d0, d1, b1, n1, b2, n2)
  {
    hide Moved, Renamed;
    forall u: seq<string>, w: seq<string> | |u| >= 1 && |w| >= 1 && Names(d0, u, b1, n1) && Names(d0, w, b2, n2)
      ensures Renamed(d0, d1, u, w)
    {
      MovedMeansRenamed(d0, L0, d1, L1, b1, n1, b2, n2, u, w);
    }
  }

  // ------------------------------------------------------------------ moving to another directory

  /** The writes of a move: the source directory without the entry, the destination directory with
      it, and for a directory its own block with the new parent. */
  ghost predicate MoveWrites(d0: Disk, L0: Layout, d1: Disk, d2: Disk, d3: Disk, s: Slot, t: Slot, e: Entry) {
    && s.dir in L0.depth && t.dir in L0.depth && s.dir != t.dir && InUse(d0, s)
    && IsDir(d0, t.dir) && t.idx < MAX_DIR_ENTRIES && !InUse(d0, t)
    && 1 <= |e.name| <= NAME_MAX && NameFree(d0, t, e.name)
    && e.bno == At(d0, s).bno && e.typ == At(d0, s).typ && e.size == At(d0, s).size
    && d1 == d0[s.dir := Dir(d0[s.dir].parent, d0[s.dir].entries[s.idx := FREE])]
    && d2 == d1[t.dir := Dir(d0[t.dir].parent, d0[t.dir].entries[t.idx := e])]
    && d3 == if e.typ == TYPE_DIR && IsDir(d2, e.bno) then d2[e.bno := Dir(t.dir, d2[e.bno].entries)] else d2
  }

  lemma MoveRewires(d0: Disk, L0: Layout, d1: Disk, d2: Disk, d3: Disk, s: Slot, t: Slot, e: Entry)
    requires WF(d0, L0) && MoveWrites(d0, L0, d1, d2, d3, s, t, e) && !MovesIntoItself(d0, s, t.dir)
    ensures Rewired(d0, L0, d3, s, t, e)
    ensures FileSlot(d0, s) ==> forall y :: y in L0.depth ==> d3[y].parent == d0[y].parent
    ensures DirSlot(d0, s) ==> DirRewired(d0, L0, d3, s, t, e)
  {
    if DirSlot(d0, s) {
      assert DownOk(d0, L0, s);
      NotBelowOwnChild(d0, L0, s);
      BelowSelf(d0, e.bno);
    }
    MoveKeepsOwn(d0, L0, d1, d2, d3, s, t, e);
    MoveKeepsEntries(d0, L0, d1, d2, d3, s, t, e);
    hide WF, Below, NameFree, DirSlot;
  }

  /** The entries after the writes of a move outside the moved directory, and who points up to whom. */
  lemma MoveKeepsEntries(d0: Disk, L0: Layout, d1: Disk, d2: Disk, d3: Disk, s: Slot, t: Slot, e: Entry)
    requires WF(d0, L0) && MoveWrites(d0, L0, d1, d2, d3, s, t, e)
    requires DirSlot(d0, s) ==> e.bno in L0.depth && e.bno != s.dir && e.bno != t.dir
    ensures |d3| == |d0| && forall y :: y in L0.depth ==> IsDir(d0, y) && IsDir(d3, y)
    ensures forall y :: y in L0.depth && y != s.dir && y != t.dir ==> d3[y].entries == d0[y].entries
    ensures d3[s.dir].entries == d0[s.dir].entries[s.idx := FREE] && d3[t.dir].entries == d0[t.dir].entries[t.idx := e]
    ensures forall y :: y in L0.depth ==> d3[y].parent == if DirSlot(d0, s) && y == e.bno then t.dir else d0[y].parent
  {
    hide TreeOk, ChainsOk, NameFree;
  }

  /** The writes of a move touch no block of a chain. */
  lemma MoveKeepsOwn(d0: Disk, L0: Layout, d1: Disk, d2: Disk, d3: Disk, s: Slot, t: Slot, e: Entry)
    requires WF(d0, L0) && MoveWrites(d0, L0, d1, d2, d3, s, t, e)
    ensures forall x :: x in L0.own && x < |d0| ==> d3[x] == d0[x]
  {
    assert DirSlot(d0, s) ==> DownOk(d0, L0, s);
    forall x | x in L0.own && x < |d0|
      ensures d3[x] == d0[x]
    {
      assert OwnOk(L0, x);
    }
  }

  lemma MoveFileFacts(d0: Disk, L0: Layout, d1: Disk, d2: Disk, d3: Disk, s: Slot, t: Slot, e: Entry)
    requires WF(d0, L0) && MoveWrites(d0, L0, d1, d2, d3, s, t, e) && FileSlot(d0, s)
    ensures s in L0.chain && Distinct(L0.chain[s])
    ensures WF(d3, MoveFile(L0, s, t)) && Reach(MoveFile(L0, s, t)) == Reach(L0)
    ensures MovedPaths(d0, d3, s.dir, At(d0, s).name, t.dir, e.name)
    ensures WellFormed(d1) && Vanished(d0, d1, s.dir, At(d0, s).name)
  {
    MoveRewires(d0, L0, d1, d2, d3, s, t, e);
    hide WF, MoveWrites, MovedPaths, Rewired, Vanished;
    MoveFileWF(d0, L0, d3, s, t, e);
    MoveFileMoved(d0, L0, d3, s, t, e);
    MovedForAll(d0, L0, d3, MoveFile(L0, s, t), s.dir, At(d0, s).name, t.dir, e.name);
    FileWindow(d0, L0, d1, d2, d3, s, t, e);
  }

  /** Between the first two writes of a move the entry is in neither directory. */
  lemma FileWindow(d0: Disk, L0: Layout, d1: Disk, d2: Disk, d3: Disk, s: Slot, t: Slot, e: Entry)
    requires WF(d0, L0) && MoveWrites(d0, L0, d1, d2, d3, s, t, e) && FileSlot(d0, s)
    ensures WellFormed(d1) && Vanished(d0, d1, s.dir, At(d0, s).name)
  {
    var n := At(d0, s).name;
    assert SlotCleared(d0, L0, d1, s);
    DropFileWF(d0, L0, d1, s);
    hide WF, MoveWrites, SlotCleared, Look;
    forall u: seq<string>, r: seq<string> | |u| >= 1 && |r| >= 1 && Names(d0, u, s.dir, n)
      ensures Look(d1, r) == if u <= r then Missing else Look(d0, r)
    {
      DropFileLook(d0, L0, d1, s, r);
      if Names(d0, r, s.dir, n) {
        PathUnique(d0, L0, r, u);
      } else if u <= r {
        assert |u| == |r| ==> u == r;
        BelowFile(d0, L0, s, u, r);
      }
    }
  }

  /** Nothing is below a file. */
  lemma BelowFile(d: Disk, L: Layout, s: Slot, u: seq<string>, r: seq<string>)
    requires WF(d, L) && s.dir in L.depth && FileSlot(d, s) && 1 <= |u| < |r| && u <= r
    requires Names(d, u, s.dir, At(d, s).name)
    ensures Look(d, r) == Missing
  {
    var q := r[|u|..];
    assert r == u + q;
    LookConcat(d, u, q);
    assert DirBlockOk(d[s.dir]);
    var es := d[s.dir].entries;
    assert forall j :: 0 <= j < |es| && es[j].name == es[s.idx].name ==> j == s.idx;
    assert Child(d, s.dir, es[s.idx].name) == 0;
  }

  lemma MoveDirFacts(d0: Disk, L0: Layout, d1: Disk, d2: Disk, d3: Disk, s: Slot, t: Slot, e: Entry)
    requires WF(d0, L0) && MoveWrites(d0, L0, d1, d2, d3, s, t, e) && DirSlot(d0, s) && !Below(d0, e.bno, t.dir)
    ensures e.bno in L0.depth
    ensures WF(d3, MoveDir(d0, L0, e.bno, t)) && Reach(MoveDir(d0, L0, e.bno, t)) == Reach(L0)
    ensures MovedPaths(d0, d3, s.dir, At(d0, s).name, t.dir, e.name)
  {
    MoveRewires(d0, L0, d1, d2, d3, s, t, e);
    hide WF, MoveWrites, MovedPaths;
    MoveDirWF(d0, L0, d3, s, t, e);
    MoveDirMoved(d0, L0, d3, s, t, e);
    MovedForAll(d0, L0, d3, MoveDir(d0, L0, e.bno, t), s.dir, At(d0, s).name, t.dir, e.name);
  }

  /** What clearing a directory's entry loses; true of the image between the first two writes. */
  lemma DirWindow(d0: Disk, L0: Layout, d1: Disk, d2: Disk, d3: Disk, s: Slot, t: Slot, e: Entry)
    requires WF(d0, L0) && MoveWrites(d0, L0, d1, d2, d3, s, t, e) && DirSlot(d0, s)
    ensures WellFormed(d1) && Vanished(d0, d1, s.dir, At(d0, s).name)
  {
    assert CutOff(d0, L0, d1, s);
    CutOffFacts(d0, L0, d1, s);
  }

  lemma CutOffFacts(d0: Disk, L0: Layout, d1: Disk, s: Slot)
    requires WF(d0, L0) && CutOff(d0, L0, d1, s)
    ensures WF(d1, Detach(d0, L0, At(d0, s).bno)) && Vanished(d0, d1, s.dir, At(d0, s).name)
    ensures Reach(Detach(d0, L0, At(d0, s).bno)) <= Reach(L0)
  {
    hide WF, Detach, Look, Names;
    CutOffWF(d0, L0, d1, s);
    forall u: seq<string>, r: seq<string> | |u| >= 1 && |r| >= 1 && Names(d0, u, s.dir, At(d0, s).name)
      ensures Look(d1, r) == if u <= r then Missing else Look(d0, r)
    {
      CutOffLook(d0, L0, d1, s, u, r);
    }
  }

  /** A move of a directory into its own subtree: the subtree is cut off from the root, and its
      blocks stay marked with nothing reaching them. */
  lemma IntoItselfFacts(d0: Disk, L0: Layout, marked: set<nat>, leaked: set<nat>,
                        d1: Disk, d2: Disk, d3: Disk, s: Slot, t: Slot, e: Entry)
    requires WF(d0, L0) && MoveWrites(d0, L0, d1, d2, d3, s, t, e) && DirSlot(d0, s) && Below(d0, e.bno, t.dir)
    requires Accounts(marked, Reach(L0), leaked)
    ensures WF(d3, Detach(d0, L0, e.bno)) && Vanished(d0, d3, s.dir, At(d0, s).name)
    ensures Accounts(marked, Reach(Detach(d0, L0, e.bno)), leaked + LostBlocks(d0, L0, e.bno))
    ensures e.bno in LostBlocks(d0, L0, e.bno)
    ensures WellFormed(d2) && Vanished(d0, d2, s.dir, At(d0, s).name)
  {
    var c := e.bno;
    assert DownOk(d0, L0, s);
    NotBelowOwnChild(d0, L0, s);
    BelowSelf(d0, c);
    IntoItselfCutsOff(d0, L0, d1, d2, d3, s, t, e);
    CutOffFacts(d0, L0, d2, s);
    CutOffFacts(d0, L0, d3, s);
    assert forall x :: x in L0.own ==> OwnOk(L0, x);
    forall x | x in Reach(L0) && x != ROOT
      ensures RESERVED <= x
    {
      ReachReserved(d0, L0, x);
    }
    RootNotBelow(d0, L0, c);
    LostAccounts(marked, Reach(L0), leaked, Reach(Detach(d0, L0, c)));
  }

  lemma IntoItselfCutsOff(d0: Disk, L0: Layout, d1: Disk, d2: Disk, d3: Disk, s: Slot, t: Slot, e: Entry)
    requires WF(d0, L0) && MoveWrites(d0, L0, d1, d2, d3, s, t, e) && DirSlot(d0, s) && Below(d0, e.bno, t.dir)
    requires e.bno in L0.depth && Below(d0, e.bno, e.bno) && !Below(d0, e.bno, s.dir)
    ensures CutOff(d0, L0, d2, s) && CutOff(d0, L0, d3, s)
  {
    forall x | x in Reach(Detach(d0, L0, e.bno)) && x != s.dir && x < |d0|
      ensures d2[x] == d0[x] && d3[x] == d0[x]
    {
      assert x in L0.own ==> OwnOk(L0, x);
    }
  }

  // ------------------------------------------------------------------ what a crash between the writes leaves

  /** A directory outside `c` keeps its distance from the root when every entry but the one that heads
      `c` stays. */
  lemma {:induction false} StillReachedOutside(d0: Disk, L0: Layout, d1: Disk, c: nat, b: nat)
    requires WF(d0, L0) && c in L0.depth && b in L0.depth && !Below(d0, c, b)
    requires forall z: Slot :: z.dir in L0.depth && DirSlot(d0, z) && At(d0, z).bno != c ==>
      DirSlot(d1, z) && At(d1, z) == At(d0, z)
    ensures DirReach(d1, b, L0.depth[b])
    decreases L0.depth[b]
  {
    BelowSelf(d0, c);
    if b != ROOT {
      assert UpOk(d0, L0, b);
      BelowParent(d0, L0, c, b);
      var z := Slot(d0[b].parent, L0.up[b]);
      StillReachedOutside(d0, L0, d1, c, z.dir);
      assert DirReach(d1, z.dir, L0.depth[b] - 1) && DirSlot(d1, z) && At(d1, z).bno == b;
    }
  }

  /** Between the second and the third write of a directory's move its new directory heads it while it
      still points back to the old one: no layout certifies that image. */
  lemma ParentWindow(d0: Disk, L0: Layout, d1: Disk, d2: Disk, d3: Disk, s: Slot, t: Slot, e: Entry)
    requires WF(d0, L0) && MoveWrites(d0, L0, d1, d2, d3, s, t, e) && DirSlot(d0, s) && !Below(d0, e.bno, t.dir)
    ensures !WellFormed(d2)
  {
    hide ChainsOk, Below;
    assert DownOk(d0, L0, s);
    NotBelowOwnChild(d0, L0, s);
    BelowSelf(d0, e.bno);
    if L :| WF(d2, L) {
      StillReachedOutside(d0, L0, d2, e.bno, t.dir);
      ReachedHasDepth(d2, L, t.dir, L0.depth[t.dir]);
      DirSlotHeadsDir(d2, L, t);
    }
  }

  // ------------------------------------------------------------------ the decision

  /** The guarded check sees a move into the moved directory only this far down. */
  ghost predicate SeenInside(d: Disk, L: Layout, c: nat, y: nat)
    requires c in L.depth && y in L.depth
  {
    Below(d, c, y) && L.depth[y] - L.depth[c] < ANCESTOR_GUARD
  }

  lemma TargetInTree(d: Disk, L: Layout, srcLeaf: string, dstDir: nat, dstLeaf: string)
    requires WF(d, L) && dstDir in L.depth
    ensures MoveTarget(d, srcLeaf, dstDir, dstLeaf).0 in L.depth
  {
    var j := Find(d[dstDir].entries, dstLeaf, ANY_TYPE);
    if j >= 0 && d[dstDir].entries[j].typ == TYPE_DIR {
      assert DownOk(d, L, Slot(dstDir, j));
    }
  }

  /** Whether the entry in slot `i` of `srcDir` can go to name `n` of directory `b`. */
  function TargetCode(d: Disk, srcDir: nat, i: int, b: nat, n: string): int
    requires IsDir(d, b)
  {
    var k := Find(d[b].entries, n, ANY_TYPE);
    if b == srcDir then (if k >= 0 && k != i then ERR_EXISTS else OK)
    else if k >= 0 then ERR_EXISTS
    else if FreeFrom(d[b].entries, 0) < 0 then ERR_TARGET_FULL
    else OK
  }

  /** How a move ends, from what is known before it starts. */
  ghost function MoveCode(d: Disk, L: Layout, srcDir: nat, srcLeaf: string, dstDir: nat, dstLeaf: string): int
    requires WF(d, L) && srcDir in L.depth && dstDir in L.depth
  {
    var i := Find(d[srcDir].entries, srcLeaf, ANY_TYPE);
    var j := Find(d[dstDir].entries, dstLeaf, ANY_TYPE);
    TargetInTree(d, L, srcLeaf, dstDir, dstLeaf);
    if srcDir == dstDir && srcLeaf == dstLeaf then OK
    else if i < 0 then ERR_NO_SOURCE
    else if j >= 0 && DirSlot(d, Slot(dstDir, j)) && DirSlot(d, Slot(srcDir, i))
            && (FoundSlot(d, L, dstDir, dstLeaf); FoundSlot(d, L, srcDir, srcLeaf);
                SeenInside(d, L, d[srcDir].entries[i].bno, d[dstDir].entries[j].bno)) then ERR_INTO_ITSELF
    else
      var (b, n) := MoveTarget(d, srcLeaf, dstDir, dstLeaf);
      TargetCode(d, srcDir, i, b, n)
  }

  /** What a move that can be made has found: the source slot, and the directory, name and slot it goes to. */
  ghost predicate Planned(d: Disk, L: Layout, srcDir: nat, srcLeaf: string, dstDir: nat, dstLeaf: string,
                          i: int, b: nat, n: string, k: int)
  {
    && IsDir(d, dstDir) && IsDir(d, srcDir) && (b, n) == MoveTarget(d, srcLeaf, dstDir, dstLeaf)
    && b in L.depth && 1 <= |n| <= NAME_MAX
    && i == Find(d[srcDir].entries, srcLeaf, ANY_TYPE) && i >= 0
    && InUse(d, Slot(srcDir, i)) && At(d, Slot(srcDir, i)).name == srcLeaf
    && (b == srcDir ==> NameFree(d, Slot(srcDir, i), n))
    && (b != srcDir ==> IsDir(d, b) && 0 <= k < MAX_DIR_ENTRIES && !InUse(d, Slot(b, k)) && NameFree(d, Slot(b, k), n))
  }

  /** The branches of the decision, one by one. */
  lemma MoveCodeCases(d: Disk, L: Layout, srcDir: nat, srcLeaf: string, dstDir: nat, dstLeaf: string)
    requires WF(d, L) && srcDir in L.depth && dstDir in L.depth && (srcDir != dstDir || srcLeaf != dstLeaf)
    ensures var i, j := Find(d[srcDir].entries, srcLeaf, ANY_TYPE), Find(d[dstDir].entries, dstLeaf, ANY_TYPE);
      var code := MoveCode(d, L, srcDir, srcLeaf, dstDir, dstLeaf);
      var (b, n) := MoveTarget(d, srcLeaf, dstDir, dstLeaf);
      var dirs := i >= 0 && j >= 0 && d[srcDir].entries[i].typ == TYPE_DIR && d[dstDir].entries[j].typ == TYPE_DIR;
      && (i < 0 ==> code == ERR_NO_SOURCE)
      && (dirs ==> d[srcDir].entries[i].bno in L.depth && d[dstDir].entries[j].bno in L.depth)
      && (dirs && SeenInside(d, L, d[srcDir].entries[i].bno, d[dstDir].entries[j].bno) ==> code == ERR_INTO_ITSELF)
      && b in L.depth && IsDir(d, b)
      && (i >= 0 && !(dirs && SeenInside(d, L, d[srcDir].entries[i].bno, d[dstDir].entries[j].bno)) ==>
            code == TargetCode(d, srcDir, i, b, n))
  {
    TargetInTree(d, L, srcLeaf, dstDir, dstLeaf);
    if Find(d[srcDir].entries, srcLeaf, ANY_TYPE) >= 0 { FoundSlot(d, L, srcDir, srcLeaf); }
    if Find(d[dstDir].entries, dstLeaf, ANY_TYPE) >= 0 { FoundSlot(d, L, dstDir, dstLeaf); }
    hide SeenInside, TargetCode;
  }

  /** When a move of a directory into itself is let through: the name must be new and a slot free, as
      for any move; the walk upward that should refuse it runs only when the destination's name already
      is a directory, and then finds the moved directory only less than 64 levels up. */
  lemma IntoItselfLetThrough(d: Disk, L: Layout, srcDir: nat, srcLeaf: string, dstDir: nat, dstLeaf: string)
    requires WF(d, L) && srcDir in L.depth && dstDir in L.depth && (srcDir != dstDir || srcLeaf != dstLeaf)
    requires var i := Find(d[srcDir].entries, srcLeaf, ANY_TYPE);
      i >= 0 && MovesIntoItself(d, Slot(srcDir, i), MoveTarget(d, srcLeaf, dstDir, dstLeaf).0)
    ensures var c := d[srcDir].entries[Find(d[srcDir].entries, srcLeaf, ANY_TYPE)].bno;
      var (b, n) := MoveTarget(d, srcLeaf, dstDir, dstLeaf);
      && c in L.depth && b in L.depth
      && (MoveCode(d, L, srcDir, srcLeaf, dstDir, dstLeaf) == OK <==>
            (LookAt(d, dstDir, dstLeaf) == Directory ==> L.depth[b] >= L.depth[c] + ANCESTOR_GUARD)
            && LookAt(d, b, n) == Missing && FreeFrom(d[b].entries, 0) >= 0)
      && (MoveCode(d, L, srcDir, srcLeaf, dstDir, dstLeaf) == ERR_INTO_ITSELF <==>
            LookAt(d, dstDir, dstLeaf) == Directory && L.depth[b] < L.depth[c] + ANCESTOR_GUARD)
  {
    hide Below;
    var s := Slot(srcDir, Find(d[srcDir].entries, srcLeaf, ANY_TYPE));
    TargetInTree(d, L, srcLeaf, dstDir, dstLeaf);
    NotBelowOwnChild(d, L, s);
  }

  /** Moving a directory to a new name inside itself is always let through. */
  lemma NewNameInside(d: Disk, L: Layout, srcDir: nat, srcLeaf: string, dstDir: nat, dstLeaf: string)
    requires WF(d, L) && srcDir in L.depth && dstDir in L.depth
    requires var i := Find(d[srcDir].entries, srcLeaf, ANY_TYPE);
      i >= 0 && d[srcDir].entries[i].typ == TYPE_DIR && d[srcDir].entries[i].bno == dstDir
    requires LookAt(d, dstDir, dstLeaf) == Missing && FreeFrom(d[dstDir].entries, 0) >= 0
    ensures MoveCode(d, L, srcDir, srcLeaf, dstDir, dstLeaf) == OK
    ensures var s := Slot(srcDir, Find(d[srcDir].entries, srcLeaf, ANY_TYPE));
      MovesIntoItself(d, s, MoveTarget(d, srcLeaf, dstDir, dstLeaf).0)
  {
    hide Below;
    BelowSelf(d, dstDir);
    NotBelowOwnChild(d, L, Slot(srcDir, Find(d[srcDir].entries, srcLeaf, ANY_TYPE)));
  }

  /** What a successful move does to the tree and to the account of blocks. */
  ghost predicate MoveResult(d0: Disk, L0: Layout, leaked0: set<nat>, d1: Disk, leaked1: set<nat>, s: Slot, n1: string,
                             b: nat, n2: string) {
    if b == s.dir && n2 == n1 then SameLooks(d0, d1) && leaked1 == leaked0
    else if MovesIntoItself(d0, s, b) then
      Vanished(d0, d1, s.dir, n1) && leaked1 == leaked0 + LostBlocks(d0, L0, At(d0, s).bno)
      && At(d0, s).bno in LostBlocks(d0, L0, At(d0, s).bno)
    else MovedPaths(d0, d1, s.dir, n1, b, n2) && leaked1 == leaked0
  }

  /** One step of the walk up the tree. */
  lemma AncestorStep(d: Disk, L: Layout, c: nat, y: nat)
    requires WF(d, L) && c in L.depth && y in L.depth && y != c && y != ROOT
    ensures d[y].parent in L.depth && d[y].parent != 0 && L.depth[d[y].parent] + 1 == L.depth[y]
    ensures Below(d, c, y) <==> Below(d, c, d[y].parent)
  {
    BelowParent(d, L, c, y);
    assert UpOk(d, L, y);
  }

  lemma AncestorDepth(d: Disk, L: Layout, c: nat, y: nat)
    requires WF(d, L) && c in L.depth && y in L.depth
    ensures Below(d, c, y) ==> L.depth[c] <= L.depth[y]
    ensures y == c ==> Below(d, c, y)
    ensures y == ROOT != c ==> !Below(d, c, y)
  {
    if Below(d, c, y) { BelowInTree(d, L, c, y); }
    if y == c { BelowSelf(d, c); }
    if c != ROOT { RootNotBelow(d, L, c); }
  }

  lemma RenamePlan(d: Disk, L: Layout, s: Slot, n: string)
    requires WF(d, L) && s.dir in L.depth && InUse(d, s) && n != ""
    requires var k := Find(d[s.dir].entries, n, ANY_TYPE); k < 0 || k == s.idx
    ensures NameFree(d, s, n)
  {
    assert DirBlockOk(d[s.dir]);
    var es, k := d[s.dir].entries, Find(d[s.dir].entries, n, ANY_TYPE);
    forall j | 0 <= j < MAX_DIR_ENTRIES && j != s.idx
      ensures es[j].name != n
    {
      assert k < 0 ==> !Matches(es[j], n, ANY_TYPE);
    }
  }

  /** An entry that stays in its directory does not move into itself. */
  lemma RenameIsNoLoss(d: Disk, L: Layout, s: Slot)
    requires WF(d, L) && s.dir in L.depth && InUse(d, s)
    ensures !MovesIntoItself(d, s, s.dir)
  {
    if DirSlot(d, s) { NotBelowOwnChild(d, L, s); }
  }

  /** Everything the writes of a move between directories establish, with the new certificate. */
  lemma TransferFacts(d0: Disk, L0: Layout, marked: set<nat>, leaked0: set<nat>, d1: Disk, d2: Disk, d3: Disk, s: Slot,
                      t: Slot, e: Entry)
    returns (L: Layout, leaked: set<nat>)
    requires WF(d0, L0) && Accounts(marked, Reach(L0), leaked0) && MoveWrites(d0, L0, d1, d2, d3, s, t, e)
    ensures WF(d3, L) && Accounts(marked, Reach(L), leaked)
    ensures MoveResult(d0, L0, leaked0, d3, leaked, s, At(d0, s).name, t.dir, e.name)
    ensures WellFormed(d1) && Vanished(d0, d1, s.dir, At(d0, s).name)
    ensures if MovesIntoItself(d0, s, t.dir) then WellFormed(d2) && Vanished(d0, d2, s.dir, At(d0, s).name)
            else DirSlot(d0, s) ==> !WellFormed(d2)
  {
    hide WF, WellFormed, SameLooks, MovedPaths, Vanished, NameFree, LostBlocks, Detach, Below, Reach, Accounts;
    if FileSlot(d0, s) {
      MoveFileFacts(d0, L0, d1, d2, d3, s, t, e);
      L, leaked := MoveFile(L0, s, t), leaked0;
    } else {
      DirWindow(d0, L0, d1, d2, d3, s, t, e);
      if Below(d0, e.bno, t.dir) {
        IntoItselfFacts(d0, L0, marked, leaked0, d1, d2, d3, s, t, e);
        L, leaked := Detach(d0, L0, e.bno), leaked0 + LostBlocks(d0, L0, e.bno);
      } else {
        MoveDirFacts(d0, L0, d1, d2, d3, s, t, e);
        ParentWindow(d0, L0, d1, d2, d3, s, t, e);
        L, leaked := MoveDir(d0, L0, e.bno, t), leaked0;
      }
    }
  }

  /** Two images in which the same entry vanished read the same. */
  lemma VanishedSame(d0: Disk, L0: Layout, d1: Disk, d2: Disk, b: nat, n: string)
    requires WF(d0, L0) && b in L0.depth && Vanished(d0, d1, b, n) && Vanished(d0, d2, b, n)
    ensures SameLooks(d1, d2)
  {
    var u := PathTo(d0, L0, b, n);
    hide WF, Look, Names;
    forall r: seq<string> | |r| >= 1
      ensures Look(d2, r) == Look(d1, r)
    {
      assert Names(d0, u, b, n) && Look(d1, r) == if u <= r then Missing else Look(d0, r);
    }
  }

  /** An image without the moved entry reads neither as before the move nor as after it. */
  lemma VanishedIsNeither(d0: Disk, L0: Layout, d1: Disk, d3: Disk, s: Slot, t: Slot, n: string)
    requires WF(d0, L0) && s.dir in L0.depth && t.dir in L0.depth && InUse(d0, s) && NameFree(d0, t, n) && n != ""
    requires IsDir(d0, t.dir) && t.idx < MAX_DIR_ENTRIES && !InUse(d0, t)
    requires Vanished(d0, d1, s.dir, At(d0, s).name) && MovedPaths(d0, d3, s.dir, At(d0, s).name, t.dir, n)
    ensures !SameLooks(d0, d1) && !SameLooks(d3, d1)
  {
    var u := PathTo(d0, L0, s.dir, At(d0, s).name);
    var w := PathTo(d0, L0, t.dir, n);
    assert DirBlockOk(d0[s.dir]);
    FindOnly(d0[s.dir].entries, s.idx, ANY_TYPE);
    NoSlotLook(d0, t.dir, n);
    assert Look(d0, u) != Missing && Look(d0, w) == Missing;
    assert Look(d1, u) == Missing && Look(d1, w) == Missing;
    assert Renamed(d0, d3, u, w) && u + w[|w|..] == u;
    assert Look(d3, w) == Look(d0, u);
  }

  /** The images a move leaves in the log, the last of them being `d1`: one write within a directory;
      between directories, first an image in which the entry is nowhere, and for a directory that is not
      lost one that is not well-formed. */
  ghost predicate MoveLog(log0: seq<Disk>, log1: seq<Disk>, d0: Disk, d1: Disk, s: Slot, b: nat)
    requires InUse(d0, s)
  {
    var n := |log0|;
    if b == s.dir then log1 == log0 + [d1]
    else
      && |log1| == n + (if DirSlot(d0, s) then 3 else 2) && log0 <= log1 && log1[|log1| - 1] == d1
      && WellFormed(log1[n]) && Vanished(d0, log1[n], s.dir, At(d0, s).name)
      && (DirSlot(d0, s) && !MovesIntoItself(d0, s, b) ==> !WellFormed(log1[n + 1]))
  }

  /** A move between directories is crash-atomic only when it loses a directory: then every image on the
      way is already without it. */
  lemma TransferAtomic(d0: Disk, L0: Layout, leaked0: set<nat>, d1: Disk, d2: Disk, d3: Disk, L3: Layout,
                       leaked: set<nat>,
                       s: Slot, t: Slot, e: Entry, log0: seq<Disk>, log1: seq<Disk>)
    requires WF(d0, L0) && MoveWrites(d0, L0, d1, d2, d3, s, t, e) && WF(d3, L3)
    requires MoveResult(d0, L0, leaked0, d3, leaked, s, At(d0, s).name, t.dir, e.name)
    requires WellFormed(d1) && Vanished(d0, d1, s.dir, At(d0, s).name)
    requires MovesIntoItself(d0, s, t.dir) ==> WellFormed(d2) && Vanished(d0, d2, s.dir, At(d0, s).name)
    requires log1 == if DirSlot(d0, s) then log0 + [d1, d2, d3] else log0 + [d1, d3]
    ensures CrashAtomic(log0, log1, d0, d3) <==> MovesIntoItself(d0, s, t.dir)
  {
    hide WF, WellFormed, SameLooks, Vanished, MovedPaths, NameFree, MovesIntoItself, LostBlocks;
    var n, was := |log0|, At(d0, s).name;
    assert log1[n] == d1;
    if MovesIntoItself(d0, s, t.dir) {
      VanishedSame(d0, L0, d3, d1, s.dir, was);
      VanishedSame(d0, L0, d3, d2, s.dir, was);
      VanishedSame(d0, L0, d3, d3, s.dir, was);
      CertifiedIsWellFormed(d3, L3);
      forall k | n <= k < |log1|
        ensures BeforeOrAfter(d0, d3, log1[k])
      {
        assert log1[k] == d1 || log1[k] == d2 || log1[k] == d3;
      }
    } else {
      VanishedIsNeither(d0, L0, d1, d3, s, t, e.name);
      NotAtomic(log0, log1, d0, d3, n);
    }
  }

  lemma CertifiedIsWellFormed(d: Disk, L: Layout)
    requires WF(d, L)
    ensures WellFormed(d)
  {
  }
}
