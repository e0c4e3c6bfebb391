/** Which blocks the rebuild scan marks. */
module ScanSteps {
  import opened DiskModel
  import opened Sequences
  import opened TreeLemmas
  import opened TreeEdits
  import opened Paths
  import opened TreeMoves
  import opened FsSteps

  /** Directories deeper than this are not scanned. */
  const MAX_SCAN_DEPTH: nat := 32

  /** The directory a reachable block belongs to: itself, or the one whose slot heads its chain. */
  function OwnerDir(L: Layout, x: nat): nat
    requires x in Reach(L)
  {
    if x in L.depth then x else L.own[x].slot.dir
  }

  /** The scan of directory `b` marks block `x`. */
  ghost predicate Scanned(d: Disk, L: Layout, b: nat, x: nat) {
    && x in Reach(L) && OwnerDir(L, x) in L.depth
    && Below(d, b, OwnerDir(L, x)) && L.depth[OwnerDir(L, x)] <= MAX_SCAN_DEPTH
  }

  /** The scan of slot `s` marks block `x`. */
  ghost predicate SlotScanned(d: Disk, L: Layout, s: Slot, x: nat) {
    if DirSlot(d, s) then Scanned(d, L, At(d, s).bno, x)
    else s in L.chain && x in L.chain[s]
  }

  lemma OwnerInTree(d: Disk, L: Layout, x: nat)
    requires WF(d, L) && x in Reach(L)
    ensures OwnerDir(L, x) in L.depth
    ensures x != ROOT ==> RESERVED <= x < |d|
  {
    if x in L.own {
      assert OwnOk(L, x);
      assert ChainOk(d, L, L.own[x].slot);
    }
  }

  /** From a directory, everything below it other than itself is below exactly one of its slots. */
  lemma FirstStep(d: Disk, L: Layout, b: nat, y: nat) returns (i: nat)
    requires WF(d, L) && b in L.depth && Below(d, b, y) && y != b
    ensures i < MAX_DIR_ENTRIES && DirSlot(d, Slot(b, i)) && Below(d, At(d, Slot(b, i)).bno, y)
  {
    var q: seq<string> :| |q| >= 1 && Home(d, b, q) == y && y != 0;
    assert |q| > 1;
    var c := Child(d, b, q[0]);
    assert IsDir(d, b) && Home(d, c, q[1..]) == y && IsDir(d, c);
    i := Find(d[b].entries, q[0], TYPE_DIR);
    BelowIntro(d, c, q[1..]);
  }

  lemma {:induction false} SameLevel(d: Disk, L: Layout, a: nat, c: nat, y: nat)
    requires WF(d, L) && a in L.depth && c in L.depth && y in L.depth
    requires Below(d, a, y) && Below(d, c, y) && L.depth[a] == L.depth[c]
    ensures a == c
    decreases L.depth[y]
  {
    if y == a || y == c {
      LevelTop(d, L, a, y);
      LevelTop(d, L, c, y);
    } else if y == ROOT {
      BelowInTree(d, L, a, y);
      BelowInTree(d, L, c, y);
    } else {
      BelowParent(d, L, a, y);
      BelowParent(d, L, c, y);
      assert UpOk(d, L, y);
      SameLevel(d, L, a, c, d[y].parent);
    }
  }

  /** Only `a` itself is below `a` at its own level. */
  lemma LevelTop(d: Disk, L: Layout, a: nat, y: nat)
    requires WF(d, L) && a in L.depth && y in L.depth && Below(d, a, y)
    ensures L.depth[y] == L.depth[a] ==> y == a
  {
    var q: seq<string> :| |q| >= 1 && Home(d, a, q) == y && y != 0;
    HomeDepth(d, L, a, q);
  }

  /** Different slots of a directory scan different blocks, none of them the directory. */
  lemma SlotsApart(d: Disk, L: Layout, b: nat, i: nat, j: nat, x: nat)
    requires WF(d, L) && b in L.depth && InUse(d, Slot(b, i)) && InUse(d, Slot(b, j))
    requires SlotScanned(d, L, Slot(b, i), x) && SlotScanned(d, L, Slot(b, j), x)
    ensures i == j
  {
    var s, t := Slot(b, i), Slot(b, j);
    if DirSlot(d, s) && DirSlot(d, t) {
      assert DownOk(d, L, s) && DownOk(d, L, t);
      assert UpOk(d, L, At(d, s).bno) && UpOk(d, L, At(d, t).bno);
      SameLevel(d, L, At(d, s).bno, At(d, t).bno, OwnerDir(L, x));
    } else if DirSlot(d, s) {
      FileNotBelow(d, L, s, t, x);
    } else if DirSlot(d, t) {
      FileNotBelow(d, L, t, s, x);
    } else {
      ChainsDisjoint(d, L, s, t);
      assert x in Elements(L.chain[s]) && x in Elements(L.chain[t]);
    }
  }

  lemma FileNotBelow(d: Disk, L: Layout, s: Slot, t: Slot, x: nat)
    requires WF(d, L) && s.dir in L.depth && s.dir == t.dir && DirSlot(d, s) && Scanned(d, L, At(d, s).bno, x)
    requires t in L.chain
    ensures x !in L.chain[t]
  {
    assert ChainOk(d, L, t);
    NotBelowOwnChild(d, L, s);
    assert x in L.own ==> OwnOk(L, x);
  }

  lemma SlotScannedBelow(d: Disk, L: Layout, s: Slot, x: nat)
    requires WF(d, L) && s.dir in L.depth && InUse(d, s) && SlotScanned(d, L, s, x)
    requires L.depth[s.dir] <= MAX_SCAN_DEPTH
    ensures Scanned(d, L, s.dir, x) && x != s.dir
  {
    if DirSlot(d, s) {
      assert DownOk(d, L, s);
      NotBelowOwnChild(d, L, s);
      ChildBelow(d, L, s, OwnerDir(L, x));
    } else {
      assert ChainOk(d, L, s);
      var k :| 0 <= k < |L.chain[s]| && L.chain[s][k] == x;
      assert OwnOk(L, x) && L.own[x] == Place(s, k);
      BelowSelf(d, s.dir);
    }
  }

  lemma ChildBelow(d: Disk, L: Layout, s: Slot, y: nat)
    requires WF(d, L) && s.dir in L.depth && DirSlot(d, s) && Below(d, At(d, s).bno, y)
    ensures Below(d, s.dir, y)
  {
    assert DirBlockOk(d[s.dir]);
    FindOnly(d[s.dir].entries, s.idx, TYPE_DIR);
    BelowStep(d, s.dir, At(d, s).name, y);
  }

  /** The scan of a directory is itself and its slots. */
  lemma ScannedSplit(d: Disk, L: Layout, b: nat, x: nat)
    requires WF(d, L) && b in L.depth && L.depth[b] <= MAX_SCAN_DEPTH && Scanned(d, L, b, x) && x != b
    ensures exists i :: 0 <= i < MAX_DIR_ENTRIES && InUse(d, Slot(b, i)) && SlotScanned(d, L, Slot(b, i), x)
  {
    var y := OwnerDir(L, x);
    if y == b {
      assert OwnOk(L, x);
      assert ChainOk(d, L, L.own[x].slot);
      var s := L.own[x].slot;
      assert x in L.chain[s] && SlotScanned(d, L, Slot(b, s.idx), x);
    } else {
      var i := FirstStep(d, L, b, y);
      assert SlotScanned(d, L, Slot(b, i), x);
    }
  }

  lemma SelfScanned(d: Disk, L: Layout, b: nat)
    requires WF(d, L) && b in L.depth && L.depth[b] <= MAX_SCAN_DEPTH
    ensures Scanned(d, L, b, b)
  {
    BelowSelf(d, b);
  }

  // ------------------------------------------------------------------ the state of a scan

  /** `now` is `was` plus directory `b` and what its first `i` slots scan. */
  ghost predicate ScanSoFar(d: Disk, L: Layout, b: nat, was: set<nat>, now: set<nat>, i: nat) {
    forall x: nat :: x in now <==> x in was || x == b || ScannedBefore(d, L, b, i, x)
  }

  ghost predicate ScannedBefore(d: Disk, L: Layout, b: nat, i: nat, x: nat) {
    exists j {:trigger Slot(b, j)} :: 0 <= j < i && InUse(d, Slot(b, j)) && SlotScanned(d, L, Slot(b, j), x)
  }

  /** Nothing the scan of `b` would mark is marked, apart from the root. */
  ghost predicate Unmarked(d: Disk, L: Layout, b: nat, marked: set<nat>) {
    forall x: nat :: Scanned(d, L, b, x) && x != ROOT ==> x !in marked
  }

  ghost predicate SlotUnmarked(d: Disk, L: Layout, s: Slot, marked: set<nat>) {
    forall x: nat :: SlotScanned(d, L, s, x) ==> x !in marked
  }

  /** `now` is `was` plus what the scan of slot `s` marks. */
  ghost predicate SlotMarked(d: Disk, L: Layout, s: Slot, was: set<nat>, now: set<nat>) {
    forall x: nat :: x in now <==> x in was || SlotScanned(d, L, s, x)
  }

  /** `now` is `was` plus what the scan of `b` marks. */
  ghost predicate DirMarked(d: Disk, L: Layout, b: nat, was: set<nat>, now: set<nat>) {
    forall x: nat :: x in now <==> x in was || Scanned(d, L, b, x)
  }

  /** The blocks of the next slot have not been marked by the slots before it. */
  lemma NextSlotUnmarked(d: Disk, L: Layout, b: nat, was: set<nat>, now: set<nat>, i: nat)
    requires WF(d, L) && b in L.depth && L.depth[b] <= MAX_SCAN_DEPTH && InUse(d, Slot(b, i))
    requires Unmarked(d, L, b, was) && ScanSoFar(d, L, b, was, now, i)
    ensures SlotUnmarked(d, L, Slot(b, i), now)
  {
    forall x | SlotScanned(d, L, Slot(b, i), x)
      ensures x !in now
    {
      SlotScannedBelow(d, L, Slot(b, i), x);
      SlotNotRoot(d, L, Slot(b, i), x);
      if ScannedBefore(d, L, b, i, x) {
        var j :| 0 <= j < i && InUse(d, Slot(b, j)) && SlotScanned(d, L, Slot(b, j), x);
        SlotsApart(d, L, b, i, j, x);
      }
    }
  }

  lemma SlotNotRoot(d: Disk, L: Layout, s: Slot, x: nat)
    requires WF(d, L) && s.dir in L.depth && InUse(d, s) && SlotScanned(d, L, s, x)
    ensures x != ROOT
  {
    if DirSlot(d, s) {
      assert DownOk(d, L, s);
      RootNotBelow(d, L, At(d, s).bno);
    } else {
      assert ChainOk(d, L, s);
    }
  }

  lemma NextSlotScanned(d: Disk, L: Layout, b: nat, was: set<nat>, mid: set<nat>, now: set<nat>, i: nat)
    requires ScanSoFar(d, L, b, was, mid, i)
    requires if InUse(d, Slot(b, i)) then SlotMarked(d, L, Slot(b, i), mid, now) else now == mid
    ensures ScanSoFar(d, L, b, was, now, i + 1)
  {
    forall x: nat
      ensures ScannedBefore(d, L, b, i + 1, x) <==>
        ScannedBefore(d, L, b, i, x) || (InUse(d, Slot(b, i)) && SlotScanned(d, L, Slot(b, i), x))
    {
    }
  }

  lemma AllSlotsScanned(d: Disk, L: Layout, b: nat, was: set<nat>, now: set<nat>)
    requires WF(d, L) && b in L.depth && L.depth[b] <= MAX_SCAN_DEPTH && ScanSoFar(d, L, b, was, now, MAX_DIR_ENTRIES)
    ensures DirMarked(d, L, b, was, now)
  {
    forall x: nat
      ensures x in now <==> x in was || Scanned(d, L, b, x)
    {
      SelfScanned(d, L, b);
      if Scanned(d, L, b, x) && x != b {
        ScannedSplit(d, L, b, x);
      }
      if ScannedBefore(d, L, b, MAX_DIR_ENTRIES, x) {
        var j :| 0 <= j < MAX_DIR_ENTRIES && InUse(d, Slot(b, j)) && SlotScanned(d, L, Slot(b, j), x);
        SlotScannedBelow(d, L, Slot(b, j), x);
      }
    }
  }

  // ------------------------------------------------------------------ what a rebuilt map means

  /** No directory lies deeper than the scan goes. */
  ghost predicate Shallow(d: Disk) {
    forall b, n: nat :: DirReach(d, b, n) ==> n <= MAX_SCAN_DEPTH
  }

  /** The map marks exactly the reserved and the reachable blocks. */
  ghost predicate Exact(d: Disk, marked: set<nat>) {
    forall x: nat :: x in marked <==> x < RESERVED || Reachable(d, x)
  }

  lemma RootSeesAll(d: Disk, L: Layout, x: nat)
    requires WF(d, L)
    ensures Scanned(d, L, ROOT, x) <==>
      x in Reach(L) && OwnerDir(L, x) in L.depth && L.depth[OwnerDir(L, x)] <= MAX_SCAN_DEPTH
  {
    if x in Reach(L) && OwnerDir(L, x) in L.depth {
      var y := OwnerDir(L, x);
      var p := PathTo(d, L, y, "");
      BelowIntro(d, ROOT, p);
    }
  }

  /** A rebuilt map is exact precisely when no directory is deeper than the scan goes. */
  lemma RebuildExact(d: Disk, L: Layout, marked: set<nat>)
    requires WF(d, L)
    requires forall x: nat :: x in marked <==> x < RESERVED || Scanned(d, L, ROOT, x)
    ensures Exact(d, marked) <==> Shallow(d)
    ensures forall x: nat :: x in marked ==> x < RESERVED || Reachable(d, x)
  {
    forall x: nat
      ensures Reachable(d, x) <==> x in Reach(L)
      ensures x in Reach(L) ==> OwnerDir(L, x) in L.depth && (x == ROOT || RESERVED <= x)
      ensures x in marked ==> x < RESERVED || Reachable(d, x)
    {
      ReachableIsReach(d, L, x);
      if x in Reach(L) { OwnerInTree(d, L, x); }
    }
    if Shallow(d) {
      forall x: nat
        ensures x in marked <==> x < RESERVED || Reachable(d, x)
      {
        RootSeesAll(d, L, x);
        if x in Reach(L) { DepthIsReached(d, L, OwnerDir(L, x)); }
      }
    } else {
      var b, n: nat :| DirReach(d, b, n) && n > MAX_SCAN_DEPTH;
      ReachedHasDepth(d, L, b, n);
      RootSeesAll(d, L, b);
    }
  }

  /** The chain to come has not been marked by the part already walked. */
  lemma ChainNotSeen(p: seq<nat>, k: nat)
    requires Distinct(p) && k < |p|
    ensures p[k] !in Elements(p[..k])
  {
  }

  /** A block that is not the last of its chain has a successor other than itself. */
  lemma ChainGoesOn(d: Disk, b: nat, p: seq<nat>, k: nat)
    requires IsChain(d, b, p) && Distinct(p) && k + 1 < |p|
    ensures d[p[k]].Data? && d[p[k]].next != 0 && d[p[k]].next != p[k]
  {
    assert Next(d[p[k]]) == p[k + 1];
  }

  /** A chain of distinct blocks is no longer than the disk. */
  lemma ChainInRange(d: Disk, b: nat, p: seq<nat>)
    requires IsChain(d, b, p) && Distinct(p)
    ensures |p| <= |d|
    ensures forall k :: 0 <= k < |p| ==> RESERVED <= ChainAt(p, k) < |d|
  {
    DistinctSize(p);
    SubsetSize(Elements(p), Upto(|d|));
  }

  lemma NothingScanned(d: Disk, L: Layout, b: nat)
    requires WF(d, L) && b in L.depth && (b == 0 || b >= |d| || L.depth[b] > MAX_SCAN_DEPTH)
    ensures forall x: nat :: !Scanned(d, L, b, x)
  {
    forall x: nat | Scanned(d, L, b, x)
      ensures false
    {
      BelowInTree(d, L, b, OwnerDir(L, x));
    }
  }

  lemma SlotChild(d: Disk, L: Layout, s: Slot)
    requires WF(d, L) && s.dir in L.depth && DirSlot(d, s)
    ensures At(d, s).bno in L.depth && L.depth[At(d, s).bno] == L.depth[s.dir] + 1 && At(d, s).bno != ROOT
  {
    assert DownOk(d, L, s);
    NotBelowOwnChild(d, L, s);
  }

  lemma SlotChain(d: Disk, L: Layout, s: Slot)
    requires WF(d, L) && s.dir in L.depth && FileSlot(d, s)
    ensures s in L.chain && IsChain(d, At(d, s).bno, L.chain[s]) && Distinct(L.chain[s])
  {
    assert s in L.chain && ChainOk(d, L, s);
    ChainsDisjoint(d, L, s, s);
  }

  lemma RootInTree(d: Disk, L: Layout)
    requires WF(d, L)
    ensures IsDir(d, ROOT) && ROOT in L.depth && L.depth[ROOT] == 0
  {
  }

  lemma ReservedUnmarked(d: Disk, L: Layout, marked: set<nat>)
    requires WF(d, L) && forall x: nat :: x in marked <==> x < RESERVED
    ensures Unmarked(d, L, ROOT, marked)
  {
    forall x: nat | Scanned(d, L, ROOT, x) && x != ROOT
      ensures x !in marked
    {
      OwnerInTree(d, L, x);
    }
  }

  /** An exact map accounts for every block with nothing leaked. */
  lemma ExactAccounts(d: Disk, L: Layout, marked: set<nat>)
    requires WF(d, L) && Exact(d, marked)
    ensures Accounts(marked, Reach(L), {})
  {
    forall x: nat
      ensures Reachable(d, x) <==> x in Reach(L)
    {
      ReachableIsReach(d, L, x);
    }
  }

  /** A map that accounts for every block is exact if and only if nothing is leaked. */
  lemma AccountsExact(d: Disk, L: Layout, marked: set<nat>, leaked: set<nat>)
    requires WF(d, L) && Accounts(marked, Reach(L), leaked)
    ensures Exact(d, marked) <==> leaked == {}
  {
    hide WF, Reachable;
    forall x: nat
      ensures Reachable(d, x) <==> x in Reach(L)
    {
      ReachableIsReach(d, L, x);
    }
    if leaked != {} {
      var x :| x in leaked;
      assert x in marked && !Reachable(d, x);
    }
  }

  /** Rebuilding drops exactly the leaked blocks. */
  lemma RebuildReclaims(d: Disk, L: Layout, marked: set<nat>, leaked: set<nat>, rebuilt: set<nat>)
    requires WF(d, L) && Accounts(marked, Reach(L), leaked) && Exact(d, rebuilt)
    ensures rebuilt == marked - leaked
  {
    forall x: nat
      ensures x in rebuilt <==> x in marked - leaked
    {
      ReachableIsReach(d, L, x);
    }
  }

  // ------------------------------------------------------------------ depth, by path

  /** A tree is shallow exactly when no path of more names than the scan goes deep is a directory. */
  lemma ShallowByPath(d: Disk, L: Layout)
    requires WF(d, L)
    ensures Shallow(d) <==> forall path: seq<string> :: |path| > MAX_SCAN_DEPTH ==> Look(d, path) != Directory
  {
    if Shallow(d) {
      forall path: seq<string> | |path| > MAX_SCAN_DEPTH
        ensures Look(d, path) != Directory
      {
        if Look(d, path) == Directory { DirectoryDepth(d, L, path); }
      }
    } else {
      var b, n: nat :| DirReach(d, b, n) && n > MAX_SCAN_DEPTH;
      ReachedHasDepth(d, L, b, n);
      var path := DirectoryPath(d, L, b);
    }
  }

  /** A path of `n` names that is a directory is one that many steps below the root. */
  lemma DirectoryDepth(d: Disk, L: Layout, path: seq<string>)
    requires WF(d, L) && |path| >= 1 && Look(d, path) == Directory
    ensures exists b :: DirReach(d, b, |path|)
  {
    var h := Home(d, ROOT, path);
    HomeInTree(d, L, ROOT, path);
    HomeDepth(d, L, ROOT, path);
    var s := Slot(h, Find(d[h].entries, Last(path), ANY_TYPE));
    assert DirSlot(d, s) && DownOk(d, L, s);
    var c := At(d, s).bno;
    assert UpOk(d, L, c);
    DepthIsReached(d, L, c);
  }

  lemma DirectoryPath(d: Disk, L: Layout, b: nat) returns (path: seq<string>)
    requires WF(d, L) && b in L.depth && b != ROOT
    ensures |path| == L.depth[b] && |path| >= 1 && Look(d, path) == Directory
  {
    assert UpOk(d, L, b);
    var s := Slot(d[b].parent, L.up[b]);
    assert DirBlockOk(d[s.dir]);
    FindOnly(d[s.dir].entries, s.idx, ANY_TYPE);
    path := PathTo(d, L, s.dir, At(d, s).name);
    HomeDepth(d, L, ROOT, path);
  }

  /** Trees that read the same are equally deep. */
  lemma SameDepth(d0: Disk, L0: Layout, d1: Disk, L1: Layout)
    requires WF(d0, L0) && WF(d1, L1) && SameLooks(d0, d1)
    ensures Shallow(d0) <==> Shallow(d1)
  {
    ShallowByPath(d0, L0);
    ShallowByPath(d1, L1);
    hide WF, Look, Shallow;
  }
}
