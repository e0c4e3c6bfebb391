/** Moving an entry between directories: what stays well-formed, and what a move into its own
    subtree loses. */
module TreeMoves {
  import opened DiskModel
  import opened Sequences
  import opened TreeLemmas
  import opened TreeEdits
  import opened Paths

  // ------------------------------------------------------------------ subtrees

  /** Whether a directory is below `c` is decided by its parent. */
  lemma BelowParent(d: Disk, L: Layout, c: nat, y: nat)
    requires WF(d, L) && c in L.depth && y in L.depth && y != ROOT && y != c
    ensures d[y].parent in L.depth
    ensures Below(d, c, y) <==> Below(d, c, d[y].parent)
  {
    assert UpOk(d, L, y);
    var p := d[y].parent;
    var name := d[p].entries[L.up[y]].name;
    assert DirBlockOk(d[p]);
    FindOnly(d[p].entries, L.up[y], TYPE_DIR);
    if q: seq<string> :| |q| >= 1 && Home(d, c, q) == p && p != 0 {
      var q1 := q[..|q| - 1] + [name];
      HomeIgnoresLast(d, c, q, q1);
      HomeConcat(d, c, q1, [""]);
      BelowIntro(d, c, q1 + [""]);
    }
    if q: seq<string> :| |q| >= 1 && Home(d, c, q) == y && y != 0 {
      var q1, n := q[..|q| - 1], Last(q);
      assert q == q1 + [n];
      HomeConcat(d, c, q1, [n]);
      HomeInTree(d, L, c, q1);
      OnlyParent(d, L, Home(d, c, q1), p, name, y);
      BelowIntro(d, c, q1);
    }
  }

  lemma BelowInTree(d: Disk, L: Layout, c: nat, y: nat)
    requires WF(d, L) && c in L.depth && Below(d, c, y)
    ensures y in L.depth && L.depth[y] >= L.depth[c]
  {
    var q: seq<string> :| |q| >= 1 && Home(d, c, q) == y && y != 0;
    HomeDepth(d, L, c, q);
  }

  /** The directory that a slot heads is below `c` when the slot's directory is. */
  lemma BelowSlot(d: Disk, L: Layout, c: nat, s: Slot)
    requires WF(d, L) && c in L.depth && s.dir in L.depth && DirSlot(d, s)
    ensures At(d, s).bno in L.depth && At(d, s).bno != ROOT && d[At(d, s).bno].parent == s.dir
    ensures At(d, s).bno != c ==> (Below(d, c, At(d, s).bno) <==> Below(d, c, s.dir))
  {
    assert DownOk(d, L, s);
    if At(d, s).bno != c {
      BelowParent(d, L, c, At(d, s).bno);
    }
  }

  // ------------------------------------------------------------------ one entry moves to another directory

  /** Slot `s` is cleared and slot `t`, free before, holds `e`, which heads what `s` headed. No
      other entry and no chain block changed. */
  ghost predicate Rewired(dA: Disk, LA: Layout, dB: Disk, s: Slot, t: Slot, e: Entry) {
    && |dB| == |dA| && s.dir in LA.depth && t.dir in LA.depth && s.dir != t.dir
    && InUse(dA, s) && t.idx < MAX_DIR_ENTRIES && !InUse(dA, t)
    && e.name != "" && |e.name| <= NAME_MAX && NameFree(dA, t, e.name)
    && e.bno == At(dA, s).bno && e.typ == At(dA, s).typ && e.size == At(dA, s).size
    && (forall y :: y in LA.depth ==> IsDir(dA, y) && IsDir(dB, y))
    && (forall y :: y in LA.depth && y != s.dir && y != t.dir ==> dB[y].entries == dA[y].entries)
    && dB[s.dir].entries == dA[s.dir].entries[s.idx := FREE]
    && dB[t.dir].entries == dA[t.dir].entries[t.idx := e]
    && (forall x :: x in LA.own && x < |dA| ==> dB[x] == dA[x])
  }

  lemma RewiredFind(dA: Disk, LA: Layout, dB: Disk, s: Slot, t: Slot, e: Entry, y: nat, n: string, filter: int)
    requires WF(dA, LA) && Rewired(dA, LA, dB, s, t, e) && y in LA.depth
    requires (y != s.dir || n != At(dA, s).name) && (y != t.dir || n != e.name)
    ensures Find(dB[y].entries, n, filter) == Find(dA[y].entries, n, filter)
    ensures Find(dA[y].entries, n, filter) >= 0 ==>
      Slot(y, Find(dA[y].entries, n, filter)) != s && Slot(y, Find(dA[y].entries, n, filter)) != t
  {
    if y == s.dir {
      FindEdit(dA[y].entries, s.idx, FREE, n, filter);
    } else if y == t.dir {
      FindEdit(dA[y].entries, t.idx, e, n, filter);
    }
  }

  lemma RewiredElsewhere(dA: Disk, LA: Layout, dB: Disk, s: Slot, t: Slot, e: Entry, y: nat, n: string)
    requires WF(dA, LA) && Rewired(dA, LA, dB, s, t, e) && y in LA.depth
    requires (y != s.dir || n != At(dA, s).name) && (y != t.dir || n != e.name)
    ensures Child(dB, y, n) == Child(dA, y, n) && LookAt(dB, y, n) == LookAt(dA, y, n)
  {
    RewiredFind(dA, LA, dB, s, t, e, y, n, TYPE_DIR);
    RewiredFind(dA, LA, dB, s, t, e, y, n, ANY_TYPE);
    var i := Find(dA[y].entries, n, ANY_TYPE);
    if i >= 0 && dA[y].entries[i].typ != TYPE_DIR {
      var z := Slot(y, i);
      assert FileSlot(dA, z);
      UntouchedChain(dA, LA, dB, z);
      ReadChainFrame(dA, dB, At(dA, z).bno, LA.chain[z], At(dA, z).size);
    }
  }

  lemma UntouchedChain(dA: Disk, LA: Layout, dB: Disk, z: Slot)
    requires WF(dA, LA) && |dB| == |dA| && z.dir in LA.depth && FileSlot(dA, z)
    requires forall x :: x in LA.own && x < |dA| ==> dB[x] == dA[x]
    ensures z in LA.chain && IsChain(dA, At(dA, z).bno, LA.chain[z])
    ensures AgreeOnChain(dA, dB, LA.chain[z]) && IsChain(dB, At(dA, z).bno, LA.chain[z])
  {
    assert z in LA.chain && ChainOk(dA, LA, z);
    IsChainFrame(dA, dB, At(dA, z).bno, LA.chain[z]);
  }

  lemma RewiredHere(dA: Disk, LA: Layout, dB: Disk, s: Slot, t: Slot, e: Entry)
    requires WF(dA, LA) && Rewired(dA, LA, dB, s, t, e)
    ensures Child(dB, s.dir, At(dA, s).name) == 0 && LookAt(dB, s.dir, At(dA, s).name) == Missing
    ensures Child(dA, t.dir, e.name) == 0 && LookAt(dA, t.dir, e.name) == Missing
    ensures Child(dA, s.dir, At(dA, s).name) == Child(dB, t.dir, e.name)
      == if e.typ == TYPE_DIR then e.bno else 0
    ensures LookAt(dA, s.dir, At(dA, s).name) == LookAt(dB, t.dir, e.name)
    ensures LookAt(dA, s.dir, At(dA, s).name) == Directory <==> e.typ == TYPE_DIR
  {
    assert DirBlockOk(dA[s.dir]) && DirBlockOk(dA[t.dir]);
    NoSlotLook(dB, s.dir, At(dA, s).name);
    NoSlotLook(dA, t.dir, e.name);
    EditKeepsDirBlock(dA[t.dir].entries, t.idx, e);
    FindOnly(dA[s.dir].entries, s.idx, ANY_TYPE);
    FindOnly(dB[t.dir].entries, t.idx, ANY_TYPE);
    if e.typ == TYPE_DIR {
      FindOnly(dA[s.dir].entries, s.idx, TYPE_DIR);
      FindOnly(dB[t.dir].entries, t.idx, TYPE_DIR);
    } else {
      UntouchedChain(dA, LA, dB, s);
      ReadChainFrame(dA, dB, e.bno, LA.chain[s], e.size);
    }
  }

  /** The one condition under which moving a directory keeps its contents. */
  ghost predicate MovesIntoItself(d: Disk, s: Slot, b: nat) {
    DirSlot(d, s) && Below(d, At(d, s).bno, b)
  }

  lemma RewiredMoves(dA: Disk, LA: Layout, dB: Disk, LB: Layout, s: Slot, t: Slot, e: Entry)
    requires WF(dA, LA) && WF(dB, LB) && LA.depth.Keys == LB.depth.Keys && Rewired(dA, LA, dB, s, t, e)
    requires !MovesIntoItself(dA, s, t.dir)
    requires e.typ == TYPE_DIR ==> e.bno in LA.depth && !Below(dB, e.bno, s.dir) && !Below(dB, e.bno, t.dir)
    ensures Moved(dA, LA, dB, LB, s.dir, At(dA, s).name, t.dir, e.name)
  {
    RewiredHere(dA, LA, dB, s, t, e);
    forall y, n: string | y in LA.depth && (y != s.dir || n != At(dA, s).name) && (y != t.dir || n != e.name)
      ensures Child(dB, y, n) == Child(dA, y, n) && LookAt(dB, y, n) == LookAt(dA, y, n)
    {
      RewiredElsewhere(dA, LA, dB, s, t, e, y, n);
    }
    if e.typ == TYPE_DIR {
      NotBelowOwnChild(dA, LA, s);
    }
  }

  lemma NotBelowOwnChild(d: Disk, L: Layout, s: Slot)
    requires WF(d, L) && s.dir in L.depth && DirSlot(d, s)
    ensures At(d, s).bno in L.depth && L.depth[At(d, s).bno] == L.depth[s.dir] + 1
    ensures !Below(d, At(d, s).bno, s.dir)
  {
    assert DownOk(d, L, s);
    assert UpOk(d, L, At(d, s).bno);
    if Below(d, At(d, s).bno, s.dir) {
      BelowInTree(d, L, At(d, s).bno, s.dir);
    }
  }

  lemma RewiredDirs(dA: Disk, LA: Layout, dB: Disk, s: Slot, t: Slot, e: Entry)
    requires WF(dA, LA) && Rewired(dA, LA, dB, s, t, e)
    ensures forall y :: y in LA.depth ==> DirBlockOk(dB[y])
    ensures forall z: Slot :: z.dir in LA.depth && z != s && z != t ==> (InUse(dB, z) <==> InUse(dA, z))
    ensures forall z: Slot :: z.dir in LA.depth && z != s && z != t && InUse(dA, z) ==> At(dB, z) == At(dA, z)
    ensures !InUse(dB, s) && InUse(dB, t) && At(dB, t) == e
  {
    forall y | y in LA.depth
      ensures DirBlockOk(dB[y])
    {
      assert DirBlockOk(dA[y]);
      if y == s.dir {
        EditKeepsDirBlock(dA[y].entries, s.idx, FREE);
      } else if y == t.dir {
        assert DirBlockOk(dA[s.dir]);
        EditKeepsDirBlock(dA[y].entries, t.idx, e);
      }
    }
  }

  // ------------------------------------------------------------------ a file moves

  ghost function MoveFile(L: Layout, s: Slot, t: Slot): Layout
    requires s in L.chain && Distinct(L.chain[s])
  {
    L.(chain := (L.chain - {s})[t := L.chain[s]], own := L.own + Places(t, L.chain[s]))
  }

  lemma MoveFileWF(dA: Disk, LA: Layout, dB: Disk, s: Slot, t: Slot, e: Entry)
    requires WF(dA, LA) && Rewired(dA, LA, dB, s, t, e) && FileSlot(dA, s)
    requires forall y :: y in LA.depth ==> dB[y].parent == dA[y].parent
    ensures s in LA.chain && Distinct(LA.chain[s])
    ensures WF(dB, MoveFile(LA, s, t)) && Reach(MoveFile(LA, s, t)) == Reach(LA)
  {
    ChainsDisjoint(dA, LA, s, s);
    RewiredDirs(dA, LA, dB, s, t, e);
    var LB := MoveFile(LA, s, t);
    forall y | y in LB.depth && y != ROOT
      ensures UpOk(dB, LB, y)
    {
      assert UpOk(dA, LA, y);
    }
    forall z: Slot | z.dir in LB.depth && DirSlot(dB, z)
      ensures DownOk(dB, LB, z)
    {
      assert DirSlot(dA, z) && DownOk(dA, LA, z);
    }
    MoveFileChains(dA, LA, dB, s, t, e);
  }

  lemma MoveFileChains(dA: Disk, LA: Layout, dB: Disk, s: Slot, t: Slot, e: Entry)
    requires WF(dA, LA) && Rewired(dA, LA, dB, s, t, e) && FileSlot(dA, s)
    requires s in LA.chain && Distinct(LA.chain[s])
    ensures ChainsOk(dB, MoveFile(LA, s, t))
  {
    MoveFileKept(dA, LA, dB, s, t, e);
    MoveFileSlots(dA, LA, dB, s, t, e);
    assert t in LA.chain ==> ChainOk(dA, LA, t);
    forall x | x in MoveFile(LA, s, t).own
      ensures OwnOk(MoveFile(LA, s, t), x)
    {
      MoveFileOwn(dA, LA, s, t, x);
    }
  }

  lemma MoveFileKept(dA: Disk, LA: Layout, dB: Disk, s: Slot, t: Slot, e: Entry)
    requires WF(dA, LA) && Rewired(dA, LA, dB, s, t, e) && FileSlot(dA, s)
    requires s in LA.chain && Distinct(LA.chain[s])
    ensures forall z {:trigger ChainOk(dB, MoveFile(LA, s, t), z)} ::
      z in MoveFile(LA, s, t).chain ==> ChainOk(dB, MoveFile(LA, s, t), z)
  {
    forall z | z in MoveFile(LA, s, t).chain
      ensures ChainOk(dB, MoveFile(LA, s, t), z)
    {
      if z == t { MoveFileTarget(dA, LA, dB, s, t, e); } else { MoveFileOther(dA, LA, dB, s, t, e, z); }
    }
  }

  lemma MoveFileSlots(dA: Disk, LA: Layout, dB: Disk, s: Slot, t: Slot, e: Entry)
    requires WF(dA, LA) && Rewired(dA, LA, dB, s, t, e) && FileSlot(dA, s)
    ensures forall z: Slot :: z.dir in LA.depth && FileSlot(dB, z) ==> z == t || (z != s && z in LA.chain)
  {
    RewiredDirs(dA, LA, dB, s, t, e);
    forall z: Slot | z.dir in LA.depth && FileSlot(dB, z)
      ensures z == t || (z != s && z in LA.chain)
    {
      if z != t { assert FileSlot(dA, z); }
    }
  }

  lemma MoveFileTarget(dA: Disk, LA: Layout, dB: Disk, s: Slot, t: Slot, e: Entry)
    requires WF(dA, LA) && Rewired(dA, LA, dB, s, t, e) && FileSlot(dA, s)
    requires s in LA.chain && Distinct(LA.chain[s])
    ensures ChainOk(dB, MoveFile(LA, s, t), t)
  {
    RewiredDirs(dA, LA, dB, s, t, e);
    UntouchedChain(dA, LA, dB, s);
  }

  lemma MoveFileOther(dA: Disk, LA: Layout, dB: Disk, s: Slot, t: Slot, e: Entry, z: Slot)
    requires WF(dA, LA) && Rewired(dA, LA, dB, s, t, e) && s in LA.chain && Distinct(LA.chain[s])
    requires z in LA.chain && z != s && z != t
    ensures ChainOk(dB, MoveFile(LA, s, t), z)
  {
    assert ChainOk(dA, LA, z);
    UntouchedChain(dA, LA, dB, z);
    RewiredDirs(dA, LA, dB, s, t, e);
    ChainsDisjoint(dA, LA, s, z);
    assert forall k :: 0 <= k < |LA.chain[z]| ==> LA.chain[z][k] in Elements(LA.chain[z]);
  }

  lemma MoveFileOwn(dA: Disk, LA: Layout, s: Slot, t: Slot, x: nat)
    requires WF(dA, LA) && s in LA.chain && Distinct(LA.chain[s]) && t !in LA.chain
    requires x in MoveFile(LA, s, t).own
    ensures x in LA.own && OwnOk(MoveFile(LA, s, t), x)
  {
    ChainsDisjoint(dA, LA, s, s);
    assert OwnOk(LA, x);
    assert LA.own[x].slot == s ==> x in LA.chain[s];
    if x in LA.chain[s] {
      var k :| 0 <= k < |LA.chain[s]| && LA.chain[s][k] == x;
      assert MoveFile(LA, s, t).own[x] == Place(t, k);
    }
  }

  // ------------------------------------------------------------------ a directory moves

  ghost function MovedDepth(dA: Disk, LA: Layout, c: nat, b: nat, y: nat): (n: nat)
    requires WF(dA, LA) && c in LA.depth && b in LA.depth && y in LA.depth
    ensures y != ROOT ==> n > 0
  {
    if Below(dA, c, y) then
      BelowInTree(dA, LA, c, y);
      LA.depth[y] - LA.depth[c] + LA.depth[b] + 1
    else LA.depth[y]
  }

  ghost function MoveDir(dA: Disk, LA: Layout, c: nat, t: Slot): Layout
    requires WF(dA, LA) && c in LA.depth && t.dir in LA.depth
  {
    LA.(depth := map y | y in LA.depth :: MovedDepth(dA, LA, c, t.dir, y), up := LA.up[c := t.idx])
  }

  ghost predicate DirRewired(dA: Disk, LA: Layout, dB: Disk, s: Slot, t: Slot, e: Entry) {
    && Rewired(dA, LA, dB, s, t, e) && DirSlot(dA, s) && !Below(dA, e.bno, t.dir)
    && e.bno in LA.depth && e.bno != ROOT
    && (forall y :: y in LA.depth ==> dB[y].parent == if y == e.bno then t.dir else dA[y].parent)
  }

  lemma MoveDirDown(dA: Disk, LA: Layout, dB: Disk, s: Slot, t: Slot, e: Entry, z: Slot)
    requires WF(dA, LA) && DirRewired(dA, LA, dB, s, t, e)
    requires z.dir in MoveDir(dA, LA, e.bno, t).depth && DirSlot(dB, z)
    ensures DownOk(dB, MoveDir(dA, LA, e.bno, t), z)
  {
    RewiredDirs(dA, LA, dB, s, t, e);
    if z != t {
      assert DirSlot(dA, z) && DownOk(dA, LA, z) && DownOk(dA, LA, s);
    }
  }

  lemma MoveDirWF(dA: Disk, LA: Layout, dB: Disk, s: Slot, t: Slot, e: Entry)
    requires WF(dA, LA) && DirRewired(dA, LA, dB, s, t, e)
    ensures WF(dB, MoveDir(dA, LA, e.bno, t)) && Reach(MoveDir(dA, LA, e.bno, t)) == Reach(LA)
  {
    var LB := MoveDir(dA, LA, e.bno, t);
    MoveDirDirs(dA, LA, dB, s, t, e);
    MoveDirChains(dA, LA, dB, s, t, e);
    hide DirsOk, ChainsOk, DownOk, UpOk, DirSlot, DirRewired;
    forall y | y in LB.depth && y != ROOT
      ensures UpOk(dB, LB, y)
    {
      MoveDirUp(dA, LA, dB, s, t, e, y);
    }
    forall z: Slot | z.dir in LB.depth && DirSlot(dB, z)
      ensures DownOk(dB, LB, z)
    {
      MoveDirDown(dA, LA, dB, s, t, e, z);
    }
  }

  lemma MoveDirDirs(dA: Disk, LA: Layout, dB: Disk, s: Slot, t: Slot, e: Entry)
    requires WF(dA, LA) && DirRewired(dA, LA, dB, s, t, e)
    ensures DirsOk(dB, MoveDir(dA, LA, e.bno, t)) && MoveDir(dA, LA, e.bno, t).depth.Keys == LA.depth.Keys
    ensures Reach(MoveDir(dA, LA, e.bno, t)) == Reach(LA)
  {
    RewiredDirs(dA, LA, dB, s, t, e);
    RootNotBelow(dA, LA, e.bno);
    hide TreeOk, ChainsOk, Below, DirBlockOk;
  }

  lemma RootNotBelow(d: Disk, L: Layout, c: nat)
    requires WF(d, L) && c in L.depth && c != ROOT
    ensures !Below(d, c, ROOT)
  {
    if Below(d, c, ROOT) {
      BelowInTree(d, L, c, ROOT);
    }
  }

  lemma MoveDirUp(dA: Disk, LA: Layout, dB: Disk, s: Slot, t: Slot, e: Entry, y: nat)
    requires WF(dA, LA) && DirRewired(dA, LA, dB, s, t, e) && y in LA.depth && y != ROOT
    ensures UpOk(dB, MoveDir(dA, LA, e.bno, t), y)
  {
    RewiredDirs(dA, LA, dB, s, t, e);
    assert UpOk(dA, LA, y);
    if y != e.bno {
      BelowParent(dA, LA, e.bno, y);
      assert Slot(dA[y].parent, LA.up[y]) != s;
    } else {
      BelowSelf(dA, y);
    }
  }

  lemma MoveDirChains(dA: Disk, LA: Layout, dB: Disk, s: Slot, t: Slot, e: Entry)
    requires WF(dA, LA) && DirRewired(dA, LA, dB, s, t, e)
    ensures ChainsOk(dB, MoveDir(dA, LA, e.bno, t))
  {
    var LB := MoveDir(dA, LA, e.bno, t);
    RewiredDirs(dA, LA, dB, s, t, e);
    forall z | z in LB.chain
      ensures ChainOk(dB, LB, z)
    {
      assert ChainOk(dA, LA, z);
      UntouchedChain(dA, LA, dB, z);
    }
    forall z: Slot | z.dir in LB.depth && FileSlot(dB, z)
      ensures z in LB.chain
    {
      assert FileSlot(dA, z);
    }
    forall x | x in LB.own
      ensures OwnOk(LB, x)
    {
      assert OwnOk(LA, x);
    }
  }

  /** Moving a directory outside itself keeps the tree well-formed and renames every path below it. */
  lemma MoveDirMoved(dA: Disk, LA: Layout, dB: Disk, s: Slot, t: Slot, e: Entry)
    requires WF(dA, LA) && DirRewired(dA, LA, dB, s, t, e)
    ensures Moved(dA, LA, dB, MoveDir(dA, LA, e.bno, t), s.dir, At(dA, s).name, t.dir, e.name)
  {
    var LB := MoveDir(dA, LA, e.bno, t);
    MoveDirWF(dA, LA, dB, s, t, e);
    RewiredDirs(dA, LA, dB, s, t, e);
    NotBelowOwnChild(dB, LB, t);
    NotBelowOwnChild(dA, LA, s);
    if Below(dB, e.bno, s.dir) {
      BelowStays(dA, LA, dB, s, t, e, s.dir);
      assert false;
    }
    RewiredMoves(dA, LA, dB, LB, s, t, e);
  }

  /** No directory is below the moved one afterwards that was not before. */
  lemma BelowStays(dA: Disk, LA: Layout, dB: Disk, s: Slot, t: Slot, e: Entry, h: nat)
    requires WF(dA, LA) && DirRewired(dA, LA, dB, s, t, e) && Below(dB, e.bno, h)
    requires !Below(dA, e.bno, s.dir)
    ensures Below(dA, e.bno, h)
  {
    var q: seq<string> :| |q| >= 1 && Home(dB, e.bno, q) == h && h != 0;
    RewiredInside(dA, LA, dB, s, t, e, e.bno, q);
    BelowIntro(dA, e.bno, q);
  }

  lemma {:induction false} RewiredInside(dA: Disk, LA: Layout, dB: Disk, s: Slot, t: Slot, e: Entry, y: nat,
                                         q: seq<string>)
    requires WF(dA, LA) && Rewired(dA, LA, dB, s, t, e) && y in LA.depth && |q| >= 1
    requires !Below(dA, y, s.dir) && !Below(dA, y, t.dir)
    ensures Home(dB, y, q) == Home(dA, y, q)
    decreases |q|
  {
    BelowSelf(dA, y);
    if |q| > 1 {
      RewiredElsewhere(dA, LA, dB, s, t, e, y, q[0]);
      var k := Child(dA, y, q[0]);
      ChildInTree(dA, LA, y, q[0]);
      if k != 0 {
        if Below(dA, k, s.dir) { BelowStep(dA, y, q[0], s.dir); }
        if Below(dA, k, t.dir) { BelowStep(dA, y, q[0], t.dir); }
        RewiredInside(dA, LA, dB, s, t, e, k, q[1..]);
      }
    }
  }

  lemma MoveFileMoved(dA: Disk, LA: Layout, dB: Disk, s: Slot, t: Slot, e: Entry)
    requires WF(dA, LA) && Rewired(dA, LA, dB, s, t, e) && FileSlot(dA, s)
    requires forall y :: y in LA.depth ==> dB[y].parent == dA[y].parent
    ensures s in LA.chain && Distinct(LA.chain[s])
    ensures Moved(dA, LA, dB, MoveFile(LA, s, t), s.dir, At(dA, s).name, t.dir, e.name)
  {
    MoveFileWF(dA, LA, dB, s, t, e);
    RewiredMoves(dA, LA, dB, MoveFile(LA, s, t), s, t, e);
  }
}
