/** Renaming within one directory, and what is left of the tree when a directory's only entry is
    cleared while it still holds files: the crash window of a move, and the end of a move of a
    directory into its own subtree. */
module TreeLoss {
  import opened DiskModel
  import opened TreeLemmas
  import opened TreeEdits
  import opened Paths
  import opened TreeMoves

  // ------------------------------------------------------------------ renaming in place

  ghost predicate Relabelled(d0: Disk, L0: Layout, d1: Disk, s: Slot, e: Entry) {
    && SlotEdit(d0, d1, s, e) && s.dir in L0.depth && InUse(d0, s)
    && e.name != "" && |e.name| <= NAME_MAX && NameFree(d0, s, e.name)
    && e.bno == At(d0, s).bno && e.typ == At(d0, s).typ && e.size == At(d0, s).size
    && (forall x :: x in Reach(L0) && x != s.dir && x < |d0| ==> d1[x] == d0[x])
  }

  lemma RelabelledWF(d0: Disk, L0: Layout, d1: Disk, s: Slot, e: Entry)
    requires WF(d0, L0) && Relabelled(d0, L0, d1, s, e)
    ensures WF(d1, L0)
  {
    assert DirBlockOk(d0[s.dir]);
    EditKeepsDirs(d0, L0, d1, s, e);
    forall c | c in L0.depth && c != ROOT
      ensures UpOk(d1, L0, c)
    {
      assert UpOk(d0, L0, c);
    }
    forall z: Slot | z.dir in L0.depth && DirSlot(d1, z)
      ensures DownOk(d1, L0, z)
    {
      assert DirSlot(d0, z) && DownOk(d0, L0, z);
    }
    RelabelledChains(d0, L0, d1, s, e);
  }

  lemma RelabelledChains(d0: Disk, L0: Layout, d1: Disk, s: Slot, e: Entry)
    requires WF(d0, L0) && Relabelled(d0, L0, d1, s, e)
    ensures ChainsOk(d1, L0)
  {
    OwnFrame(d0, L0, d1, s);
    forall z | z in L0.chain
      ensures ChainOk(d1, L0, z)
    {
      assert ChainOk(d0, L0, z);
      UntouchedChain(d0, L0, d1, z);
    }
    forall z: Slot | z.dir in L0.depth && FileSlot(d1, z)
      ensures z in L0.chain
    {
      assert FileSlot(d0, z);
    }
  }

  lemma OwnFrame(d0: Disk, L0: Layout, d1: Disk, s: Slot)
    requires WF(d0, L0) && |d1| == |d0| && s.dir in L0.depth
    requires forall x :: x in Reach(L0) && x != s.dir && x < |d0| ==> d1[x] == d0[x]
    ensures forall x :: x in L0.own && x < |d0| ==> d1[x] == d0[x]
  {
    forall x | x in L0.own && x < |d0|
      ensures d1[x] == d0[x]
    {
      assert OwnOk(L0, x);
    }
  }

  lemma RelabelledLook(d0: Disk, L0: Layout, d1: Disk, s: Slot, e: Entry)
    requires WF(d0, L0) && Relabelled(d0, L0, d1, s, e)
    ensures Child(d1, s.dir, e.name) == Child(d0, s.dir, At(d0, s).name) == if e.typ == TYPE_DIR then e.bno else 0
    ensures LookAt(d1, s.dir, e.name) == LookAt(d0, s.dir, At(d0, s).name)
    ensures LookAt(d0, s.dir, At(d0, s).name) == Directory <==> e.typ == TYPE_DIR
  {
    RelabelledWF(d0, L0, d1, s, e);
    assert DirBlockOk(d0[s.dir]) && DirBlockOk(d1[s.dir]);
    FindOnly(d0[s.dir].entries, s.idx, ANY_TYPE);
    FindOnly(d1[s.dir].entries, s.idx, ANY_TYPE);
    if e.typ == TYPE_DIR {
      FindOnly(d0[s.dir].entries, s.idx, TYPE_DIR);
      FindOnly(d1[s.dir].entries, s.idx, TYPE_DIR);
    } else {
      OwnFrame(d0, L0, d1, s);
      UntouchedChain(d0, L0, d1, s);
      ReadChainFrame(d0, d1, e.bno, L0.chain[s], e.size);
    }
  }

  lemma RelabelledElsewhere(d0: Disk, L0: Layout, d1: Disk, s: Slot, e: Entry, y: nat, n: string)
    requires WF(d0, L0) && Relabelled(d0, L0, d1, s, e) && y in L0.depth
    requires y != s.dir || (n != At(d0, s).name && n != e.name)
    ensures Child(d1, y, n) == Child(d0, y, n) && LookAt(d1, y, n) == LookAt(d0, y, n)
  {
    if y == s.dir {
      FindEdit(d0[y].entries, s.idx, e, n, TYPE_DIR);
    }
    OtherLook(d0, L0, d1, s, e, y, n);
  }

  lemma RelabelledMoved(d0: Disk, L0: Layout, d1: Disk, s: Slot, e: Entry)
    requires WF(d0, L0) && Relabelled(d0, L0, d1, s, e) && e.name != At(d0, s).name
    ensures Moved(d0, L0, d1, L0, s.dir, At(d0, s).name, s.dir, e.name)
  {
    var was := At(d0, s).name;
    RelabelledWF(d0, L0, d1, s, e);
    RelabelledLook(d0, L0, d1, s, e);
    assert DirBlockOk(d0[s.dir]) && DirBlockOk(d1[s.dir]);
    NoSlotLook(d0, s.dir, e.name);
    NoSlotLook(d1, s.dir, was);
    forall y, n: string | y in L0.depth && (y != s.dir || n != was) && (y != s.dir || n != e.name)
      ensures Child(d1, y, n) == Child(d0, y, n) && LookAt(d1, y, n) == LookAt(d0, y, n)
    {
      RelabelledElsewhere(d0, L0, d1, s, e, y, n);
    }
    if e.typ == TYPE_DIR {
      NotBelowOwnChild(d0, L0, s);
      NotBelowOwnChild(d1, L0, s);
    }
  }

  /** Rewriting an entry under the same name (only its time changes) changes no path. */
  lemma RetouchedLook(d0: Disk, L0: Layout, d1: Disk, s: Slot, e: Entry, path: seq<string>)
    requires WF(d0, L0) && Relabelled(d0, L0, d1, s, e) && e.name == At(d0, s).name && |path| >= 1
    ensures Look(d1, path) == Look(d0, path)
  {
    RelabelledLook(d0, L0, d1, s, e);
    forall y, n: string | y in L0.depth
      ensures Child(d1, y, n) == Child(d0, y, n) && LookAt(d1, y, n) == LookAt(d0, y, n)
    {
      if y != s.dir || n != e.name { RelabelledElsewhere(d0, L0, d1, s, e, y, n); }
    }
    forall y | y in L0.depth
      ensures SameChildren(d0, d1, y)
    {
    }
    HomeFrame(d0, L0, d1, ROOT, path);
    HomeInTree(d0, L0, ROOT, path);
  }

  // ------------------------------------------------------------------ losing a subtree

  /** The layout without directory `c` and everything below it. */
  ghost function Detach(d: Disk, L: Layout, c: nat): Layout {
    Layout(map y | y in L.depth && !Below(d, c, y) :: L.depth[y],
           L.up,
           map s | s in L.chain && !Below(d, c, s.dir) :: L.chain[s],
           map x | x in L.own && !Below(d, c, L.own[x].slot.dir) :: L.own[x])
  }

  /** Slot `s`, which held directory `c`, is cleared; blocks outside `c`'s subtree are otherwise
      as before. */
  ghost predicate CutOff(d0: Disk, L0: Layout, d1: Disk, s: Slot) {
    && s.dir in L0.depth && DirSlot(d0, s) && |d1| == |d0|
    && d1[s.dir] == Dir(d0[s.dir].parent, d0[s.dir].entries[s.idx := FREE])
    && (forall x :: x in Reach(Detach(d0, L0, At(d0, s).bno)) && x != s.dir && x < |d0| ==> d1[x] == d0[x])
  }

  lemma CutOffDirs(d0: Disk, L0: Layout, d1: Disk, s: Slot)
    requires WF(d0, L0) && CutOff(d0, L0, d1, s)
    ensures var L1 := Detach(d0, L0, At(d0, s).bno);
      && s.dir in L1.depth && DirsOk(d1, L1)
      && (forall y :: y in L1.depth ==> d1[y].parent == d0[y].parent)
      && (forall z: Slot :: z.dir in L1.depth && z != s ==> (InUse(d1, z) <==> InUse(d0, z)))
      && (forall z: Slot :: z.dir in L1.depth && z != s && InUse(d0, z) ==> At(d1, z) == At(d0, z))
      && !InUse(d1, s)
  {
    var c := At(d0, s).bno;
    var L1 := Detach(d0, L0, c);
    NotBelowOwnChild(d0, L0, s);
    assert DownOk(d0, L0, s);
    RootNotBelow(d0, L0, c);
    forall y | y in L1.depth
      ensures IsDir(d1, y) && d1[y].parent == d0[y].parent && DirBlockOk(d1[y])
    {
      assert DirBlockOk(d0[y]);
      if y == s.dir {
        EditKeepsDirBlock(d0[y].entries, s.idx, FREE);
      }
    }
  }

  /** What remains is a well-formed tree without the lost subtree. */
  lemma CutOffWF(d0: Disk, L0: Layout, d1: Disk, s: Slot)
    requires WF(d0, L0) && CutOff(d0, L0, d1, s)
    ensures WF(d1, Detach(d0, L0, At(d0, s).bno))
    ensures Reach(Detach(d0, L0, At(d0, s).bno)) <= Reach(L0)
  {
    CutOffDirs(d0, L0, d1, s);
    CutOffTree(d0, L0, d1, s);
    CutOffChains(d0, L0, d1, s);
  }

  lemma CutOffTree(d0: Disk, L0: Layout, d1: Disk, s: Slot)
    requires WF(d0, L0) && CutOff(d0, L0, d1, s) && DirsOk(d1, Detach(d0, L0, At(d0, s).bno))
    ensures TreeOk(d1, Detach(d0, L0, At(d0, s).bno))
  {
    var c := At(d0, s).bno;
    var L1 := Detach(d0, L0, c);
    CutOffDirs(d0, L0, d1, s);
    assert DownOk(d0, L0, s);
    BelowSelf(d0, c);
    forall y | y in L1.depth && y != ROOT
      ensures UpOk(d1, L1, y)
    {
      assert UpOk(d0, L0, y);
      BelowParent(d0, L0, c, y);
    }
    forall z: Slot | z.dir in L1.depth && DirSlot(d1, z)
      ensures DownOk(d1, L1, z)
    {
      assert DirSlot(d0, z) && DownOk(d0, L0, z);
      BelowSlot(d0, L0, c, z);
    }
  }

  lemma CutOffChains(d0: Disk, L0: Layout, d1: Disk, s: Slot)
    requires WF(d0, L0) && CutOff(d0, L0, d1, s)
    ensures ChainsOk(d1, Detach(d0, L0, At(d0, s).bno))
  {
    var L1 := Detach(d0, L0, At(d0, s).bno);
    CutOffDirs(d0, L0, d1, s);
    forall z | z in L1.chain
      ensures ChainOk(d1, L1, z)
    {
      CutOffChain(d0, L0, d1, s, z);
    }
    forall z: Slot | z.dir in L1.depth && FileSlot(d1, z)
      ensures z in L1.chain
    {
      assert FileSlot(d0, z);
    }
    forall x | x in L1.own
      ensures OwnOk(L1, x)
    {
      assert OwnOk(L0, x);
    }
  }

  lemma CutOffChain(d0: Disk, L0: Layout, d1: Disk, s: Slot, z: Slot)
    requires WF(d0, L0) && CutOff(d0, L0, d1, s) && z in Detach(d0, L0, At(d0, s).bno).chain
    ensures ChainOk(d1, Detach(d0, L0, At(d0, s).bno), z)
    ensures AgreeOnChain(d0, d1, L0.chain[z])
  {
    CutOffDirs(d0, L0, d1, s);
    assert ChainOk(d0, L0, z);
    forall k | 0 <= k < |L0.chain[z]|
      ensures d1[L0.chain[z][k]] == d0[L0.chain[z][k]]
    {
      assert OwnOk(L0, L0.chain[z][k]);
    }
    IsChainFrame(d0, d1, At(d0, z).bno, L0.chain[z]);
  }

  /** Which children a directory outside the lost subtree still has. */
  lemma CutOffChild(d0: Disk, L0: Layout, d1: Disk, s: Slot, y: nat, n: string)
    requires WF(d0, L0) && CutOff(d0, L0, d1, s) && y in L0.depth && !Below(d0, At(d0, s).bno, y)
    ensures if y == s.dir && n == At(d0, s).name then Child(d1, y, n) == 0 && LookAt(d1, y, n) == Missing
            else Child(d1, y, n) == Child(d0, y, n) && LookAt(d1, y, n) == LookAt(d0, y, n)
  {
    assert DirBlockOk(d0[y]);
    CutOffDirs(d0, L0, d1, s);
    if y == s.dir && n == At(d0, s).name {
      NoSlotLook(d1, y, n);
    } else {
      if y == s.dir {
        FindEdit(d0[y].entries, s.idx, FREE, n, TYPE_DIR);
        FindEdit(d0[y].entries, s.idx, FREE, n, ANY_TYPE);
      }
      var i := Find(d0[y].entries, n, ANY_TYPE);
      if i >= 0 && d0[y].entries[i].typ != TYPE_DIR {
        var z := Slot(y, i);
        assert FileSlot(d0, z) && ChainOk(d0, L0, z);
        CutOffChain(d0, L0, d1, s, z);
        ReadChainFrame(d0, d1, At(d0, z).bno, L0.chain[z], At(d0, z).size);
      }
    }
  }

  lemma ChildOutside(d0: Disk, L0: Layout, s: Slot, y: nat, n: string)
    requires WF(d0, L0) && s.dir in L0.depth && DirSlot(d0, s) && y in L0.depth && !Below(d0, At(d0, s).bno, y)
    requires (y != s.dir || n != At(d0, s).name) && Child(d0, y, n) != 0
    ensures !Below(d0, At(d0, s).bno, Child(d0, y, n))
  {
    assert DownOk(d0, L0, s);
    var z := Slot(y, Find(d0[y].entries, n, TYPE_DIR));
    assert DownOk(d0, L0, z);
    BelowSlot(d0, L0, At(d0, s).bno, z);
  }

  /** A path leads in the remaining tree where it led before, unless that was in the lost subtree. */
  lemma {:induction false} CutOffHome(d0: Disk, L0: Layout, d1: Disk, s: Slot, y: nat, q: seq<string>)
    requires WF(d0, L0) && CutOff(d0, L0, d1, s) && y in L0.depth && !Below(d0, At(d0, s).bno, y) && |q| >= 1
    ensures Home(d1, y, q) == if Below(d0, At(d0, s).bno, Home(d0, y, q)) then 0 else Home(d0, y, q)
    decreases |q|
  {
    var c := At(d0, s).bno;
    CutOffDirs(d0, L0, d1, s);
    if |q| > 1 {
      CutOffChild(d0, L0, d1, s, y, q[0]);
      var k := Child(d0, y, q[0]);
      ChildInTree(d0, L0, y, q[0]);
      if y == s.dir && q[0] == At(d0, s).name {
        assert DirBlockOk(d0[y]);
        FindOnly(d0[y].entries, s.idx, TYPE_DIR);
        if Home(d0, k, q[1..]) != 0 { BelowIntro(d0, c, q[1..]); }
      } else if k != 0 {
        ChildOutside(d0, L0, s, y, q[0]);
        CutOffHome(d0, L0, d1, s, k, q[1..]);
      }
    }
  }

  /** The lost paths are exactly the directory's own and those that run through it. */
  lemma CutOffLook(d0: Disk, L0: Layout, d1: Disk, s: Slot, u: seq<string>, r: seq<string>)
    requires WF(d0, L0) && CutOff(d0, L0, d1, s) && |u| >= 1 && |r| >= 1
    requires Names(d0, u, s.dir, At(d0, s).name)
    ensures Look(d1, r) == if u <= r then Missing else Look(d0, r)
  {
    var c := At(d0, s).bno;
    NotBelowOwnChild(d0, L0, s);
    assert DownOk(d0, L0, s) && DirBlockOk(d0[s.dir]);
    RootNotBelow(d0, L0, c);
    FindOnly(d0[s.dir].entries, s.idx, TYPE_DIR);
    CutOffHome(d0, L0, d1, s, ROOT, r);
    HomeInTree(d0, L0, ROOT, r);
    var h := Home(d0, ROOT, r);
    if u <= r {
      CutOffGone(d0, L0, d1, s, u, r);
    } else if h != 0 {
      if Below(d0, c, h) {
        RunsThrough(d0, L0, s.dir, At(d0, s).name, u, r);
        assert false;
      } else {
        CutOffChild(d0, L0, d1, s, h, Last(r));
        if h == s.dir && Last(r) == At(d0, s).name { PathUnique(d0, L0, r, u); }
      }
    }
  }

  lemma CutOffGone(d0: Disk, L0: Layout, d1: Disk, s: Slot, u: seq<string>, r: seq<string>)
    requires WF(d0, L0) && CutOff(d0, L0, d1, s) && 1 <= |u| <= |r| && u <= r
    requires Names(d0, u, s.dir, At(d0, s).name) && !Below(d0, At(d0, s).bno, s.dir)
    requires At(d0, s).bno in L0.depth && At(d0, s).bno != ROOT && !Below(d0, At(d0, s).bno, ROOT)
    ensures Look(d1, r) == Missing
  {
    CutOffHome(d0, L0, d1, s, ROOT, u);
    CutOffChild(d0, L0, d1, s, s.dir, At(d0, s).name);
    if |r| > |u| {
      var q := r[|u|..];
      assert r == u + q;
      HomeConcat(d1, ROOT, u, q);
    } else {
      assert r == u;
    }
  }
}
