/** Facts about well-formed images that every operation of the file system rests on. */
module TreeLemmas {
  import opened DiskModel

  // ------------------------------------------------------------------ reachability

  /** A well-formed image's layout accounts for exactly the blocks reachable from the root. */
  lemma ReachableIsReach(d: Disk, L: Layout, x: nat)
    requires WF(d, L)
    ensures Reachable(d, x) <==> x in Reach(L)
  {
    if x in Reach(L) {
      ReachIsReachable(d, L, x);
    }
    if Reachable(d, x) {
      ReachableIsInReach(d, L, x);
    }
  }

  lemma ReachIsReachable(d: Disk, L: Layout, x: nat)
    requires WF(d, L) && x in Reach(L)
    ensures Reachable(d, x)
  {
    if x in L.depth {
      DepthIsReached(d, L, x);
    } else {
      assert OwnOk(L, x);
      var Place(s, k) := L.own[x];
      assert ChainOk(d, L, s);
      DepthIsReached(d, L, s.dir);
      NthInChain(d, At(d, s).bno, L.chain[s], k);
      ChainReachIntro(d, x, s, L.depth[s.dir], k);
    }
  }

  lemma ChainReachIntro(d: Disk, x: nat, s: Slot, m: nat, n: nat)
    requires DirReach(d, s.dir, m) && FileSlot(d, s) && Nth(d, At(d, s).bno, n) == x && x != 0
    ensures ChainReach(d, x)
  {
  }

  lemma ReachableIsInReach(d: Disk, L: Layout, x: nat)
    requires WF(d, L) && Reachable(d, x)
    ensures x in Reach(L)
  {
    if n: nat :| DirReach(d, x, n) {
      ReachedHasDepth(d, L, x, n);
    } else {
      var s: Slot, m: nat, n: nat :|
        DirReach(d, s.dir, m) && FileSlot(d, s) && Nth(d, At(d, s).bno, n) == x && x != 0;
      ReachedHasDepth(d, L, s.dir, m);
      assert s in L.chain && ChainOk(d, L, s);
      NthInChain(d, At(d, s).bno, L.chain[s], n);
      ChainReached(d, L, s);
    }
  }

  lemma {:induction false} DepthIsReached(d: Disk, L: Layout, b: nat)
    requires WF(d, L) && b in L.depth
    ensures DirReach(d, b, L.depth[b])
    decreases L.depth[b]
  {
    if b != ROOT {
      assert UpOk(d, L, b);
      DepthIsReached(d, L, d[b].parent);
      var s := Slot(d[b].parent, L.up[b]);
      assert DirReach(d, s.dir, L.depth[b] - 1) && DirSlot(d, s) && At(d, s).bno == b;
    }
  }

  lemma {:induction false} ReachedHasDepth(d: Disk, L: Layout, b: nat, n: nat)
    requires WF(d, L) && DirReach(d, b, n)
    ensures b in L.depth && L.depth[b] == n
    decreases n
  {
    if n > 0 {
      var s: Slot :| DirReach(d, s.dir, n - 1) && DirSlot(d, s) && At(d, s).bno == b;
      ReachedHasDepth(d, L, s.dir, n - 1);
      assert DownOk(d, L, s);
      assert UpOk(d, L, b);
    }
  }

  /** Walking a chain visits its listed blocks in order and then stays at 0. */
  lemma {:induction false} NthInChain(d: Disk, b: nat, p: seq<nat>, n: nat)
    requires IsChain(d, b, p)
    ensures Nth(d, b, n) == if n < |p| then p[n] else 0
  {
    if n > 0 {
      NthInChain(d, b, p, n - 1);
    }
  }

  /** The chain that starts at a block is determined by the image. */
  lemma {:induction false} ChainUnique(d: Disk, b: nat, p: seq<nat>, q: seq<nat>)
    requires IsChain(d, b, p) && IsChain(d, b, q)
    ensures p == q
  {
    if |p| < |q| {
      NthInChain(d, b, p, |p|);
      NthInChain(d, b, q, |p|);
    } else if |q| < |p| {
      NthInChain(d, b, p, |q|);
      NthInChain(d, b, q, |q|);
    } else {
      forall k | 0 <= k < |p|
        ensures p[k] == q[k]
      {
        NthInChain(d, b, p, k);
        NthInChain(d, b, q, k);
      }
    }
  }

  // ------------------------------------------------------------------ frames

  /** The two images hold the same blocks at `s`. */
  ghost predicate Agree(d0: Disk, d1: Disk, s: set<nat>) {
    |d1| == |d0| && forall x :: x in s && x < |d0| ==> d1[x] == d0[x]
  }

  ghost predicate AgreeOnChain(d0: Disk, d1: Disk, p: seq<nat>) {
    |d1| == |d0| && forall k :: 0 <= k < |p| && p[k] < |d0| ==> d1[p[k]] == d0[p[k]]
  }

  lemma ChainTail(d: Disk, b: nat, p: seq<nat>)
    requires IsChain(d, b, p) && p != []
    ensures IsChain(d, Next(d[b]), p[1..])
  {
    var q := p[1..];
    assert q != [] ==> Next(d[p[0]]) == p[1];
    forall k | 0 <= k < |q|
      ensures q[k] == p[k + 1]
    {
    }
  }

  lemma {:induction false} ReadChainFrame(d0: Disk, d1: Disk, b: nat, p: seq<nat>, n: nat)
    requires IsChain(d0, b, p) && AgreeOnChain(d0, d1, p)
    ensures ReadChain(d1, b, n) == ReadChain(d0, b, n)
    decreases |p|
  {
    if p != [] {
      assert d1[p[0]] == d0[p[0]];
      var q := p[1..];
      ChainTail(d0, b, p);
      assert AgreeOnChain(d0, d1, q);
      if n > |Content(d0[b])| {
        ReadChainFrame(d0, d1, Next(d0[b]), q, n - |Content(d0[b])|);
      }
    }
  }

  lemma IsChainFrame(d0: Disk, d1: Disk, b: nat, p: seq<nat>)
    requires IsChain(d0, b, p) && AgreeOnChain(d0, d1, p)
    ensures IsChain(d1, b, p)
  {
    forall k | 0 <= k < |p|
      ensures d1[p[k]] == d0[p[k]]
    {
    }
  }

  /** A directory's child lookup lands on another directory of the tree. */
  lemma ChildInTree(d: Disk, L: Layout, b: nat, name: string)
    requires WF(d, L) && b in L.depth
    ensures Child(d, b, name) == 0 || (Child(d, b, name) in L.depth && L.depth[Child(d, b, name)] == L.depth[b] + 1)
  {
    var i := Find(d[b].entries, name, TYPE_DIR);
    if i >= 0 {
      assert DownOk(d, L, Slot(b, i));
      assert UpOk(d, L, d[b].entries[i].bno);
    }
  }

  lemma {:induction false} HomeInTree(d: Disk, L: Layout, b: nat, path: seq<string>)
    requires WF(d, L) && b in L.depth && |path| >= 1
    ensures Home(d, b, path) == 0 || Home(d, b, path) in L.depth
    decreases |path|
  {
    if |path| > 1 {
      ChildInTree(d, L, b, path[0]);
      if Child(d, b, path[0]) != 0 {
        HomeInTree(d, L, Child(d, b, path[0]), path[1..]);
      }
    }
  }

  ghost predicate SameChildren(d0: Disk, d1: Disk, b: nat) {
    IsDir(d0, b) && IsDir(d1, b) && forall name :: Child(d1, b, name) == Child(d0, b, name)
  }

  /** When no directory of the tree changes its subdirectories, no path changes its home. */
  lemma {:induction false} HomeFrame(d0: Disk, L0: Layout, d1: Disk, b: nat, path: seq<string>)
    requires WF(d0, L0) && b in L0.depth && |path| >= 1
    requires forall y :: y in L0.depth ==> SameChildren(d0, d1, y)
    ensures Home(d1, b, path) == Home(d0, b, path)
    decreases |path|
  {
    assert SameChildren(d0, d1, b);
    if |path| > 1 {
      ChildInTree(d0, L0, b, path[0]);
      if Child(d0, b, path[0]) != 0 {
        HomeFrame(d0, L0, d1, Child(d0, b, path[0]), path[1..]);
      }
    }
  }

  /** A directory whose block and whose files' chains are untouched reads the same. */
  lemma LookAtFrame(d0: Disk, L0: Layout, d1: Disk, b: nat, leaf: string)
    requires WF(d0, L0) && b in L0.depth && |d1| == |d0| && d1[b] == d0[b]
    requires forall s :: s in L0.chain && s.dir == b ==> AgreeOnChain(d0, d1, L0.chain[s])
    ensures LookAt(d1, b, leaf) == LookAt(d0, b, leaf)
  {
    var i := Find(d0[b].entries, leaf, ANY_TYPE);
    if i >= 0 && d0[b].entries[i].typ != TYPE_DIR {
      var s := Slot(b, i);
      assert FileSlot(d0, s) && ChainOk(d0, L0, s);
      ReadChainFrame(d0, d1, At(d0, s).bno, L0.chain[s], At(d0, s).size);
    }
  }

  /** Every block of a chain of the layout is reachable. */
  lemma ChainReached(d: Disk, L: Layout, s: Slot)
    requires WF(d, L) && s in L.chain
    ensures forall k :: 0 <= k < |L.chain[s]| ==> L.chain[s][k] in Reach(L)
  {
    assert ChainOk(d, L, s);
  }

  /** An image that agrees with a well-formed one on its reachable blocks is the same tree. */
  lemma SameTree(d0: Disk, L0: Layout, d1: Disk)
    requires WF(d0, L0) && Agree(d0, d1, Reach(L0))
    ensures WF(d1, L0)
    ensures forall path :: |path| >= 1 ==>
      Look(d1, path) == Look(d0, path) && Home(d1, ROOT, path) == Home(d0, ROOT, path)
  {
    forall s | s in L0.chain
      ensures AgreeOnChain(d0, d1, L0.chain[s]) && ChainOk(d1, L0, s)
    {
      assert ChainOk(d0, L0, s);
      IsChainFrame(d0, d1, At(d0, s).bno, L0.chain[s]);
    }
    forall b | b in L0.depth
      ensures d1[b] == d0[b] && SameChildren(d0, d1, b)
    {
    }
    SameTreeOk(d0, L0, d1);
    forall path: seq<string> | |path| >= 1
      ensures Look(d1, path) == Look(d0, path) && Home(d1, ROOT, path) == Home(d0, ROOT, path)
    {
      HomeFrame(d0, L0, d1, ROOT, path);
      HomeInTree(d0, L0, ROOT, path);
      var h := Home(d0, ROOT, path);
      if h != 0 {
        LookAtFrame(d0, L0, d1, h, Last(path));
      }
    }
  }

  lemma SameTreeOk(d0: Disk, L0: Layout, d1: Disk)
    requires WF(d0, L0) && |d1| == |d0|
    requires forall b :: b in L0.depth ==> d1[b] == d0[b]
    requires forall s :: s in L0.chain ==> ChainOk(d1, L0, s)
    ensures WF(d1, L0)
  {
    forall b | b in L0.depth
      ensures DirBlockOk(d1[b])
    {
      assert DirBlockOk(d0[b]);
    }
    forall c | c in L0.depth && c != ROOT
      ensures UpOk(d1, L0, c)
    {
      assert UpOk(d0, L0, c);
    }
    forall s: Slot | s.dir in L0.depth && DirSlot(d1, s)
      ensures DownOk(d1, L0, s)
    {
      assert DirSlot(d0, s) && DownOk(d0, L0, s);
    }
    forall s: Slot | s.dir in L0.depth && FileSlot(d1, s)
      ensures s in L0.chain
    {
      assert FileSlot(d0, s);
    }
  }
}
