/** How one edit of the tree changes the certificate of well-formedness and what paths read as. */
module TreeEdits {
  import opened DiskModel
  import opened Sequences
  import opened TreeLemmas

  ghost function Places(s: Slot, p: seq<nat>): (m: map<nat, Place>)
    requires Distinct(p)
    ensures m.Keys == Elements(p)
    ensures forall k :: 0 <= k < |p| ==> m[p[k]] == Place(s, k)
  {
    map k | 0 <= k < |p| :: p[k] := Place(s, k)
  }

  function OldChain(L: Layout, s: Slot): seq<nat> {
    if s in L.chain then L.chain[s] else []
  }

  /** The chains of a layout repeat no block, and different slots share none. */
  lemma ChainsDisjoint(d: Disk, L: Layout, s: Slot, t: Slot)
    requires WF(d, L) && s in L.chain && t in L.chain
    ensures Distinct(L.chain[s])
    ensures s != t ==> Elements(L.chain[s]) !! Elements(L.chain[t])
    ensures Elements(L.chain[s]) <= L.own.Keys && L.own.Keys !! L.depth.Keys
  {
    assert forall x :: x in L.own ==> OwnOk(L, x);
    assert ChainOk(d, L, s) && ChainOk(d, L, t);
    forall j, k | 0 <= j < k < |L.chain[s]|
      ensures L.chain[s][j] != L.chain[s][k]
    {
      assert L.own[L.chain[s][j]] == Place(s, j) && L.own[L.chain[s][k]] == Place(s, k);
    }
    if s != t {
      forall j, k | 0 <= j < |L.chain[s]| && 0 <= k < |L.chain[t]|
        ensures L.chain[s][j] != L.chain[t][k]
      {
        assert L.own[L.chain[s][j]] == Place(s, j) && L.own[L.chain[t][k]] == Place(t, k);
      }
    }
  }

  /** An update of one slot does not move a search that the slot matches neither before nor after. */
  lemma FindEdit(es: seq<Entry>, i: nat, e: Entry, name: string, filter: int)
    requires i < |es| && !Matches(es[i], name, filter) && !Matches(e, name, filter)
    ensures Find(es[i := e], name, filter) == Find(es, name, filter)
  {
    var r0, r1 := Find(es, name, filter), Find(es[i := e], name, filter);
    if 0 <= r0 {
      assert Matches(es[i := e][r0], name, filter);
    }
    if 0 <= r1 {
      assert Matches(es[r1], name, filter);
    }
  }

  /** Names being unique, a search finds the one slot that matches. */
  lemma FindOnly(es: seq<Entry>, i: nat, filter: int)
    requires i < |es| && UniqueNames(es) && Matches(es[i], es[i].name, filter)
    ensures Find(es, es[i].name, filter) == i
  {
    var r := Find(es, es[i].name, filter);
    assert Matches(es[r], es[i].name, filter);
  }

  /** Directory block `s.dir` has entry `e` in slot `s` and is otherwise as before. */
  ghost predicate SlotEdit(d0: Disk, d1: Disk, s: Slot, e: Entry) {
    && |d1| == |d0| && IsDir(d0, s.dir) && s.idx < MAX_DIR_ENTRIES
    && d1[s.dir] == Dir(d0[s.dir].parent, d0[s.dir].entries[s.idx := e])
  }

  ghost predicate NameFree(d: Disk, s: Slot, name: string) {
    IsDir(d, s.dir) && forall j :: 0 <= j < MAX_DIR_ENTRIES && j != s.idx ==> d[s.dir].entries[j].name != name
  }

  lemma EditKeepsDirBlock(es: seq<Entry>, i: nat, e: Entry)
    requires i < |es| && UniqueNames(es) && (forall j :: 0 <= j < |es| ==> EntryOk(es[j]))
    requires EntryOk(e) && (e.name == "" || forall j :: 0 <= j < |es| && j != i ==> es[j].name != e.name)
    ensures UniqueNames(es[i := e])
    ensures var es' := es[i := e]; forall j :: 0 <= j < |es'| ==> EntryOk(es'[j])
  {
  }

  /** After an edit every directory block of the tree is still in order. */
  lemma EditKeepsDirs(d0: Disk, L0: Layout, d1: Disk, s: Slot, e: Entry)
    requires WF(d0, L0) && SlotEdit(d0, d1, s, e) && s.dir in L0.depth
    requires EntryOk(e) && (e.name == "" || NameFree(d0, s, e.name))
    requires forall x :: x in Reach(L0) && x != s.dir && x < |d0| ==> d1[x] == d0[x]
    ensures DirsOk(d1, L0)
  {
    forall b | b in L0.depth
      ensures IsDir(d1, b) && d1[b].parent == d0[b].parent && DirBlockOk(d1[b])
    {
      assert DirBlockOk(d0[b]);
      if b == s.dir {
        EditKeepsDirBlock(d0[b].entries, s.idx, e);
      }
    }
  }

  // ------------------------------------------------------------------ a file slot gets a new chain

  ghost function PutFile(L: Layout, s: Slot, p: seq<nat>): Layout
    requires Distinct(p)
  {
    L.(chain := L.chain[s := p], own := (L.own - Elements(OldChain(L, s))) + Places(s, p))
  }

  /** `e` heads the new chain `p`, built from blocks the tree did not reach. */
  ghost predicate FilePut(d0: Disk, L0: Layout, d1: Disk, s: Slot, e: Entry, p: seq<nat>) {
    && SlotEdit(d0, d1, s, e) && s.dir in L0.depth && !DirSlot(d0, s)
    && e.name != "" && EntryOk(e) && e.typ == TYPE_FILE && NameFree(d0, s, e.name)
    && IsChain(d1, e.bno, p) && Distinct(p) && (forall x :: x in p ==> x !in Reach(L0))
    && (forall x :: x in Reach(L0) && x != s.dir && x < |d0| ==> d1[x] == d0[x])
  }

  lemma PutFileWF(d0: Disk, L0: Layout, d1: Disk, s: Slot, e: Entry, p: seq<nat>)
    requires WF(d0, L0) && FilePut(d0, L0, d1, s, e, p)
    ensures WF(d1, PutFile(L0, s, p))
    ensures Reach(PutFile(L0, s, p)) == (Reach(L0) - Elements(OldChain(L0, s))) + Elements(p)
  {
    var L1 := PutFile(L0, s, p);
    EditKeepsDirs(d0, L0, d1, s, e);
    assert DirsOk(d1, L1);
    PutFileTree(d0, L0, d1, s, e, p);
    PutFileChains(d0, L0, d1, s, e, p);
    assert Elements(OldChain(L0, s)) !! L0.depth.Keys by {
      if s in L0.chain { ChainsDisjoint(d0, L0, s, s); }
    }
  }

  /** An edit between two non-directory entries leaves every directory link in place. */
  lemma SameLinks(d0: Disk, L0: Layout, d1: Disk, s: Slot, e: Entry)
    requires WF(d0, L0) && SlotEdit(d0, d1, s, e) && s.dir in L0.depth && !DirSlot(d0, s)
    requires e.name == "" || e.typ != TYPE_DIR
    requires forall x :: x in L0.depth && x != s.dir ==> d1[x] == d0[x]
    ensures forall b :: b in L0.depth ==> IsDir(d1, b) && d1[b].parent == d0[b].parent
    ensures forall t: Slot :: t.dir in L0.depth ==> (DirSlot(d1, t) <==> DirSlot(d0, t))
    ensures forall t: Slot :: t.dir in L0.depth && DirSlot(d1, t) ==> At(d1, t) == At(d0, t)
    ensures forall b :: b in L0.depth ==> SameChildren(d0, d1, b)
  {
    forall b, name: string | b in L0.depth
      ensures Child(d1, b, name) == Child(d0, b, name)
    {
      if b == s.dir {
        FindEdit(d0[b].entries, s.idx, e, name, TYPE_DIR);
      }
    }
  }

  lemma PutFileTree(d0: Disk, L0: Layout, d1: Disk, s: Slot, e: Entry, p: seq<nat>)
    requires WF(d0, L0) && FilePut(d0, L0, d1, s, e, p)
    requires DirsOk(d1, PutFile(L0, s, p))
    ensures TreeOk(d1, PutFile(L0, s, p))
  {
    var L1 := PutFile(L0, s, p);
    SameLinks(d0, L0, d1, s, e);
    forall c | c in L1.depth && c != ROOT
      ensures UpOk(d1, L1, c)
    {
      assert UpOk(d0, L0, c);
    }
    forall t: Slot | t.dir in L1.depth && DirSlot(d1, t)
      ensures DownOk(d1, L1, t)
    {
      assert DownOk(d0, L0, t);
    }
  }

  lemma PutFileChains(d0: Disk, L0: Layout, d1: Disk, s: Slot, e: Entry, p: seq<nat>)
    requires WF(d0, L0) && FilePut(d0, L0, d1, s, e, p)
    ensures ChainsOk(d1, PutFile(L0, s, p))
  {
    var L1 := PutFile(L0, s, p);
    forall t | t in L1.chain
      ensures ChainOk(d1, L1, t)
    {
      if t != s { PutFileOtherChain(d0, L0, d1, s, e, p, t); }
    }
    PutFileSlots(d0, L0, d1, s, e);
    forall x | x in L1.own
      ensures OwnOk(L1, x)
    {
      PutFileOwn(d0, L0, s, p, x);
    }
  }

  lemma PutFileSlots(d0: Disk, L0: Layout, d1: Disk, s: Slot, e: Entry)
    requires WF(d0, L0) && SlotEdit(d0, d1, s, e)
    requires forall x :: x in L0.depth && x != s.dir ==> d1[x] == d0[x]
    ensures forall t: Slot :: t.dir in L0.depth && FileSlot(d1, t) ==> t == s || t in L0.chain
  {
    forall t: Slot | t.dir in L0.depth && FileSlot(d1, t)
      ensures t == s || t in L0.chain
    {
      if t != s { assert FileSlot(d0, t); }
    }
  }

  lemma PutFileOtherChain(d0: Disk, L0: Layout, d1: Disk, s: Slot, e: Entry, p: seq<nat>, t: Slot)
    requires WF(d0, L0) && FilePut(d0, L0, d1, s, e, p) && t in L0.chain && t != s
    ensures ChainOk(d1, PutFile(L0, s, p), t)
  {
    assert ChainOk(d0, L0, t);
    KeptChain(d0, L0, d1, s, t);
    OtherSlotKept(d0, L0, d1, s, e, t);
    PutFileOtherOwn(d0, L0, s, p, t);
    hide IsChain, WF, FilePut, FileSlot, InUse, Places, OldChain;
  }

  lemma OtherSlotKept(d0: Disk, L0: Layout, d1: Disk, s: Slot, e: Entry, t: Slot)
    requires WF(d0, L0) && SlotEdit(d0, d1, s, e) && t in L0.chain && t != s
    requires forall x :: x in Reach(L0) && x != s.dir && x < |d0| ==> d1[x] == d0[x]
    ensures FileSlot(d0, t) && FileSlot(d1, t) && At(d1, t) == At(d0, t) && t.dir in L0.depth
  {
    assert ChainOk(d0, L0, t);
    hide IsChain, UniqueNames;
  }

  lemma PutFileOtherOwn(d0: Disk, L0: Layout, s: Slot, p: seq<nat>, t: Slot)
    requires WF(d0, L0) && Distinct(p) && (forall y :: y in p ==> y !in Reach(L0)) && t in L0.chain && t != s
    ensures var L1, q := PutFile(L0, s, p), L0.chain[t];
      forall k :: 0 <= k < |q| ==> q[k] in L1.own && L1.own[q[k]] == Place(t, k)
  {
    var L1, q := PutFile(L0, s, p), L0.chain[t];
    assert ChainOk(d0, L0, t);
    if s in L0.chain { ChainsDisjoint(d0, L0, s, t); }
    hide WF, IsChain, Distinct;
    forall k | 0 <= k < |q|
      ensures q[k] in L1.own && L1.own[q[k]] == Place(t, k)
    {
      assert q[k] in Elements(q) && q[k] in Reach(L0) && q[k] !in Elements(p);
    }
  }

  lemma PutFileOwn(d0: Disk, L0: Layout, s: Slot, p: seq<nat>, x: nat)
    requires WF(d0, L0) && Distinct(p) && (forall y :: y in p ==> y !in Reach(L0))
    requires x in PutFile(L0, s, p).own
    ensures OwnOk(PutFile(L0, s, p), x)
  {
    if x !in p {
      assert OwnOk(L0, x);
      assert L0.own[x].slot == s ==> x in OldChain(L0, s);
    } else {
      var k :| 0 <= k < |p| && p[k] == x;
      assert PutFile(L0, s, p).own[x] == Place(s, k);
    }
  }

  /** A chain other than the edited slot's is still there after an edit of that slot. */
  lemma KeptChain(d0: Disk, L0: Layout, d1: Disk, s: Slot, t: Slot)
    requires WF(d0, L0) && t in L0.chain && t != s && |d1| == |d0| && s.dir in L0.depth
    requires forall x :: x in Reach(L0) && x != s.dir && x < |d0| ==> d1[x] == d0[x]
    ensures FileSlot(d0, t) && AgreeOnChain(d0, d1, L0.chain[t]) && IsChain(d1, At(d0, t).bno, L0.chain[t])
  {
    assert ChainOk(d0, L0, t);
    forall k | 0 <= k < |L0.chain[t]|
      ensures d1[L0.chain[t][k]] == d0[L0.chain[t][k]]
    {
      assert OwnOk(L0, L0.chain[t][k]);
    }
    IsChainFrame(d0, d1, At(d0, t).bno, L0.chain[t]);
  }

  /** Only the path that names the slot reads differently: it now reads as the new entry's file. */
  lemma PutFileLook(d0: Disk, L0: Layout, d1: Disk, s: Slot, e: Entry, p: seq<nat>, path: seq<string>)
    requires WF(d0, L0) && FilePut(d0, L0, d1, s, e, p) && |path| >= 1
    requires InUse(d0, s) ==> At(d0, s).name == e.name
    ensures Home(d1, ROOT, path) == Home(d0, ROOT, path)
    ensures Look(d1, path) ==
      if Names(d0, path, s.dir, e.name) then File(ReadChain(d1, e.bno, e.size)) else Look(d0, path)
  {
    SameHomes(d0, L0, d1, s, e, path);
    var h := Home(d0, ROOT, path);
    if h != 0 {
      if Last(path) == "" {
        NoSlotLook(d0, h, "");
        NoSlotLook(d1, h, "");
      } else if h == s.dir && Last(path) == e.name {
        SlotLook(d0, L0, d1, s, e);
      } else {
        OtherLook(d0, L0, d1, s, e, h, Last(path));
      }
    }
  }

  lemma SameHomes(d0: Disk, L0: Layout, d1: Disk, s: Slot, e: Entry, path: seq<string>)
    requires WF(d0, L0) && SlotEdit(d0, d1, s, e) && s.dir in L0.depth && !DirSlot(d0, s)
    requires (e.name == "" || e.typ != TYPE_DIR) && |path| >= 1
    requires forall x :: x in Reach(L0) && x != s.dir && x < |d0| ==> d1[x] == d0[x]
    ensures Home(d1, ROOT, path) == Home(d0, ROOT, path)
    ensures Home(d0, ROOT, path) == 0 || Home(d0, ROOT, path) in L0.depth
  {
    SameLinks(d0, L0, d1, s, e);
    HomeFrame(d0, L0, d1, ROOT, path);
    HomeInTree(d0, L0, ROOT, path);
  }

  /** The edited slot's name now means the new entry. */
  lemma SlotLook(d0: Disk, L0: Layout, d1: Disk, s: Slot, e: Entry)
    requires WF(d0, L0) && SlotEdit(d0, d1, s, e) && s.dir in L0.depth
    requires e.name != "" && EntryOk(e) && NameFree(d0, s, e.name)
    ensures LookAt(d1, s.dir, e.name) == if e.typ == TYPE_DIR then Directory else File(ReadChain(d1, e.bno, e.size))
    ensures Child(d1, s.dir, e.name) == if e.typ == TYPE_DIR then e.bno else 0
  {
    assert DirBlockOk(d0[s.dir]);
    EditKeepsDirBlock(d0[s.dir].entries, s.idx, e);
    FindOnly(d1[s.dir].entries, s.idx, ANY_TYPE);
    if e.typ == TYPE_DIR {
      FindOnly(d1[s.dir].entries, s.idx, TYPE_DIR);
    }
  }

  /** A name that no slot carries reads as missing. */
  lemma NoSlotLook(d: Disk, b: nat, name: string)
    requires IsDir(d, b) && forall j :: 0 <= j < MAX_DIR_ENTRIES ==> d[b].entries[j].name != name || name == ""
    ensures LookAt(d, b, name) == Missing && Child(d, b, name) == 0
  {
  }

  /** The name of a cleared slot is gone from its directory. */
  lemma ClearedLook(d0: Disk, L0: Layout, d1: Disk, s: Slot)
    requires WF(d0, L0) && SlotCleared(d0, L0, d1, s) && InUse(d0, s)
    ensures LookAt(d1, s.dir, At(d0, s).name) == Missing && Child(d1, s.dir, At(d0, s).name) == 0
  {
    assert DirBlockOk(d0[s.dir]);
    NoSlotLook(d1, s.dir, At(d0, s).name);
  }

  lemma OtherLook(d0: Disk, L0: Layout, d1: Disk, s: Slot, e: Entry, h: nat, leaf: string)
    requires WF(d0, L0) && SlotEdit(d0, d1, s, e) && s.dir in L0.depth && h in L0.depth
    requires forall x :: x in Reach(L0) && x != s.dir && x < |d0| ==> d1[x] == d0[x]
    requires h != s.dir || (e.name != leaf && d0[h].entries[s.idx].name != leaf)
    ensures LookAt(d1, h, leaf) == LookAt(d0, h, leaf)
  {
    if h == s.dir {
      FindEdit(d0[h].entries, s.idx, e, leaf, ANY_TYPE);
    }
    var i := Find(d0[h].entries, leaf, ANY_TYPE);
    if i >= 0 && d0[h].entries[i].typ != TYPE_DIR {
      var t := Slot(h, i);
      assert FileSlot(d0, t);
      assert t != s;
      KeptChain(d0, L0, d1, s, t);
      ReadChainFrame(d0, d1, At(d0, t).bno, L0.chain[t], At(d0, t).size);
    }
  }

  // ------------------------------------------------------------------ a file slot is emptied

  function DropFile(L: Layout, s: Slot): Layout {
    L.(chain := L.chain - {s}, own := L.own - Elements(OldChain(L, s)))
  }

  ghost predicate SlotCleared(d0: Disk, L0: Layout, d1: Disk, s: Slot) {
    && SlotEdit(d0, d1, s, FREE) && s.dir in L0.depth
    && (forall x :: x in Reach(L0) && x != s.dir && x < |d0| ==> d1[x] == d0[x])
  }

  lemma DropFileWF(d0: Disk, L0: Layout, d1: Disk, s: Slot)
    requires WF(d0, L0) && SlotCleared(d0, L0, d1, s) && FileSlot(d0, s)
    ensures WF(d1, DropFile(L0, s))
    ensures Reach(DropFile(L0, s)) == Reach(L0) - Elements(L0.chain[s])
  {
    var L1 := DropFile(L0, s);
    EditKeepsDirs(d0, L0, d1, s, FREE);
    ChainsDisjoint(d0, L0, s, s);
    assert DirsOk(d1, L1);
    SameLinks(d0, L0, d1, s, FREE);
    forall c | c in L1.depth && c != ROOT
      ensures UpOk(d1, L1, c)
    {
      assert UpOk(d0, L0, c);
    }
    forall t: Slot | t.dir in L1.depth && DirSlot(d1, t)
      ensures DownOk(d1, L1, t)
    {
      assert DownOk(d0, L0, t);
    }
    DropFileChains(d0, L0, d1, s);
  }

  lemma DropFileChains(d0: Disk, L0: Layout, d1: Disk, s: Slot)
    requires WF(d0, L0) && SlotCleared(d0, L0, d1, s) && FileSlot(d0, s)
    ensures ChainsOk(d1, DropFile(L0, s))
  {
    var L1 := DropFile(L0, s);
    forall t | t in L1.chain
      ensures ChainOk(d1, L1, t)
    {
      assert ChainOk(d0, L0, t);
      KeptChain(d0, L0, d1, s, t);
      ChainsDisjoint(d0, L0, s, t);
    }
    forall t: Slot | t.dir in L1.depth && FileSlot(d1, t)
      ensures t in L1.chain
    {
      assert t != s && FileSlot(d0, t);
    }
    forall x | x in L1.own
      ensures OwnOk(L1, x)
    {
      assert OwnOk(L0, x) && L1.own[x] == L0.own[x];
    }
  }

  lemma DropFileLook(d0: Disk, L0: Layout, d1: Disk, s: Slot, path: seq<string>)
    requires WF(d0, L0) && SlotCleared(d0, L0, d1, s) && FileSlot(d0, s) && |path| >= 1
    ensures Home(d1, ROOT, path) == Home(d0, ROOT, path)
    ensures Look(d1, path) == if Names(d0, path, s.dir, At(d0, s).name) then Missing else Look(d0, path)
  {
    SameHomes(d0, L0, d1, s, FREE, path);
    var h := Home(d0, ROOT, path);
    if h != 0 {
      if Last(path) == "" {
        NoSlotLook(d0, h, "");
        NoSlotLook(d1, h, "");
      } else if h == s.dir && Last(path) == At(d0, s).name {
        ClearedLook(d0, L0, d1, s);
      } else {
        OtherLook(d0, L0, d1, s, FREE, h, Last(path));
      }
    }
  }

  // ------------------------------------------------------------------ an empty directory goes, or comes

  function DropDir(L: Layout, c: nat): Layout {
    L.(depth := L.depth - {c}, up := L.up - {c})
  }

  function AddDir(L: Layout, s: Slot, c: nat): Layout
    requires s.dir in L.depth
  {
    L.(depth := L.depth[c := L.depth[s.dir] + 1], up := L.up[c := s.idx])
  }

  predicate EmptyDir(d: Disk, c: nat) {
    IsDir(d, c) && forall j :: 0 <= j < MAX_DIR_ENTRIES ==> d[c].entries[j].name == ""
  }

  lemma DropDirWF(d0: Disk, L0: Layout, d1: Disk, s: Slot)
    requires WF(d0, L0) && SlotCleared(d0, L0, d1, s) && DirSlot(d0, s) && EmptyDir(d0, At(d0, s).bno)
    ensures WF(d1, DropDir(L0, At(d0, s).bno))
    ensures At(d0, s).bno in L0.depth && RESERVED <= At(d0, s).bno < |d0|
    ensures Reach(DropDir(L0, At(d0, s).bno)) == Reach(L0) - {At(d0, s).bno}
  {
    var c := At(d0, s).bno;
    var L1 := DropDir(L0, c);
    assert DownOk(d0, L0, s);
    assert UpOk(d0, L0, c);
    EditKeepsDirs(d0, L0, d1, s, FREE);
    assert s.dir != c;
    assert c in L0.own ==> OwnOk(L0, c);
    assert forall b :: b in L1.depth ==> DirBlockOk(d1[b]);
    DropDirTree(d0, L0, d1, s);
    DropDirChains(d0, L0, d1, s);
  }

  lemma DropDirTree(d0: Disk, L0: Layout, d1: Disk, s: Slot)
    requires WF(d0, L0) && SlotCleared(d0, L0, d1, s) && DirSlot(d0, s) && EmptyDir(d0, At(d0, s).bno)
    requires DirsOk(d1, DropDir(L0, At(d0, s).bno))
    ensures TreeOk(d1, DropDir(L0, At(d0, s).bno))
  {
    var c := At(d0, s).bno;
    var L1 := DropDir(L0, c);
    assert DownOk(d0, L0, s);
    forall b | b in L1.depth && b != ROOT
      ensures UpOk(d1, L1, b)
    {
      assert UpOk(d0, L0, b);
      assert DownOk(d0, L0, Slot(d0[b].parent, L0.up[b]));
      assert d0[b].parent != c;
    }
    forall t: Slot | t.dir in L1.depth && DirSlot(d1, t)
      ensures DownOk(d1, L1, t)
    {
      assert t != s && DirSlot(d0, t) && DownOk(d0, L0, t);
    }
  }

  lemma DropDirChains(d0: Disk, L0: Layout, d1: Disk, s: Slot)
    requires WF(d0, L0) && SlotCleared(d0, L0, d1, s) && DirSlot(d0, s) && EmptyDir(d0, At(d0, s).bno)
    ensures ChainsOk(d1, DropDir(L0, At(d0, s).bno))
  {
    var c := At(d0, s).bno;
    var L1 := DropDir(L0, c);
    forall t | t in L1.chain
      ensures ChainOk(d1, L1, t)
    {
      assert ChainOk(d0, L0, t) && t.dir != c && t != s;
      KeptChain(d0, L0, d1, s, t);
    }
    forall t: Slot | t.dir in L1.depth && FileSlot(d1, t)
      ensures t in L1.chain
    {
      assert t != s && FileSlot(d0, t);
    }
    forall x | x in L1.own
      ensures OwnOk(L1, x)
    {
      assert OwnOk(L0, x);
    }
  }

  lemma AddDirWF(d0: Disk, L0: Layout, d1: Disk, s: Slot, e: Entry)
    requires WF(d0, L0) && SlotEdit(d0, d1, s, e) && s.dir in L0.depth && !InUse(d0, s)
    requires e.name != "" && EntryOk(e) && e.typ == TYPE_DIR && NameFree(d0, s, e.name)
    requires RESERVED <= e.bno < |d0| && e.bno !in Reach(L0) && d1[e.bno] == Dir(s.dir, NoEntries())
    requires forall x :: x in Reach(L0) && x != s.dir && x < |d0| ==> d1[x] == d0[x]
    ensures WF(d1, AddDir(L0, s, e.bno)) && Reach(AddDir(L0, s, e.bno)) == Reach(L0) + {e.bno}
  {
    var c := e.bno;
    var L1 := AddDir(L0, s, c);
    EditKeepsDirs(d0, L0, d1, s, e);
    forall b | b in L1.depth
      ensures DirBlockOk(d1[b])
    {
      assert b != c ==> DirBlockOk(d1[b]);
    }
    AddDirTree(d0, L0, d1, s, e);
    AddDirChains(d0, L0, d1, s, e);
  }

  lemma AddDirTree(d0: Disk, L0: Layout, d1: Disk, s: Slot, e: Entry)
    requires WF(d0, L0) && SlotEdit(d0, d1, s, e) && s.dir in L0.depth && !InUse(d0, s)
    requires e.name != "" && e.typ == TYPE_DIR && e.bno !in Reach(L0)
    requires RESERVED <= e.bno < |d0| && d1[e.bno] == Dir(s.dir, NoEntries())
    requires forall x :: x in Reach(L0) && x != s.dir && x < |d0| ==> d1[x] == d0[x]
    requires DirsOk(d1, AddDir(L0, s, e.bno))
    ensures TreeOk(d1, AddDir(L0, s, e.bno))
  {
    var c := e.bno;
    var L1 := AddDir(L0, s, c);
    forall b | b in L1.depth && b != ROOT
      ensures UpOk(d1, L1, b)
    {
      if b != c {
        assert UpOk(d0, L0, b);
        assert Slot(d0[b].parent, L0.up[b]) != s;
      }
    }
    forall t: Slot | t.dir in L1.depth && DirSlot(d1, t)
      ensures DownOk(d1, L1, t)
    {
      if t != s {
        assert t.dir != c && DirSlot(d0, t) && DownOk(d0, L0, t);
      }
    }
  }

  lemma AddDirChains(d0: Disk, L0: Layout, d1: Disk, s: Slot, e: Entry)
    requires WF(d0, L0) && SlotEdit(d0, d1, s, e) && s.dir in L0.depth && !InUse(d0, s)
    requires e.name != "" && e.typ == TYPE_DIR && e.bno !in Reach(L0)
    requires RESERVED <= e.bno < |d0| && d1[e.bno] == Dir(s.dir, NoEntries())
    requires forall x :: x in Reach(L0) && x != s.dir && x < |d0| ==> d1[x] == d0[x]
    ensures ChainsOk(d1, AddDir(L0, s, e.bno))
  {
    var L1 := AddDir(L0, s, e.bno);
    forall t | t in L1.chain
      ensures ChainOk(d1, L1, t)
    {
      assert ChainOk(d0, L0, t) && t != s;
      KeptChain(d0, L0, d1, s, t);
    }
    forall t: Slot | t.dir in L1.depth && FileSlot(d1, t)
      ensures t in L1.chain
    {
      assert t != s && t.dir != e.bno && FileSlot(d0, t);
    }
    forall x | x in L1.own
      ensures OwnOk(L1, x)
    {
      assert OwnOk(L0, x);
    }
  }

  /** `small` is `big` without the empty directory `c` that `name` is in directory `b`. */
  ghost predicate Pruned(big: Disk, L: Layout, small: Disk, b: nat, name: string, c: nat) {
    && c in L.depth && b in L.depth && EmptyDir(big, c) && c != ROOT
    && (forall y :: y in L.depth && y != c ==> IsDir(small, y))
    && (forall y, n :: y in L.depth && y != c && (y != b || n != name) ==> Child(small, y, n) == Child(big, y, n))
    && Child(small, b, name) == 0 && Child(big, b, name) == c
  }

  lemma {:induction false} HomePruned(big: Disk, L: Layout, small: Disk, b: nat, name: string, c: nat, y: nat,
                                      path: seq<string>)
    requires WF(big, L) && Pruned(big, L, small, b, name, c) && y in L.depth && y != c && |path| >= 1
    requires forall n :: Child(big, y, n) == c ==> y == b && n == name
    ensures Home(small, y, path) == if Home(big, y, path) == c then 0 else Home(big, y, path)
    decreases |path|
  {
    if |path| > 1 {
      var k := Child(big, y, path[0]);
      ChildInTree(big, L, y, path[0]);
      if k == c {
        assert Child(big, c, path[1..][0]) == 0;
        assert Home(big, c, path[1..]) == if |path| == 2 then c else 0;
      } else if k != 0 {
        OnlyParent(big, L, k, b, name, c);
        HomePruned(big, L, small, b, name, c, k, path[1..]);
      }
    }
  }

  /** A directory has one parent and one name in it. */
  lemma OnlyParent(d: Disk, L: Layout, y: nat, b: nat, name: string, c: nat)
    requires WF(d, L) && y in L.depth && b in L.depth && Child(d, b, name) == c && c != 0
    ensures forall n :: Child(d, y, n) == c ==> y == b && n == name
  {
    var i := Find(d[b].entries, name, TYPE_DIR);
    assert DownOk(d, L, Slot(b, i));
    forall n | Child(d, y, n) == c
      ensures y == b && n == name
    {
      var j := Find(d[y].entries, n, TYPE_DIR);
      assert DownOk(d, L, Slot(y, j));
    }
  }

  lemma DropDirLook(d0: Disk, L0: Layout, d1: Disk, s: Slot, path: seq<string>)
    requires WF(d0, L0) && SlotCleared(d0, L0, d1, s) && DirSlot(d0, s) && EmptyDir(d0, At(d0, s).bno)
    requires |path| >= 1
    ensures Look(d1, path) == if Names(d0, path, s.dir, At(d0, s).name) then Missing else Look(d0, path)
  {
    var c, name := At(d0, s).bno, At(d0, s).name;
    DropDirPruned(d0, L0, d1, s);
    OnlyParent(d0, L0, ROOT, s.dir, name, c);
    HomePruned(d0, L0, d1, s.dir, name, c, ROOT, path);
    HomeInTree(d0, L0, ROOT, path);
    var h := Home(d0, ROOT, path);
    if h == c {
      NoSlotLook(d0, c, Last(path));
    } else if h != 0 {
      if Last(path) == "" {
        NoSlotLook(d0, h, "");
        NoSlotLook(d1, h, "");
      } else if h == s.dir && Last(path) == name {
        ClearedLook(d0, L0, d1, s);
      } else {
        OtherLook(d0, L0, d1, s, FREE, h, Last(path));
      }
    }
  }

  lemma DropDirPruned(d0: Disk, L0: Layout, d1: Disk, s: Slot)
    requires WF(d0, L0) && SlotCleared(d0, L0, d1, s) && DirSlot(d0, s) && EmptyDir(d0, At(d0, s).bno)
    ensures Pruned(d0, L0, d1, s.dir, At(d0, s).name, At(d0, s).bno)
  {
    var c, name := At(d0, s).bno, At(d0, s).name;
    assert DownOk(d0, L0, s) && DirBlockOk(d0[s.dir]);
    FindOnly(d0[s.dir].entries, s.idx, TYPE_DIR);
    ClearedLook(d0, L0, d1, s);
    forall y, n: string | y in L0.depth && y != c && (y != s.dir || n != name)
      ensures Child(d1, y, n) == Child(d0, y, n)
    {
      if y == s.dir {
        FindEdit(d0[y].entries, s.idx, FREE, n, TYPE_DIR);
      }
    }
  }

  lemma AddDirLook(d0: Disk, L0: Layout, d1: Disk, s: Slot, e: Entry, path: seq<string>)
    requires WF(d0, L0) && SlotEdit(d0, d1, s, e) && s.dir in L0.depth && !InUse(d0, s)
    requires e.name != "" && EntryOk(e) && e.typ == TYPE_DIR && NameFree(d0, s, e.name)
    requires RESERVED <= e.bno < |d0| && e.bno !in Reach(L0) && d1[e.bno] == Dir(s.dir, NoEntries())
    requires forall x :: x in Reach(L0) && x != s.dir && x < |d0| ==> d1[x] == d0[x]
    requires |path| >= 1
    ensures Look(d1, path) == if Names(d0, path, s.dir, e.name) then Directory else Look(d0, path)
  {
    var c := e.bno;
    AddDirWF(d0, L0, d1, s, e);
    AddDirPruned(d0, L0, d1, s, e);
    OnlyParent(d1, AddDir(L0, s, c), ROOT, s.dir, e.name, c);
    HomePruned(d1, AddDir(L0, s, c), d0, s.dir, e.name, c, ROOT, path);
    HomeInTree(d0, L0, ROOT, path);
    var h := Home(d0, ROOT, path);
    if Home(d1, ROOT, path) == c {
      NoSlotLook(d1, c, Last(path));
    } else if h != 0 {
      if Last(path) == "" {
        NoSlotLook(d0, h, "");
        NoSlotLook(d1, h, "");
      } else if h == s.dir && Last(path) == e.name {
        SlotLook(d0, L0, d1, s, e);
      } else {
        OtherLook(d0, L0, d1, s, e, h, Last(path));
      }
    }
  }

  lemma AddDirPruned(d0: Disk, L0: Layout, d1: Disk, s: Slot, e: Entry)
    requires WF(d0, L0) && SlotEdit(d0, d1, s, e) && s.dir in L0.depth && !InUse(d0, s)
    requires e.name != "" && EntryOk(e) && e.typ == TYPE_DIR && NameFree(d0, s, e.name)
    requires RESERVED <= e.bno < |d0| && e.bno !in Reach(L0) && d1[e.bno] == Dir(s.dir, NoEntries())
    requires forall x :: x in Reach(L0) && x != s.dir && x < |d0| ==> d1[x] == d0[x]
    ensures Pruned(d1, AddDir(L0, s, e.bno), d0, s.dir, e.name, e.bno)
  {
    SlotLook(d0, L0, d1, s, e);
    NoSlotLook(d0, s.dir, e.name);
    forall y, n: string | y in L0.depth && (y != s.dir || n != e.name)
      ensures Child(d0, y, n) == Child(d1, y, n)
    {
      if y == s.dir {
        FindEdit(d0[y].entries, s.idx, e, n, TYPE_DIR);
      }
    }
  }
}
