/** What the steps of the file system's operations establish: the state of a chain being written,
    the account the bitmap keeps of every block, and what each directory write means for paths. */
module FsSteps {
  import opened DiskModel
  import opened Sequences
  import opened TreeLemmas
  import opened TreeEdits

  // ------------------------------------------------------------------ return codes

  const OK: int := 0
  const ERR_NO_DIR: int := -1
  const ERR_FULL_DIR: int := -2
  const ERR_IS_DIR: int := -3
  const ERR_NO_SPACE: int := -4
  const ERR_NOT_FOUND: int := -2
  const ERR_NOT_EMPTY: int := -3
  const ERR_TOO_BIG: int := -3

  // ------------------------------------------------------------------ what operations mean for paths

  /** Every path reads the same in both images. */
  ghost predicate SameLooks(d0: Disk, d1: Disk) {
    forall path: seq<string> {:trigger Look(d1, path)} :: |path| >= 1 ==> Look(d1, path) == Look(d0, path)
  }

  /** Every path reads the same except those that name `leaf` in `dir`, which read as `node`. */
  ghost predicate OneLookChanged(d0: Disk, d1: Disk, dir: nat, leaf: string, node: Node) {
    forall path: seq<string> {:trigger Look(d1, path)} :: |path| >= 1 ==>
      Look(d1, path) == if Names(d0, path, dir, leaf) then node else Look(d0, path)
  }

  /** The first slot at or after `i` whose name is empty, or -1. */
  function FreeFrom(es: seq<Entry>, i: nat): (r: int)
    requires i <= |es|
    ensures r == -1 || i <= r < |es|
    ensures r >= 0 ==> es[r].name == ""
    ensures forall j :: i <= j < (if r >= 0 then r else |es|) ==> es[j].name != ""
    decreases |es| - i
  {
    if i == |es| then -1 else if es[i].name == "" then i else FreeFrom(es, i + 1)
  }

  /** The slot a store writes: the name's own, else the first free one, else -1. */
  function StoreSlot(d: Disk, dir: nat, leaf: string): int
    requires IsDir(d, dir)
  {
    var i := Find(d[dir].entries, leaf, ANY_TYPE);
    if i >= 0 then i else FreeFrom(d[dir].entries, 0)
  }

  /** How many data blocks a file of `n` bytes takes; an empty file takes one. */
  function BlocksFor(n: nat): nat {
    if n == 0 then 1 else (n + FS_DATA_PAYLOAD - 1) / FS_DATA_PAYLOAD
  }

  /** How a store ends, from what is known before it starts. */
  function StoreCode(d: Disk, dir: nat, leaf: string, n: nat, free: int): int
    requires IsDir(d, dir)
  {
    var i := Find(d[dir].entries, leaf, ANY_TYPE);
    if i >= 0 && d[dir].entries[i].typ == TYPE_DIR then ERR_IS_DIR
    else if StoreSlot(d, dir, leaf) == -1 then ERR_FULL_DIR
    else if free < BlocksFor(n) then ERR_NO_SPACE
    else OK
  }

  /** The content of data block `k` of a file: its bytes padded with zeros. */
  function Chunk(data: seq<byte>, k: nat): (s: seq<byte>)
    requires k * FS_DATA_PAYLOAD <= |data|
    ensures |s| == FS_DATA_PAYLOAD
  {
    var rest := data[k * FS_DATA_PAYLOAD..];
    if |rest| >= FS_DATA_PAYLOAD then rest[..FS_DATA_PAYLOAD]
    else rest + Zeros(FS_DATA_PAYLOAD - |rest|)
  }

  /** Block `k` of the chain `p` holds its part of `data` and links to the next block. */
  ghost predicate BlockWritten(d: Disk, p: seq<nat>, data: seq<byte>, k: nat)
    requires k < |p|
  {
    && RESERVED <= p[k] < |d| && k * FS_DATA_PAYLOAD <= |data|
    && d[p[k]] == Data(LinkAfter(p, k), Chunk(data, k))
  }

  /** `p` is the chain that holds `data`, as far as it has been written. */
  ghost predicate Written(d: Disk, p: seq<nat>, data: seq<byte>) {
    forall k {:trigger BlockWritten(d, p, data, k)} :: 0 <= k < |p| ==> BlockWritten(d, p, data, k)
  }

  function LinkAfter(p: seq<nat>, k: nat): nat {
    if k + 1 < |p| then p[k + 1] else 0
  }

  ghost predicate Ascending(p: seq<nat>) {
    forall j, k :: 0 <= j < k < |p| ==> p[j] < p[k]
  }

  lemma WrittenIsChain(d: Disk, p: seq<nat>, data: seq<byte>)
    requires Written(d, p, data) && p != []
    ensures IsChain(d, p[0], p)
  {
    forall k | 0 <= k < |p|
      ensures RESERVED <= p[k] < |d| && !d[p[k]].Dir? && Next(d[p[k]]) == LinkAfter(p, k)
    {
      assert BlockWritten(d, p, data, k);
    }
    assert LinkAfter(p, |p| - 1) == 0;
    forall j, k | 0 <= j && k == j + 1 && k < |p|
      ensures Next(d[p[j]]) == p[k]
    {
      assert LinkAfter(p, j) == p[k];
    }
  }

  /** Reading back from the `k`-th block of a written chain gives the rest of the data. */
  lemma {:induction false} WrittenReadsBack(d: Disk, p: seq<nat>, data: seq<byte>, k: nat)
    requires Written(d, p, data) && k < |p| && k * FS_DATA_PAYLOAD <= |data| <= |p| * FS_DATA_PAYLOAD
    ensures ReadChain(d, p[k], |data| - k * FS_DATA_PAYLOAD) == data[k * FS_DATA_PAYLOAD..]
    decreases |p| - k
  {
    var rest := data[k * FS_DATA_PAYLOAD..];
    assert BlockWritten(d, p, data, k);
    if |rest| > FS_DATA_PAYLOAD {
      assert LinkAfter(p, k) == p[k + 1];
      WrittenReadsBack(d, p, data, k + 1);
      assert rest[FS_DATA_PAYLOAD..] == data[(k + 1) * FS_DATA_PAYLOAD..];
      assert rest == rest[..FS_DATA_PAYLOAD] + rest[FS_DATA_PAYLOAD..];
    } else if |rest| > 0 {
      assert Chunk(data, k)[..|rest|] == rest;
    }
  }

  /** The state of a chain being written: `p` holds the first `written` bytes of `data`, in blocks
      that were not in use before. */
  ghost predicate ChainSoFar(d: Disk, used: set<nat>, p: seq<nat>, data: seq<byte>, first: nat, prev: nat,
                             written: nat) {
    && Written(d, p, data)
    && written == (if |p| * FS_DATA_PAYLOAD <= |data| then |p| * FS_DATA_PAYLOAD else |data|)
    && first == (if p == [] then 0 else p[0]) && prev == (if p == [] then 0 else p[|p| - 1])
    && (forall x :: x in p ==> x !in used) && (p != [] ==> (|p| - 1) * FS_DATA_PAYLOAD < |data|)
  }

  /** How much is written once the next block is. */
  function Advance(data: seq<byte>, written: nat): nat
    requires written <= |data|
  {
    if |data| - written > FS_DATA_PAYLOAD then written + FS_DATA_PAYLOAD else |data|
  }

  /** The next `chunk` bytes of the data as the content of one block. */
  function NextContent(data: seq<byte>, written: nat): (s: seq<byte>)
    requires written <= |data|
    ensures |s| == FS_DATA_PAYLOAD
  {
    var chunk := Advance(data, written) - written;
    data[written..written + chunk] + Zeros(FS_DATA_PAYLOAD - chunk)
  }

  lemma ChainGrows(d1: Disk, d2: Disk, used: set<nat>, p: seq<nat>, data: seq<byte>, first: nat, prev: nat,
                   written: nat, b: nat)
    requires ChainSoFar(d1, used, p, data, first, prev, written) && written < |data|
    requires b !in used && b !in p && RESERVED <= b < |d1| && |d2| == |d1|
    requires d2[b] == Data(0, NextContent(data, written))
    requires prev != 0 ==> prev < |d1| && d1[prev].Data? && d2[prev] == d1[prev].(next := b)
    requires forall x :: 0 <= x < |d1| && x != b && (x != prev || prev == 0) ==> d2[x] == d1[x]
    ensures ChainSoFar(d2, used, p + [b], data, if prev == 0 then b else first, b,
                       Advance(data, written))
  {
    var q := p + [b];
    assert p != [] ==> BlockWritten(d1, p, data, |p| - 1);
    forall k | 0 <= k < |q|
      ensures BlockWritten(d2, q, data, k)
    {
      if k < |p| {
        assert BlockWritten(d1, p, data, k);
        if k + 1 < |p| { LinksDiffer(d1, p, data, k); }
      } else {
        ChunkIsNext(data, k);
      }
    }
  }

  /** Only the last block of a written chain has no successor. */
  lemma LinksDiffer(d: Disk, p: seq<nat>, data: seq<byte>, k: nat)
    requires Written(d, p, data) && k + 1 < |p|
    ensures p[k] != p[|p| - 1]
  {
    assert BlockWritten(d, p, data, k) && BlockWritten(d, p, data, k + 1) && BlockWritten(d, p, data, |p| - 1);
  }

  lemma ChunkIsNext(data: seq<byte>, k: nat)
    requires k * FS_DATA_PAYLOAD < |data|
    ensures Chunk(data, k) == NextContent(data, k * FS_DATA_PAYLOAD)
  {
  }

  lemma RoomForOneMore(n: nat, k: nat)
    requires k * FS_DATA_PAYLOAD < n
    ensures k + 1 <= BlocksFor(n)
    ensures n <= (k + 1) * FS_DATA_PAYLOAD ==> k + 1 == BlocksFor(n)
  {
  }

  /** The log has only gained images in which the blocks of `used` are as in `d0`. */
  ghost predicate LogKeeps(log0: seq<Disk>, log1: seq<Disk>, d0: Disk, used: set<nat>) {
    && |log0| <= |log1| && log0 == log1[..|log0|]
    && forall k :: |log0| <= k < |log1| ==> Agree(d0, log1[k], used)
  }

  lemma LogGains(log0: seq<Disk>, log1: seq<Disk>, d0: Disk, used: set<nat>, img: Disk)
    requires LogKeeps(log0, log1, d0, used) && Agree(d0, img, used)
    ensures LogKeeps(log0, log1 + [img], d0, used)
  {
  }

  lemma AgreeWrite(d0: Disk, d: Disk, used: set<nat>, b: nat, blk: Block)
    requires Agree(d0, d, used) && b < |d| && b !in used
    ensures Agree(d0, d[b := blk], used)
  {
  }

  /** What a crash may leave: a well-formed tree in which the target is wholly old or wholly new. */
  ghost predicate OldOrNew(d0: Disk, img: Disk, dir: nat, leaf: string, node: Node) {
    WellFormed(img) && (SameLooks(d0, img) || OneLookChanged(d0, img, dir, leaf, node))
  }

  /** Slot `s` may take a file called `leaf`: it is free or already holds that file, and no other
      slot of the directory has the name. */
  ghost predicate SlotFor(d: Disk, s: Slot, leaf: string) {
    && IsDir(d, s.dir) && s.idx < MAX_DIR_ENTRIES && !DirSlot(d, s)
    && (InUse(d, s) ==> At(d, s).name == leaf) && NameFree(d, s, leaf)
  }

  lemma StoreSlotFits(d: Disk, L: Layout, dir: nat, leaf: string)
    requires WF(d, L) && dir in L.depth && leaf != "" && StoreSlot(d, dir, leaf) >= 0
    requires var i := Find(d[dir].entries, leaf, ANY_TYPE); i >= 0 ==> d[dir].entries[i].typ != TYPE_DIR
    ensures SlotFor(d, Slot(dir, StoreSlot(d, dir, leaf)), leaf)
  {
    assert DirBlockOk(d[dir]);
    var i := Find(d[dir].entries, leaf, ANY_TYPE);
    forall j | 0 <= j < MAX_DIR_ENTRIES && j != StoreSlot(d, dir, leaf)
      ensures d[dir].entries[j].name != leaf
    {
      assert i < 0 ==> !Matches(d[dir].entries[j], leaf, ANY_TYPE);
    }
  }

  /** The directory write that ends a store. */
  ghost predicate StoreCommitted(d0: Disk, L0: Layout, used: set<nat>, d1: Disk, d2: Disk, s: Slot, e: Entry,
                                 p: seq<nat>, data: seq<byte>) {
    && Reach(L0) <= used && Agree(d0, d1, used) && s.dir in L0.depth && SlotFor(d0, s, e.name)
    && 1 <= |e.name| <= NAME_MAX && e.typ == TYPE_FILE && e.size == |data|
    && Written(d1, p, data) && p != [] && e.bno == p[0] && |data| <= |p| * FS_DATA_PAYLOAD
    && Ascending(p) && (forall x :: x in p ==> x !in used)
    && d2 == d1[s.dir := Dir(d0[s.dir].parent, d0[s.dir].entries[s.idx := e])]
  }

  lemma StoreDone(d0: Disk, L0: Layout, used: set<nat>, d1: Disk, d2: Disk, s: Slot, e: Entry, p: seq<nat>,
                  data: seq<byte>)
    requires WF(d0, L0) && StoreCommitted(d0, L0, used, d1, d2, s, e, p, data)
    ensures FilePut(d0, L0, d2, s, e, p) && ReadChain(d2, e.bno, e.size) == data
  {
    assert forall x :: x in p ==> x != s.dir;
    WrittenElsewhere(d1, d2, p, data, s.dir);
    WrittenIsChain(d2, p, data);
    WrittenReadsBack(d2, p, data, 0);
    assert data[0..] == data;
  }

  lemma WrittenElsewhere(d1: Disk, d2: Disk, p: seq<nat>, data: seq<byte>, b: nat)
    requires Written(d1, p, data) && b < |d1| && b !in p && |d2| == |d1|
    requires forall x :: 0 <= x < |d1| && x != b ==> d2[x] == d1[x]
    ensures Written(d2, p, data)
  {
    forall k | 0 <= k < |p|
      ensures BlockWritten(d2, p, data, k)
    {
      assert BlockWritten(d1, p, data, k) && p[k] in p;
    }
  }

  lemma StoreLooks(d0: Disk, L0: Layout, d2: Disk, s: Slot, e: Entry, p: seq<nat>, data: seq<byte>)
    requires WF(d0, L0) && FilePut(d0, L0, d2, s, e, p) && ReadChain(d2, e.bno, e.size) == data
    requires InUse(d0, s) ==> At(d0, s).name == e.name
    ensures WF(d2, PutFile(L0, s, p)) && OneLookChanged(d0, d2, s.dir, e.name, File(data))
  {
    PutFileWF(d0, L0, d2, s, e, p);
    forall path: seq<string> | |path| >= 1
      ensures Look(d2, path) == if Names(d0, path, s.dir, e.name) then File(data) else Look(d0, path)
    {
      PutFileLook(d0, L0, d2, s, e, p, path);
    }
  }

  /** Every image added to the log since `log0` is a well-formed tree that reads as `d0`. */
  ghost predicate AllOld(log0: seq<Disk>, log1: seq<Disk>, d0: Disk) {
    && |log0| <= |log1| && log0 == log1[..|log0|]
    && forall k :: |log0| <= k < |log1| ==> WellFormed(log1[k]) && SameLooks(d0, log1[k])
  }

  /** Every image added to the log is one a crash may leave in the middle of changing `leaf`. */
  ghost predicate AllOldOrNew(log0: seq<Disk>, log1: seq<Disk>, d0: Disk, dir: nat, leaf: string, node: Node) {
    && |log0| <= |log1| && log0 == log1[..|log0|]
    && forall k :: |log0| <= k < |log1| ==> OldOrNew(d0, log1[k], dir, leaf, node)
  }

  /** The image is a well-formed tree that reads as `d0` or as `d1`. */
  ghost predicate BeforeOrAfter(d0: Disk, d1: Disk, img: Disk) {
    WellFormed(img) && (SameLooks(d0, img) || SameLooks(d1, img))
  }

  /** The log has only gained images, and each of them is a well-formed tree that reads as the one before
      the operation or as the one after it. */
  ghost predicate CrashAtomic(log0: seq<Disk>, log1: seq<Disk>, d0: Disk, d1: Disk) {
    && log0 <= log1
    && forall k :: |log0| <= k < |log1| ==> BeforeOrAfter(d0, d1, log1[k])
  }

  lemma OldOrNewIsAtomic(log0: seq<Disk>, log1: seq<Disk>, d0: Disk, d1: Disk, dir: nat, leaf: string, node: Node)
    requires AllOldOrNew(log0, log1, d0, dir, leaf, node) && OneLookChanged(d0, d1, dir, leaf, node)
    ensures CrashAtomic(log0, log1, d0, d1)
  {
    hide WellFormed;
    forall k | |log0| <= k < |log1|
      ensures BeforeOrAfter(d0, d1, log1[k])
    {
      assert OldOrNew(d0, log1[k], dir, leaf, node);
    }
  }

  lemma OldIsAtomic(log0: seq<Disk>, log1: seq<Disk>, d0: Disk, d1: Disk)
    requires AllOld(log0, log1, d0)
    ensures CrashAtomic(log0, log1, d0, d1)
  {
  }

  /** A single write is atomic. */
  lemma OneWriteAtomic(log0: seq<Disk>, d0: Disk, d1: Disk, L: Layout)
    requires WF(d1, L)
    ensures CrashAtomic(log0, log0 + [d1], d0, d1)
  {
    hide WF;
    assert SameLooks(d1, d1) && WellFormed(d1);
  }

  lemma AtomicGrows(log0: seq<Disk>, log1: seq<Disk>, d0: Disk, d1: Disk)
    requires CrashAtomic(log0, log1, d0, d1)
    ensures log0 <= log1
  {
  }

  lemma NotAtomic(log0: seq<Disk>, log1: seq<Disk>, d0: Disk, d1: Disk, k: nat)
    requires |log0| <= k < |log1| && !BeforeOrAfter(d0, d1, log1[k])
    ensures !CrashAtomic(log0, log1, d0, d1)
  {
  }

  /** Images in which every used block is as before are the old tree. */
  lemma KeptImages(log0: seq<Disk>, log1: seq<Disk>, d0: Disk, L0: Layout, used: set<nat>)
    requires WF(d0, L0) && Reach(L0) <= used && LogKeeps(log0, log1, d0, used)
    ensures AllOld(log0, log1, d0)
  {
    forall k | |log0| <= k < |log1|
      ensures WellFormed(log1[k]) && SameLooks(d0, log1[k])
    {
      assert Agree(d0, log1[k], used);
      SameTree(d0, L0, log1[k]);
    }
  }

  lemma LastImage(log0: seq<Disk>, log1: seq<Disk>, d0: Disk, img: Disk, L: Layout, dir: nat, leaf: string, node: Node)
    requires AllOld(log0, log1, d0) && WF(img, L) && OneLookChanged(d0, img, dir, leaf, node)
    ensures AllOldOrNew(log0, log1 + [img], d0, dir, leaf, node)
  {
    hide WF, OneLookChanged, SameLooks;
    var log2 := log1 + [img];
    forall k | |log0| <= k < |log2|
      ensures OldOrNew(d0, log2[k], dir, leaf, node)
    {
    }
  }

  lemma NothingWritten(log0: seq<Disk>, d0: Disk, L0: Layout, dir: nat, leaf: string, node: Node)
    requires WF(d0, L0)
    ensures AllOld(log0, log0, d0) && AllOldOrNew(log0, log0, d0, dir, leaf, node) && SameLooks(d0, d0)
  {
  }

  lemma OldIsOldOrNew(log0: seq<Disk>, log1: seq<Disk>, d0: Disk, dir: nat, leaf: string, node: Node)
    requires AllOld(log0, log1, d0)
    ensures AllOldOrNew(log0, log1, d0, dir, leaf, node)
  {
  }

  /** The bitmap marks the reserved blocks, the reachable ones and the leaked ones, and no other. */
  ghost predicate Accounts(marked: set<nat>, reach: set<nat>, leaked: set<nat>) {
    && (forall x :: x in marked <==> 0 <= x < RESERVED || x in reach || x in leaked)
    && (forall x :: x in leaked ==> RESERVED <= x && x !in reach)
  }

  /** The chain a store replaces is still on disk when it is given back. */
  lemma OldChainKept(d0: Disk, L0: Layout, used: set<nat>, d1: Disk, d2: Disk, s: Slot)
    requires WF(d0, L0) && Reach(L0) <= used && Agree(d0, d1, used) && s.dir in L0.depth && !DirSlot(d0, s)
    requires |d2| == |d1| && forall x :: 0 <= x < |d1| && x != s.dir ==> d2[x] == d1[x]
    ensures Distinct(OldChain(L0, s)) && Elements(OldChain(L0, s)) <= L0.own.Keys && L0.own.Keys !! L0.depth.Keys
    ensures if InUse(d0, s) then IsChain(d2, At(d0, s).bno, OldChain(L0, s)) else OldChain(L0, s) == []
    ensures forall x :: x in OldChain(L0, s) ==> RESERVED <= x
  {
    assert forall x :: x in L0.own ==> OwnOk(L0, x);
    if InUse(d0, s) {
      ChainsDisjoint(d0, L0, s, s);
      assert ChainOk(d0, L0, s);
      assert forall x :: x in L0.chain[s] ==> x in Elements(L0.chain[s]);
      IsChainFrame(d0, d2, At(d0, s).bno, L0.chain[s]);
    } else {
      assert s in L0.chain ==> ChainOk(d0, L0, s);
    }
  }

  /** Taking the free blocks `p` into the tree and giving the reachable blocks `q` back keeps the
      account and moves the count by the difference. */
  lemma SwapBlocks(marked: set<nat>, reach: set<nat>, leaked: set<nat>, p: set<nat>, q: set<nat>)
    requires Accounts(marked, reach, leaked) && p !! marked && q <= reach
    requires forall x :: x in p || x in q ==> RESERVED <= x
    ensures Accounts((marked + p) - q, (reach - q) + p, leaked)
    ensures |(marked + p) - q| == |marked| + |p| - |q|
  {
    SwapSize(marked, p, q);
  }

  lemma GiveBack(marked: set<nat>, reach: set<nat>, leaked: set<nat>, q: set<nat>)
    requires Accounts(marked, reach, leaked) && q <= reach && forall x :: x in q ==> RESERVED <= x
    ensures Accounts(marked - q, reach - q, leaked) && |marked - q| == |marked| - |q|
  {
    SwapBlocks(marked, reach, leaked, {}, q);
    assert (marked + {}) - q == marked - q && (reach - q) + {} == reach - q;
  }

  lemma TakeBlock(marked: set<nat>, reach: set<nat>, leaked: set<nat>, b: nat)
    requires Accounts(marked, reach, leaked) && b !in marked && RESERVED <= b
    ensures Accounts(marked + {b}, reach + {b}, leaked) && |marked + {b}| == |marked| + 1
  {
    SwapBlocks(marked, reach, leaked, {b}, {});
    assert (marked + {b}) - {} == marked + {b} && (reach - {}) + {b} == reach + {b};
  }

  lemma LeakBlocks(marked: set<nat>, reach: set<nat>, leaked: set<nat>, p: set<nat>)
    requires Accounts(marked, reach, leaked) && p !! marked && forall x :: x in p ==> RESERVED <= x
    ensures Accounts(marked + p, reach, leaked + p)
  {
  }

  lemma SwapSize(s: set<nat>, p: set<nat>, q: set<nat>)
    requires p !! s && q <= s
    ensures |(s + p) - q| == |s| + |p| - |q|
  {
    assert |s + p| == |s| + |p|;
    assert (s + p) - q + q == s + p;
    assert |((s + p) - q) + q| == |(s + p) - q| + |q|;
  }

  /** Everything a committed store establishes. */
  lemma CommitFacts(d0: Disk, L0: Layout, leaked: set<nat>, used: set<nat>, d1: Disk, d2: Disk, s: Slot, e: Entry,
                    p: seq<nat>, data: seq<byte>)
    requires WF(d0, L0) && Accounts(used, Reach(L0), leaked) && StoreCommitted(d0, L0, used, d1, d2, s, e, p, data)
    ensures Distinct(p) && WF(d2, PutFile(L0, s, p)) && OneLookChanged(d0, d2, s.dir, e.name, File(data))
    ensures PutFile(L0, s, p).depth == L0.depth && LookAt(d2, s.dir, e.name) == File(data)
    ensures SizeAt(d2, s.dir, e.name) == |data|
    ensures var was := d0[s.dir].entries[s.idx];
      if was.name != "" && was.bno != 0 then IsChain(d2, was.bno, OldChain(L0, s)) else OldChain(L0, s) == []
    ensures Accounts((used + Elements(p)) - Elements(OldChain(L0, s)), Reach(PutFile(L0, s, p)), leaked)
    ensures |(used + Elements(p)) - Elements(OldChain(L0, s))| == |used| + |p| - |OldChain(L0, s)|
  {
    hide WF, OneLookChanged, Accounts, FilePut, IsChain;
    StoreDone(d0, L0, used, d1, d2, s, e, p, data);
    StoreLooks(d0, L0, d2, s, e, p, data);
    StoredHere(d0, L0, d2, s, e, p);
    PutFileReach(d0, L0, d2, s, e, p);
    OldChainKept(d0, L0, used, d1, d2, s);
    if InUse(d0, s) && At(d0, s).bno == 0 { EmptyChain(d2, OldChain(L0, s)); }
    CommitAccounts(L0, leaked, used, d1, s, p, data);
  }

  lemma StoredHere(d0: Disk, L0: Layout, d2: Disk, s: Slot, e: Entry, p: seq<nat>)
    requires WF(d0, L0) && FilePut(d0, L0, d2, s, e, p)
    ensures LookAt(d2, s.dir, e.name) == File(ReadChain(d2, e.bno, e.size)) && SizeAt(d2, s.dir, e.name) == e.size
  {
    SlotLook(d0, L0, d2, s, e);
    assert DirBlockOk(d0[s.dir]);
    EditKeepsDirBlock(d0[s.dir].entries, s.idx, e);
    FindOnly(d2[s.dir].entries, s.idx, TYPE_FILE);
  }

  lemma EmptyChain(d: Disk, p: seq<nat>)
    requires IsChain(d, 0, p)
    ensures p == []
  {
  }

  lemma PutFileReach(d0: Disk, L0: Layout, d2: Disk, s: Slot, e: Entry, p: seq<nat>)
    requires WF(d0, L0) && FilePut(d0, L0, d2, s, e, p)
    ensures Distinct(p)
    ensures Reach(PutFile(L0, s, p)) == (Reach(L0) - Elements(OldChain(L0, s))) + Elements(p)
  {
    PutFileWF(d0, L0, d2, s, e, p);
  }

  lemma CommitAccounts(L0: Layout, leaked: set<nat>, used: set<nat>, d1: Disk, s: Slot, p: seq<nat>, data: seq<byte>)
    requires Accounts(used, Reach(L0), leaked) && Distinct(p) && Written(d1, p, data)
    requires forall x :: x in p ==> x !in used
    requires Distinct(OldChain(L0, s)) && Elements(OldChain(L0, s)) <= L0.own.Keys
    requires forall x :: x in OldChain(L0, s) ==> RESERVED <= x
    ensures Accounts((used + Elements(p)) - Elements(OldChain(L0, s)),
                     (Reach(L0) - Elements(OldChain(L0, s))) + Elements(p), leaked)
    ensures |(used + Elements(p)) - Elements(OldChain(L0, s))| == |used| + |p| - |OldChain(L0, s)|
  {
    DistinctSize(p);
    DistinctSize(OldChain(L0, s));
    forall x | x in p
      ensures RESERVED <= x
    {
      var k :| 0 <= k < |p| && p[k] == x;
      assert BlockWritten(d1, p, data, k);
    }
    SwapBlocks(used, Reach(L0), leaked, Elements(p), Elements(OldChain(L0, s)));
  }

  lemma AscendingDistinct(p: seq<nat>)
    requires Ascending(p)
    ensures Distinct(p)
  {
  }

  // ------------------------------------------------------------------ stores into a directory that is gone

  /** `dir` is a block outside the tree; as a directory, which it may still be, it has no file `leaf`. */
  predicate Stray(d: Disk, L: Layout, dir: nat, leaf: string) {
    && dir !in L.depth && 0 < dir < |d|
    && (IsDir(d, dir) ==>
          var i := Find(d[dir].entries, leaf, ANY_TYPE); i < 0 || d[dir].entries[i].typ == TYPE_DIR)
  }

  lemma StrayOutside(d: Disk, L: Layout, dir: nat)
    requires WF(d, L) && IsDir(d, dir) && dir !in L.depth
    ensures dir !in Reach(L)
  {
    if dir in L.own { ChainBlocksNoDirs(d, L, dir); }
  }

  lemma ChainBlocksNoDirs(d: Disk, L: Layout, x: nat)
    requires WF(d, L) && x in L.own
    ensures x < |d| && !d[x].Dir?
  {
    assert OwnOk(L, x);
    assert ChainOk(d, L, L.own[x].slot);
  }

  /** A write outside the tree, behind a fresh chain: nothing changes for any path, and nothing reaches the
      chain. */
  lemma StrayFacts(d0: Disk, L0: Layout, leaked: set<nat>, used: set<nat>, d1: Disk, b: nat, blk: Block, p: seq<nat>)
    requires WF(d0, L0) && Accounts(used, Reach(L0), leaked) && Agree(d0, d1, used) && IsDir(d0, b) && b !in L0.depth
    requires forall x :: x in p ==> x !in used && RESERVED <= x
    ensures b < |d1| && WF(d1[b := blk], L0) && SameLooks(d0, d1[b := blk])
    ensures Accounts(used + Elements(p), Reach(L0), leaked + Elements(p))
  {
    StrayOutside(d0, L0, b);
    ReachIsUsed(used, L0, leaked);
    SameTree(d0, L0, d1[b := blk]);
    LeakBlocks(used, Reach(L0), leaked, Elements(p));
  }

  /** The directory write that ends a store may be made: in the tree, or outside it in a free slot. */
  ghost predicate MayCommit(d0: Disk, L0: Layout, used: set<nat>, d1: Disk, s: Slot, e: Entry, p: seq<nat>,
                            data: seq<byte>) {
    && IsDir(d0, s.dir) && s.dir < |d1| && s.idx < MAX_DIR_ENTRIES
    && Ascending(p) && |p| == BlocksFor(|data|) && (forall x :: x in p ==> x !in used && RESERVED <= x)
    && if s.dir in L0.depth then
         StoreCommitted(d0, L0, used, d1, d1[s.dir := Dir(d0[s.dir].parent, d0[s.dir].entries[s.idx := e])],
                        s, e, p, data)
       else !InUse(d0, s) && Agree(d0, d1, used)
  }

  /** What a store that succeeded means for paths and for the account of blocks. In a directory that is not
      in the tree it changes nothing that can be read, and nothing reaches the blocks it took. */
  ghost predicate StoreOutcome(d0: Disk, L0: Layout, leaked0: set<nat>, d2: Disk, L2: Layout, leaked2: set<nat>,
                               dir: nat, leaf: string, data: seq<byte>)
  {
    && L2.depth == L0.depth
    && if dir in L0.depth then
         && OneLookChanged(d0, d2, dir, leaf, File(data)) && leaked2 == leaked0
         && LookAt(d2, dir, leaf) == File(data) && SizeAt(d2, dir, leaf) == |data|
       else SameLooks(d0, d2) && L2 == L0 && leaked0 <= leaked2 && |leaked2 - leaked0| == BlocksFor(|data|)
  }

  /** The images a store leaves: all of them the old tree, or, when it succeeds in a directory of the tree,
      the old one or the new one. */
  ghost predicate StoreLog(log0: seq<Disk>, log1: seq<Disk>, d0: Disk, L0: Layout, dir: nat, leaf: string,
                           data: seq<byte>, rc: int) {
    if rc == OK && dir in L0.depth then AllOldOrNew(log0, log1, d0, dir, leaf, File(data)) else AllOld(log0, log1, d0)
  }

  lemma LastStoreLog(log0: seq<Disk>, log1: seq<Disk>, d0: Disk, L0: Layout, leaked0: set<nat>,
                     d2: Disk, L2: Layout, leaked2: set<nat>, dir: nat, leaf: string, data: seq<byte>)
    requires AllOld(log0, log1, d0) && WF(d2, L2) && StoreOutcome(d0, L0, leaked0, d2, L2, leaked2, dir, leaf, data)
    ensures StoreLog(log0, log1 + [d2], d0, L0, dir, leaf, data, OK)
  {
    hide WF, OneLookChanged, SameLooks;
    if dir in L0.depth { LastImage(log0, log1, d0, d2, L2, dir, leaf, File(data)); }
  }

  lemma ReadyToWrite(d0: Disk, L0: Layout, used: set<nat>, leaked: set<nat>, d1: Disk, s: Slot, e: Entry, p: seq<nat>,
                     data: seq<byte>)
    requires Accounts(used, Reach(L0), leaked) && Agree(d0, d1, used) && IsDir(d0, s.dir) && s.idx < MAX_DIR_ENTRIES
    requires if s.dir in L0.depth then SlotFor(d0, s, e.name) else !InUse(d0, s)
    requires 1 <= |e.name| <= NAME_MAX && e.typ == TYPE_FILE && e.size == |data|
    requires |p| == BlocksFor(|data|) && p[0] == e.bno && Written(d1, p, data)
    requires Ascending(p) && (forall x :: x in p ==> x !in used && RESERVED <= x)
    ensures MayCommit(d0, L0, used, d1, s, e, p, data)
  {
    hide Written, Accounts, Ascending, SlotFor, StoreCommitted;
    if s.dir in L0.depth { ReadyToCommit(d0, L0, used, leaked, d1, s, e, p, data); }
  }

  lemma StrayNoChain(d: Disk, L: Layout, s: Slot)
    requires WF(d, L) && s.dir !in L.depth
    ensures OldChain(L, s) == []
  {
    assert s in L.chain ==> ChainOk(d, L, s);
  }

  /** Everything the write that ends a store establishes, with the new certificate. */
  lemma CommitAny(d0: Disk, L0: Layout, leaked: set<nat>, used: set<nat>, d1: Disk, d2: Disk, s: Slot, e: Entry,
                  p: seq<nat>, data: seq<byte>) returns (L2: Layout, leaked2: set<nat>)
    requires WF(d0, L0) && Accounts(used, Reach(L0), leaked) && MayCommit(d0, L0, used, d1, s, e, p, data)
    requires d2 == d1[s.dir := Dir(d0[s.dir].parent, d0[s.dir].entries[s.idx := e])]
    ensures WF(d2, L2) && StoreOutcome(d0, L0, leaked, d2, L2, leaked2, s.dir, e.name, data) && L2.depth == L0.depth
    ensures var was, q := d0[s.dir].entries[s.idx], OldChain(L0, s);
      if was.name != "" && was.bno != 0 then IsChain(d2, was.bno, q) else q == []
    ensures Accounts((used + Elements(p)) - Elements(OldChain(L0, s)), Reach(L2), leaked2)
    ensures |(used + Elements(p)) - Elements(OldChain(L0, s))| == |used| + |p| - |OldChain(L0, s)|
  {
    hide WF, OneLookChanged, IsChain, StoreCommitted, Distinct, Ascending;
    if s.dir in L0.depth {
      CommitFacts(d0, L0, leaked, used, d1, d2, s, e, p, data);
      L2, leaked2 := PutFile(L0, s, p), leaked;
    } else {
      StrayFacts(d0, L0, leaked, used, d1, s.dir, Dir(d0[s.dir].parent, d0[s.dir].entries[s.idx := e]), p);
      StrayNoChain(d0, L0, s);
      AscendingSize(p);
      L2, leaked2 := L0, leaked + Elements(p);
      assert leaked2 - leaked == Elements(p);
      assert (used + Elements(p)) - Elements([]) == used + Elements(p);
    }
  }

  /** The blocks of the file a store replaces. */
  ghost function OldBlocks(d: Disk, L: Layout, dir: nat, leaf: string): nat
    requires IsDir(d, dir)
  {
    var i := Find(d[dir].entries, leaf, ANY_TYPE);
    if i < 0 then 0 else |OldChain(L, Slot(dir, i))|
  }

  lemma StoreSlotBlocks(d: Disk, L: Layout, dir: nat, leaf: string)
    requires WF(d, L) && dir in L.depth && StoreSlot(d, dir, leaf) >= 0
    ensures |OldChain(L, Slot(dir, StoreSlot(d, dir, leaf)))| == OldBlocks(d, L, dir, leaf)
  {
    var s := Slot(dir, StoreSlot(d, dir, leaf));
    assert s in L.chain ==> ChainOk(d, L, s);
  }

  /** The slot that a store writes fits, in the tree and outside it. */
  lemma SlotToWrite(d: Disk, L: Layout, dir: nat, leaf: string)
    requires WF(d, L) && IsDir(d, dir) && leaf != "" && StoreSlot(d, dir, leaf) >= 0
    requires var i := Find(d[dir].entries, leaf, ANY_TYPE); i >= 0 ==> d[dir].entries[i].typ != TYPE_DIR
    requires dir in L.depth || Find(d[dir].entries, leaf, ANY_TYPE) < 0
    ensures var s := Slot(dir, StoreSlot(d, dir, leaf));
      && (if dir in L.depth then SlotFor(d, s, leaf) else !InUse(d, s))
      && |OldChain(L, s)| == OldBlocks(d, L, dir, leaf)
  {
    if dir in L.depth {
      StoreSlotFits(d, L, dir, leaf);
      StoreSlotBlocks(d, L, dir, leaf);
    } else {
      StrayNoChain(d, L, Slot(dir, StoreSlot(d, dir, leaf)));
    }
  }

  /** What a store remembers of the moment it began: the log, the image, the blocks in use. */
  datatype Start = Start(log: seq<Disk>, image: Disk, used: set<nat>)

  /** Every number below `n` is in `s`. */
  ghost predicate AllBelow(s: set<nat>, n: nat) {
    forall i :: 0 <= i < n ==> i in s
  }

  lemma EmptyRoot(d: Disk)
    requires RESERVED < |d| && d[ROOT] == Dir(ROOT, NoEntries())
    ensures WF(d, Layout(map[ROOT := 0], map[], map[], map[]))
    ensures forall path: seq<string> :: |path| >= 1 ==> Look(d, path) == Missing
  {
    var L := Layout(map[ROOT := 0], map[], map[], map[]);
    assert DirBlockOk(d[ROOT]);
    assert WF(d, L);
    hide WF;
    forall path: seq<string> | |path| >= 1
      ensures Look(d, path) == Missing
    {
      HomeInTree(d, L, ROOT, path);
      NoSlotLook(d, ROOT, Last(path));
    }
  }

  lemma FullSize(s: set<nat>, n: nat)
    requires forall i :: i in s <==> 0 <= i < n
    ensures |s| == n
  {
    assert s == Upto(n);
  }

  lemma MarkedSize(s: set<nat>, b: nat, n: nat)
    requires (forall i :: i in s ==> i < n) && b < n && b !in s
    ensures |s| < n
  {
    SubsetSize(s, Upto(n) - {b});
  }

  /** What a chain holds is what its first block holds and then the rest. */
  lemma ChunkRead(d: Disk, bno: nat, remaining: nat)
    requires 0 < bno < |d| && remaining > 0
    ensures var data := Content(d[bno]);
      var chunk := if remaining > |data| then |data| else remaining;
      0 < chunk && ReadChain(d, bno, remaining) == data[..chunk] + ReadChain(d, Next(d[bno]), remaining - chunk)
  {
  }

  function ChainAt(p: seq<nat>, k: nat): nat {
    if k < |p| then p[k] else 0
  }

  lemma ChainStep(d: Disk, b: nat, p: seq<nat>, k: nat)
    requires IsChain(d, b, p) && k <= |p| && ChainAt(p, k) != 0
    ensures k < |p| && RESERVED <= p[k] < |d| && Next(d[p[k]]) == ChainAt(p, k + 1)
    ensures Elements(p[..k + 1]) == Elements(p[..k]) + {p[k]}
  {
    assert p[..k + 1] == p[..k] + [p[k]];
  }

  lemma AscendingSnoc(p: seq<nat>, b: nat, used: set<nat>)
    requires Ascending(p) && b != 0 && forall x :: x in p ==> RESERVED <= x < b
    ensures Ascending(p + [b]) && (used + Elements(p)) + NewBlock(b) == used + Elements(p + [b])
    ensures RESERVED <= b ==> forall x :: x in p + [b] ==> RESERVED <= x < b + 1
  {
    assert forall j :: 0 <= j < |p| ==> p[j] in p;
  }

  lemma Outcome(d: Disk, used: set<nat>, p: seq<nat>, data: seq<byte>, first: nat, prev: nat, written: nat)
    requires ChainSoFar(d, used, p, data, first, prev, written) && |data| > 0
    ensures if written < |data| then |p| < BlocksFor(|data|)
            else p != [] && |p| == BlocksFor(|data|) && first == p[0] != 0
  {
    PrevFacts(d, used, p, data, first, prev, written);
    if written < |data| {
      RoomForOneMore(|data|, |p|);
    } else {
      assert p != [];
      assert BlockWritten(d, p, data, 0);
      RoomForOneMore(|data|, |p| - 1);
    }
  }

  function NewBlock(b: nat): set<nat> {
    if b == 0 then {} else {b}
  }

  lemma EmptyIsWritten(d: Disk, b: nat, data: seq<byte>)
    requires RESERVED <= b < |d| && d[b] == Data(0, Zeros(FS_DATA_PAYLOAD)) && data == []
    ensures Written(d, [b], data)
  {
    ChunkIsEmpty(data);
    assert BlockWritten(d, [b], data, 0);
  }

  lemma PrevFacts(d: Disk, used: set<nat>, p: seq<nat>, data: seq<byte>, first: nat, prev: nat, written: nat)
    requires ChainSoFar(d, used, p, data, first, prev, written)
    ensures prev == 0 <==> p == []
    ensures prev != 0 ==> RESERVED <= prev < |d| && prev in p && prev in Elements(p) && prev !in used && d[prev].Data?
    ensures written < |data| ==> |p| * FS_DATA_PAYLOAD == written
  {
    assert p != [] ==> BlockWritten(d, p, data, |p| - 1);
  }

  lemma ChunkIsEmpty(data: seq<byte>)
    requires data == []
    ensures Chunk(data, 0) == Zeros(FS_DATA_PAYLOAD)
  {
  }

  lemma ReachIsUsed(used: set<nat>, L: Layout, leaked: set<nat>)
    requires Accounts(used, Reach(L), leaked)
    ensures Reach(L) <= used
  {
  }

  lemma ReadyToCommit(d0: Disk, L0: Layout, used: set<nat>, leaked: set<nat>, d1: Disk, s: Slot, e: Entry, p: seq<nat>,
                      data: seq<byte>)
    requires Accounts(used, Reach(L0), leaked) && Agree(d0, d1, used) && s.dir in L0.depth && SlotFor(d0, s, e.name)
    requires 1 <= |e.name| <= NAME_MAX && e.typ == TYPE_FILE && e.size == |data|
    requires |p| == BlocksFor(|data|) && p[0] == e.bno && Written(d1, p, data)
    requires Ascending(p) && (forall x :: x in p ==> x !in used && RESERVED <= x)
    ensures StoreCommitted(d0, L0, used, d1, d1[s.dir := Dir(d0[s.dir].parent, d0[s.dir].entries[s.idx := e])],
                           s, e, p, data)
  {
    assert |data| <= |p| * FS_DATA_PAYLOAD;
  }

  lemma FailedStore(d0: Disk, L0: Layout, used: set<nat>, leaked: set<nat>, d1: Disk, p: seq<nat>)
    requires WF(d0, L0) && Accounts(used, Reach(L0), leaked) && Agree(d0, d1, used)
    requires forall x :: x in p ==> x !in used && RESERVED <= x
    ensures WF(d1, L0) && SameLooks(d0, d1) && Accounts(used + Elements(p), Reach(L0), leaked + Elements(p))
  {
    ReachIsUsed(used, L0, leaked);
    SameTree(d0, L0, d1);
    LeakBlocks(used, Reach(L0), leaked, Elements(p));
  }

  lemma AscendingSize(p: seq<nat>)
    requires Ascending(p)
    ensures |Elements(p)| == |p|
  {
    AscendingDistinct(p);
    DistinctSize(p);
  }

  // ------------------------------------------------------------------ removing and making entries

  /** Emptying a file's slot: the name goes, the chain may be given back, nothing else moves. */
  lemma RemoveFileFacts(d0: Disk, L0: Layout, marked: set<nat>, leaked: set<nat>, d1: Disk, s: Slot)
    requires WF(d0, L0) && Accounts(marked, Reach(L0), leaked) && s.dir in L0.depth && FileSlot(d0, s)
    requires d1 == d0[s.dir := Dir(d0[s.dir].parent, d0[s.dir].entries[s.idx := FREE])]
    ensures s in L0.chain && IsChain(d1, At(d0, s).bno, L0.chain[s])
    ensures WF(d1, DropFile(L0, s)) && DropFile(L0, s).depth == L0.depth
    ensures OneLookChanged(d0, d1, s.dir, At(d0, s).name, Missing)
    ensures Accounts(marked - Elements(L0.chain[s]), Reach(DropFile(L0, s)), leaked)
    ensures |marked - Elements(L0.chain[s])| == |marked| - |L0.chain[s]|
  {
    assert s in L0.chain;
    hide Accounts, WF, OneLookChanged, Distinct, IsChain;
    RemoveFileLooks(d0, L0, d1, s);
    DropFileWF(d0, L0, d1, s);
    OldChainKept(d0, L0, Reach(L0), d0, d1, s);
    GiveBack(marked, Reach(L0), leaked, Elements(L0.chain[s]));
    DistinctSize(L0.chain[s]);
  }

  lemma RemoveFileLooks(d0: Disk, L0: Layout, d1: Disk, s: Slot)
    requires WF(d0, L0) && SlotCleared(d0, L0, d1, s) && FileSlot(d0, s)
    ensures OneLookChanged(d0, d1, s.dir, At(d0, s).name, Missing)
  {
    forall path: seq<string> | |path| >= 1
      ensures Look(d1, path) == if Names(d0, path, s.dir, At(d0, s).name) then Missing else Look(d0, path)
    {
      DropFileLook(d0, L0, d1, s, path);
    }
  }

  lemma RemoveDirFacts(d0: Disk, L0: Layout, marked: set<nat>, leaked: set<nat>, d1: Disk, s: Slot)
    requires WF(d0, L0) && Accounts(marked, Reach(L0), leaked) && s.dir in L0.depth && DirSlot(d0, s)
    requires EmptyDir(d0, At(d0, s).bno)
    requires d1 == d0[s.dir := Dir(d0[s.dir].parent, d0[s.dir].entries[s.idx := FREE])]
    ensures WF(d1, DropDir(L0, At(d0, s).bno)) && RESERVED <= At(d0, s).bno < |d0| && At(d0, s).bno in L0.depth
    ensures OneLookChanged(d0, d1, s.dir, At(d0, s).name, Missing)
    ensures Accounts(marked - {At(d0, s).bno}, Reach(DropDir(L0, At(d0, s).bno)), leaked)
    ensures |marked - {At(d0, s).bno}| == |marked| - 1
  {
    hide Accounts, WF, OneLookChanged;
    var c := At(d0, s).bno;
    DropDirWF(d0, L0, d1, s);
    RemoveDirLooks(d0, L0, d1, s);
    GiveBack(marked, Reach(L0), leaked, {c});
  }

  lemma RemoveDirLooks(d0: Disk, L0: Layout, d1: Disk, s: Slot)
    requires WF(d0, L0) && SlotCleared(d0, L0, d1, s) && DirSlot(d0, s) && EmptyDir(d0, At(d0, s).bno)
    ensures OneLookChanged(d0, d1, s.dir, At(d0, s).name, Missing)
  {
    forall path: seq<string> | |path| >= 1
      ensures Look(d1, path) == if Names(d0, path, s.dir, At(d0, s).name) then Missing else Look(d0, path)
    {
      DropDirLook(d0, L0, d1, s, path);
    }
  }

  /** The two writes of a mkdir: `d1` after the block is zeroed, `d2` after the entry is written,
      `d3` after the new directory block is. */
  ghost predicate MkdirWrites(d0: Disk, L0: Layout, d1: Disk, d2: Disk, d3: Disk, s: Slot, e: Entry) {
    && s.dir in L0.depth && IsDir(d0, s.dir) && s.idx < MAX_DIR_ENTRIES && !InUse(d0, s)
    && 1 <= |e.name| <= NAME_MAX && e.typ == TYPE_DIR && NameFree(d0, s, e.name)
    && RESERVED <= e.bno < |d0| && e.bno !in Reach(L0)
    && d1 == d0[e.bno := ZeroBlock()]
    && d2 == d1[s.dir := Dir(d0[s.dir].parent, d0[s.dir].entries[s.idx := e])]
    && d3 == d2[e.bno := Dir(s.dir, NoEntries())]
  }

  lemma MkdirFacts(d0: Disk, L0: Layout, marked: set<nat>, leaked: set<nat>, d1: Disk, d2: Disk, d3: Disk, s: Slot,
                   e: Entry)
    requires WF(d0, L0) && Accounts(marked, Reach(L0), leaked) && MkdirWrites(d0, L0, d1, d2, d3, s, e)
    requires e.bno !in marked
    ensures WF(d1, L0) && SameLooks(d0, d1)
    ensures WF(d3, AddDir(L0, s, e.bno)) && OneLookChanged(d0, d3, s.dir, e.name, Directory)
    ensures Accounts(marked + {e.bno}, Reach(AddDir(L0, s, e.bno)), leaked)
    ensures |marked + {e.bno}| == |marked| + 1
  {
    hide Accounts, WF, OneLookChanged;
    SameTree(d0, L0, d1);
    AddDirWF(d0, L0, d3, s, e);
    MkdirLooks(d0, L0, d1, d2, d3, s, e);
    TakeBlock(marked, Reach(L0), leaked, e.bno);
  }

  lemma MkdirLooks(d0: Disk, L0: Layout, d1: Disk, d2: Disk, d3: Disk, s: Slot, e: Entry)
    requires WF(d0, L0) && MkdirWrites(d0, L0, d1, d2, d3, s, e)
    ensures OneLookChanged(d0, d3, s.dir, e.name, Directory)
  {
    forall path: seq<string> | |path| >= 1
      ensures Look(d3, path) == if Names(d0, path, s.dir, e.name) then Directory else Look(d0, path)
    {
      AddDirLook(d0, L0, d3, s, e, path);
    }
  }

  /** A directory keeps its distance from the root when no directory entry of the tree goes. */
  lemma {:induction false} StillReached(d0: Disk, L0: Layout, d1: Disk, b: nat)
    requires WF(d0, L0) && b in L0.depth
    requires forall z: Slot :: z.dir in L0.depth && DirSlot(d0, z) ==> DirSlot(d1, z) && At(d1, z) == At(d0, z)
    ensures DirReach(d1, b, L0.depth[b])
    decreases L0.depth[b]
  {
    if b != ROOT {
      assert UpOk(d0, L0, b);
      var z := Slot(d0[b].parent, L0.up[b]);
      StillReached(d0, L0, d1, z.dir);
      assert DirReach(d1, z.dir, L0.depth[b] - 1) && DirSlot(d1, z) && At(d1, z).bno == b;
    }
  }

  /** Between its two writes a mkdir leaves an entry that heads a block that is no directory: no
      layout certifies that image, so a crash there leaves a damaged tree. */
  lemma MkdirWindow(d0: Disk, L0: Layout, d1: Disk, d2: Disk, d3: Disk, s: Slot, e: Entry)
    requires WF(d0, L0) && MkdirWrites(d0, L0, d1, d2, d3, s, e)
    ensures !WellFormed(d2)
  {
    if L :| WF(d2, L) {
      StillReached(d0, L0, d2, s.dir);
      ReachedHasDepth(d2, L, s.dir, L0.depth[s.dir]);
      DirSlotHeadsDir(d2, L, s);
    }
  }

  /** An empty directory's block that holds something else leads nowhere. */
  lemma {:induction false} HollowHome(d: Disk, L: Layout, d1: Disk, c: nat, y: nat, q: seq<string>)
    requires WF(d, L) && EmptyDir(d, c) && !IsDir(d1, c) && |d1| == |d| && y in L.depth && |q| >= 1
    requires forall x :: 0 <= x < |d| && x != c ==> d1[x] == d[x]
    ensures Home(d1, y, q) == if Home(d, y, q) == c then 0 else Home(d, y, q)
    decreases |q|
  {
    if |q| > 1 {
      ChildInTree(d, L, y, q[0]);
      if y == c {
        NoSlotLook(d, c, q[0]);
      } else if Child(d, y, q[0]) != 0 {
        HollowHome(d, L, d1, c, Child(d, y, q[0]), q[1..]);
      }
    }
  }

  /** An image in which the block of an empty directory holds something else reads the same. */
  lemma HollowLooks(d: Disk, L: Layout, d1: Disk, c: nat)
    requires WF(d, L) && EmptyDir(d, c) && c in L.depth && !IsDir(d1, c) && |d1| == |d|
    requires forall x :: 0 <= x < |d| && x != c ==> d1[x] == d[x]
    ensures SameLooks(d, d1)
  {
    forall path: seq<string> | |path| >= 1
      ensures Look(d1, path) == Look(d, path)
    {
      var h := Home(d, ROOT, path);
      HomeInTree(d, L, ROOT, path);
      HollowHome(d, L, d1, c, ROOT, path);
      if h == c {
        NoSlotLook(d, c, Last(path));
      } else if h != 0 {
        assert forall z :: z in L.chain ==> ChainOk(d, L, z);
        assert forall x :: x in L.own ==> OwnOk(L, x);
        LookAtFrame(d, L, d1, h, Last(path));
      }
    }
  }

  /** In the image between its two writes a mkdir's new name already reads as a directory, and every
      other path as before. */
  lemma MkdirWindowLooks(d0: Disk, L0: Layout, d1: Disk, d2: Disk, d3: Disk, s: Slot, e: Entry)
    requires WF(d0, L0) && MkdirWrites(d0, L0, d1, d2, d3, s, e)
    ensures OneLookChanged(d0, d2, s.dir, e.name, Directory)
  {
    AddDirWF(d0, L0, d3, s, e);
    MkdirLooks(d0, L0, d1, d2, d3, s, e);
    HollowLooks(d3, AddDir(L0, s, e.bno), d2, e.bno);
  }

  /** What a mkdir leaves, and what it passes through. */
  lemma MkdirOutcome(d0: Disk, L0: Layout, marked: set<nat>, leaked: set<nat>, d1: Disk, d2: Disk, d3: Disk, s: Slot,
                     e: Entry)
    requires WF(d0, L0) && Accounts(marked, Reach(L0), leaked) && e.bno !in marked && e.bno !in Reach(L0)
    requires s.dir in L0.depth && IsDir(d0, s.dir) && s.idx < MAX_DIR_ENTRIES && !InUse(d0, s)
    requires 1 <= |e.name| <= NAME_MAX && e.typ == TYPE_DIR && NameFree(d0, s, e.name) && RESERVED <= e.bno < |d0|
    requires d1 == d0[e.bno := ZeroBlock()]
    requires d2 == d1[s.dir := Dir(d0[s.dir].parent, d0[s.dir].entries[s.idx := e])]
    requires d3 == d2[e.bno := Dir(s.dir, NoEntries())]
    ensures WF(d3, AddDir(L0, s, e.bno)) && OneLookChanged(d0, d3, s.dir, e.name, Directory)
    ensures Accounts(marked + {e.bno}, Reach(AddDir(L0, s, e.bno)), leaked) && |marked + {e.bno}| == |marked| + 1
    ensures !WellFormed(d2) && OneLookChanged(d0, d2, s.dir, e.name, Directory)
  {
    assert MkdirWrites(d0, L0, d1, d2, d3, s, e);
    MkdirFacts(d0, L0, marked, leaked, d1, d2, d3, s, e);
    MkdirWindow(d0, L0, d1, d2, d3, s, e);
    MkdirWindowLooks(d0, L0, d1, d2, d3, s, e);
  }

  lemma DirSlotHeadsDir(d: Disk, L: Layout, s: Slot)
    requires WF(d, L) && s.dir in L.depth && DirSlot(d, s)
    ensures IsDir(d, At(d, s).bno) && d[At(d, s).bno].parent == s.dir
  {
    assert DownOk(d, L, s);
  }

  /** Directory `c` is no longer in the tree, and its block is as it was. */
  ghost predicate GoneDir(d0: Disk, d1: Disk, L1: Layout, c: nat) {
    c !in L1.depth && c < |d0| == |d1| && d1[c] == d0[c]
  }

  /** A name's directory, when it has one, is what both searches find. */
  lemma ChildIsFound(d: Disk, L: Layout, dir: nat, leaf: string)
    requires WF(d, L) && dir in L.depth
    ensures var i := Find(d[dir].entries, leaf, ANY_TYPE);
      Child(d, dir, leaf) == if i >= 0 && d[dir].entries[i].typ == TYPE_DIR then d[dir].entries[i].bno else 0
  {
    assert DirBlockOk(d[dir]);
    var es := d[dir].entries;
    var i, j := Find(es, leaf, ANY_TYPE), Find(es, leaf, TYPE_DIR);
    if j >= 0 {
      FindOnly(es, j, ANY_TYPE);
    } else if i >= 0 {
      assert !Matches(es[i], leaf, TYPE_DIR);
    }
  }

  /** How a remove ends, from what is known before it starts. */
  function RemoveCode(d: Disk, dir: nat, leaf: string): int
    requires IsDir(d, dir)
  {
    var i := Find(d[dir].entries, leaf, ANY_TYPE);
    if i < 0 then ERR_NOT_FOUND
    else if d[dir].entries[i].typ == TYPE_DIR && !EmptyDir(d, d[dir].entries[i].bno) then ERR_NOT_EMPTY
    else OK
  }

  /** The blocks an entry holds: one for a directory, the chain for a file. */
  ghost function HeldBlocks(d: Disk, L: Layout, dir: nat, leaf: string): nat
    requires IsDir(d, dir)
  {
    var i := Find(d[dir].entries, leaf, ANY_TYPE);
    if i < 0 then 0 else if DirSlot(d, Slot(dir, i)) then 1 else |OldChain(L, Slot(dir, i))|
  }

  /** How a mkdir ends: 0 when the name exists already, -1 when there is no slot or no block. */
  function MkdirCode(d: Disk, dir: nat, leaf: string, free: int): int
    requires IsDir(d, dir)
  {
    if Find(d[dir].entries, leaf, ANY_TYPE) != -1 then OK
    else if FreeFrom(d[dir].entries, 0) < 0 || free == 0 then ERR_NO_DIR
    else OK
  }

  /** What a read of a whole file returns: the code, and the bytes when it is 0. */
  function LoadCode(d: Disk, dir: nat, leaf: string, maxSize: nat): int
    requires IsDir(d, dir)
  {
    var i := Find(d[dir].entries, leaf, TYPE_FILE);
    if i < 0 then ERR_NOT_FOUND else if d[dir].entries[i].size > maxSize then ERR_TOO_BIG else OK
  }

  /** A name's file, when it has one, is what both searches find. */
  lemma LoadFindsTheFile(d: Disk, L: Layout, dir: nat, leaf: string)
    requires WF(d, L) && dir in L.depth
    ensures var i := Find(d[dir].entries, leaf, TYPE_FILE);
      if i < 0 then !LookAt(d, dir, leaf).File?
      else (Slot(dir, i) in L.chain && IsChain(d, d[dir].entries[i].bno, L.chain[Slot(dir, i)])
            && LookAt(d, dir, leaf) == File(ReadChain(d, d[dir].entries[i].bno, d[dir].entries[i].size)))
  {
    assert DirBlockOk(d[dir]);
    var es := d[dir].entries;
    var i, j := Find(es, leaf, TYPE_FILE), Find(es, leaf, ANY_TYPE);
    if i >= 0 {
      FindOnly(es, i, ANY_TYPE);
      assert FileSlot(d, Slot(dir, i)) && Slot(dir, i) in L.chain;
      assert ChainOk(d, L, Slot(dir, i));
    } else if j >= 0 {
      assert EntryOk(es[j]) && !Matches(es[j], leaf, TYPE_FILE);
    }
  }

  /** A removed slot is in use, under the name searched for. */
  lemma FoundSlot(d: Disk, L: Layout, dir: nat, leaf: string)
    requires WF(d, L) && dir in L.depth && Find(d[dir].entries, leaf, ANY_TYPE) >= 0
    ensures var s := Slot(dir, Find(d[dir].entries, leaf, ANY_TYPE));
      InUse(d, s) && At(d, s).name == leaf && (DirSlot(d, s) || (FileSlot(d, s) && s in L.chain))
    ensures var s := Slot(dir, Find(d[dir].entries, leaf, ANY_TYPE));
      DirSlot(d, s) ==> At(d, s).bno in L.depth && IsDir(d, At(d, s).bno)
  {
    var s := Slot(dir, Find(d[dir].entries, leaf, ANY_TYPE));
    if DirSlot(d, s) { assert DownOk(d, L, s); }
  }

  /** A missing name and a free slot are what a mkdir needs. */
  lemma MkdirSlot(d: Disk, dir: nat, leaf: string)
    requires IsDir(d, dir) && leaf != "" && Find(d[dir].entries, leaf, ANY_TYPE) < 0 && FreeFrom(d[dir].entries, 0) >= 0
    ensures var s := Slot(dir, FreeFrom(d[dir].entries, 0));
      s.idx < MAX_DIR_ENTRIES && !InUse(d, s) && NameFree(d, s, leaf)
  {
    forall j | 0 <= j < MAX_DIR_ENTRIES
      ensures d[dir].entries[j].name != leaf
    {
      assert !Matches(d[dir].entries[j], leaf, ANY_TYPE);
    }
  }

  lemma RemovedIsNotHome(d: Disk, L: Layout, s: Slot)
    requires WF(d, L) && s.dir in L.depth && DirSlot(d, s)
    ensures At(d, s).bno != s.dir
  {
    assert DownOk(d, L, s);
    assert UpOk(d, L, At(d, s).bno);
  }

  lemma UsedIsOther(marked: set<nat>, L: Layout, leaked: set<nat>, dir: nat, b: nat)
    requires Accounts(marked, Reach(L), leaked) && b !in marked && dir in L.depth
    ensures b != dir && b !in Reach(L)
  {
  }
}
