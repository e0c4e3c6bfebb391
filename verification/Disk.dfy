/** The on-disk format of VibeFS and what a disk image means: which blocks are reachable from the
    root directory, and what a path reads back as. Everything here is about one image (a sequence
    of blocks), so it can be said of the live disk and of every image a crash may leave behind. */
module DiskModel {

  newtype byte = x: int | 0 <= x < 256

  const BSIZE: nat := 4096
  /** Bytes of file content in a data block: the block less its magic and its next pointer. */
  const FS_DATA_PAYLOAD: nat := BSIZE - 8
  /** Entries of 40 bytes that fit in a block behind the 8-byte directory header. */
  const MAX_DIR_ENTRIES: nat := 102
  /** Blocks below this number are never handed out. */
  const RESERVED: nat := 60
  const ROOT: nat := 1
  const NAME_MAX: nat := 19

  const TYPE_FILE: nat := 0
  const TYPE_DIR: nat := 1
  /** The type filter of `find_entry_index` that accepts every entry. */
  const ANY_TYPE: int := -1

  function Zeros(n: nat): (s: seq<byte>)
    ensures |s| == n
  {
    seq(n, _ => 0)
  }

  /** A directory entry; an entry whose name is empty is a free slot. */
  datatype Entry = Entry(name: string, bno: nat, size: nat, ctime: nat, mtime: nat, mode: nat, typ: nat)

  const FREE: Entry := Entry("", 0, 0, 0, 0, 0, 0)

  /** A block by its magic word: a directory, a data block, or neither. */
  datatype AnyBlock =
    | Dir(parent: nat, entries: seq<Entry>)
    | Data(next: nat, payload: seq<byte>)
    | Raw(bytes: seq<byte>)
  {
    predicate FitsBlock() {
      match this
      case Dir(_, es) => |es| == MAX_DIR_ENTRIES
      case Data(_, bs) => |bs| == FS_DATA_PAYLOAD
      case Raw(bs) => |bs| == BSIZE
    }
  }

  type Block = b: AnyBlock | b.FitsBlock() witness Raw(Zeros(BSIZE))

  function ZeroBlock(): Block {
    Raw(Zeros(BSIZE))
  }

  function NoEntries(): (es: seq<Entry>)
    ensures |es| == MAX_DIR_ENTRIES
  {
    seq(MAX_DIR_ENTRIES, _ => FREE)
  }

  /** A disk image. Its length is the build's FS_MAX_BLOCKS. */
  type Disk = seq<Block>

  predicate IsDir(d: Disk, b: nat) {
    b != 0 && b < |d| && d[b].Dir?
  }

  // ------------------------------------------------------------------ reading an image

  predicate Matches(e: Entry, name: string, filter: int) {
    e.name != "" && (filter != ANY_TYPE ==> e.typ == filter) && e.name == name
  }

  /** The first slot at or after `i` that matches, or -1. */
  function FindFrom(es: seq<Entry>, name: string, filter: int, i: nat): (r: int)
    requires i <= |es|
    ensures r == -1 || i <= r < |es|
    ensures r >= 0 ==> Matches(es[r], name, filter)
    ensures forall j :: i <= j < (if r >= 0 then r else |es|) ==> !Matches(es[j], name, filter)
    decreases |es| - i
  {
    if i == |es| then -1
    else if Matches(es[i], name, filter) then i
    else FindFrom(es, name, filter, i + 1)
  }

  function Find(es: seq<Entry>, name: string, filter: int): (r: int)
    ensures r == -1 || 0 <= r < |es|
    ensures r >= 0 ==> Matches(es[r], name, filter)
    ensures forall j :: 0 <= j < (if r >= 0 then r else |es|) ==> !Matches(es[j], name, filter)
  {
    FindFrom(es, name, filter, 0)
  }

  /** The block that follows `b` in a chain; 0 ends it. A block without the data magic ends it too. */
  function Next(b: Block): nat {
    if b.Data? then b.next else 0
  }

  /** What a block contributes to a file: its payload, or the whole block when it has no data magic.
      (The bytes of a directory block are never file content on a well-formed disk.) */
  function Content(b: Block): (s: seq<byte>)
    ensures |s| >= FS_DATA_PAYLOAD
  {
    match b
    case Data(_, p) => p
    case Raw(bs) => bs
    case Dir(_, _) => Zeros(BSIZE)
  }

  /** The bytes a chain holds, `remaining` of them at most. */
  function ReadChain(d: Disk, bno: nat, remaining: nat): (s: seq<byte>)
    ensures |s| <= remaining
    decreases remaining
  {
    if remaining == 0 || bno == 0 || bno >= |d| then []
    else
      var c := Content(d[bno]);
      if remaining <= |c| then c[..remaining]
      else c + ReadChain(d, Next(d[bno]), remaining - |c|)
  }

  /** What a name means to a reader of the tree. */
  datatype Node = Missing | Directory | File(bytes: seq<byte>)

  /** What `leaf` is in directory block `b`. */
  function LookAt(d: Disk, b: nat, leaf: string): Node {
    if !IsDir(d, b) then Missing
    else
      var i := Find(d[b].entries, leaf, ANY_TYPE);
      if i < 0 then Missing
      else if d[b].entries[i].typ == TYPE_DIR then Directory
      else File(ReadChain(d, d[b].entries[i].bno, d[b].entries[i].size))
  }

  /** The size the entry of file `leaf` in directory `b` records, 0 without one. */
  function SizeAt(d: Disk, b: nat, leaf: string): nat {
    if !IsDir(d, b) then 0
    else
      var i := Find(d[b].entries, leaf, TYPE_FILE);
      if i < 0 then 0 else d[b].entries[i].size
  }

  /** The subdirectory of `b` called `name`. */
  function Child(d: Disk, b: nat, name: string): (c: nat) {
    if !IsDir(d, b) then 0
    else
      var i := Find(d[b].entries, name, TYPE_DIR);
      if i < 0 then 0 else d[b].entries[i].bno
  }

  /** The directory block in which the last component of `path` is looked up, starting from
      directory `b`; 0 when an inner component is not a directory. */
  function Home(d: Disk, b: nat, path: seq<string>): nat
    requires |path| >= 1
    decreases |path|
  {
    if !IsDir(d, b) then 0
    else if |path| == 1 then b
    else Home(d, Child(d, b, path[0]), path[1..])
  }

  function Last(path: seq<string>): string
    requires |path| >= 1
  {
    path[|path| - 1]
  }

  /** What `path` reads back as. */
  function Look(d: Disk, path: seq<string>): Node
    requires |path| >= 1
  {
    LookAt(d, Home(d, ROOT, path), Last(path))
  }

  /** `path` names the entry `leaf` of directory block `b`. */
  predicate Names(d: Disk, path: seq<string>, b: nat, leaf: string)
    requires |path| >= 1
  {
    Home(d, ROOT, path) == b && Last(path) == leaf
  }

  // ------------------------------------------------------------------ reachability

  /** A slot of a directory block, and a position in the chain that a slot heads. */
  datatype Slot = Slot(dir: nat, idx: nat)
  datatype Place = Place(slot: Slot, pos: nat)

  predicate InUse(d: Disk, s: Slot) {
    IsDir(d, s.dir) && s.idx < MAX_DIR_ENTRIES && d[s.dir].entries[s.idx].name != ""
  }

  function At(d: Disk, s: Slot): Entry
    requires InUse(d, s)
  {
    d[s.dir].entries[s.idx]
  }

  predicate FileSlot(d: Disk, s: Slot) {
    InUse(d, s) && At(d, s).typ != TYPE_DIR
  }

  predicate DirSlot(d: Disk, s: Slot) {
    InUse(d, s) && At(d, s).typ == TYPE_DIR
  }

  /** `b` is a directory block `n` steps below the root. */
  ghost predicate DirReach(d: Disk, b: nat, n: nat)
    decreases n
  {
    if n == 0 then b == ROOT
    else exists s: Slot :: DirReach(d, s.dir, n - 1) && DirSlot(d, s) && At(d, s).bno == b
  }

  /** The `n`-th block of the chain that starts at `b`, 0 past its end. */
  ghost function Nth(d: Disk, b: nat, n: nat): nat {
    if n == 0 then b
    else
      var p := Nth(d, b, n - 1);
      if p == 0 || p >= |d| then 0 else Next(d[p])
  }

  ghost predicate ChainReach(d: Disk, x: nat) {
    exists s: Slot, m: nat, n: nat ::
      DirReach(d, s.dir, m) && FileSlot(d, s) && Nth(d, At(d, s).bno, n) == x && x != 0
  }

  /** The reference meaning of "in use": reachable from the root by following entries and chains. */
  ghost predicate Reachable(d: Disk, x: nat) {
    (exists n: nat :: DirReach(d, x, n)) || ChainReach(d, x)
  }

  // ------------------------------------------------------------------ well-formed images

  /** A certificate that an image is a well-formed tree: the depth of every directory block, the
      slot of its parent it sits in, the chain that every file slot heads, and for every chain
      block the one place it holds. `own` being a function is what makes chains disjoint and
      acyclic. */
  datatype Layout = Layout(depth: map<nat, nat>, up: map<nat, nat>,
                           chain: map<Slot, seq<nat>>, own: map<nat, Place>)

  ghost predicate IsChain(d: Disk, b: nat, p: seq<nat>) {
    && (if p == [] then b == 0 else p[0] == b)
    && (forall k :: 0 <= k < |p| ==> RESERVED <= p[k] < |d| && !d[p[k]].Dir?)
    && (forall j, k :: 0 <= j && k == j + 1 && k < |p| ==> Next(d[p[j]]) == p[k])
    && (p != [] ==> Next(d[p[|p| - 1]]) == 0)
  }

  predicate EntryOk(e: Entry) {
    e.name != "" ==> |e.name| <= NAME_MAX && (e.typ == TYPE_FILE || e.typ == TYPE_DIR)
  }

  predicate UniqueNames(es: seq<Entry>) {
    forall i, j :: 0 <= i < j < |es| && es[i].name != "" ==> es[i].name != es[j].name
  }

  predicate DirBlockOk(b: Block) {
    b.Dir? && UniqueNames(b.entries) && forall i :: 0 <= i < |b.entries| ==> EntryOk(b.entries[i])
  }

  ghost predicate DirsOk(d: Disk, L: Layout) {
    && RESERVED < |d|
    && ROOT in L.depth && L.depth[ROOT] == 0 && IsDir(d, ROOT) && d[ROOT].parent == ROOT
    && (forall b :: b in L.depth ==> IsDir(d, b) && (b == ROOT || (RESERVED <= b && L.depth[b] > 0)))
    && (forall b {:trigger DirBlockOk(d[b])} :: b in L.depth ==> DirBlockOk(d[b]))
  }

  /** A directory other than the root is where its parent pointer and `up` say. */
  predicate UpOk(d: Disk, L: Layout, c: nat)
    requires c in L.depth && IsDir(d, c)
  {
    && c in L.up && d[c].parent in L.depth
    && L.depth[c] == L.depth[d[c].parent] + 1
    && DirSlot(d, Slot(d[c].parent, L.up[c]))
    && At(d, Slot(d[c].parent, L.up[c])).bno == c
  }

  /** What directory slot `s` heads is the directory that says it sits there. */
  predicate DownOk(d: Disk, L: Layout, s: Slot)
    requires DirSlot(d, s)
  {
    var c := At(d, s).bno;
    c in L.depth && c != ROOT && IsDir(d, c) && d[c].parent == s.dir && c in L.up && L.up[c] == s.idx
  }

  ghost predicate TreeOk(d: Disk, L: Layout)
    requires DirsOk(d, L)
  {
    && (forall c {:trigger UpOk(d, L, c)} :: c in L.depth && c != ROOT ==> UpOk(d, L, c))
    && (forall s: Slot {:trigger DownOk(d, L, s)} :: s.dir in L.depth && DirSlot(d, s) ==> DownOk(d, L, s))
  }

  /** Slot `s` is a file slot that heads its chain, and every block of the chain knows its place. */
  ghost predicate ChainOk(d: Disk, L: Layout, s: Slot)
    requires s in L.chain
  {
    && s.dir in L.depth && FileSlot(d, s) && IsChain(d, At(d, s).bno, L.chain[s])
    && forall k :: 0 <= k < |L.chain[s]| ==> L.chain[s][k] in L.own && L.own[L.chain[s][k]] == Place(s, k)
  }

  /** Chain block `x` is where `own` says. */
  ghost predicate OwnOk(L: Layout, x: nat)
    requires x in L.own
  {
    var Place(s, k) := L.own[x];
    s in L.chain && k < |L.chain[s]| && L.chain[s][k] == x && x !in L.depth
  }

  ghost predicate ChainsOk(d: Disk, L: Layout) {
    && (forall s {:trigger ChainOk(d, L, s)} :: s in L.chain ==> ChainOk(d, L, s))
    && (forall s: Slot {:trigger s in L.chain} :: s.dir in L.depth && FileSlot(d, s) ==> s in L.chain)
    && (forall x {:trigger OwnOk(L, x)} :: x in L.own ==> OwnOk(L, x))
  }

  ghost predicate WF(d: Disk, L: Layout) {
    DirsOk(d, L) && TreeOk(d, L) && ChainsOk(d, L)
  }

  /** The blocks a layout accounts for; `ReachableIsReach` shows they are the reachable ones. */
  function Reach(L: Layout): set<nat> {
    L.depth.Keys + L.own.Keys
  }

  /** Some layout certifies the image. */
  ghost predicate WellFormed(d: Disk) {
    exists L :: WF(d, L)
  }
}
