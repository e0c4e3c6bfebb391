/** The file system itself: a disk written one whole block at a time, the bitmap of used blocks,
    and the operations on an already resolved directory block and leaf name. */
module VibeFS {
  import opened Bitmaps
  import opened DiskModel
  import opened Sequences
  import opened TreeLemmas
  import opened TreeEdits
  import opened Paths
  import opened TreeMoves
  import opened TreeLoss
  import opened FsSteps
  import opened MoveSteps
  import opened Outcomes
  import opened ScanSteps
  import opened Runs

  class FileSystem {
    const disk: array<Block>
    const blockMap: Bitmap
    /** No block below this one is free. */
    var nextFree: nat
    /** The disk image after each block write: the images a crash can leave behind. */
    ghost var log: seq<Disk>
    ghost var lay: Layout
    /** Blocks marked used that nothing reaches. */
    ghost var leaked: set<nat>

    ghost function Image(): Disk
      reads this, disk
    {
      disk[..]
    }

    ghost function Free(): int
      reads this, disk, blockMap
    {
      disk.Length - |blockMap.marked|
    }

    ghost predicate Ready()
      reads this, disk, blockMap, blockMap.bytes
    {
      && Shape() && RESERVED <= nextFree <= disk.Length
      && AllBelow(blockMap.marked, nextFree)
    }

    ghost predicate Valid()
      reads this, disk, blockMap, blockMap.bytes
    {
      Ready() && WF(Image(), lay) && Accounts(blockMap.marked, Reach(lay), leaked)
    }

    ghost predicate Shape()
      reads this, disk, blockMap, blockMap.bytes
    {
      && blockMap.Valid() && blockMap.size == disk.Length && RESERVED < disk.Length
      && disk as object != blockMap.bytes as object
    }

    /** Attaches to a device. Nothing is known of its contents until a format or a rebuild. */
    constructor (device: array<Block>)
      requires RESERVED < device.Length
      ensures Shape() && disk == device && fresh(blockMap) && fresh(blockMap.bytes)
    {
      disk := device;
      blockMap := new Bitmap(device.Length);
      nextFree := RESERVED;
      log := [];
      lay := Layout(map[], map[], map[], map[]);
      leaked := {};
    }

    /** Marks the reserved blocks of a cleared map, as both a format and a rebuild do. */
    method MarkReserved()
      requires Shape()
      modifies this`nextFree, blockMap, blockMap.bytes
      ensures Ready() && nextFree == RESERVED
      ensures forall i :: i in blockMap.marked <==> 0 <= i < RESERVED
    {
      blockMap.ClearAll();
      for i := 0 to RESERVED
        invariant Shape() && forall j :: j in blockMap.marked <==> 0 <= j < i
      {
        blockMap.Set(i);
      }
      nextFree := RESERVED;
    }

    /** Writes an empty root directory; every other block is free. */
    method Format()
      requires Shape()
      modifies this, disk, blockMap, blockMap.bytes
      ensures Valid() && leaked == {} && Reach(lay) == {ROOT} && Free() == disk.Length - RESERVED
      ensures forall path: seq<string> :: |path| >= 1 ==> Look(Image(), path) == Missing
      ensures log == old(log) + [Image()]
    {
      WriteBlock(ROOT, Dir(ROOT, NoEntries()));
      MarkReserved();
      lay := Layout(map[ROOT := 0], map[], map[], map[]);
      leaked := {};
      FullSize(blockMap.marked, RESERVED);
      EmptyRoot(Image());
    }

    // ---------------------------------------------------------------- blocks

    /** One block write, which is atomic. */
    method WriteBlock(b: nat, blk: Block)
      requires b < disk.Length
      modifies this`log, disk
      ensures Image() == old(Image())[b := blk]
      ensures log == old(log) + [Image()]
    {
      disk[b] := blk;
      log := log + [disk[..]];
    }

    /** Hands out the lowest free block, zeroed; 0 exactly when every block is used. */
    method Balloc() returns (b: nat)
      requires Ready()
      modifies this`nextFree, this`log, disk, blockMap, blockMap.bytes
      ensures Ready()
      ensures b == 0 ==> blockMap.marked == old(blockMap.marked) && nextFree == old(nextFree)
      ensures b == 0 ==> Image() == old(Image()) && log == old(log)
      ensures if b == 0 then Free() == old(Free()) == 0 else Free() == old(Free()) - 1 && Free() >= 0
      ensures b != 0 ==> RESERVED <= b < disk.Length && b !in old(blockMap.marked)
      ensures b != 0 ==> AllBelow(old(blockMap.marked), b)
      ensures b != 0 ==> blockMap.marked == old(blockMap.marked) + {b} && nextFree == b + 1
      ensures b != 0 ==> Image() == old(Image())[b := ZeroBlock()] && log == old(log) + [Image()]
    {
      for i := nextFree to disk.Length
        invariant Ready() && blockMap.marked == old(blockMap.marked) && nextFree == old(nextFree)
        invariant Image() == old(Image()) && log == old(log)
        invariant AllBelow(blockMap.marked, i)
      {
        var used := blockMap.IsMarked(i);
        if !used {
          blockMap.Set(i);
          nextFree := i + 1;
          WriteBlock(i, ZeroBlock());
          MarkedSize(old(blockMap.marked), i, disk.Length);
          return i;
        }
      }
      FullSize(blockMap.marked, disk.Length);
      return 0;
    }

    /** Gives a block back; reserved and out-of-range numbers are ignored. */
    method Bfree(b: nat)
      requires Ready()
      modifies this`nextFree, blockMap, blockMap.bytes
      ensures Ready()
      ensures blockMap.marked ==
        if RESERVED <= b < disk.Length then old(blockMap.marked) - {b} else old(blockMap.marked)
    {
      if b < RESERVED || b >= disk.Length { return; }
      blockMap.Clear(b);
      if b < nextFree { nextFree := b; }
    }

    /** Gives back every block of the chain that starts at `bno`, and no other. */
    method FreeChain(bno: nat, ghost p: seq<nat>)
      requires Ready() && IsChain(Image(), bno, p)
      modifies this`nextFree, blockMap, blockMap.bytes
      ensures Ready()
      ensures blockMap.marked == old(blockMap.marked) - Elements(p)
    {
      var b := bno;
      ghost var img, k := Image(), 0;
      while b != 0
        invariant Ready() && Image() == img
        invariant 0 <= k <= |p| && b == ChainAt(p, k)
        invariant blockMap.marked == old(blockMap.marked) - Elements(p[..k])
        decreases |p| - k
      {
        ChainStep(img, bno, p, k);
        var next := Next(disk[b]);
        Bfree(b);
        b, k := next, k + 1;
      }
      assert p[..k] == p;
    }

    // ---------------------------------------------------------------- directory searches

    static method FindEntryIndex(es: seq<Entry>, name: string, filter: int) returns (r: int)
      ensures r == Find(es, name, filter)
    {
      for i := 0 to |es|
        invariant forall j :: 0 <= j < i ==> !Matches(es[j], name, filter)
      {
        if es[i].name == "" { continue; }
        if filter != ANY_TYPE && es[i].typ != filter { continue; }
        if es[i].name == name { return i; }
      }
      return -1;
    }

    static method FindFreeEntryIndex(es: seq<Entry>) returns (r: int)
      ensures r == FreeFrom(es, 0)
    {
      for i := 0 to |es|
        invariant forall j :: 0 <= j < i ==> es[j].name != ""
      {
        if es[i].name == "" { return i; }
      }
      return -1;
    }

    // ---------------------------------------------------------------- storing a file

    /** Writes `content` to a fresh block, then makes block `prev`, if there is one, point to it. */
    method AppendBlock(prev: nat, content: seq<byte>, ghost log0: seq<Disk>, ghost d0: Disk, ghost used: set<nat>)
      returns (b: nat)
      requires Ready() && |content| == FS_DATA_PAYLOAD && used <= blockMap.marked
      requires prev != 0 ==> prev < disk.Length && prev in blockMap.marked && prev !in used && disk[prev].Data?
      requires LogKeeps(log0, log, d0, used) && Agree(d0, Image(), used)
      modifies this`nextFree, this`log, disk, blockMap, blockMap.bytes
      ensures Ready() && LogKeeps(log0, log, d0, used) && Agree(d0, Image(), used)
      ensures if b == 0 then Free() == old(Free()) == 0 else Free() == old(Free()) - 1 && Free() >= 0
      ensures blockMap.marked == old(blockMap.marked) + NewBlock(b)
      ensures b != 0 ==> old(nextFree) <= b < disk.Length && nextFree == b + 1 && b !in old(blockMap.marked)
      ensures b == 0 ==> Image() == old(Image()) && log == old(log) && nextFree == old(nextFree)
      ensures b != 0 ==> Image()[b] == Data(0, content)
      ensures b != 0 && prev != 0 ==> Image()[prev] == old(Image())[prev].(next := b)
      ensures forall x :: 0 <= x < disk.Length && x != b && (x != prev || prev == 0) ==> Image()[x] == old(Image())[x]
    {
      hide LogKeeps, Agree;
      b := FreshBlock(content, log0, d0, used);
      if b != 0 && prev != 0 {
        Put(prev, disk[prev].(next := b), log0, d0, used);
      }
    }

    /** Writes `content` to a free block, if there is one. */
    method FreshBlock(content: seq<byte>, ghost log0: seq<Disk>, ghost d0: Disk, ghost used: set<nat>) returns (b: nat)
      requires Ready() && |content| == FS_DATA_PAYLOAD && used <= blockMap.marked
      requires LogKeeps(log0, log, d0, used) && Agree(d0, Image(), used)
      modifies this`nextFree, this`log, disk, blockMap, blockMap.bytes
      ensures Ready() && LogKeeps(log0, log, d0, used) && Agree(d0, Image(), used)
      ensures if b == 0 then Free() == old(Free()) == 0 else Free() == old(Free()) - 1 && Free() >= 0
      ensures blockMap.marked == old(blockMap.marked) + NewBlock(b)
      ensures b != 0 ==> old(nextFree) <= b < disk.Length && nextFree == b + 1 && b !in old(blockMap.marked)
      ensures b == 0 ==> Image() == old(Image()) && log == old(log) && nextFree == old(nextFree)
      ensures b != 0 ==> Image() == old(Image())[b := Data(0, content)]
    {
      b := Balloc();
      if b == 0 { return; }
      AgreeWrite(d0, old(Image()), used, b, ZeroBlock());
      LogGains(log0, old(log), d0, used, Image());
      Put(b, Data(0, content), log0, d0, used);
    }

    /** A write to a block outside `used`. */
    method Put(b: nat, blk: Block, ghost log0: seq<Disk>, ghost d0: Disk, ghost used: set<nat>)
      requires b < disk.Length && b !in used && LogKeeps(log0, log, d0, used) && Agree(d0, Image(), used)
      modifies this`log, disk
      ensures LogKeeps(log0, log, d0, used) && Agree(d0, Image(), used) && Image() == old(Image())[b := blk]
    {
      AgreeWrite(d0, Image(), used, b, blk);
      LogGains(log0, log, d0, used, Image()[b := blk]);
      WriteBlock(b, blk);
    }

    /** Writes `data` into a fresh chain. Every block it touches was free, so at each moment every
        block that was in use before holds what it held before. Succeeds exactly when there is room. */
    method WriteChain(data: seq<byte>) returns (first: nat, ghost p: seq<nat>)
      requires Ready()
      modifies this`nextFree, this`log, disk, blockMap, blockMap.bytes
      ensures Ready() && LogKeeps(old(log), log, old(Image()), old(blockMap.marked))
      ensures Agree(old(Image()), Image(), old(blockMap.marked))
      ensures Ascending(p) && forall x :: x in p ==> x !in old(blockMap.marked) && RESERVED <= x < disk.Length
      ensures blockMap.marked == old(blockMap.marked) + Elements(p)
      ensures Free() == old(Free()) - |p|
      ensures first != 0 <==> old(Free()) >= BlocksFor(|data|)
      ensures first != 0 ==> |p| == BlocksFor(|data|) && p[0] == first && Written(Image(), p, data)
      ensures first == 0 ==> Free() == 0
    {
      if |data| == 0 {
        first := AppendBlock(0, Zeros(FS_DATA_PAYLOAD), log, Image(), blockMap.marked);
        p := if first == 0 then [] else [first];
        if first != 0 { EmptyIsWritten(Image(), first, data); }
      } else {
        ghost var start, prev := Start(log, Image(), blockMap.marked), 0;
        var written;
        first, p, prev, written := WriteBlocks(data);
        Outcome(Image(), start.used, p, data, first, prev, written);
        if written < |data| { first := 0; }
      }
    }

    /** The block-by-block loop of a store of at least one byte. It stops early only when no block is free. */
    method WriteBlocks(data: seq<byte>) returns (first: nat, ghost p: seq<nat>, ghost prev: nat, written: nat)
      requires Ready() && |data| > 0
      modifies this`nextFree, this`log, disk, blockMap, blockMap.bytes
      ensures Progress(Start(old(log), old(Image()), old(blockMap.marked)), p, data, first, prev, written)
      ensures written <= |data| && (written < |data| ==> Free() == 0)
    {
      ghost var start := Start(log, Image(), blockMap.marked);
      var last: nat := 0;
      first, p, prev, written := 0, [], 0, 0;
      while written < |data|
        invariant Progress(start, p, data, first, last, written) && written <= |data|
        decreases |data| - written
      {
        var b := StoreNext(data, last, written, start, p, first);
        if b == 0 { break; }
        if last == 0 { first := b; }
        last := b;
        written := Advance(data, written);
        p := p + [b];
      }
      prev := last;
    }

    /** How far a store has come since `start`. */
    ghost predicate Progress(start: Start, p: seq<nat>, data: seq<byte>, first: nat, prev: nat, written: nat)
      reads this, disk, blockMap, blockMap.bytes
    {
      && Ready() && LogKeeps(start.log, log, start.image, start.used) && Agree(start.image, Image(), start.used)
      && ChainSoFar(Image(), start.used, p, data, first, prev, written)
      && Ascending(p) && (forall x :: x in p ==> RESERVED <= x < nextFree)
      && blockMap.marked == start.used + Elements(p)
      && |blockMap.marked| == |start.used| + |p| && (p != [] ==> |blockMap.marked| <= disk.Length)
    }

    /** One turn of the store loop. */
    method StoreNext(data: seq<byte>, prev: nat, written: nat, ghost start: Start, ghost p: seq<nat>, ghost first: nat)
      returns (b: nat)
      requires Progress(start, p, data, first, prev, written) && written < |data|
      modifies this`nextFree, this`log, disk, blockMap, blockMap.bytes
      ensures if b == 0 then
          Progress(start, p, data, first, prev, written) && Free() == 0
        else
          Progress(start, p + [b], data, if prev == 0 then b else first, b,
                   Advance(data, written))
    {
      ghost var d1 := Image();
      PrevFacts(d1, start.used, p, data, first, prev, written);
      b := AppendBlock(prev, NextContent(data, written), start.log, start.image, start.used);
      if b != 0 {
        AscendingSnoc(p, b, start.used);
        ChainGrows(d1, Image(), start.used, p, data, first, prev, written, b);
      }
    }

    /** The part of a store that writes: the chain, then the one directory block, then the old chain
        goes back. */
    method StoreAt(s: Slot, leaf: string, data: seq<byte>, ctime: nat, now: nat) returns (rc: int)
      requires Valid() && 1 <= |leaf| <= NAME_MAX && IsDir(Image(), s.dir) && s.idx < MAX_DIR_ENTRIES
      requires if s.dir in lay.depth then SlotFor(Image(), s, leaf) else !InUse(Image(), s)
      modifies this, disk, blockMap, blockMap.bytes
      ensures Valid() && lay.depth == old(lay.depth)
      ensures rc == if old(Free()) >= BlocksFor(|data|) then OK else ERR_NO_SPACE
      ensures StoreLog(old(log), log, old(Image()), old(lay), s.dir, leaf, data, rc)
      ensures rc == OK ==> StoreOutcome(old(Image()), old(lay), old(leaked), Image(), lay, leaked, s.dir, leaf, data)
      ensures if rc == OK then Free() == old(Free()) - BlocksFor(|data|) + |OldChain(old(lay), s)|
              else SameLooks(old(Image()), Image()) && Free() == 0 && lay == old(lay)
      ensures if rc == OK then Stored(old(Image()), Image(), old(lay), s, leaf, Stamp(ctime, now, 7))
              else SameStamps(old(Image()), Image(), old(lay))
    {
      hide WF, OneLookChanged, SameLooks, LogKeeps, Written, AllOld, Reach, Distinct, Agree, Accounts, StoreOutcome,
           MayCommit, NameFree, Ascending, AllBelow, Elements, DirSlot, InUse, SlotFor, Stored, SameStamps;
      ghost var d0, L0, used, leaked0 := Image(), lay, blockMap.marked, leaked;
      var was, dirBlock := disk[s.dir].entries[s.idx], disk[s.dir];
      var first, p := WriteChain(data);
      ReachIsUsed(used, L0, leaked0);
      KeptImages(old(log), log, d0, L0, used);
      if first == 0 {
        StampsKept(d0, Image(), L0, used);
        FailedStore(d0, L0, used, leaked0, Image(), p);
        leaked := leaked + Elements(p);
        rc := ERR_NO_SPACE;
      } else {
        var e := Entry(leaf, first, |data|, ctime, now, 7, TYPE_FILE);
        ReadyToWrite(d0, L0, used, leaked0, Image(), s, e, p, data);
        CommitStore(s, e, dirBlock, was, data, p, d0, used, old(log));
        rc := OK;
      }
    }

    method CommitStore(s: Slot, e: Entry, dirBlock: Block, was: Entry, ghost data: seq<byte>, ghost p: seq<nat>,
                       ghost d0: Disk, ghost used: set<nat>, ghost log0: seq<Disk>)
      requires Ready() && WF(d0, lay) && Accounts(used, Reach(lay), leaked) && blockMap.marked == used + Elements(p)
      requires s.dir < |d0| == disk.Length && d0[s.dir] == dirBlock && dirBlock.Dir? && s.idx < MAX_DIR_ENTRIES
      requires was == dirBlock.entries[s.idx] && MayCommit(d0, lay, used, Image(), s, e, p, data)
      requires AllOld(log0, log, d0) && Agree(d0, Image(), used) && IsDir(d0, s.dir)
      modifies this, disk, blockMap, blockMap.bytes
      ensures Valid() && lay.depth == old(lay.depth) && StoreLog(log0, log, d0, old(lay), s.dir, e.name, data, OK)
      ensures StoreOutcome(d0, old(lay), old(leaked), Image(), lay, leaked, s.dir, e.name, data)
      ensures |blockMap.marked| == |used| + |p| - |OldChain(old(lay), s)|
      ensures Stored(d0, Image(), old(lay), s, e.name, StampOf(e))
    {
      hide WF, Accounts, IsChain, StoreOutcome, OldChain, Reach, Elements, Ready, MayCommit, BlocksFor, AllBelow,
           Stored, DirWritten, IsDir, Agree, AllOld, StoreLog;
      ghost var q, L0, d1, leaked0, log1 := OldChain(lay, s), lay, Image(), leaked, log;
      CommitWrite(s, e, dirBlock, was, data, p, d0, used);
      StoredAfter(d0, d1, Image(), L0, leaked0, used, s, dirBlock, e);
      LastStoreLog(log0, log1, d0, L0, leaked0, Image(), lay, leaked, s.dir, e.name, data);
      FreeOld(was, q);
    }

    /** Gives back the chain of an entry that was replaced, if it had one. */
    method FreeOld(was: Entry, ghost q: seq<nat>)
      requires Ready() && if was.name != "" && was.bno != 0 then IsChain(Image(), was.bno, q) else q == []
      modifies this`nextFree, blockMap, blockMap.bytes
      ensures Ready() && blockMap.marked == old(blockMap.marked) - Elements(q) && Image() == old(Image())
    {
      if was.name != "" && was.bno != 0 { FreeChain(was.bno, q); }
    }

    /** The one write that makes a store visible. */
    method CommitWrite(s: Slot, e: Entry, dirBlock: Block, ghost was: Entry, ghost data: seq<byte>, ghost p: seq<nat>,
                       ghost d0: Disk, ghost used: set<nat>)
      requires Ready() && WF(d0, lay) && Accounts(used, Reach(lay), leaked) && blockMap.marked == used + Elements(p)
      requires s.dir < |d0| == disk.Length && d0[s.dir] == dirBlock && dirBlock.Dir? && s.idx < MAX_DIR_ENTRIES
      requires was == dirBlock.entries[s.idx] && MayCommit(d0, lay, used, Image(), s, e, p, data)
      modifies this`log, this`lay, this`leaked, disk
      ensures Ready() && WF(Image(), lay) && lay.depth == old(lay.depth) && log == old(log) + [Image()]
      ensures StoreOutcome(d0, old(lay), old(leaked), Image(), lay, leaked, s.dir, e.name, data)
      ensures var q := OldChain(old(lay), s);
        && (if was.name != "" && was.bno != 0 then IsChain(Image(), was.bno, q) else q == [])
        && Accounts(blockMap.marked - Elements(q), Reach(lay), leaked)
        && |blockMap.marked - Elements(q)| == |used| + |p| - |q|
      ensures DirWritten(old(Image()), Image(), s, dirBlock, e)
    {
      hide WF, Accounts, MayCommit, IsChain, StoreOutcome, OldChain, Reach;
      ghost var L0, d1 := lay, Image();
      WriteBlock(s.dir, Dir(dirBlock.parent, dirBlock.entries[s.idx := e]));
      lay, leaked := CommitAny(d0, L0, leaked, used, d1, Image(), s, e, p, data);
    }

    /** Stores `data` as `leaf` in directory `dir`. How it ends is decided by the directory, the name
        and the number of free blocks; every image on the way is the old tree or the new one. The
        directory may have been removed in the meantime: then a store that succeeds does nothing but
        take blocks. */
    method Store(dir: nat, leaf: string, data: seq<byte>, now: nat) returns (rc: int)
      requires Valid() && 1 <= |leaf| <= NAME_MAX && (dir in lay.depth || Stray(Image(), lay, dir, leaf))
      modifies this, disk, blockMap, blockMap.bytes
      ensures Valid() && lay.depth == old(lay.depth)
      ensures rc ==
        if IsDir(old(Image()), dir) then StoreCode(old(Image()), dir, leaf, |data|, old(Free())) else ERR_NO_DIR
      ensures StoreEnds(old(Image()), dir, leaf, |data|, old(Free()), rc)
      ensures if rc != OK then SameStamps(old(Image()), Image(), lay)
        else dir in lay.depth ==>
          OneStampChanged(old(Image()), Image(), lay, dir, leaf, StoredStamp(old(Image()), dir, leaf, now))
      ensures StoreLog(old(log), log, old(Image()), old(lay), dir, leaf, data, rc)
      ensures rc == OK ==> StoreOutcome(old(Image()), old(lay), old(leaked), Image(), lay, leaked, dir, leaf, data)
      ensures rc == OK ==> Free() == old(Free()) - BlocksFor(|data|) + OldBlocks(old(Image()), old(lay), dir, leaf)
      ensures rc != OK && rc != ERR_NO_SPACE ==> leaked == old(leaked)
      ensures rc != OK ==> SameLooks(old(Image()), Image()) && lay == old(lay)
      ensures rc != OK ==> Free() == if rc == ERR_NO_SPACE then 0 else old(Free())
    {
      assert dir in lay.depth ==> IsDir(Image(), dir);
      hide WF, OneLookChanged, SameLooks, AllOld, AllOldOrNew, Accounts, AllBelow, StoreOutcome, StoreEnds, Stored,
           OneStampChanged, StoredStamp, SlotFor, InUse, LookAt, Stray, SameStamps, StoreLog;
      ghost var d0, L0 := Image(), lay;
      StoreCodeMeans(d0, dir, leaf, |data|, Free());
      NothingWritten(log, Image(), lay, dir, leaf, File(data));
      if !disk[dir].Dir? { return ERR_NO_DIR; }
      var es := disk[dir].entries;
      var idx := FindEntryIndex(es, leaf, ANY_TYPE);
      var ctime := now;
      if idx != -1 {
        if es[idx].typ == TYPE_DIR { return ERR_IS_DIR; }
        ctime := es[idx].ctime;
      } else {
        idx := FindFreeEntryIndex(es);
      }
      if idx == -1 { return ERR_FULL_DIR; }
      SlotToWrite(Image(), lay, dir, leaf);
      rc := StoreAt(Slot(dir, idx), leaf, data, ctime, now);
      if rc == OK && dir in L0.depth {
        StoreStamps(d0, L0, Image(), lay, Slot(dir, idx), leaf, ctime, now);
      }
    }

    // ---------------------------------------------------------------- reading a file

    /** Reads a whole file. On success the bytes are what the tree says the name holds. */
    method Load(dir: nat, leaf: string, maxSize: nat) returns (rc: int, out: seq<byte>)
      requires Valid() && dir in lay.depth
      ensures rc == LoadCode(Image(), dir, leaf, maxSize)
      ensures LoadEnds(Image(), dir, leaf, maxSize, rc)
      ensures rc == OK ==> LookAt(Image(), dir, leaf) == File(out) && |out| <= SizeAt(Image(), dir, leaf) <= maxSize
    {
      assert IsDir(Image(), dir);
      LoadCodeMeans(Image(), lay, dir, leaf, maxSize);
      hide WF, IsChain;
      LoadFindsTheFile(Image(), lay, dir, leaf);
      var es := disk[dir].entries;
      var idx := FindEntryIndex(es, leaf, TYPE_FILE);
      if idx == -1 { return ERR_NOT_FOUND, []; }
      if es[idx].size > maxSize { return ERR_TOO_BIG, []; }
      out := LoadChain(es[idx].bno, es[idx].size, lay.chain[Slot(dir, idx)]);
      rc := OK;
    }

    /** The size recorded for a file, -1 when the name is not one. */
    method EntrySize(dir: nat, leaf: string) returns (n: int)
      requires Valid() && dir in lay.depth
      ensures if LookAt(Image(), dir, leaf).File? then n == SizeAt(Image(), dir, leaf) else n == -1
    {
      assert IsDir(Image(), dir);
      LoadFindsTheFile(Image(), lay, dir, leaf);
      var i := FindEntryIndex(disk[dir].entries, leaf, TYPE_FILE);
      n := if i == -1 then -1 else disk[dir].entries[i].size;
    }

    /** Copies the content of a chain block by block. */
    method LoadChain(first: nat, size: nat, ghost p: seq<nat>) returns (out: seq<byte>)
      requires IsChain(Image(), first, p)
      ensures out == ReadChain(Image(), first, size)
    {
      var remaining: nat, bno: nat := size, first;
      ghost var k := 0;
      out := [];
      assert ChainAt(p, 0) == first;
      hide IsChain, ReadChain, Content;
      while remaining > 0 && bno != 0
        invariant 0 <= k <= |p| && bno == ChainAt(p, k)
        invariant ReadChain(Image(), first, size) == out + ReadChain(Image(), bno, remaining)
        decreases remaining
      {
        ChainStep(Image(), first, p, k);
        var c := Content(disk[bno]);
        var chunk := if remaining > |c| then |c| else remaining;
        ChunkRead(Image(), bno, remaining);
        Regrouped(out, c[..chunk], ReadChain(Image(), Next(disk[bno]), remaining - chunk));
        out := out + c[..chunk];
        remaining := remaining - chunk;
        bno := Next(disk[bno]);
        k := k + 1;
      }
    }

    // ---------------------------------------------------------------- removing an entry

    /** Whether a directory block has no entries. */
    method DirIsEmpty(b: nat) returns (empty: bool)
      requires b < disk.Length && b != 0
      ensures empty <==> EmptyDir(Image(), b)
    {
      if !disk[b].Dir? { return false; }
      for i := 0 to MAX_DIR_ENTRIES
        invariant forall j :: 0 <= j < i ==> disk[b].entries[j].name == ""
      {
        if disk[b].entries[i].name != "" { return false; }
      }
      return true;
    }

    /** Removes an entry: a file with its whole chain, or an empty directory. One directory write
        decides it, so it too is atomic. */
    method Remove(dir: nat, leaf: string) returns (rc: int)
      requires Valid() && dir in lay.depth
      modifies this, disk, blockMap, blockMap.bytes
      ensures Valid() && dir in lay.depth && leaked == old(leaked)
      ensures rc == RemoveCode(old(Image()), dir, leaf)
      ensures RemoveEnds(old(Image()), dir, leaf, rc)
      ensures rc == OK ==> OneStampChanged(old(Image()), Image(), lay, dir, leaf, NoStamp)
      ensures AllOldOrNew(old(log), log, old(Image()), dir, leaf, Missing)
      ensures rc == OK ==> OneLookChanged(old(Image()), Image(), dir, leaf, Missing)
      ensures rc == OK && Child(old(Image()), dir, leaf) != 0 ==>
        GoneDir(old(Image()), Image(), lay, Child(old(Image()), dir, leaf))
      ensures rc == OK ==> Free() == old(Free()) + HeldBlocks(old(Image()), old(lay), dir, leaf)
      ensures rc != OK ==> Image() == old(Image()) && lay == old(lay) && Free() == old(Free()) && log == old(log)
    {
      assert IsDir(Image(), dir);
      ChildIsFound(Image(), lay, dir, leaf);
      RemoveCodeMeans(Image(), lay, dir, leaf);
      hide WF, OneLookChanged, SameLooks, AllOld, AllOldOrNew, Accounts, AllBelow, GoneDir, Child, RemoveEnds,
           OneStampChanged;
      var idx := FindEntryIndex(disk[dir].entries, leaf, ANY_TYPE);
      NothingWritten(log, Image(), lay, dir, leaf, Missing);
      if idx == -1 { return ERR_NOT_FOUND; }
      FoundSlot(Image(), lay, dir, leaf);
      var s, was := Slot(dir, idx), disk[dir].entries[idx];
      if was.typ == TYPE_DIR {
        var empty := DirIsEmpty(was.bno);
        if !empty { return ERR_NOT_EMPTY; }
        RemoveDirAt(s);
      } else {
        RemoveFileAt(s);
      }
      return OK;
    }

    method RemoveDirAt(s: Slot)
      requires Valid() && s.dir in lay.depth && DirSlot(Image(), s) && EmptyDir(Image(), At(Image(), s).bno)
      modifies this, disk, blockMap, blockMap.bytes
      ensures Valid() && s.dir in lay.depth && leaked == old(leaked) && Free() == old(Free()) + 1
      ensures AllOldOrNew(old(log), log, old(Image()), s.dir, old(At(Image(), s)).name, Missing)
      ensures OneLookChanged(old(Image()), Image(), s.dir, old(At(Image(), s)).name, Missing)
      ensures GoneDir(old(Image()), Image(), lay, old(At(Image(), s)).bno)
      ensures OneStampChanged(old(Image()), Image(), lay, s.dir, old(At(Image(), s)).name, NoStamp)
    {
      hide WF, OneLookChanged, SameLooks, AllOld, AllOldOrNew, Accounts, AllBelow, EmptyDir, OneStampChanged;
      ghost var d0, L0, log0 := Image(), lay, log;
      var was := disk[s.dir].entries[s.idx];
      WriteBlock(s.dir, Dir(disk[s.dir].parent, disk[s.dir].entries[s.idx := FREE]));
      RemoveDirFacts(d0, L0, blockMap.marked, leaked, Image(), s);
      NothingWritten(log0, d0, L0, s.dir, was.name, Missing);
      lay := DropDir(L0, was.bno);
      ClearedStamps(d0, L0, Image(), lay, s);
      LastImage(log0, log0, d0, Image(), lay, s.dir, was.name, Missing);
      RemovedIsNotHome(d0, L0, s);
      Bfree(was.bno);
    }

    method RemoveFileAt(s: Slot)
      requires Valid() && s.dir in lay.depth && FileSlot(Image(), s)
      modifies this, disk, blockMap, blockMap.bytes
      ensures Valid() && s.dir in lay.depth && leaked == old(leaked)
      ensures Free() == old(Free()) + |OldChain(old(lay), s)|
      ensures AllOldOrNew(old(log), log, old(Image()), s.dir, old(At(Image(), s)).name, Missing)
      ensures OneLookChanged(old(Image()), Image(), s.dir, old(At(Image(), s)).name, Missing)
      ensures OneStampChanged(old(Image()), Image(), lay, s.dir, old(At(Image(), s)).name, NoStamp)
    {
      hide WF, OneLookChanged, SameLooks, AllOld, AllOldOrNew, Accounts, AllBelow, IsChain, OneStampChanged,
           Elements, Reach, NameFree;
      ghost var d0, L0, log0 := Image(), lay, log;
      var was := disk[s.dir].entries[s.idx];
      WriteBlock(s.dir, Dir(disk[s.dir].parent, disk[s.dir].entries[s.idx := FREE]));
      RemoveFileFacts(d0, L0, blockMap.marked, leaked, Image(), s);
      NothingWritten(log0, d0, L0, s.dir, was.name, Missing);
      lay := DropFile(L0, s);
      ClearedStamps(d0, L0, Image(), lay, s);
      LastImage(log0, log0, d0, Image(), lay, s.dir, was.name, Missing);
      if was.bno == 0 { EmptyChain(Image(), L0.chain[s]); }
      FreeOld(was, L0.chain[s]);
    }

    // ---------------------------------------------------------------- making a directory

    /** Makes directory `leaf` in `dir`. The entry is written before the block it heads, so the image
        between the two writes is damaged, although every path reads in it as it will in the end. */
    method Mkdir(dir: nat, leaf: string, now: nat) returns (rc: int)
      requires Valid() && dir in lay.depth && 1 <= |leaf| <= NAME_MAX
      modifies this, disk, blockMap, blockMap.bytes
      ensures Valid() && lay.depth.Keys >= old(lay.depth.Keys) && leaked == old(leaked)
      ensures rc == MkdirCode(old(Image()), dir, leaf, old(Free()))
      ensures MkdirEnds(old(Image()), dir, leaf, old(Free()), rc)
      ensures rc == OK && LookAt(old(Image()), dir, leaf) == Missing ==>
        OneStampChanged(old(Image()), Image(), old(lay), dir, leaf, Stamp(now, now, 7))
      ensures if rc == OK && LookAt(old(Image()), dir, leaf) == Missing then
          OneLookChanged(old(Image()), Image(), dir, leaf, Directory) && Free() == old(Free()) - 1
          && |log| == |old(log)| + 3 && old(log) <= log && !WellFormed(log[|old(log)| + 1])
          && OneLookChanged(old(Image()), log[|old(log)| + 1], dir, leaf, Directory)
        else Image() == old(Image()) && Free() == old(Free()) && log == old(log) && lay == old(lay)
    {
      assert IsDir(Image(), dir);
      FreeIsNat();
      MkdirCodeMeans(Image(), dir, leaf, Free());
      hide WF, OneLookChanged, WellFormed, Accounts, AllBelow, NameFree, MkdirEnds, OneStampChanged;
      var es := disk[dir].entries;
      var idx := FindEntryIndex(es, leaf, ANY_TYPE);
      if idx != -1 { return OK; }
      idx := FindFreeEntryIndex(es);
      if idx < 0 { return ERR_NO_DIR; }
      MkdirSlot(Image(), dir, leaf);
      rc := MkdirAt(Slot(dir, idx), leaf, now);
    }

    method MkdirAt(s: Slot, leaf: string, now: nat) returns (rc: int)
      requires Valid() && s.dir in lay.depth && IsDir(Image(), s.dir) && s.idx < MAX_DIR_ENTRIES && !InUse(Image(), s)
      requires 1 <= |leaf| <= NAME_MAX && NameFree(Image(), s, leaf)
      modifies this, disk, blockMap, blockMap.bytes
      ensures Valid() && lay.depth.Keys >= old(lay.depth.Keys) && leaked == old(leaked)
      ensures rc == if old(Free()) == 0 then ERR_NO_DIR else OK
      ensures if rc == OK then
          OneLookChanged(old(Image()), Image(), s.dir, leaf, Directory) && Free() == old(Free()) - 1
          && |log| == |old(log)| + 3 && old(log) <= log && !WellFormed(log[|old(log)| + 1])
          && OneLookChanged(old(Image()), log[|old(log)| + 1], s.dir, leaf, Directory)
        else Image() == old(Image()) && Free() == old(Free()) && log == old(log) && lay == old(lay)
      ensures rc == OK ==> OneStampChanged(old(Image()), Image(), old(lay), s.dir, leaf, Stamp(now, now, 7))
    {
      hide WF, OneLookChanged, WellFormed, Accounts, AllBelow, NameFree, InUse, SameLooks, Reach, MkdirWrites,
           OneStampChanged;
      ghost var d0, L0, marked0 := Image(), lay, blockMap.marked;
      var db := disk[s.dir];
      var nb := Balloc();
      if nb == 0 { return ERR_NO_DIR; }
      ghost var d1, log1 := Image(), log;
      UsedIsOther(marked0, L0, leaked, s.dir, nb);
      var e := Entry(leaf, nb, 0, now, now, 7, TYPE_DIR);
      WriteBlock(s.dir, Dir(db.parent, db.entries[s.idx := e]));
      ghost var d2 := Image();
      WriteBlock(nb, Dir(s.dir, NoEntries()));
      MkdirOutcome(d0, L0, marked0, leaked, d1, d2, Image(), s, e);
      assert log == log1 + [d2] + [Image()] && log[|log1|] == d2;
      lay := AddDir(L0, s, nb);
      MkdirStamps(d0, L0, d1, d2, Image(), lay, s, e);
      return OK;
    }

    // ---------------------------------------------------------------- moving an entry

    /** Whether `ancestor` is `child` or one of the directories above it, as far up as the guard lets
        the walk go. */
    method IsAncestor(ancestor: nat, child: nat) returns (r: bool)
      requires Valid() && ancestor in lay.depth && child in lay.depth
      ensures r <==> SeenInside(Image(), lay, ancestor, child)
    {
      var y, guard := child, 0;
      while y != 0 && guard < ANCESTOR_GUARD
        invariant y in lay.depth && guard <= ANCESTOR_GUARD && lay.depth[y] + guard == lay.depth[child]
        invariant Below(Image(), ancestor, y) <==> Below(Image(), ancestor, child)
        decreases ANCESTOR_GUARD - guard
      {
        AncestorDepth(Image(), lay, ancestor, y);
        if y == ancestor { return true; }
        if y == ROOT { return false; }
        AncestorStep(Image(), lay, ancestor, y);
        y := if disk[y].parent != 0 then disk[y].parent else ROOT;
        guard := guard + 1;
      }
      AncestorDepth(Image(), lay, ancestor, y);
      return false;
    }

    method Rename(s: Slot, name: string, now: nat)
      requires Valid() && s.dir in lay.depth && InUse(Image(), s) && 1 <= |name| <= NAME_MAX
      requires NameFree(Image(), s, name)
      modifies this, disk
      ensures Valid() && lay == old(lay) && leaked == old(leaked) && blockMap.marked == old(blockMap.marked)
      ensures log == old(log) + [Image()] && CrashAtomic(old(log), log, old(Image()), Image())
      ensures if name == old(At(Image(), s)).name then SameLooks(old(Image()), Image())
              else MovedPaths(old(Image()), Image(), s.dir, old(At(Image(), s)).name, s.dir, name)
      ensures var was := old(At(Image(), s)).name;
        StampMoved(old(Image()), Image(), lay, s.dir, was, s.dir, name, MovedStamp(old(Image()), s.dir, was, now))
    {
      hide WF, SameLooks, MovedPaths, NameFree, Accounts, AllBelow, CrashAtomic, StampMoved;
      ghost var d0 := Image();
      var e := disk[s.dir].entries[s.idx].(name := name, mtime := now);
      WriteBlock(s.dir, Dir(disk[s.dir].parent, disk[s.dir].entries[s.idx := e]));
      RenameFacts(d0, lay, Image(), s, e);
      RenameStamps(d0, lay, Image(), s, e, now);
      OneWriteAtomic(old(log), d0, Image(), lay);
    }

    /** The writes of a move between two directories. */
    method Transfer(s: Slot, t: Slot, name: string, now: nat)
      requires Valid() && s.dir in lay.depth && t.dir in lay.depth && s.dir != t.dir && InUse(Image(), s)
      requires IsDir(Image(), t.dir) && t.idx < MAX_DIR_ENTRIES && !InUse(Image(), t)
      requires 1 <= |name| <= NAME_MAX && NameFree(Image(), t, name)
      modifies this, disk
      ensures Valid() && blockMap.marked == old(blockMap.marked)
      ensures MoveResult(old(Image()), old(lay), old(leaked), Image(), leaked, s, old(At(Image(), s)).name, t.dir, name)
      ensures MoveLog(old(log), log, old(Image()), Image(), s, t.dir)
      ensures CrashAtomic(old(log), log, old(Image()), Image()) <==> MovesIntoItself(old(Image()), s, t.dir)
      ensures var was := old(At(Image(), s)).name;
        StampMoved(old(Image()), Image(), old(lay), s.dir, was, t.dir, name,
                   MovedStamp(old(Image()), s.dir, was, now))
    {
      hide WF, WellFormed, SameLooks, MovedPaths, Vanished, NameFree, Accounts, AllBelow, LostBlocks, Detach, Below,
           CrashAtomic, StampMoved;
      ghost var d0, L0, log0, leaked0 := Image(), lay, log, leaked;
      var from, to := disk[s.dir], disk[t.dir];
      var was := from.entries[s.idx];
      var e := was.(name := name, mtime := now);
      if DirSlot(d0, s) { DirSlotHeadsDir(d0, L0, s); }
      WriteBlock(s.dir, Dir(from.parent, from.entries[s.idx := FREE]));
      ghost var d1 := Image();
      WriteBlock(t.dir, Dir(to.parent, to.entries[t.idx := e]));
      ghost var d2 := Image();
      if was.typ == TYPE_DIR && was.bno != 0 && was.bno < disk.Length && disk[was.bno].Dir? {
        WriteBlock(was.bno, Dir(t.dir, disk[was.bno].entries));
      }
      assert log == if DirSlot(d0, s) then log0 + [d1, d2, Image()] else log0 + [d1, Image()];
      lay, leaked := TransferFacts(d0, L0, blockMap.marked, leaked0, d1, d2, Image(), s, t, e);
      TransferAtomic(d0, L0, leaked0, d1, d2, Image(), lay, leaked, s, t, e, log0, log);
      TransferStamps(d0, L0, d1, d2, Image(), s, t, e, now);
    }

    /** Moves or renames an entry. A directory that ends up outside itself takes every path below it
        along; one moved into its own subtree is lost. All images on the way are before or after exactly
        for a rename within a directory and for a loss. */
    method Move(srcDir: nat, srcLeaf: string, dstDir: nat, dstLeaf: string, now: nat) returns (rc: int)
      requires Valid() && srcDir in lay.depth && dstDir in lay.depth
      requires 1 <= |srcLeaf| <= NAME_MAX && 1 <= |dstLeaf| <= NAME_MAX
      modifies this, disk
      ensures Valid() && blockMap.marked == old(blockMap.marked)
      ensures rc == MoveCode(old(Image()), old(lay), srcDir, srcLeaf, dstDir, dstLeaf)
      ensures MoveEnds(old(Image()), old(lay), srcDir, srcLeaf, dstDir, dstLeaf, rc)
      ensures rc == OK && (srcDir != dstDir || srcLeaf != dstLeaf) ==>
        var (b, n) := MoveTarget(old(Image()), srcLeaf, dstDir, dstLeaf);
        StampMoved(old(Image()), Image(), old(lay), srcDir, srcLeaf, b, n,
                   MovedStamp(old(Image()), srcDir, srcLeaf, now))
      ensures rc != OK || (srcDir == dstDir && srcLeaf == dstLeaf) ==>
        Image() == old(Image()) && log == old(log) && lay == old(lay) && leaked == old(leaked)
      ensures rc == OK && (srcDir != dstDir || srcLeaf != dstLeaf) ==>
        var (b, n) := MoveTarget(old(Image()), srcLeaf, dstDir, dstLeaf);
        var s := Slot(srcDir, Find(old(Image())[srcDir].entries, srcLeaf, ANY_TYPE));
        && InUse(old(Image()), s) && At(old(Image()), s).name == srcLeaf
        && MoveResult(old(Image()), old(lay), old(leaked), Image(), leaked, s, srcLeaf, b, n)
        && MoveLog(old(log), log, old(Image()), Image(), s, b)
        && (CrashAtomic(old(log), log, old(Image()), Image()) <==> b == srcDir || MovesIntoItself(old(Image()), s, b))
    {
      MoveCodeMeans(Image(), lay, srcDir, srcLeaf, dstDir, dstLeaf);
      if srcDir == dstDir && srcLeaf == dstLeaf { return OK; }
      hide WF, SameLooks, MovedPaths, Vanished, NameFree, Accounts, AllBelow, MovesIntoItself, WellFormed, LostBlocks,
           MoveCode, CrashAtomic, MoveEnds, StampMoved, MovedStamp;
      var i, b, n, k;
      rc, i, b, n, k := PlanMove(srcDir, srcLeaf, dstDir, dstLeaf);
      if rc != OK { return; }
      if b == srcDir {
        RenameIsNoLoss(Image(), lay, Slot(srcDir, i));
        Rename(Slot(srcDir, i), n, now);
      } else {
        Transfer(Slot(srcDir, i), Slot(b, k), n, now);
      }
    }

    /** The checks a move makes before it writes: the source slot, and the directory, name and slot
        it goes to. */
    method PlanMove(srcDir: nat, srcLeaf: string, dstDir: nat, dstLeaf: string)
      returns (rc: int, i: int, b: nat, n: string, k: int)
      requires Valid() && srcDir in lay.depth && dstDir in lay.depth && (srcDir != dstDir || srcLeaf != dstLeaf)
      requires 1 <= |srcLeaf| <= NAME_MAX && 1 <= |dstLeaf| <= NAME_MAX
      ensures rc == MoveCode(Image(), lay, srcDir, srcLeaf, dstDir, dstLeaf)
      ensures rc == OK ==> Planned(Image(), lay, srcDir, srcLeaf, dstDir, dstLeaf, i, b, n, k)
    {
      ghost var d, L := Image(), lay;
      assert IsDir(d, srcDir) && IsDir(d, dstDir);
      MoveCodeCases(d, L, srcDir, srcLeaf, dstDir, dstLeaf);
      hide WF, NameFree, Accounts, AllBelow, SeenInside, MoveCode, TargetCode;
      i, b, n, k := -1, dstDir, dstLeaf, -1;
      i := FindEntryIndex(disk[srcDir].entries, srcLeaf, ANY_TYPE);
      if i == -1 { rc := ERR_NO_SOURCE; return; }
      FoundSlot(d, L, srcDir, srcLeaf);
      var j := FindEntryIndex(disk[dstDir].entries, dstLeaf, ANY_TYPE);
      if j != -1 && disk[dstDir].entries[j].typ == TYPE_DIR {
        FoundSlot(d, L, dstDir, dstLeaf);
        if disk[srcDir].entries[i].typ == TYPE_DIR {
          var inside := IsAncestor(disk[srcDir].entries[i].bno, disk[dstDir].entries[j].bno);
          if inside { rc := ERR_INTO_ITSELF; return; }
        }
        b, n := disk[dstDir].entries[j].bno, srcLeaf;
      }
      rc, k := TargetSlot(srcDir, i, b, n);
    }

    method TargetSlot(srcDir: nat, i: nat, b: nat, n: string) returns (rc: int, k: int)
      requires Valid() && b in lay.depth && IsDir(Image(), b) && 1 <= |n| <= NAME_MAX
      requires srcDir in lay.depth && InUse(Image(), Slot(srcDir, i))
      ensures rc == TargetCode(Image(), srcDir, i, b, n)
      ensures rc == OK && b == srcDir ==> NameFree(Image(), Slot(srcDir, i), n)
      ensures rc == OK && b != srcDir ==>
        0 <= k < MAX_DIR_ENTRIES && !InUse(Image(), Slot(b, k)) && NameFree(Image(), Slot(b, k), n)
    {
      hide WF, NameFree, Accounts, AllBelow;
      k := FindEntryIndex(disk[b].entries, n, ANY_TYPE);
      if b == srcDir {
        if k != -1 && k != i { return ERR_EXISTS, k; }
        RenamePlan(Image(), lay, Slot(srcDir, i), n);
        return OK, k;
      }
      if k != -1 { return ERR_EXISTS, k; }
      k := FindFreeEntryIndex(disk[b].entries);
      if k == -1 { return ERR_TARGET_FULL, k; }
      MkdirSlot(Image(), b, n);
      return OK, k;
    }

    // ---------------------------------------------------------------- rebuilding the bitmap

    /** Marks a chain, block by block, stopping at a block that is already marked. */
    method ScanChain(bno: nat, ghost p: seq<nat>)
      requires Shape() && IsChain(Image(), bno, p) && Distinct(p)
      requires forall x :: x in p ==> x !in blockMap.marked
      modifies blockMap, blockMap.bytes
      ensures Shape() && blockMap.marked == old(blockMap.marked) + Elements(p)
    {
      var b, guard := bno, 0;
      ghost var d, was := Image(), blockMap.marked;
      while RESERVED <= b < disk.Length && guard < disk.Length
        invariant Shape() && Image() == d && guard <= |p| && b == ChainAt(p, guard)
        invariant blockMap.marked == was + Elements(p[..guard])
        decreases disk.Length - guard
      {
        ChainStep(d, bno, p, guard);
        ChainNotSeen(p, guard);
        var seen := blockMap.IsMarked(b);
        assert !seen;
        if seen { return; }
        blockMap.Set(b);
        guard := guard + 1;
        if guard < |p| { ChainGoesOn(d, bno, p, guard - 1); }
        if !disk[b].Data? || disk[b].next == 0 || disk[b].next == b { break; }
        b := disk[b].next;
      }
      ChainInRange(d, bno, p);
      assert p[..guard] == p;
    }

    /** Marks directory `b` and everything below it down to the depth limit. */
    method ScanDir(b: nat, depth: nat)
      requires Shape() && WF(Image(), lay) && b in lay.depth && lay.depth[b] == depth
      requires Unmarked(Image(), lay, b, blockMap.marked) && (b == ROOT ==> depth == 0)
      modifies blockMap, blockMap.bytes
      ensures Shape() && DirMarked(Image(), lay, b, old(blockMap.marked), blockMap.marked)
      decreases MAX_SCAN_DEPTH + 1 - depth, 1
    {
      ghost var d, L, was := Image(), lay, blockMap.marked;
      if b == 0 || b >= disk.Length || depth > MAX_SCAN_DEPTH {
        NothingScanned(d, L, b);
        return;
      }
      SelfScanned(d, L, b);
      if depth > 0 {
        var seen := blockMap.IsMarked(b);
        if seen { return; }
      }
      if !disk[b].Dir? { return; }
      blockMap.Set(b);
      for i := 0 to MAX_DIR_ENTRIES
        invariant Shape() && Image() == d && ScanSoFar(d, L, b, was, blockMap.marked, i)
      {
        ghost var mid := blockMap.marked;
        if disk[b].entries[i].name != "" {
          NextSlotUnmarked(d, L, b, was, mid, i);
          ScanSlot(Slot(b, i), depth);
        }
        NextSlotScanned(d, L, b, was, mid, blockMap.marked, i);
      }
      AllSlotsScanned(d, L, b, was, blockMap.marked);
    }

    method ScanSlot(s: Slot, depth: nat)
      requires Shape() && WF(Image(), lay) && s.dir in lay.depth && lay.depth[s.dir] == depth <= MAX_SCAN_DEPTH
      requires InUse(Image(), s) && SlotUnmarked(Image(), lay, s, blockMap.marked)
      modifies blockMap, blockMap.bytes
      ensures Shape() && SlotMarked(Image(), lay, s, old(blockMap.marked), blockMap.marked)
      decreases MAX_SCAN_DEPTH + 1 - depth, 0
    {
      var e := disk[s.dir].entries[s.idx];
      if e.typ == TYPE_DIR {
        SlotChild(Image(), lay, s);
        ScanDir(e.bno, depth + 1);
      } else {
        SlotChain(Image(), lay, s);
        ScanChain(e.bno, lay.chain[s]);
      }
    }

    /** Rebuilds the bitmap from a well-formed disk, as at start-up or after a crash. The map is exact
        if and only if no directory is deeper than the scan goes. */
    method Rebuild()
      requires Shape() && (IsDir(Image(), ROOT) ==> WellFormed(Image()))
      modifies this, blockMap, blockMap.bytes
      ensures Ready() && Image() == old(Image()) && log == old(log)
      ensures if IsDir(Image(), ROOT) then
          (Exact(Image(), blockMap.marked) <==> Shallow(Image())) && (Shallow(Image()) ==> Valid() && leaked == {})
        else forall x: nat :: x in blockMap.marked <==> x < RESERVED
      ensures old(Valid()) && Shallow(Image()) ==> blockMap.marked == old(blockMap.marked) - old(leaked)
    {
      hide WF, Exact, Accounts, Shallow, Reach;
      ghost var valid0, was, L0, leaked0 := Valid(), blockMap.marked, lay, leaked;
      if valid0 { RootInTree(Image(), lay); }
      MarkReserved();
      assert Image() == old(Image());
      if !disk[ROOT].Dir? { return; }
      ghost var L :| WF(Image(), L);
      RootInTree(Image(), L);
      lay, leaked := L, {};
      ghost var d := Image();
      ReservedUnmarked(d, lay, blockMap.marked);
      ScanDir(ROOT, 0);
      nextFree := RESERVED;
      RebuildExact(d, lay, blockMap.marked);
      if Shallow(d) {
        ExactAccounts(d, lay, blockMap.marked);
        if valid0 { RebuildReclaims(d, L0, was, leaked0, blockMap.marked); }
      }
    }

    /** The usage report: every used block is counted, so free is what is left. */
    method UsageInfo() returns (total: nat, used: nat, free: int)
      requires Ready()
      ensures total == disk.Length && used == |blockMap.marked| && free == Free()
    {
      total := disk.Length;
      used := blockMap.CountMarked(0, total);
      assert blockMap.MarkedIn(0, total) == blockMap.marked;
      free := total - used;
    }

    // ---------------------------------------------------------------- whole runs, by path

    /** Finds the directory block in which the last name of `path` is looked up. */
    method ResolveHome(path: seq<string>) returns (b: nat)
      requires Valid() && |path| >= 1
      ensures b == Home(Image(), ROOT, path) && (b == 0 || b in lay.depth)
    {
      HomeInTree(Image(), lay, ROOT, path);
      b := ROOT;
      var k := 0;
      while k + 1 < |path|
        invariant 0 <= k < |path| && b in lay.depth
        invariant Home(Image(), ROOT, path) == Home(Image(), b, path[k..])
      {
        assert path[k..][1..] == path[k + 1..] && path[k..][0] == path[k];
        ChildInTree(Image(), lay, b, path[k]);
        var i := FindEntryIndex(disk[b].entries, path[k], TYPE_DIR);
        if i == -1 {
          assert Child(Image(), b, path[k]) == 0;
          return 0;
        }
        assert DownOk(Image(), lay, Slot(b, i));
        b := disk[b].entries[i].bno;
        k := k + 1;
      }
    }

    /** The file system at this moment. */
    ghost function Now(): Moment
      reads this, disk, blockMap
    {
      Moment(Image(), lay, blockMap.marked, leaked, log)
    }

    lemma FreeIsNat()
      requires Valid()
      ensures Free() >= 0
    {
      NowSound();
      SubsetSize(blockMap.marked, Upto(|Image()|));
    }

    lemma NowSound()
      requires Valid()
      ensures Sound(Now()) && FreeBlocks(Now()) == Free()
    {
    }

    /** One operation by path: how it ends, what it does to every path, when a crash in its middle is
        harmless and when it leaks blocks. */
    method Step(op: Op) returns (rc: int)
      requires Valid()
      modifies this, disk, blockMap, blockMap.bytes
      ensures Valid() && StepOf(old(Now()), op, rc, Now()) && OpEnds(old(Image()), op, old(Free()), rc)
    {
      hide WF, Accounts, Effects, Ready, OpDone, Leaks, Atomic, StoreCode, RemoveCode, MkdirCode, MoveCode, OpEnds;
      FreeIsNat();
      CodeByPath(Image(), lay, op, Free());
      NowSound();
      rc := ERR_NO_DIR;
      NoDirEffects(Now(), op);
      if !GoodPath(op.path) || (op.MoveOp? && !GoodPath(op.dst)) { return; }
      var b := ResolveHome(op.path);
      if b == 0 { return; }
      match op {
        case StoreOp(_, _, _) => rc := StepStore(op, b);
        case RemoveOp(_) => rc := StepRemove(op, b);
        case MkdirOp(_, _) => rc := StepMkdir(op, b);
        case MoveOp(_, dst, _) =>
          var c := ResolveHome(dst);
          if c == 0 { return; }
          rc := StepMove(op, b, c);
      }
      NowSound();
    }

    method StepStore(op: Op, b: nat) returns (rc: int)
      requires Valid() && op.StoreOp? && GoodPath(op.path) && b == Home(Image(), ROOT, op.path) && b in lay.depth
      modifies this, disk, blockMap, blockMap.bytes
      ensures Valid() && Effects(old(Now()), op, rc, Now())
      ensures IsDir(old(Image()), b) && rc == StoreCode(old(Image()), b, Last(op.path), |op.data|, old(Free()))
    {
      hide WF, Accounts, AllBelow, SameLooks, OneLookChanged, OnlyAt, AllOld, AllOldOrNew, CrashAtomic;
      ghost var d0, L0, marked0, leaked0 := Image(), lay, blockMap.marked, leaked;
      DirsInTree(d0, L0, b, b);
      rc := Store(b, Last(op.path), op.data, op.now);
      if rc == OK {
        OnePath(d0, L0, Image(), op.path, File(op.data));
        OldOrNewIsAtomic(old(log), log, d0, Image(), b, Last(op.path), File(op.data));
      } else {
        OldIsAtomic(old(log), log, d0, Image());
        if rc == ERR_NO_SPACE { FullLeaks(disk.Length, marked0, blockMap.marked, Reach(lay), leaked0, leaked); }
      }
      AtomicGrows(old(log), log, d0, Image());
    }

    method StepRemove(op: Op, b: nat) returns (rc: int)
      requires Valid() && op.RemoveOp? && GoodPath(op.path) && b == Home(Image(), ROOT, op.path) && b in lay.depth
      modifies this, disk, blockMap, blockMap.bytes
      ensures Valid() && Effects(old(Now()), op, rc, Now())
      ensures IsDir(old(Image()), b) && rc == RemoveCode(old(Image()), b, Last(op.path))
    {
      hide Accounts, AllBelow, OneLookChanged, OnlyAt, AllOldOrNew, CrashAtomic;
      ghost var d0, L0 := Image(), lay;
      assert IsDir(d0, b);
      LookOfCodes(d0, L0, op.path, 0);
      rc := Remove(b, Last(op.path));
      if rc == OK {
        OnePath(d0, L0, Image(), op.path, Missing);
        OldOrNewIsAtomic(old(log), log, d0, Image(), b, Last(op.path), Missing);
        AtomicGrows(old(log), log, d0, Image());
      } else {
        NothingWrittenEffects(old(Now()), op, rc, Now());
      }
    }

    method StepMkdir(op: Op, b: nat) returns (rc: int)
      requires Valid() && op.MkdirOp? && GoodPath(op.path) && b == Home(Image(), ROOT, op.path) && b in lay.depth
      modifies this, disk, blockMap, blockMap.bytes
      ensures Valid() && Effects(old(Now()), op, rc, Now())
      ensures IsDir(old(Image()), b) && rc == MkdirCode(old(Image()), b, Last(op.path), old(Free()))
    {
      hide Accounts, AllBelow, OneLookChanged, OnlyAt, WellFormed, CrashAtomic;
      ghost var d0, L0 := Image(), lay;
      assert IsDir(d0, b);
      LookOfCodes(d0, L0, op.path, Free());
      rc := Mkdir(b, Last(op.path), op.now);
      if rc == OK && Look(d0, op.path) == Missing {
        OnePath(d0, L0, Image(), op.path, Directory);
        NotAtomic(old(log), log, d0, Image(), |old(log)| + 1);
      } else {
        NothingWrittenEffects(old(Now()), op, rc, Now());
      }
    }

    method StepMove(op: Op, b: nat, c: nat) returns (rc: int)
      requires Valid() && op.MoveOp? && GoodPath(op.path) && GoodPath(op.dst)
      requires b == Home(Image(), ROOT, op.path) && b in lay.depth && c == Home(Image(), ROOT, op.dst) && c in lay.depth
      modifies this, disk
      ensures Valid() && Effects(old(Now()), op, rc, Now())
      ensures rc == MoveCode(old(Image()), old(lay), b, Last(op.path), c, Last(op.dst))
    {
      hide WF, Accounts, AllBelow, OnlyAt, Renamed, MoveResult, MovesIntoItself, Vanished, WellFormed, IntoItself,
           CrashAtomic, Atomic, OpDone;
      ghost var d0, L0, marked0, leaked0 := Image(), lay, blockMap.marked, leaked;
      DirsInTree(d0, L0, b, c);
      rc := Move(b, Last(op.path), c, Last(op.dst), op.now);
      if rc == OK && (b != c || Last(op.path) != Last(op.dst)) {
        ghost var s := Slot(b, Find(d0[b].entries, Last(op.path), ANY_TYPE));
        MoveDone(d0, L0, leaked0, Image(), leaked, op, s);
        MoveKept(d0, L0, marked0, leaked0, Image(), leaked, op, s);
      } else {
        if rc == OK {
          SamePlace(d0, L0, op.path, op.dst);
          SamePlaceEffects(d0, op);
        }
        NothingWrittenEffects(old(Now()), op, rc, Now());
      }
    }

    /** Any run of operations keeps every invariant, and every one of them is a step. The run leaks blocks
        exactly when one of its operations does; the bitmap of a run that starts with none leaked is exact
        at the end exactly when no operation leaked any. */
    method Run(ops: seq<Op>) returns (rcs: seq<int>, ghost trace: seq<Moment>)
      requires Valid()
      modifies this, disk, blockMap, blockMap.bytes
      ensures Valid() && RanAll(trace, ops, rcs) && trace[0] == old(Now()) && trace[|ops|] == Now()
      ensures leaked == old(leaked) <==> !SomeLeak(trace, ops, rcs)
      ensures old(leaked) == {} ==> (Exact(Image(), blockMap.marked) <==> !SomeLeak(trace, ops, rcs))
    {
      hide StepOf, RanAll, SomeLeak, FileSystem.Ready, WF, Accounts;
      rcs, trace := [], [Now()];
      NothingRan(Now());
      for i := 0 to |ops|
        invariant Valid() && RanAll(trace, ops[..i], rcs) && |trace| == i + 1
        invariant trace[0] == old(Now()) && trace[i] == Now()
      {
        var rc := Step(ops[i]);
        OneMoreRan(trace, ops[..i], rcs, Now(), ops[i], rc);
        assert ops[..i] + [ops[i]] == ops[..i + 1];
        rcs, trace := rcs + [rc], trace + [Now()];
      }
      assert ops[..|ops|] == ops;
      RanLengths(trace, ops, rcs);
      RunLeaks(trace, ops, rcs);
      AccountsExact(Image(), lay, blockMap.marked, leaked);
    }
  }

  /** A start-up after a crash in a run of atomic operations: the tree is the one after the operations that
      were done, or after these and the one under way; the rebuilt map is exact if and only if that tree is
      shallow, and then every invariant holds again and no block is leaked. */
  method Recover(device: array<Block>, ghost trace: seq<Moment>, ghost ops: seq<Op>, ghost rcs: seq<int>, ghost k: nat)
    returns (fs: FileSystem, ghost i: nat)
    requires RanAll(trace, ops, rcs) && AllAtomic(trace, ops, rcs) && |trace[0].log| <= k < |trace[|ops|].log|
    requires device[..] == trace[|ops|].log[k]
    ensures fresh(fs) && fs.disk == device && device[..] == old(device[..])
    ensures DoneBy(trace, i, k) && SameLooks(trace[i].image, fs.Image())
    ensures fs.Ready() && (Exact(fs.Image(), fs.blockMap.marked) <==> Shallow(trace[i].image))
    ensures Shallow(trace[i].image) ==> fs.Valid() && fs.leaked == {}
  {
    hide AllAtomic, Exact, Shallow, SameLooks, WF;
    i := RunCrash(trace, ops, rcs, k);
    CrashFacts(trace, ops, rcs, i, device[..]);
    fs := new FileSystem(device);
    fs.Rebuild();
  }

  lemma CrashFacts(trace: seq<Moment>, ops: seq<Op>, rcs: seq<int>, i: nat, d: Disk)
    requires RanAll(trace, ops, rcs) && |ops| > 0 && i <= |ops| && WellFormed(d) && SameLooks(trace[i].image, d)
    ensures RESERVED < |d| && IsDir(d, ROOT) && (Shallow(trace[i].image) <==> Shallow(d))
  {
    var L :| WF(d, L);
    assert Ran(trace, ops, rcs, if i < |ops| then i else i - 1);
    SameDepth(trace[i].image, trace[i].lay, d, L);
  }
}
