/** The operations by path: what each one does to every path, for runs of any length. */
module Runs {
  import opened DiskModel
  import opened Sequences
  import opened TreeLemmas
  import opened TreeEdits
  import opened Paths
  import opened TreeMoves
  import opened FsSteps
  import opened MoveSteps
  import opened Outcomes

  datatype Op =
    | StoreOp(path: seq<string>, data: seq<byte>, now: nat)
    | RemoveOp(path: seq<string>)
    | MkdirOp(path: seq<string>, now: nat)
    | MoveOp(path: seq<string>, dst: seq<string>, now: nat)

  predicate GoodPath(path: seq<string>) {
    |path| >= 1 && 1 <= |Last(path)| <= NAME_MAX
  }

  /** `path` reads as `node` and every other path as before. */
  ghost predicate OnlyAt(d0: Disk, d1: Disk, path: seq<string>, node: Node) {
    forall r: seq<string> {:trigger Look(d1, r)} :: |r| >= 1 ==> Look(d1, r) == if r == path then node else Look(d0, r)
  }

  /** The path an entry gets: inside the destination when that is a directory. */
  function TargetPath(d: Disk, path: seq<string>, dst: seq<string>): (w: seq<string>)
    requires |path| >= 1 && |dst| >= 1
    ensures |w| >= 1
  {
    if Look(d, dst) == Directory then dst + [Last(path)] else dst
  }

  /** A directory is moved to a name below itself. */
  predicate IntoItself(d: Disk, op: Op) {
    && op.MoveOp? && |op.path| >= 1 && |op.dst| >= 1 && op.path != op.dst
    && Look(d, op.path) == Directory && op.path < TargetPath(d, op.path, op.dst)
  }

  /** `path` and everything below it is gone, every other path reads as before. */
  ghost predicate Lost(d0: Disk, d1: Disk, path: seq<string>) {
    forall r: seq<string> {:trigger Look(d1, r)} :: |r| >= 1 ==>
      Look(d1, r) == if path <= r then Missing else Look(d0, r)
  }

  /** What a successful operation means for every path. */
  ghost predicate OpDone(d0: Disk, d1: Disk, op: Op) {
    GoodPath(op.path) &&
    match op
    case StoreOp(path, data, _) => OnlyAt(d0, d1, path, File(data))
    case RemoveOp(path) => Look(d0, path) != Missing && OnlyAt(d0, d1, path, Missing)
    case MkdirOp(path, _) =>
      if Look(d0, path) == Missing then OnlyAt(d0, d1, path, Directory) else SameLooks(d0, d1)
    case MoveOp(path, dst, _) =>
      GoodPath(dst) &&
      if path == dst || TargetPath(d0, path, dst) == path then SameLooks(d0, d1)
      else if IntoItself(d0, op) then Lost(d0, d1, path)
      else Renamed(d0, d1, path, TargetPath(d0, path, dst))
  }

  /** The operations of which a crash leaves the tree before them or the tree after them. Not so: making a
      new directory, and moving an entry to another directory without losing it. */
  predicate Atomic(d: Disk, op: Op) {
    GoodPath(op.path) &&
    match op
    case StoreOp(_, _, _) => true
    case RemoveOp(_) => true
    case MkdirOp(path, _) => Look(d, path) != Missing
    case MoveOp(path, dst, _) =>
      && GoodPath(dst)
      && (path == dst || Home(d, ROOT, TargetPath(d, path, dst)) == Home(d, ROOT, path) || IntoItself(d, op))
  }

  /** The operations that leave blocks marked which nothing reaches: a store that takes the last free block
      and then needs another one, and a directory's move into itself. */
  predicate Leaks(d: Disk, op: Op, rc: int, free: int) {
    (op.StoreOp? && rc == ERR_NO_SPACE && free > 0) || (rc == OK && IntoItself(d, op))
  }

  // ------------------------------------------------------------------ one operation as a step

  /** The file system at one moment: what is on disk, the account of its blocks, and the images so far. */
  datatype Moment = Moment(image: Disk, lay: Layout, marked: set<nat>, leaked: set<nat>, log: seq<Disk>)

  /** The invariants of the file system. */
  ghost predicate Sound(m: Moment) {
    && WF(m.image, m.lay) && Accounts(m.marked, Reach(m.lay), m.leaked)
    && forall x :: x in m.marked ==> x < |m.image|
  }

  function FreeBlocks(m: Moment): int {
    |m.image| - |m.marked|
  }

  /** What an operation that ended with `rc` did: to every path, to a crash in the middle, to the blocks
      that nothing reaches. */
  ghost predicate Effects(m0: Moment, op: Op, rc: int, m1: Moment) {
    && (if rc == OK then OpDone(m0.image, m1.image, op) else SameLooks(m0.image, m1.image))
    && m0.log <= m1.log
    && (CrashAtomic(m0.log, m1.log, m0.image, m1.image) <==> rc != OK || Atomic(m0.image, op))
    && m0.leaked <= m1.leaked
    && (m1.leaked == m0.leaked <==> !Leaks(m0.image, op, rc, FreeBlocks(m0)))
  }

  /** `op` takes the file system from `m0` to `m1` and returns `rc`. */
  ghost predicate StepOf(m0: Moment, op: Op, rc: int, m1: Moment) {
    Sound(m0) && Sound(m1) && rc == OpCode(m0.image, m0.lay, op, FreeBlocks(m0)) && Effects(m0, op, rc, m1)
  }

  /** How an operation ends, from what is known before it starts. */
  ghost function OpCode(d: Disk, L: Layout, op: Op, free: int): int
    requires WF(d, L)
  {
    if !GoodPath(op.path) || (op.MoveOp? && !GoodPath(op.dst)) then ERR_NO_DIR
    else
      var b := Home(d, ROOT, op.path);
      HomeInTree(d, L, ROOT, op.path);
      if b == 0 then ERR_NO_DIR
      else
        DirsInTree(d, L, b, b);
        match op
        case StoreOp(path, data, _) => StoreCode(d, b, Last(path), |data|, free)
        case RemoveOp(path) => RemoveCode(d, b, Last(path))
        case MkdirOp(path, _) => MkdirCode(d, b, Last(path), free)
        case MoveOp(path, dst, _) =>
          var c := Home(d, ROOT, dst);
          HomeInTree(d, L, ROOT, dst);
          if c == 0 then ERR_NO_DIR else MoveCode(d, L, b, Last(path), c, Last(dst))
  }

  // ------------------------------------------------------------------ when operations succeed, by path

  /** What the path is to be in is a directory. */
  predicate HasParent(d: Disk, path: seq<string>) {
    |path| == 1 || (|path| > 1 && Look(d, path[..|path| - 1]) == Directory)
  }

  /** Some path one name longer is something. */
  ghost predicate Filled(d: Disk, path: seq<string>) {
    exists name: string :: Look(d, path + [name]) != Missing
  }

  /** A directory is to go into itself, or into one less than 64 levels below it. */
  predicate Refused(d: Disk, path: seq<string>, dst: seq<string>)
    requires |path| >= 1 && |dst| >= 1
  {
    Look(d, path) == Directory && Look(d, dst) == Directory && path <= dst && |dst| < |path| + 64
  }

  /** When a move of `path` to the path `w` can be made. */
  predicate CanGo(d: Disk, path: seq<string>, w: seq<string>)
    requires |path| >= 1 && |w| >= 1
  {
    w == path || (Look(d, w) == Missing && (w[..|w| - 1] == path[..|path| - 1] || FreeSlot(d, Home(d, ROOT, w))))
  }

  ghost predicate MoveEndsByPath(d: Disk, path: seq<string>, dst: seq<string>, rc: int)
    requires |path| >= 1 && |dst| >= 1
  {
    var w := if Look(d, dst) == Directory then dst + [Last(path)] else dst;
    if path == dst then rc == OK
    else
      && (rc == ERR_NO_SOURCE <==> Look(d, path) == Missing)
      && (rc == ERR_INTO_ITSELF <==> Refused(d, path, dst))
      && (rc == OK <==> Look(d, path) != Missing && !Refused(d, path, dst) && CanGo(d, path, w))
      && (rc == ERR_EXISTS <==>
            Look(d, path) != Missing && !Refused(d, path, dst) && w != path && Look(d, w) != Missing)
      && (rc == ERR_TARGET_FULL <==>
            Look(d, path) != Missing && !Refused(d, path, dst) && Look(d, w) == Missing && !CanGo(d, path, w))
  }

  /** How every operation ends, told by paths, free slots and free blocks. */
  ghost predicate OpEnds(d: Disk, op: Op, free: int, rc: int) {
    if !GoodPath(op.path) || !HasParent(d, op.path) then rc == ERR_NO_DIR
    else
      match op
      case StoreOp(path, data, _) => StoreEnds(d, Home(d, ROOT, path), Last(path), |data|, free, rc)
      case RemoveOp(path) =>
        && (rc == OK <==> Look(d, path).File? || (Look(d, path) == Directory && !Filled(d, path)))
        && (rc == ERR_NOT_FOUND <==> Look(d, path) == Missing)
        && (rc == ERR_NOT_EMPTY <==> Look(d, path) == Directory && Filled(d, path))
      case MkdirOp(path, _) => MkdirEnds(d, Home(d, ROOT, path), Last(path), free, rc)
      case MoveOp(path, dst, _) =>
        if !GoodPath(dst) || !HasParent(d, dst) then rc == ERR_NO_DIR else MoveEndsByPath(d, path, dst, rc)
  }

  /** A path has a home exactly when its parent is a directory. */
  lemma ParentIsHome(d: Disk, L: Layout, path: seq<string>)
    requires WF(d, L) && |path| >= 1
    ensures Home(d, ROOT, path) == 0 || Home(d, ROOT, path) in L.depth
    ensures HasParent(d, path) <==> Home(d, ROOT, path) != 0
  {
    HomeInTree(d, L, ROOT, path);
    if |path| > 1 {
      var u := path[..|path| - 1];
      assert path == u + [Last(path)];
      ChildByPath(d, L, u);
      HomeConcat(d, ROOT, u, [Last(path)]);
    }
  }

  /** What a path names as a directory is the home of the paths one name longer. */
  lemma ChildByPath(d: Disk, L: Layout, u: seq<string>)
    requires WF(d, L) && |u| >= 1
    ensures var c := Child(d, Home(d, ROOT, u), Last(u));
      if Look(d, u) == Directory then
        c in L.depth && IsDir(d, c) && c != 0 && L.depth[c] == |u| && forall x :: Home(d, ROOT, u + [x]) == c
      else c == 0
  {
    HomeInTree(d, L, ROOT, u);
    var h := Home(d, ROOT, u);
    if h != 0 {
      NameLook(d, L, h, Last(u));
      ChildIsFound(d, L, h, Last(u));
      if Look(d, u) == Directory {
        HomeDepth(d, L, ROOT, u);
        ChildInTree(d, L, h, Last(u));
        forall x: string
          ensures Home(d, ROOT, u + [x]) == Child(d, h, Last(u))
        {
          HomeConcat(d, ROOT, u, [x]);
        }
      }
    }
  }

  /** What is in a directory is what the paths one name longer are. */
  lemma FilledByPath(d: Disk, L: Layout, path: seq<string>)
    requires WF(d, L) && |path| >= 1 && Look(d, path) == Directory
    ensures Filled(d, path) <==> Populated(d, Child(d, Home(d, ROOT, path), Last(path)))
  {
    ChildByPath(d, L, path);
    var c := Child(d, Home(d, ROOT, path), Last(path));
    forall x: string
      ensures Look(d, path + [x]) == LookAt(d, c, x)
    {
      assert Last(path + [x]) == x;
    }
    if Populated(d, c) {
      var x :| LookAt(d, c, x) != Missing;
      assert Look(d, path + [x]) != Missing;
    }
  }

  /** The walk up sees a move into the moved directory when the paths say so. */
  lemma RefusedByPath(d: Disk, L: Layout, path: seq<string>, dst: seq<string>)
    requires WF(d, L) && |path| >= 1 && |dst| >= 1
    ensures SeenIntoItself(d, L, Home(d, ROOT, path), Last(path), Home(d, ROOT, dst), Last(dst)) <==>
      Refused(d, path, dst)
  {
    if Look(d, path) == Directory && Look(d, dst) == Directory {
      ChildByPath(d, L, path);
      ChildByPath(d, L, dst);
      ParentIsHome(d, L, path);
      var h := Home(d, ROOT, path);
      NameLook(d, L, h, Last(path));
      var s := Slot(h, Find(d[h].entries, Last(path), ANY_TYPE));
      FoundSlot(d, L, h, Last(path));
      BelowByPath(d, L, path, s, dst + [""]);
      assert path < dst + [""] <==> path <= dst;
    }
  }

  /** The name that the entry gets is the last one of the path that it gets. */
  lemma GoesByPath(d: Disk, L: Layout, path: seq<string>, dst: seq<string>)
    requires WF(d, L) && |path| >= 1 && |dst| >= 1 && HasParent(d, dst)
    ensures var w := if Look(d, dst) == Directory then dst + [Last(path)] else dst;
      GoesTo(d, Last(path), Home(d, ROOT, dst), Last(dst)) == (Home(d, ROOT, w), Last(w)) && Home(d, ROOT, w) != 0
  {
    ParentIsHome(d, L, dst);
    ChildByPath(d, L, dst);
  }

  /** Paths lead to names of one directory when they differ in the last name at most. */
  lemma SameParent(d: Disk, L: Layout, p: seq<string>, q: seq<string>)
    requires WF(d, L) && |p| >= 1 && |q| >= 1 && Home(d, ROOT, p) != 0
    ensures Home(d, ROOT, q) == Home(d, ROOT, p) <==> q[..|q| - 1] == p[..|p| - 1]
  {
    if q[..|q| - 1] == p[..|p| - 1] {
      assert |q| == |p|;
      HomeIgnoresLast(d, ROOT, p, q);
    } else if Home(d, ROOT, q) == Home(d, ROOT, p) {
      var r := q[..|q| - 1] + [Last(p)];
      HomeIgnoresLast(d, ROOT, q, r);
      SamePlace(d, L, p, r);
    }
  }

  lemma MoveByPath(d: Disk, L: Layout, path: seq<string>, dst: seq<string>, rc: int)
    requires WF(d, L) && |path| >= 1 && |dst| >= 1 && HasParent(d, path) && HasParent(d, dst)
    requires MoveEnds(d, L, Home(d, ROOT, path), Last(path), Home(d, ROOT, dst), Last(dst), rc)
    ensures MoveEndsByPath(d, path, dst, rc)
  {
    hide WF, Home, Refused, SeenIntoItself, FreeSlot, GoesTo, HasParent, LookAt;
    ParentIsHome(d, L, path);
    ParentIsHome(d, L, dst);
    RefusedByPath(d, L, path, dst);
    GoesByPath(d, L, path, dst);
    var w := if Look(d, dst) == Directory then dst + [Last(path)] else dst;
    SameParent(d, L, path, w);
    if (Home(d, ROOT, dst), Last(dst)) == (Home(d, ROOT, path), Last(path)) { SamePlace(d, L, path, dst); }
    if (Home(d, ROOT, w), Last(w)) == (Home(d, ROOT, path), Last(path)) { SamePlace(d, L, path, w); }
  }

  /** Every operation ends as the paths, the free slots and the free blocks say. */
  lemma CodeByPath(d: Disk, L: Layout, op: Op, free: int)
    requires WF(d, L) && free >= 0
    ensures OpEnds(d, op, free, OpCode(d, L, op, free))
  {
    if GoodPath(op.path) && (op.MoveOp? ==> GoodPath(op.dst)) {
      ParentIsHome(d, L, op.path);
      var b, leaf := Home(d, ROOT, op.path), Last(op.path);
      if b != 0 {
        DirsInTree(d, L, b, b);
        hide WF, StoreCode, RemoveCode, MkdirCode, MoveCode, HasParent, StoreEnds, MkdirEnds, MoveEndsByPath, Populated,
             Filled, LookAt;
        match op
        case StoreOp(_, data, _) => StoreCodeMeans(d, b, leaf, |data|, free);
        case RemoveOp(_) =>
          RemoveCodeMeans(d, L, b, leaf);
          if Look(d, op.path) == Directory { FilledByPath(d, L, op.path); }
        case MkdirOp(_, _) => MkdirCodeMeans(d, b, leaf, free);
        case MoveOp(_, dst, _) =>
          ParentIsHome(d, L, dst);
          if HasParent(d, dst) {
            MoveCodeMeans(d, L, b, leaf, Home(d, ROOT, dst), Last(dst));
            MoveByPath(d, L, op.path, dst, OpCode(d, L, op, free));
          }
      }
    }
  }

  /** A change at a directory's name is a change at the one path that leads there. */
  lemma OnePath(d0: Disk, L0: Layout, d1: Disk, path: seq<string>, node: Node)
    requires WF(d0, L0) && |path| >= 1 && Home(d0, ROOT, path) != 0
    requires OneLookChanged(d0, d1, Home(d0, ROOT, path), Last(path), node)
    ensures OnlyAt(d0, d1, path, node)
  {
    forall r: seq<string> | |r| >= 1
      ensures Look(d1, r) == if r == path then node else Look(d0, r)
    {
      if Names(d0, r, Home(d0, ROOT, path), Last(path)) {
        PathUnique(d0, L0, r, path);
      }
    }
  }

  /** A crash in the middle of the operation leaves a well-formed tree, wholly before or wholly after it. */
  ghost predicate CrashImage(d0: Disk, img: Disk, op: Op) {
    WellFormed(img) && (SameLooks(d0, img) || OpDone(d0, img, op))
  }

  /** Every image a crash can leave during an atomic operation is a well-formed tree, by path before or
      after it. */
  lemma CrashImages(m0: Moment, op: Op, rc: int, m1: Moment, k: nat)
    requires Effects(m0, op, rc, m1) && (rc != OK || Atomic(m0.image, op)) && |m0.log| <= k < |m1.log|
    ensures CrashImage(m0.image, m1.log[k], op)
  {
    hide WellFormed, Atomic, Leaks;
    assert BeforeOrAfter(m0.image, m1.image, m1.log[k]);
    if SameLooks(m1.image, m1.log[k]) {
      SameEffect(m0.image, m1.image, m1.log[k], op);
    }
  }

  /** What an operation did can be said of every image that reads the same. */
  lemma SameEffect(d0: Disk, d1: Disk, img: Disk, op: Op)
    requires SameLooks(d1, img)
    ensures OpDone(d0, d1, op) ==> OpDone(d0, img, op)
    ensures SameLooks(d0, d1) ==> SameLooks(d0, img)
  {
    hide Look, TargetPath, IntoItself;
  }

  /** The target of a move by directory and name is the target by path. */
  lemma TargetNamed(d: Disk, L: Layout, path: seq<string>, dst: seq<string>)
    requires WF(d, L) && |path| >= 1 && |dst| >= 1 && Home(d, ROOT, dst) in L.depth
    ensures var (b, n) := MoveTarget(d, Last(path), Home(d, ROOT, dst), Last(dst));
      Names(d, TargetPath(d, path, dst), b, n)
  {
    var c := Home(d, ROOT, dst);
    var j := Find(d[c].entries, Last(dst), ANY_TYPE);
    if j >= 0 && d[c].entries[j].typ == TYPE_DIR {
      assert DirBlockOk(d[c]) && DownOk(d, L, Slot(c, j));
      FindOnly(d[c].entries, j, TYPE_DIR);
      HomeConcat(d, ROOT, dst, [Last(path)]);
    }
  }

  /** Slot `s` is the one that `path` names. */
  ghost predicate Source(d: Disk, L: Layout, path: seq<string>, s: Slot) {
    && |path| >= 1 && s.dir == Home(d, ROOT, path) && s.dir in L.depth && InUse(d, s) && At(d, s).name == Last(path)
  }

  /** A directory's own subtree holds exactly the paths that go on from its path. */
  lemma BelowByPath(d: Disk, L: Layout, u: seq<string>, s: Slot, w: seq<string>)
    requires WF(d, L) && Source(d, L, u, s) && DirSlot(d, s) && |w| >= 1 && Home(d, ROOT, w) != 0
    ensures Below(d, At(d, s).bno, Home(d, ROOT, w)) <==> u < w
  {
    SourceChild(d, L, u, s);
    NotBelowOwnChild(d, L, s);
    hide WF, Below, IsDir, Child;
    var c := At(d, s).bno;
    if u < w {
      var q := w[|u|..];
      assert w == u + q;
      HomeConcat(d, ROOT, u, q);
      BelowIntro(d, c, q);
    }
    if Below(d, c, Home(d, ROOT, w)) {
      assert u != w;
      RunsThrough(d, L, s.dir, At(d, s).name, u, w);
      assert u <= w && |u| < |w|;
    }
  }

  lemma SourceChild(d: Disk, L: Layout, u: seq<string>, s: Slot)
    requires WF(d, L) && Source(d, L, u, s) && DirSlot(d, s)
    ensures Child(d, s.dir, At(d, s).name) == At(d, s).bno
  {
    assert DirBlockOk(d[s.dir]);
    FindOnly(d[s.dir].entries, s.idx, TYPE_DIR);
  }

  lemma SourceLook(d: Disk, L: Layout, u: seq<string>, s: Slot)
    requires WF(d, L) && Source(d, L, u, s)
    ensures Look(d, u) == Directory <==> DirSlot(d, s)
  {
    assert DirBlockOk(d[s.dir]);
    FindOnly(d[s.dir].entries, s.idx, ANY_TYPE);
  }

  /** A move into the moved directory is a move to a path below it. */
  lemma IntoItselfByPath(d: Disk, L: Layout, op: Op, s: Slot)
    requires WF(d, L) && op.MoveOp? && Source(d, L, op.path, s) && |op.dst| >= 1 && op.path != op.dst
    requires Home(d, ROOT, op.dst) in L.depth && IsDir(d, Home(d, ROOT, op.dst))
    ensures MovesIntoItself(d, s, MoveTarget(d, Last(op.path), Home(d, ROOT, op.dst), Last(op.dst)).0) <==>
      IntoItself(d, op)
  {
    hide WF, Below, Look, TargetPath, MoveTarget, DirSlot;
    TargetNamed(d, L, op.path, op.dst);
    TargetInTreeNonzero(d, L, op.path, op.dst);
    SourceLook(d, L, op.path, s);
    if DirSlot(d, s) { BelowByPath(d, L, op.path, s, TargetPath(d, op.path, op.dst)); }
  }

  /** What a successful move between different paths did, by path. */
  lemma MoveDone(d0: Disk, L0: Layout, leaked0: set<nat>, d1: Disk, leaked1: set<nat>, op: Op, s: Slot)
    requires WF(d0, L0) && op.MoveOp? && GoodPath(op.path) && GoodPath(op.dst) && Source(d0, L0, op.path, s)
    requires Home(d0, ROOT, op.dst) in L0.depth && IsDir(d0, Home(d0, ROOT, op.dst)) && op.path != op.dst
    requires var (b, n) := MoveTarget(d0, Last(op.path), Home(d0, ROOT, op.dst), Last(op.dst));
      MoveResult(d0, L0, leaked0, d1, leaked1, s, Last(op.path), b, n)
    ensures OpDone(d0, d1, op)
  {
    IntoItselfByPath(d0, L0, op, s);
    hide WF, SameLooks, MovesIntoItself, Renamed, IntoItself, LostBlocks;
    var (b, n) := MoveTarget(d0, Last(op.path), Home(d0, ROOT, op.dst), Last(op.dst));
    var w := TargetPath(d0, op.path, op.dst);
    TargetNamed(d0, L0, op.path, op.dst);
    TargetInTreeNonzero(d0, L0, op.path, op.dst);
    assert Names(d0, op.path, s.dir, Last(op.path)) && Names(d0, w, b, n);
    if b == s.dir && n == Last(op.path) { PathUnique(d0, L0, w, op.path); }
  }

  /** The blocks and the crashes of a successful move between different paths. */
  lemma MoveKept(d0: Disk, L0: Layout, marked: set<nat>, leaked0: set<nat>, d1: Disk, leaked1: set<nat>, op: Op,
                 s: Slot)
    requires WF(d0, L0) && op.MoveOp? && GoodPath(op.path) && GoodPath(op.dst) && Source(d0, L0, op.path, s)
    requires Home(d0, ROOT, op.dst) in L0.depth && IsDir(d0, Home(d0, ROOT, op.dst)) && op.path != op.dst
    requires Accounts(marked, Reach(L0), leaked0)
    requires var (b, n) := MoveTarget(d0, Last(op.path), Home(d0, ROOT, op.dst), Last(op.dst));
      MoveResult(d0, L0, leaked0, d1, leaked1, s, Last(op.path), b, n)
    ensures var b := MoveTarget(d0, Last(op.path), Home(d0, ROOT, op.dst), Last(op.dst)).0;
      Atomic(d0, op) <==> b == s.dir || MovesIntoItself(d0, s, b)
    ensures leaked0 <= leaked1 && (leaked1 == leaked0 <==> !IntoItself(d0, op))
  {
    IntoItselfByPath(d0, L0, op, s);
    TargetNamed(d0, L0, op.path, op.dst);
    RenameIsNoLoss(d0, L0, s);
    hide WF, SameLooks, MovesIntoItself, Vanished, MovedPaths, IntoItself, TargetPath, MoveTarget;
  }

  lemma TargetInTreeNonzero(d: Disk, L: Layout, path: seq<string>, dst: seq<string>)
    requires WF(d, L) && |path| >= 1 && |dst| >= 1 && Home(d, ROOT, dst) in L.depth
    ensures MoveTarget(d, Last(path), Home(d, ROOT, dst), Last(dst)).0 != 0
  {
    TargetInTree(d, L, Last(path), Home(d, ROOT, dst), Last(dst));
  }

  lemma DirsInTree(d: Disk, L: Layout, b: nat, c: nat)
    requires WF(d, L) && b in L.depth && c in L.depth
    ensures IsDir(d, b) && IsDir(d, c)
  {
  }

  /** Same directory and same name means the same path. */
  lemma SamePlace(d: Disk, L: Layout, p: seq<string>, q: seq<string>)
    requires WF(d, L) && |p| >= 1 && |q| >= 1 && Home(d, ROOT, p) == Home(d, ROOT, q) != 0 && Last(p) == Last(q)
    ensures p == q
  {
    PathUnique(d, L, p, q);
  }

  // ------------------------------------------------------------------ the blocks of an operation

  /** Of two accounts of one tree the one on a full disk leaks more, unless the disk was full before. */
  lemma FullLeaks(n: nat, marked0: set<nat>, marked1: set<nat>, reach: set<nat>, leaked0: set<nat>, leaked1: set<nat>)
    requires Accounts(marked0, reach, leaked0) && Accounts(marked1, reach, leaked1) && |marked1| == n
    requires forall x :: x in marked0 || x in marked1 ==> x < n
    ensures leaked0 <= leaked1 && |marked0| <= n && (leaked1 == leaked0 <==> |marked0| == n)
  {
    AllMarked(n, marked1);
    SubsetSize(marked0, marked1);
    if |marked0| == n { AllMarked(n, marked0); }
    if leaked1 == leaked0 { assert marked0 == marked1; }
  }

  lemma AllMarked(n: nat, s: set<nat>)
    requires |s| == n && forall x :: x in s ==> x < n
    ensures forall x: nat :: x in s <==> x < n
  {
    if x: nat :| x < n && x !in s { MarkedSize(s, x, n); }
  }

  /** Effects of an operation that wrote nothing. */
  lemma NothingWrittenEffects(m0: Moment, op: Op, rc: int, m1: Moment)
    requires m1.image == m0.image && m1.log == m0.log && m1.leaked == m0.leaked
    requires rc == ERR_NO_SPACE ==> !op.StoreOp?
    requires rc == OK ==> OpDone(m0.image, m0.image, op) && Atomic(m0.image, op) && !IntoItself(m0.image, op)
    ensures Effects(m0, op, rc, m1)
  {
  }

  /** A path that leads nowhere fails without an effect. */
  lemma NoDirEffects(m: Moment, op: Op)
    ensures Effects(m, op, ERR_NO_DIR, m)
  {
    NothingWrittenEffects(m, op, ERR_NO_DIR, m);
  }

  /** Moving a path to itself does nothing. */
  lemma SamePlaceEffects(d: Disk, op: Op)
    requires op.MoveOp? && GoodPath(op.path) && GoodPath(op.dst) && op.path == op.dst
    ensures OpDone(d, d, op) && Atomic(d, op) && !IntoItself(d, op)
  {
  }

  /** How a mkdir or a remove ended says what the path was. */
  lemma LookOfCodes(d: Disk, L: Layout, path: seq<string>, free: int)
    requires WF(d, L) && GoodPath(path) && Home(d, ROOT, path) in L.depth
    ensures RemoveCode(d, Home(d, ROOT, path), Last(path)) == OK ==> Look(d, path) != Missing
    ensures MkdirCode(d, Home(d, ROOT, path), Last(path), free) != OK ==> Look(d, path) == Missing
  {
  }

  // ------------------------------------------------------------------ runs

  /** `trace` holds the moments before, between and after the operations, each of which is a step. */
  ghost predicate RanAll(trace: seq<Moment>, ops: seq<Op>, rcs: seq<int>) {
    && |rcs| == |ops| && |trace| == |ops| + 1
    && (forall i {:trigger Ran(trace, ops, rcs, i)} :: 0 <= i < |ops| ==> Ran(trace, ops, rcs, i))
  }

  ghost predicate Ran(trace: seq<Moment>, ops: seq<Op>, rcs: seq<int>, i: nat) {
    i < |ops| && i < |rcs| && i + 1 < |trace| && StepOf(trace[i], ops[i], rcs[i], trace[i + 1])
  }

  /** Some operation of the run leaves blocks marked that nothing reaches. */
  ghost predicate SomeLeak(trace: seq<Moment>, ops: seq<Op>, rcs: seq<int>) {
    exists i: nat :: LeaksAt(trace, ops, rcs, i)
  }

  ghost predicate LeaksAt(trace: seq<Moment>, ops: seq<Op>, rcs: seq<int>, i: nat) {
    i < |ops| && i < |rcs| && i < |trace| && Leaks(trace[i].image, ops[i], rcs[i], FreeBlocks(trace[i]))
  }

  lemma NothingRan(m: Moment)
    ensures RanAll([m], [], [])
  {
  }

  lemma RanLengths(trace: seq<Moment>, ops: seq<Op>, rcs: seq<int>)
    requires RanAll(trace, ops, rcs)
    ensures |rcs| == |ops| && |trace| == |ops| + 1
  {
  }

  lemma OneMoreRan(trace: seq<Moment>, ops: seq<Op>, rcs: seq<int>, m: Moment, op: Op, rc: int)
    requires RanAll(trace, ops, rcs) && StepOf(trace[|ops|], op, rc, m)
    ensures RanAll(trace + [m], ops + [op], rcs + [rc])
  {
    hide StepOf;
    var t1, o1, r1 := trace + [m], ops + [op], rcs + [rc];
    forall i | 0 <= i < |o1|
      ensures Ran(t1, o1, r1, i)
    {
      if i < |ops| { assert Ran(trace, ops, rcs, i); }
    }
  }

  lemma RanBefore(trace: seq<Moment>, ops: seq<Op>, rcs: seq<int>)
    requires RanAll(trace, ops, rcs) && |ops| > 0
    ensures RanAll(trace[..|ops|], ops[..|ops| - 1], rcs[..|ops| - 1])
    ensures StepOf(trace[|ops| - 1], ops[|ops| - 1], rcs[|ops| - 1], trace[|ops|])
  {
    hide StepOf;
    var n := |ops| - 1;
    var t0, o0, r0 := trace[..n + 1], ops[..n], rcs[..n];
    assert Ran(trace, ops, rcs, n);
    forall i | 0 <= i < n
      ensures Ran(t0, o0, r0, i)
    {
      assert Ran(trace, ops, rcs, i);
    }
  }

  /** A run leaks blocks if and only if one of its operations does. */
  lemma {:induction false} RunLeaks(trace: seq<Moment>, ops: seq<Op>, rcs: seq<int>)
    requires RanAll(trace, ops, rcs)
    ensures trace[0].leaked <= trace[|ops|].leaked
    ensures trace[|ops|].leaked == trace[0].leaked <==> !SomeLeak(trace, ops, rcs)
    decreases |ops|
  {
    hide Leaks, Atomic, OpDone, OpCode, CrashAtomic, Sound;
    if |ops| > 0 {
      var n := |ops| - 1;
      var t0, o0, r0 := trace[..n + 1], ops[..n], rcs[..n];
      RanBefore(trace, ops, rcs);
      RunLeaks(t0, o0, r0);
      assert forall i: nat :: i < n ==> LeaksAt(trace, ops, rcs, i) == LeaksAt(t0, o0, r0, i);
      assert LeaksAt(trace, ops, rcs, n) <==> trace[n + 1].leaked != trace[n].leaked;
    }
  }

  /** No operation takes images out of the log. */
  lemma LogGrows(trace: seq<Moment>, ops: seq<Op>, rcs: seq<int>, i: nat)
    requires RanAll(trace, ops, rcs) && i < |ops|
    ensures trace[i].log <= trace[i + 1].log
  {
    hide Leaks, Atomic, OpDone, OpCode, CrashAtomic, Sound;
    assert Ran(trace, ops, rcs, i);
  }

  /** Every operation of the run failed or is atomic. */
  ghost predicate AllAtomic(trace: seq<Moment>, ops: seq<Op>, rcs: seq<int>) {
    && |rcs| == |ops| && |trace| == |ops| + 1
    && forall j :: 0 <= j < |ops| ==> rcs[j] != OK || Atomic(trace[j].image, ops[j])
  }

  /** The first `i` operations of the run are those whose images the log had up to the `k`-th one, and at
      most the one under way. */
  ghost predicate DoneBy(trace: seq<Moment>, i: nat, k: nat) {
    && i < |trace| && (forall j :: 0 <= j < |trace| && |trace[j].log| <= k ==> j <= i)
    && (i == 0 || |trace[i - 1].log| <= k)
  }

  /** A crash at any time of a run of atomic operations leaves a well-formed tree that reads as the tree
      after the operations that were done, or after these and the one under way. */
  lemma {:induction false} RunCrash(trace: seq<Moment>, ops: seq<Op>, rcs: seq<int>, k: nat) returns (i: nat)
    requires RanAll(trace, ops, rcs) && AllAtomic(trace, ops, rcs)
    requires |trace[0].log| <= k < |trace[|ops|].log|
    ensures DoneBy(trace, i, k)
    ensures WellFormed(trace[|ops|].log[k]) && SameLooks(trace[i].image, trace[|ops|].log[k])
    decreases |ops|
  {
    hide Leaks, Atomic, OpDone, OpCode, Sound, WellFormed;
    var n := |ops| - 1;
    if |ops| > 0 {
      RanBefore(trace, ops, rcs);
      LogGrows(trace, ops, rcs, n);
      if k < |trace[n].log| {
        i := RunCrash(trace[..n + 1], ops[..n], rcs[..n], k);
      } else {
        if n > 0 { LogGrows(trace, ops, rcs, n - 1); }
        assert BeforeOrAfter(trace[n].image, trace[n + 1].image, trace[n + 1].log[k]);
        i := if SameLooks(trace[n].image, trace[n + 1].log[k]) then n else n + 1;
      }
    }
  }
}
