/** Paths of a well-formed tree: they compose, they are unique, and what moving an entry from one
    name to another does to every path. */
module Paths {
  import opened DiskModel
  import opened TreeLemmas
  import opened TreeEdits

  /** Directory `h` is `c` or lies below it. */
  ghost predicate Below(d: Disk, c: nat, h: nat) {
    exists q: seq<string> :: |q| >= 1 && Home(d, c, q) == h && h != 0
  }

  lemma BelowIntro(d: Disk, c: nat, q: seq<string>)
    requires |q| >= 1 && Home(d, c, q) != 0
    ensures Below(d, c, Home(d, c, q))
  {
  }

  /** Looking up `u + v` is looking up `v` in the directory `u` names. */
  lemma {:induction false} HomeConcat(d: Disk, b: nat, u: seq<string>, v: seq<string>)
    requires |u| >= 1 && |v| >= 1
    ensures Home(d, b, u + v) == Home(d, Child(d, Home(d, b, u), Last(u)), v)
    decreases |u|
  {
    if !IsDir(d, b) {
      assert Child(d, 0, Last(u)) == 0 && Home(d, 0, v) == 0;
    } else if |u| == 1 {
      assert (u + v)[1..] == v;
    } else {
      assert (u + v)[1..] == u[1..] + v;
      HomeConcat(d, Child(d, b, u[0]), u[1..], v);
    }
  }

  /** The home of a path does not depend on its last name. */
  lemma {:induction false} HomeIgnoresLast(d: Disk, b: nat, q: seq<string>, r: seq<string>)
    requires |q| >= 1 && |r| == |q| && q[..|q| - 1] == r[..|q| - 1]
    ensures Home(d, b, q) == Home(d, b, r)
    decreases |q|
  {
    if |q| > 1 {
      assert q[..|q| - 1][0] == q[0] && r[..|q| - 1][0] == r[0];
      assert q[1..][..|q| - 2] == q[..|q| - 1][1..] && r[1..][..|q| - 2] == r[..|q| - 1][1..];
      HomeIgnoresLast(d, Child(d, b, q[0]), q[1..], r[1..]);
    }
  }

  lemma {:induction false} HomeDepth(d: Disk, L: Layout, b: nat, q: seq<string>)
    requires WF(d, L) && b in L.depth && |q| >= 1 && Home(d, b, q) != 0
    ensures Home(d, b, q) in L.depth && L.depth[Home(d, b, q)] == L.depth[b] + |q| - 1
    decreases |q|
  {
    if |q| > 1 {
      ChildInTree(d, L, b, q[0]);
      HomeDepth(d, L, Child(d, b, q[0]), q[1..]);
    }
  }

  /** Two paths that name the same entry are the same path. */
  lemma {:induction false} PathUnique(d: Disk, L: Layout, p: seq<string>, q: seq<string>)
    requires WF(d, L) && |p| >= 1 && |q| >= 1
    requires Home(d, ROOT, p) == Home(d, ROOT, q) != 0 && Last(p) == Last(q)
    ensures p == q
    decreases |p|
  {
    HomeDepth(d, L, ROOT, p);
    HomeDepth(d, L, ROOT, q);
    if |p| > 1 {
      var p1, q1, n := p[..|p| - 1], q[..|q| - 1], Last(p);
      assert p == p1 + [n] && q == q1 + [n];
      HomeConcat(d, ROOT, p1, [n]);
      HomeConcat(d, ROOT, q1, [n]);
      HomeInTree(d, L, ROOT, p1);
      HomeInTree(d, L, ROOT, q1);
      OnlyParent(d, L, Home(d, ROOT, q1), Home(d, ROOT, p1), Last(p1), Home(d, ROOT, p));
      PathUnique(d, L, p1, q1);
    }
  }

  /** Every directory of the tree is where some path leads. */
  lemma {:induction false} PathTo(d: Disk, L: Layout, b: nat, leaf: string) returns (p: seq<string>)
    requires WF(d, L) && b in L.depth
    ensures |p| >= 1 && Names(d, p, b, leaf)
    decreases L.depth[b]
  {
    if b == ROOT {
      p := [leaf];
    } else {
      assert UpOk(d, L, b);
      var a, e := d[b].parent, d[d[b].parent].entries[L.up[b]];
      assert DirBlockOk(d[a]);
      FindOnly(d[a].entries, L.up[b], TYPE_DIR);
      var q := PathTo(d, L, a, e.name);
      HomeConcat(d, ROOT, q, [leaf]);
      p := q + [leaf];
    }
  }

  // ------------------------------------------------------------------ moving an entry

  /** Image `dB` is `dA` with the entry `n1` of directory `b1` now called `n2` in directory `b2`:
      every other name of every directory means the same in both. */
  ghost predicate Moved(dA: Disk, LA: Layout, dB: Disk, LB: Layout, b1: nat, n1: string, b2: nat, n2: string) {
    var c := Child(dA, b1, n1);
    && WF(dA, LA) && WF(dB, LB) && LA.depth.Keys == LB.depth.Keys
    && b1 in LA.depth && b2 in LA.depth && (b1 != b2 || n1 != n2)
    && Child(dB, b2, n2) == c && Child(dB, b1, n1) == 0 && Child(dA, b2, n2) == 0
    && LookAt(dB, b2, n2) == LookAt(dA, b1, n1) && LookAt(dB, b1, n1) == Missing && LookAt(dA, b2, n2) == Missing
    && (forall y, n :: y in LA.depth && (y != b1 || n != n1) && (y != b2 || n != n2) ==>
          Child(dB, y, n) == Child(dA, y, n))
    && (forall y, n :: y in LA.depth && (y != b1 || n != n1) && (y != b2 || n != n2) ==>
          LookAt(dB, y, n) == LookAt(dA, y, n))
    && (c != 0 ==> LookAt(dA, b1, n1) == Directory && c in LA.depth && !Below(dA, c, b1) && !Below(dA, c, b2)
                   && !Below(dB, c, b1) && !Below(dB, c, b2))
  }

  /** What it means for every path that an entry moved from path `u` to path `w`. */
  ghost predicate Renamed(dA: Disk, dB: Disk, u: seq<string>, w: seq<string>)
    requires |u| >= 1
  {
    forall r: seq<string> {:trigger Look(dB, r)} :: |r| >= 1 ==>
      Look(dB, r) == if w <= r then Look(dA, u + r[|w|..])
                     else if u <= r then Missing
                     else Look(dA, r)
  }

  /** A directory that is not below the moved one keeps its place on every path that leads to it. */
  lemma {:induction false} HomeOutside(dA: Disk, LA: Layout, dB: Disk, LB: Layout, b1: nat, n1: string, b2: nat,
                                       n2: string,
                                       y: nat, q: seq<string>)
    requires Moved(dA, LA, dB, LB, b1, n1, b2, n2) && y in LA.depth && |q| >= 1
    requires Home(dA, y, q) != 0 && !Below(dA, Child(dA, b1, n1), Home(dA, y, q))
    ensures Home(dB, y, q) == Home(dA, y, q)
    decreases |q|
  {
    if |q| > 1 {
      var k := Child(dA, y, q[0]);
      ChildInTree(dA, LA, y, q[0]);
      if y == b1 && q[0] == n1 {
        BelowIntro(dA, k, q[1..]);
        assert false;
      } else {
        HomeOutside(dA, LA, dB, LB, b1, n1, b2, n2, k, q[1..]);
      }
    }
  }

  lemma BelowStep(d: Disk, y: nat, n: string, h: nat)
    requires IsDir(d, y) && Below(d, Child(d, y, n), h)
    ensures Below(d, y, h)
  {
    var q: seq<string> :| |q| >= 1 && Home(d, Child(d, y, n), q) == h && h != 0;
    assert ([n] + q)[1..] == q;
    assert Home(d, y, [n] + q) == h;
  }

  lemma BelowSelf(d: Disk, y: nat)
    requires IsDir(d, y)
    ensures Below(d, y, y)
  {
    assert Home(d, y, [""]) == y;
  }

  /** Inside the moved directory nothing changes. */
  lemma {:induction false} HomeInside(dA: Disk, LA: Layout, dB: Disk, LB: Layout, b1: nat, n1: string, b2: nat,
                                      n2: string,
                                      y: nat, q: seq<string>)
    requires Moved(dA, LA, dB, LB, b1, n1, b2, n2) && y in LA.depth && |q| >= 1
    requires !Below(dA, y, b1) && !Below(dA, y, b2)
    ensures Home(dB, y, q) == Home(dA, y, q)
    ensures Home(dA, y, q) != 0 ==> LookAt(dB, Home(dA, y, q), Last(q)) == LookAt(dA, Home(dA, y, q), Last(q))
    decreases |q|
  {
    BelowSelf(dA, y);
    assert IsDir(dB, y);
    if |q| > 1 {
      var k := Child(dA, y, q[0]);
      ChildInTree(dA, LA, y, q[0]);
      if k != 0 {
        if Below(dA, k, b1) { BelowStep(dA, y, q[0], b1); }
        if Below(dA, k, b2) { BelowStep(dA, y, q[0], b2); }
        HomeInside(dA, LA, dB, LB, b1, n1, b2, n2, k, q[1..]);
      }
    }
  }

  /** A path that leads below the moved directory runs through its name. */
  lemma RunsThrough(d: Disk, L: Layout, b1: nat, n1: string, u: seq<string>, r: seq<string>)
    requires WF(d, L) && b1 in L.depth && |u| >= 1 && |r| >= 1 && Names(d, u, b1, n1)
    requires Home(d, ROOT, r) != 0 && Below(d, Child(d, b1, n1), Home(d, ROOT, r))
    ensures u <= r
  {
    var c, h := Child(d, b1, n1), Home(d, ROOT, r);
    var q: seq<string> :| |q| >= 1 && Home(d, c, q) == h && h != 0;
    var q' := q[..|q| - 1] + [Last(r)];
    HomeIgnoresLast(d, c, q, q');
    HomeConcat(d, ROOT, u, q');
    PathUnique(d, L, r, u + q');
  }

  lemma MovedBack(dA: Disk, LA: Layout, dB: Disk, LB: Layout, b1: nat, n1: string, b2: nat, n2: string)
    requires Moved(dA, LA, dB, LB, b1, n1, b2, n2)
    ensures Moved(dB, LB, dA, LA, b2, n2, b1, n1)
  {
  }

  /** The two names keep their homes, so in the moved image `u` and `w` still mean the same slots. */
  lemma HomesOfNames(dA: Disk, LA: Layout, dB: Disk, LB: Layout, b1: nat, n1: string, b2: nat, n2: string,
                     u: seq<string>, w: seq<string>)
    requires Moved(dA, LA, dB, LB, b1, n1, b2, n2) && |u| >= 1 && |w| >= 1
    requires Names(dA, u, b1, n1) && Names(dA, w, b2, n2)
    ensures Names(dB, u, b1, n1) && Names(dB, w, b2, n2)
  {
    NotBelowZero(dA, b1);
    NotBelowZero(dA, b2);
    HomeOutside(dA, LA, dB, LB, b1, n1, b2, n2, ROOT, u);
    HomeOutside(dA, LA, dB, LB, b1, n1, b2, n2, ROOT, w);
  }

  lemma NotBelowZero(d: Disk, h: nat)
    ensures !Below(d, 0, h)
  {
  }

  lemma MovedElsewhere(dA: Disk, LA: Layout, dB: Disk, LB: Layout, b1: nat, n1: string, b2: nat, n2: string,
                       u: seq<string>, w: seq<string>, r: seq<string>)
    requires Moved(dA, LA, dB, LB, b1, n1, b2, n2) && |u| >= 1 && |w| >= 1 && |r| >= 1
    requires Names(dA, u, b1, n1) && Names(dA, w, b2, n2) && !(u <= r) && !(w <= r)
    requires Home(dA, ROOT, r) != 0
    ensures Home(dB, ROOT, r) == Home(dA, ROOT, r) && Look(dB, r) == Look(dA, r)
  {
    var h := Home(dA, ROOT, r);
    if Below(dA, Child(dA, b1, n1), h) {
      RunsThrough(dA, LA, b1, n1, u, r);
    }
    HomeOutside(dA, LA, dB, LB, b1, n1, b2, n2, ROOT, r);
    HomeInTree(dA, LA, ROOT, r);
    if h == b1 && Last(r) == n1 { PathUnique(dA, LA, r, u); }
    if h == b2 && Last(r) == n2 { PathUnique(dA, LA, r, w); }
  }

  /** The meaning of every path after a move. */
  lemma MovedMeansRenamed(dA: Disk, LA: Layout, dB: Disk, LB: Layout, b1: nat, n1: string, b2: nat, n2: string,
                          u: seq<string>, w: seq<string>)
    requires Moved(dA, LA, dB, LB, b1, n1, b2, n2) && |u| >= 1 && |w| >= 1
    requires Names(dA, u, b1, n1) && Names(dA, w, b2, n2)
    ensures Renamed(dA, dB, u, w)
  {
    HomesOfNames(dA, LA, dB, LB, b1, n1, b2, n2, u, w);
    forall r: seq<string> | |r| >= 1
      ensures Look(dB, r) == if w <= r then Look(dA, u + r[|w|..])
                             else if u <= r then Missing
                             else Look(dA, r)
    {
      if w <= r {
        MovedUnder(dA, LA, dB, LB, b1, n1, b2, n2, u, w, r[|w|..]);
        assert r == w + r[|w|..];
      } else if u <= r {
        if |r| > |u| {
          var q := r[|u|..];
          assert r == u + q;
          HomeConcat(dB, ROOT, u, q);
        } else {
          assert r == u;
        }
      } else if Home(dA, ROOT, r) != 0 {
        MovedElsewhere(dA, LA, dB, LB, b1, n1, b2, n2, u, w, r);
      } else if Home(dB, ROOT, r) != 0 {
        MovedBack(dA, LA, dB, LB, b1, n1, b2, n2);
        MovedElsewhere(dB, LB, dA, LA, b2, n2, b1, n1, w, u, r);
      }
    }
  }

  lemma MovedUnder(dA: Disk, LA: Layout, dB: Disk, LB: Layout, b1: nat, n1: string, b2: nat, n2: string,
                   u: seq<string>, w: seq<string>, q: seq<string>)
    requires Moved(dA, LA, dB, LB, b1, n1, b2, n2) && |u| >= 1 && |w| >= 1
    requires Names(dA, u, b1, n1) && Names(dB, w, b2, n2)
    ensures Look(dB, w + q) == Look(dA, u + q)
  {
    if q == [] {
      assert w + q == w && u + q == u;
    } else {
      LookConcat(dB, w, q);
      LookConcat(dA, u, q);
      MovedInside(dA, LA, dB, LB, b1, n1, b2, n2, q);
    }
  }

  lemma LookConcat(d: Disk, u: seq<string>, q: seq<string>)
    requires |u| >= 1 && |q| >= 1
    ensures Look(d, u + q) == LookAt(d, Home(d, Child(d, Home(d, ROOT, u), Last(u)), q), Last(q))
  {
    HomeConcat(d, ROOT, u, q);
    assert Last(u + q) == Last(q);
  }

  lemma MovedInside(dA: Disk, LA: Layout, dB: Disk, LB: Layout, b1: nat, n1: string, b2: nat, n2: string,
                    q: seq<string>)
    requires Moved(dA, LA, dB, LB, b1, n1, b2, n2) && |q| >= 1
    ensures LookAt(dB, Home(dB, Child(dB, b2, n2), q), Last(q)) == LookAt(dA, Home(dA, Child(dA, b1, n1), q), Last(q))
  {
    var c := Child(dA, b1, n1);
    if c != 0 {
      HomeInside(dA, LA, dB, LB, b1, n1, b2, n2, c, q);
    }
  }
}
