/** Sequences that name no element twice. */
module Sequences {

  ghost predicate Distinct(p: seq<nat>) {
    forall j, k :: 0 <= j < k < |p| ==> p[j] != p[k]
  }

  function Elements(p: seq<nat>): set<nat> {
    set x | x in p
  }

  lemma {:induction false} DistinctSize(p: seq<nat>)
    requires Distinct(p)
    ensures |Elements(p)| == |p|
    decreases |p|
  {
    if p != [] {
      var q := p[..|p| - 1];
      DistinctSize(q);
      assert Elements(p) == Elements(q) + {p[|p| - 1]};
    } else {
      assert Elements(p) == {};
    }
  }

  /** The first `n` numbers. */
  function Upto(n: nat): (s: set<nat>)
    ensures forall i :: i in s <==> 0 <= i < n
    ensures |s| == n
  {
    if n == 0 then {} else Upto(n - 1) + {n - 1}
  }

  /** Distinct numbers below `n` are at most `n` many. */
  lemma DistinctBelow(p: seq<nat>, n: nat)
    requires Distinct(p) && forall x :: x in p ==> x < n
    ensures |p| <= n
  {
    DistinctSize(p);
    SubsetSize(Elements(p), Upto(n));
  }

  lemma {:induction false} SubsetSize(a: set<nat>, b: set<nat>)
    requires a <= b
    ensures |a| <= |b|
    decreases a
  {
    if a != {} {
      var x :| x in a;
      SubsetSize(a - {x}, b - {x});
    }
  }

  lemma RemovedSize(a: set<nat>, b: set<nat>)
    requires b <= a
    ensures |a - b| == |a| - |b|
  {
    assert a == a - b + b;
  }

  lemma Regrouped<T>(a: seq<T>, b: seq<T>, c: seq<T>)
    ensures (a + b) + c == a + (b + c)
  {
  }
}
