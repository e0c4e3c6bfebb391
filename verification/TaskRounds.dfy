/** The scheduler's queues as values: a ring of tasks per level, a current level and its quota. */
module TaskRounds {
  import opened Sequences

  const LEVELS: nat := 4
  const MAX_TASKS: nat := 16
  const LEVEL0_QUOTA: nat := 3

  // ------------------------------------------------------------------ one level

  /** A sequence without the first occurrence of `x`. */
  function Without(s: seq<nat>, x: nat): seq<nat> {
    if s == [] then [] else if s[0] == x then s[1..] else [s[0]] + Without(s[1..], x)
  }

  datatype Ring = Ring(queue: seq<nat>, now: nat)
  {
    ghost predicate Ok() {
      Distinct(queue) && (now < |queue| || now == 0)
    }

    /** The tasks in the order in which they will run. */
    function Order(): (s: seq<nat>)
      requires now <= |queue|
      ensures |s| == |queue|
    {
      queue[now..] + queue[..now]
    }

    function Appended(x: nat): Ring { Ring(queue + [x], now) }

    function Removed(i: nat): Ring
      requires i < |queue|
    {
      var n := if i < now then now - 1 else now;
      Ring(queue[..i] + queue[i + 1..], if n >= |queue| - 1 then 0 else n)
    }

    function Advanced(): Ring {
      Ring(queue, if now + 1 >= |queue| then 0 else now + 1)
    }
  }

  lemma {:induction false} WithoutConcat(a: seq<nat>, x: nat, b: seq<nat>)
    requires x !in a
    ensures Without(a + [x] + b, x) == a + b
  {
    if a == [] {
      assert ([] + [x] + b)[1..] == b && [] + b == b;
    } else {
      assert (a + [x] + b)[1..] == a[1..] + [x] + b;
      WithoutConcat(a[1..], x, b);
      assert a + b == [a[0]] + (a[1..] + b);
    }
  }

  /** Taking a task out leaves the others in the order they were to run in. */
  lemma RemovedOrder(r: Ring, i: nat)
    requires r.Ok() && i < |r.queue|
    ensures r.Removed(i).Ok() && r.Removed(i).Order() == Without(r.Order(), r.queue[i])
  {
    if i < r.now { RemovedBefore(r, i); } else { RemovedAfter(r, i); }
  }

  lemma RemovedBefore(r: Ring, i: nat)
    requires r.Ok() && i < r.now < |r.queue|
    ensures r.Removed(i).Order() == Without(r.Order(), r.queue[i])
  {
    var q, n, x := r.queue, r.now, r.queue[i];
    var q1 := q[..i] + q[i + 1..];
    assert q[..n] == q[..i] + [x] + q[i + 1..n];
    assert r.Order() == (q[n..] + q[..i]) + [x] + q[i + 1..n];
    WithoutConcat(q[n..] + q[..i], x, q[i + 1..n]);
    assert q1[n - 1..] == q[n..] && q1[..n - 1] == q[..i] + q[i + 1..n];
  }

  lemma RemovedAfter(r: Ring, i: nat)
    requires r.Ok() && r.now <= i < |r.queue|
    ensures r.Removed(i).Order() == Without(r.Order(), r.queue[i])
  {
    var q, n, x := r.queue, r.now, r.queue[i];
    var q1 := q[..i] + q[i + 1..];
    assert q[n..] == q[n..i] + [x] + q[i + 1..];
    assert r.Order() == q[n..i] + [x] + (q[i + 1..] + q[..n]);
    WithoutConcat(q[n..i], x, q[i + 1..] + q[..n]);
    assert q1[n..] == q[n..i] + q[i + 1..] && q1[..n] == q[..n];
    if n >= |q| - 1 { assert q1[n..] == [] && q1 == q[..n]; }
  }

  /** Taking a task out takes out no other. */
  lemma RemovedMembers(r: Ring, i: nat, y: nat)
    requires r.Ok() && i < |r.queue|
    ensures y in r.Removed(i).queue <==> y in r.queue && y != r.queue[i]
  {
    var q := r.queue;
    assert q == q[..i] + [q[i]] + q[i + 1..];
  }

  /** Adding a task leaves the others in the order they were to run in. */
  lemma AppendedOrder(r: Ring, x: nat)
    requires r.Ok() && x !in r.queue
    ensures r.Appended(x).Ok() && x in r.Appended(x).Order() && Without(r.Appended(x).Order(), x) == r.Order()
  {
    var q, n := r.queue, r.now;
    assert (q + [x])[n..] + (q + [x])[..n] == q[n..] + [x] + q[..n];
    WithoutConcat(q[n..], x, q[..n]);
    assert (q[n..] + [x] + q[..n])[|q| - n] == x;
  }

  /** The task that runs goes to the back. */
  lemma AdvancedOrder(r: Ring)
    requires r.Ok() && r.queue != []
    ensures r.Advanced().Ok() && r.Order()[0] == r.queue[r.now]
    ensures r.Advanced().Order() == r.Order()[1..] + [r.Order()[0]]
  {
  }

  // ------------------------------------------------------------------ all levels

  datatype Round = Round(rings: seq<Ring>, level: nat, quota: nat)
  {
    ghost predicate Ok() {
      && |rings| == LEVELS && level < LEVELS && quota <= Turns(level)
      && forall l :: 0 <= l < LEVELS ==> rings[l].Ok()
    }
  }

  /** How many times in a row a level runs. */
  function Turns(l: nat): (n: nat)
    ensures n >= 1
  {
    if l == 0 then LEVEL0_QUOTA else 1
  }

  /** The next level in the circle. */
  function After(l: nat): (m: nat)
    ensures m < LEVELS
  {
    (l + 1) % LEVELS
  }

  /** How far round the circle `target` is from `l`. */
  function Distance(l: nat, target: nat): (n: nat)
    requires l < LEVELS && target < LEVELS
    ensures n < LEVELS && (n == 0 <==> l == target)
  {
    if l <= target then target - l else target + LEVELS - l
  }

  /** The first busy level from `l` on, looking at `n` levels in a circle; LEVELS if there is none. */
  function FirstBusy(rings: seq<Ring>, l: nat, n: nat): (f: nat)
    requires |rings| == LEVELS && l < LEVELS
    ensures f <= LEVELS && (f < LEVELS ==> rings[f].queue != [])
    decreases n
  {
    if n == 0 then LEVELS
    else if rings[l].queue != [] then l
    else FirstBusy(rings, After(l), n - 1)
  }

  /** The search finds the busy level that comes first, going round. */
  lemma {:induction false} FirstIsNearest(rings: seq<Ring>, l: nat, n: nat, k: nat)
    requires |rings| == LEVELS && l < LEVELS && k < LEVELS && n <= LEVELS && rings[k].queue != [] && Distance(l, k) < n
    ensures FirstBusy(rings, l, n) < LEVELS && Distance(l, FirstBusy(rings, l, n)) <= Distance(l, k)
    decreases n
  {
    if rings[l].queue == [] {
      FirstIsNearest(rings, After(l), n - 1, k);
      OneFarther(l, k);
      OneFarther(l, FirstBusy(rings, l, n));
    }
  }

  lemma OneFarther(l: nat, k: nat)
    requires l < LEVELS && k < LEVELS && k != l
    ensures Distance(l, k) == Distance(After(l), k) + 1
  {
  }

  predicate Stays(r: Round)
    requires |r.rings| == LEVELS && r.level < LEVELS
  {
    r.rings[r.level].queue != [] && r.quota > 0
  }

  function Chosen(r: Round): (l: nat)
    requires |r.rings| == LEVELS && r.level < LEVELS
    ensures l <= LEVELS && (l < LEVELS ==> r.rings[l].queue != [])
  {
    if Stays(r) then r.level else FirstBusy(r.rings, After(r.level), LEVELS)
  }

  /** One call of the scheduler: the round after it and the task it picks, or -1. */
  function Next(r: Round): (Round, int)
    requires r.Ok()
  {
    var l := Chosen(r);
    if l == LEVELS then (r, -1)
    else
      var rings := r.rings[l := r.rings[l].Advanced()];
      var quota: nat := if Stays(r) then r.quota - 1 else Turns(l) - 1;
      var task: int := r.rings[l].queue[r.rings[l].now];
      (Round(rings, l, quota), task)
  }

  /** What a call picks: from the current level while it has a task and turns left, otherwise from the busy
      level that comes next, with all its turns; the task that runs goes to the back. */
  lemma NextSays(r: Round, k: nat)
    requires r.Ok() && k < LEVELS && r.rings[k].queue != []
    ensures var (r1, t) := Next(r);
      && r1.level < LEVELS && r.rings[r1.level].queue != []
      && t == r.rings[r1.level].Order()[0] && r1.rings[r1.level].Order() == r.rings[r1.level].Order()[1..] + [t]
      && (forall l :: 0 <= l < LEVELS && l != r1.level ==> r1.rings[l] == r.rings[l])
      && if r.rings[r.level].queue != [] && r.quota > 0 then r1.level == r.level && r1.quota == r.quota - 1
         else Distance(After(r.level), r1.level) <= Distance(After(r.level), k)
              && r1.quota == (if r1.level == 0 then LEVEL0_QUOTA else 1) - 1
  {
    FirstIsNearest(r.rings, After(r.level), LEVELS, k);
    AdvancedOrder(r.rings[Chosen(r)]);
    hide FirstBusy, Distance, After;
  }

  lemma NextOk(r: Round)
    requires r.Ok()
    ensures Next(r).0.Ok()
  {
  }

  /** Nothing is picked only when no level has a task. */
  lemma IdleOnlyWhenEmpty(r: Round)
    requires r.Ok()
    ensures Next(r).1 == -1 <==> forall l :: 0 <= l < LEVELS ==> r.rings[l].queue == []
  {
    BusyFound(r.rings, After(r.level));
  }

  lemma BusyFound(rings: seq<Ring>, l: nat)
    requires |rings| == LEVELS && l < LEVELS
    ensures FirstBusy(rings, l, LEVELS) == LEVELS ==> forall k :: 0 <= k < LEVELS ==> rings[k].queue == []
  {
    var a := After(l);
    var b := After(a);
    var c := After(b);
    assert FirstBusy(rings, c, 1) == if rings[c].queue != [] then c else LEVELS;
    assert FirstBusy(rings, b, 2) == if rings[b].queue != [] then b else FirstBusy(rings, c, 1);
    assert FirstBusy(rings, a, 3) == if rings[a].queue != [] then a else FirstBusy(rings, b, 2);
    forall k | 0 <= k < LEVELS && FirstBusy(rings, l, LEVELS) == LEVELS
      ensures rings[k].queue == []
    {
      assert k == l || k == a || k == b || k == c;
    }
  }

  // ------------------------------------------------------------------ bounded waiting

  /** `t` is picked within `k` calls. */
  ghost predicate PickedWithin(r: Round, t: nat, k: nat)
    requires r.Ok()
    decreases k
  {
    NextOk(r);
    k > 0 && (Next(r).1 == t || PickedWithin(Next(r).0, t, k - 1))
  }

  /** The turns of the busy levels from `l` on, in a circle, before `target`. */
  function Between(rings: seq<Ring>, l: nat, target: nat): nat
    requires |rings| == LEVELS && l < LEVELS && target < LEVELS
    decreases Distance(l, target)
  {
    if l == target then 0
    else (if rings[l].queue != [] then Turns(l) else 0) + Between(rings, After(l), target)
  }

  /** How many calls come before one that picks from level `target`. A full round has
      LEVEL0_QUOTA + LEVELS - 1 = 6 calls. */
  function Calls(r: Round, target: nat): nat
    requires r.Ok() && target < LEVELS
  {
    if r.level == target && r.quota > 0 then 0
    else (if r.rings[r.level].queue != [] then r.quota else 0) + Between(r.rings, After(r.level), target)
  }

  /** The turns of the levels below `l`. */
  function TurnsBelow(l: nat): nat { if l == 0 then 0 else l - 1 + LEVEL0_QUOTA }

  lemma {:induction false} BetweenBound(rings: seq<Ring>, l: nat, target: nat)
    requires |rings| == LEVELS && l < LEVELS && target < LEVELS
    ensures Between(rings, l, target) <=
      TurnsBelow(target) - TurnsBelow(l) + if l <= target then 0 else TurnsBelow(LEVELS)
    decreases Distance(l, target)
  {
    if l != target { BetweenBound(rings, After(l), target); }
  }

  lemma CallsBound(r: Round, target: nat)
    requires r.Ok() && target < LEVELS
    ensures Calls(r, target) <= LEVEL0_QUOTA + LEVELS - 2
  {
    BetweenBound(r.rings, After(r.level), target);
  }

  /** On the way to a busy level the scheduler passes over the levels with no task. */
  lemma {:induction false} PassEmpty(rings: seq<Ring>, l: nat, target: nat, n: nat)
    requires |rings| == LEVELS && l < LEVELS && target < LEVELS && rings[target].queue != []
    requires n > Distance(l, target)
    ensures FirstBusy(rings, l, n) < LEVELS
    ensures Between(rings, FirstBusy(rings, l, n), target) == Between(rings, l, target)
    decreases n
  {
    if rings[l].queue == [] { PassEmpty(rings, After(l), target, n - 1); }
  }

  lemma {:induction false} BetweenSame(a: seq<Ring>, b: seq<Ring>, l: nat, target: nat)
    requires |a| == |b| == LEVELS && l < LEVELS && target < LEVELS
    requires forall k :: 0 <= k < LEVELS ==> (a[k].queue == [] <==> b[k].queue == [])
    ensures Between(a, l, target) == Between(b, l, target)
    decreases Distance(l, target)
  {
    if l != target { BetweenSame(a, b, After(l), target); }
  }

  /** Every call either picks from the level or brings it one call nearer. */
  lemma OneNearer(r: Round, target: nat)
    requires r.Ok() && target < LEVELS && r.rings[target].queue != []
    ensures Next(r).0.Ok()
    ensures if Calls(r, target) == 0 then Chosen(r) == target
            else (Chosen(r) != target && Next(r).0.rings[target] == r.rings[target]
                  && Calls(Next(r).0, target) == Calls(r, target) - 1)
  {
    NextOk(r);
    var r1 := Next(r).0;
    if Stays(r) {
      BetweenSame(r.rings, r1.rings, After(r.level), target);
    } else {
      Moves(r, target);
    }
  }

  lemma Moves(r: Round, target: nat)
    requires r.Ok() && target < LEVELS && r.rings[target].queue != [] && !Stays(r)
    ensures var f := Chosen(r);
      && f < LEVELS
      && if f == target then Calls(r, target) == 0
         else (Calls(r, target) == Turns(f) + Between(r.rings, After(f), target)
               && Calls(Next(r).0, target) == Calls(r, target) - 1)
  {
    NextOk(r);
    PassEmpty(r.rings, After(r.level), target, LEVELS);
    var f := Chosen(r);
    BetweenSame(r.rings, r.rings[f := r.rings[f].Advanced()], After(f), target);
  }

  /** The task at place `p` of its level's order waits for at most `p` full rounds. */
  lemma {:induction false} Waiting(r: Round, l: nat, p: nat)
    requires r.Ok() && l < LEVELS && p < |r.rings[l].queue|
    ensures PickedWithin(r, r.rings[l].Order()[p], 6 * p + Calls(r, l) + 1)
    decreases p, Calls(r, l)
  {
    hide Next, Chosen, Calls, PickedWithin, Ring.Order, Distinct, Turns;
    OneNearer(r, l);
    var r1, t := Next(r).0, r.rings[l].Order()[p];
    if Calls(r, l) > 0 {
      Waiting(r1, l, p);
      OneMore(r, t, 6 * p + Calls(r, l));
    } else {
      Turn(r, l, p);
      if p > 0 {
        Waiting(r1, l, p - 1);
        CallsBound(r1, l);
        Longer(r1, t, 6 * (p - 1) + Calls(r1, l) + 1, 6 * p);
        OneMore(r, t, 6 * p);
      }
    }
  }

  /** When the level has its turn, its first task is picked and the others move up. */
  lemma Turn(r: Round, l: nat, p: nat)
    requires r.Ok() && l < LEVELS && p < |r.rings[l].queue| && Chosen(r) == l
    ensures Next(r).0.Ok() && |Next(r).0.rings[l].queue| == |r.rings[l].queue|
    ensures if p == 0 then PickedWithin(r, r.rings[l].Order()[0], 1)
      else Next(r).0.rings[l].Order()[p - 1] == r.rings[l].Order()[p]
  {
    NextOk(r);
    AdvancedOrder(r.rings[l]);
  }

  lemma OneMore(r: Round, t: nat, k: nat)
    requires r.Ok() && Next(r).0.Ok() && PickedWithin(Next(r).0, t, k)
    ensures PickedWithin(r, t, k + 1)
  {
  }

  lemma {:induction false} Longer(r: Round, t: nat, k: nat, n: nat)
    requires r.Ok() && k <= n && PickedWithin(r, t, k)
    ensures PickedWithin(r, t, n)
    decreases k
  {
    NextOk(r);
    if Next(r).1 != t { Longer(Next(r).0, t, k - 1, n - 1); }
  }

  /** Every task of a level with `n` tasks is picked within `6 n` calls, from any state. */
  lemma BoundedWaiting(r: Round, l: nat, t: nat)
    requires r.Ok() && l < LEVELS && t in r.rings[l].queue
    ensures PickedWithin(r, t, 6 * |r.rings[l].queue|)
  {
    var ring := r.rings[l];
    var i :| 0 <= i < |ring.queue| && ring.queue[i] == t;
    var p := if i >= ring.now then i - ring.now else |ring.queue| - ring.now + i;
    assert ring.Order()[p] == t;
    Waiting(r, l, p);
    CallsBound(r, l);
    Longer(r, t, 6 * p + Calls(r, l) + 1, 6 * |ring.queue|);
  }

  function Alone(): seq<Ring> { [Ring([0], 0), Ring([1], 0), Ring([2], 0), Ring([3], 0)] }

  lemma AloneNext(l: nat, quota: nat)
    requires l < LEVELS && quota <= Turns(l)
    ensures var r := Round(Alone(), l, quota);
      r.Ok() && Next(r) == if quota > 0 then (Round(Alone(), l, quota - 1), l)
                           else (Round(Alone(), After(l), Turns(After(l)) - 1), After(l))
  {
    assert forall k :: 0 <= k < LEVELS ==> Alone()[k].queue == [k] && Alone()[k].now == 0;
    assert Alone()[l := Alone()[l].Advanced()] == Alone();
    assert Alone()[After(l) := Alone()[After(l)].Advanced()] == Alone();
  }

  /** The bound is met: with one task on each level, the one that has just had its turn on level 1
      waits for six calls. */
  lemma BoundMet()
    ensures var r := Round(Alone(), 1, 0);
      r.Ok() && !PickedWithin(r, 1, 5) && PickedWithin(r, 1, 6)
  {
    AloneNext(1, 0);
    AloneNext(2, 0);
    AloneNext(3, 0);
    AloneNext(0, 2);
    AloneNext(0, 1);
    AloneNext(0, 0);
    BoundedWaiting(Round(Alone(), 1, 0), 1, 1);
    var k: nat := 0;
    assert !PickedWithin(Round(Alone(), 0, 0), 1, k);
    assert !PickedWithin(Round(Alone(), 0, 1), 1, k + 1);
    assert !PickedWithin(Round(Alone(), 0, 2), 1, k + 2);
    assert !PickedWithin(Round(Alone(), 3, 0), 1, k + 3);
    assert !PickedWithin(Round(Alone(), 2, 0), 1, k + 4);
  }
}
