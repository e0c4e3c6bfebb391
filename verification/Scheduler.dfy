/** The kernel's scheduler: run queues per level, task flags, and the operations that change them. */
module Scheduler {
  import opened Sequences
  import opened TaskRounds

  datatype Flag = Unused | Sleeping | Running

  /** The whole state as a value. */
  datatype Tasks = Tasks(round: Round, flags: seq<Flag>, level: seq<nat>, priority: seq<int>, top: nat)
  {
    predicate Shape() {
      && |round.rings| == LEVELS && |flags| == |level| == |priority| == MAX_TASKS && top <= MAX_TASKS
      && forall t :: 0 <= t < top ==> level[t] < LEVELS
    }

    predicate IsRunning(t: nat)
      requires Shape()
    {
      t < top && flags[t] == Running
    }

    /** A task is flagged running exactly when it is in the queue of its own level, where it is once. */
    ghost predicate Inv() {
      && Shape() && round.Ok()
      && forall l: nat, t: nat {:trigger t in round.rings[l].queue} ::
           l < LEVELS ==> (t in round.rings[l].queue <==> IsRunning(t) && level[t] == l)
    }
  }

  function IndexOf(q: seq<nat>, x: nat): (i: nat)
    requires x in q
    ensures i < |q| && q[i] == x && x !in q[..i]
  {
    if q[0] == x then 0 else 1 + IndexOf(q[1..], x)
  }

  /** Back to the lowest busy level, with its full quota. */
  function Switched(r: Round): Round
    requires |r.rings| == LEVELS
  {
    var f := FirstBusy(r.rings, 0, LEVELS);
    var l := if f == LEVELS then 0 else f;
    Round(r.rings, l, Turns(l))
  }

  function Taken(v: Tasks, t: nat): Tasks
    requires v.Shape() && v.IsRunning(t) && t in v.round.rings[v.level[t]].queue
  {
    var l := v.level[t];
    var ring := v.round.rings[l];
    v.(round := v.round.(rings := v.round.rings[l := ring.Removed(IndexOf(ring.queue, t))]),
      flags := v.flags[t := Sleeping])
  }

  function Given(v: Tasks, t: nat): Tasks
    requires v.Shape() && t < v.top
  {
    var l := v.level[t];
    v.(round := v.round.(rings := v.round.rings[l := v.round.rings[l].Appended(t)]), flags := v.flags[t := Running])
  }

  lemma TakenKeeps(v: Tasks, t: nat)
    requires v.Inv() && v.IsRunning(t)
    ensures t in v.round.rings[v.level[t]].queue && Taken(v, t).Inv() && !Taken(v, t).IsRunning(t)
  {
    var l := v.level[t];
    assert t in v.round.rings[l].queue;
    var ring := v.round.rings[l];
    var i := IndexOf(ring.queue, t);
    RemovedOrder(ring, i);
    forall k: nat, x: nat | k < LEVELS
      ensures x in Taken(v, t).round.rings[k].queue <==> Taken(v, t).IsRunning(x) && v.level[x] == k
    {
      RemovedMembers(ring, i, x);
      assert x in v.round.rings[k].queue <==> v.IsRunning(x) && v.level[x] == k;
    }
  }

  lemma GivenKeeps(v: Tasks, t: nat)
    requires v.Inv() && t < v.top && !v.IsRunning(t)
    ensures Given(v, t).Inv() && |v.round.rings[v.level[t]].queue| < MAX_TASKS
  {
    var l := v.level[t];
    var ring := v.round.rings[l];
    assert t !in ring.queue;
    AppendedOrder(ring, t);
    DistinctBelow(ring.queue + [t], v.top);
    forall k: nat, x: nat | k < LEVELS
      ensures x in Given(v, t).round.rings[k].queue <==> Given(v, t).IsRunning(x) && v.level[x] == k
    {
      assert x in v.round.rings[k].queue <==> v.IsRunning(x) && v.level[x] == k;
    }
  }

  lemma SwitchedKeeps(v: Tasks)
    requires v.Inv()
    ensures v.(round := Switched(v.round)).Inv()
  {
    var v1 := v.(round := Switched(v.round));
    forall k: nat, x: nat | k < LEVELS
      ensures x in v1.round.rings[k].queue <==> v1.IsRunning(x) && v1.level[x] == k
    {
      assert x in v.round.rings[k].queue <==> v.IsRunning(x) && v.level[x] == k;
    }
  }

  // ------------------------------------------------------------------ the operations as functions

  /** The level a call asks for: its own for a negative one, the last for one out of range. */
  function LevelFor(v: Tasks, t: nat, level: int): nat
    requires v.Shape() && t < v.top
  {
    if level < 0 then v.level[t] else if level >= LEVELS then LEVELS - 1 else level
  }

  function Slept(v: Tasks, t: int): Tasks
    requires v.Inv()
  {
    if t < 0 || t >= v.top || v.flags[t] != Running then v
    else
      TakenKeeps(v, t);
      var v1 := Taken(v, t);
      v1.(round := Switched(v1.round))
  }

  function Woken(v: Tasks, t: int): Tasks
    requires v.Inv()
  {
    if t < 0 || t >= v.top || v.flags[t] == Running then v
    else
      var v1 := Given(v, t);
      v1.(round := Switched(v1.round))
  }

  function Ran(v: Tasks, t: int, level: int, priority: int): Tasks
    requires v.Inv()
  {
    if t < 0 || t >= v.top then v
    else
      TakenWhenRunning(v, t);
      var l := LevelFor(v, t, level);
      var v1 := if v.flags[t] == Running && v.level[t] != l then Taken(v, t) else v;
      var v2 := v1.(level := v1.level[t := l], priority := v1.priority[t := if priority <= 0 then 1 else priority]);
      var v3 := if v2.flags[t] != Running then Given(v2, t) else v2;
      v3.(round := Switched(v3.round))
  }

  lemma TakenWhenRunning(v: Tasks, t: nat)
    requires v.Inv() && t < v.top
    ensures v.flags[t] == Running ==> t in v.round.rings[v.level[t]].queue
  {
    if v.flags[t] == Running { TakenKeeps(v, t); }
  }

  /** A new task; the system stops when there are too many. */
  function Created(v: Tasks, level: int, priority: int): Tasks
    requires v.Inv() && v.top < MAX_TASKS
  {
    TopKeeps(v);
    Ran(v.(top := v.top + 1, flags := v.flags[v.top := Sleeping], level := v.level[v.top := 0],
        priority := v.priority[v.top := 1]), v.top, level, priority)
  }

  function Restarted(v: Tasks, t: int, level: int, priority: int): Tasks
    requires v.Inv()
  {
    if t < 0 || t >= v.top then v
    else
      TakenWhenRunning(v, t);
      var v1 := if v.flags[t] == Running then Taken(v, t) else v;
      RestartKeeps(v, t);
      Ran(v1.(flags := v1.flags[t := Sleeping], level := v1.level[t := 0], priority := v1.priority[t := 1]),
          t, level, priority)
  }

  lemma TopKeeps(v: Tasks)
    requires v.Inv() && v.top < MAX_TASKS
    ensures v.(top := v.top + 1, flags := v.flags[v.top := Sleeping], level := v.level[v.top := 0],
              priority := v.priority[v.top := 1]).Inv()
  {
    var v1 := v.(top := v.top + 1, flags := v.flags[v.top := Sleeping], level := v.level[v.top := 0],
                 priority := v.priority[v.top := 1]);
    forall k: nat, x: nat | k < LEVELS
      ensures x in v1.round.rings[k].queue <==> v1.IsRunning(x) && v1.level[x] == k
    {
      assert x in v.round.rings[k].queue <==> v.IsRunning(x) && v.level[x] == k;
    }
  }

  /** Changing the level of a task that is not running changes no queue. */
  lemma RelevelKeeps(v: Tasks, t: nat, l: nat, priority: int, flag: Flag)
    requires v.Inv() && t < v.top && !v.IsRunning(t) && l < LEVELS && flag != Running
    ensures v.(flags := v.flags[t := flag], level := v.level[t := l], priority := v.priority[t := priority]).Inv()
  {
    var v1 := v.(flags := v.flags[t := flag], level := v.level[t := l], priority := v.priority[t := priority]);
    forall k: nat, x: nat | k < LEVELS
      ensures x in v1.round.rings[k].queue <==> v1.IsRunning(x) && v1.level[x] == k
    {
      assert x in v.round.rings[k].queue <==> v.IsRunning(x) && v.level[x] == k;
    }
  }

  lemma RestartKeeps(v: Tasks, t: nat)
    requires v.Inv() && t < v.top
    ensures v.flags[t] == Running ==> t in v.round.rings[v.level[t]].queue
    ensures var v1 := if v.flags[t] == Running then Taken(v, t) else v;
      v1.(flags := v1.flags[t := Sleeping], level := v1.level[t := 0], priority := v1.priority[t := 1]).Inv()
  {
    if v.flags[t] == Running {
      TakenKeeps(v, t);
      RelevelKeeps(Taken(v, t), t, 0, 1, Sleeping);
    } else {
      RelevelKeeps(v, t, 0, 1, Sleeping);
    }
  }

  // ------------------------------------------------------------------ what every operation keeps

  lemma SleptKeeps(v: Tasks, t: int)
    requires v.Inv()
    ensures Slept(v, t).Inv()
  {
    if 0 <= t < v.top && v.flags[t] == Running {
      TakenKeeps(v, t);
      SwitchedKeeps(Taken(v, t));
    }
  }

  lemma WokenKeeps(v: Tasks, t: int)
    requires v.Inv()
    ensures Woken(v, t).Inv()
  {
    if 0 <= t < v.top && v.flags[t] != Running {
      GivenKeeps(v, t);
      SwitchedKeeps(Given(v, t));
    }
  }

  lemma RanKeeps(v: Tasks, t: int, level: int, priority: int)
    requires v.Inv()
    ensures Ran(v, t, level, priority).Inv()
    ensures 0 <= t < v.top ==>
      Ran(v, t, level, priority).IsRunning(t) && Ran(v, t, level, priority).level[t] == LevelFor(v, t, level)
  {
    if 0 <= t < v.top {
      var l := LevelFor(v, t, level);
      var p := if priority <= 0 then 1 else priority;
      if v.flags[t] == Running && v.level[t] == l {
        SamePlace(v, t, p);
        SwitchedKeeps(v.(level := v.level[t := l], priority := v.priority[t := p]));
      } else {
        var v1 := v;
        if v.flags[t] == Running {
          TakenKeeps(v, t);
          v1 := Taken(v, t);
        }
        RelevelKeeps(v1, t, l, p, v1.flags[t]);
        assert v1.flags[t := v1.flags[t]] == v1.flags;
        var v2 := v1.(level := v1.level[t := l], priority := v1.priority[t := p]);
        GivenKeeps(v2, t);
        SwitchedKeeps(Given(v2, t));
      }
    }
  }

  lemma SamePlace(v: Tasks, t: nat, p: int)
    requires v.Inv() && t < v.top
    ensures v.(level := v.level[t := v.level[t]], priority := v.priority[t := p]).Inv()
  {
    var v1 := v.(priority := v.priority[t := p]);
    assert v.level[t := v.level[t]] == v.level;
    forall k: nat, x: nat | k < LEVELS
      ensures x in v1.round.rings[k].queue <==> v1.IsRunning(x) && v1.level[x] == k
    {
      assert x in v.round.rings[k].queue <==> v.IsRunning(x) && v.level[x] == k;
    }
  }

  lemma CreatedKeeps(v: Tasks, level: int, priority: int)
    requires v.Inv() && v.top < MAX_TASKS
    ensures Created(v, level, priority).Inv() && Created(v, level, priority).IsRunning(v.top)
  {
    TopKeeps(v);
    RanKeeps(v.(top := v.top + 1, flags := v.flags[v.top := Sleeping], level := v.level[v.top := 0],
        priority := v.priority[v.top := 1]), v.top, level, priority);
  }

  lemma RestartedKeeps(v: Tasks, t: int, level: int, priority: int)
    requires v.Inv()
    ensures Restarted(v, t, level, priority).Inv()
  {
    if 0 <= t < v.top {
      RestartKeeps(v, t);
      var v1 := if v.flags[t] == Running then Taken(v, t) else v;
      RanKeeps(v1.(flags := v1.flags[t := Sleeping], level := v1.level[t := 0], priority := v1.priority[t := 1]),
               t, level, priority);
    }
  }

  // ------------------------------------------------------------------ the order of the other tasks

  /** On every level the tasks other than `t` run in the same order, counted from the one to run next. */
  ghost predicate Undisturbed(v: Tasks, w: Tasks, t: nat) {
    && v.Inv() && w.Inv()
    && forall l :: 0 <= l < LEVELS ==> Without(w.round.rings[l].Order(), t) == Without(v.round.rings[l].Order(), t)
  }

  lemma {:induction false} WithoutAbsent(s: seq<nat>, x: nat)
    requires x !in s
    ensures Without(s, x) == s
  {
    if s != [] { WithoutAbsent(s[1..], x); }
  }

  lemma OrderMembers(r: Ring, x: nat)
    requires r.Ok()
    ensures x in r.Order() <==> x in r.queue
  {
    assert r.queue == r.queue[..r.now] + r.queue[r.now..];
  }

  lemma TakenUndisturbed(v: Tasks, t: nat)
    requires v.Inv() && v.IsRunning(t)
    ensures t in v.round.rings[v.level[t]].queue && Undisturbed(v, Taken(v, t), t)
  {
    TakenKeeps(v, t);
    var l := v.level[t];
    var ring, ring1 := v.round.rings[l], Taken(v, t).round.rings[l];
    RemovedOrder(ring, IndexOf(ring.queue, t));
    OrderMembers(ring1, t);
    WithoutAbsent(ring1.Order(), t);
  }

  lemma GivenUndisturbed(v: Tasks, t: nat)
    requires v.Inv() && t < v.top && !v.IsRunning(t)
    ensures Undisturbed(v, Given(v, t), t)
  {
    GivenKeeps(v, t);
    var ring := v.round.rings[v.level[t]];
    assert t !in ring.queue;
    AppendedOrder(ring, t);
    OrderMembers(ring, t);
    WithoutAbsent(ring.Order(), t);
  }

  lemma SleptUndisturbed(v: Tasks, t: nat)
    requires v.Inv()
    ensures Undisturbed(v, Slept(v, t), t)
  {
    SleptKeeps(v, t);
    if t < v.top && v.flags[t] == Running { TakenUndisturbed(v, t); }
  }

  lemma WokenUndisturbed(v: Tasks, t: nat)
    requires v.Inv()
    ensures Undisturbed(v, Woken(v, t), t)
  {
    WokenKeeps(v, t);
    if t < v.top && v.flags[t] != Running { GivenUndisturbed(v, t); }
  }

  lemma RanUndisturbed(v: Tasks, t: nat, level: int, priority: int)
    requires v.Inv()
    ensures Undisturbed(v, Ran(v, t, level, priority), t)
  {
    RanKeeps(v, t, level, priority);
    if t < v.top && !(v.flags[t] == Running && v.level[t] == LevelFor(v, t, level)) {
      var l := LevelFor(v, t, level);
      var p := if priority <= 0 then 1 else priority;
      var v1 := v;
      if v.flags[t] == Running {
        TakenKeeps(v, t);
        TakenUndisturbed(v, t);
        v1 := Taken(v, t);
      }
      RelevelKeeps(v1, t, l, p, v1.flags[t]);
      assert v1.flags[t := v1.flags[t]] == v1.flags;
      GivenUndisturbed(v1.(level := v1.level[t := l], priority := v1.priority[t := p]), t);
    }
  }

  lemma RestartedUndisturbed(v: Tasks, t: nat, level: int, priority: int)
    requires v.Inv()
    ensures Undisturbed(v, Restarted(v, t, level, priority), t)
  {
    RestartedKeeps(v, t, level, priority);
    if t < v.top {
      RestartKeeps(v, t);
      if v.flags[t] == Running { TakenUndisturbed(v, t); }
      var v1 := if v.flags[t] == Running then Taken(v, t) else v;
      RanUndisturbed(v1.(flags := v1.flags[t := Sleeping], level := v1.level[t := 0], priority := v1.priority[t := 1]),
                     t, level, priority);
    }
  }

  lemma CreatedUndisturbed(v: Tasks, level: int, priority: int)
    requires v.Inv() && v.top < MAX_TASKS
    ensures Undisturbed(v, Created(v, level, priority), v.top)
  {
    CreatedKeeps(v, level, priority);
    TopKeeps(v);
    RanUndisturbed(v.(top := v.top + 1, flags := v.flags[v.top := Sleeping], level := v.level[v.top := 0],
        priority := v.priority[v.top := 1]), v.top, level, priority);
  }

  // ------------------------------------------------------------------ what every operation does

  /** The lowest level that has a task is the current one, with all its turns; level 0 when none has. */
  predicate AtLowest(r: Round) {
    && |r.rings| == LEVELS && r.level < LEVELS && r.quota == (if r.level == 0 then LEVEL0_QUOTA else 1)
    && (forall l :: 0 <= l < r.level ==> r.rings[l].queue == [])
    && (r.rings[r.level].queue == [] ==> r.level == 0 && forall l :: 0 <= l < LEVELS ==> r.rings[l].queue == [])
  }

  /** Every task but `t` keeps its flag, its level, its priority and its place in the order. */
  ghost predicate OthersKept(v: Tasks, w: Tasks, t: nat) {
    && Undisturbed(v, w, t)
    && forall x :: 0 <= x < MAX_TASKS && x != t ==>
         w.flags[x] == v.flags[x] && w.level[x] == v.level[x] && w.priority[x] == v.priority[x]
  }

  /** Task `t` runs on level `l` with this priority. */
  predicate RunsAt(w: Tasks, t: nat, l: nat, priority: int) {
    && w.Shape() && t < w.top && w.flags[t] == Running && w.level[t] == l < LEVELS && w.priority[t] == priority
    && t in w.round.rings[l].queue && forall k :: 0 <= k < LEVELS && t in w.round.rings[k].queue ==> k == l
  }

  ghost predicate SleepDone(v: Tasks, w: Tasks, t: int) {
    && v.Inv() && w.Inv()
    && if 0 <= t < v.top && v.flags[t] == Running then
         && OthersKept(v, w, t) && w.top == v.top && AtLowest(w.round)
         && w.flags[t] == Sleeping && w.level[t] == v.level[t] && w.priority[t] == v.priority[t]
         && forall l :: 0 <= l < LEVELS ==> t !in w.round.rings[l].queue
       else w == v
  }

  ghost predicate WakeDone(v: Tasks, w: Tasks, t: int) {
    && v.Inv() && w.Inv()
    && if 0 <= t < v.top && v.flags[t] != Running then
         && OthersKept(v, w, t) && w.top == v.top && AtLowest(w.round)
         && RunsAt(w, t, v.level[t], v.priority[t]) && Behind(v, w, t)
       else w == v
  }

  /** A task that was not in a queue is behind the others of its level. */
  ghost predicate Behind(v: Tasks, w: Tasks, t: nat)
    requires v.Inv() && w.Inv() && t < w.top
  {
    var l := w.level[t];
    w.round.rings[l].queue == v.round.rings[l].queue + [t] && w.round.rings[l].now == v.round.rings[l].now
  }

  /** A task is the last in the queue of its level. */
  ghost predicate Last(w: Tasks, t: nat)
    requires w.Inv() && t < w.top
  {
    var q := w.round.rings[w.level[t]].queue;
    q != [] && q[|q| - 1] == t
  }

  /** The level asked for: the one given instead for a negative one, the last for one too high. */
  function Clamped(level: int, own: nat): nat {
    if level < 0 then own else if level > 3 then 3 else level
  }

  ghost predicate RunDone(v: Tasks, w: Tasks, t: int, level: int, priority: int) {
    && v.Inv() && w.Inv()
    && if 0 <= t < v.top then
         && OthersKept(v, w, t) && w.top == v.top && AtLowest(w.round)
         && RunsAt(w, t, Clamped(level, v.level[t]), if priority > 0 then priority else 1)
         && if v.flags[t] == Running && v.level[t] == w.level[t] then w.round.rings == v.round.rings
            else Behind(v, w, t)
       else w == v
  }

  ghost predicate CreateDone(v: Tasks, w: Tasks, level: int, priority: int) {
    && v.Inv() && w.Inv() && OthersKept(v, w, v.top) && w.top == v.top + 1 && AtLowest(w.round)
    && RunsAt(w, v.top, Clamped(level, 0), if priority > 0 then priority else 1) && Behind(v, w, v.top)
  }

  ghost predicate ResetDone(v: Tasks, w: Tasks, t: int, level: int, priority: int) {
    && v.Inv() && w.Inv()
    && if 0 <= t < v.top then
         && OthersKept(v, w, t) && w.top == v.top && AtLowest(w.round)
         && RunsAt(w, t, Clamped(level, 0), if priority > 0 then priority else 1)
         && if v.flags[t] == Running && v.level[t] == w.level[t] then Last(w, t) else Behind(v, w, t)
       else w == v
  }

  lemma SwitchedLowest(r: Round)
    requires |r.rings| == LEVELS
    ensures AtLowest(Switched(r)) && Switched(r).rings == r.rings
  {
    forall k | 0 <= k < LEVELS && r.rings[k].queue != []
      ensures FirstBusy(r.rings, 0, LEVELS) <= k
    {
      FirstIsNearest(r.rings, 0, LEVELS, k);
    }
  }

  /** A task is in the queues that its flag and its level say. */
  lemma QueuesSay(w: Tasks, t: nat)
    requires w.Inv()
    ensures forall l :: 0 <= l < LEVELS ==> (t in w.round.rings[l].queue <==> w.IsRunning(t) && w.level[t] == l)
  {
  }

  lemma InvShape(v: Tasks)
    requires v.Inv()
    ensures v.Shape()
  {
  }

  /** A running task is where its level says, in no other queue. */
  lemma RunsThere(w: Tasks, t: nat)
    requires w.Inv() && w.IsRunning(t)
    ensures RunsAt(w, t, w.level[t], w.priority[t])
  {
    QueuesSay(w, t);
  }

  /** Choosing the current level anew leaves the queues as they were. */
  lemma BehindAfter(v: Tasks, w: Tasks, w1: Tasks, t: nat)
    requires v.Inv() && w.Inv() && t < w.top == w1.top && w1.Shape()
    requires w1.level == w.level && w1.round.rings == w.round.rings
    requires w1.round.rings[w1.level[t]].queue == v.round.rings[w1.level[t]].queue + [t]
    requires w1.round.rings[w1.level[t]].now == v.round.rings[w1.level[t]].now
    ensures Behind(v, w, t)
  {
  }

  /** Only the entries of one task were written. */
  lemma OthersFrom(v: Tasks, w: Tasks, t: nat, flag: Flag, l: nat, p: int)
    requires Undisturbed(v, w, t) && t < MAX_TASKS
    requires w.flags == v.flags[t := flag] && w.level == v.level[t := l] && w.priority == v.priority[t := p]
    ensures OthersKept(v, w, t)
  {
  }

  /** What a sleep of a running task leaves, and which level comes next. */
  lemma SleptPlace(v: Tasks, t: nat)
    requires v.Inv() && v.IsRunning(t)
    ensures var w := Slept(v, t);
      && w.Inv() && w.top == v.top && AtLowest(w.round)
      && w.flags == v.flags[t := Sleeping] && w.level == v.level && w.priority == v.priority
  {
    SleptKeeps(v, t);
    TakenKeeps(v, t);
    SwitchedLowest(Taken(v, t).round);
    hide AtLowest, Switched, Ring.Removed;
  }

  lemma SleptDone(v: Tasks, t: int)
    requires v.Inv()
    ensures SleepDone(v, Slept(v, t), t)
  {
    if 0 <= t < v.top && v.flags[t] == Running {
      SleptPlace(v, t);
      SleptUndisturbed(v, t);
      hide AtLowest, Slept, Undisturbed;
      QueuesSay(Slept(v, t), t);
    }
  }

  lemma WokenBehind(v: Tasks, t: nat)
    requires v.Inv() && t < v.top && v.flags[t] != Running
    ensures Woken(v, t).Inv() && Behind(v, Woken(v, t), t)
  {
    WokenKeeps(v, t);
    hide Tasks.Inv, Switched;
    BehindAfter(v, Woken(v, t), Given(v, t), t);
  }

  lemma WokenRuns(v: Tasks, t: nat)
    requires v.Inv() && t < v.top && v.flags[t] != Running
    ensures Woken(v, t).Inv() && RunsAt(Woken(v, t), t, v.level[t], v.priority[t]) && AtLowest(Woken(v, t).round)
  {
    WokenKeeps(v, t);
    SwitchedLowest(Given(v, t).round);
    hide AtLowest, Switched, RunsAt;
    RunsThere(Woken(v, t), t);
  }

  lemma WokenDone(v: Tasks, t: int)
    requires v.Inv()
    ensures WakeDone(v, Woken(v, t), t)
  {
    WokenKeeps(v, t);
    hide AtLowest, Switched, Undisturbed, RunsAt, Behind;
    if 0 <= t < v.top && v.flags[t] != Running {
      WokenUndisturbed(v, t);
      WokenRuns(v, t);
      WokenBehind(v, t);
    }
  }

  /** What a run request does before the current level is chosen anew. */
  lemma RanBefore(v: Tasks, t: nat, l: nat, p: int) returns (w: Tasks)
    requires v.Inv() && t < v.top && l < LEVELS
    ensures v.Shape() && w.Shape() && w.top == v.top
    ensures w.flags == v.flags[t := Running] && w.level == v.level[t := l] && w.priority == v.priority[t := p]
    ensures if v.flags[t] == Running && v.level[t] == l then w.round == v.round
            else w.round.rings[l].queue == v.round.rings[l].queue + [t] && w.round.rings[l].now == v.round.rings[l].now
    ensures v.flags[t] == Running ==> t in v.round.rings[v.level[t]].queue
    ensures var v1 := if v.flags[t] == Running && v.level[t] != l then Taken(v, t) else v;
      var v2 := v1.(level := v1.level[t := l], priority := v1.priority[t := p]);
      w == if v2.flags[t] != Running then Given(v2, t) else v2
  {
    InvShape(v);
    TakenWhenRunning(v, t);
    hide Tasks.Inv, Ring.Removed, Ring.Ok;
    var v1 := if v.flags[t] == Running && v.level[t] != l then Taken(v, t) else v;
    var v2 := v1.(level := v1.level[t := l], priority := v1.priority[t := p]);
    w := if v2.flags[t] != Running then Given(v2, t) else v2;
    assert v1.flags[t] == Running ==> v1.flags[t := Running] == v1.flags;
  }

  /** Where the task is after a run request, and which level comes next. */
  lemma RanPlace(v: Tasks, t: nat, level: int, priority: int)
    requires v.Inv() && t < v.top
    ensures var w := Ran(v, t, level, priority);
      && w.Inv() && w.top == v.top && AtLowest(w.round)
      && w.flags == v.flags[t := Running] && w.level == v.level[t := Clamped(level, v.level[t])]
      && w.priority == v.priority[t := if priority > 0 then priority else 1]
      && if v.flags[t] == Running && v.level[t] == w.level[t] then w.round.rings == v.round.rings
         else w.round.rings[w.level[t]].queue == v.round.rings[w.level[t]].queue + [t]
              && w.round.rings[w.level[t]].now == v.round.rings[w.level[t]].now
  {
    RanKeeps(v, t, level, priority);
    var w := RanBefore(v, t, LevelFor(v, t, level), if priority <= 0 then 1 else priority);
    SwitchedLowest(w.round);
    hide AtLowest, Switched, Taken, Given;
  }

  lemma RanDone(v: Tasks, t: int, level: int, priority: int)
    requires v.Inv()
    ensures RunDone(v, Ran(v, t, level, priority), t, level, priority)
  {
    RanKeeps(v, t, level, priority);
    if 0 <= t < v.top {
      hide AtLowest, Ran, Undisturbed, RunsAt, OthersKept;
      RanPlace(v, t, level, priority);
      RanUndisturbed(v, t, level, priority);
      var w := Ran(v, t, level, priority);
      OthersFrom(v, w, t, Running, w.level[t], w.priority[t]);
      RunsThere(w, t);
    }
  }

  lemma CreatedDone(v: Tasks, level: int, priority: int)
    requires v.Inv() && v.top < MAX_TASKS
    ensures CreateDone(v, Created(v, level, priority), level, priority)
  {
    CreatedKeeps(v, level, priority);
    CreatedUndisturbed(v, level, priority);
    TopKeeps(v);
    var v1 := v.(top := v.top + 1, flags := v.flags[v.top := Sleeping], level := v.level[v.top := 0],
                 priority := v.priority[v.top := 1]);
    RanDone(v1, v.top, level, priority);
    hide Tasks.Inv, AtLowest, Ran, Undisturbed;
  }

  /** Where the task is after a reset, and which level comes next. */
  lemma RestartedPlace(v: Tasks, t: nat, level: int, priority: int)
    requires v.Inv() && t < v.top
    ensures var w := Restarted(v, t, level, priority);
      && w.Inv() && w.top == v.top && AtLowest(w.round)
      && w.flags == v.flags[t := Running] && w.level == v.level[t := Clamped(level, 0)]
      && w.priority == v.priority[t := if priority > 0 then priority else 1]
      && (if v.flags[t] == Running && v.level[t] == w.level[t] then Last(w, t) else Behind(v, w, t))
  {
    RestartedKeeps(v, t, level, priority);
    RestartKeeps(v, t);
    var v1 := if v.flags[t] == Running then Taken(v, t) else v;
    var v2 := v1.(flags := v1.flags[t := Sleeping], level := v1.level[t := 0], priority := v1.priority[t := 1]);
    RanPlace(v2, t, level, priority);
    hide Tasks.Inv, AtLowest, Ran, Ring.Removed;
  }

  lemma RestartedDone(v: Tasks, t: int, level: int, priority: int)
    requires v.Inv()
    ensures ResetDone(v, Restarted(v, t, level, priority), t, level, priority)
  {
    if 0 <= t < v.top {
      hide AtLowest, Restarted, Undisturbed, RunsAt, Behind, Last, OthersKept;
      RestartedPlace(v, t, level, priority);
      RestartedUndisturbed(v, t, level, priority);
      var w := Restarted(v, t, level, priority);
      OthersFrom(v, w, t, Running, w.level[t], w.priority[t]);
      RunsThere(w, t);
    }
  }

  // ------------------------------------------------------------------ picking

  lemma NextKeeps(v: Tasks)
    requires v.Inv()
    ensures v.(round := Next(v.round).0).Inv()
    ensures Next(v.round).1 == -1 || (0 <= Next(v.round).1 && v.IsRunning(Next(v.round).1))
  {
    NextOk(v.round);
    var v1 := v.(round := Next(v.round).0);
    forall k: nat, x: nat | k < LEVELS
      ensures x in v1.round.rings[k].queue <==> v1.IsRunning(x) && v1.level[x] == k
    {
      assert x in v.round.rings[k].queue <==> v.IsRunning(x) && v.level[x] == k;
    }
    var l := Chosen(v.round);
    if l < LEVELS {
      var ring := v.round.rings[l];
      assert ring.queue[ring.now] in ring.queue;
    }
  }

  /** Every running task is picked within six calls for each task of its level; nothing is picked only
      when no task is running. */
  lemma RunningGetsPicked(v: Tasks, t: nat)
    requires v.Inv() && v.IsRunning(t)
    ensures PickedWithin(v.round, t, 6 * |v.round.rings[v.level[t]].queue|)
    ensures Next(v.round).1 != -1
  {
    assert t in v.round.rings[v.level[t]].queue;
    BoundedWaiting(v.round, v.level[t], t);
    IdleOnlyWhenEmpty(v.round);
  }

  // ------------------------------------------------------------------ the queues in place

  class TaskLevel {
    const tasks: array<nat>
    var running: nat
    var now: nat

    constructor ()
      ensures Valid() && fresh(tasks) && Ring() == TaskRounds.Ring([], 0)
    {
      tasks := new nat[MAX_TASKS];
      running, now := 0, 0;
    }

    ghost predicate Valid()
      reads this
    {
      tasks.Length == MAX_TASKS && running <= MAX_TASKS
    }

    ghost function Ring(): Ring
      requires Valid()
      reads this, tasks
    {
      TaskRounds.Ring(tasks[..running], now)
    }

    method Add(t: nat)
      requires Valid() && running < MAX_TASKS
      modifies this, tasks
      ensures Valid() && Ring() == old(Ring()).Appended(t)
    {
      tasks[running] := t;
      running := running + 1;
    }

    /** Where a task is in the queue; past its end when it is not there. */
    method Find(t: nat) returns (i: nat)
      requires Valid()
      ensures i <= running && t !in tasks[..i] && (i < running ==> tasks[i] == t)
    {
      i := 0;
      while i < running && tasks[i] != t
        invariant i <= running && t !in tasks[..i]
      {
        assert tasks[..i + 1] == tasks[..i] + [tasks[i]];
        i := i + 1;
      }
    }

    /** Moves the `n` tasks behind place `i` up by one. */
    method Close(i: nat, n: nat)
      requires Valid() && i + n < MAX_TASKS
      modifies tasks
      ensures tasks[..i + n] == old(tasks[..i]) + old(tasks[i + 1..i + n + 1])
    {
      ghost var q := tasks[..];
      for k := i to i + n
        invariant tasks[..k] == q[..i] + q[i + 1..k + 1] && tasks[k..] == q[k..]
      {
        assert tasks[k..][1] == q[k..][1];
        tasks[k] := tasks[k + 1];
        assert tasks[k + 1..] == q[k..][1..];
      }
    }

    /** Takes a task out, moving the ones behind it up. */
    method Remove(t: nat)
      requires Valid() && Ring().Ok() && t in Ring().queue
      modifies this, tasks
      ensures Valid() && Ring() == old(Ring()).Removed(IndexOf(old(Ring()).queue, t))
    {
      ghost var q := tasks[..running];
      var i := Find(t);
      assert tasks[..i] == q[..i];
      FirstIndex(q, t, i);
      running := running - 1;
      if i < now { now := now - 1; }
      if now >= running { now := 0; }
      assert tasks[i + 1..running + 1] == q[i + 1..];
      Close(i, running - i);
    }

    /** The task whose turn it is, the first one when the cursor is out of range; the cursor moves on. */
    method Pick() returns (t: nat)
      requires Valid() && running > 0
      modifies this`now
      ensures Valid()
      ensures var n := if old(now) < running then old(now) else 0;
        t == tasks[n] && Ring() == TaskRounds.Ring(tasks[..running], n).Advanced()
    {
      if now >= running { now := 0; }
      t := tasks[now];
      now := now + 1;
      if now >= running { now := 0; }
    }
  }

  lemma PrefixFree(q: seq<nat>, t: nat, k: nat)
    requires k <= |q| && t !in q[..k]
    ensures forall m :: 0 <= m < k ==> q[m] != t
  {
    forall m | 0 <= m < k
      ensures q[m] != t
    {
      assert q[..k][m] == q[m];
    }
  }

  lemma FirstIndex(q: seq<nat>, t: nat, i: nat)
    requires t in q && i <= |q| && t !in q[..i] && (i < |q| ==> q[i] == t)
    ensures i == IndexOf(q, t) < |q|
  {
    PrefixFree(q, t, i);
    PrefixFree(q, t, IndexOf(q, t));
  }
}
