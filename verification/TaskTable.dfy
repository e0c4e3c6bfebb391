/** The scheduler's own state, changed in place. */
module TaskTable {
  import opened TaskRounds
  import opened Scheduler

  lemma StartOk(v: Tasks)
    requires v.Shape() && v.top == 0
    requires v.round == Round([Ring([], 0), Ring([], 0), Ring([], 0), Ring([], 0)], 0, LEVEL0_QUOTA)
    ensures v.Inv()
  {
  }

  lemma QueueOk(v: Tasks, t: nat)
    requires v.Inv() && v.IsRunning(t)
    ensures v.Shape() && t in v.round.rings[v.level[t]].queue && v.round.rings[v.level[t]].Ok()
  {
    TakenKeeps(v, t);
  }

  lemma LevelOk(v: Tasks)
    requires v.Inv()
    ensures v.round.level < LEVELS == |v.round.rings| && v.Shape()
    ensures forall l :: 0 <= l < LEVELS ==> v.round.rings[l].now == 0 || v.round.rings[l].now < |v.round.rings[l].queue|
  {
  }

  lemma PlacedKeeps(v: Tasks, t: nat, l: nat, p: int)
    requires v.Inv() && t < v.top && l < LEVELS && (v.IsRunning(t) ==> v.level[t] == l)
    ensures v.(level := v.level[t := l], priority := v.priority[t := p]).Inv()
  {
    assert v.flags[t := v.flags[t]] == v.flags;
    if v.flags[t] != Running { RelevelKeeps(v, t, l, p, v.flags[t]); } else { SamePlace(v, t, p); }
  }

  lemma SearchStep(rings: seq<Ring>, l: nat, n: nat)
    requires |rings| == LEVELS && l < LEVELS && n > 0
    ensures FirstBusy(rings, l, n) == if rings[l].queue != [] then l else FirstBusy(rings, After(l), n - 1)
    ensures FirstBusy(rings, l, 0) == LEVELS
  {
  }

  lemma AfterSum(l: nat, step: nat)
    ensures After((l + step) % LEVELS) == (l + step + 1) % LEVELS
  {
  }

  method EmptyLevels() returns (ls: seq<TaskLevel>)
    ensures |ls| == LEVELS
    ensures forall l :: 0 <= l < LEVELS ==>
      fresh(ls[l]) && fresh(ls[l].tasks) && ls[l].Valid() && ls[l].Ring() == Ring([], 0)
    ensures forall i, j :: 0 <= i < j < LEVELS ==> ls[i] != ls[j] && ls[i].tasks != ls[j].tasks
  {
    ls := [];
    for k := 0 to LEVELS
      invariant |ls| == k
      invariant forall l :: 0 <= l < k ==>
        fresh(ls[l]) && fresh(ls[l].tasks) && ls[l].Valid() && ls[l].Ring() == Ring([], 0)
      invariant forall i, j :: 0 <= i < j < k ==> ls[i] != ls[j] && ls[i].tasks != ls[j].tasks
    {
      var level := new TaskLevel();
      ls := ls + [level];
    }
  }

  class TaskTable {
    const levels: seq<TaskLevel>
    const flags: array<Flag>
    const level: array<nat>
    const priority: array<int>
    var taskTop: nat
    var currentLevel: nat
    var currentQuota: nat

    ghost function Repr(): set<object> {
      {this, flags, level, priority} + (set l | l in levels) + (set l | l in levels :: l.tasks)
    }

    /** The levels and their queues are different objects. */
    ghost predicate Apart() {
      && |levels| == LEVELS && flags.Length == level.Length == priority.Length == MAX_TASKS
      && (forall i, j :: 0 <= i < j < LEVELS ==> levels[i] != levels[j] && levels[i].tasks != levels[j].tasks)
      && (forall i :: 0 <= i < LEVELS ==> levels[i].tasks != level)
    }

    ghost predicate Ready()
      reads Repr()
    {
      Apart() && (forall i :: 0 <= i < LEVELS ==> levels[i].Valid())
    }

    ghost function View(): Tasks
      requires Ready()
      reads Repr()
    {
      Tasks(Round([levels[0].Ring(), levels[1].Ring(), levels[2].Ring(), levels[3].Ring()], currentLevel, currentQuota),
            flags[..], level[..], priority[..], taskTop)
    }

    ghost predicate Valid()
      reads Repr()
    {
      Ready() && View().Inv()
    }

    constructor ()
      ensures Valid() && View().top == 0 && fresh(flags) && fresh(level) && fresh(priority)
      ensures forall l :: 0 <= l < LEVELS ==> fresh(levels[l]) && fresh(levels[l].tasks)
      ensures View().round == Round([Ring([], 0), Ring([], 0), Ring([], 0), Ring([], 0)], 0, LEVEL0_QUOTA)
    {
      var empty := EmptyLevels();
      levels := empty;
      flags := new Flag[MAX_TASKS](_ => Unused);
      level := new nat[MAX_TASKS](_ => 0);
      priority := new int[MAX_TASKS](_ => 0);
      taskTop, currentLevel, currentQuota := 0, 0, LEVEL0_QUOTA;
      new;
      hide Tasks.Inv;
      assert View().Shape();
      StartOk(View());
    }

    /** Puts a task at the back of its level's queue. */
    method Add(t: nat)
      requires Valid() && t < taskTop && flags[t] != Running
      modifies Repr()
      ensures Valid() && View() == Given(old(View()), t)
    {
      LevelOk(View());
      GivenKeeps(View(), t);
      hide Tasks.Inv;
      var l := level[t];
      ghost var rings := View().round.rings;
      levels[l].Add(t);
      flags[t] := Running;
      assert View().round.rings == rings[l := rings[l].Appended(t)];
    }

    method Remove(t: nat)
      requires Valid() && t < taskTop && flags[t] == Running
      modifies Repr()
      ensures old(t in View().round.rings[View().level[t]].queue)
      ensures Valid() && View() == Taken(old(View()), t)
    {
      hide Tasks.Inv, IndexOf, Ring.Removed, Ring.Ok;
      assert View().Shape() && View().IsRunning(t) by { LevelOk(View()); }
      TakenKeeps(View(), t);
      QueueOk(View(), t);
      var l := level[t];
      ghost var rings := View().round.rings;
      levels[l].Remove(t);
      flags[t] := Sleeping;
      assert View().round.rings == rings[l := rings[l].Removed(IndexOf(rings[l].queue, t))];
    }

    /** Back to the lowest level that has a task. */
    method SwitchSub()
      requires Valid()
      modifies this`currentLevel, this`currentQuota
      ensures Valid() && View() == old(View()).(round := Switched(old(View()).round))
    {
      SwitchedKeeps(View());
      ghost var v := View();
      for i := 0 to LEVELS
        invariant View() == v && Ready()
        invariant FirstBusy(v.round.rings, 0, LEVELS)
               == if i == LEVELS then LEVELS else FirstBusy(v.round.rings, i, LEVELS - i)
      {
        if levels[i].running > 0 {
          currentLevel, currentQuota := i, if i == 0 then LEVEL0_QUOTA else 1;
          return;
        }
      }
      currentLevel, currentQuota := 0, LEVEL0_QUOTA;
    }

    /** Writes down a task's level and priority; a running task keeps its level. */
    method Place(t: nat, l: nat, p: int)
      requires Valid() && t < taskTop && l < LEVELS && (flags[t] == Running ==> level[t] == l)
      modifies level, priority
      ensures Valid() && View() == old(View().(level := View().level[t := l], priority := View().priority[t := p]))
    {
      ghost var v := View();
      LevelOk(v);
      PlacedKeeps(v, t, l, p);
      hide Tasks.Inv;
      level[t] := l;
      priority[t] := p;
      assert View() == v.(level := v.level[t := l], priority := v.priority[t := p]);
    }

    method Run(t: int, level0: int, priority0: int)
      requires Valid()
      modifies Repr()
      ensures Valid() && View() == Ran(old(View()), t, level0, priority0)
      ensures RunDone(old(View()), View(), t, level0, priority0)
    {
      LevelOk(View());
      RanKeeps(View(), t, level0, priority0);
      RanDone(View(), t, level0, priority0);
      hide Tasks.Inv, Taken, Given, Switched, RunDone;
      if t < 0 || t >= taskTop { return; }
      assert View().flags[t] == flags[t] && View().level[t] == level[t];
      var l, p := level0, priority0;
      if l < 0 { l := level[t]; }
      if l >= LEVELS { l := LEVELS - 1; }
      if p <= 0 { p := 1; }
      if flags[t] == Running && level[t] != l { Remove(t); }
      Place(t, l, p);
      if flags[t] != Running { Add(t); }
      SwitchSub();
    }

    method Sleep(t: int)
      requires Valid()
      modifies Repr()
      ensures Valid() && View() == Slept(old(View()), t) && SleepDone(old(View()), View(), t)
    {
      SleptDone(View(), t);
      hide SleepDone;
      if t < 0 || t >= taskTop { return; }
      if flags[t] != Running { return; }
      Remove(t);
      SwitchSub();
    }

    method Wake(t: int)
      requires Valid()
      modifies Repr()
      ensures Valid() && View() == Woken(old(View()), t) && WakeDone(old(View()), View(), t)
    {
      WokenDone(View(), t);
      hide WakeDone;
      if t < 0 || t >= taskTop { return; }
      if flags[t] == Running { return; }
      Add(t);
      SwitchSub();
    }

    /** Enters a new task, asleep on level 0. */
    method Enter() returns (t: nat)
      requires Valid() && taskTop < MAX_TASKS
      modifies this`taskTop, flags, level, priority
      ensures Valid() && t == old(taskTop)
      ensures View() == old(View().(top := View().top + 1, flags := View().flags[View().top := Sleeping],
                                    level := View().level[View().top := 0],
                                    priority := View().priority[View().top := 1]))
    {
      ghost var v := View();
      TopKeeps(v);
      t := taskTop;
      taskTop := taskTop + 1;
      flags[t] := Sleeping;
      level[t] := 0;
      priority[t] := 1;
      assert View() == v.(top := v.top + 1, flags := v.flags[t := Sleeping], level := v.level[t := 0],
                          priority := v.priority[t := 1]);
    }

    /** A new task. With too many tasks the system stops. */
    method Create(level0: int, priority0: int) returns (t: nat)
      requires Valid() && taskTop < MAX_TASKS
      modifies Repr()
      ensures Valid() && t == old(taskTop) && View() == Created(old(View()), level0, priority0)
      ensures CreateDone(old(View()), View(), level0, priority0)
    {
      hide CreateDone, RunDone, Ran;
      CreatedDone(View(), level0, priority0);
      t := Enter();
      Run(t, level0, priority0);
    }

    method Reset(t: int, level0: int, priority0: int)
      requires Valid()
      modifies Repr()
      ensures Valid() && View() == Restarted(old(View()), t, level0, priority0)
      ensures ResetDone(old(View()), View(), t, level0, priority0)
    {
      hide Ran, Taken, ResetDone, RunDone;
      LevelOk(View());
      RestartedDone(View(), t, level0, priority0);
      hide Tasks.Inv;
      if t < 0 || t >= taskTop { return; }
      RestartKeeps(View(), t);
      if flags[t] == Running { Remove(t); }
      ghost var v := View();
      flags[t] := Sleeping;
      level[t] := 0;
      priority[t] := 1;
      assert View() == v.(flags := v.flags[t := Sleeping], level := v.level[t := 0], priority := v.priority[t := 1]);
      Run(t, level0, priority0);
    }

    /** The first busy level after the current one, going round; LEVELS if there is none. */
    method Search(ghost rings: seq<Ring>) returns (f: nat)
      requires |levels| == |rings| == LEVELS && currentLevel < LEVELS
      requires forall l :: 0 <= l < LEVELS ==> (levels[l].running > 0 <==> rings[l].queue != [])
      ensures f == FirstBusy(rings, After(currentLevel), LEVELS)
    {
      hide FirstBusy;
      f := LEVELS;
      var step := 1;
      while step <= LEVELS && f == LEVELS
        invariant 1 <= step <= LEVELS + 1 && f <= LEVELS
        invariant FirstBusy(rings, After(currentLevel), LEVELS) ==
                  if f < LEVELS then f else FirstBusy(rings, (currentLevel + step) % LEVELS, LEVELS + 1 - step)
      {
        var l := (currentLevel + step) % LEVELS;
        SearchStep(rings, l, LEVELS + 1 - step);
        AfterSum(currentLevel, step);
        if levels[l].running > 0 { f := l; }
        step := step + 1;
      }
      SearchStep(rings, (currentLevel + step) % LEVELS, 1);
    }

    /** Stays on the current level while its quota lasts, or moves on; LEVELS when no level is busy. */
    method Decide() returns (chosen: nat, quota: nat)
      requires Valid()
      ensures chosen == Chosen(View().round)
      ensures chosen < LEVELS ==> quota == if Stays(View().round) then currentQuota - 1 else Turns(chosen) - 1
    {
      LevelOk(View());
      hide Tasks.Inv, FirstBusy;
      ghost var rings := View().round.rings;
      assert forall l :: 0 <= l < LEVELS ==> rings[l] == levels[l].Ring();
      if levels[currentLevel].running > 0 && currentQuota > 0 {
        return currentLevel, currentQuota - 1;
      }
      chosen := Search(rings);
      quota := if chosen == 0 then LEVEL0_QUOTA - 1 else 0;
    }

    /** Takes the task whose turn it is on a level. */
    method PickFrom(chosen: nat, quota: nat) returns (t: nat)
      requires Valid() && chosen < LEVELS && levels[chosen].running > 0
      modifies this, levels[chosen]
      ensures Ready() && old(View().round.rings[chosen].Ok())
      ensures t == old(View().round.rings[chosen].queue[View().round.rings[chosen].now])
      ensures View() == old(View().(
        round := Round(View().round.rings[chosen := View().round.rings[chosen].Advanced()], chosen, quota)))
    {
      LevelOk(View());
      hide Tasks.Inv, FirstBusy, Ring.Advanced, Ring.Ok;
      ghost var rings := View().round.rings;
      currentLevel, currentQuota := chosen, quota;
      t := levels[chosen].Pick();
      assert View().round.rings == rings[chosen := rings[chosen].Advanced()];
    }

    /** Picks the task to run next, or -1. */
    method Pick() returns (t: int)
      requires Valid()
      modifies Repr()
      ensures Valid() && t == Next(old(View()).round).1
      ensures View() == old(View()).(round := Next(old(View()).round).0)
    {
      NextKeeps(View());
      hide Tasks.Inv, FirstBusy, Stays, Ring.Advanced;
      var chosen, quota := Decide();
      if chosen == LEVELS { return -1; }
      assert View().round.rings[chosen] == levels[chosen].Ring();
      t := PickFrom(chosen, quota);
    }

    /** Picks `n` times with nothing changing the queues in between. */
    method PickMany(n: nat) returns (picked: seq<int>)
      requires Valid()
      modifies Repr()
      ensures Valid() && View().flags == old(View().flags) && View().level == old(View().level)
      ensures AllServed(old(View()), picked, n)
    {
      hide Tasks.Inv, Next, TaskTable.Ready;
      picked := [];
      ghost var v := View();
      for k := 0 to n
        invariant Valid() && Follows(v, View(), picked, k)
      {
        FollowsStep(v, View(), picked, k);
        var t := Pick();
        picked := picked + [t];
      }
      FollowsAll(v, View(), picked, n);
    }
  }

  /** `w` is the state `k` picks after `v`, and `picked` is what they picked. */
  ghost predicate Follows(v: Tasks, w: Tasks, picked: seq<int>, k: nat) {
    && v.Inv() && w.Inv() && w.flags == v.flags && w.level == v.level && w.top == v.top
    && (forall t: nat, m: nat :: m >= k && PickedWithin(v.round, t, m) ==>
         t in picked || PickedWithin(w.round, t, m - k))
    && (forall t: nat :: v.IsRunning(t) ==> -1 !in picked)
  }

  lemma FollowsStep(v: Tasks, w: Tasks, picked: seq<int>, k: nat)
    requires Follows(v, w, picked, k)
    ensures Follows(v, w.(round := Next(w.round).0), picked + [Next(w.round).1], k + 1)
  {
    NextKeeps(w);
    var w1, picked1 := w.(round := Next(w.round).0), picked + [Next(w.round).1];
    forall t: nat, m: nat | m >= k + 1 && PickedWithin(v.round, t, m)
      ensures t in picked1 || PickedWithin(w1.round, t, m - (k + 1))
    {
      assert t in picked || PickedWithin(w.round, t, m - k);
    }
    if t: nat :| v.IsRunning(t) { RunningGetsPicked(w, t); }
  }

  /** Among `n` picks something always runs while a task is running, and every running task is there
      when `n` is at least six for each task of its level. */
  ghost predicate AllServed(v: Tasks, picked: seq<int>, n: nat)
    requires v.Inv()
  {
    forall t: nat :: v.IsRunning(t) ==> -1 !in picked && (n >= 6 * |v.round.rings[v.level[t]].queue| ==> t in picked)
  }

  lemma FollowsAll(v: Tasks, w: Tasks, picked: seq<int>, n: nat)
    requires Follows(v, w, picked, n)
    ensures AllServed(v, picked, n)
  {
    forall t: nat | v.IsRunning(t) && n >= 6 * |v.round.rings[v.level[t]].queue|
      ensures t in picked
    {
      RunningGetsPicked(v, t);
      Longer(v.round, t, 6 * |v.round.rings[v.level[t]].queue|, n);
    }
  }
}
