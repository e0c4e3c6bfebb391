/** The one-slot handshake of two applications over shared memory: one atomic read or write of a
    shared word per step, in any order. `n` is how many items are passed. */
module Handshake {

  /** The shared words: the full flag, the value, the produced count and the done flag. */
  datatype Memory = Memory(full: nat, value: nat, produced: nat, done: nat)

  /** What the producer does next; the value is the item it is at. */
  datatype Producer = Clear0 | Clear1 | Clear2 | Clear3 | WaitEmpty(i: nat) | WriteValue(i: nat)
    | SetFull(i: nat) | WriteCount(i: nat) | WaitLast | SetDone | Ended

  /** What the consumer does next. */
  datatype Consumer = ReadDone | ReadFull | CheckFull | ReadValue | ClearFull(v: nat) | Left

  datatype State = State(mem: Memory, p: Producer, c: Consumer, count: nat, sum: nat, got: seq<nat>)

  datatype Turn = ProducerTurn | ConsumerTurn

  function Start(): State { State(Memory(0, 0, 0, 0), Clear0, ReadDone, 0, 0, []) }

  /** The producer's loop head: the next item, or the wait for the last one to be taken. */
  function Item(n: nat, i: nat): Producer {
    if i <= n then WaitEmpty(i) else WaitLast
  }

  function Produce(n: nat, s: State): State {
    var m := s.mem;
    match s.p
    case Clear0 => s.(mem := m.(full := 0), p := Clear1)
    case Clear1 => s.(mem := m.(value := 0), p := Clear2)
    case Clear2 => s.(mem := m.(produced := 0), p := Clear3)
    case Clear3 => s.(mem := m.(done := 0), p := Item(n, 1))
    case WaitEmpty(i) => if m.full != 0 then s else s.(p := WriteValue(i))
    case WriteValue(i) => s.(mem := m.(value := i), p := SetFull(i))
    case SetFull(i) => s.(mem := m.(full := 1), p := WriteCount(i))
    case WriteCount(i) => s.(mem := m.(produced := i), p := Item(n, i + 1))
    case WaitLast => if m.full != 0 then s else s.(p := SetDone)
    case SetDone => s.(mem := m.(done := 1), p := Ended)
    case Ended => s
  }

  function Consume(s: State): State {
    var m := s.mem;
    match s.c
    case ReadDone => s.(c := if m.done == 0 then CheckFull else ReadFull)
    case ReadFull => s.(c := if m.full != 0 then CheckFull else Left)
    case CheckFull => s.(c := if m.full == 1 then ReadValue else ReadDone)
    case ReadValue => s.(c := ClearFull(m.value))
    case ClearFull(v) =>
      s.(mem := m.(full := 0), c := ReadDone, count := s.count + 1, sum := s.sum + v, got := s.got + [v])
    case Left => s
  }

  function Step(n: nat, s: State, t: Turn): State {
    if t == ProducerTurn then Produce(n, s) else Consume(s)
  }

  function Run(n: nat, s: State, turns: seq<Turn>): State
    decreases |turns|
  {
    if turns == [] then s else Run(n, Step(n, s, turns[0]), turns[1..])
  }

  // ------------------------------------------------------------------ safety

  /** The first `k` numbers. */
  function Numbers(k: nat): (s: seq<nat>)
    ensures |s| == k
  {
    if k == 0 then [] else Numbers(k - 1) + [k]
  }

  /** How many items the producer has put into the slot. */
  function Published(n: nat, p: Producer): nat {
    match p
    case WaitEmpty(i) => if i > 0 then i - 1 else 0
    case WriteValue(i) => if i > 0 then i - 1 else 0
    case SetFull(i) => if i > 0 then i - 1 else 0
    case WriteCount(i) => i
    case WaitLast => n
    case SetDone => n
    case Ended => n
    case _ => 0
  }

  predicate AtItem(n: nat, p: Producer) {
    match p
    case WaitEmpty(i) => 1 <= i <= n
    case WriteValue(i) => 1 <= i <= n
    case SetFull(i) => 1 <= i <= n
    case WriteCount(i) => 1 <= i <= n
    case _ => true
  }

  /** The producer may write the slot, or will never again. */
  predicate Owns(p: Producer) {
    p.Clear0? || p.Clear1? || p.Clear2? || p.Clear3? || p.WriteValue? || p.SetFull? || p.SetDone? || p.Ended?
  }

  /** The consumer is taking an item. */
  predicate Taking(c: Consumer) { c.ReadValue? || c.ClearFull? }

  ghost predicate Inv(n: nat, s: State) {
    && AtItem(n, s.p) && s.mem.full <= 1
    && s.got == Numbers(s.count) && 2 * s.sum == s.count * (s.count + 1)
    && s.count + s.mem.full == Published(n, s.p)
    && (s.mem.full == 1 && !s.p.SetFull? ==> s.mem.value == s.count + 1)
    && (s.p.SetFull? ==> s.mem.value == s.p.i)
    && (Owns(s.p) ==> s.mem.full == 0)
    && (Taking(s.c) ==> s.mem.full == 1)
    && (s.c.ClearFull? ==> s.c.v == s.count + 1)
    && (s.mem.done == if s.p.Ended? then 1 else 0)
    && (s.c.ReadFull? || s.c.Left? ==> s.p.Ended?)
  }

  lemma ProduceKeeps(n: nat, s: State)
    requires Inv(n, s)
    ensures Inv(n, Produce(n, s)) && Produce(n, s).got == s.got
  {
    hide Numbers;
  }

  lemma ConsumeKeeps(n: nat, s: State)
    requires Inv(n, s)
    ensures Inv(n, Consume(s)) && s.got <= Consume(s).got
  {
    if s.c.ClearFull? { Triangle(s.count, s.sum); }
  }

  lemma Triangle(k: nat, sum: nat)
    requires 2 * sum == k * (k + 1)
    ensures 2 * (sum + (k + 1)) == (k + 1) * (k + 1 + 1)
  {
  }

  lemma StepKeeps(n: nat, s: State, t: Turn)
    requires Inv(n, s)
    ensures Inv(n, Step(n, s, t)) && s.got <= Step(n, s, t).got
  {
    hide Inv, Produce, Consume;
    ProduceKeeps(n, s);
    ConsumeKeeps(n, s);
  }

  lemma {:induction false} RunKeeps(n: nat, s: State, turns: seq<Turn>)
    requires Inv(n, s)
    ensures Inv(n, Run(n, s, turns))
    decreases |turns|
  {
    if turns != [] {
      StepKeeps(n, s, turns[0]);
      RunKeeps(n, Step(n, s, turns[0]), turns[1..]);
    }
  }

  lemma {:induction false} NumbersPrefix(k: nat, n: nat)
    requires k <= n
    ensures Numbers(k) <= Numbers(n)
  {
    if k < n { NumbersPrefix(k, n - 1); }
  }

  /** In every interleaving from zeroed memory the consumer has the first items in order, none lost
      and none twice; when it leaves it has them all. */
  lemma Delivered(n: nat, turns: seq<Turn>)
    ensures var s := Run(n, Start(), turns);
      && s.count <= n && s.got == Numbers(s.count) <= Numbers(n)
      && (s.c == Left ==> s.count == n && s.got == Numbers(n) && s.sum == n * (n + 1) / 2)
  {
    RunKeeps(n, Start(), turns);
    var s := Run(n, Start(), turns);
    NumbersPrefix(s.count, n);
    if s.c == Left { assert 2 * s.sum == n * (n + 1); }
  }

  // ------------------------------------------------------------------ it ends

  /** The steps the producer still has to take, not counting those in which it waits. */
  function ToDo(n: nat, p: Producer): nat
    requires AtItem(n, p)
  {
    match p
    case Clear0 => 4 * n + 6
    case Clear1 => 4 * n + 5
    case Clear2 => 4 * n + 4
    case Clear3 => 4 * n + 3
    case WaitEmpty(i) => 4 * (n - i) + 6
    case WriteValue(i) => 4 * (n - i) + 5
    case SetFull(i) => 4 * (n - i) + 4
    case WriteCount(i) => 4 * (n - i) + 3
    case WaitLast => 2
    case SetDone => 1
    case Ended => 0
  }

  /** The steps the consumer needs to empty a full slot. */
  function ToTake(c: Consumer): nat {
    match c
    case ReadDone => 4
    case CheckFull => 3
    case ReadValue => 2
    case ClearFull(_) => 1
    case _ => 0
  }

  /** The steps the consumer needs to leave once the done flag is up. */
  function ToLeave(c: Consumer): nat {
    match c
    case CheckFull => 3
    case ReadDone => 2
    case ReadFull => 1
    case _ => 0
  }

  function Rank(n: nat, s: State): nat
    requires AtItem(n, s.p)
  {
    6 * ToDo(n, s.p) + (if s.mem.full == 1 then ToTake(s.c) else 0) + if s.p.Ended? then ToLeave(s.c) else 4
  }

  /** The process that is not waiting for the other one. */
  function Helpful(s: State): Turn {
    if s.mem.full == 1 || s.p.Ended? then ConsumerTurn else ProducerTurn
  }

  /** A turn of the process that is not waiting brings the end nearer; a turn of the other one either
      does too or changes nothing about who is waiting. */
  lemma Nearer(n: nat, s: State, t: Turn)
    requires Inv(n, s)
    ensures Inv(n, Step(n, s, t))
    ensures var s1 := Step(n, s, t);
      || Rank(n, s1) < Rank(n, s)
      || (Rank(n, s1) == Rank(n, s) && (Rank(n, s) == 0 || (t != Helpful(s) && Helpful(s1) == Helpful(s))))
  {
    hide Numbers;
    StepKeeps(n, s, t);
  }

  lemma OverWhenZero(n: nat, s: State)
    requires Inv(n, s)
    ensures Rank(n, s) == 0 <==> s.p == Ended && s.c == Left
  {
  }

  lemma {:induction false} NeverFurther(n: nat, s: State, turns: seq<Turn>)
    requires Inv(n, s)
    ensures Inv(n, Run(n, s, turns)) && Rank(n, Run(n, s, turns)) <= Rank(n, s)
    decreases |turns|
  {
    if turns != [] {
      Nearer(n, s, turns[0]);
      NeverFurther(n, Step(n, s, turns[0]), turns[1..]);
    }
  }

  /** Any stretch in which both processes run brings the end nearer. */
  lemma {:induction false} StretchNearer(n: nat, s: State, turns: seq<Turn>)
    requires Inv(n, s) && Helpful(s) in turns
    ensures Inv(n, Run(n, s, turns)) && (Rank(n, Run(n, s, turns)) < Rank(n, s) || Rank(n, Run(n, s, turns)) == 0)
    decreases |turns|
  {
    var s1 := Step(n, s, turns[0]);
    Nearer(n, s, turns[0]);
    NeverFurther(n, s1, turns[1..]);
    if turns[0] != Helpful(s) && Rank(n, s1) == Rank(n, s) > 0 {
      StretchNearer(n, s1, turns[1..]);
    }
  }

  function RunAll(n: nat, s: State, stretches: seq<seq<Turn>>): State
    decreases |stretches|
  {
    if stretches == [] then s else RunAll(n, Run(n, s, stretches[0]), stretches[1..])
  }

  /** However the turns are dealt out, after enough stretches in which both processes run the producer
      has ended and the consumer has left. */
  lemma {:induction false} FairRunsEnd(n: nat, s: State, stretches: seq<seq<Turn>>)
    requires Inv(n, s) && |stretches| >= Rank(n, s)
    requires forall k :: 0 <= k < |stretches| ==> ProducerTurn in stretches[k] && ConsumerTurn in stretches[k]
    ensures RunAll(n, s, stretches).p == Ended && RunAll(n, s, stretches).c == Left
    decreases |stretches|
  {
    OverWhenZero(n, s);
    if stretches != [] {
      var t := Helpful(s);
      assert t in stretches[0] by { assert t == ProducerTurn || t == ConsumerTurn; }
      StretchNearer(n, s, stretches[0]);
      FairRunsEnd(n, Run(n, s, stretches[0]), stretches[1..]);
    }
  }

  /** From zeroed memory: every fair run ends with all items delivered. */
  lemma FairRunsDeliver(n: nat, stretches: seq<seq<Turn>>)
    requires |stretches| >= 24 * n + 40
    requires forall k :: 0 <= k < |stretches| ==> ProducerTurn in stretches[k] && ConsumerTurn in stretches[k]
    ensures var s := RunAll(n, Start(), stretches);
      s.c == Left && s.got == Numbers(n) && s.sum == n * (n + 1) / 2
  {
    FairRunsEnd(n, Start(), stretches);
    RunAllKeeps(n, Start(), stretches);
    var s := RunAll(n, Start(), stretches);
    assert 2 * s.sum == n * (n + 1);
  }

  lemma {:induction false} RunAllKeeps(n: nat, s: State, stretches: seq<seq<Turn>>)
    requires Inv(n, s)
    ensures Inv(n, RunAll(n, s, stretches))
    decreases |stretches|
  {
    if stretches != [] {
      RunKeeps(n, s, stretches[0]);
      RunAllKeeps(n, Run(n, s, stretches[0]), stretches[1..]);
    }
  }
}
