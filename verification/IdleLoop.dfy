/**
 The loop at the end of `kmain` in kernel/core/kernel.c, which schedules once more after every timer interrupt: the law
 of its turns, for any number of interrupts from any reachable state, and when its shares follow the priorities.
 */
module IdleLoop {
  import opened Words
  import opened AgentTypes
  import opened Tasks
  import Cyclic
  import SkipShares
  import SkipWheel
  import TaskSharing
  import Wheel

  /** All tasks are ready; those with a slice have time left, and those with an empty one have none. */
  predicate Supplied(k: Kernel) {
    && Ok(k) && k.tasks != []
    && forall i :: 0 <= i < |k.tasks| ==> TaskSupplied(k.tasks[i])
  }

  predicate TaskSupplied(t: Task) {
    t.state == Ready && (t.quantum == 0 <==> Slice(t.priority) == 0)
  }

  /** One interrupt and one round of the loop. */
  function Round(k: Kernel): (r: Kernel)
    requires Ok(k)
    ensures Ok(r)
  {
    Schedule(Timer(k))
  }

  function Rounds(k: Kernel, m: nat): (r: Kernel)
    requires Ok(k)
    ensures Ok(r)
    decreases m
  {
    if m == 0 then k else Rounds(Round(k), m - 1)
  }

  /** At how many of the next m interrupts task `id` is the current one. */
  function RoundsHeld(k: Kernel, id: nat, m: nat): nat
    requires Ok(k)
    decreases m
  {
    if m == 0 then 0 else (if k.current == id then 1 else 0) + RoundsHeld(Round(k), id, m - 1)
  }

  /** The coming interrupt uses up the slice of the current task. */
  predicate RunsOut(k: Kernel) {
    k.current < |k.tasks| && k.tasks[k.current].quantum == 1
  }

  /** At how many of the next m interrupts the slice of task `id` runs out. */
  function Expiries(k: Kernel, id: nat, m: nat): nat
    requires Ok(k)
    decreases m
  {
    if m == 0 then 0 else (if RunsOut(k) && k.current == id then 1 else 0) + Expiries(Round(k), id, m - 1)
  }

  function AllExpiries(k: Kernel, m: nat): nat
    requires Ok(k)
    decreases m
  {
    if m == 0 then 0 else (if RunsOut(k) then 1 else 0) + AllExpiries(Round(k), m - 1)
  }

  // ---------------------------------------------------------------- every reachable state

  lemma TimerKeepsSupplied(k: Kernel)
    requires Supplied(k)
    ensures Supplied(Timer(k))
  {
    var r := Timer(k);
    assert TaskSupplied(k.tasks[k.current]);
    forall i | 0 <= i < |r.tasks|
      ensures TaskSupplied(r.tasks[i])
    {
      assert TaskSupplied(k.tasks[i]);
    }
  }

  lemma SendKeepsSupplied(k: Kernel, dst: u32, kind: u32)
    requires Supplied(k)
    ensures Supplied(Send(k, dst, kind))
  {
    var r := Send(k, dst, kind);
    forall i | 0 <= i < |r.tasks|
      ensures TaskSupplied(r.tasks[i])
    {
      assert TaskSupplied(k.tasks[i]);
    }
  }

  lemma SpawnKeepsSupplied(k: Kernel, level: nat, priority: u32)
    requires Ok(k) && (k.tasks == [] || Supplied(k))
    ensures Supplied(Spawn(k, level, priority))
  {
    var r := Spawn(k, level, priority);
    forall i | 0 <= i < |r.tasks|
      ensures TaskSupplied(r.tasks[i])
    {
      assert i < |k.tasks| ==> TaskSupplied(k.tasks[i]);
    }
  }

  /** Over every run of spawns, sends, yields and timer interrupts, all tasks stay supplied. */
  lemma {:induction false} RunKeepsSupplied(k: Kernel, ops: seq<Op>)
    requires Ok(k) && (k.tasks == [] || Supplied(k))
    ensures Run(k, ops).tasks == [] || Supplied(Run(k, ops))
    decreases |ops|
  {
    if ops != [] {
      match ops[0] {
        case SpawnOp(level, priority) => SpawnKeepsSupplied(k, level, priority);
        case SendOp(dst, kind) =>
          if k.tasks != [] {
            SendKeepsSupplied(k, dst, kind);
          }
        case YieldOp =>
        case TimerOp =>
          if k.tasks != [] {
            TimerKeepsSupplied(k);
          }
      }
      RunKeepsSupplied(Step(k, ops[0]), ops[1..]);
    }
  }

  // ---------------------------------------------------------------- the loop as a wheel

  function Quanta(k: Kernel): seq<nat> {
    seq(|k.tasks|, i requires 0 <= i < |k.tasks| => k.tasks[i].quantum as nat)
  }

  function Position(k: Kernel): SkipWheel.State {
    SkipWheel.State(k.current, Quanta(k))
  }

  lemma ScheduleMovesOn(k: Kernel)
    requires Ok(k) && k.tasks != [] && k.tasks[SkipWheel.Succ(|k.tasks|, k.current)].state == Ready
    ensures Schedule(k) == k.(current := SkipWheel.Succ(|k.tasks|, k.current))
  {
    assert Cyclic.At(|k.tasks|, k.current, 0) == SkipWheel.Succ(|k.tasks|, k.current);
    assert ReadyFrom(k, 0) == 0;
  }

  lemma SuppliedIsOn(k: Kernel)
    requires Supplied(k)
    ensures SkipWheel.On(TaskSharing.Slices(k), Position(k))
  {
    forall i | 0 <= i < |k.tasks|
      ensures k.tasks[i].quantum == 0 <==> Slice(k.tasks[i].priority) == 0
    {
      assert TaskSupplied(k.tasks[i]);
    }
  }

  /** What the interrupt leaves of the quanta, and who is current before the loop schedules. */
  lemma TimerSpends(k: Kernel)
    requires Supplied(k)
    ensures var t, c, n := Timer(k), k.current, |k.tasks|;
            && |t.tasks| == n && TaskSharing.Slices(t) == TaskSharing.Slices(k)
            && Quanta(t) == Quanta(k)[c := SkipWheel.Spent(Slice(k.tasks[c].priority), k.tasks[c].quantum)]
            && t.current == if RunsOut(k) then SkipWheel.Succ(n, c) else c
  {
    var c, n := k.current, |k.tasks|;
    var next := SkipWheel.Succ(n, c);
    assert TaskSupplied(k.tasks[c]) && TaskSupplied(k.tasks[next]);
    if RunsOut(k) {
      ScheduleMovesOn(SetQuantum(k.(ticks := Timer(k).ticks), c, Slice(k.tasks[c].priority)));
    }
  }

  /** One round of the loop is one tick of a skipping wheel whose holders are the tasks. */
  lemma RoundTurnsWheel(k: Kernel)
    requires Supplied(k)
    ensures Supplied(Round(k)) && |Round(k).tasks| == |k.tasks| && TaskSharing.Slices(Round(k)) == TaskSharing.Slices(k)
    ensures SkipWheel.On(TaskSharing.Slices(k), Position(k))
    ensures Position(Round(k)) == SkipWheel.Next(TaskSharing.Slices(k), Position(k))
  {
    var t := Timer(k);
    SuppliedIsOn(k);
    TimerSpends(k);
    TimerKeepsSupplied(k);
    assert TaskSupplied(t.tasks[SkipWheel.Succ(|t.tasks|, t.current)]);
    ScheduleMovesOn(t);
    assert Quanta(Round(k)) == Quanta(t) && |Quanta(t)| == |t.tasks|;
  }

  lemma {:induction false} RoundsKeepSupplied(k: Kernel, m: nat)
    requires Supplied(k)
    ensures var r := Rounds(k, m);
            Supplied(r) && |r.tasks| == |k.tasks| && TaskSharing.Slices(r) == TaskSharing.Slices(k)
    decreases m
  {
    if m > 0 {
      RoundTurnsWheel(k);
      RoundsKeepSupplied(Round(k), m - 1);
    }
  }

  /** The wheel that the loop turns, with its slices, as one value. */
  predicate Turns(k: Kernel, lens: seq<nat>, w: SkipWheel.State) {
    Supplied(k) && TaskSharing.Slices(k) == lens && Position(k) == w && SkipWheel.On(lens, w)
  }

  lemma RoundTurns(k: Kernel, lens: seq<nat>, w: SkipWheel.State)
    requires Turns(k, lens, w)
    ensures Turns(Round(k), lens, SkipWheel.Next(lens, w))
  {
    RoundTurnsWheel(k);
  }

  lemma {:induction false} RoundsTurn(k: Kernel, lens: seq<nat>, w: SkipWheel.State, m: nat)
    requires Turns(k, lens, w)
    ensures Turns(Rounds(k, m), lens, SkipWheel.Spin(lens, w, m))
    decreases m
  {
    if m > 0 {
      RoundTurns(k, lens, w);
      RoundsTurn(Round(k), lens, SkipWheel.Next(lens, w), m - 1);
    }
  }

  lemma RoundsSpinWheel(k: Kernel, m: nat)
    requires Supplied(k)
    ensures SkipWheel.On(TaskSharing.Slices(k), Position(k))
    ensures Position(Rounds(k, m)) == SkipWheel.Spin(TaskSharing.Slices(k), Position(k), m)
  {
    SuppliedIsOn(k);
    RoundsTurn(k, TaskSharing.Slices(k), Position(k), m);
  }

  lemma {:induction false} RoundsFollowWheel(k: Kernel, id: nat, m: nat)
    requires Supplied(k)
    ensures var lens, w := TaskSharing.Slices(k), Position(k);
            && SkipWheel.On(lens, w)
            && RoundsHeld(k, id, m) == SkipWheel.Held(lens, w, id, m)
            && Expiries(k, id, m) == SkipWheel.Expiries(lens, w, id, m)
            && AllExpiries(k, m) == SkipWheel.AllExpiries(lens, w, m)
    decreases m
  {
    RoundTurnsWheel(k);
    if m > 0 {
      RoundsFollowWheel(Round(k), id, m - 1);
    }
  }

  // ---------------------------------------------------------------- the laws

  /**
   The law of the turns, for every number of interrupts: each time the turn goes round the n tasks, it either comes to
   task i or passes over it because the slice of its predecessor ran out.
   */
  lemma {:induction false} TurnsLaw(k: Kernel, i: nat, m: nat)
    requires Supplied(k) && i < |k.tasks|
    ensures var n, r := |k.tasks|, Rounds(k, m);
            && |r.tasks| == n
            && n * (RoundsHeld(k, i, m) + Expiries(k, SkipWheel.Pred(n, i), m)) + SkipWheel.Distance(n, k.current, i)
               == m + AllExpiries(k, m) + SkipWheel.Distance(n, r.current, i)
  {
    RoundsKeepSupplied(k, m);
    RoundsSpinWheel(k, m);
    RoundsFollowWheel(k, i, m);
    RoundsFollowWheel(k, SkipWheel.Pred(|k.tasks|, i), m);
    SkipWheel.TurnsLaw(TaskSharing.Slices(k), Position(k), i, m);
  }

  /**
   The law of the slices: a task is current for as many interrupts as its expired slices and its quantum account for.
   */
  lemma {:induction false} SlicesLaw(k: Kernel, i: nat, m: nat)
    requires Supplied(k) && i < |k.tasks|
    ensures var r, s := Rounds(k, m), Slice(k.tasks[i].priority);
            && i < |r.tasks|
            && (s > 0 ==> RoundsHeld(k, i, m) + r.tasks[i].quantum == k.tasks[i].quantum + s * Expiries(k, i, m))
            && (s == 0 ==> Expiries(k, i, m) == 0)
  {
    var lens, w := TaskSharing.Slices(k), Position(k);
    RoundsKeepSupplied(k, m);
    RoundsSpinWheel(k, m);
    RoundsFollowWheel(k, i, m);
    if lens[i] > 0 {
      SkipWheel.SlicesLaw(lens, w, i, m);
      assert Quanta(Rounds(k, m))[i] == Rounds(k, m).tasks[i].quantum;
    } else {
      SkipWheel.EmptyNeverExpires(lens, w, i, m);
    }
  }

  /** While no slice runs out, every task is current for exactly one of any n interrupts in a row. */
  lemma {:induction false} OnceEach(k: Kernel, i: nat)
    requires Supplied(k) && i < |k.tasks| && AllExpiries(k, |k.tasks|) == 0
    ensures RoundsHeld(k, i, |k.tasks|) == 1
  {
    RoundsFollowWheel(k, i, |k.tasks|);
    SkipWheel.OnceEach(TaskSharing.Slices(k), Position(k), i);
  }

  /** However many interrupts have passed, every task has had its slice's part of them, up to a fixed error. */
  ghost predicate Proportional(k: Kernel)
    requires Ok(k)
  {
    exists error: nat :: ProportionalUpTo(k, error)
  }

  ghost predicate ProportionalUpTo(k: Kernel, error: nat)
    requires Ok(k)
  {
    forall i: nat, m: nat {:trigger ShareAt(k, error, i, m)} :: i < |k.tasks| ==> ShareAt(k, error, i, m)
  }

  predicate ShareAt(k: Kernel, error: nat, i: nat, m: nat)
    requires Ok(k) && i < |k.tasks|
  {
    SkipShares.Within(Wheel.Sum(TaskSharing.Slices(k)) * RoundsHeld(k, i, m) - m * Slice(k.tasks[i].priority), error)
  }

  lemma ShareIsNear(k: Kernel, error: nat, i: nat, m: nat)
    requires Supplied(k) && i < |k.tasks|
    ensures SkipWheel.On(TaskSharing.Slices(k), Position(k))
    ensures ShareAt(k, error, i, m) <==> SkipShares.NearAt(TaskSharing.Slices(k), Position(k), error, i, m)
  {
    RoundsFollowWheel(k, i, m);
    assert TaskSharing.Slices(k)[i] == Slice(k.tasks[i].priority);
  }

  lemma ProportionalIsNear(k: Kernel, error: nat)
    requires Supplied(k)
    ensures SkipWheel.On(TaskSharing.Slices(k), Position(k))
    ensures ProportionalUpTo(k, error) <==> SkipShares.Near(TaskSharing.Slices(k), Position(k), error)
  {
    var lens, w := TaskSharing.Slices(k), Position(k);
    SuppliedIsOn(k);
    if ProportionalUpTo(k, error) {
      forall i: nat, m: nat {:trigger SkipShares.NearAt(lens, w, error, i, m)} | i < |lens|
        ensures SkipShares.NearAt(lens, w, error, i, m)
      {
        assert ShareAt(k, error, i, m);
        ShareIsNear(k, error, i, m);
      }
    }
    if SkipShares.Near(lens, w, error) {
      forall i: nat, m: nat {:trigger ShareAt(k, error, i, m)} | i < |k.tasks|
        ensures ShareAt(k, error, i, m)
      {
        assert SkipShares.NearAt(lens, w, error, i, m);
        ShareIsNear(k, error, i, m);
      }
    }
  }

  /** Ten times a priority, in 32 bits, is even. */
  lemma SliceIsNotOne(p: u32)
    ensures Slice(p) != 1
  {
    var q := p * 10 / TWO_32;
    assert p * 10 == TWO_32 * q + Slice(p);
  }

  /**
   From every reachable state: the loop of `kmain` shares the processor in proportion to the slices, and so to the
   priorities, if and only if all slices are equal.
   */
  lemma {:induction false} ProportionalIff(k: Kernel)
    requires Supplied(k)
    ensures Proportional(k) <==> SkipShares.AllEqual(TaskSharing.Slices(k))
  {
    var lens, w := TaskSharing.Slices(k), Position(k);
    SuppliedIsOn(k);
    forall i | 0 <= i < |lens|
      ensures lens[i] != 1
    {
      SliceIsNotOne(k.tasks[i].priority);
    }
    SkipShares.ProportionalIff(lens, w);
    if Proportional(k) {
      var error: nat :| ProportionalUpTo(k, error);
      ProportionalIsNear(k, error);
    }
    if SkipShares.Proportional(lens, w) {
      var error: nat :| SkipShares.Near(lens, w, error);
      ProportionalIsNear(k, error);
    }
  }

  // ---------------------------------------------------------------- what happens at boot

  /** The agents of `kmain`, as the wheel sees them when its loop begins. */
  lemma BootWheel()
    ensures var k := Schedule(TaskSharing.BOOTED);
            && Supplied(k) && Position(k) == SkipWheel.State(1, [100, 80, 50, 30, 10])
            && TaskSharing.Slices(k) == [100, 80, 50, 30, 10]
  {
    ScheduleMovesOn(TaskSharing.BOOTED);
  }

  /** Holders with full slices of 100, 80, 50, 30 and 10 units. */
  predicate BootCounts(h: seq<nat>, x: seq<nat>, m: nat) {
    && |h| == |x| == 5
    && 100 * x[0] <= h[0] && 80 * x[1] <= h[1] && 50 * x[2] <= h[2] && 30 * x[3] <= h[3] && h[4] <= 10 * x[4] + 9
    && (forall i, j :: 0 <= i < 5 && 0 <= j < 5 ==>
                         h[i] + x[SkipWheel.Pred(5, i)] <= h[j] + x[SkipWheel.Pred(5, j)] + 1)
    && 5 * (h[4] + x[3] + 1) > m
  }

  lemma BootArithmetic(h: seq<nat>, x: seq<nat>, m: nat, j: nat)
    requires BootCounts(h, x, m) && 1 <= j < 5
    ensures 100 * (h[j] - h[0]) > m - 300
  {
    assert h[0] + x[4] <= h[j] + x[j - 1] + 1;
    assert h[j - 1] <= h[4] + x[3] + 1;
    assert h[3] + x[2] <= h[4] + x[3] + 1;
  }

  lemma BootCountsHold(lens: seq<nat>, w: SkipWheel.State, h: seq<nat>, x: seq<nat>, m: nat)
    requires lens == [100, 80, 50, 30, 10] && SkipWheel.On(lens, w) && w.quanta == lens
    requires |h| == |x| == 5
    requires forall i :: 0 <= i < 5 ==> h[i] == SkipWheel.Held(lens, w, i, m)
                                        && x[i] == SkipWheel.Expiries(lens, w, i, m)
    ensures BootCounts(h, x, m)
  {
    var q := SkipWheel.Spin(lens, w, m).quanta;
    SkipWheel.QuantaStayBelow(lens, w, m);
    forall i | 0 <= i < 5
      ensures h[i] + q[i] == lens[i] + lens[i] * x[i] && 1 <= q[i] <= lens[i]
    {
      SkipWheel.SlicesLaw(lens, w, i, m);
    }
    forall i, j | 0 <= i < 5 && 0 <= j < 5
      ensures h[i] + x[SkipWheel.Pred(5, i)] <= h[j] + x[SkipWheel.Pred(5, j)] + 1
    {
      SkipWheel.TurnsBalance(lens, w, i, j, m);
    }
    SkipWheel.PassesAreMany(lens, w, 4, m);
  }

  /**
   At boot more priority does not mean more time: the agent of the highest priority falls behind every other one, by
   more than (m - 300) / 100 of the first m interrupts, however long the loop runs.
   */
  lemma HighestPriorityFallsBehind(m: nat, j: nat)
    requires 1 <= j < 5
    ensures var k := Schedule(Run(INITIAL, TaskSharing.BOOT));
            && |k.tasks| == 5 && (forall i :: 0 < i < 5 ==> k.tasks[i].priority < k.tasks[0].priority)
            && 100 * (RoundsHeld(k, j, m) - RoundsHeld(k, 0, m)) > m - 300
  {
    TaskSharing.BootState();
    BootWheel();
    var k := Schedule(TaskSharing.BOOTED);
    var lens, w := TaskSharing.Slices(k), Position(k);
    SuppliedIsOn(k);
    var h := seq(5, i requires 0 <= i < 5 => SkipWheel.Held(lens, w, i, m));
    var x := seq(5, i requires 0 <= i < 5 => SkipWheel.Expiries(lens, w, i, m));
    BootCountsHold(lens, w, h, x, m);
    BootArithmetic(h, x, m, j);
    RoundsFollowWheel(k, 0, m);
    RoundsFollowWheel(k, j, m);
  }
}
