/** Weighted round robin of kernel/core/kernel.c under timer interrupts alone. */
module TaskSharing {
  import opened Words
  import opened AgentTypes
  import opened Tasks
  import Cyclic
  import Wheel

  /** The time slices, by task id. */
  function Slices(k: Kernel): seq<nat> {
    seq(|k.tasks|, i requires 0 <= i < |k.tasks| => Slice(k.tasks[i].priority))
  }

  /** All tasks are ready and hold a full quantum, but the current one may have used up some of it. */
  predicate TakingTurns(k: Kernel) {
    && Ok(k) && k.tasks != []
    && (forall i :: 0 <= i < |k.tasks| ==>
                      k.tasks[i].state == Ready && k.tasks[i].quantum <= Slice(k.tasks[i].priority))
    && (forall i :: 0 <= i < |k.tasks| && i != k.current ==> k.tasks[i].quantum == Slice(k.tasks[i].priority))
  }

  predicate FullSlices(k: Kernel) {
    TakingTurns(k) && k.tasks[k.current].quantum == Slice(k.tasks[k.current].priority)
  }

  /** The successor of the current task in the ring of ids. */
  function After(k: Kernel): nat
    requires Ok(k) && k.tasks != []
  {
    if k.current + 1 < |k.tasks| then k.current + 1 else 0
  }

  lemma TimerWithinSlice(k: Kernel)
    requires TakingTurns(k)
    ensures k.tasks[k.current].quantum > 1 ==>
              && Timer(k).current == k.current && Slices(Timer(k)) == Slices(k) && TakingTurns(Timer(k))
              && Timer(k).tasks[k.current].quantum == k.tasks[k.current].quantum - 1
    ensures k.tasks[k.current].quantum == 1 ==>
              Timer(k).current == After(k) && Slices(Timer(k)) == Slices(k) && FullSlices(Timer(k))
    ensures k.tasks[k.current].quantum == 0 ==> Timer(k) == k.(ticks := Timer(k).ticks)
  {
    if k.tasks[k.current].quantum == 1 {
      var k' := SetQuantum(k.(ticks := Wrap64(k.ticks + 1)), k.current, Slice(k.tasks[k.current].priority));
      assert ReadyFrom(k', 0) == 0;
    }
  }

  function Timers(k: Kernel, n: nat): (r: Kernel)
    requires Ok(k)
    ensures Ok(r)
    decreases n
  {
    if n == 0 then k else Timers(Timer(k), n - 1)
  }

  /** At how many of the next n timer interrupts task `id` is the current one. */
  function TicksHeld(k: Kernel, id: nat, n: nat): nat
    requires Ok(k)
    decreases n
  {
    if n == 0 then 0 else (if k.current == id then 1 else 0) + TicksHeld(Timer(k), id, n - 1)
  }

  /** The kernel seen as a wheel whose holders are its tasks. */
  function Position(k: Kernel): Wheel.State
    requires TakingTurns(k)
  {
    Wheel.State(k.current, k.tasks[k.current].quantum)
  }

  /** The current task has time left, and no slice is empty. */
  predicate Turning(k: Kernel) {
    TakingTurns(k) && k.tasks[k.current].quantum > 0 && Wheel.Positive(Slices(k))
  }

  lemma TimerTurnsWheel(k: Kernel)
    requires Turning(k)
    ensures Turning(Timer(k)) && Slices(Timer(k)) == Slices(k)
    ensures Wheel.On(Slices(k), Position(k)) && Position(Timer(k)) == Wheel.Next(Slices(k), Position(k))
  {
    TimerWithinSlice(k);
    var k' := Timer(k);
    assert Slices(k)[k'.current] == Slice(k'.tasks[k'.current].priority);
  }

  lemma {:induction false} TimersFollowWheel(k: Kernel, id: nat, n: nat)
    requires Turning(k)
    ensures Turning(Timers(k, n)) && Slices(Timers(k, n)) == Slices(k)
    ensures Wheel.On(Slices(k), Position(k))
    ensures Position(Timers(k, n)) == Wheel.Spin(Slices(k), Position(k), n)
    ensures TicksHeld(k, id, n) == Wheel.Visits(Slices(k), Position(k), id, n)
    decreases n
  {
    if n > 0 {
      var k' := Timer(k);
      TimerTurnsWheel(k);
      TimersFollowWheel(k', id, n - 1);
    }
  }

  /**
   Wherever the window begins, in one window of all slices together each task is current for exactly its own slice.
   */
  predicate Shares(k: Kernel, before: nat, id: nat)
    requires Ok(k) && id < |k.tasks|
  {
    TicksHeld(Timers(k, before), id, Wheel.Sum(Slices(k))) == Slice(k.tasks[id].priority)
  }

  lemma WeightedShares(k: Kernel, before: nat, id: nat)
    requires Turning(k) && id < |k.tasks|
    ensures Shares(k, before, id)
  {
    TimersFollowWheel(k, id, before);
    var t := Timers(k, before);
    TimersFollowWheel(t, id, Wheel.Sum(Slices(k)));
    Wheel.Revolution(Slices(k), Position(t), id);
  }

  /** The cyclic order of the turns: after its slice, the task with the next id is current with a full slice. */
  lemma {:induction false} NextInOrder(k: Kernel, n: nat)
    requires FullSlices(k) && Slice(k.tasks[k.current].priority) > 0
    requires n <= Slice(k.tasks[k.current].priority)
    ensures var t := Timers(k, n);
            && Slices(t) == Slices(k)
            && if n < Slice(k.tasks[k.current].priority)
               then TakingTurns(t) && t.current == k.current
                    && t.tasks[t.current].quantum == Slice(k.tasks[k.current].priority) - n
               else FullSlices(t) && t.current == After(k)
  {
    if n > 0 {
      NextInOrder(k, n - 1);
      TimersLast(k, n - 1);
      var t := Timers(k, n - 1);
      assert Slices(t)[k.current] == Slices(k)[k.current];
      TimerWithinSlice(t);
    }
  }

  lemma {:induction false} TimersLast(k: Kernel, n: nat)
    requires Ok(k)
    ensures Timers(k, n + 1) == Timer(Timers(k, n))
    decreases n
  {
    if n > 0 {
      TimersLast(Timer(k), n - 1);
    }
  }

  lemma {:induction false} TimersAdd(k: Kernel, a: nat, b: nat)
    requires Ok(k)
    ensures Timers(k, a + b) == Timers(Timers(k, a), b)
    decreases a
  {
    if a > 0 {
      TimersAdd(Timer(k), a - 1, b);
    }
  }

  /** A current task with an empty quantum keeps the processor for good. */
  lemma {:induction false} EmptyQuantumHolds(k: Kernel, n: nat)
    requires Ok(k) && k.tasks != [] && k.tasks[k.current].quantum == 0
    ensures Timers(k, n).current == k.current && TicksHeld(k, k.current, n) == n
    decreases n
  {
    if n > 0 {
      EmptyQuantumHolds(Timer(k), n - 1);
    }
  }

  /** If some slice is empty, the turn reaches such a task. */
  lemma {:induction false} EmptySliceReached(k: Kernel, j: nat) returns (at: nat)
    requires FullSlices(k) && j < |k.tasks| && Slice(k.tasks[j].priority) == 0
    ensures var t := Timers(k, at);
            FullSlices(t) && Slices(t) == Slices(k) && Slice(t.tasks[t.current].priority) == 0
    decreases if j == k.current then 0 else 1 + Cyclic.Pos(|k.tasks|, k.current, j)
  {
    if Slice(k.tasks[k.current].priority) == 0 {
      at := 0;
    } else {
      var n := Slice(k.tasks[k.current].priority);
      NextInOrder(k, n);
      var t := Timers(k, n);
      assert |Slices(t)| == |Slices(k)| && Slices(t)[j] == Slices(k)[j];
      at := EmptySliceReached(t, j);
      TimersAdd(k, n, at);
      at := n + at;
    }
  }

  /**
   Starting from full slices that are not all empty, the processor is shared in proportion to the slices, in every
   window and for every task, exactly when no slice is empty.
   */
  lemma WeightedSharesIff(k: Kernel)
    requires FullSlices(k) && Wheel.Sum(Slices(k)) > 0
    ensures (forall before: nat, id: nat :: id < |k.tasks| ==> Shares(k, before, id)) <==>
            (forall i :: 0 <= i < |k.tasks| ==> Slice(k.tasks[i].priority) > 0)
  {
    if forall i :: 0 <= i < |k.tasks| ==> Slice(k.tasks[i].priority) > 0 {
      forall before: nat, id: nat | id < |k.tasks| ensures Shares(k, before, id) {
        WeightedShares(k, before, id);
      }
    } else {
      var j :| 0 <= j < |k.tasks| && Slice(k.tasks[j].priority) == 0;
      var at := EmptySliceReached(k, j);
      var t := Timers(k, at);
      EmptyQuantumHolds(t, Wheel.Sum(Slices(k)));
      assert |Slices(t)| == |Slices(k)| && Slices(t)[t.current] == Slices(k)[t.current];
      assert !Shares(k, at, t.current);
    }
  }

  /** The slice is empty for two priorities only, of which the documented range 1 to 10 contains none. */
  lemma EmptySliceIff(p: u32)
    ensures Slice(p) == 0 <==> p == 0 || p == 0x8000_0000
  {
    var q := p * 10 / TWO_32;
    assert p * 10 == TWO_32 * q + Slice(p);
    assert 0 <= q < 10;
  }

  /** Freshly spawned tasks have full slices. */
  lemma {:induction false} SpawnsGiveFullSlices(k: Kernel, ops: seq<Op>)
    requires Ok(k) && (k.tasks == [] || FullSlices(k))
    requires forall i :: 0 <= i < |ops| ==> ops[i].SpawnOp?
    ensures ops != [] || k.tasks != [] ==> FullSlices(Run(k, ops))
    decreases |ops|
  {
    if ops != [] {
      SpawnsGiveFullSlices(Step(k, ops[0]), ops[1..]);
    }
  }

  /** What `kmain` spawns. */
  const BOOT: seq<Op> := [SpawnOp(0, 10), SpawnOp(1, 8), SpawnOp(2, 5), SpawnOp(3, 3), SpawnOp(4, 1)]

  const BOOTED := Kernel([Task(0, 10, 100, Ready, []), Task(1, 8, 80, Ready, []), Task(2, 5, 50, Ready, []),
                          Task(3, 3, 30, Ready, []), Task(4, 1, 10, Ready, [])], 0, [], 0)

  lemma BootState()
    ensures Run(INITIAL, BOOT) == BOOTED
  {
    var k1 := Step(INITIAL, BOOT[0]);
    var k2 := Step(k1, BOOT[1]);
    var k3 := Step(k2, BOOT[2]);
    var k4 := Step(k3, BOOT[3]);
    var k5 := Step(k4, BOOT[4]);
    assert k5 == BOOTED;
    assert Run(k5, []) == k5;
    assert Run(k4, [BOOT[4]]) == k5;
    assert Run(k3, [BOOT[3], BOOT[4]]) == k5;
    assert Run(k2, [BOOT[2], BOOT[3], BOOT[4]]) == k5;
    assert Run(k1, [BOOT[1], BOOT[2], BOOT[3], BOOT[4]]) == k5;
  }

  lemma BootSlices()
    ensures Slices(BOOTED) == [100, 80, 50, 30, 10] && Wheel.Sum(Slices(BOOTED)) == 270
  {
    var l := Slices(BOOTED);
    assert l == [100, 80, 50, 30, 10];
    assert l[..4] == [100, 80, 50, 30] && l[..4][..3] == [100, 80, 50]
           && l[..3][..2] == [100, 80] && l[..2][..1] == [100];
    assert Wheel.Sum([100]) == 100;
    assert Wheel.Sum([100, 80]) == 180;
    assert Wheel.Sum([100, 80, 50]) == 230;
    assert Wheel.Sum([100, 80, 50, 30]) == 260;
  }

  /** The five tasks that `kmain` spawns: in any 270 timer interrupts they hold 100, 80, 50, 30 and 10 of them. */
  lemma BootShares(before: nat)
    ensures var boot := Run(INITIAL, BOOT);
            && |boot.tasks| == 5
            && forall id: nat :: id < 5 ==> TicksHeld(Timers(boot, before), id, 270) == [100, 80, 50, 30, 10][id]
  {
    BootState();
    BootSlices();
    forall id: nat | id < 5 ensures TicksHeld(Timers(BOOTED, before), id, 270) == [100, 80, 50, 30, 10][id] {
      WeightedShares(BOOTED, before, id);
      assert Slices(BOOTED)[id] == Slice(BOOTED.tasks[id].priority);
    }
  }
}
