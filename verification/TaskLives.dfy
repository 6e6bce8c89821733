/**
 What kernel/core/kernel.c records over a run: the time, the tasks spawned and the messages sent; and the end of a
 task's turn, from any state.
 */
module TaskLives {
  import opened Words
  import opened AgentTypes
  import opened Tasks
  import opened TaskSharing
  import Cyclic

  // ---------------------------------------------------------------- the clock

  /** How many of the operations are timer interrupts. */
  function Interrupts(ops: seq<Op>): nat {
    if ops == [] then 0 else (if ops[0] == TimerOp then 1 else 0) + Interrupts(ops[1..])
  }

  lemma StepClock(k: Kernel, op: Op, n: nat)
    requires Ok(k)
    ensures Wrap64(Step(k, op).ticks + n) == Wrap64(k.ticks + (if op == TimerOp then 1 else 0) + n)
  {
    WrapAdd64(k.ticks + 1, n);
  }

  /** Over every run the clock counts the timer interrupts, in 64 bits, and nothing else moves it. */
  lemma {:induction false} RunClock(k: Kernel, ops: seq<Op>)
    requires Ok(k)
    ensures Run(k, ops).ticks == Wrap64(k.ticks + Interrupts(ops))
    decreases |ops|
  {
    if ops != [] {
      StepClock(k, ops[0], Interrupts(ops[1..]));
      RunClock(Step(k, ops[0]), ops[1..]);
    }
  }

  // ---------------------------------------------------------------- the tasks

  datatype Spec = Spec(level: nat, priority: u32)

  function SpawnedBy(op: Op): seq<Spec> {
    if op.SpawnOp? then [Spec(op.level, op.priority)] else []
  }

  /** What the run spawns, oldest first. */
  function Spawned(ops: seq<Op>): seq<Spec> {
    if ops == [] then [] else SpawnedBy(ops[0]) + Spawned(ops[1..])
  }

  function SpecsOf(tasks: seq<Task>): (specs: seq<Spec>)
    ensures |specs| == |tasks|
  {
    seq(|tasks|, i requires 0 <= i < |tasks| => Spec(tasks[i].level, tasks[i].priority))
  }

  function FirstTasks(specs: seq<Spec>): seq<Spec> {
    if |specs| <= 256 then specs else specs[..256]
  }

  lemma FirstOfFirst(a: seq<Spec>, b: seq<Spec>, c: seq<Spec>)
    ensures FirstTasks(FirstTasks(a + b) + c) == FirstTasks(a + (b + c))
  {
    assert a + (b + c) == a + b + c;
  }

  predicate AllReady(k: Kernel) {
    forall i :: 0 <= i < |k.tasks| ==> k.tasks[i].state == Ready
  }

  lemma StepKeepsSpecs(k: Kernel, op: Op)
    requires Ok(k)
    ensures SpecsOf(Step(k, op).tasks) == FirstTasks(SpecsOf(k.tasks) + SpawnedBy(op))
    ensures AllReady(k) ==> AllReady(Step(k, op))
  {
  }

  /** Over every run the table lists what was spawned, in order, up to 256 tasks; once all are READY, all stay so. */
  lemma {:induction false} RunKeepsSpecs(k: Kernel, ops: seq<Op>)
    requires Ok(k)
    ensures SpecsOf(Run(k, ops).tasks) == FirstTasks(SpecsOf(k.tasks) + Spawned(ops))
    ensures AllReady(k) ==> AllReady(Run(k, ops))
    decreases |ops|
  {
    if ops == [] {
      assert SpecsOf(k.tasks) + [] == SpecsOf(k.tasks);
    } else {
      var first, rest := SpawnedBy(ops[0]), Spawned(ops[1..]);
      StepKeepsSpecs(k, ops[0]);
      RunKeepsSpecs(Step(k, ops[0]), ops[1..]);
      FirstOfFirst(SpecsOf(k.tasks), first, rest);
    }
  }

  // ---------------------------------------------------------------- the log

  lemma {:induction false} RunConcat(k: Kernel, a: seq<Op>, b: seq<Op>)
    requires Ok(k)
    ensures Run(k, a + b) == Run(Run(k, a), b)
    decreases |a|
  {
    if a == [] {
      assert a + b == b;
    } else {
      assert (a + b)[1..] == a[1..] + b;
      RunConcat(Step(k, a[0]), a[1..], b);
    }
  }

  /** The log only grows. */
  lemma {:induction false} LogGrows(k: Kernel, ops: seq<Op>)
    requires Ok(k)
    ensures k.log <= Run(k, ops).log
    decreases |ops|
  {
    if ops != [] {
      LogGrows(Step(k, ops[0]), ops[1..]);
    }
  }

  /** The entry that a message to `dst` leaves when it is sent in state k. */
  function EntryFor(k: Kernel, dst: u32, kind: u32): Msg
    requires Ok(k) && dst < |k.tasks|
  {
    Msg(k.current, dst, k.tasks[k.current].level, k.tasks[dst].level, kind, k.ticks, |SentTo(k.log, dst)| < 16)
  }

  /**
   A message sent anywhere in a run is found in the log for good, unless its receiver is missing or 1024 messages
   precede it: with sender, receiver, both their levels, its kind, the time counted in timer interrupts so far, and
   whether it reached the mailbox. A message refused changes nothing.
   */
  lemma {:induction false} SentIsLogged(a: seq<Op>, dst: u32, kind: u32, b: seq<Op>)
    ensures var k, r := Run(INITIAL, a), Run(INITIAL, a + [SendOp(dst, kind)] + b);
            if dst < |k.tasks| && |k.log| < 1024 then
              && k.log + [EntryFor(k, dst, kind)] <= r.log
              && EntryFor(k, dst, kind).stamp == Wrap64(Interrupts(a))
            else Run(INITIAL, a + [SendOp(dst, kind)]) == k
  {
    var k := Run(INITIAL, a);
    var k' := Step(k, SendOp(dst, kind));
    RunKeepsMail(INITIAL, a);
    RunConcat(INITIAL, a, [SendOp(dst, kind)]);
    RunOne(k, SendOp(dst, kind));
    RunConcat(INITIAL, a + [SendOp(dst, kind)], b);
    LogGrows(k', b);
    RunClock(INITIAL, a);
    if dst < |k.tasks| {
      SendLogs(k, dst, kind);
    }
  }

  lemma RunOne(k: Kernel, op: Op)
    requires Ok(k)
    ensures Run(k, [op]) == Step(k, op)
  {
    assert Run(Step(k, op), []) == Step(k, op);
  }

  lemma SendLogs(k: Kernel, dst: u32, kind: u32)
    requires Ok(k) && MailAgrees(k) && dst < |k.tasks|
    ensures Send(k, dst, kind).log == if |k.log| < 1024 then k.log + [EntryFor(k, dst, kind)] else k.log
  {
    assert k.tasks[dst].mailbox == FirstFew(SentTo(k.log, dst));
  }

  // ---------------------------------------------------------------- the end of a turn

  /** The first READY task in cyclic order behind the current one, which comes last itself. */
  predicate NextReady(k: Kernel, id: nat)
    requires Ok(k)
  {
    && id < |k.tasks| && k.tasks[id].state == Ready
    && forall x :: 0 <= x < |k.tasks| && k.tasks[x].state == Ready ==>
                     Cyclic.Pos(|k.tasks|, k.current, id) <= Cyclic.Pos(|k.tasks|, k.current, x)
  }

  /** Scheduling changes the current task and nothing else; without a READY task not even that. */
  lemma ScheduleIs(k: Kernel)
    requires Ok(k)
    ensures var r := Schedule(k);
            && r == k.(current := r.current)
            && if exists i :: 0 <= i < |k.tasks| && k.tasks[i].state == Ready then NextReady(k, r.current)
               else r.current == k.current
  {
    if k.tasks != [] {
      var n, p := |k.tasks|, ReadyFrom(k, 0);
      forall x | 0 <= x < n && k.tasks[x].state == Ready ensures p <= Cyclic.Pos(n, k.current, x) {
        var q := Cyclic.Pos(n, k.current, x);
        assert Cyclic.At(n, k.current, q) == x;
      }
    }
  }

  /** In state k with n interrupts gone, nothing but the clock and the quantum of the current task has changed. */
  predicate OnlyTimePassed(k: Kernel, r: Kernel, n: nat)
    requires Ok(k) && k.tasks != []
  {
    && r.ticks == Wrap64(k.ticks + n)
    && r.log == k.log && r.current == k.current && |r.tasks| == |k.tasks|
    && (forall i :: 0 <= i < |k.tasks| && i != k.current ==> r.tasks[i] == k.tasks[i])
    && r.tasks[k.current] == k.tasks[k.current].(quantum := r.tasks[k.current].quantum)
  }

  /** The interrupt that ends a turn gives the task a full quantum and dispatches the next one that is READY. */
  predicate TurnEnded(k: Kernel, r: Kernel, n: nat)
    requires Ok(k) && k.tasks != []
  {
    var t := r.(current := k.current);
    && OnlyTimePassed(k, t, n) && t.tasks[k.current].quantum == 10 * k.tasks[k.current].priority % 0x1_0000_0000
    && Ok(t) && r == Schedule(t)
  }

  lemma TimesAdd(k: Kernel, u: Kernel, r: Kernel, n: nat)
    requires Ok(k) && k.tasks != [] && Ok(u) && OnlyTimePassed(k, u, 1)
    ensures OnlyTimePassed(u, r, n) ==> OnlyTimePassed(k, r, n + 1)
    ensures TurnEnded(u, r, n) ==> TurnEnded(k, r, n + 1)
  {
    WrapAdd64(k.ticks + 1, n);
  }

  /** One interrupt. */
  lemma OneInterrupt(k: Kernel)
    requires Ok(k) && k.tasks != []
    ensures var q, u := k.tasks[k.current].quantum, Timer(k);
            if q == 1 then TurnEnded(k, u, 1)
            else OnlyTimePassed(k, u, 1) && u.tasks[k.current].quantum == if q == 0 then 0 else q - 1
  {
  }

  /** An empty quantum stays empty, and the turn never ends. */
  lemma {:induction false} EmptyTurn(k: Kernel, n: nat)
    requires Ok(k) && k.tasks != [] && k.tasks[k.current].quantum == 0
    ensures OnlyTimePassed(k, Timers(k, n), n) && Timers(k, n).tasks[k.current].quantum == 0
    decreases n
  {
    if n > 0 {
      OneInterrupt(k);
      EmptyTurn(Timer(k), n - 1);
      TimesAdd(k, Timer(k), Timers(Timer(k), n - 1), n - 1);
    }
  }

  lemma {:induction false} WithinTurn(k: Kernel, n: nat)
    requires Ok(k) && k.tasks != [] && n < k.tasks[k.current].quantum
    ensures OnlyTimePassed(k, Timers(k, n), n)
    ensures Timers(k, n).tasks[k.current].quantum == k.tasks[k.current].quantum - n
    decreases n
  {
    if n > 0 {
      OneInterrupt(k);
      WithinTurn(Timer(k), n - 1);
      TimesAdd(k, Timer(k), Timers(Timer(k), n - 1), n - 1);
    }
  }

  lemma {:induction false} TurnEnds(k: Kernel, q: nat)
    requires Ok(k) && k.tasks != [] && k.tasks[k.current].quantum == q > 0
    ensures TurnEnded(k, Timers(k, q), q)
    decreases q
  {
    OneInterrupt(k);
    if q == 1 {
      assert Timers(k, 1) == Timers(Timer(k), 0);
    } else {
      TurnEnds(Timer(k), q - 1);
      TimesAdd(k, Timer(k), Timers(Timer(k), q - 1), q - 1);
    }
  }

  /**
   From every state, whatever the current task's is: interrupts take one from its quantum until that is used up, and
   nothing but the clock changes besides; the interrupt that uses it up ends the turn. With an empty quantum it never
   ends.
   */
  lemma {:induction false} EveryTurnEnds(k: Kernel, n: nat)
    requires Ok(k) && k.tasks != []
    ensures var q, r := k.tasks[k.current].quantum, Timers(k, n);
            && (n < q ==> OnlyTimePassed(k, r, n) && r.tasks[k.current].quantum == q - n)
            && (n == q > 0 ==> TurnEnded(k, r, n))
            && (q == 0 ==> OnlyTimePassed(k, r, n) && r.tasks[k.current].quantum == 0)
  {
    var q := k.tasks[k.current].quantum;
    if q == 0 {
      EmptyTurn(k, n);
    } else if n < q {
      WithinTurn(k, n);
    } else if n == q {
      TurnEnds(k, q);
    }
  }
}
