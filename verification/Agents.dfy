/**
 The agent table of kernel/core/agent.c as a value, what each call does to it, and which agent the scheduler
 dispatches. An agent's id is its index. A context switch is nothing but the change of the current id.
 */
module Agents {
  import opened Words
  import opened AgentTypes
  import Cyclic

  datatype Agent = Agent(level: nat, priority: u32, quantum: u32, state: AgentState)
  datatype Sched = Sched(agents: seq<Agent>, current: nat)

  predicate Ok(s: Sched) {
    |s.agents| <= MAX_AGENTS && if s.agents == [] then s.current == 0 else s.current < |s.agents|
  }

  function SetState(s: Sched, id: nat, st: AgentState): Sched
    requires id < |s.agents|
  {
    s.(agents := s.agents[id := s.agents[id].(state := st)])
  }

  function SetQuantum(s: Sched, id: nat, q: u32): Sched
    requires id < |s.agents|
  {
    s.(agents := s.agents[id := s.agents[id].(quantum := q)])
  }

  // ---------------------------------------------------------------- the calls

  function Create(s: Sched, level: nat, priority: u32): Sched {
    if |s.agents| >= MAX_AGENTS then s
    else s.(agents := s.agents + [Agent(level, priority, Slice(priority), Ready)])
  }

  function Terminate(s: Sched, id: u32): Sched {
    if id >= |s.agents| then s else SetState(s, id, Terminated)
  }

  function Suspend(s: Sched, id: u32): Sched {
    if id < |s.agents| && s.agents[id].state in {Ready, Running} then SetState(s, id, Blocked) else s
  }

  function Resume(s: Sched, id: u32): Sched {
    if id < |s.agents| && s.agents[id].state == Blocked then SetState(s, id, Ready) else s
  }

  /** The k-th agent after the current one in cyclic order; the last is the current one itself. */
  function IdAt(s: Sched, k: nat): (id: nat)
    requires Ok(s) && k < |s.agents|
    ensures id < |s.agents| && PosOf(s, id) == k
  {
    Cyclic.At(|s.agents|, s.current, k)
  }

  function PosOf(s: Sched, id: nat): (k: nat)
    requires Ok(s) && id < |s.agents|
    ensures k < |s.agents|
  {
    Cyclic.Pos(|s.agents|, s.current, id)
  }

  predicate Candidate(a: Agent) {
    a.state == Ready && a.priority > 0
  }

  /** Position of the best of the first k agents after the current one, |agents| if there is none. */
  function Scan(s: Sched, k: nat): (b: nat)
    requires Ok(s) && k <= |s.agents|
    ensures b == |s.agents| || b < k
  {
    if k == 0 then |s.agents|
    else
      var b := Scan(s, k - 1);
      var a := s.agents[IdAt(s, k - 1)];
      var highest := if b == |s.agents| then 0 else s.agents[IdAt(s, b)].priority;
      if a.state == Ready && a.priority > highest then k - 1 else b
  }

  function Choice(s: Sched): (id: nat)
    requires Ok(s) && s.agents != []
    ensures id < |s.agents|
  {
    var b := Scan(s, |s.agents|);
    if b == |s.agents| then s.current else IdAt(s, b)
  }

  /** What the selection loop has in hand after k agents. */
  predicate BestOf(s: Sched, k: nat, best: nat, highest: u32)
    requires Ok(s) && k <= |s.agents|
  {
    var b := Scan(s, k);
    if b == |s.agents| then highest == 0 && best == s.current
    else best == IdAt(s, b) && highest == s.agents[best].priority
  }

  function Switch(s: Sched, id: nat): Sched
    requires Ok(s) && id < |s.agents|
  {
    if id == s.current then SetState(s, s.current, Running)
    else
      var s' := if s.agents[s.current].state == Running then SetState(s, s.current, Ready) else s;
      SetState(s', id, Running).(current := id)
  }

  function Schedule(s: Sched): Sched
    requires Ok(s)
  {
    if s.agents == [] then s else Switch(s, Choice(s))
  }

  function Tick(s: Sched): Sched
    requires Ok(s)
  {
    if s.agents == [] then s
    else
      var a := s.agents[s.current];
      if a.quantum > 1 then SetQuantum(s, s.current, a.quantum - 1)
      else Schedule(SetQuantum(s, s.current, Slice(a.priority)))
  }

  datatype Op =
    | CreateOp(level: nat, priority: u32) | TerminateOp(id: u32) | SuspendOp(id: u32) | ResumeOp(id: u32)
    | ScheduleOp | TickOp

  function Step(s: Sched, op: Op): (s': Sched)
    requires Ok(s)
    ensures Ok(s') && |s'.agents| >= |s.agents|
  {
    match op
    case CreateOp(level, priority) => Create(s, level, priority)
    case TerminateOp(id) => Terminate(s, id)
    case SuspendOp(id) => Suspend(s, id)
    case ResumeOp(id) => Resume(s, id)
    case ScheduleOp => Schedule(s)
    case TickOp => Tick(s)
  }

  function Run(s: Sched, ops: seq<Op>): (s': Sched)
    requires Ok(s)
    ensures Ok(s') && |s'.agents| >= |s.agents|
    decreases |ops|
  {
    if ops == [] then s else Run(Step(s, ops[0]), ops[1..])
  }

  const INITIAL := Sched([], 0)

  // ---------------------------------------------------------------- which agent is dispatched

  /** Some agent is ready with a priority above 0. */
  predicate SomeCandidate(s: Sched) {
    exists i :: 0 <= i < |s.agents| && Candidate(s.agents[i])
  }

  /**
   `id` is the first, in cyclic order after the current agent, of the ready agents of the highest positive priority.
   */
  predicate FirstHighest(s: Sched, id: nat)
    requires Ok(s)
  {
    && id < |s.agents| && Candidate(s.agents[id])
    && forall x :: 0 <= x < |s.agents| && s.agents[x].state == Ready ==>
                     && s.agents[x].priority <= s.agents[id].priority
                     && (s.agents[x].priority == s.agents[id].priority ==> PosOf(s, id) <= PosOf(s, x))
  }

  lemma {:induction false} ScanFinds(s: Sched, k: nat)
    requires Ok(s) && k <= |s.agents|
    ensures var b := Scan(s, k);
            && (b < |s.agents| ==> Candidate(s.agents[IdAt(s, b)]))
            && forall j :: 0 <= j < k && s.agents[IdAt(s, j)].state == Ready ==>
                             var p := s.agents[IdAt(s, j)].priority;
                             if b == |s.agents| then p == 0
                             else p <= s.agents[IdAt(s, b)].priority && (p == s.agents[IdAt(s, b)].priority ==> b <= j)
    decreases k
  {
    if k > 0 {
      ScanFinds(s, k - 1);
    }
  }

  /** The selection loop finds the first highest candidate, and stays with the current agent if there is none. */
  lemma ChoiceIs(s: Sched)
    requires Ok(s) && s.agents != []
    ensures if SomeCandidate(s) then FirstHighest(s, Choice(s)) else Choice(s) == s.current
  {
    ScanFinds(s, |s.agents|);
    var b := Scan(s, |s.agents|);
    forall x | 0 <= x < |s.agents| && s.agents[x].state == Ready
      ensures if b == |s.agents| then s.agents[x].priority == 0
              else
                && s.agents[x].priority <= s.agents[IdAt(s, b)].priority
                && (s.agents[x].priority == s.agents[IdAt(s, b)].priority ==> b <= PosOf(s, x))
    {
      assert s.agents[IdAt(s, PosOf(s, x))] == s.agents[x];
    }
  }

  lemma FirstHighestUnique(s: Sched, a: nat, b: nat)
    requires Ok(s) && FirstHighest(s, a) && FirstHighest(s, b)
    ensures a == b
  {
    assert PosOf(s, a) == PosOf(s, b);
  }

  /**
   The dispatch rule: after `agent_schedule` the current agent is RUNNING; it is the first highest candidate, or
   the same agent as before if there was no candidate; the agent switched away from is READY if it was RUNNING;
   nothing else changes.
   */
  lemma DispatchRule(s: Sched)
    requires Ok(s) && s.agents != []
    ensures var s' := Schedule(s);
            && |s'.agents| == |s.agents| && s'.agents[s'.current].state == Running
            && (if SomeCandidate(s) then FirstHighest(s, s'.current) else s'.current == s.current)
            && (s'.current != s.current ==>
                  s'.agents[s.current].state ==
                  if s.agents[s.current].state == Running then Ready else s.agents[s.current].state)
            && (forall i :: 0 <= i < |s.agents| && i != s.current && i != s'.current ==> s'.agents[i] == s.agents[i])
            && (forall i :: 0 <= i < |s.agents| ==> s'.agents[i] == s.agents[i].(state := s'.agents[i].state))
  {
    ChoiceIs(s);
  }

  // ---------------------------------------------------------------- safety over all runs

  /** Only the current agent can be RUNNING. */
  predicate OnlyCurrentRuns(s: Sched) {
    forall i :: 0 <= i < |s.agents| && s.agents[i].state == Running ==> i == s.current
  }

  lemma StepKeepsOnlyCurrentRuns(s: Sched, op: Op)
    requires Ok(s) && OnlyCurrentRuns(s)
    ensures OnlyCurrentRuns(Step(s, op))
  {
    if op.ScheduleOp? && s.agents != [] {
      DispatchRule(s);
    } else if op.TickOp? && s.agents != [] {
      DispatchRule(SetQuantum(s, s.current, Slice(s.agents[s.current].priority)));
    }
  }

  lemma {:induction false} RunKeepsOnlyCurrentRuns(s: Sched, ops: seq<Op>)
    requires Ok(s) && OnlyCurrentRuns(s)
    ensures OnlyCurrentRuns(Run(s, ops))
    decreases |ops|
  {
    if ops != [] {
      StepKeepsOnlyCurrentRuns(s, ops[0]);
      RunKeepsOnlyCurrentRuns(Step(s, ops[0]), ops[1..]);
    }
  }

  /** A TERMINATED agent that is not the current one stays so, and never becomes the current one. */
  lemma {:induction false} TerminatedNeverRuns(s: Sched, ops: seq<Op>, i: nat)
    requires Ok(s) && i < |s.agents| && s.agents[i].state == Terminated && i != s.current
    ensures var r := Run(s, ops); r.agents[i].state == Terminated && r.current != i
    decreases |ops|
  {
    if ops != [] {
      var op := ops[0];
      if op.ScheduleOp? {
        DispatchRule(s);
      } else if op.TickOp? {
        DispatchRule(SetQuantum(s, s.current, Slice(s.agents[s.current].priority)));
      }
      TerminatedNeverRuns(Step(s, op), ops[1..], i);
    }
  }

  /** An agent of priority 0 that is not the current one is never dispatched, however long it is ready. */
  lemma {:induction false} PriorityZeroNeverRuns(s: Sched, ops: seq<Op>, i: nat)
    requires Ok(s) && i < |s.agents| && s.agents[i].priority == 0 && i != s.current
    ensures Run(s, ops).current != i
    decreases |ops|
  {
    if ops != [] {
      var op := ops[0];
      if op.ScheduleOp? {
        DispatchRule(s);
      } else if op.TickOp? {
        DispatchRule(SetQuantum(s, s.current, Slice(s.agents[s.current].priority)));
      }
      PriorityZeroNeverRuns(Step(s, op), ops[1..], i);
    }
  }

  predicate Runnable(a: Agent) {
    a.state == Ready || a.state == Running
  }

  /** Two different agents above priority p could run. */
  predicate TwoAbove(s: Sched, p: nat) {
    exists i, j :: 0 <= i < j < |s.agents| && AboveRunnable(s.agents[i], p) && AboveRunnable(s.agents[j], p)
  }

  predicate AboveRunnable(a: Agent, p: nat) {
    Runnable(a) && a.priority > p
  }

  predicate TwoAboveThroughout(s: Sched, ops: seq<Op>, p: nat)
    requires Ok(s)
    decreases |ops|
  {
    ops != [] ==> TwoAbove(s, p) && TwoAboveThroughout(Step(s, ops[0]), ops[1..], p)
  }

  /** Whenever the current agent changes along the run, the new one has a priority above p. */
  predicate OnlyAboveDispatched(s: Sched, ops: seq<Op>, p: nat)
    requires Ok(s)
    decreases |ops|
  {
    ops != [] ==>
      var s' := Step(s, ops[0]);
      (s'.current != s.current ==> s'.agents[s'.current].priority > p) && OnlyAboveDispatched(s', ops[1..], p)
  }

  lemma ScheduleAbove(s: Sched, p: nat)
    requires Ok(s) && OnlyCurrentRuns(s) && TwoAbove(s, p)
    ensures var s' := Schedule(s); s'.agents[s'.current].priority > p
  {
    DispatchRule(s);
    var i, j :| 0 <= i < j < |s.agents| && AboveRunnable(s.agents[i], p) && AboveRunnable(s.agents[j], p);
    assert s.agents[i].state == Ready || s.agents[j].state == Ready;
    assert Candidate(s.agents[i]) || Candidate(s.agents[j]);
  }

  /** As long as two agents above priority p can run, no agent at or below p is newly dispatched. */
  lemma {:induction false} LowPriorityWaits(s: Sched, ops: seq<Op>, p: nat)
    requires Ok(s) && OnlyCurrentRuns(s) && TwoAboveThroughout(s, ops, p)
    ensures OnlyAboveDispatched(s, ops, p)
    decreases |ops|
  {
    if ops != [] {
      if ops[0].ScheduleOp? {
        ScheduleAbove(s, p);
      } else if ops[0].TickOp? {
        var t := SetQuantum(s, s.current, Slice(s.agents[s.current].priority));
        var i, j :| 0 <= i < j < |s.agents| && AboveRunnable(s.agents[i], p) && AboveRunnable(s.agents[j], p);
        assert AboveRunnable(t.agents[i], p) && AboveRunnable(t.agents[j], p);
        ScheduleAbove(t, p);
      }
      StepKeepsOnlyCurrentRuns(s, ops[0]);
      LowPriorityWaits(Step(s, ops[0]), ops[1..], p);
    }
  }

  // ---------------------------------------------------------------- what the scheduler does not promise

  /**
   A current agent that cannot run goes on running all the same exactly when no ready agent has a positive priority.
   */
  lemma StoppedCurrentRunsIff(s: Sched)
    requires Ok(s) && s.agents != [] && !Runnable(s.agents[s.current])
    ensures Schedule(s).current == s.current <==> !SomeCandidate(s)
    ensures Schedule(s).agents[s.current].state == Running <==> !SomeCandidate(s)
  {
    DispatchRule(s);
  }

  /** No runnable agent has a higher priority than agent `id`. */
  predicate HighestRunnable(s: Sched, id: nat)
    requires id < |s.agents|
  {
    forall x :: 0 <= x < |s.agents| && Runnable(s.agents[x]) ==> s.agents[x].priority <= s.agents[id].priority
  }

  /** The running agent outranks all ready ones, and one of those has a positive priority. */
  predicate Outranks(s: Sched)
    requires Ok(s) && s.agents != []
  {
    && s.agents[s.current].state == Running
    && SomeCandidate(s)
    && forall x :: 0 <= x < |s.agents| && s.agents[x].state == Ready ==>
                     s.agents[x].priority < s.agents[s.current].priority
  }

  /**
   `agent_schedule` dispatches a runnable agent of the highest priority except exactly when the running agent
   outranks every ready one: it never compares with the running agent, which then gives way to a lower priority.
   */
  lemma HighestPriorityIff(s: Sched)
    requires Ok(s) && s.agents != [] && OnlyCurrentRuns(s)
    ensures HighestRunnable(s, Schedule(s).current) <==> !Outranks(s)
  {
    DispatchRule(s);
    var c := Schedule(s).current;
    if Outranks(s) {
      assert Runnable(s.agents[s.current]);
    } else {
      forall x | 0 <= x < |s.agents| && Runnable(s.agents[x]) ensures s.agents[x].priority <= s.agents[c].priority {
        if !SomeCandidate(s) && s.agents[x].state == Ready {
          assert !Candidate(s.agents[x]);
        }
      }
    }
  }

  // ---------------------------------------------------------------- reachable states that show it

  /** Agents of priority 10 and 5, of which the first has been dispatched: the next call switches to the second. */
  lemma LowerPriorityTakesOver()
    ensures var s := Run(INITIAL, [CreateOp(0, 10), CreateOp(0, 5), ScheduleOp]);
            && |s.agents| == 2 && s.agents[0].priority == 10 && s.agents[1].priority == 5
            && s.current == 0 && Outranks(s) && Schedule(s).current == 1
  {
    var ops := [CreateOp(0, 10), CreateOp(0, 5), ScheduleOp];
    var a, b := Agent(0, 10, 100, Ready), Agent(0, 5, 50, Ready);
    var s1, s2 := Sched([a], 0), Sched([a, b], 0);
    var s3 := Sched([a.(state := Running), b], 0);
    assert Step(INITIAL, ops[0]) == s1 && Step(s1, ops[1]) == s2;
    assert Step(s2, ops[2]) == s3 by {
      ChoiceIs(s2);
      assert Candidate(s2.agents[0]);
    }
    RunThree(INITIAL, ops);
    assert Candidate(s3.agents[1]);
    ChoiceIs(s3);
  }

  lemma RunThree(s: Sched, ops: seq<Op>)
    requires Ok(s) && |ops| == 3
    ensures Run(s, ops) == Step(Step(Step(s, ops[0]), ops[1]), ops[2])
  {
    var t := Step(s, ops[0]);
    var u := Step(t, ops[1]);
    assert ops[1..][1..] == ops[2..] && ops[2..][1..] == [];
    assert Run(u, ops[2..]) == Run(Step(u, ops[2]), []);
    assert Run(t, ops[1..]) == Run(u, ops[2..]);
  }

  /** A single agent, dispatched and terminated: the next call sets it RUNNING again. */
  lemma TerminatedAgentRunsAgain()
    ensures var s := Run(INITIAL, [CreateOp(0, 1), ScheduleOp, TerminateOp(0)]);
            && |s.agents| == 1 && s.agents[0].state == Terminated && s.current == 0
            && Schedule(s).agents[0].state == Running
  {
    var ops := [CreateOp(0, 1), ScheduleOp, TerminateOp(0)];
    var a := Agent(0, 1, 10, Ready);
    var s1, s2, s3 := Sched([a], 0), Sched([a.(state := Running)], 0), Sched([a.(state := Terminated)], 0);
    assert Step(INITIAL, ops[0]) == s1;
    assert Step(s1, ops[1]) == s2 by {
      ChoiceIs(s1);
    }
    assert Step(s2, ops[2]) == s3;
    RunThree(INITIAL, ops);
    StoppedCurrentRunsIff(s3);
  }
}
