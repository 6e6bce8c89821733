/**
 What becomes of an agent of kernel/core/agent.c from its creation on: the turn of whoever is current ends after its
 quantum whatever its state, what was created is kept, and what is suspended waits.
 */
module AgentLives {
  import opened Words
  import opened AgentTypes
  import opened Agents
  import opened AgentSharing
  import opened AgentDuel

  // ---------------------------------------------------------------- the end of a turn, from any state

  /**
   Between s and t the turn of the current agent has ended: it has a full quantum again, the agent dispatched is the
   first highest candidate, or the same as before if there is none, and it is RUNNING; the one switched away from is
   READY if it was RUNNING; nothing else differs.
   */
  ghost predicate TurnEnded(s: Sched, t: Sched)
    requires Ok(s) && s.agents != []
  {
    var c := s.current;
    && Ok(t) && |t.agents| == |s.agents|
    && (if SomeCandidate(s) then FirstHighest(s, t.current) else t.current == c)
    && t.agents[t.current].state == Running
    && (t.current != c ==>
          t.agents[c].state == if s.agents[c].state == Running then Ready else s.agents[c].state)
    && t.agents[c].quantum == 10 * s.agents[c].priority % 0x1_0000_0000
    && (forall i :: 0 <= i < |s.agents| ==>
                      t.agents[i] == s.agents[i].(state := t.agents[i].state, quantum := t.agents[i].quantum))
    && (forall i :: 0 <= i < |s.agents| && i != c ==> t.agents[i].quantum == s.agents[i].quantum)
    && (forall i :: 0 <= i < |s.agents| && i != c && i != t.current ==> t.agents[i].state == s.agents[i].state)
  }

  /** Quanta do not matter to the choice. */
  lemma SameChoice(s: Sched, u: Sched, id: nat)
    requires Ok(s) && Ok(u) && |u.agents| == |s.agents| && u.current == s.current
    requires forall i :: 0 <= i < |s.agents| ==>
                           u.agents[i].state == s.agents[i].state && u.agents[i].priority == s.agents[i].priority
    ensures SomeCandidate(u) <==> SomeCandidate(s)
    ensures FirstHighest(u, id) <==> FirstHighest(s, id)
  {
    assert forall i :: 0 <= i < |s.agents| ==> Candidate(u.agents[i]) == Candidate(s.agents[i]);
    assert forall i :: 0 <= i < |s.agents| ==> PosOf(u, i) == PosOf(s, i);
  }

  lemma LastTick(s: Sched)
    requires Ok(s) && s.agents != [] && s.agents[s.current].quantum <= 1
    ensures TurnEnded(s, Tick(s))
  {
    var u := SetQuantum(s, s.current, Slice(s.agents[s.current].priority));
    DispatchRule(u);
    SameChoice(s, u, Tick(s).current);
  }

  /**
   From every state, whatever the current agent's is: ticks take one from its quantum until that is used up and change
   nothing else; the tick that uses it up, or finds it empty, ends the turn.
   */
  lemma {:induction false} EveryTurnEnds(s: Sched, n: nat)
    requires Ok(s) && s.agents != []
    ensures var a := s.agents[s.current];
            && (n < Left(a) ==> Ticks(s, n) == SetQuantum(s, s.current, a.quantum - n))
            && TurnEnded(s, Ticks(s, Left(a)))
    decreases s.agents[s.current].quantum
  {
    var a, t := s.agents[s.current], Tick(s);
    if a.quantum <= 1 {
      LastTick(s);
      assert Ticks(s, 1) == Ticks(t, 0);
    } else {
      EveryTurnEnds(t, if n == 0 then 0 else n - 1);
      TurnEndedLater(s, a.quantum - 1, Ticks(t, Left(a) - 1));
    }
  }

  lemma TurnEndedLater(s: Sched, q: u32, t: Sched)
    requires Ok(s) && s.agents != [] && TurnEnded(SetQuantum(s, s.current, q), t)
    ensures TurnEnded(s, t)
  {
    SameChoice(s, SetQuantum(s, s.current, q), t.current);
  }

  // ---------------------------------------------------------------- creation

  datatype Spec = Spec(level: nat, priority: u32)

  function CreatedBy(op: Op): seq<Spec> {
    if op.CreateOp? then [Spec(op.level, op.priority)] else []
  }

  /** What the run creates, oldest first. */
  function Created(ops: seq<Op>): seq<Spec> {
    if ops == [] then [] else CreatedBy(ops[0]) + Created(ops[1..])
  }

  function SpecOf(a: Agent): Spec {
    Spec(a.level, a.priority)
  }

  function SpecsOf(agents: seq<Agent>): (specs: seq<Spec>)
    ensures |specs| == |agents|
  {
    seq(|agents|, i requires 0 <= i < |agents| => SpecOf(agents[i]))
  }

  /** The first 256 of a list. */
  function FirstAgents(specs: seq<Spec>): seq<Spec> {
    if |specs| <= 256 then specs else specs[..256]
  }

  lemma StepKeepsSpecs(s: Sched, op: Op)
    requires Ok(s)
    ensures SpecsOf(Step(s, op).agents) == FirstAgents(SpecsOf(s.agents) + CreatedBy(op))
  {
    if op.ScheduleOp? && s.agents != [] {
      DispatchRule(s);
    } else if op.TickOp? && s.agents != [] {
      DispatchRule(SetQuantum(s, s.current, Slice(s.agents[s.current].priority)));
    }
  }

  /**
   Over every run: the table lists what was created, in order, up to 256 agents; levels and priorities never change.
   */
  lemma {:induction false} RunKeepsSpecs(s: Sched, ops: seq<Op>)
    requires Ok(s)
    ensures SpecsOf(Run(s, ops).agents) == FirstAgents(SpecsOf(s.agents) + Created(ops))
    decreases |ops|
  {
    if ops == [] {
      assert SpecsOf(s.agents) + [] == SpecsOf(s.agents);
    } else {
      var first, rest := CreatedBy(ops[0]), Created(ops[1..]);
      StepKeepsSpecs(s, ops[0]);
      RunKeepsSpecs(Step(s, ops[0]), ops[1..]);
      FirstOfFirst(SpecsOf(s.agents), first, rest);
    }
  }

  lemma FirstOfFirst(a: seq<Spec>, b: seq<Spec>, c: seq<Spec>)
    ensures FirstAgents(FirstAgents(a + b) + c) == FirstAgents(a + (b + c))
  {
    assert a + (b + c) == a + b + c;
  }

  function Creates(specs: seq<Spec>): seq<Op> {
    if specs == [] then [] else [CreateOp(specs[0].level, specs[0].priority)] + Creates(specs[1..])
  }

  /** Every agent waits in the state READY with a full quantum. */
  predicate AllWait(s: Sched) {
    forall i :: 0 <= i < |s.agents| ==>
                  s.agents[i].state == Ready && s.agents[i].quantum == 10 * s.agents[i].priority % 0x1_0000_0000
  }

  lemma {:induction false} CreatedWait(s: Sched, specs: seq<Spec>)
    requires Ok(s) && AllWait(s)
    ensures AllWait(Run(s, Creates(specs))) && Run(s, Creates(specs)).current == s.current
    ensures Created(Creates(specs)) == specs
    decreases |specs|
  {
    if specs != [] {
      var ops := Creates(specs);
      assert ops[1..] == Creates(specs[1..]);
      CreatedWait(Step(s, ops[0]), specs[1..]);
    }
  }

  /** All quanta are full, one agent runs and the others wait. */
  predicate OneRuns(t: Sched) {
    && Ok(t) && t.agents != []
    && forall i :: 0 <= i < |t.agents| ==>
                     && t.agents[i].quantum == Slice(t.agents[i].priority)
                     && t.agents[i].state == if i == t.current then Running else Ready
  }

  lemma FirstTurn(s: Sched)
    requires Ok(s) && s.agents != [] && AllWait(s)
    ensures var t := Ticks(s, Left(s.agents[s.current]));
            && OneRuns(t) && SpecsOf(t.agents) == SpecsOf(s.agents)
            && forall i :: 0 <= i < |t.agents| ==> t.agents[i].priority <= t.agents[t.current].priority
  {
    EveryTurnEnds(s, 0);
    var t := Ticks(s, Left(s.agents[s.current]));
    if !SomeCandidate(s) {
      forall i | 0 <= i < |s.agents| ensures t.agents[i].priority == 0 {
        assert !Candidate(s.agents[i]);
      }
    }
  }

  /** The agents of priority p share, if there are two of them, p is above 0 and nobody is above p. */
  lemma OneRunsShares(t: Sched, p: u32)
    requires OneRuns(t) && t.agents[t.current].priority == p && p > 0 && |Peers(t.agents, p)| >= 2
    requires forall i :: 0 <= i < |t.agents| ==> t.agents[i].priority <= p
    ensures Sharing(t, p, Peers(t.agents, p))
  {
    PeersAreListed(t.agents, p);
  }

  /** The state after these creations and as many ticks as the slice of the first agent lasts. */
  function AfterFirstTurn(specs: seq<Spec>): Sched
    requires specs != []
  {
    Ticks(Run(INITIAL, Creates(specs)), TurnLength(specs[0].priority))
  }

  lemma {:induction false} AfterFirstTurnIs(specs: seq<Spec>)
    requires 0 < |specs| <= 256
    ensures var t := AfterFirstTurn(specs);
            && OneRuns(t) && SpecsOf(t.agents) == specs
            && forall i :: 0 <= i < |t.agents| ==> t.agents[i].priority <= t.agents[t.current].priority
  {
    var s := Run(INITIAL, Creates(specs));
    CreatedWait(INITIAL, specs);
    RunKeepsSpecs(INITIAL, Creates(specs));
    assert SpecsOf(INITIAL.agents) + specs == specs;
    assert SpecOf(s.agents[0]) == SpecsOf(s.agents)[0];
    FirstTurn(s);
  }

  /**
   From the very start: after any creations, and as many ticks as the slice of the first agent lasts, the agents of the
   highest priority p > 0 share the time, if there are two of them ...
   */
  lemma {:induction false} CreatedAgentsShare(specs: seq<Spec>, p: u32, i: nat, j: nat)
    requires |specs| <= 256 && i < j < |specs| && specs[i].priority == specs[j].priority == p && p > 0
    requires forall k :: 0 <= k < |specs| ==> specs[k].priority <= p
    ensures var t := AfterFirstTurn(specs); Sharing(t, p, Peers(t.agents, p))
  {
    var t := AfterFirstTurn(specs);
    AfterFirstTurnIs(specs);
    forall k | 0 <= k < |t.agents| ensures t.agents[k].priority == specs[k].priority {
      assert SpecOf(t.agents[k]) == SpecsOf(t.agents)[k];
    }
    PeersAreListed(t.agents, p);
    var peers := Peers(t.agents, p);
    assert Peer(t.agents[i], p) && Peer(t.agents[j], p);
    assert i in peers && j in peers;
    OneRunsShares(t, p);
  }

  /** ... and if only agent a has it, then a and the first highest behind it. */
  lemma {:induction false} CreatedAgentsAlternate(specs: seq<Spec>, a: nat, b: nat)
    requires 0 < |specs| <= 256 && TopTwo(AfterFirstTurn(specs).agents, a, b)
    ensures Duel(AfterFirstTurn(specs), a, b) && AfterFirstTurn(specs).current == a
  {
    AfterFirstTurnIs(specs);
  }

  // ---------------------------------------------------------------- suspending and resuming

  /** The run neither resumes nor terminates agent i. */
  predicate LeavesBlocked(i: u32, ops: seq<Op>) {
    forall k :: 0 <= k < |ops| ==> ops[k] != ResumeOp(i) && ops[k] != TerminateOp(i)
  }

  /** A BLOCKED agent that is not current stays so, with its quantum, and is never dispatched before it is resumed. */
  lemma {:induction false} BlockedWaits(s: Sched, ops: seq<Op>, i: u32)
    requires Ok(s) && i < |s.agents| && s.agents[i].state == Blocked && i != s.current && LeavesBlocked(i, ops)
    ensures var r := Run(s, ops); r.agents[i] == s.agents[i] && r.current != i
    decreases |ops|
  {
    if ops != [] {
      var op := ops[0];
      if op.ScheduleOp? {
        DispatchRule(s);
      } else if op.TickOp? {
        DispatchRule(SetQuantum(s, s.current, Slice(s.agents[s.current].priority)));
      }
      assert op != ResumeOp(i) && op != TerminateOp(i);
      assert LeavesBlocked(i, ops[1..]);
      BlockedWaits(Step(s, op), ops[1..], i);
    }
  }

  /** An agent suspended while it waits is not dispatched until it is resumed, and is then as it was. */
  lemma {:induction false} SuspendedWaits(s: Sched, ops: seq<Op>, i: u32)
    requires Ok(s) && i < |s.agents| && s.agents[i].state == Ready && i != s.current && LeavesBlocked(i, ops)
    ensures var r := Run(Step(s, SuspendOp(i)), ops);
            && r.current != i && r.agents[i].state == Blocked
            && Step(r, ResumeOp(i)) == r.(agents := r.agents[i := s.agents[i]])
  {
    BlockedWaits(Step(s, SuspendOp(i)), ops, i);
  }

  /**
   A running agent that is suspended loses the processor with the next call of the scheduler, if anyone can take it.
   */
  lemma SuspendedStops(s: Sched, i: u32)
    requires Ok(s) && s.agents != [] && i == s.current && s.agents[i].state == Running && OnlyCurrentRuns(s)
    ensures var r := Schedule(Step(s, SuspendOp(i)));
            if SomeCandidate(s) then r.current != i && r.agents[i].state == Blocked
            else r.current == i && r.agents[i].state == Running
  {
    var u := Step(s, SuspendOp(i));
    assert forall k :: 0 <= k < |s.agents| ==> Candidate(u.agents[k]) == Candidate(s.agents[k]);
    DispatchRule(u);
  }

  /** Suspending matters to runnable agents only, resuming to blocked ones; no other agent is touched. */
  lemma WhomItConcerns(s: Sched, i: u32)
    ensures Suspend(s, i) != s <==> i < |s.agents| && s.agents[i].state in {Ready, Running}
    ensures Resume(s, i) != s <==> i < |s.agents| && s.agents[i].state == Blocked
    ensures Terminate(s, i) != s <==> i < |s.agents| && s.agents[i].state != Terminated
    ensures forall u :: u in {Suspend(s, i), Resume(s, i), Terminate(s, i)} ==>
                          && |u.agents| == |s.agents| && u.current == s.current
                          && forall k :: 0 <= k < |s.agents| && k != i ==> u.agents[k] == s.agents[k]
  {
    if i < |s.agents| {
      assert SetState(s, i, Blocked).agents[i].state == Blocked;
      assert SetState(s, i, Ready).agents[i].state == Ready;
      assert SetState(s, i, Terminated).agents[i].state == Terminated;
    }
  }
}
