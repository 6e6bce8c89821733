/**
 Time sharing of kernel/core/agent.c when the highest priority belongs to one agent only: that agent and the first
 highest one behind it alternate, and every other agent waits for good, the peers of the second included. Only timer
 ticks happen.
 */
module AgentDuel {
  import opened AgentTypes
  import opened Agents
  import opened AgentSharing
  import Cyclic
  import Wheel

  /** Agent a outranks all runnable ones; b is the first highest of the others, in cyclic order after a. */
  predicate TopTwo(agents: seq<Agent>, a: nat, b: nat) {
    && a < |agents| && b < |agents| && a != b
    && Runnable(agents[a]) && Runnable(agents[b]) && agents[a].priority > agents[b].priority > 0
    && forall x :: 0 <= x < |agents| && x != a && x != b && Runnable(agents[x]) ==> Behind(agents, a, b, x)
  }

  predicate Behind(agents: seq<Agent>, a: nat, b: nat, x: nat)
    requires a < |agents| && b < |agents| && x < |agents|
  {
    && agents[x].priority <= agents[b].priority
    && (agents[x].priority == agents[b].priority ==> Cyclic.Pos(|agents|, a, b) < Cyclic.Pos(|agents|, a, x))
  }

  /** Agent id waits with a full slice, or runs somewhere inside one. */
  predicate Timed(s: Sched, id: nat)
    requires id < |s.agents|
  {
    var a := s.agents[id];
    if id == s.current then a.quantum <= Slice(a.priority) && (a.quantum == 0 ==> Slice(a.priority) == 0)
    else a.quantum == Slice(a.priority)
  }

  /** The current agent runs, and the two are timed; the current agent may be a third one. */
  predicate Ahead(s: Sched, a: nat, b: nat) {
    && Ok(s) && TopTwo(s.agents, a, b) && OnlyCurrentRuns(s)
    && s.agents[s.current].state == Running
    && Timed(s, a) && Timed(s, b)
  }

  /** One of the two has its turn. */
  predicate Duel(s: Sched, a: nat, b: nat) {
    Ahead(s, a, b) && (s.current == a || s.current == b)
  }

  /** From a the scheduler goes to b, from anywhere else to a. */
  lemma AheadChoice(s: Sched, a: nat, b: nat)
    requires Ahead(s, a, b)
    ensures Choice(s) == if s.current == a then b else a
  {
    var id := if s.current == a then b else a;
    assert Candidate(s.agents[id]);
    forall x | 0 <= x < |s.agents| && s.agents[x].state == Ready && x != id
      ensures s.agents[x].priority <= s.agents[id].priority
      ensures s.agents[x].priority == s.agents[id].priority ==> PosOf(s, id) <= PosOf(s, x)
    {
      assert x != a && x != b ==> Behind(s.agents, a, b, x);
    }
    assert FirstHighest(s, id);
    ChoiceIs(s);
    FirstHighestUnique(s, id, Choice(s));
  }

  /** States and quanta of others may change, as long as the same agents are runnable. */
  lemma TopTwoStays(agents: seq<Agent>, later: seq<Agent>, a: nat, b: nat)
    requires TopTwo(agents, a, b) && |later| == |agents|
    requires forall i :: 0 <= i < |agents| ==> later[i].priority == agents[i].priority
    requires forall i :: 0 <= i < |agents| ==> Runnable(later[i]) == Runnable(agents[i])
    ensures TopTwo(later, a, b)
  {
    forall x | 0 <= x < |later| && x != a && x != b && Runnable(later[x]) ensures Behind(later, a, b, x) {
      assert Behind(agents, a, b, x);
    }
  }

  lemma AheadSwitch(s: Sched, a: nat, b: nat)
    requires Ahead(s, a, b) && s.agents[s.current].quantum == Slice(s.agents[s.current].priority)
    ensures var s', id := Schedule(s), if s.current == a then b else a;
            && Duel(s', a, b) && s'.current == id
            && s'.agents[id].quantum == Slice(s.agents[id].priority)
            && s'.agents[a].priority == s.agents[a].priority && s'.agents[b].priority == s.agents[b].priority
  {
    AheadChoice(s, a, b);
    TopTwoStays(s.agents, Schedule(s).agents, a, b);
  }

  /** A tick keeps the two ahead: it takes from the current turn, and the last one hands over with a full slice. */
  lemma AheadTick(s: Sched, a: nat, b: nat)
    requires Ahead(s, a, b)
    ensures var t, left := Tick(s), Left(s.agents[s.current]);
            && Ahead(t, a, b)
            && t.agents[a].priority == s.agents[a].priority && t.agents[b].priority == s.agents[b].priority
            && (left > 1 ==> t.current == s.current && Left(t.agents[t.current]) == left - 1)
            && (left == 1 ==>
                  && t.current == (if s.current == a then b else a)
                  && Left(t.agents[t.current]) == TurnLength(t.agents[t.current].priority))
  {
    var c := s.agents[s.current];
    if c.quantum > 1 {
      TopTwoStays(s.agents, Tick(s).agents, a, b);
    } else {
      var t := SetQuantum(s, s.current, Slice(c.priority));
      TopTwoStays(s.agents, t.agents, a, b);
      AheadSwitch(t, a, b);
    }
  }

  // ---------------------------------------------------------------- the alternation

  /** The turns of the two. */
  function Turns(s: Sched, a: nat, b: nat): seq<nat>
    requires Duel(s, a, b)
  {
    [TurnLength(s.agents[a].priority), TurnLength(s.agents[b].priority)]
  }

  function Position(s: Sched, a: nat, b: nat): Wheel.State
    requires Duel(s, a, b)
  {
    Wheel.State(if s.current == a then 0 else 1, Left(s.agents[s.current]))
  }

  /** One tick moves a wheel of two by one position. */
  lemma TickTurnsWheel(s: Sched, a: nat, b: nat)
    requires Duel(s, a, b)
    ensures Duel(Tick(s), a, b) && Turns(Tick(s), a, b) == Turns(s, a, b)
    ensures Wheel.Positive(Turns(s, a, b)) && Wheel.On(Turns(s, a, b), Position(s, a, b))
    ensures Position(Tick(s), a, b) == Wheel.Next(Turns(s, a, b), Position(s, a, b))
  {
    AheadTick(s, a, b);
  }

  lemma {:induction false} TicksFollowWheel(s: Sched, a: nat, b: nat, id: nat, n: nat)
    requires Duel(s, a, b)
    ensures Duel(Ticks(s, n), a, b) && Turns(Ticks(s, n), a, b) == Turns(s, a, b)
    ensures Wheel.Positive(Turns(s, a, b)) && Wheel.On(Turns(s, a, b), Position(s, a, b))
    ensures TicksHeld(s, id, n) ==
            if id == a then Wheel.Visits(Turns(s, a, b), Position(s, a, b), 0, n)
            else if id == b then Wheel.Visits(Turns(s, a, b), Position(s, a, b), 1, n)
            else 0
    decreases n
  {
    TickTurnsWheel(s, a, b);
    if n > 0 {
      TicksFollowWheel(Tick(s), a, b, id, n - 1);
    }
  }

  /**
   Shares: in every window as long as a slice of each, wherever it begins (`before` ticks from now), the two hold
   exactly their slices.
   */
  lemma {:induction false} TwoShares(s: Sched, a: nat, b: nat, before: nat, id: nat)
    requires Duel(s, a, b)
    ensures var t, ta, tb := Ticks(s, before), TurnLength(s.agents[a].priority), TurnLength(s.agents[b].priority);
            && Duel(t, a, b)
            && TicksHeld(t, id, ta + tb) == if id == a then ta else if id == b then tb else 0
  {
    TicksFollowWheel(s, a, b, id, before);
    var t, lens := Ticks(s, before), Turns(s, a, b);
    TicksFollowWheel(t, a, b, id, lens[0] + lens[1]);
    SumOfTwo(lens);
    Wheel.Revolution(lens, Position(t, a, b), 0);
    Wheel.Revolution(lens, Position(t, a, b), 1);
  }

  lemma SumOfTwo(lens: seq<nat>)
    requires |lens| == 2
    ensures Wheel.Sum(lens) == lens[0] + lens[1]
  {
    var init := lens[..1];
    assert Wheel.Sum(init) == Wheel.Sum(init[..0]) + init[0];
  }

  /** A third agent keeps only the rest of the turn it may have now; then a follows. */
  lemma {:induction false} ThirdHandsOver(s: Sched, a: nat, b: nat, n: nat)
    requires Ahead(s, a, b) && s.current != a && s.current != b
    ensures var left := Left(s.agents[s.current]);
            && Duel(Ticks(s, left), a, b) && Ticks(s, left).current == a
            && TicksHeld(s, s.current, n) == if n <= left then n else left
    decreases Left(s.agents[s.current])
  {
    var t := Tick(s);
    AheadTick(s, a, b);
    if Left(s.agents[s.current]) > 1 {
      ThirdHandsOver(t, a, b, if n == 0 then 0 else n - 1);
    } else {
      assert Ticks(s, 1) == Ticks(t, 0);
      if n > 0 {
        TicksFollowWheel(t, a, b, s.current, n - 1);
      }
    }
  }

  /** Starvation: whoever is neither of the two nor current now never runs, after any number of ticks. */
  lemma {:induction false} OthersStarve(s: Sched, a: nat, b: nat, id: nat, n: nat)
    requires Ahead(s, a, b) && id != a && id != b && id != s.current
    ensures TicksHeld(s, id, n) == 0
    decreases n
  {
    if n > 0 {
      AheadTick(s, a, b);
      OthersStarve(Tick(s), a, b, id, n - 1);
    }
  }

  /**
   Such a pair exists whenever one agent outranks all other runnable ones and some of those has a positive priority.
   */
  lemma {:induction false} SecondExists(s: Sched, a: nat, other: nat) returns (b: nat)
    requires Ok(s) && a < |s.agents| && other < |s.agents| && other != a
    requires Runnable(s.agents[a]) && Runnable(s.agents[other]) && s.agents[other].priority > 0
    requires forall x :: 0 <= x < |s.agents| && x != a && Runnable(s.agents[x]) ==>
                           s.agents[x].priority < s.agents[a].priority
    ensures TopTwo(s.agents, a, b)
  {
    // as the scheduler would see it with a running
    var seen := seq(|s.agents|, i requires 0 <= i < |s.agents| =>
      if i == a then s.agents[i].(state := Running)
      else if Runnable(s.agents[i]) then s.agents[i].(state := Ready)
      else s.agents[i]);
    var t := Sched(seen, a);
    assert Candidate(t.agents[other]);
    ChoiceIs(t);
    b := Choice(t);
    assert Runnable(s.agents[b]);
    forall x | 0 <= x < |s.agents| && x != a && x != b && Runnable(s.agents[x]) ensures Behind(s.agents, a, b, x) {
      assert t.agents[x].state == Ready;
      assert PosOf(t, b) != PosOf(t, x);
    }
  }
}
