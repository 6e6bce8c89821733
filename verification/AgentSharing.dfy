/**
 Round-robin time sharing of kernel/core/agent.c: the agents of the highest priority take turns of a full slice
 each, in the order of their ids. Only timer ticks happen during the window looked at.
 */
module AgentSharing {
  import opened Words
  import opened AgentTypes
  import opened Agents
  import Wheel

  /** A slice that wraps to 0 still lasts one tick. */
  function TurnLength(priority: u32): nat {
    if Slice(priority) == 0 then 1 else Slice(priority)
  }

  function Left(a: Agent): nat {
    if a.quantum == 0 then 1 else a.quantum
  }

  predicate Peer(a: Agent, p: u32) {
    Runnable(a) && a.priority == p
  }

  /** Ids of the runnable agents of priority p, in increasing order. */
  function Peers(agents: seq<Agent>, p: u32): seq<nat> {
    if agents == [] then []
    else
      var n := |agents| - 1;
      Peers(agents[..n], p) + if Peer(agents[n], p) then [n] else []
  }

  predicate PeerList(agents: seq<Agent>, p: u32, peers: seq<nat>) {
    && (forall k :: 0 <= k < |peers| ==> peers[k] < |agents| && Peer(agents[peers[k]], p))
    && (forall j, k :: 0 <= j < k < |peers| ==> peers[j] < peers[k])
    && (forall i :: 0 <= i < |agents| && Peer(agents[i], p) ==> i in peers)
  }

  lemma {:induction false} PeersAreListed(agents: seq<Agent>, p: u32)
    ensures PeerList(agents, p, Peers(agents, p))
  {
    if agents != [] {
      var n := |agents| - 1;
      PeersAreListed(agents[..n], p);
      var init := Peers(agents[..n], p);
      forall k | 0 <= k < |init| ensures agents[init[k]] == agents[..n][init[k]] {
      }
      forall i | 0 <= i < |agents| && Peer(agents[i], p) ensures i in Peers(agents, p) {
        if i < n {
          assert agents[i] == agents[..n][i];
          assert i in init;
        } else {
          assert Peers(agents, p)[|init|] == n;
        }
      }
    }
  }

  /**
   The running agent and at least one ready agent share priority p > 0, no ready agent is above it, and all the
   waiting ones have a full quantum. The running one may be anywhere in its slice.
   */
  predicate Sharing(s: Sched, p: u32, peers: seq<nat>) {
    && Ok(s) && s.agents != [] && p > 0
    && PeerList(s.agents, p, peers) && |peers| >= 2
    && s.agents[s.current].state == Running && s.agents[s.current].priority == p
    && s.agents[s.current].quantum <= Slice(p) && (s.agents[s.current].quantum == 0 ==> Slice(p) == 0)
    && OnlyCurrentRuns(s)
    && forall i :: 0 <= i < |s.agents| && s.agents[i].state == Ready ==>
                     && s.agents[i].priority <= p
                     && (s.agents[i].priority == p ==> s.agents[i].quantum == Slice(p))
  }

  function Rank(peers: seq<nat>, id: nat): (r: nat)
    requires id in peers
    ensures r < |peers| && peers[r] == id
  {
    if peers[0] == id then 0 else 1 + Rank(peers[1..], id)
  }

  function Turns(p: u32, k: nat): seq<nat> {
    seq(k, _ => TurnLength(p))
  }

  /** The scheduler seen as a wheel whose holders are the peers. */
  function Position(s: Sched, p: u32, peers: seq<nat>): Wheel.State
    requires Sharing(s, p, peers)
  {
    assert Peer(s.agents[s.current], p);
    Wheel.State(Rank(peers, s.current), Left(s.agents[s.current]))
  }

  /** The next agent dispatched is the peer that follows the current one in cyclic id order. */
  lemma {:induction false} NextPeerIsChosen(s: Sched, p: u32, peers: seq<nat>)
    requires Sharing(s, p, peers)
    ensures s.current in peers
    ensures var r := Rank(peers, s.current);
            Choice(s) == peers[if r + 1 < |peers| then r + 1 else 0]
  {
    assert Peer(s.agents[s.current], p);
    var r := Rank(peers, s.current);
    var t := if r + 1 < |peers| then r + 1 else 0;
    var id := peers[t];
    assert id != s.current;
    assert Candidate(s.agents[id]);
    forall x | 0 <= x < |s.agents| && s.agents[x].state == Ready && s.agents[x].priority == p
      ensures PosOf(s, id) <= PosOf(s, x)
    {
      assert Peer(s.agents[x], p);
      var q := Rank(peers, x);
      if q < r { assert peers[q] < peers[r]; } else { assert q != r && peers[r] < peers[q]; }
      if t < q { assert peers[t] < peers[q]; }
    }
    assert FirstHighest(s, id);
    ChoiceIs(s);
    FirstHighestUnique(s, id, Choice(s));
  }

  /** One tick keeps the agents sharing and moves the wheel by one position. */
  lemma {:induction false} TickTurnsWheel(s: Sched, p: u32, peers: seq<nat>)
    requires Sharing(s, p, peers)
    ensures Sharing(Tick(s), p, peers)
    ensures Wheel.Positive(Turns(p, |peers|)) && Wheel.On(Turns(p, |peers|), Position(s, p, peers))
    ensures Position(Tick(s), p, peers) == Wheel.Next(Turns(p, |peers|), Position(s, p, peers))
  {
    assert Peer(s.agents[s.current], p);
    if s.agents[s.current].quantum <= 1 {
      var t := SetQuantum(s, s.current, Slice(p));
      SameButCurrent(s, t, p, peers);
      SwitchToNextPeer(t, p, peers);
    } else {
      SameButCurrent(s, Tick(s), p, peers);
    }
  }

  /** With its quantum refilled, the running agent hands over to the next peer, which has a full quantum. */
  lemma {:induction false} SwitchToNextPeer(s: Sched, p: u32, peers: seq<nat>)
    requires Sharing(s, p, peers) && s.agents[s.current].quantum == Slice(p)
    ensures s.current in peers && Sharing(Schedule(s), p, peers)
    ensures var r := Rank(peers, s.current);
            Position(Schedule(s), p, peers) == Wheel.State(if r + 1 < |peers| then r + 1 else 0, TurnLength(p))
  {
    NextPeerIsChosen(s, p, peers);
    var r, s' := Rank(peers, s.current), Switch(s, Choice(s));
    var t := if r + 1 < |peers| then r + 1 else 0;
    assert peers[t] != peers[r];
    assert s'.agents[s'.current] == s.agents[s'.current].(state := Running);
    assert Peer(s.agents[peers[t]], p);
    SameButCurrent(s, s', p, peers);
    RankUnique(peers, Rank(peers, s'.current), t);
  }

  lemma RankUnique(peers: seq<nat>, a: nat, b: nat)
    requires forall j, k :: 0 <= j < k < |peers| ==> peers[j] < peers[k]
    requires a < |peers| && b < |peers| && peers[a] == peers[b]
    ensures a == b
  {
  }

  lemma SameButCurrent(s: Sched, t: Sched, p: u32, peers: seq<nat>)
    requires |t.agents| == |s.agents| && PeerList(s.agents, p, peers)
    requires forall i :: 0 <= i < |s.agents| ==> t.agents[i].priority == s.agents[i].priority
    requires forall i :: 0 <= i < |s.agents| ==> Runnable(t.agents[i]) == Runnable(s.agents[i])
    ensures PeerList(t.agents, p, peers)
  {
    assert forall i :: 0 <= i < |s.agents| ==> Peer(t.agents[i], p) == Peer(s.agents[i], p);
  }

  function Ticks(s: Sched, n: nat): (r: Sched)
    requires Ok(s)
    ensures Ok(r)
    decreases n
  {
    if n == 0 then s else Ticks(Tick(s), n - 1)
  }

  /** For how many of the next n ticks agent `id` is the current one. */
  function TicksHeld(s: Sched, id: nat, n: nat): nat
    requires Ok(s)
    decreases n
  {
    if n == 0 then 0 else (if s.current == id then 1 else 0) + TicksHeld(Tick(s), id, n - 1)
  }

  lemma {:induction false} TicksFollowWheel(s: Sched, p: u32, peers: seq<nat>, id: nat, n: nat)
    requires Sharing(s, p, peers)
    ensures Sharing(Ticks(s, n), p, peers)
    ensures Wheel.Positive(Turns(p, |peers|)) && Wheel.On(Turns(p, |peers|), Position(s, p, peers))
    ensures Position(Ticks(s, n), p, peers) == Wheel.Spin(Turns(p, |peers|), Position(s, p, peers), n)
    ensures TicksHeld(s, id, n) ==
            if id in peers then Wheel.Visits(Turns(p, |peers|), Position(s, p, peers), Rank(peers, id), n) else 0
    decreases n
  {
    TickTurnsWheel(s, p, peers);
    assert Peer(s.agents[s.current], p);
    if n > 0 {
      TicksFollowWheel(Tick(s), p, peers, id, n - 1);
    }
  }

  lemma {:induction false} OneRevolution(s: Sched, p: u32, peers: seq<nat>, id: nat)
    requires Sharing(s, p, peers)
    ensures TicksHeld(s, id, Wheel.Sum(Turns(p, |peers|))) == if id in peers then TurnLength(p) else 0
  {
    var lens := Turns(p, |peers|);
    TicksFollowWheel(s, p, peers, id, Wheel.Sum(lens));
    if id in peers {
      Wheel.Revolution(lens, Position(s, p, peers), Rank(peers, id));
    }
  }

  /**
   Equal shares: in every window of TurnLength(p) * k ticks, wherever it begins (`before` ticks from now), each of
   the k peers is current for exactly TurnLength(p) ticks and nobody else is; all waiting peers hold a full quantum.
   */
  lemma {:induction false} EqualShares(s: Sched, p: u32, peers: seq<nat>, before: nat, id: nat)
    requires Sharing(s, p, peers)
    ensures var t := Ticks(s, before);
            && Sharing(t, p, peers)
            && TicksHeld(t, id, TurnLength(p) * |peers|) == if id in peers then TurnLength(p) else 0
  {
    TicksFollowWheel(s, p, peers, id, before);
    Wheel.SumOfEqual(Turns(p, |peers|), TurnLength(p));
    OneRevolution(Ticks(s, before), p, peers, id);
  }

  /**
   Cyclic order: an agent at the beginning of its turn keeps it for the whole slice, and then the next peer has it.
   */
  lemma {:induction false} CyclicOrder(s: Sched, p: u32, peers: seq<nat>, n: nat)
    requires Sharing(s, p, peers) && Left(s.agents[s.current]) == TurnLength(p)
    ensures s.current in peers
    ensures n < TurnLength(p) ==> Ticks(s, n).current == s.current
    ensures var r, t := Rank(peers, s.current), Ticks(s, TurnLength(p));
            && Sharing(t, p, peers) && t.current == peers[if r + 1 < |peers| then r + 1 else 0]
            && Left(t.agents[t.current]) == TurnLength(p)
  {
    var lens := Turns(p, |peers|);
    TicksFollowWheel(s, p, peers, 0, n);
    TicksFollowWheel(s, p, peers, 0, TurnLength(p));
    assert Peer(s.agents[s.current], p);
    if n < TurnLength(p) {
      Wheel.WithinTurn(lens, Position(s, p, peers), 0, n);
    }
    Wheel.OneTurn(lens, Position(s, p, peers), 0);
    var t := Ticks(s, TurnLength(p));
    assert t.current == peers[Position(t, p, peers).turn];
  }

  /** The turn lasts the documented ten ticks per priority level exactly when that product fits in 32 bits. */
  lemma TurnLengthIff(p: u32)
    requires p > 0
    ensures TurnLength(p) == 10 * p <==> 10 * p < TWO_32
  {
  }
}
