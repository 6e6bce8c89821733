/**
 Turn-taking that moves on at every tick: the holder uses up one unit of its quantum and the turn passes to the next
 one. A quantum that runs out is refilled, and then the turn passes over the next holder. A holder without a slice has
 no quantum and never runs out. The laws of its turns hold for every number of ticks.
 */
module SkipWheel {
  datatype State = State(turn: nat, quanta: seq<nat>)

  predicate On(lens: seq<nat>, w: State) {
    && |w.quanta| == |lens| && w.turn < |lens|
    && forall i :: 0 <= i < |lens| ==> (w.quanta[i] == 0 <==> lens[i] == 0)
  }

  function Succ(n: nat, i: nat): nat {
    if i + 1 < n then i + 1 else 0
  }

  function Pred(n: nat, i: nat): (p: nat)
    requires i < n
    ensures p < n && Succ(n, p) == i
  {
    if i == 0 then n - 1 else i - 1
  }

  /** The coming tick uses up the holder's quantum. */
  predicate RunsOut(w: State) {
    w.turn < |w.quanta| && w.quanta[w.turn] == 1
  }

  function Spent(len: nat, quantum: nat): nat {
    if quantum > 1 then quantum - 1 else if quantum == 1 then len else 0
  }

  function Next(lens: seq<nat>, w: State): (r: State)
    requires On(lens, w)
    ensures On(lens, r)
  {
    var n, t := |lens|, w.turn;
    State(if RunsOut(w) then Succ(n, Succ(n, t)) else Succ(n, t), w.quanta[t := Spent(lens[t], w.quanta[t])])
  }

  function Spin(lens: seq<nat>, w: State, m: nat): (r: State)
    requires On(lens, w)
    ensures On(lens, r)
    decreases m
  {
    if m == 0 then w else Spin(lens, Next(lens, w), m - 1)
  }

  function Count(b: bool): nat {
    if b then 1 else 0
  }

  /** For how many of the next m ticks holder i has the turn. */
  function Held(lens: seq<nat>, w: State, i: nat, m: nat): nat
    requires On(lens, w)
    decreases m
  {
    if m == 0 then 0 else Count(w.turn == i) + Held(lens, Next(lens, w), i, m - 1)
  }

  /** How often the quantum of holder i runs out in them. */
  function Expiries(lens: seq<nat>, w: State, i: nat, m: nat): nat
    requires On(lens, w)
    decreases m
  {
    if m == 0 then 0 else Count(RunsOut(w) && w.turn == i) + Expiries(lens, Next(lens, w), i, m - 1)
  }

  function AllExpiries(lens: seq<nat>, w: State, m: nat): nat
    requires On(lens, w)
    decreases m
  {
    if m == 0 then 0 else Count(RunsOut(w)) + AllExpiries(lens, Next(lens, w), m - 1)
  }

  /** How far the turn is from holder i. */
  function Distance(n: nat, turn: nat, i: nat): (d: nat)
    requires turn < n && i < n
    ensures d < n
  {
    if i >= turn then i - turn else i + n - turn
  }

  // ---------------------------------------------------------------- arithmetic

  lemma Distribute(n: nat, a: nat, b: nat)
    ensures n * (a + b) == n * a + n * b
  {
  }

  lemma Monotone(n: nat, a: nat, b: nat)
    requires a <= b
    ensures n * a <= n * b
  {
    Distribute(n, a, b - a);
  }

  /** Two stretches, one after the other. */
  lemma Join(n: nat, x: nat, y: nat, from: nat, mid: nat, to: nat, steps: nat, steps': nat)
    requires n * x + from == steps + mid && n * y + mid == steps' + to
    ensures n * (x + y) + from == steps + steps' + to
  {
    Distribute(n, x, y);
  }

  lemma CloseMultiples(n: nat, a: nat, b: nat, total: nat, from: nat, to: nat, from': nat, to': nat)
    requires n * a + from == total + to && n * b + from' == total + to'
    requires from < n && to < n && from' < n && to' < n
    ensures a <= b + 1
  {
    Distribute(n, b, 2);
    if a >= b + 2 {
      Monotone(n, b + 2, a);
    }
  }

  // ---------------------------------------------------------------- the laws

  /** Turns held and turns passed over: how often the turn comes to holder i or passes over it. */
  function Passes(lens: seq<nat>, w: State, i: nat, m: nat): nat
    requires On(lens, w) && i < |lens|
  {
    Held(lens, w, i, m) + Expiries(lens, w, Pred(|lens|, i), m)
  }

  lemma OnePasses(n: nat, t: nat, i: nat, e: bool)
    requires t < n && i < n
    ensures var t' := if e then Succ(n, Succ(n, t)) else Succ(n, t);
            && t' < n
            && n * (Count(t == i) + Count(e && t == Pred(n, i))) + Distance(n, t, i) ==
               1 + Count(e) + Distance(n, t', i)
  {
  }

  /** The law of the turns: each time the turn goes round, it comes to holder i or passes over it. */
  lemma {:induction false} TurnsLaw(lens: seq<nat>, w: State, i: nat, m: nat)
    requires On(lens, w) && i < |lens|
    ensures var n := |lens|;
            n * Passes(lens, w, i, m) + Distance(n, w.turn, i)
            == m + AllExpiries(lens, w, m) + Distance(n, Spin(lens, w, m).turn, i)
    decreases m
  {
    var n, e, p := |lens|, RunsOut(w), Pred(|lens|, i);
    if m > 0 {
      var v := Next(lens, w);
      OnePasses(n, w.turn, i, e);
      TurnsLaw(lens, v, i, m - 1);
      Join(n, Count(w.turn == i) + Count(e && w.turn == p), Passes(lens, v, i, m - 1),
           Distance(n, w.turn, i), Distance(n, v.turn, i), Distance(n, Spin(lens, w, m).turn, i),
           1 + Count(e), m - 1 + AllExpiries(lens, v, m - 1));
    }
  }

  /** The law of the slices: the turns held are accounted for by the slices used up and the quantum. */
  lemma {:induction false} SlicesLaw(lens: seq<nat>, w: State, i: nat, m: nat)
    requires On(lens, w) && i < |lens| && lens[i] > 0
    ensures Held(lens, w, i, m) + Spin(lens, w, m).quanta[i] == w.quanta[i] + lens[i] * Expiries(lens, w, i, m)
    decreases m
  {
    if m > 0 {
      SlicesLaw(lens, Next(lens, w), i, m - 1);
      Distribute(lens[i], Count(RunsOut(w) && w.turn == i), Expiries(lens, Next(lens, w), i, m - 1));
    }
  }

  lemma {:induction false} EmptyNeverExpires(lens: seq<nat>, w: State, i: nat, m: nat)
    requires On(lens, w) && i < |lens| && lens[i] == 0
    ensures Expiries(lens, w, i, m) == 0
    decreases m
  {
    if m > 0 {
      EmptyNeverExpires(lens, Next(lens, w), i, m - 1);
    }
  }

  /** A quantum that is at most the slice stays so. */
  lemma {:induction false} QuantaStayBelow(lens: seq<nat>, w: State, m: nat)
    requires On(lens, w) && forall i :: 0 <= i < |lens| ==> w.quanta[i] <= lens[i]
    ensures forall i :: 0 <= i < |lens| ==> Spin(lens, w, m).quanta[i] <= lens[i]
    decreases m
  {
    if m > 0 {
      QuantaStayBelow(lens, Next(lens, w), m - 1);
    }
  }

  /** Turns held and passed over together differ by at most one between any two holders. */
  lemma TurnsBalance(lens: seq<nat>, w: State, i: nat, j: nat, m: nat)
    requires On(lens, w) && i < |lens| && j < |lens|
    ensures Passes(lens, w, i, m) <= Passes(lens, w, j, m) + 1
  {
    var n, t := |lens|, Spin(lens, w, m).turn;
    TurnsLaw(lens, w, i, m);
    TurnsLaw(lens, w, j, m);
    CloseMultiples(n, Passes(lens, w, i, m), Passes(lens, w, j, m), m + AllExpiries(lens, w, m),
                   Distance(n, w.turn, i), Distance(n, t, i), Distance(n, w.turn, j), Distance(n, t, j));
  }

  /** Every holder gets its share of them. */
  lemma PassesAreMany(lens: seq<nat>, w: State, i: nat, m: nat)
    requires On(lens, w) && i < |lens|
    ensures |lens| * (Passes(lens, w, i, m) + 1) > m
  {
    TurnsLaw(lens, w, i, m);
    Distribute(|lens|, Passes(lens, w, i, m), 1);
  }

  /** While no quantum runs out, everyone has the turn once in any |lens| ticks. */
  lemma OnceEach(lens: seq<nat>, w: State, i: nat)
    requires On(lens, w) && i < |lens| && AllExpiries(lens, w, |lens|) == 0
    ensures Held(lens, w, i, |lens|) == 1
  {
    var n := |lens|;
    var x := Passes(lens, w, i, n);
    TurnsLaw(lens, w, i, n);
    ExpiriesAreAmongAll(lens, w, Pred(n, i), n);
    TurnAfterQuiet(lens, w, n);
    MultipleIsOne(n, x);
  }

  lemma MultipleIsOne(n: nat, x: nat)
    requires n > 0 && n * x == n
    ensures x == 1
  {
    if x >= 2 {
      Monotone(n, 2, x);
    }
  }

  lemma {:induction false} ExpiriesAreAmongAll(lens: seq<nat>, w: State, i: nat, m: nat)
    requires On(lens, w)
    ensures Expiries(lens, w, i, m) <= AllExpiries(lens, w, m)
    decreases m
  {
    if m > 0 {
      ExpiriesAreAmongAll(lens, Next(lens, w), i, m - 1);
    }
  }

  lemma {:induction false} TurnAfterQuiet(lens: seq<nat>, w: State, m: nat)
    requires On(lens, w) && AllExpiries(lens, w, m) == 0 && m <= |lens|
    ensures Spin(lens, w, m).turn == if w.turn + m < |lens| then w.turn + m else w.turn + m - |lens|
    decreases m
  {
    if m > 0 {
      TurnAfterQuiet(lens, Next(lens, w), m - 1);
    }
  }
}
