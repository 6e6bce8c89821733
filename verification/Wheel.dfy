/**
 Turn-taking, as both schedulers of the kernel do it: holder i of `lens` keeps its turn for lens[i] ticks and
 then passes it to holder i + 1, cyclically.
 */
module Wheel {

  /** `turn` holds the turn for `left` more ticks, the present one included. */
  datatype State = State(turn: nat, left: nat)

  predicate Positive(lens: seq<nat>) {
    |lens| > 0 && forall i :: 0 <= i < |lens| ==> lens[i] > 0
  }

  predicate On(lens: seq<nat>, w: State) {
    w.turn < |lens| && 1 <= w.left <= lens[w.turn]
  }

  function Next(lens: seq<nat>, w: State): State
    requires Positive(lens) && On(lens, w)
  {
    if w.left > 1 then State(w.turn, w.left - 1)
    else
      var t := if w.turn + 1 < |lens| then w.turn + 1 else 0;
      State(t, lens[t])
  }

  function Spin(lens: seq<nat>, w: State, n: nat): (r: State)
    requires Positive(lens) && On(lens, w)
    ensures On(lens, r)
    decreases n
  {
    if n == 0 then w else Spin(lens, Next(lens, w), n - 1)
  }

  /** For how many of the next n ticks holder i has the turn. */
  function Visits(lens: seq<nat>, w: State, i: nat, n: nat): nat
    requires Positive(lens) && On(lens, w)
    decreases n
  {
    if n == 0 then 0 else (if w.turn == i then 1 else 0) + Visits(lens, Next(lens, w), i, n - 1)
  }

  function Sum(lens: seq<nat>): nat {
    if lens == [] then 0 else Sum(lens[..|lens| - 1]) + lens[|lens| - 1]
  }

  function Start(lens: seq<nat>): State
    requires Positive(lens)
  {
    State(0, lens[0])
  }

  lemma {:induction false} SpinAdds(lens: seq<nat>, w: State, a: nat, b: nat)
    requires Positive(lens) && On(lens, w)
    ensures Spin(lens, w, a + b) == Spin(lens, Spin(lens, w, a), b)
    decreases a
  {
    if a > 0 {
      SpinAdds(lens, Next(lens, w), a - 1, b);
    }
  }

  lemma {:induction false} VisitsAdd(lens: seq<nat>, w: State, i: nat, a: nat, b: nat)
    requires Positive(lens) && On(lens, w)
    ensures Visits(lens, w, i, a + b) == Visits(lens, w, i, a) + Visits(lens, Spin(lens, w, a), i, b)
    decreases a
  {
    if a > 0 {
      VisitsAdd(lens, Next(lens, w), i, a - 1, b);
    }
  }

  /** Within a turn nothing but the remaining time changes. */
  lemma {:induction false} WithinTurn(lens: seq<nat>, w: State, i: nat, n: nat)
    requires Positive(lens) && On(lens, w) && n < w.left
    ensures Spin(lens, w, n) == State(w.turn, w.left - n)
    ensures Visits(lens, w, i, n) == if i == w.turn then n else 0
    decreases n
  {
    if n > 0 {
      WithinTurn(lens, Next(lens, w), i, n - 1);
    }
  }

  lemma OneTurn(lens: seq<nat>, w: State, i: nat)
    requires Positive(lens) && On(lens, w)
    ensures var t := if w.turn + 1 < |lens| then w.turn + 1 else 0;
            Spin(lens, w, w.left) == State(t, lens[t])
    ensures Visits(lens, w, i, w.left) == if i == w.turn then w.left else 0
  {
    WithinTurn(lens, w, i, w.left - 1);
    SpinAdds(lens, w, w.left - 1, 1);
    VisitsAdd(lens, w, i, w.left - 1, 1);
    var last := Spin(lens, w, w.left - 1);
    assert Spin(lens, last, 1) == Next(lens, last);
    assert Visits(lens, last, i, 1) == if last.turn == i then 1 else 0;
  }

  /** The first k turns from the start. */
  lemma {:induction false} Turns(lens: seq<nat>, i: nat, k: nat)
    requires Positive(lens) && k <= |lens|
    ensures Spin(lens, Start(lens), Sum(lens[..k])) == if k < |lens| then State(k, lens[k]) else Start(lens)
    ensures Visits(lens, Start(lens), i, Sum(lens[..k])) == if i < k then lens[i] else 0
  {
    if k > 0 {
      Turns(lens, i, k - 1);
      assert lens[..k][..k - 1] == lens[..k - 1];
      var before := Sum(lens[..k - 1]);
      var w := Spin(lens, Start(lens), before);
      SpinAdds(lens, Start(lens), before, lens[k - 1]);
      VisitsAdd(lens, Start(lens), i, before, lens[k - 1]);
      OneTurn(lens, w, i);
    }
  }

  /** Every position of the wheel is reached from the start within one revolution. */
  lemma Reached(lens: seq<nat>, w: State) returns (at: nat)
    requires Positive(lens) && On(lens, w)
    ensures Spin(lens, Start(lens), at) == w
  {
    var before, gone := Sum(lens[..w.turn]), lens[w.turn] - w.left;
    at := before + gone;
    Turns(lens, 0, w.turn);
    SpinAdds(lens, Start(lens), before, gone);
    WithinTurn(lens, State(w.turn, lens[w.turn]), 0, gone);
  }

  /**
   Fairness: over any window of one revolution, wherever in a turn it begins, holder i has the turn for exactly
   lens[i] ticks, and the wheel is back where it was.
   */
  lemma Revolution(lens: seq<nat>, w: State, i: nat)
    requires Positive(lens) && On(lens, w)
    ensures Visits(lens, w, i, Sum(lens)) == if i < |lens| then lens[i] else 0
    ensures Spin(lens, w, Sum(lens)) == w
  {
    var s, total := Start(lens), Sum(lens);
    var at := Reached(lens, w);
    Turns(lens, i, |lens|);
    assert lens[..|lens|] == lens;
    VisitsAdd(lens, s, i, at, total);
    VisitsAdd(lens, s, i, total, at);
    SpinAdds(lens, s, at, total);
    SpinAdds(lens, s, total, at);
  }

  lemma {:induction false} SumOfEqual(lens: seq<nat>, x: nat)
    requires forall i :: 0 <= i < |lens| ==> lens[i] == x
    ensures Sum(lens) == x * |lens|
  {
    if lens != [] {
      SumOfEqual(lens[..|lens| - 1], x);
    }
  }
}
