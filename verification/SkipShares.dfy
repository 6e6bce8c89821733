/**
 When the turns of a skipping wheel are shared in proportion to the slices in the long run: exactly when they are all
 equal.
 */
module SkipShares {
  import opened SkipWheel
  import Wheel

  /** After every number of ticks, each holder has had its share of them, up to a fixed error. */
  ghost predicate Near(lens: seq<nat>, w: State, error: nat)
    requires On(lens, w)
  {
    forall i: nat, m: nat {:trigger NearAt(lens, w, error, i, m)} :: i < |lens| ==> NearAt(lens, w, error, i, m)
  }

  predicate Within(d: int, bound: int) {
    -bound <= d <= bound
  }

  predicate NearAt(lens: seq<nat>, w: State, error: nat, i: nat, m: nat)
    requires On(lens, w) && i < |lens|
  {
    Within(Wheel.Sum(lens) * Held(lens, w, i, m) - m * lens[i], error)
  }

  /** In the long run everyone's share of the ticks is its part of all slices. */
  ghost predicate Proportional(lens: seq<nat>, w: State)
    requires On(lens, w)
  {
    exists error: nat :: Near(lens, w, error)
  }

  predicate AllEqual(lens: seq<nat>) {
    forall i, j :: 0 <= i < |lens| && 0 <= j < |lens| ==> lens[i] == lens[j]
  }

  /** No slice and no quantum is above q. */
  predicate Limited(lens: seq<nat>, w: State, q: nat)
    requires On(lens, w)
  {
    forall i :: 0 <= i < |lens| ==> lens[i] <= q && w.quanta[i] <= q
  }

  function Largest(s: seq<nat>): (q: nat)
    ensures forall i :: 0 <= i < |s| ==> s[i] <= q
  {
    if s == [] then 0
    else
      var q := Largest(s[..|s| - 1]);
      if s[|s| - 1] > q then s[|s| - 1] else q
  }

  lemma SomeLimit(lens: seq<nat>, w: State) returns (q: nat)
    requires On(lens, w)
    ensures Limited(lens, w, q)
  {
    q := Largest(lens) + Largest(w.quanta);
  }

  lemma {:induction false} SpinLimited(lens: seq<nat>, w: State, q: nat, m: nat)
    requires On(lens, w) && Limited(lens, w, q)
    ensures Limited(lens, Spin(lens, w, m), q)
    decreases m
  {
    if m > 0 {
      SpinLimited(lens, Next(lens, w), q, m - 1);
    }
  }

  lemma {:induction false} SumAtLeast(lens: seq<nat>, i: nat)
    requires i < |lens|
    ensures Wheel.Sum(lens) >= lens[i]
    decreases |lens|
  {
    if i < |lens| - 1 {
      SumAtLeast(lens[..|lens| - 1], i);
    }
  }

  // ---------------------------------------------------------------- proportional shares need equal slices

  lemma Times(s: int, x: int, y: int)
    ensures s * (x - y) == s * x - s * y
    ensures s * (x + y) == s * x + s * y
  {
  }

  lemma Associate(a: int, b: int, c: int)
    ensures a * (b * c) == b * (a * c)
  {
  }

  /** What bounds a multiple bounds the number. */
  lemma BoundedMultiple(s: nat, x: int, bound: nat)
    requires s >= 1 && Within(s * x, bound)
    ensures Within(x, bound)
  {
    if x >= 0 {
      Monotone(x, 1, s);
    } else {
      Monotone(-x, 1, s);
    }
  }

  lemma PaceArithmetic(total: nat, s: nat, x: nat, h: nat, from: nat, to: nat, m: nat, error: nat, q: nat)
    requires h + to == from + s * x && from <= q && to <= q && s >= 1
    requires Within(total * h - m * s, error)
    ensures Within(total * x - m, error + total * q)
  {
    var d, y := total * x - m, error + total * q;
    assert s * d == (total * h - m * s) + (total * to - total * from) by {
      Times(s, total * x, m);
      Associate(s, total, x);
      Times(total, h, to);
      Times(total, from, s * x);
    }
    Monotone(total, from, q);
    Monotone(total, to, q);
    BoundedMultiple(s, d, y);
  }

  predicate ExpiriesClose(lens: seq<nat>, w: State, slack: nat, i: nat, m: nat)
    requires On(lens, w)
  {
    Within(Wheel.Sum(lens) * Expiries(lens, w, i, m) - m, slack)
  }

  predicate PassesClose(lens: seq<nat>, w: State, slack: nat, i: nat, m: nat)
    requires On(lens, w) && i < |lens|
  {
    Within(Wheel.Sum(lens) * Passes(lens, w, i, m) - m * (lens[i] + 1), 2 * slack)
  }

  /** With proportional turns, everyone's slices run out at the same pace. */
  lemma ExpiriesNear(lens: seq<nat>, w: State, q: nat, error: nat, i: nat, m: nat, slack: nat)
    requires On(lens, w) && Limited(lens, w, q) && Near(lens, w, error) && i < |lens| && lens[i] > 0
    requires slack >= error + Wheel.Sum(lens) * q
    ensures ExpiriesClose(lens, w, slack, i, m)
  {
    assert NearAt(lens, w, error, i, m);
    SlicesLaw(lens, w, i, m);
    SpinLimited(lens, w, q, m);
    PaceArithmetic(Wheel.Sum(lens), lens[i], Expiries(lens, w, i, m), Held(lens, w, i, m),
                   w.quanta[i], Spin(lens, w, m).quanta[i], m, error, q);
  }

  lemma PassesArithmetic(total: nat, h: nat, x: nat, m: nat, s: nat, error: nat, slack: nat)
    requires Within(total * h - m * s, error) && error <= slack && Within(total * x - m, slack)
    ensures Within(total * (h + x) - m * (s + 1), 2 * slack)
  {
    Times(total, h, x);
    Times(m, s, 1);
  }

  lemma PassesNear(lens: seq<nat>, w: State, error: nat, i: nat, m: nat, slack: nat)
    requires On(lens, w) && i < |lens| && error <= slack
    requires NearAt(lens, w, error, i, m) && ExpiriesClose(lens, w, slack, Pred(|lens|, i), m)
    ensures PassesClose(lens, w, slack, i, m)
  {
    PassesArithmetic(Wheel.Sum(lens), Held(lens, w, i, m), Expiries(lens, w, Pred(|lens|, i), m),
                     m, lens[i], error, slack);
  }

  lemma EqualArithmetic(total: nat, x: nat, y: nat, s: nat, s': nat, slack: nat, m: nat)
    requires Within(total * x - m * (s + 1), 2 * slack) && Within(total * y - m * (s' + 1), 2 * slack)
    requires x <= y + 1 && m > 4 * slack + total
    ensures s <= s'
  {
    Monotone(total, x, y + 1);
    Distribute(total, y, 1);
    Times(m, s + 1, s' + 1);
    if s > s' {
      Monotone(m, 1, s - s');
    }
  }

  lemma LongEnough(lens: seq<nat>, q: nat, error: nat) returns (slack: nat, m: nat)
    ensures slack >= error + Wheel.Sum(lens) * q && slack >= error && m > 4 * slack + Wheel.Sum(lens)
  {
    Monotone(q, 0, Wheel.Sum(lens));
    slack := error + Wheel.Sum(lens) * q;
    m := 4 * slack + Wheel.Sum(lens) + 1;
  }

  lemma ClosePassesForceEqual(lens: seq<nat>, w: State, i: nat, j: nat, slack: nat, m: nat)
    requires On(lens, w) && i < |lens| && j < |lens|
    requires PassesClose(lens, w, slack, i, m) && PassesClose(lens, w, slack, j, m)
    requires m > 4 * slack + Wheel.Sum(lens)
    ensures lens[i] <= lens[j]
  {
    TurnsBalance(lens, w, i, j, m);
    EqualArithmetic(Wheel.Sum(lens), Passes(lens, w, i, m), Passes(lens, w, j, m), lens[i], lens[j], slack, m);
  }

  lemma NearForcesClose(lens: seq<nat>, w: State, q: nat, error: nat, i: nat, m: nat, slack: nat)
    requires On(lens, w) && Limited(lens, w, q) && Near(lens, w, error) && i < |lens| && lens[Pred(|lens|, i)] > 0
    requires slack >= error + Wheel.Sum(lens) * q && slack >= error
    ensures PassesClose(lens, w, slack, i, m)
  {
    ExpiriesNear(lens, w, q, error, Pred(|lens|, i), m, slack);
    assert NearAt(lens, w, error, i, m);
    PassesNear(lens, w, error, i, m, slack);
  }

  lemma NearForcesEqual(lens: seq<nat>, w: State, q: nat, error: nat, i: nat, j: nat)
    requires On(lens, w) && Limited(lens, w, q) && Near(lens, w, error) && i < |lens| && j < |lens|
    requires forall k :: 0 <= k < |lens| ==> lens[k] > 0
    ensures lens[i] <= lens[j]
  {
    var slack, m := LongEnough(lens, q, error);
    NearForcesClose(lens, w, q, error, i, m, slack);
    NearForcesClose(lens, w, q, error, j, m, slack);
    ClosePassesForceEqual(lens, w, i, j, slack, m);
  }

  lemma FewArithmetic(s: nat, x: nat, g: nat, from: nat, to: nat, h: nat, q: nat)
    requires g + to == from + s * x && s >= 2 && to <= q && g <= h + x + 1
    ensures x <= h + 1 + q
  {
    Monotone(x, 2, s);
  }

  /** A holder without a slice, if it seldom has the turn, is seldom passed over either. */
  lemma EmptyPassesFew(lens: seq<nat>, w: State, q: nat, z: nat, m: nat)
    requires On(lens, w) && Limited(lens, w, q) && z < |lens| && lens[Pred(|lens|, z)] != 1
    ensures Passes(lens, w, z, m) <= 2 * Held(lens, w, z, m) + 1 + q
  {
    var p := Pred(|lens|, z);
    if lens[p] == 0 {
      EmptyNeverExpires(lens, w, p, m);
    } else {
      SlicesLaw(lens, w, p, m);
      SpinLimited(lens, w, q, m);
      TurnsBalance(lens, w, p, z, m);
      FewArithmetic(lens[p], Expiries(lens, w, p, m), Held(lens, w, p, m),
                    w.quanta[p], Spin(lens, w, m).quanta[p], Held(lens, w, z, m), q);
    }
  }

  lemma EmptyHoldsFew(lens: seq<nat>, w: State, error: nat, z: nat, m: nat)
    requires On(lens, w) && z < |lens| && lens[z] == 0 && Wheel.Sum(lens) > 0 && NearAt(lens, w, error, z, m)
    ensures Held(lens, w, z, m) <= error
  {
    BoundedMultiple(Wheel.Sum(lens), Held(lens, w, z, m), error);
  }

  predicate Fits(n: nat, p: nat, m: nat) {
    n * (p + 1) <= m
  }

  lemma LongEnoughFor(n: nat, bound: nat) returns (m: nat)
    ensures forall p: nat :: p < bound ==> Fits(n, p, m)
  {
    m := n * bound;
    forall p: nat | p < bound
      ensures Fits(n, p, m)
    {
      Monotone(n, p + 1, bound);
    }
  }

  /** So it cannot stop holding the turn, as proportional shares would demand. */
  lemma EmptySliceIsUnfair(lens: seq<nat>, w: State, q: nat, error: nat, z: nat)
    requires On(lens, w) && Limited(lens, w, q) && Near(lens, w, error) && z < |lens|
    requires forall k :: 0 <= k < |lens| ==> lens[k] != 1
    requires lens[z] == 0
    ensures Wheel.Sum(lens) == 0
  {
    if Wheel.Sum(lens) > 0 {
      var m := LongEnoughFor(|lens|, 2 * error + 2 + q);
      assert NearAt(lens, w, error, z, m);
      EmptyHoldsFew(lens, w, error, z, m);
      EmptyPassesFew(lens, w, q, z, m);
      assert Fits(|lens|, Passes(lens, w, z, m), m);
      PassesAreMany(lens, w, z, m);
    }
  }

  lemma ZeroSum(lens: seq<nat>)
    requires Wheel.Sum(lens) == 0
    ensures AllEqual(lens)
  {
    forall i | 0 <= i < |lens|
      ensures lens[i] == 0
    {
      SumAtLeast(lens, i);
    }
  }

  lemma NearNeedsEqual(lens: seq<nat>, w: State, error: nat)
    requires On(lens, w) && Near(lens, w, error)
    requires forall k :: 0 <= k < |lens| ==> lens[k] != 1
    ensures AllEqual(lens)
  {
    var q := SomeLimit(lens, w);
    if z :| 0 <= z < |lens| && lens[z] == 0 {
      EmptySliceIsUnfair(lens, w, q, error, z);
      ZeroSum(lens);
    } else {
      forall i, j | 0 <= i < |lens| && 0 <= j < |lens|
        ensures lens[i] == lens[j]
      {
        NearForcesEqual(lens, w, q, error, i, j);
        NearForcesEqual(lens, w, q, error, j, i);
      }
    }
  }

  // ---------------------------------------------------------------- equal slices give proportional shares

  /** For how many of the next m ticks one of the first j holders has the turn. */
  function HeldBelow(lens: seq<nat>, w: State, j: nat, m: nat): nat
    requires On(lens, w)
    decreases m
  {
    if m == 0 then 0 else Count(w.turn < j) + HeldBelow(lens, Next(lens, w), j, m - 1)
  }

  lemma {:induction false} OneMoreHolder(lens: seq<nat>, w: State, j: nat, m: nat)
    requires On(lens, w)
    ensures HeldBelow(lens, w, j + 1, m) == HeldBelow(lens, w, j, m) + Held(lens, w, j, m)
    ensures HeldBelow(lens, w, 0, m) == 0 && HeldBelow(lens, w, |lens|, m) == m
    decreases m
  {
    if m > 0 {
      OneMoreHolder(lens, Next(lens, w), j, m - 1);
    }
  }

  predicate HeldIn(lens: seq<nat>, w: State, m: nat, lo: nat, hi: nat)
    requires On(lens, w)
  {
    forall i: nat {:trigger Held(lens, w, i, m)} :: i < |lens| ==> lo <= Held(lens, w, i, m) <= hi
  }

  lemma {:induction false} HeldBetween(lens: seq<nat>, w: State, j: nat, m: nat, lo: nat, hi: nat)
    requires On(lens, w) && j <= |lens| && HeldIn(lens, w, m, lo, hi)
    ensures lo * j <= HeldBelow(lens, w, j, m) <= hi * j
    decreases j
  {
    if j == 0 {
      OneMoreHolder(lens, w, 0, m);
    } else {
      HeldBetween(lens, w, j - 1, m, lo, hi);
      OneMoreHolder(lens, w, j - 1, m);
      Distribute(lo, j - 1, 1);
      Distribute(hi, j - 1, 1);
    }
  }

  /** Who holds the turn most and who least among the first j. */
  lemma {:induction false} Extremes(lens: seq<nat>, w: State, j: nat, m: nat) returns (a: nat, b: nat)
    requires On(lens, w) && 1 <= j <= |lens|
    ensures a < j && b < j
    ensures forall i {:trigger Held(lens, w, i, m)} :: 0 <= i < j ==> Held(lens, w, i, m) <= Held(lens, w, a, m)
    ensures forall i {:trigger Held(lens, w, i, m)} :: 0 <= i < j ==> Held(lens, w, b, m) <= Held(lens, w, i, m)
    decreases j
  {
    if j == 1 {
      a, b := 0, 0;
    } else {
      a, b := Extremes(lens, w, j - 1, m);
      if Held(lens, w, j - 1, m) > Held(lens, w, a, m) {
        a := j - 1;
      }
      if Held(lens, w, j - 1, m) < Held(lens, w, b, m) {
        b := j - 1;
      }
    }
  }

  lemma PairArithmetic(s: nat, h: nat, x: nat, h': nat, x': nat, g: nat, g': nat,
                       from: nat, to: nat, from': nat, to': nat, q: nat)
    requires g + to == from + s * x && g' + to' == from' + s * x' && h + x <= h' + x' + 1
    requires from <= q && to' <= q
    ensures s * h + g <= s * h' + g' + s + 2 * q
  {
    Monotone(s, h + x, h' + x' + 1);
    Distribute(s, h, x);
    Distribute(s, h' + x', 1);
    Distribute(s, h', x');
  }

  /** With equal slices, the turns of a holder and of the one before it weigh the same for all, nearly. */
  lemma PairsBalance(lens: seq<nat>, w: State, q: nat, s: nat, i: nat, j: nat, m: nat)
    requires On(lens, w) && Limited(lens, w, q) && i < |lens| && j < |lens| && s > 0
    requires forall k :: 0 <= k < |lens| ==> lens[k] == s
    ensures var n := |lens|;
            s * Held(lens, w, i, m) + Held(lens, w, Pred(n, i), m)
            <= s * Held(lens, w, j, m) + Held(lens, w, Pred(n, j), m) + s + 2 * q
  {
    var p, p' := Pred(|lens|, i), Pred(|lens|, j);
    var v := Spin(lens, w, m);
    SlicesLaw(lens, w, p, m);
    SlicesLaw(lens, w, p', m);
    SpinLimited(lens, w, q, m);
    TurnsBalance(lens, w, i, j, m);
    PairArithmetic(s, Held(lens, w, i, m), Expiries(lens, w, p, m), Held(lens, w, j, m), Expiries(lens, w, p', m),
                   Held(lens, w, p, m), Held(lens, w, p', m), w.quanta[p], v.quanta[p], w.quanta[p'], v.quanta[p'], q);
  }

  lemma SpreadArithmetic(s: nat, most: nat, least: nat, g: nat, g': nat, slack: nat)
    requires s >= 2 && least <= most && least <= g && g' <= most
    requires s * most + g <= s * least + g' + slack
    ensures most - least <= slack
  {
    Times(s, most, least);
    Monotone(most - least, 2, s);
  }

  /** Then nobody holds the turn much more often than anybody else. */
  lemma EqualSpread(lens: seq<nat>, w: State, q: nat, s: nat, m: nat) returns (lo: nat, hi: nat)
    requires On(lens, w) && Limited(lens, w, q) && s >= 2
    requires forall k :: 0 <= k < |lens| ==> lens[k] == s
    ensures lo <= hi <= lo + s + 2 * q && HeldIn(lens, w, m, lo, hi)
  {
    var n := |lens|;
    var a, b := Extremes(lens, w, n, m);
    hi, lo := Held(lens, w, a, m), Held(lens, w, b, m);
    PairsBalance(lens, w, q, s, a, b, m);
    SpreadArithmetic(s, hi, lo, Held(lens, w, Pred(n, a), m), Held(lens, w, Pred(n, b), m), s + 2 * q);
  }

  lemma ShareArithmetic(n: nat, s: nat, h: nat, m: nat, lo: nat, hi: nat, spread: nat)
    requires lo <= h <= hi <= lo + spread && lo * n <= m <= hi * n
    ensures Within((s * n) * h - m * s, s * (n * spread))
  {
    Monotone(n, h, lo + spread);
    Monotone(n, hi, h + spread);
    Distribute(n, lo, spread);
    Distribute(n, h, spread);
    var d := n * h - m;
    assert Within(d, n * spread);
    assert (s * n) * h - m * s == s * d by {
      Times(s, n * h, m);
      Associate(s, n, h);
    }
    if d >= 0 {
      Monotone(s, d, n * spread);
    } else {
      Monotone(s, -d, n * spread);
    }
  }

  lemma {:induction false} SumOfEqual(lens: seq<nat>, s: nat)
    requires forall i :: 0 <= i < |lens| ==> lens[i] == s
    ensures Wheel.Sum(lens) == s * |lens|
  {
    Wheel.SumOfEqual(lens, s);
  }

  lemma EqualIsNear(lens: seq<nat>, w: State, q: nat, s: nat)
    requires On(lens, w) && Limited(lens, w, q) && s >= 2
    requires forall k :: 0 <= k < |lens| ==> lens[k] == s
    ensures Near(lens, w, s * (|lens| * (s + 2 * q)))
  {
    var n, spread := |lens|, s + 2 * q;
    var error: nat := s * (n * spread);
    SumOfEqual(lens, s);
    forall i: nat, m: nat {:trigger NearAt(lens, w, error, i, m)} | i < n
      ensures NearAt(lens, w, error, i, m)
    {
      assert lens[i] == s;
      var lo, hi := EqualSpread(lens, w, q, s, m);
      HeldBetween(lens, w, n, m, lo, hi);
      OneMoreHolder(lens, w, 0, m);
      ShareArithmetic(n, s, Held(lens, w, i, m), m, lo, hi, spread);
    }
  }

  lemma AllZeroIsNear(lens: seq<nat>, w: State)
    requires On(lens, w) && forall k :: 0 <= k < |lens| ==> lens[k] == 0
    ensures Near(lens, w, 0)
  {
    SumOfEqual(lens, 0);
    forall i: nat, m: nat {:trigger NearAt(lens, w, 0, i, m)} | i < |lens|
      ensures NearAt(lens, w, 0, i, m)
    {
      assert lens[i] == 0;
    }
  }

  /**
   Whatever the slices, and wherever the wheel starts: the turns are shared in proportion to the slices in the long run
   if and only if all slices are equal. (A slice of one unit would run out at every turn.)
   */
  lemma ProportionalIff(lens: seq<nat>, w: State)
    requires On(lens, w) && forall k :: 0 <= k < |lens| ==> lens[k] != 1
    ensures Proportional(lens, w) <==> AllEqual(lens)
  {
    if Proportional(lens, w) {
      var error: nat :| Near(lens, w, error);
      NearNeedsEqual(lens, w, error);
    }
    if AllEqual(lens) {
      if lens[0] == 0 {
        AllZeroIsNear(lens, w);
      } else {
        var q := SomeLimit(lens, w);
        EqualIsNear(lens, w, q, lens[0]);
      }
    }
  }
}
