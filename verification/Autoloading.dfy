/**
 Which modules autoloading gets to run. A pass visits the registry in order, so a dependency that stands earlier in
 the registry is started in the same pass, and one that stands later costs one more pass.
 */
module Autoloading {
  import opened Loading

  predicate UniqueNames(mods: seq<Mod>) {
    forall i, j :: 0 <= i < j < |mods| ==> mods[i].name != mods[j].name
  }

  /** Module i can be running after k passes: read off the registry alone, without any run. */
  predicate Startable(mods: seq<Mod>, k: nat, i: nat)
    requires i < |mods|
    decreases k, i
  {
    && k > 0 && NodeOk(mods, i)
    && forall e :: 0 <= e < |mods[i].depends| ==>
                     var j := Find(mods, mods[i].depends[e]);
                     if j < i then Startable(mods, k, j) else j < |mods| && Startable(mods, k - 1, j)
  }

  lemma {:induction false} StartableMore(mods: seq<Mod>, k: nat, i: nat)
    requires i < |mods| && Startable(mods, k, i)
    ensures Startable(mods, k + 1, i)
    decreases k, i
  {
    forall e | 0 <= e < |mods[i].depends|
      ensures var j := Find(mods, mods[i].depends[e]);
              if j < i then Startable(mods, k + 1, j) else j < |mods| && Startable(mods, k, j)
    {
      var j := Find(mods, mods[i].depends[e]);
      StartableMore(mods, if j < i then k else k - 1, j);
    }
  }

  /** In pass k + 1, before the visit to module n: who runs, and what the others can still become. */
  predicate InPass(mods: seq<Mod>, l: Loader, k: nat, n: nat) {
    && |l.status| == |mods| && n <= |mods|
    && forall i {:trigger l.status[i]} :: 0 <= i < |mods| ==>
                                            && (l.status[i] == Running <==>
                                                if i < n then Startable(mods, k + 1, i) else Startable(mods, k, i))
                                            && (mods[i].init == 0 ==> l.status[i] == Unloaded || l.status[i] == Running)
  }

  /** After k passes: exactly the modules startable in k passes run, and no sound module has failed. */
  predicate Reached(mods: seq<Mod>, l: Loader, k: nat) {
    && |l.status| == |mods|
    && forall i {:trigger l.status[i]} :: 0 <= i < |mods| ==>
                                            && (l.status[i] == Running <==> Startable(mods, k, i))
                                            && (mods[i].init == 0 ==> l.status[i] == Unloaded || l.status[i] == Running)
  }

  lemma FindsItself(mods: seq<Mod>, i: nat)
    requires UniqueNames(mods) && i < |mods|
    ensures Find(mods, mods[i].name) == i
  {
  }

  lemma VisitInPass(mods: seq<Mod>, l: Loader, k: nat, n: nat)
    requires UniqueNames(mods) && n < |mods| && InPass(mods, l, k, n)
    ensures InPass(mods, Visit(mods, l, n), k, n + 1)
    ensures !Starts(mods, l, n) ==> (Startable(mods, k + 1, n) <==> Startable(mods, k, n))
  {
    FindsItself(mods, n);
    if l.status[n] == Running {
      StartableMore(mods, k, n);
    } else {
      MetIff(mods, l, k, n);
    }
  }

  lemma MetIff(mods: seq<Mod>, l: Loader, k: nat, n: nat)
    requires n < |mods| && InPass(mods, l, k, n)
    ensures Startable(mods, k + 1, n) <==> mods[n].init == 0 && DepsMet(mods, l.status, n)
  {
    if DepsMet(mods, l.status, n) && mods[n].init == 0 {
      forall e | 0 <= e < |mods[n].depends|
        ensures var j := Find(mods, mods[n].depends[e]);
                if j < n then Startable(mods, k + 1, j) else j < |mods| && Startable(mods, k, j)
      {
      }
    }
  }

  lemma {:induction false} VisitsInPass(mods: seq<Mod>, l: Loader, k: nat, n: nat)
    requires UniqueNames(mods) && n <= |mods| && InPass(mods, l, k, 0)
    ensures InPass(mods, Visits(mods, l, n), k, n)
    ensures !Progress(mods, l, n) ==>
              forall i :: 0 <= i < n ==> (Startable(mods, k + 1, i) <==> Startable(mods, k, i))
  {
    if n > 0 {
      var l' := Visits(mods, l, n - 1);
      VisitsInPass(mods, l, k, n - 1);
      VisitInPass(mods, l', k, n - 1);
    }
  }

  lemma PassReaches(mods: seq<Mod>, l: Loader, k: nat)
    requires UniqueNames(mods) && Reached(mods, l, k)
    ensures Reached(mods, Pass(mods, l), k + 1)
    ensures !Progress(mods, l, |mods|) ==> Stable(mods, k)
  {
    VisitsInPass(mods, l, k, |mods|);
  }

  /** The load count of a pass is the number of modules it has started, and progress means that there were any. */
  lemma {:induction false} SuccessesCount(mods: seq<Mod>, l: Loader, n: nat)
    requires UniqueNames(mods) && |l.status| == |mods| && n <= |mods|
    ensures |Visits(mods, l, n).started| == |l.started| + Successes(mods, l, n)
    ensures Progress(mods, l, n) <==> |Visits(mods, l, n).started| > |l.started|
  {
    if n > 0 {
      SuccessesCount(mods, l, n - 1);
      FindsItself(mods, n - 1);
    }
  }

  /** One more pass would start nothing new. */
  predicate Stable(mods: seq<Mod>, k: nat) {
    forall i :: 0 <= i < |mods| ==> (Startable(mods, k + 1, i) <==> Startable(mods, k, i))
  }

  lemma {:induction false} StableFrom(mods: seq<Mod>, k: nat, m: nat, i: nat)
    requires Stable(mods, k) && k <= m && i < |mods|
    ensures Startable(mods, m, i) <==> Startable(mods, k, i)
    decreases m, i
  {
    if m > k {
      forall j | 0 <= j < |mods| ensures Startable(mods, m - 1, j) <==> Startable(mods, k, j) {
        StableFrom(mods, k, m - 1, j);
      }
      forall j | 0 <= j < i ensures Startable(mods, m, j) <==> Startable(mods, k + 1, j) {
        StableFrom(mods, k, m, j);
        assert Startable(mods, k + 1, j) <==> Startable(mods, k, j);
      }
      assert Startable(mods, m, i) <==> Startable(mods, k + 1, i);
    }
  }

  lemma ReachedStays(mods: seq<Mod>, l: Loader, k: nat, m: nat)
    requires Stable(mods, k) && k < m && Reached(mods, l, k + 1)
    ensures Reached(mods, l, m)
  {
    forall i | 0 <= i < |mods| ensures l.status[i] == Running <==> Startable(mods, m, i) {
      StableFrom(mods, k, m, i);
      assert Startable(mods, k + 1, i) <==> Startable(mods, k, i);
    }
  }

  lemma {:induction false} PassesReach(mods: seq<Mod>, l: Loader, k: nat, n: nat)
    requires UniqueNames(mods) && Reached(mods, l, k)
    ensures Reached(mods, Passes(mods, l, n), k + n)
    decreases n
  {
    if n > 0 {
      var l' := Pass(mods, l);
      PassReaches(mods, l, k);
      if Progress(mods, l, |mods|) {
        PassesReach(mods, l', k + 1, n - 1);
        assert Passes(mods, l, n) == Passes(mods, l', n - 1);
      } else {
        ReachedStays(mods, l', k, k + n);
        assert Passes(mods, l, n) == l';
      }
    }
  }

  /** After autoloading a fresh registry, exactly the modules startable within ten passes run. */
  lemma AutoloadReaches(mods: seq<Mod>, l: Loader, i: nat)
    requires UniqueNames(mods) && Fresh(mods, l) && i < |mods|
    ensures Autoload(mods, l).status[i] == Running <==> Startable(mods, MAX_ITERATIONS, i)
  {
    PassesReach(mods, l, 0, MAX_ITERATIONS);
  }

  // ---------------------------------------------------------------- the same, by walks along dependencies

  /** How many steps of a walk lead to a module at or behind the one they start from. */
  function Backs(w: seq<nat>): nat {
    if |w| < 2 then 0 else (if w[1] >= w[0] then 1 else 0) + Backs(w[1..])
  }

  predicate GoodWalk(mods: seq<Mod>, w: seq<nat>, k: nat)
    requires IsWalk(mods, w)
  {
    (forall t :: 0 <= t < |w| ==> NodeOk(mods, w[t])) && Backs(w) < k
  }

  lemma {:induction false} StartableWalks(mods: seq<Mod>, k: nat, w: seq<nat>)
    requires IsWalk(mods, w) && Startable(mods, k, w[0])
    ensures GoodWalk(mods, w, k)
    decreases |w|
  {
    if |w| > 1 {
      assert StepsTo(mods, w, 0);
      TailIsWalk(mods, w);
      StartableWalks(mods, if w[1] < w[0] then k else k - 1, w[1..]);
      forall t | 0 <= t < |w| ensures NodeOk(mods, w[t]) {
        if t > 0 {
          assert w[1..][t - 1] == w[t];
        }
      }
    }
  }

  lemma {:induction false} BadWalk(mods: seq<Mod>, k: nat, i: nat) returns (w: seq<nat>)
    requires i < |mods| && !Startable(mods, k, i)
    ensures IsWalk(mods, w) && w[0] == i && !GoodWalk(mods, w, k)
    decreases k, i
  {
    if k == 0 || !NodeOk(mods, i) {
      w := [i];
      assert w[0] == i;
    } else {
      var e :| 0 <= e < |mods[i].depends| &&
               var j := Find(mods, mods[i].depends[e]);
               !(if j < i then Startable(mods, k, j) else j < |mods| && Startable(mods, k - 1, j));
      var j := Find(mods, mods[i].depends[e]);
      var rest := BadWalk(mods, if j < i then k else k - 1, j);
      w := [i] + rest;
      assert Edge(mods, i, j);
      LongerWalk(mods, i, rest, k);
    }
  }

  lemma LongerWalk(mods: seq<Mod>, i: nat, rest: seq<nat>, k: nat)
    requires k > 0 && i < |mods| && IsWalk(mods, rest) && Edge(mods, i, rest[0])
    ensures IsWalk(mods, [i] + rest)
    ensures GoodWalk(mods, [i] + rest, k) ==> GoodWalk(mods, rest, if rest[0] < i then k else k - 1)
  {
    var w := [i] + rest;
    assert w[1..] == rest;
    forall t | 0 <= t < |w| - 1 ensures StepsTo(mods, w, t) {
      if t > 0 {
        assert StepsTo(mods, rest, t - 1);
      }
    }
    if GoodWalk(mods, w, k) {
      forall t | 0 <= t < |rest| ensures NodeOk(mods, rest[t]) {
        assert rest[t] == w[t + 1];
      }
    }
  }

  /**
   What autoloading achieves, exactly: from a fresh registry with unique names, a module ends up running if and only
   if along every dependency walk from it all modules initialise and all names exist, and fewer than ten steps go to
   a module at or behind the one that needs it.
   */
  lemma AutoloadExact(mods: seq<Mod>, l: Loader, i: nat)
    requires UniqueNames(mods) && Fresh(mods, l) && i < |mods|
    ensures Autoload(mods, l).status[i] == Running <==>
            forall w :: IsWalk(mods, w) && w[0] == i ==> GoodWalk(mods, w, MAX_ITERATIONS)
  {
    AutoloadReaches(mods, l, i);
    if Startable(mods, MAX_ITERATIONS, i) {
      forall w | IsWalk(mods, w) && w[0] == i ensures GoodWalk(mods, w, MAX_ITERATIONS) {
        StartableWalks(mods, MAX_ITERATIONS, w);
      }
    } else {
      var w := BadWalk(mods, MAX_ITERATIONS, i);
    }
  }

  lemma {:induction false} BacksBound(w: seq<nat>)
    requires w != []
    ensures Backs(w) < |w|
  {
    if |w| > 1 {
      BacksBound(w[1..]);
    }
  }

  /**
   In any registry order, a module of dependency depth at most ten with a sound dependency closure ends up running.
   */
  lemma AutoloadDepthTen(mods: seq<Mod>, l: Loader, i: nat)
    requires UniqueNames(mods) && Fresh(mods, l) && i < |mods|
    requires forall w :: IsWalk(mods, w) && w[0] == i ==>
                           |w| <= MAX_ITERATIONS && forall t :: 0 <= t < |w| ==> NodeOk(mods, w[t])
    ensures Autoload(mods, l).status[i] == Running
  {
    forall w | IsWalk(mods, w) && w[0] == i ensures GoodWalk(mods, w, MAX_ITERATIONS) {
      BacksBound(w);
    }
    AutoloadExact(mods, l, i);
  }

  /** Together with everything they depend on that is in `s`, sound modules are in `s`. */
  ghost predicate ClosedUnderLoading(mods: seq<Mod>, s: set<nat>) {
    forall i :: 0 <= i < |mods| && NodeOk(mods, i) && (forall j: nat :: Edge(mods, i, j) ==> j in s) ==> i in s
  }

  lemma {:induction false} StartableIsLeast(mods: seq<Mod>, k: nat, i: nat, s: set<nat>)
    requires i < |mods| && ClosedUnderLoading(mods, s) && Startable(mods, k, i)
    ensures i in s
    decreases k, i
  {
    forall j: nat | Edge(mods, i, j) ensures j in s {
      StartableIsLeast(mods, if j < i then k else k - 1, j, s);
    }
  }

  lemma StableIsClosed(mods: seq<Mod>, k: nat, i: nat)
    requires Stable(mods, k) && i < |mods| && NodeOk(mods, i)
    requires forall j: nat :: Edge(mods, i, j) ==> j < |mods| && Startable(mods, k, j)
    ensures Startable(mods, k, i)
  {
    forall e | 0 <= e < |mods[i].depends|
      ensures var j := Find(mods, mods[i].depends[e]);
              if j < i then Startable(mods, k + 1, j) else j < |mods| && Startable(mods, k, j)
    {
      var j := Find(mods, mods[i].depends[e]);
      assert Edge(mods, i, j);
      StartableMore(mods, k, j);
    }
    assert Startable(mods, k + 1, i);
  }

  ghost function RunningSet(l: Loader): set<nat> {
    set i | 0 <= i < |l.status| && l.status[i] == Running
  }

  /** One of the next n passes makes no progress, which ends autoloading. */
  predicate StopsEarly(mods: seq<Mod>, l: Loader, n: nat)
    requires |l.status| == |mods|
    decreases n
  {
    n > 0 && (!Progress(mods, l, |mods|) || StopsEarly(mods, Pass(mods, l), n - 1))
  }

  lemma StableLater(mods: seq<Mod>, k: nat, m: nat)
    requires Stable(mods, k) && k <= m
    ensures Stable(mods, m)
  {
    forall i | 0 <= i < |mods|
      ensures Startable(mods, m + 1, i) <==> Startable(mods, m, i)
    {
      StableFrom(mods, k, m + 1, i);
      StableFrom(mods, k, m, i);
    }
  }

  lemma {:induction false} StopsStable(mods: seq<Mod>, l: Loader, k: nat, n: nat)
    requires UniqueNames(mods) && Reached(mods, l, k) && StopsEarly(mods, l, n)
    ensures Stable(mods, k + n)
    decreases n
  {
    PassReaches(mods, l, k);
    if Progress(mods, l, |mods|) {
      StopsStable(mods, Pass(mods, l), k + 1, n - 1);
    } else {
      StableLater(mods, k, k + n);
    }
  }

  lemma {:induction false} RunningIsLeast(mods: seq<Mod>, r: Loader, k: nat, s: set<nat>)
    requires Reached(mods, r, k) && ClosedUnderLoading(mods, s)
    ensures RunningSet(r) <= s
  {
    forall i | i in RunningSet(r) ensures i in s {
      StartableIsLeast(mods, k, i, s);
    }
  }

  lemma {:induction false} StableRunningIsClosed(mods: seq<Mod>, r: Loader, k: nat)
    requires Reached(mods, r, k) && Stable(mods, k)
    ensures ClosedUnderLoading(mods, RunningSet(r))
  {
    forall i | 0 <= i < |mods| && NodeOk(mods, i) && (forall j: nat :: Edge(mods, i, j) ==> j in RunningSet(r))
      ensures i in RunningSet(r)
    {
      StableIsClosed(mods, k, i);
    }
  }

  /**
   The running modules are in every set closed under loading; and if autoloading stops for lack of progress, or a
   further pass would make none, they are themselves such a set, hence the least one.
   */
  lemma {:induction false} AutoloadLeastFixedPoint(mods: seq<Mod>, l: Loader, s: set<nat>)
    requires UniqueNames(mods) && Fresh(mods, l)
    ensures var r := Autoload(mods, l);
            && (ClosedUnderLoading(mods, s) ==> RunningSet(r) <= s)
            && (StopsEarly(mods, l, MAX_ITERATIONS) || !Progress(mods, r, |mods|) ==>
                  ClosedUnderLoading(mods, RunningSet(r)))
  {
    var r := Autoload(mods, l);
    PassesReach(mods, l, 0, MAX_ITERATIONS);
    PassReaches(mods, r, MAX_ITERATIONS);
    if StopsEarly(mods, l, MAX_ITERATIONS) {
      StopsStable(mods, l, 0, MAX_ITERATIONS);
    }
    if ClosedUnderLoading(mods, s) {
      RunningIsLeast(mods, r, MAX_ITERATIONS, s);
    }
    if Stable(mods, MAX_ITERATIONS) {
      StableRunningIsClosed(mods, r, MAX_ITERATIONS);
    }
  }

  // ---------------------------------------------------------------- ten passes are not always enough

  function ChainName(i: nat): string {
    seq(i + 1, _ => 'm')
  }

  /** Each module needs the one registered right behind it; the last one needs nothing. */
  function Chain(n: nat): seq<Mod> {
    seq(n, i requires 0 <= i < n => Mod(ChainName(i), if i + 1 < n then [ChainName(i + 1)] else [], 0))
  }

  lemma ChainNamesUnique(n: nat)
    ensures UniqueNames(Chain(n))
  {
    forall i, j | 0 <= i < j < n ensures Chain(n)[i].name != Chain(n)[j].name {
      assert |ChainName(i)| != |ChainName(j)|;
    }
  }

  lemma ChainFinds(n: nat, j: nat)
    requires j < n
    ensures Find(Chain(n), ChainName(j)) == j
  {
    ChainNamesUnique(n);
    assert Chain(n)[j].name == ChainName(j);
    FindsItself(Chain(n), j);
  }

  lemma {:induction false} ChainStartable(n: nat, k: nat, i: nat)
    requires i < n
    ensures Startable(Chain(n), k, i) <==> n - i <= k
    decreases n - i
  {
    var c := Chain(n);
    assert c[i].depends == if i + 1 < n then [ChainName(i + 1)] else [];
    if i + 1 < n {
      ChainFinds(n, i + 1);
      assert Find(c, c[i].depends[0]) == i + 1;
      if k > 0 {
        ChainStartable(n, k - 1, i + 1);
      }
    }
  }

  /** In a chain, autoloading starts exactly the last ten modules, although all of them are sound and acyclic. */
  lemma ChainReaches(n: nat, l: Loader, i: nat)
    requires Fresh(Chain(n), l) && i < n
    ensures Autoload(Chain(n), l).status[i] == Running <==> n - i <= 10
    ensures Startable(Chain(n), n, i)
  {
    ChainNamesUnique(n);
    AutoloadReaches(Chain(n), l, i);
    ChainStartable(n, MAX_ITERATIONS, i);
    ChainStartable(n, n, i);
  }
}
