/**
 The module registry of kernel/core/module.c as a value: which modules run after loading and autoloading.
 A module's `init` callback is an oracle, `init`, that always gives the same result; a missing one gives 0.
 */
module Loading {

  datatype Status = Unloaded | Loading | Loaded | Running | Error

  /** The constant part of a descriptor, in registry order. */
  datatype Mod = Mod(name: string, depends: seq<string>, init: int)

  /** The status of each module, and the modules started so far, oldest first. */
  datatype Loader = Loader(status: seq<Status>, started: seq<nat>)

  const MAX_ITERATIONS := 10

  /** Index of the first module of that name, |mods| if there is none. */
  function Find(mods: seq<Mod>, name: string): (i: nat)
    ensures i <= |mods|
    ensures i < |mods| ==> mods[i].name == name
    ensures forall j :: 0 <= j < i ==> mods[j].name != name
  {
    if mods == [] then 0 else if mods[0].name == name then 0 else 1 + Find(mods[1..], name)
  }

  predicate DepsMet(mods: seq<Mod>, status: seq<Status>, i: nat)
    requires |status| == |mods| && i < |mods|
  {
    forall e :: 0 <= e < |mods[i].depends| ==>
                  var j := Find(mods, mods[i].depends[e]); j < |mods| && status[j] == Running
  }

  // ---------------------------------------------------------------- the calls

  function Load(mods: seq<Mod>, l: Loader, name: string): (r: (Loader, int))
    requires |l.status| == |mods|
    ensures |r.0.status| == |mods|
  {
    var i := Find(mods, name);
    if i == |mods| then (l, -1)
    else if l.status[i] == Running then (l, 0)
    else if !DepsMet(mods, l.status, i) then (l, -2)
    else if mods[i].init != 0 then (l.(status := l.status[i := Error]), mods[i].init)
    else (Loader(l.status[i := Running], l.started + [i]), 0)
  }

  function Unload(mods: seq<Mod>, status: seq<Status>, name: string): (r: (seq<Status>, int))
    requires |status| == |mods|
    ensures |r.0| == |mods|
  {
    var i := Find(mods, name);
    if i == |mods| || status[i] != Running then (status, -1) else (status[i := Unloaded], 0)
  }

  /** What the autoload pass does at module i. */
  function Visit(mods: seq<Mod>, l: Loader, i: nat): (r: Loader)
    requires |l.status| == |mods| && i < |mods|
    ensures |r.status| == |mods|
  {
    if l.status[i] == Unloaded && DepsMet(mods, l.status, i) then Load(mods, l, mods[i].name).0 else l
  }

  /** The visit counts as progress. */
  predicate Starts(mods: seq<Mod>, l: Loader, i: nat)
    requires |l.status| == |mods| && i < |mods|
  {
    l.status[i] == Unloaded && DepsMet(mods, l.status, i) && Load(mods, l, mods[i].name).1 == 0
  }

  /** The first i visits of a pass. */
  function Visits(mods: seq<Mod>, l: Loader, i: nat): (r: Loader)
    requires |l.status| == |mods| && i <= |mods|
    ensures |r.status| == |mods|
  {
    if i == 0 then l else Visit(mods, Visits(mods, l, i - 1), i - 1)
  }

  function Pass(mods: seq<Mod>, l: Loader): (r: Loader)
    requires |l.status| == |mods|
    ensures |r.status| == |mods|
  {
    Visits(mods, l, |mods|)
  }

  /** Some of the first i visits count as progress. */
  predicate Progress(mods: seq<Mod>, l: Loader, i: nat)
    requires |l.status| == |mods| && i <= |mods|
  {
    i > 0 && (Progress(mods, l, i - 1) || Starts(mods, Visits(mods, l, i - 1), i - 1))
  }

  /** How many of the first i visits count as progress. */
  function Successes(mods: seq<Mod>, l: Loader, i: nat): nat
    requires |l.status| == |mods| && i <= |mods|
  {
    if i == 0 then 0 else Successes(mods, l, i - 1) + if Starts(mods, Visits(mods, l, i - 1), i - 1) then 1 else 0
  }

  /** At most n passes, until one makes no progress. */
  function Passes(mods: seq<Mod>, l: Loader, n: nat): (r: Loader)
    requires |l.status| == |mods|
    ensures |r.status| == |mods|
    decreases n
  {
    if n == 0 then l
    else
      var l' := Pass(mods, l);
      if Progress(mods, l, |mods|) then Passes(mods, l', n - 1) else l'
  }

  function Autoload(mods: seq<Mod>, l: Loader): Loader
    requires |l.status| == |mods|
  {
    Passes(mods, l, MAX_ITERATIONS)
  }

  // ---------------------------------------------------------------- return codes

  /** A module of that name exists and is running. */
  ghost predicate Runs(mods: seq<Mod>, status: seq<Status>, name: string)
    requires |status| == |mods|
  {
    exists i :: 0 <= i < |mods| && FirstNamed(mods, name, i) && status[i] == Running
  }

  /** Module i is the first of that name. */
  predicate FirstNamed(mods: seq<Mod>, name: string, i: nat)
    requires i < |mods|
  {
    mods[i].name == name && forall j :: 0 <= j < i ==> mods[j].name != name
  }

  /** The module names a dependency that is missing or not running. */
  ghost predicate Waits(mods: seq<Mod>, status: seq<Status>, i: nat)
    requires |status| == |mods| && i < |mods|
  {
    exists e :: 0 <= e < |mods[i].depends| && !Runs(mods, status, mods[i].depends[e])
  }

  lemma RunsIff(mods: seq<Mod>, status: seq<Status>, name: string)
    requires |status| == |mods|
    ensures var j := Find(mods, name); Runs(mods, status, name) <==> j < |mods| && status[j] == Running
  {
    var j := Find(mods, name);
    if j < |mods| {
      assert FirstNamed(mods, name, j);
    }
  }

  lemma WaitsIff(mods: seq<Mod>, status: seq<Status>, i: nat)
    requires |status| == |mods| && i < |mods|
    ensures Waits(mods, status, i) <==> !DepsMet(mods, status, i)
  {
    forall e | 0 <= e < |mods[i].depends|
      ensures var j := Find(mods, mods[i].depends[e]);
              Runs(mods, status, mods[i].depends[e]) <==> j < |mods| && status[j] == Running
    {
      RunsIff(mods, status, mods[i].depends[e]);
    }
  }

  /**
   The code tells what has become of the module: 0 exactly if it runs afterwards. No name, no change, -1. A module that
   runs already stays as it is. If a dependency is missing or not running, nothing changes and the code is -2.
   Otherwise it is the initialisation's own result, and the module is started or in the state ERROR.
   */
  lemma LoadCode(mods: seq<Mod>, l: Loader, name: string)
    requires |l.status| == |mods|
    ensures var (r, code) := Load(mods, l, name);
            && (code == 0 <==> Runs(mods, r.status, name))
            && ((forall i :: 0 <= i < |mods| ==> mods[i].name != name) ==> code == -1 && r == l)
            && forall i :: 0 <= i < |mods| && FirstNamed(mods, name, i) ==>
                             && (forall j :: 0 <= j < |mods| && j != i ==> r.status[j] == l.status[j])
                             && if l.status[i] == Running then code == 0 && r == l
                                else if Waits(mods, l.status, i) then code == -2 && r == l
                                else
                                  && code == mods[i].init
                                  && r.status[i] == (if code == 0 then Running else Error)
                                  && r.started == if code == 0 then l.started + [i] else l.started
  {
    var i, r := Find(mods, name), Load(mods, l, name).0;
    RunsIff(mods, r.status, name);
    if i < |mods| {
      WaitsIff(mods, l.status, i);
      assert forall j :: 0 <= j < |mods| && FirstNamed(mods, name, j) ==> j == i;
    }
  }

  /**
   Unloading gives 0 exactly if the module ran; then it is UNLOADED, and no other changes; otherwise -1 and no change.
   */
  lemma UnloadCode(mods: seq<Mod>, status: seq<Status>, name: string)
    requires |status| == |mods|
    ensures var (r, code) := Unload(mods, status, name);
            && (code == 0 <==> Runs(mods, status, name))
            && (code != 0 ==> code == -1 && r == status)
            && forall i :: 0 <= i < |mods| && code == 0 ==>
                             r[i] == if FirstNamed(mods, name, i) then Unloaded else status[i]
  {
    RunsIff(mods, status, name);
    var i := Find(mods, name);
    assert i < |mods| ==> forall j :: 0 <= j < |mods| ==> (FirstNamed(mods, name, j) <==> j == i);
  }

  /** Loading what has just been unloaded undoes that, if it initialises and has all it depends on. */
  lemma LoadUndoesUnload(mods: seq<Mod>, l: Loader, name: string)
    requires |l.status| == |mods| && Unload(mods, l.status, name).1 == 0
    requires var i := Find(mods, name); mods[i].init == 0 && DepsMet(mods, l.status, i) && !Edge(mods, i, i)
    ensures var u := l.(status := Unload(mods, l.status, name).0);
            Load(mods, u, name).0.status == l.status && Load(mods, u, name).1 == 0
  {
    var i := Find(mods, name);
    var u := l.(status := Unload(mods, l.status, name).0);
    assert u.status == l.status[i := Unloaded];
    forall e | 0 <= e < |mods[i].depends|
      ensures var j := Find(mods, mods[i].depends[e]); j < |mods| && u.status[j] == Running
    {
      assert Find(mods, mods[i].depends[e]) != i;
    }
  }

  // ---------------------------------------------------------------- order of starting, over all runs

  /** What is left to do of n passes from `l` is `left` passes from `now`. */
  predicate Remaining(mods: seq<Mod>, l: Loader, n: nat, now: Loader, left: nat) {
    && |l.status| == |mods| && |now.status| == |mods|
    && Passes(mods, l, n) == Passes(mods, now, left)
  }

  lemma NothingRemains(mods: seq<Mod>, l: Loader, n: nat, now: Loader)
    requires Remaining(mods, l, n, now, 0)
    ensures now == Passes(mods, l, n)
  {
  }

  lemma OnePass(mods: seq<Mod>, l: Loader, n: nat, now: Loader, left: nat)
    requires Remaining(mods, l, n, now, left) && left > 0
    ensures Remaining(mods, l, n, Pass(mods, now), if Progress(mods, now, |mods|) then left - 1 else 0)
  {
  }

  datatype Op = LoadOp(name: string) | AutoloadOp

  function Run(mods: seq<Mod>, l: Loader, ops: seq<Op>): (r: Loader)
    requires |l.status| == |mods|
    ensures |r.status| == |mods|
    decreases |ops|
  {
    if ops == [] then l
    else
      var l' := match ops[0] case LoadOp(name) => Load(mods, l, name).0 case AutoloadOp => Autoload(mods, l);
      Run(mods, l', ops[1..])
  }

  /** Module `from` names a dependency that module `to` provides. */
  predicate Edge(mods: seq<Mod>, from: nat, to: nat)
    requires from < |mods|
  {
    exists e :: 0 <= e < |mods[from].depends| && Find(mods, mods[from].depends[e]) == to
  }

  predicate NodeOk(mods: seq<Mod>, i: nat)
    requires i < |mods|
  {
    mods[i].init == 0 && forall e :: 0 <= e < |mods[i].depends| ==> Find(mods, mods[i].depends[e]) < |mods|
  }

  /**
   Started modules are exactly the running ones, each was started once, initialised, and after everything it
   depends on.
   */
  ghost predicate Topological(mods: seq<Mod>, l: Loader) {
    && |l.status| == |mods|
    && (forall i :: 0 <= i < |mods| ==> (l.status[i] == Running <==> i in l.started))
    && (forall a, b :: 0 <= a < b < |l.started| ==> l.started[a] != l.started[b])
    && (forall b :: 0 <= b < |l.started| ==>
                      && l.started[b] < |mods| && NodeOk(mods, l.started[b])
                      && forall to :: Edge(mods, l.started[b], to) ==> to in l.started[..b])
  }

  lemma LoadKeepsOrder(mods: seq<Mod>, l: Loader, name: string)
    requires Topological(mods, l)
    ensures Topological(mods, Load(mods, l, name).0)
  {
    var l' := Load(mods, l, name).0;
    var i := Find(mods, name);
    if |l'.started| > |l.started| {
      assert l'.started[..|l.started|] == l.started;
      forall b | 0 <= b < |l.started| ensures l'.started[..b] == l.started[..b] {
      }
      forall x | 0 <= x < |mods| ensures l'.status[x] == Running <==> x in l'.started {
        assert x in l'.started <==> x in l.started || x == i;
      }
    }
  }

  lemma {:induction false} VisitsKeepOrder(mods: seq<Mod>, l: Loader, i: nat)
    requires Topological(mods, l) && i <= |mods|
    ensures Topological(mods, Visits(mods, l, i))
  {
    if i > 0 {
      VisitsKeepOrder(mods, l, i - 1);
      LoadKeepsOrder(mods, Visits(mods, l, i - 1), mods[i - 1].name);
    }
  }

  lemma {:induction false} PassesKeepOrder(mods: seq<Mod>, l: Loader, n: nat)
    requires Topological(mods, l)
    ensures Topological(mods, Passes(mods, l, n))
    decreases n
  {
    if n > 0 {
      VisitsKeepOrder(mods, l, |mods|);
      PassesKeepOrder(mods, Pass(mods, l), n - 1);
    }
  }

  /** Over every run of loads and autoloads, the order of starting is a topological order of the dependencies. */
  lemma {:induction false} RunKeepsOrder(mods: seq<Mod>, l: Loader, ops: seq<Op>)
    requires Topological(mods, l)
    ensures Topological(mods, Run(mods, l, ops))
    decreases |ops|
  {
    if ops != [] {
      match ops[0] {
        case LoadOp(name) =>
          LoadKeepsOrder(mods, l, name);
          RunKeepsOrder(mods, Load(mods, l, name).0, ops[1..]);
        case AutoloadOp =>
          PassesKeepOrder(mods, l, MAX_ITERATIONS);
          RunKeepsOrder(mods, Autoload(mods, l), ops[1..]);
      }
    }
  }

  predicate Fresh(mods: seq<Mod>, l: Loader) {
    |l.status| == |mods| && l.started == [] && forall i :: 0 <= i < |mods| ==> l.status[i] == Unloaded
  }

  /** A way along dependencies, as a list of registry indices. */
  predicate IsWalk(mods: seq<Mod>, w: seq<nat>) {
    && w != []
    && (forall t :: 0 <= t < |w| ==> w[t] < |mods|)
    && (forall t :: 0 <= t < |w| - 1 ==> StepsTo(mods, w, t))
  }

  predicate StepsTo(mods: seq<Mod>, w: seq<nat>, t: nat)
    requires t + 1 < |w| && w[t] < |mods|
  {
    Edge(mods, w[t], w[t + 1])
  }

  lemma {:induction false} WalkGoesBack(mods: seq<Mod>, l: Loader, w: seq<nat>, b: nat) returns (at: nat)
    requires Topological(mods, l) && IsWalk(mods, w) && b < |l.started| && l.started[b] == w[0]
    ensures at <= b && l.started[at] == w[|w| - 1] && (|w| > 1 ==> at < b)
    decreases |w|
  {
    if |w| == 1 {
      at := b;
    } else {
      assert StepsTo(mods, w, 0);
      assert w[1] in l.started[..b];
      var b' :| 0 <= b' < b && l.started[b'] == w[1];
      TailIsWalk(mods, w);
      at := WalkGoesBack(mods, l, w[1..], b');
    }
  }

  lemma TailIsWalk(mods: seq<Mod>, w: seq<nat>)
    requires IsWalk(mods, w) && |w| > 1
    ensures IsWalk(mods, w[1..])
  {
    forall t | 0 <= t < |w| - 2 ensures StepsTo(mods, w[1..], t) {
      assert StepsTo(mods, w, t + 1);
    }
  }

  /**
   Whatever the run, a running module depends, directly or indirectly, only on running modules that initialise and
   name existing dependencies, and not on itself: what reaches a cycle, a missing name or a failing init never runs.
   */
  lemma {:induction false} RunningIsClosed(mods: seq<Mod>, l: Loader, ops: seq<Op>, w: seq<nat>)
    requires Fresh(mods, l) && IsWalk(mods, w) && Run(mods, l, ops).status[w[0]] == Running
    ensures Run(mods, l, ops).status[w[|w| - 1]] == Running && NodeOk(mods, w[|w| - 1])
    ensures |w| > 1 ==> w[|w| - 1] != w[0]
  {
    var r := Run(mods, l, ops);
    RunKeepsOrder(mods, l, ops);
    var b :| 0 <= b < |r.started| && r.started[b] == w[0];
    var at := WalkGoesBack(mods, r, w, b);
  }

  // ---------------------------------------------------------------- unloading

  /** Every dependency of a running module is running. */
  predicate Closed(mods: seq<Mod>, status: seq<Status>)
    requires |status| == |mods|
  {
    forall i :: 0 <= i < |mods| && status[i] == Running ==> DepsMet(mods, status, i)
  }

  /** Unloading a running module leaves no dangling dependency exactly when no other running module depends on it. */
  lemma UnloadKeepsClosedIff(mods: seq<Mod>, status: seq<Status>, name: string)
    requires |status| == |mods| && Closed(mods, status) && Unload(mods, status, name).1 == 0
    ensures var t := Find(mods, name);
            Closed(mods, Unload(mods, status, name).0) <==>
            forall i :: 0 <= i < |mods| && i != t && status[i] == Running ==> !Edge(mods, i, t)
  {
    var t, status' := Find(mods, name), Unload(mods, status, name).0;
    forall i | 0 <= i < |mods| && i != t && status[i] == Running
      ensures DepsMet(mods, status', i) <==> !Edge(mods, i, t)
    {
      assert DepsMet(mods, status, i);
      if Edge(mods, i, t) {
        var e :| 0 <= e < |mods[i].depends| && Find(mods, mods[i].depends[e]) == t;
        assert status'[Find(mods, mods[i].depends[e])] != Running;
      }
    }
  }
}
