/** The linked registry of kernel/core/module.c, whose descriptors' statuses change in place. */
module ModuleRegistry {
  import opened Words
  import opened Loading

  class ModuleDesc {
    const name: string
    const depends: seq<string>
    const init: int            // what the init callback returns; 0 if there is none
    var status: Status
    var loadTime: u64
    var next: ModuleDesc?

    constructor (name: string, depends: seq<string>, init: int)
      ensures this.name == name && this.depends == depends && this.init == init && status == Unloaded
    {
      this.name, this.depends, this.init := name, depends, init;
      status, loadTime, next := Unloaded, 0, null;
    }

    ghost function Constant(): Mod {
      Mod(name, depends, init)
    }
  }

  /** The start times after the modules `started` have been started at `ticks`. */
  function Stamped(times: seq<u64>, started: seq<nat>, ticks: u64): (r: seq<u64>)
    ensures |r| == |times|
  {
    seq(|times|, i requires 0 <= i < |times| => if i in started then ticks else times[i])
  }

  lemma StampedTwice(times: seq<u64>, a: seq<nat>, b: seq<nat>, ticks: u64)
    ensures Stamped(Stamped(times, a, ticks), b, ticks) == Stamped(times, a + b, ticks)
  {
  }

  /** Between two moments of the registry: what was started since then has its start time, the others keep theirs. */
  ghost predicate StampsFollow(times: seq<u64>, before: seq<nat>, times': seq<u64>, after: seq<nat>, ticks: u64) {
    before <= after && times' == Stamped(times, after[|before|..], ticks)
  }

  lemma StampsFollowTwice(t: seq<u64>, a: seq<nat>, t': seq<u64>, a': seq<nat>,
                          t'': seq<u64>, a'': seq<nat>, ticks: u64)
    requires StampsFollow(t, a, t', a', ticks) && StampsFollow(t', a', t'', a'', ticks)
    ensures StampsFollow(t, a, t'', a'', ticks)
  {
    StampedTwice(t, a'[|a|..], a''[|a'|..], ticks);
    assert a''[|a|..] == a'[|a|..] + a''[|a'|..];
  }

  class Registry {
    var head: ModuleDesc?
    var total: u32
    ghost var nodes: seq<ModuleDesc>   // the list from the head on
    ghost var started: seq<nat>        // indices of the modules started so far

    ghost predicate Valid()
      reads this, nodes
    {
      && total as int == Wrap32(|nodes|)
      && (forall i, j :: 0 <= i < j < |nodes| ==> nodes[i] != nodes[j])
      && head == NodeAt(0)
      && (forall i :: 0 <= i < |nodes| ==> nodes[i].next == NodeAt(i + 1))
    }

    ghost function NodeAt(i: nat): ModuleDesc?
      reads this
    {
      if i < |nodes| then nodes[i] else null
    }

    ghost function Mods(): seq<Mod>
      reads this
    {
      seq(|nodes|, i requires 0 <= i < |nodes| reads this => nodes[i].Constant())
    }

    ghost function Times(): seq<u64>
      reads this, nodes
    {
      seq(|nodes|, i requires 0 <= i < |nodes| reads this, nodes => nodes[i].loadTime)
    }

    ghost function View(): (l: Loader)
      reads this, nodes
      ensures |l.status| == |Mods()|
    {
      Loader(seq(|nodes|, i requires 0 <= i < |nodes| reads this, nodes => nodes[i].status), started)
    }

    constructor ()
      ensures Valid() && nodes == [] && Fresh(Mods(), View())
    {
      head, total, nodes, started := null, 0, [], [];
    }

    /** One step of the scan over the statically registered descriptors: the new one becomes the head. */
    method Register(mod: ModuleDesc)
      requires Valid() && mod !in nodes && started == []
      modifies this, mod
      ensures Valid() && nodes == [mod] + old(nodes) && started == []
      ensures mod.status == old(mod.status)
    {
      mod.next := head;
      head := mod;
      total := Wrap32(total + 1);
      nodes := [mod] + nodes;
      WrapAdd(|old(nodes)|, 1);
    }

    method ModuleFind(name: string) returns (mod: ModuleDesc?)
      requires Valid()
      ensures mod == NodeAt(Find(Mods(), name))
    {
      mod := head;
      ghost var i := 0;
      while mod != null
        invariant 0 <= i <= |nodes| && mod == NodeAt(i)
        invariant forall j :: 0 <= j < i ==> Mods()[j].name != name
        decreases |nodes| - i
      {
        if mod.name == name {
          assert Mods()[i].name == name;
          return;
        }
        assert Mods()[i].name != name;
        mod := mod.next;
        i := i + 1;
      }
    }

    method CheckDependencies(mod: ModuleDesc, ghost i: nat) returns (ok: bool)
      requires Valid() && i < |nodes| && nodes[i] == mod
      ensures ok == DepsMet(Mods(), View().status, i)
    {
      ghost var mods, st := Mods(), View().status;
      assert mods[i].depends == mod.depends;
      var e := 0;
      while e < |mod.depends|
        invariant 0 <= e <= |mod.depends|
        invariant forall d :: 0 <= d < e ==>
                                var j := Find(mods, mod.depends[d]); j < |mods| && st[j] == Running
      {
        var dep := ModuleFind(mod.depends[e]);
        assert dep != null ==> dep.status == st[Find(mods, mod.depends[e])];
        if dep == null || dep.status != Running {
          return false;
        }
        e := e + 1;
      }
      ok := true;
    }

    method ModuleLoad(name: string, ticks: u64) returns (r: int)
      requires Valid()
      modifies this`started, (set n | n in nodes)`status, (set n | n in nodes)`loadTime
      ensures Valid() && nodes == old(nodes)
      ensures View() == Load(old(Mods()), old(View()), name).0
      ensures r == Load(old(Mods()), old(View()), name).1
      ensures StampsFollow(old(Times()), old(started), Times(), started, ticks)
    {
      ghost var i, l := Find(Mods(), name), View();
      assert Times() == Stamped(Times(), [], ticks);
      var mod := ModuleFind(name);
      if mod == null {
        return -1;
      }
      assert Mods()[i] == mod.Constant() && l.status[i] == mod.status;
      if mod.status == Running {
        return 0;
      }
      var ok := CheckDependencies(mod, i);
      if !ok {
        return -2;
      }
      r := Launch(mod, ticks, i);
    }

    /** Lines 132 to 154: initialises and starts a module whose dependencies are met. */
    method Launch(mod: ModuleDesc, ticks: u64, ghost i: nat) returns (r: int)
      requires Valid() && i < |nodes| && nodes[i] == mod
      modifies this`started, mod`status, mod`loadTime
      ensures Valid() && nodes == old(nodes) && r == mod.init
      ensures StampsFollow(old(Times()), old(started), Times(), started, ticks)
      ensures View() == if mod.init != 0 then old(View()).(status := old(View()).status[i := Error])
                        else Loader(old(View()).status[i := Running], old(started) + [i])
    {
      mod.status := Loading;
      if mod.init != 0 {
        Fail(mod, ticks, i);
        return mod.init;
      }
      mod.status := Loaded;
      Start(mod, ticks, i);
      r := 0;
    }

    method Fail(mod: ModuleDesc, ghost ticks: u64, ghost i: nat)
      requires Valid() && i < |nodes| && nodes[i] == mod
      modifies mod`status
      ensures Valid() && View() == old(View()).(status := old(View()).status[i := Error])
      ensures StampsFollow(old(Times()), old(started), Times(), started, ticks)
    {
      SetStatus(mod, Error, i);
      assert Times() == old(Times()) == Stamped(old(Times()), [], ticks);
    }

    method Start(mod: ModuleDesc, ticks: u64, ghost i: nat)
      requires Valid() && i < |nodes| && nodes[i] == mod
      modifies this`started, mod`status, mod`loadTime
      ensures Valid() && nodes == old(nodes)
      ensures View() == Loader(old(View()).status[i := Running], old(started) + [i])
      ensures StampsFollow(old(Times()), old(started), Times(), started, ticks)
    {
      ghost var t := Times();
      SetStatus(mod, Running, i);
      mod.loadTime := ticks;
      started := started + [i];
      assert Times() == Stamped(t, [i], ticks);
    }

    method SetStatus(mod: ModuleDesc, s: Status, ghost i: nat)
      requires Valid() && i < |nodes| && nodes[i] == mod
      modifies mod`status
      ensures Valid()
      ensures View() == old(View()).(status := old(View()).status[i := s])
    {
      ghost var l := View();
      mod.status := s;
      assert View().status == l.status[i := s];
    }

    method ModuleUnload(name: string) returns (r: int)
      requires Valid()
      modifies (set n | n in nodes)`status
      ensures Valid()
      ensures View().status == Unload(Mods(), old(View()).status, name).0
      ensures r == Unload(Mods(), old(View()).status, name).1
    {
      ghost var i, l := Find(Mods(), name), View();
      var mod := ModuleFind(name);
      if mod == null || mod.status != Running {
        return -1;
      }
      SetStatus(mod, Unloaded, i);
      r := 0;
    }

    method VisitModule(mod: ModuleDesc, ticks: u64, ghost i: nat) returns (starts: bool)
      requires Valid() && i < |nodes| && nodes[i] == mod
      modifies this`started, (set n | n in nodes)`status, (set n | n in nodes)`loadTime
      ensures Valid() && nodes == old(nodes)
      ensures View() == Visit(old(Mods()), old(View()), i)
      ensures starts == Starts(old(Mods()), old(View()), i)
      ensures StampsFollow(old(Times()), old(started), Times(), started, ticks)
    {
      assert Times() == Stamped(Times(), [], ticks);
      assert Mods()[i] == mod.Constant() && View().status[i] == mod.status;
      starts := false;
      if mod.status == Unloaded {
        var ok := CheckDependencies(mod, i);
        if ok {
          var r := ModuleLoad(mod.name, ticks);
          starts := r == 0;
        }
      }
    }

    /** A pass from `l` has visited the first n modules. */
    ghost predicate Visited(mods: seq<Mod>, l: Loader, times: seq<u64>, a: seq<nat>, ticks: u64, n: nat,
                            progress: bool, loaded: nat)
      reads this, nodes
    {
      && Valid() && Mods() == mods && |l.status| == |mods| && n <= |nodes|
      && View() == Visits(mods, l, n) && progress == Progress(mods, l, n) && loaded == Successes(mods, l, n)
      && StampsFollow(times, a, Times(), started, ticks)
    }

    method VisitNext(mod: ModuleDesc, ticks: u64, progress: bool, loaded: nat,
                     ghost mods: seq<Mod>, ghost l: Loader, ghost times: seq<u64>, ghost a: seq<nat>, ghost n: nat)
      returns (progress': bool, loaded': nat)
      requires Visited(mods, l, times, a, ticks, n, progress, loaded) && n < |nodes| && nodes[n] == mod
      modifies this`started, (set x | x in nodes)`status, (set x | x in nodes)`loadTime
      ensures nodes == old(nodes) && Visited(mods, l, times, a, ticks, n + 1, progress', loaded')
    {
      ghost var t, b := Times(), started;
      var visited := VisitModule(mod, ticks, n);
      progress', loaded' := progress, loaded;
      if visited {
        loaded' := loaded + 1;
        progress' := true;
      }
      StampsFollowTwice(times, a, t, b, Times(), started, ticks);
    }

    lemma PassBegins(ticks: u64)
      requires Valid()
      ensures Visited(Mods(), View(), Times(), started, ticks, 0, false, 0)
    {
      assert Times() == Stamped(Times(), [], ticks);
    }

    /** One pass over the list; reports whether it started a module, and how often. */
    method AutoloadPass(ticks: u64) returns (progress: bool, loaded: nat)
      requires Valid()
      modifies this`started, (set n | n in nodes)`status, (set n | n in nodes)`loadTime
      ensures Valid() && nodes == old(nodes)
      ensures Visited(old(Mods()), old(View()), old(Times()), old(started), ticks, |nodes|, progress, loaded)
    {
      progress, loaded := false, 0;
      ghost var mods, l, t, a, n := Mods(), View(), Times(), started, 0;
      PassBegins(ticks);
      var mod := head;
      while mod != null
        invariant nodes == old(nodes) && n <= |nodes| && mod == NodeAt(n)
        invariant Visited(mods, l, t, a, ticks, n, progress, loaded)
        decreases |nodes| - n
      {
        progress, loaded := VisitNext(mod, ticks, progress, loaded, mods, l, t, a, n);
        mod := mod.next;
        n := n + 1;
      }
    }

    /** Autoloading from `l` has still to do `left` passes. */
    ghost predicate Autoloading(mods: seq<Mod>, l: Loader, times: seq<u64>, a: seq<nat>, ticks: u64, left: nat)
      reads this, nodes
    {
      && Valid() && Mods() == mods && Remaining(mods, l, MAX_ITERATIONS, View(), left)
      && StampsFollow(times, a, Times(), started, ticks)
    }

    method NextPass(ticks: u64, ghost mods: seq<Mod>, ghost l: Loader, ghost times: seq<u64>,
                    ghost a: seq<nat>, ghost left: nat)
      returns (progress: bool)
      requires Autoloading(mods, l, times, a, ticks, left) && left > 0
      modifies this`started, (set x | x in nodes)`status, (set x | x in nodes)`loadTime
      ensures nodes == old(nodes) && Autoloading(mods, l, times, a, ticks, if progress then left - 1 else 0)
    {
      ghost var before, t, b := View(), Times(), started;
      var loaded;
      progress, loaded := AutoloadPass(ticks);
      OnePass(mods, l, MAX_ITERATIONS, before, left);
      StampsFollowTwice(times, a, t, b, Times(), started, ticks);
    }

    method AutoloadAll(ticks: u64)
      requires Valid()
      modifies this`started, (set n | n in nodes)`status, (set n | n in nodes)`loadTime
      ensures Valid() && nodes == old(nodes)
      ensures View() == Autoload(old(Mods()), old(View()))
      ensures StampsFollow(old(Times()), old(started), Times(), started, ticks)
    {
      assert Times() == Stamped(Times(), [], ticks);
      ghost var mods, l, t, a := Mods(), View(), Times(), started;
      ghost var left: nat := MAX_ITERATIONS;
      var progress, iterations := true, 0;
      while progress && iterations < 10
        invariant 0 <= iterations && left == if progress then 10 - iterations else 0
        invariant nodes == old(nodes) && Autoloading(mods, l, t, a, ticks, left)
      {
        iterations := iterations + 1;
        progress := NextPass(ticks, mods, l, t, a, left);
        left := if progress then left - 1 else 0;
      }
      NothingRemains(mods, l, MAX_ITERATIONS, View());
    }
  }
}
