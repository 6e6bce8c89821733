/** The watchdog subsystem of kernel/core/watchdog.c: the static table and its statistics, updated in place. */
module WatchdogTimer {
  import opened Words
  import opened Watchdogs
  import AgentSystem
  import Agents

  const ISA_OK := 0
  const ISA_ERR_NOT_FOUND := 8
  const NO_SLOT := 0xFFFF_FFFF

  class Timer {
    const dogs: array<Dog>
    const system: AgentSystem.System
    var count: u32
    var ticks: u64
    var created: u32
    var active: u32
    var expirations: u32
    var recoveries: u32
    var halted: bool

    ghost predicate Valid()
      reads this, dogs, system, system.agents
    {
      dogs.Length == WATCHDOG_MAX && count <= WATCHDOG_MAX && system.Valid()
    }

    /** The slots in use and the counters. */
    ghost function View(): Watch
      requires count <= dogs.Length
      reads this, dogs
    {
      Watch(dogs[..count], ticks, created, active, expirations, recoveries, halted)
    }

    constructor (system: AgentSystem.System)
      requires system.Valid()
      ensures Valid() && View() == INITIAL && this.system == system && fresh(dogs)
    {
      dogs := new Dog[WATCHDOG_MAX](_ => Dog(0, 0, 0, Disabled, NoAction, 0));
      this.system := system;
      count, ticks, created, active, expirations, recoveries, halted := 0, 0, 0, 0, 0, 0, false;
    }

    method WatchdogCreate(agent: u32, timeout: u64, recovery: Recovery) returns (r: u32)
      requires Valid()
      modifies this`count, this`created, dogs
      ensures Valid() && View() == Create(old(View()), agent, timeout, recovery)
      ensures r == if old(count) >= WATCHDOG_MAX then NO_SLOT else old(count)
    {
      if count >= WATCHDOG_MAX {
        return NO_SLOT;
      }
      dogs[count] := Dog(agent, if timeout != 0 then timeout else DEFAULT_TIMEOUT, ticks, Disabled, recovery, 0);
      created := Wrap32(created + 1);
      count := count + 1;
      r := count - 1;
    }

    method WatchdogEnable(i: u32) returns (r: u32)
      requires Valid()
      modifies this`active, dogs
      ensures Valid() && View() == Enable(old(View()), i)
      ensures r == if i >= count then ISA_ERR_NOT_FOUND else ISA_OK
    {
      if i >= count {
        return ISA_ERR_NOT_FOUND;
      }
      dogs[i] := dogs[i].(mode := Enabled, lastKick := ticks);
      active := Wrap32(active + 1);
      r := ISA_OK;
    }

    method WatchdogDisable(i: u32) returns (r: u32)
      requires Valid()
      modifies this`active, dogs
      ensures Valid() && View() == Disable(old(View()), i)
      ensures r == if i >= count then ISA_ERR_NOT_FOUND else ISA_OK
    {
      if i >= count {
        return ISA_ERR_NOT_FOUND;
      }
      if dogs[i].mode == Enabled {
        dogs[i] := dogs[i].(mode := Disabled);
        active := Wrap32(active - 1);
      }
      r := ISA_OK;
    }

    method WatchdogKick(i: u32) returns (r: u32)
      requires Valid()
      modifies dogs
      ensures Valid() && View() == Kick(old(View()), i)
      ensures r == if i >= count then ISA_ERR_NOT_FOUND else ISA_OK
    {
      if i >= count {
        return ISA_ERR_NOT_FOUND;
      }
      if dogs[i].mode == Enabled || dogs[i].mode == Expired {
        dogs[i] := dogs[i].(mode := Enabled, lastKick := ticks);
      }
      r := ISA_OK;
    }

    method WatchdogDelete(i: u32) returns (r: u32)
      requires Valid()
      modifies this`active, dogs
      ensures Valid() && View() == Delete(old(View()), i)
      ensures r == if i >= count then ISA_ERR_NOT_FOUND else ISA_OK
    {
      if i >= count {
        return ISA_ERR_NOT_FOUND;
      }
      if dogs[i].mode == Enabled {
        active := Wrap32(active - 1);
      }
      dogs[i] := dogs[i].(mode := Disabled);
      r := ISA_OK;
    }

    method ExpireDog(i: u32)
      requires Valid() && i < count
      modifies this`expirations, dogs
      ensures Valid() && View() == Expire(old(View()), i)
    {
      dogs[i] := dogs[i].(mode := Expired, expiries := Wrap32(dogs[i].expiries + 1));
      expirations := Wrap32(expirations + 1);
    }

    method RecoverDog(i: u32)
      requires Valid() && i < count
      modifies this`recoveries, dogs
      ensures Valid() && View() == Recover(old(View()), i)
    {
      dogs[i] := dogs[i].(mode := Triggered);
      recoveries := Wrap32(recoveries + 1);
    }

    /** Lines 244 to 283 for one watchdog: fires it, and reports whether the machine goes on. */
    method Fire(i: u32)
      requires Valid() && !halted && i < count && Due(View(), i)
      modifies this`expirations, this`recoveries, this`halted, dogs, system.agents
      ensures Valid()
      ensures var w := old(View());
              View() == if w.dogs[i].recovery == SystemReboot then Expire(w, i).(halted := true)
              else Recover(Expire(w, i), i)
      ensures system.View() == if old(View()).dogs[i].recovery == RestartAgent
                               then Agents.Terminate(old(system.View()), old(View()).dogs[i].agent)
                               else old(system.View())
    {
      var d := dogs[i];
      ExpireDog(i);
      match d.recovery {
        case SystemReboot =>
          halted := true;
          return;
        case RestartAgent =>
          var r := system.AgentTerminate(d.agent);
        case _ =>
      }
      RecoverDog(i);
    }

    method WatchdogCheckAll()
      requires Valid() && !halted
      modifies this`expirations, this`recoveries, this`halted, dogs, system.agents
      ensures Valid() && View() == CheckAll(old(View()))
      ensures system.View() == TerminateEach(old(system.View()), RestartsFrom(old(View()), 0))
    {
      ghost var w, s := View(), system.View();
      var i: u32 := 0;
      while i < count && !halted
        invariant Valid() && i <= count
        invariant CheckAll(w) == if halted then View() else CheckFrom(View(), i)
        invariant TerminateEach(s, RestartsFrom(w, 0)) ==
                  if halted then system.View() else TerminateEach(system.View(), RestartsFrom(View(), i))
      {
        var elapsed := Wrap64(ticks - dogs[i].lastKick);
        if dogs[i].mode == Enabled && elapsed >= dogs[i].timeout {
          ghost var v, t := View(), system.View();
          Fire(i);
          if !halted && v.dogs[i].recovery == RestartAgent {
            TerminateFirst(t, v.dogs[i].agent, RestartsFrom(View(), i + 1));
          }
        }
        i := i + 1;
      }
    }
  }
}
