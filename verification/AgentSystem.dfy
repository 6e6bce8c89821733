/** The agent subsystem of kernel/core/agent.c: the static table, its counter and the current id, updated in place. */
module AgentSystem {
  import opened Words
  import opened AgentTypes
  import opened Agents

  const ISA_OK := 0
  const ISA_ERR_AGENT_NOT_FOUND := 400
  const ISA_ERR_NO_AGENT_SLOTS := 404

  class System {
    const agents: array<Agent>
    var agentCount: u32
    var currentAgentId: u32

    ghost predicate Valid()
      reads this, agents
    {
      agents.Length == MAX_AGENTS && agentCount <= MAX_AGENTS && Ok(View())
    }

    /** The slots in use, and who is current. */
    ghost function View(): Sched
      requires agentCount <= agents.Length
      reads this, agents
    {
      Sched(agents[..agentCount], currentAgentId)
    }

    constructor ()
      ensures Valid() && View() == INITIAL && fresh(agents)
    {
      agents := new Agent[MAX_AGENTS](_ => Agent(0, 0, 0, Idle));
      agentCount, currentAgentId := 0, 0;
    }

    /** Clears the whole table. */
    method Init()
      requires Valid()
      modifies this, agents
      ensures Valid() && View() == INITIAL
      ensures forall i :: 0 <= i < MAX_AGENTS ==> agents[i] == Agent(0, 0, 0, Idle)
    {
      forall i | 0 <= i < agents.Length {
        agents[i] := Agent(0, 0, 0, Idle);
      }
      agentCount := 0;
      currentAgentId := 0;
    }

    method AgentCreate(level: nat, priority: u32) returns (r: u32)
      requires Valid()
      modifies this, agents
      ensures Valid() && View() == Create(old(View()), level, priority)
      ensures r == if old(agentCount) >= MAX_AGENTS then ISA_ERR_NO_AGENT_SLOTS else old(agentCount)
    {
      if agentCount >= MAX_AGENTS {
        return ISA_ERR_NO_AGENT_SLOTS;
      }
      agents[agentCount] := Agent(level, priority, Wrap32(priority * 10), Ready);
      agentCount := agentCount + 1;
      r := agentCount - 1;
    }

    method AgentTerminate(id: u32) returns (r: u32)
      requires Valid()
      modifies agents
      ensures Valid() && View() == Terminate(old(View()), id)
      ensures r == if id >= agentCount then ISA_ERR_AGENT_NOT_FOUND else ISA_OK
    {
      if id >= agentCount {
        return ISA_ERR_AGENT_NOT_FOUND;
      }
      agents[id] := agents[id].(state := Terminated);
      r := ISA_OK;
    }

    method AgentSuspend(id: u32) returns (r: u32)
      requires Valid()
      modifies agents
      ensures Valid() && View() == Suspend(old(View()), id)
      ensures r == if id >= agentCount then ISA_ERR_AGENT_NOT_FOUND else ISA_OK
    {
      if id >= agentCount {
        return ISA_ERR_AGENT_NOT_FOUND;
      }
      if agents[id].state == Ready || agents[id].state == Running {
        agents[id] := agents[id].(state := Blocked);
      }
      r := ISA_OK;
    }

    method AgentResume(id: u32) returns (r: u32)
      requires Valid()
      modifies agents
      ensures Valid() && View() == Resume(old(View()), id)
      ensures r == if id >= agentCount then ISA_ERR_AGENT_NOT_FOUND else ISA_OK
    {
      if id >= agentCount {
        return ISA_ERR_AGENT_NOT_FOUND;
      }
      if agents[id].state == Blocked {
        agents[id] := agents[id].(state := Ready);
      }
      r := ISA_OK;
    }

    /** The id that the selection loop looks at after i others. */
    method IdAfter(i: nat) returns (id: u32)
      requires Valid() && i < agentCount
      ensures id == IdAt(View(), i)
    {
      id := (currentAgentId + i + 1) % agentCount;
      ModOnce(currentAgentId + i + 1, agentCount);
    }

    /** The selection loop of the scheduler. */
    method SelectAgent() returns (best: u32)
      requires Valid() && agentCount > 0
      ensures best == Choice(View())
    {
      var highest: u32 := 0;
      best := currentAgentId;
      var i, attempts := 0, 0;
      ghost var s := View();
      while i < agentCount && attempts < agentCount
        invariant 0 <= i == attempts <= agentCount
        invariant BestOf(s, i, best, highest)
      {
        var id := IdAfter(i);
        assert agents[id] == s.agents[id];
        if agents[id].state == Ready && agents[id].priority > highest {
          highest := agents[id].priority;
          best := id;
        }
        attempts := attempts + 1;
        i := i + 1;
      }
    }

    method AgentSchedule()
      requires Valid()
      modifies this`currentAgentId, agents
      ensures Valid() && View() == Schedule(old(View()))
    {
      if agentCount == 0 {
        return;
      }
      var best := SelectAgent();
      if best != currentAgentId {
        if agents[currentAgentId].state == Running {
          agents[currentAgentId] := agents[currentAgentId].(state := Ready);
        }
        agents[best] := agents[best].(state := Running);
        currentAgentId := best;
      } else {
        agents[currentAgentId] := agents[currentAgentId].(state := Running);
      }
    }

    method AgentTimerTick()
      requires Valid()
      modifies this`currentAgentId, agents
      ensures Valid() && View() == Tick(old(View()))
    {
      if agentCount == 0 {
        return;
      }
      var current := currentAgentId;
      if agents[current].quantum > 0 {
        agents[current] := agents[current].(quantum := agents[current].quantum - 1);
      }
      if agents[current].quantum == 0 {
        agents[current] := agents[current].(quantum := Wrap32(agents[current].priority * 10));
        ghost var s := old(View());
        assert View() == SetQuantum(s, s.current, Slice(s.agents[s.current].priority));
        AgentSchedule();
      }
    }
  }
}
