/** The agent table, message queue and timer of kernel/core/kernel.c, updated in place. */
module KernelCore {
  import opened Words
  import opened AgentTypes
  import opened Tasks
  import Cyclic

  /** A slot of the table, with its fixed mailbox buffer and that buffer's indices. */
  datatype Slot = Slot(id: u32, level: nat, priority: u32, quantum: u32, state: AgentState,
                       mailbox: seq<u32>, mbHead: u32, mbTail: u32)

  predicate SlotOk(a: Slot) {
    |a.mailbox| == MAILBOX_SIZE && a.mbTail <= MAILBOX_SIZE
  }

  function TaskOf(a: Slot): Task
    requires SlotOk(a)
  {
    Task(a.level, a.priority, a.quantum, a.state, a.mailbox[..a.mbTail])
  }

  const EMPTY_SLOT := Slot(0, 0, 0, 0, Idle, seq(MAILBOX_SIZE, _ => 0), 0, 0)
  const EMPTY_MSG := Msg(0, 0, 0, 0, 0, 0, false)

  class Core {
    const agents: array<Slot>
    const messageQueue: array<Msg>
    var agentCount: u32
    var currentAgent: u32
    var msgTail: u32
    var systemTicks: u64

    ghost predicate Valid()
      reads this, agents, messageQueue
    {
      && agents.Length == MAX_AGENTS && messageQueue.Length == MAX_MESSAGES
      && agentCount <= MAX_AGENTS && msgTail <= MAX_MESSAGES
      && (forall i :: 0 <= i < MAX_AGENTS ==> SlotOk(agents[i]))
      && (forall i :: 0 <= i < agentCount ==> agents[i].id == i)
      && (if agentCount == 0 then currentAgent == 0 else currentAgent < agentCount)
    }

    ghost function View(): (k: Kernel)
      requires Valid()
      reads this, agents, messageQueue
      ensures Ok(k) && |k.tasks| == agentCount && |k.log| == msgTail
    {
      var tasks := seq(agentCount, i requires 0 <= i < agentCount && Valid() reads this, agents, messageQueue =>
                     TaskOf(agents[i]));
      Kernel(tasks, currentAgent, messageQueue[..msgTail], systemTicks)
    }

    constructor ()
      ensures Valid() && View() == INITIAL && fresh(agents) && fresh(messageQueue)
    {
      agents := new Slot[MAX_AGENTS](_ => EMPTY_SLOT);
      messageQueue := new Msg[MAX_MESSAGES](_ => EMPTY_MSG);
      agentCount, currentAgent, msgTail, systemTicks := 0, 0, 0, 0;
    }

    method SysAgentSpawn(level: u32, priority: u32) returns (r: u32)
      requires Valid() && level < 5
      modifies this, agents
      ensures Valid() && View() == Spawn(old(View()), level, priority)
      ensures r == if old(agentCount) >= MAX_AGENTS then NO_SLOT else old(agentCount)
    {
      if agentCount >= MAX_AGENTS {
        return NO_SLOT;
      }
      agents[agentCount] := agents[agentCount].(id := agentCount, level := level, priority := priority,
      quantum := Wrap32(priority * 10), state := Ready, mbHead := 0, mbTail := 0);
      agentCount := agentCount + 1;
      r := agentCount - 1;
      assert View().tasks == Spawn(old(View()), level, priority).tasks;
    }

    method SysAgentSend(dst: u32, kind: u32) returns (r: u32)
      requires Valid()
      modifies this`msgTail, agents, messageQueue
      ensures Valid() && View() == Send(old(View()), dst, kind)
      ensures r == if dst >= agentCount || old(msgTail) >= MAX_MESSAGES then 1 else 0
    {
      if dst >= agentCount || msgTail >= MAX_MESSAGES {
        return 1;
      }
      ghost var k := View();
      var m := Msg(currentAgent, dst, agents[currentAgent].level, agents[dst].level, kind, systemTicks, false);
      if agents[dst].mbTail < MAILBOX_SIZE {
        var a := agents[dst];
        agents[dst] := a.(mailbox := a.mailbox[a.mbTail := kind], mbTail := a.mbTail + 1);
        m := m.(delivered := true);
        assert TaskOf(agents[dst]).mailbox == TaskOf(a).mailbox + [kind];
      }
      messageQueue[msgTail] := m;
      msgTail := msgTail + 1;
      r := 0;
      assert View().tasks == Send(k, dst, kind).tasks;
    }

    /** The search loop of the scheduler. */
    method FindReady() returns (next: u32, attempts: u32)
      requires Valid() && agentCount > 0
      ensures attempts == ReadyFrom(View(), 0)
      ensures attempts < agentCount ==> next == Cyclic.At(agentCount, currentAgent, attempts)
    {
      ghost var k, n: nat, c: nat := View(), agentCount, currentAgent;
      ModOnce(currentAgent + 1, agentCount);
      next := (currentAgent + 1) % agentCount;
      attempts := 0;
      while agents[next].state != Ready && attempts < agentCount
        invariant 0 <= attempts <= n && next < n && c < n
        invariant next == Cyclic.At(n, c, if attempts < n then attempts else 0)
        invariant forall i :: 0 <= i < attempts ==> k.tasks[Cyclic.At(n, c, i)].state != Ready
      {
        ModOnce(next + 1, agentCount);
        next := (next + 1) % agentCount;
        attempts := attempts + 1;
      }
    }

    method ScheduleNext()
      requires Valid()
      modifies this`currentAgent
      ensures Valid() && View() == Schedule(old(View()))
    {
      if agentCount == 0 {
        return;
      }
      var next, attempts := FindReady();
      if attempts >= agentCount {
        return;
      }
      if next != currentAgent {
        currentAgent := next;
      }
      assert View().tasks == old(View()).tasks;
    }

    method TimerInterrupt()
      requires Valid()
      modifies this`currentAgent, this`systemTicks, agents
      ensures Valid() && View() == Timer(old(View()))
    {
      ghost var k := View();
      systemTicks := Wrap64(systemTicks + 1);
      assert View() == k.(ticks := Wrap64(k.ticks + 1)) by {
        assert View().tasks == k.tasks;
      }
      if agentCount > 0 && agents[currentAgent].quantum > 0 {
        StoreQuantum(currentAgent, agents[currentAgent].quantum - 1);
        if agents[currentAgent].quantum == 0 {
          assert SetQuantum(View(), currentAgent, Slice(k.tasks[currentAgent].priority))
              == SetQuantum(k.(ticks := systemTicks), currentAgent, Slice(k.tasks[currentAgent].priority));
          StoreQuantum(currentAgent, Wrap32(agents[currentAgent].priority * 10));
          ScheduleNext();
        }
      }
    }

    method StoreQuantum(id: u32, quantum: u32)
      requires Valid() && id < agentCount
      modifies agents
      ensures Valid() && View() == SetQuantum(old(View()), id, quantum)
      ensures agents[id] == old(agents[id]).(quantum := quantum)
    {
      ghost var k := View();
      agents[id] := agents[id].(quantum := quantum);
      assert View().tasks == SetQuantum(k, id, quantum).tasks;
    }
  }
}
