/**
 The state of kernel/core/kernel.c as a value: its agents with their mailboxes, the message log and the timer.
 An agent's id is its index in the table.
 */
module Tasks {
  import opened Words
  import opened AgentTypes
  import Cyclic

  const MAILBOX_SIZE := 16
  const MAX_MESSAGES := 1024
  const NO_SLOT: u32 := 0xFFFF_FFFF

  datatype Task = Task(level: nat, priority: u32, quantum: u32, state: AgentState, mailbox: seq<u32>)
  datatype Msg = Msg(src: nat, dst: nat, srcLevel: nat, dstLevel: nat, kind: u32, stamp: u64, delivered: bool)
  datatype Kernel = Kernel(tasks: seq<Task>, current: nat, log: seq<Msg>, ticks: u64)

  predicate Ok(k: Kernel) {
    && |k.tasks| <= MAX_AGENTS && |k.log| <= MAX_MESSAGES
    && if k.tasks == [] then k.current == 0 else k.current < |k.tasks|
  }

  const INITIAL := Kernel([], 0, [], 0)

  // ---------------------------------------------------------------- the calls

  function Spawn(k: Kernel, level: nat, priority: u32): Kernel {
    if |k.tasks| >= MAX_AGENTS then k
    else k.(tasks := k.tasks + [Task(level, priority, Slice(priority), Ready, [])])
  }

  /** The message is logged, and put into the receiver's mailbox while that has room. */
  function Send(k: Kernel, dst: u32, kind: u32): Kernel
    requires Ok(k)
  {
    if dst >= |k.tasks| || |k.log| >= MAX_MESSAGES then k
    else
      var t := k.tasks[dst];
      var room := |t.mailbox| < MAILBOX_SIZE;
      k.(log := k.log + [Msg(k.current, dst, k.tasks[k.current].level, t.level, kind, k.ticks, room)],
      tasks := if room then k.tasks[dst := t.(mailbox := t.mailbox + [kind])] else k.tasks)
  }

  /** First place at or after place j, in cyclic order behind the current task, whose task is ready. */
  function ReadyFrom(k: Kernel, j: nat): (p: nat)
    requires Ok(k) && k.tasks != [] && j <= |k.tasks|
    ensures j <= p <= |k.tasks|
    ensures p < |k.tasks| ==> k.tasks[Cyclic.At(|k.tasks|, k.current, p)].state == Ready
    ensures forall i :: j <= i < p ==> k.tasks[Cyclic.At(|k.tasks|, k.current, i)].state != Ready
    decreases |k.tasks| - j
  {
    if j == |k.tasks| || k.tasks[Cyclic.At(|k.tasks|, k.current, j)].state == Ready then j else ReadyFrom(k, j + 1)
  }

  function Schedule(k: Kernel): Kernel
    requires Ok(k)
  {
    if k.tasks == [] || ReadyFrom(k, 0) == |k.tasks| then k
    else k.(current := Cyclic.At(|k.tasks|, k.current, ReadyFrom(k, 0)))
  }

  function SetQuantum(k: Kernel, id: nat, q: u32): Kernel
    requires id < |k.tasks|
  {
    k.(tasks := k.tasks[id := k.tasks[id].(quantum := q)])
  }

  /** The timer interrupt. A task whose quantum is 0 is left alone. */
  function Timer(k: Kernel): Kernel
    requires Ok(k)
  {
    var k' := k.(ticks := Wrap64(k.ticks + 1));
    if k.tasks == [] || k.tasks[k.current].quantum == 0 then k'
    else
      var t := k.tasks[k.current];
      if t.quantum > 1 then SetQuantum(k', k.current, t.quantum - 1)
      else Schedule(SetQuantum(k', k.current, Slice(t.priority)))
  }

  datatype Op = SpawnOp(level: nat, priority: u32) | SendOp(dst: u32, kind: u32) | YieldOp | TimerOp

  function Step(k: Kernel, op: Op): (k': Kernel)
    requires Ok(k)
    ensures Ok(k')
  {
    match op
    case SpawnOp(level, priority) => Spawn(k, level, priority)
    case SendOp(dst, kind) => Send(k, dst, kind)
    case YieldOp => Schedule(k)
    case TimerOp => Timer(k)
  }

  function Run(k: Kernel, ops: seq<Op>): (k': Kernel)
    requires Ok(k)
    ensures Ok(k')
    decreases |ops|
  {
    if ops == [] then k else Run(Step(k, ops[0]), ops[1..])
  }

  // ---------------------------------------------------------------- mailboxes

  /** Kinds of the logged messages to `dst`, oldest first. */
  function SentTo(log: seq<Msg>, dst: nat): seq<u32> {
    if log == [] then []
    else SentTo(log[..|log| - 1], dst) + if log[|log| - 1].dst == dst then [log[|log| - 1].kind] else []
  }

  /** Kinds of those among them that are marked as delivered. */
  function DeliveredTo(log: seq<Msg>, dst: nat): seq<u32> {
    if log == [] then []
    else
      var m := log[|log| - 1];
      DeliveredTo(log[..|log| - 1], dst) + if m.dst == dst && m.delivered then [m.kind] else []
  }

  function FirstFew(s: seq<u32>): seq<u32> {
    if |s| <= MAILBOX_SIZE then s else s[..MAILBOX_SIZE]
  }

  /**
   Every mailbox holds the delivered messages to its task, in order; these are the first 16 accepted ones; and a
   log entry is marked delivered exactly when fewer than 16 messages to the same task precede it.
   */
  predicate MailAgrees(k: Kernel) {
    && (forall d :: 0 <= d < |k.tasks| ==>
                      k.tasks[d].mailbox == DeliveredTo(k.log, d)
                      && DeliveredTo(k.log, d) == FirstFew(SentTo(k.log, d)))
    && (forall e :: 0 <= e < |k.log| ==>
                      && k.log[e].dst < |k.tasks|
                      && (k.log[e].delivered <==> |SentTo(k.log[..e], k.log[e].dst)| < MAILBOX_SIZE))
  }

  lemma {:induction false} NothingSentBeyond(log: seq<Msg>, n: nat)
    requires forall e :: 0 <= e < |log| ==> log[e].dst < n
    ensures SentTo(log, n) == [] && DeliveredTo(log, n) == []
  {
    if log != [] {
      NothingSentBeyond(log[..|log| - 1], n);
    }
  }

  lemma SendKeepsMail(k: Kernel, dst: u32, kind: u32)
    requires Ok(k) && MailAgrees(k)
    ensures MailAgrees(Send(k, dst, kind))
  {
    var k' := Send(k, dst, kind);
    if k' != k {
      assert k'.log[..|k'.log| - 1] == k.log;
      forall e | 0 <= e < |k.log| ensures k'.log[..e] == k.log[..e] && k'.log[e] == k.log[e] {
      }
      forall d | 0 <= d < |k.tasks|
        ensures k'.tasks[d].mailbox == DeliveredTo(k'.log, d) && DeliveredTo(k'.log, d) == FirstFew(SentTo(k'.log, d))
      {
        assert k.tasks[d].mailbox == DeliveredTo(k.log, d) == FirstFew(SentTo(k.log, d));
      }
    }
  }

  /** Only the log and the mailboxes matter. */
  lemma SameMail(k: Kernel, k': Kernel)
    requires MailAgrees(k) && k'.log == k.log && |k'.tasks| == |k.tasks|
    requires forall d :: 0 <= d < |k.tasks| ==> k'.tasks[d].mailbox == k.tasks[d].mailbox
    ensures MailAgrees(k')
  {
  }

  lemma SpawnKeepsMail(k: Kernel, level: nat, priority: u32)
    requires Ok(k) && MailAgrees(k)
    ensures MailAgrees(Spawn(k, level, priority))
  {
    NothingSentBeyond(k.log, |k.tasks|);
  }

  lemma TimerKeepsMail(k: Kernel)
    requires Ok(k) && MailAgrees(k)
    ensures MailAgrees(Timer(k))
  {
    SameMail(k, Timer(k));
  }

  lemma StepKeepsMail(k: Kernel, op: Op)
    requires Ok(k) && MailAgrees(k)
    ensures MailAgrees(Step(k, op))
  {
    match op
    case SpawnOp(level, priority) => SpawnKeepsMail(k, level, priority);
    case SendOp(dst, kind) => SendKeepsMail(k, dst, kind);
    case YieldOp => SameMail(k, Schedule(k));
    case TimerOp => TimerKeepsMail(k);
  }

  /** Log and mailboxes agree after every run of spawns, sends, yields and timer interrupts. */
  lemma {:induction false} RunKeepsMail(k: Kernel, ops: seq<Op>)
    requires Ok(k) && MailAgrees(k)
    ensures MailAgrees(Run(k, ops))
    decreases |ops|
  {
    if ops != [] {
      StepKeepsMail(k, ops[0]);
      RunKeepsMail(Step(k, ops[0]), ops[1..]);
    }
  }

  /**
   A send to an existing task is accepted while the log has room, but reaches the mailbox exactly when fewer than
   16 messages to that task were accepted before: nothing ever makes room in a mailbox again.
   */
  lemma {:induction false} ReachesMailboxIff(ops: seq<Op>, dst: u32, kind: u32)
    ensures var k := Run(INITIAL, ops);
            var k' := Send(k, dst, kind);
            dst < |k.tasks| ==>
              && (k'.log == k.log <==> |k.log| == MAX_MESSAGES)
              && (k'.tasks[dst].mailbox == k.tasks[dst].mailbox + [kind] <==>
                  |k.log| < MAX_MESSAGES && |SentTo(k.log, dst)| < MAILBOX_SIZE)
              && forall d :: 0 <= d < |k.tasks| && d != dst ==> k'.tasks[d] == k.tasks[d]
  {
    var k := Run(INITIAL, ops);
    RunKeepsMail(INITIAL, ops);
    if dst < |k.tasks| {
      assert k.tasks[dst].mailbox == FirstFew(SentTo(k.log, dst));
    }
  }

  function Sends(n: nat): seq<Op> {
    seq(n, _ => SendOp(0, 7))
  }

  lemma {:induction false} SendsAreLogged(k: Kernel, n: nat)
    requires Ok(k) && k.tasks != [] && |k.log| + n <= MAX_MESSAGES
    ensures var r := Run(k, Sends(n));
            |r.tasks| == |k.tasks| && |r.log| == |k.log| + n && |SentTo(r.log, 0)| == |SentTo(k.log, 0)| + n
    decreases n
  {
    if n > 0 {
      var k' := Send(k, 0, 7);
      assert Sends(n)[1..] == Sends(n - 1);
      assert k'.log[..|k.log|] == k.log;
      SendsAreLogged(k', n - 1);
    }
  }

  /** For example, the 17th message to the first agent is accepted and logged, and never reaches it. */
  lemma SeventeenthIsLost()
    ensures var k := Run(Step(INITIAL, SpawnOp(0, 1)), Sends(MAILBOX_SIZE));
            var k' := Send(k, 0, 7);
            && |k.tasks| == 1 && |k.tasks[0].mailbox| == MAILBOX_SIZE
            && |k'.log| == |k.log| + 1 && k'.tasks == k.tasks && !k'.log[|k.log|].delivered
  {
    var k := Step(INITIAL, SpawnOp(0, 1));
    SendsAreLogged(k, MAILBOX_SIZE);
    StepKeepsMail(INITIAL, SpawnOp(0, 1));
    RunKeepsMail(k, Sends(MAILBOX_SIZE));
  }
}
