/**
 The life of one watchdog of kernel/core/watchdog.c, told without the table: what was given at its creation, and how it
 is armed, disarmed and fired, whatever happens to the others.
 */
module WatchdogLives {
  import opened Words
  import opened Watchdogs

  // ---------------------------------------------------------------- creation

  datatype Spec = Spec(agent: u32, timeout: u64, recovery: Recovery)

  /** What an operation creates; a timeout of 0 stands for 5000 ticks. */
  function CreatedBy(op: Op): seq<Spec> {
    match op
    case CreateOp(agent, timeout, recovery) => [Spec(agent, if timeout == 0 then 5000 else timeout, recovery)]
    case _ => []
  }

  /** What the run creates, oldest first. */
  function Created(ops: seq<Op>): seq<Spec>
    decreases |ops|
  {
    if ops == [] then [] else Created(ops[..|ops| - 1]) + CreatedBy(ops[|ops| - 1])
  }

  function FirstDogs(specs: seq<Spec>): seq<Spec> {
    if |specs| <= 64 then specs else specs[..64]
  }

  function SpecsOf(dogs: seq<Dog>): (specs: seq<Spec>)
    ensures |specs| == |dogs|
  {
    seq(|dogs|, i requires 0 <= i < |dogs| => Spec(dogs[i].agent, dogs[i].timeout, dogs[i].recovery))
  }

  lemma {:induction false} CheckKeepsSpecs(w: Watch, i: nat)
    requires i <= |w.dogs|
    ensures SpecsOf(CheckFrom(w, i).dogs) == SpecsOf(w.dogs) && CheckFrom(w, i).created == w.created
    ensures CheckFrom(w, i).ticks == w.ticks
    decreases |w.dogs| - i
  {
    if i < |w.dogs| {
      if !Due(w, i) {
        CheckKeepsSpecs(w, i + 1);
      } else if w.dogs[i].recovery != SystemReboot {
        CheckKeepsSpecs(Recover(Expire(w, i), i), i + 1);
        assert SpecsOf(Recover(Expire(w, i), i).dogs) == SpecsOf(w.dogs);
      }
    }
  }

  /** The table lists these, and the statistic of creations is their number. */
  predicate Lists(w: Watch, specs: seq<Spec>) {
    SpecsOf(w.dogs) == specs && |specs| <= 64 && w.created == |specs|
  }

  lemma StepKeepsSpecs(w: Watch, specs: seq<Spec>, op: Op)
    requires !w.halted && Lists(w, specs)
    ensures Lists(Step(w, op), FirstDogs(specs + CreatedBy(op)))
  {
    match op
    case CheckOp => CheckKeepsSpecs(w, 0);
    case _ =>
  }

  /** A run that has not halted has never been halted before. */
  lemma {:induction false} NotHaltedBefore(w: Watch, ops: seq<Op>)
    requires ops != [] && !Run(w, ops).halted
    ensures !Run(w, ops[..|ops| - 1]).halted
  {
  }

  /**
   Over every run that no reboot ends: the table lists what was created, in order, up to 64 watchdogs, and the statistic
   of creations is their number. Agents, timeouts and recoveries never change.
   */
  lemma {:induction false} RunKeepsSpecs(ops: seq<Op>)
    requires !Run(INITIAL, ops).halted
    ensures Lists(Run(INITIAL, ops), FirstDogs(Created(ops)))
    decreases |ops|
  {
    if ops != [] {
      var n := |ops| - 1;
      NotHaltedBefore(INITIAL, ops);
      RunKeepsSpecs(ops[..n]);
      StepKeepsSpecs(Run(INITIAL, ops[..n]), FirstDogs(Created(ops[..n])), ops[n]);
      FirstOfFirst(Created(ops[..n]), CreatedBy(ops[n]));
    }
  }

  lemma FirstOfFirst(a: seq<Spec>, b: seq<Spec>)
    ensures FirstDogs(FirstDogs(a) + b) == FirstDogs(a + b)
  {
  }

  // ---------------------------------------------------------------- one watchdog alone

  /** Armed since `gap` ticks, or not; how often it has fired; and whether the last thing it did was to fire. */
  datatype Life = Life(armed: bool, gap: u64, fired: u32, triggered: bool)

  /** What one operation means for watchdog i of the given timeout, taken by itself. */
  function Live(l: Life, i: u32, timeout: u64, op: Op): Life {
    match op
    case EnableOp(j) => if j == i then Life(true, 0, l.fired, false) else l
    case DisableOp(j) => if j == i && l.armed then l.(armed := false, triggered := false) else l
    case DeleteOp(j) => if j == i then l.(armed := false, triggered := false) else l
    case KickOp(j) => if j == i && l.armed then l.(gap := 0) else l
    case ClockOp => if l.armed then l.(gap := Wrap64(l.gap + 1)) else l
    case CheckOp =>
      if l.armed && l.gap >= timeout then Life(false, l.gap, Wrap32(l.fired + 1), true) else l
    case CreateOp(_, _, _) => l
  }

  function LiveThrough(l: Life, i: u32, timeout: u64, ops: seq<Op>): Life
    decreases |ops|
  {
    if ops == [] then l
    else Live(LiveThrough(l, i, timeout, ops[..|ops| - 1]), i, timeout, ops[|ops| - 1])
  }

  /** Watchdog i of the table leads this life; the gap matters only while it is armed. */
  predicate Leads(w: Watch, i: u32, l: Life) {
    && i < |w.dogs|
    && w.dogs[i].mode == (if l.armed then Enabled else if l.triggered then Triggered else Disabled)
    && w.dogs[i].expiries == l.fired
    && (l.armed ==> Elapsed(w, i) == l.gap && !l.triggered)
  }

  lemma StepLives(w: Watch, i: u32, l: Life, op: Op)
    requires Leads(w, i, l) && !w.halted && !Step(w, op).halted
    ensures Leads(Step(w, op), i, Live(l, i, w.dogs[i].timeout, op))
    ensures Step(w, op).dogs[i].timeout == w.dogs[i].timeout
  {
    match op
    case CheckOp =>
      CheckExact(w);
      CheckFromEach(w, 0);
    case ClockOp => ClockElapsed(w, i);
    case _ =>
  }

  /**
   Every watchdog is alone: over every run that no reboot ends, enabling, disabling, deleting, kicking, scans and the
   clock make of it what they would make of a single one, whatever happens to the others and wherever it is in the
   table.
   */
  lemma {:induction false} EachAlone(w: Watch, i: u32, l: Life, ops: seq<Op>)
    requires Leads(w, i, l) && !Run(w, ops).halted
    ensures var r := Run(w, ops);
            && i < |r.dogs| && r.dogs[i].timeout == w.dogs[i].timeout
            && Leads(r, i, LiveThrough(l, i, w.dogs[i].timeout, ops))
    decreases |ops|
  {
    if ops != [] {
      var n := |ops| - 1;
      NotHaltedBefore(w, ops);
      EachAlone(w, i, l, ops[..n]);
      StepLives(Run(w, ops[..n]), i, LiveThrough(l, i, w.dogs[i].timeout, ops[..n]), ops[n]);
    }
  }

  /** It begins disarmed, and so it is found after its creation. */
  lemma BornDisarmed(w: Watch, agent: u32, timeout: u64, recovery: Recovery)
    requires |w.dogs| < 64
    ensures var r := Create(w, agent, timeout, recovery);
            && |r.dogs| == |w.dogs| + 1 && r.dogs[..|w.dogs|] == w.dogs
            && Leads(r, |w.dogs|, Life(false, 0, 0, false)) && Elapsed(r, |w.dogs|) == 0
  {
  }

  /**
   Enabling restarts the time: enabled, and then neither enabled again, disabled nor deleted, a watchdog has fired if
   and only if some scan has come a whole timeout after the enabling or the last kick.
   */
  lemma {:induction false} EnabledFiresIff(w: Watch, i: u32, ops: seq<Op>)
    requires i < |w.dogs| && !w.halted && LeavesArmed(i, ops) && !Run(Enable(w, i), ops).halted
    ensures var r, missed := Run(Enable(w, i), ops), Missed(0, w.dogs[i].timeout, i, ops);
            i < |r.dogs| && FiredIf(w.dogs[i], r.dogs[i], missed)
  {
    FiresIff(Enable(w, i), i, ops);
  }

  /** Disarmed, by either call, it does not fire before it is enabled again. */
  lemma {:induction false} DisarmedIsIdle(w: Watch, i: u32, ops: seq<Op>)
    requires i < |w.dogs| && w.dogs[i].mode != Expired
    requires forall k :: 0 <= k < |ops| ==> ops[k] != EnableOp(i)
    ensures var r, s := Run(Disable(w, i), ops), Run(Delete(w, i), ops);
            && i < |r.dogs| && r.dogs[i].mode in {Disabled, Triggered} && r.dogs[i].expiries == w.dogs[i].expiries
            && i < |s.dogs| && s.dogs[i].mode in {Disabled, Triggered} && s.dogs[i].expiries == w.dogs[i].expiries
  {
    IdleUntilEnabled(Disable(w, i), i, ops);
    IdleUntilEnabled(Delete(w, i), i, ops);
  }
}
