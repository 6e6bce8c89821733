/**
 The watchdogs of kernel/core/watchdog.c as values, the scan that fires them, and what holds over every run of calls
 and clock ticks. A watchdog's id is its index. A reboot recovery halts the machine in the middle of the scan.
 */
module Watchdogs {
  import opened Words
  import Agents
  import AgentTypes

  const WATCHDOG_MAX := 64
  const DEFAULT_TIMEOUT := 5000

  datatype Mode = Disabled | Enabled | Expired | Triggered
  datatype Recovery = NoAction | LogOnly | RaiseAlarm | RestartAgent | SafeState | SystemReboot
  datatype Dog = Dog(agent: u32, timeout: u64, lastKick: u64, mode: Mode, recovery: Recovery, expiries: u32)
  datatype Watch = Watch(dogs: seq<Dog>, ticks: u64, created: u32, active: u32,
                         expirations: u32, recoveries: u32, halted: bool)

  const INITIAL := Watch([], 0, 0, 0, 0, 0, false)

  function Elapsed(w: Watch, i: nat): u64
    requires i < |w.dogs|
  {
    Wrap64(w.ticks - w.dogs[i].lastKick)
  }

  predicate Due(w: Watch, i: nat)
    requires i < |w.dogs|
  {
    w.dogs[i].mode == Enabled && Elapsed(w, i) >= w.dogs[i].timeout
  }

  function SetDog(w: Watch, i: nat, d: Dog): Watch
    requires i < |w.dogs|
  {
    w.(dogs := w.dogs[i := d])
  }

  // ---------------------------------------------------------------- the calls

  function Create(w: Watch, agent: u32, timeout: u64, recovery: Recovery): Watch {
    if |w.dogs| >= WATCHDOG_MAX then w
    else
      var d := Dog(agent, if timeout != 0 then timeout else DEFAULT_TIMEOUT, w.ticks, Disabled, recovery, 0);
      w.(dogs := w.dogs + [d], created := Wrap32(w.created + 1))
  }

  function Enable(w: Watch, i: u32): Watch {
    if i >= |w.dogs| then w
    else SetDog(w, i, w.dogs[i].(mode := Enabled, lastKick := w.ticks)).(active := Wrap32(w.active + 1))
  }

  function Disable(w: Watch, i: u32): Watch {
    if i >= |w.dogs| || w.dogs[i].mode != Enabled then w
    else SetDog(w, i, w.dogs[i].(mode := Disabled)).(active := Wrap32(w.active - 1))
  }

  function Kick(w: Watch, i: u32): Watch {
    if i < |w.dogs| && w.dogs[i].mode in {Enabled, Expired}
    then SetDog(w, i, w.dogs[i].(mode := Enabled, lastKick := w.ticks))
    else w
  }

  function Delete(w: Watch, i: u32): Watch {
    if i >= |w.dogs| then w
    else
      var active := if w.dogs[i].mode == Enabled then Wrap32(w.active - 1) else w.active;
      SetDog(w, i, w.dogs[i].(mode := Disabled)).(active := active)
  }

  function Expire(w: Watch, i: nat): Watch
    requires i < |w.dogs|
  {
    SetDog(w, i, w.dogs[i].(mode := Expired, expiries := Wrap32(w.dogs[i].expiries + 1)))
    .(expirations := Wrap32(w.expirations + 1))
  }

  function Recover(w: Watch, i: nat): Watch
    requires i < |w.dogs|
  {
    SetDog(w, i, w.dogs[i].(mode := Triggered)).(recoveries := Wrap32(w.recoveries + 1))
  }

  /** The scan from slot i on. */
  function CheckFrom(w: Watch, i: nat): Watch
    requires i <= |w.dogs|
    decreases |w.dogs| - i
  {
    if i == |w.dogs| then w
    else if !Due(w, i) then CheckFrom(w, i + 1)
    else if w.dogs[i].recovery == SystemReboot then Expire(w, i).(halted := true)
    else CheckFrom(Recover(Expire(w, i), i), i + 1)
  }

  function CheckAll(w: Watch): Watch {
    CheckFrom(w, 0)
  }

  /** The agents that the scan from slot i on terminates, in order. */
  function RestartsFrom(w: Watch, i: nat): seq<u32>
    requires i <= |w.dogs|
    decreases |w.dogs| - i
  {
    if i == |w.dogs| then []
    else if !Due(w, i) then RestartsFrom(w, i + 1)
    else if w.dogs[i].recovery == SystemReboot then []
    else
      var later := RestartsFrom(Recover(Expire(w, i), i), i + 1);
      if w.dogs[i].recovery == RestartAgent then [w.dogs[i].agent] + later else later
  }

  datatype Op =
    | CreateOp(agent: u32, timeout: u64, recovery: Recovery)
    | EnableOp(id: u32) | DisableOp(id: u32) | DeleteOp(id: u32) | KickOp(id: u32)
    | CheckOp | ClockOp

  /** A halted machine stays as it is. */
  function Step(w: Watch, op: Op): Watch {
    if w.halted then w else
    match op
    case CreateOp(agent, timeout, recovery) => Create(w, agent, timeout, recovery)
    case EnableOp(i) => Enable(w, i)
    case DisableOp(i) => Disable(w, i)
    case DeleteOp(i) => Delete(w, i)
    case KickOp(i) => Kick(w, i)
    case CheckOp => CheckAll(w)
    case ClockOp => w.(ticks := Wrap64(w.ticks + 1))
  }

  function Run(w: Watch, ops: seq<Op>): Watch
    decreases |ops|
  {
    if ops == [] then w else Step(Run(w, ops[..|ops| - 1]), ops[|ops| - 1])
  }

  // ---------------------------------------------------------------- one scan

  function AfterFiring(d: Dog): Dog {
    d.(mode := Triggered, expiries := Wrap32(d.expiries + 1))
  }

  /** A reboot recovery is due somewhere from slot i on. */
  predicate RebootDue(w: Watch, i: nat) {
    exists j :: i <= j < |w.dogs| && Due(w, j) && w.dogs[j].recovery == SystemReboot
  }

  lemma {:induction false} CheckFromEach(w: Watch, i: nat)
    requires i <= |w.dogs| && !w.halted
    ensures var r := CheckFrom(w, i);
            && |r.dogs| == |w.dogs| && r.ticks == w.ticks
            && (r.halted <==> RebootDue(w, i))
            && (forall j :: 0 <= j < i ==> r.dogs[j] == w.dogs[j])
            && (!r.halted ==> forall j :: i <= j < |w.dogs| ==>
                                            r.dogs[j] == if Due(w, j) then AfterFiring(w.dogs[j]) else w.dogs[j])
    decreases |w.dogs| - i
  {
    if i < |w.dogs| {
      if !Due(w, i) {
        CheckFromEach(w, i + 1);
      } else if w.dogs[i].recovery != SystemReboot {
        var v := Recover(Expire(w, i), i);
        assert forall j :: i < j < |w.dogs| ==> (Due(v, j) <==> Due(w, j));
        CheckFromEach(v, i + 1);
      }
    }
  }

  /**
   One scan fires exactly the enabled watchdogs whose time is up and leaves the others alone, unless it meets a reboot
   recovery, which it does exactly when one is due.
   */
  lemma CheckExact(w: Watch)
    requires !w.halted
    ensures var r := CheckAll(w);
            && |r.dogs| == |w.dogs| && (r.halted <==> RebootDue(w, 0))
            && (!r.halted ==> forall j :: 0 <= j < |w.dogs| ==>
                                            r.dogs[j] == if Due(w, j) then AfterFiring(w.dogs[j]) else w.dogs[j])
  {
    CheckFromEach(w, 0);
  }

  /** After a scan no enabled watchdog is overdue, and scanning again at once changes nothing. */
  lemma NothingDueAfterCheck(w: Watch)
    requires !w.halted && !CheckAll(w).halted
    ensures var r := CheckAll(w);
            && (forall j :: 0 <= j < |r.dogs| && r.dogs[j].mode == Enabled ==> Elapsed(r, j) < r.dogs[j].timeout)
            && CheckAll(r) == r
  {
    var r := CheckAll(w);
    CheckFromEach(w, 0);
    forall j | 0 <= j < |r.dogs|
      ensures !Due(r, j)
    {
      assert r.dogs[j] == if Due(w, j) then AfterFiring(w.dogs[j]) else w.dogs[j];
    }
    NothingDue(r, 0);
  }

  lemma {:induction false} NothingDue(w: Watch, i: nat)
    requires i <= |w.dogs| && forall j :: 0 <= j < |w.dogs| ==> !Due(w, j)
    ensures CheckFrom(w, i) == w
    decreases |w.dogs| - i
  {
    if i < |w.dogs| {
      NothingDue(w, i + 1);
    }
  }

  // ---------------------------------------------------------------- counters

  function Expiries(dogs: seq<Dog>): nat {
    if dogs == [] then 0 else Expiries(dogs[..|dogs| - 1]) + dogs[|dogs| - 1].expiries
  }

  lemma {:induction false} ExpiriesUpdate(dogs: seq<Dog>, i: nat, d: Dog)
    requires i < |dogs|
    ensures Expiries(dogs[i := d]) == Expiries(dogs) - dogs[i].expiries + d.expiries
    decreases |dogs|
  {
    var n := |dogs| - 1;
    if i == n {
      assert dogs[i := d][..n] == dogs[..n];
    } else {
      ExpiriesUpdate(dogs[..n], i, d);
      assert dogs[i := d][..n] == dogs[..n][i := d];
    }
  }

  /** How many watchdogs are stuck in the state EXPIRED. */
  function Stuck(dogs: seq<Dog>): nat {
    if dogs == [] then 0 else Stuck(dogs[..|dogs| - 1]) + if dogs[|dogs| - 1].mode == Expired then 1 else 0
  }

  lemma {:induction false} StuckUpdate(dogs: seq<Dog>, i: nat, d: Dog)
    requires i < |dogs|
    ensures Stuck(dogs[i := d]) == Stuck(dogs) - (if dogs[i].mode == Expired then 1 else 0)
                                   + (if d.mode == Expired then 1 else 0)
    decreases |dogs|
  {
    var n := |dogs| - 1;
    if i == n {
      assert dogs[i := d][..n] == dogs[..n];
    } else {
      StuckUpdate(dogs[..n], i, d);
      assert dogs[i := d][..n] == dogs[..n][i := d];
    }
  }

  /**
   The counters agree: the expirations are the sum of the per-watchdog counts, both in 32 bits; each was followed by a
   recovery, except the one that halted the machine, which is the only one still in the state EXPIRED.
   */
  ghost predicate Counts(w: Watch) {
    && |w.dogs| <= WATCHDOG_MAX
    && (forall j :: 0 <= j < |w.dogs| ==> w.dogs[j].timeout > 0)
    && w.expirations == Wrap32(Expiries(w.dogs))
    && w.expirations == Wrap32(w.recoveries + Stuck(w.dogs))
    && Stuck(w.dogs) == if w.halted then 1 else 0
  }

  lemma {:induction false} NotStuck(dogs: seq<Dog>, j: nat)
    requires j < |dogs| && Stuck(dogs) == 0
    ensures dogs[j].mode != Expired
    decreases |dogs|
  {
    if j < |dogs| - 1 {
      NotStuck(dogs[..|dogs| - 1], j);
    }
  }

  lemma ModeKeepsCounts(w: Watch, i: nat, mode: Mode, kick: u64)
    requires Counts(w) && !w.halted && i < |w.dogs| && mode != Expired
    ensures Counts(SetDog(w, i, w.dogs[i].(mode := mode, lastKick := kick)))
  {
    var d := w.dogs[i].(mode := mode, lastKick := kick);
    NotStuck(w.dogs, i);
    ExpiriesUpdate(w.dogs, i, d);
    StuckUpdate(w.dogs, i, d);
  }

  lemma ExpireKeepsCounts(w: Watch, i: nat)
    requires Counts(w) && !w.halted && i < |w.dogs|
    ensures Counts(Expire(w, i).(halted := true))
  {
    var e: int := w.dogs[i].expiries;
    var d := w.dogs[i].(mode := Expired, expiries := Wrap32(e + 1));
    NotStuck(w.dogs, i);
    ExpiriesUpdate(w.dogs, i, d);
    StuckUpdate(w.dogs, i, d);
    var rest := Expiries(w.dogs) - e;
    WrapAdd(e + 1, rest);
    WrapAdd(Expiries(w.dogs), 1);
    WrapAdd(w.recoveries, 1);
    WrapSmall(w.recoveries);
  }

  lemma RecoverKeepsCounts(w: Watch, i: nat)
    requires Counts(w.(halted := true)) && !w.halted && i < |w.dogs| && w.dogs[i].mode == Expired
    ensures Counts(Recover(w, i))
  {
    var d := w.dogs[i].(mode := Triggered);
    ExpiriesUpdate(w.dogs, i, d);
    StuckUpdate(w.dogs, i, d);
    WrapSmall(Wrap32(w.recoveries + 1));
  }

  lemma {:induction false} CheckKeepsCounts(w: Watch, i: nat)
    requires Counts(w) && !w.halted && i <= |w.dogs|
    ensures Counts(CheckFrom(w, i))
    decreases |w.dogs| - i
  {
    if i < |w.dogs| {
      if !Due(w, i) {
        CheckKeepsCounts(w, i + 1);
      } else {
        ExpireKeepsCounts(w, i);
        if w.dogs[i].recovery != SystemReboot {
          var x := Expire(w, i);
          assert x.(halted := true).dogs == x.dogs;
          RecoverKeepsCounts(x, i);
          CheckKeepsCounts(Recover(x, i), i + 1);
        }
      }
    }
  }

  lemma {:induction false} RunKeepsCounts(w: Watch, ops: seq<Op>)
    requires Counts(w)
    ensures Counts(Run(w, ops))
    decreases |ops|
  {
    if ops != [] {
      var n := |ops| - 1;
      RunKeepsCounts(w, ops[..n]);
      StepKeepsCounts(Run(w, ops[..n]), ops[n]);
    }
  }

  lemma StepKeepsCounts(w: Watch, op: Op)
    requires Counts(w)
    ensures Counts(Step(w, op))
  {
    if !w.halted {
      match op
      case CreateOp(agent, timeout, recovery) => CreateKeepsCounts(w, agent, timeout, recovery);
      case EnableOp(i) =>
        if i < |w.dogs| {
          ModeKeepsCounts(w, i, Enabled, w.ticks);
        }
      case DisableOp(i) =>
        if i < |w.dogs| {
          ModeKeepsCounts(w, i, Disabled, w.dogs[i].lastKick);
        }
      case DeleteOp(i) =>
        if i < |w.dogs| {
          ModeKeepsCounts(w, i, Disabled, w.dogs[i].lastKick);
        }
      case KickOp(i) =>
        if i < |w.dogs| {
          ModeKeepsCounts(w, i, Enabled, w.ticks);
        }
      case CheckOp => CheckKeepsCounts(w, 0);
      case ClockOp =>
    }
  }

  lemma CreateKeepsCounts(w: Watch, agent: u32, timeout: u64, recovery: Recovery)
    requires Counts(w)
    ensures Counts(Create(w, agent, timeout, recovery))
  {
    var r := Create(w, agent, timeout, recovery);
    if |w.dogs| < WATCHDOG_MAX {
      assert r.dogs[..|w.dogs|] == w.dogs;
    }
  }

  lemma CountsTell(w: Watch)
    requires Counts(w)
    ensures w.expirations == Wrap32(Expiries(w.dogs))
    ensures !w.halted ==> w.expirations == w.recoveries && forall j :: 0 <= j < |w.dogs| ==> w.dogs[j].mode != Expired
    ensures w.halted ==> w.expirations == Wrap32(w.recoveries + 1)
  {
    if !w.halted {
      WrapSmall(w.recoveries);
      forall j | 0 <= j < |w.dogs|
        ensures w.dogs[j].mode != Expired
      {
        NotStuck(w.dogs, j);
      }
    }
  }

  /** In every run that no reboot ends: expirations = recoveries = sum of the expiry counts, and nothing is EXPIRED. */
  lemma {:induction false} ExpirationsAreRecoveries(ops: seq<Op>)
    ensures var w := Run(INITIAL, ops);
            && w.expirations == Wrap32(Expiries(w.dogs))
            && (!w.halted ==> w.expirations == w.recoveries
                              && forall j :: 0 <= j < |w.dogs| ==> w.dogs[j].mode != Expired)
            && (w.halted ==> w.expirations == Wrap32(w.recoveries + 1))
  {
    RunKeepsCounts(INITIAL, ops);
    CountsTell(Run(INITIAL, ops));
  }

  // ---------------------------------------------------------------- the active watchdogs

  function Armed(dogs: seq<Dog>): nat {
    if dogs == [] then 0 else Armed(dogs[..|dogs| - 1]) + if dogs[|dogs| - 1].mode == Enabled then 1 else 0
  }

  lemma {:induction false} ArmedUpdate(dogs: seq<Dog>, i: nat, d: Dog)
    requires i < |dogs|
    ensures Armed(dogs[i := d]) == Armed(dogs) - (if dogs[i].mode == Enabled then 1 else 0)
                                   + (if d.mode == Enabled then 1 else 0)
    decreases |dogs|
  {
    var n := |dogs| - 1;
    if i == n {
      assert dogs[i := d][..n] == dogs[..n];
    } else {
      ArmedUpdate(dogs[..n], i, d);
      assert dogs[i := d][..n] == dogs[..n][i := d];
    }
  }

  lemma {:induction false} ArmedAtMost(dogs: seq<Dog>)
    ensures Armed(dogs) <= |dogs|
    decreases |dogs|
  {
    if dogs != [] {
      ArmedAtMost(dogs[..|dogs| - 1]);
    }
  }

  /** How many calls of the run enable a watchdog that is enabled already. */
  function Repeats(w: Watch, ops: seq<Op>): nat
    decreases |ops|
  {
    if ops == [] then 0
    else
      var before := ops[..|ops| - 1];
      Repeats(w, before) + if IsRepeat(Run(w, before), ops[|ops| - 1]) then 1 else 0
  }

  predicate IsRepeat(w: Watch, op: Op) {
    !w.halted && op.EnableOp? && op.id < |w.dogs| && w.dogs[op.id].mode == Enabled
  }

  /** The statistic counts the enabled watchdogs, and also every expiry and every repeated enabling so far. */
  predicate Drifted(w: Watch, repeats: nat) {
    w.active == Wrap32(Armed(w.dogs) + w.expirations + repeats)
  }

  function OneIfEnabled(mode: Mode): nat {
    if mode == Enabled then 1 else 0
  }

  lemma ArmKeepsDrift(w: Watch, i: nat, mode: Mode, kick: u64, repeats: nat, repeats': nat, active: u32)
    requires Drifted(w, repeats) && i < |w.dogs|
    requires active == Wrap32(w.active + OneIfEnabled(mode) - OneIfEnabled(w.dogs[i].mode) + repeats' - repeats)
    ensures Drifted(SetDog(w, i, w.dogs[i].(mode := mode, lastKick := kick)).(active := active), repeats')
  {
    ArmedUpdate(w.dogs, i, w.dogs[i].(mode := mode, lastKick := kick));
    WrapAdd(Armed(w.dogs) + w.expirations + repeats,
            OneIfEnabled(mode) - OneIfEnabled(w.dogs[i].mode) + repeats' - repeats);
  }

  lemma ExpireKeepsDrift(w: Watch, i: nat, repeats: nat)
    requires Drifted(w, repeats) && i < |w.dogs| && w.dogs[i].mode == Enabled
    ensures Drifted(Expire(w, i), repeats) && Drifted(Recover(Expire(w, i), i), repeats)
  {
    var x := Expire(w, i);
    var d, d' := x.dogs[i], x.dogs[i].(mode := Triggered);
    ArmedUpdate(w.dogs, i, d);
    ArmedUpdate(x.dogs, i, d');
    WrapAdd(w.expirations + 1, Armed(w.dogs) - 1 + repeats);
  }

  lemma {:induction false} CheckKeepsDrift(w: Watch, i: nat, repeats: nat)
    requires Drifted(w, repeats) && i <= |w.dogs|
    ensures Drifted(CheckFrom(w, i), repeats)
    decreases |w.dogs| - i
  {
    if i < |w.dogs| {
      if !Due(w, i) {
        CheckKeepsDrift(w, i + 1, repeats);
      } else {
        ExpireKeepsDrift(w, i, repeats);
        if w.dogs[i].recovery != SystemReboot {
          CheckKeepsDrift(Recover(Expire(w, i), i), i + 1, repeats);
        }
      }
    }
  }

  lemma CreateKeepsDrift(w: Watch, agent: u32, timeout: u64, recovery: Recovery, repeats: nat)
    requires Drifted(w, repeats)
    ensures Drifted(Create(w, agent, timeout, recovery), repeats)
  {
    var r := Create(w, agent, timeout, recovery);
    if |w.dogs| < WATCHDOG_MAX {
      assert r.dogs[..|w.dogs|] == w.dogs;
    }
  }

  lemma EnableDrifts(w: Watch, i: u32, repeats: nat)
    requires Drifted(w, repeats) && !w.halted
    ensures Drifted(Enable(w, i), repeats + if IsRepeat(w, EnableOp(i)) then 1 else 0)
  {
    if i < |w.dogs| {
      ArmKeepsDrift(w, i, Enabled, w.ticks, repeats, repeats + OneIfEnabled(w.dogs[i].mode), Wrap32(w.active + 1));
    }
  }

  lemma DisableKeepsDrift(w: Watch, i: u32, repeats: nat)
    requires Drifted(w, repeats)
    ensures Drifted(Disable(w, i), repeats)
  {
    if i < |w.dogs| && w.dogs[i].mode == Enabled {
      ArmKeepsDrift(w, i, Disabled, w.dogs[i].lastKick, repeats, repeats, Wrap32(w.active - 1));
    }
  }

  lemma DeleteKeepsDrift(w: Watch, i: u32, repeats: nat)
    requires Drifted(w, repeats)
    ensures Drifted(Delete(w, i), repeats)
  {
    WrapSmall(w.active);
    if i < |w.dogs| {
      ArmKeepsDrift(w, i, Disabled, w.dogs[i].lastKick, repeats, repeats, Delete(w, i).active);
    }
  }

  lemma KickKeepsDrift(w: Watch, i: u32, repeats: nat)
    requires Drifted(w, repeats) && Counts(w) && !w.halted
    ensures Drifted(Kick(w, i), repeats)
  {
    WrapSmall(w.active);
    if i < |w.dogs| {
      NotStuck(w.dogs, i);
      ArmKeepsDrift(w, i, w.dogs[i].mode, w.ticks, repeats, repeats, w.active);
    }
  }

  lemma StepDrifts(w: Watch, op: Op, repeats: nat)
    requires Drifted(w, repeats) && Counts(w)
    ensures Drifted(Step(w, op), repeats + if IsRepeat(w, op) then 1 else 0)
  {
    if !w.halted {
      match op
      case CreateOp(agent, timeout, recovery) => CreateKeepsDrift(w, agent, timeout, recovery, repeats);
      case EnableOp(i) => EnableDrifts(w, i, repeats);
      case DisableOp(i) => DisableKeepsDrift(w, i, repeats);
      case DeleteOp(i) => DeleteKeepsDrift(w, i, repeats);
      case KickOp(i) => KickKeepsDrift(w, i, repeats);
      case CheckOp => CheckKeepsDrift(w, 0, repeats);
      case ClockOp =>
    }
  }

  lemma {:induction false} RunDrifts(ops: seq<Op>)
    ensures Drifted(Run(INITIAL, ops), Repeats(INITIAL, ops))
    decreases |ops|
  {
    if ops != [] {
      var n := |ops| - 1;
      RunDrifts(ops[..n]);
      RunKeepsCounts(INITIAL, ops[..n]);
      StepDrifts(Run(INITIAL, ops[..n]), ops[n], Repeats(INITIAL, ops[..n]));
    }
  }

  lemma ActiveIff(w: Watch, repeats: nat)
    requires Counts(w) && Drifted(w, repeats)
    ensures w.active == Armed(w.dogs) <==> Wrap32(w.expirations + repeats) == 0
  {
    ArmedAtMost(w.dogs);
    DriftIff(w.active, Armed(w.dogs), w.expirations + repeats);
  }

  lemma DriftIff(active: u32, a: nat, drift: nat)
    requires active == Wrap32(a + drift) && a <= WATCHDOG_MAX
    ensures active == a <==> Wrap32(drift) == 0
  {
    WrapAdd(drift, a);
    ModOnce(Wrap32(drift) + a, TWO_32);
  }

  /**
   After every run, the statistic of active watchdogs is the number of enabled ones if and only if the expiries and the
   repeated enablings so far make a multiple of 2^32 together, which is to say, in practice, that there were none.
   */
  lemma {:induction false} ActiveCountIff(ops: seq<Op>)
    ensures var w := Run(INITIAL, ops);
            w.active == Armed(w.dogs) <==> Wrap32(w.expirations + Repeats(INITIAL, ops)) == 0
  {
    var w, n := Run(INITIAL, ops), Repeats(INITIAL, ops);
    assert Counts(w) by {
      RunKeepsCounts(INITIAL, ops);
    }
    assert Drifted(w, n) by {
      RunDrifts(ops);
    }
    ActiveIff(w, n);
  }

  /** For example, one watchdog enabled twice counts as two. */
  lemma ActiveDriftExample(recovery: Recovery)
    ensures var w := Step(Step(Step(INITIAL, CreateOp(0, 0, recovery)), EnableOp(0)), EnableOp(0));
            w.active == 2 && Armed(w.dogs) == 1
  {
    var w1 := Step(INITIAL, CreateOp(0, 0, recovery));
    var w2 := Step(w1, EnableOp(0));
    var w3 := Step(w2, EnableOp(0));
    assert |w3.dogs| == 1 && w3.dogs[..0] == [];
  }

  // ---------------------------------------------------------------- timing

  /** The time since watchdog i was last kicked, after a run that starts g ticks after its last kick. */
  function Gap(g: u64, i: u32, ops: seq<Op>): u64
    decreases |ops|
  {
    if ops == [] then g
    else
      var before := Gap(g, i, ops[..|ops| - 1]);
      match ops[|ops| - 1]
      case KickOp(j) => if j == i then 0 else before
      case ClockOp => Wrap64(before + 1)
      case _ => before
  }

  /** Some scan of the run came when watchdog i had not been kicked for its whole timeout. */
  predicate Missed(g: u64, timeout: u64, i: u32, ops: seq<Op>) {
    exists k :: 0 <= k < |ops| && ops[k] == CheckOp && Gap(g, i, ops[..k]) >= timeout
  }

  /** The run neither enables, disables nor deletes watchdog i. */
  predicate LeavesArmed(i: u32, ops: seq<Op>) {
    forall k :: 0 <= k < |ops| ==> ops[k] != EnableOp(i) && ops[k] != DisableOp(i) && ops[k] != DeleteOp(i)
  }

  lemma MissedSnoc(g: u64, timeout: u64, i: u32, ops: seq<Op>, op: Op)
    ensures Missed(g, timeout, i, ops + [op]) <==>
            Missed(g, timeout, i, ops) || (op == CheckOp && Gap(g, i, ops) >= timeout)
  {
    var all, n := ops + [op], |ops|;
    assert all[..n] == ops;
    forall k | 0 <= k < n
      ensures all[k] == ops[k] && all[..k] == ops[..k]
    {
    }
    if op == CheckOp && Gap(g, i, ops) >= timeout {
      assert all[n] == CheckOp;
    }
  }

  /** What one step does to a watchdog that it does not enable, disable or delete. */
  lemma StepOnDog(w: Watch, i: u32, op: Op)
    requires i < |w.dogs| && w.dogs[i].mode in {Enabled, Triggered} && !Step(w, op).halted
    requires op != EnableOp(i) && op != DisableOp(i) && op != DeleteOp(i)
    ensures var r, d, fires := Step(w, op), w.dogs[i], op == CheckOp && Due(w, i);
            && !w.halted && |r.dogs| >= |w.dogs| && r.dogs[i].timeout == d.timeout
            && r.dogs[i].mode == (if fires then Triggered else d.mode)
            && r.dogs[i].expiries == (if fires then Wrap32(d.expiries + 1) else d.expiries)
            && (r.dogs[i].mode == Enabled ==>
                  Elapsed(r, i) ==
                  if op == KickOp(i) then 0
                  else if op == ClockOp then Wrap64(Elapsed(w, i) + 1)
                  else Elapsed(w, i))
  {
    match op
    case CheckOp =>
      CheckExact(w);
      CheckFromEach(w, 0);
    case ClockOp => ClockElapsed(w, i);
    case _ =>
  }

  /** The same as `Missed`, scan by scan. */
  predicate MissedSoFar(g: u64, timeout: u64, i: u32, ops: seq<Op>)
    decreases |ops|
  {
    ops != [] &&
    var before := ops[..|ops| - 1];
    MissedSoFar(g, timeout, i, before) || (ops[|ops| - 1] == CheckOp && Gap(g, i, before) >= timeout)
  }

  lemma {:induction false} MissedIsSoFar(g: u64, timeout: u64, i: u32, ops: seq<Op>)
    ensures MissedSoFar(g, timeout, i, ops) <==> Missed(g, timeout, i, ops)
    decreases |ops|
  {
    if ops != [] {
      var n := |ops| - 1;
      MissedIsSoFar(g, timeout, i, ops[..n]);
      MissedSnoc(g, timeout, i, ops[..n], ops[n]);
      assert ops[..n] + [ops[n]] == ops;
    }
  }

  /** The watchdog has fired once, or else been left alone but for its kicks. */
  predicate FiredIf(d: Dog, now: Dog, missed: bool) {
    && now.timeout == d.timeout
    && now.mode == (if missed then Triggered else Enabled)
    && now.expiries == (if missed then Wrap32(d.expiries + 1) else d.expiries)
  }

  lemma {:induction false} FiresSoFar(w: Watch, i: u32, ops: seq<Op>)
    requires i < |w.dogs| && w.dogs[i].mode == Enabled && !w.halted
    requires LeavesArmed(i, ops) && !Run(w, ops).halted
    ensures var r, missed := Run(w, ops), MissedSoFar(Elapsed(w, i), w.dogs[i].timeout, i, ops);
            && i < |r.dogs| && FiredIf(w.dogs[i], r.dogs[i], missed)
            && (!missed ==> Elapsed(r, i) == Gap(Elapsed(w, i), i, ops))
    decreases |ops|
  {
    if ops != [] {
      var n := |ops| - 1;
      assert LeavesArmed(i, ops[..n]);
      FiresSoFar(w, i, ops[..n]);
      StepOnDog(Run(w, ops[..n]), i, ops[n]);
    }
  }

  /**
   The timing law, over every run of calls and clock ticks: an enabled watchdog fires if and only if some scan finds it
   unkicked for its whole timeout; it then fires exactly once, and no kick revives it.
   */
  lemma {:induction false} FiresIff(w: Watch, i: u32, ops: seq<Op>)
    requires i < |w.dogs| && w.dogs[i].mode == Enabled && !w.halted
    requires LeavesArmed(i, ops) && !Run(w, ops).halted
    ensures var r, missed := Run(w, ops), Missed(Elapsed(w, i), w.dogs[i].timeout, i, ops);
            && i < |r.dogs| && FiredIf(w.dogs[i], r.dogs[i], missed)
            && (!missed ==> Elapsed(r, i) == Gap(Elapsed(w, i), i, ops))
  {
    FiresSoFar(w, i, ops);
    MissedIsSoFar(Elapsed(w, i), w.dogs[i].timeout, i, ops);
  }

  lemma ClockElapsed(w: Watch, i: nat)
    requires i < |w.dogs|
    ensures var w' := w.(ticks := Wrap64(w.ticks + 1));
            Elapsed(w', i) == Wrap64(Elapsed(w, i) + 1)
  {
    var now: int, kick: int := w.ticks, w.dogs[i].lastKick;
    WrapAdd64(now + 1, -kick);
    WrapAdd64(now - kick, 1);
  }

  /** Kicked at gaps shorter than its timeout, a watchdog never expires. */
  lemma {:induction false} PunctualNeverExpires(w: Watch, i: u32, ops: seq<Op>)
    requires i < |w.dogs| && w.dogs[i].mode == Enabled && !w.halted
    requires LeavesArmed(i, ops) && !Run(w, ops).halted
    requires forall k :: 0 <= k <= |ops| ==> Gap(Elapsed(w, i), i, ops[..k]) < w.dogs[i].timeout
    ensures var r := Run(w, ops);
            i < |r.dogs| && r.dogs[i].mode == Enabled && r.dogs[i].expiries == w.dogs[i].expiries
  {
    FiresIff(w, i, ops);
  }

  /** A watchdog that is not enabled does not fire until it is enabled, whatever else happens. */
  lemma {:induction false} IdleUntilEnabled(w: Watch, i: u32, ops: seq<Op>)
    requires i < |w.dogs| && w.dogs[i].mode in {Disabled, Triggered}
    requires forall k :: 0 <= k < |ops| ==> ops[k] != EnableOp(i)
    ensures var r := Run(w, ops);
            i < |r.dogs| && r.dogs[i].mode in {Disabled, Triggered} && r.dogs[i].expiries == w.dogs[i].expiries
    decreases |ops|
  {
    if ops != [] {
      var n := |ops| - 1;
      IdleUntilEnabled(w, i, ops[..n]);
      if ops[n] == CheckOp && !Run(w, ops[..n]).halted {
        CheckLeavesIdle(Run(w, ops[..n]), 0, i);
      }
    }
  }

  lemma {:induction false} CheckLeavesIdle(w: Watch, i: nat, j: nat)
    requires i <= |w.dogs| && j < |w.dogs| && w.dogs[j].mode != Enabled
    ensures |CheckFrom(w, i).dogs| == |w.dogs| && CheckFrom(w, i).dogs[j] == w.dogs[j]
    decreases |w.dogs| - i
  {
    if i < |w.dogs| {
      if !Due(w, i) {
        CheckLeavesIdle(w, i + 1, j);
      } else if w.dogs[i].recovery != SystemReboot {
        CheckLeavesIdle(Recover(Expire(w, i), i), i + 1, j);
      }
    }
  }

  // ---------------------------------------------------------------- the agents it stops

  function TerminateEach(s: Agents.Sched, ids: seq<u32>): (r: Agents.Sched)
    ensures |r.agents| == |s.agents|
    decreases |ids|
  {
    if ids == [] then s else TerminateEach(Agents.Terminate(s, ids[0]), ids[1..])
  }

  lemma TerminateFirst(s: Agents.Sched, a: u32, ids: seq<u32>)
    ensures TerminateEach(s, [a] + ids) == TerminateEach(Agents.Terminate(s, a), ids)
  {
    assert ([a] + ids)[1..] == ids;
  }

  lemma {:induction false} TerminateEachExact(s: Agents.Sched, ids: seq<u32>, a: nat)
    requires a < |s.agents|
    ensures var r := TerminateEach(s, ids);
            && |r.agents| == |s.agents| && r.current == s.current
            && r.agents[a] == if a in ids then s.agents[a].(state := AgentTypes.Terminated) else s.agents[a]
    decreases |ids|
  {
    if ids != [] {
      TerminateEachExact(Agents.Terminate(s, ids[0]), ids[1..], a);
      assert ids == [ids[0]] + ids[1..];
    }
  }

  /** The restarts of a scan that is not cut short are those of the due watchdogs. */
  lemma {:induction false} RestartsExact(w: Watch, i: nat, a: u32)
    requires i <= |w.dogs| && !RebootDue(w, i)
    ensures a in RestartsFrom(w, i) <==>
            exists j :: i <= j < |w.dogs| && Due(w, j) && w.dogs[j].recovery == RestartAgent && w.dogs[j].agent == a
    decreases |w.dogs| - i
  {
    if i < |w.dogs| {
      var v := if Due(w, i) then Recover(Expire(w, i), i) else w;
      assert forall j :: i < j < |w.dogs| ==> v.dogs[j] == w.dogs[j];
      assert !RebootDue(v, i + 1);
      RestartsExact(v, i + 1, a);
    }
  }

  /**
   An agent whose restart watchdog is due when the scan runs is TERMINATED by it and, unless it is the current agent,
   never becomes current again.
   */
  lemma {:induction false} OverdueAgentNeverRuns(w: Watch, s: Agents.Sched, j: nat, ops: seq<Agents.Op>)
    requires Agents.Ok(s) && !RebootDue(w, 0) && j < |w.dogs| && Due(w, j) && w.dogs[j].recovery == RestartAgent
    requires w.dogs[j].agent < |s.agents| && w.dogs[j].agent != s.current
    ensures var s', a := TerminateEach(s, RestartsFrom(w, 0)), w.dogs[j].agent;
            && Agents.Ok(s')
            && Agents.Run(s', ops).agents[a].state == AgentTypes.Terminated && Agents.Run(s', ops).current != a
  {
    var a := w.dogs[j].agent;
    RestartsExact(w, 0, a);
    TerminateEachExact(s, RestartsFrom(w, 0), a);
    Agents.TerminatedNeverRuns(TerminateEach(s, RestartsFrom(w, 0)), ops, a);
  }
}
