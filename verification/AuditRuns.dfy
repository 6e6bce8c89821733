/**
 What the audit trail of kernel/core/audit.c tells after any run of writes and initialisations, and which of its records
 pass verification. The kernel writes without ever initialising; a record written then carries a constant checksum.
 */
module AuditRuns {
  import opened Words
  import opened RingLog
  import opened AuditTrail

  /** What has become of a write: whether the table was filled then, and whether the record has been cleared since. */
  datatype Fate = Fate(entry: Entry, ready: bool, wiped: bool)

  function Wiped(fs: seq<Fate>): (r: seq<Fate>)
    ensures |r| == |fs|
  {
    seq(|fs|, i requires 0 <= i < |fs| => fs[i].(wiped := true))
  }

  /** The writes of a run, oldest first. */
  function Fates(ready: bool, calls: seq<Call>): seq<Fate>
    decreases |calls|
  {
    if calls == [] then []
    else
      var n := |calls| - 1;
      var before := Fates(ready, calls[..n]);
      match calls[n]
      case WriteCall(e) => before + [Fate(e, ready || InitCall in calls[..n], false)]
      case InitCall => Wiped(before)
  }

  lemma OneMoreCall(ready: bool, calls: seq<Call>, c: Call)
    ensures var fs := Fates(ready, calls);
            Fates(ready, calls + [c]) ==
            if c.WriteCall? then fs + [Fate(c.entry, ready || InitCall in calls, false)] else Wiped(fs)
  {
    assert (calls + [c])[..|calls|] == calls;
  }

  lemma LaterCall(ready: bool, calls: seq<Call>, c: Call, k: nat)
    requires k < |Fates(ready, calls)|
    ensures var f, fs' := Fates(ready, calls)[k], Fates(ready, calls + [c]);
            k < |fs'| && fs'[k] == if c.InitCall? then f.(wiped := true) else f
  {
    OneMoreCall(ready, calls, c);
  }

  /**
   The write that stands between two parts of a run: it is ready after an initialisation, and wiped by a later one.
   */
  lemma {:induction false} FateOfWrite(ready: bool, a: seq<Call>, e: Entry, b: seq<Call>)
    ensures var fs, k := Fates(ready, a + [WriteCall(e)] + b), |Fates(ready, a)|;
            k < |fs| && fs[k] == Fate(e, ready || InitCall in a, InitCall in b)
    decreases |b|
  {
    var calls, n := a + [WriteCall(e)], |b| - 1;
    if b == [] {
      assert calls + b == calls;
      OneMoreCall(ready, a, WriteCall(e));
    } else {
      var init, c := b[..n], b[n];
      FateOfWrite(ready, a, e, init);
      LaterCall(ready, calls + init, c, |Fates(ready, a)|);
      assert b == init + [c];
      assert calls + b == calls + init + [c];
    }
  }

  /** The record is the one written, or that one cleared. */
  ghost predicate Shows(r: Record, f: Fate) {
    exists o :: Tells(f.ready, o, f.entry) && r == if f.wiped then Cleared(o) else o
  }

  lemma {:induction false} TableStaysReady(t: Trail, calls: seq<Call>)
    requires RingOk(t.ring)
    ensures Run(t, calls).ready == (t.ready || InitCall in calls)
    decreases |calls|
  {
    if calls != [] {
      var n := |calls| - 1;
      TableStaysReady(t, calls[..n]);
      assert calls == calls[..n] + [calls[n]];
    }
  }

  lemma WriteShows(g: Ring<Record>, fs: seq<Fate>, ready: bool, e: Entry)
    requires KeepsLast(g, fs, Shows)
    ensures KeepsLast(Write(g, Fill(ready, Overwritten(g), e)), fs + [Fate(e, ready, false)], Shows)
  {
    FillTells(ready, Overwritten(g), e);
    WriteKeepsLast(g, fs, Shows, Fill(ready, Overwritten(g), e), Fate(e, ready, false));
  }

  lemma ClearedShows(r: Record, f: Fate)
    requires Shows(r, f)
    ensures Shows(Cleared(r), f.(wiped := true))
  {
    var o :| Tells(f.ready, o, f.entry) && r == if f.wiped then Cleared(o) else o;
    assert Cleared(r) == Cleared(o);
  }

  lemma ClearingShowsAt(g: Ring<Record>, fs: seq<Fate>, i: nat, k: nat)
    requires RingOk(g) && i < SLOTS && k < |fs| && Shows(g.slots[i], fs[k])
    ensures Shows(ClearAll(g).slots[i], Wiped(fs)[k])
  {
    ClearedShows(g.slots[i], fs[k]);
  }

  lemma ClearingShows(g: Ring<Record>, fs: seq<Fate>)
    requires KeepsLast(g, fs, Shows)
    ensures KeepsLast(ClearAll(g), Wiped(fs), Shows)
  {
    var g', fs' := ClearAll(g), Wiped(fs);
    forall k {:trigger fs'[k]} | |fs| - g.count <= k < |fs| ensures Shows(g'.slots[SlotOf(k)], fs'[k]) {
      ClearingShowsAt(g, fs, SlotOf(k), k);
    }
  }

  lemma {:induction false} RunKeepsLast(t: Trail, calls: seq<Call>)
    requires Empty(t.ring)
    ensures KeepsLast(Run(t, calls).ring, Fates(t.ready, calls), Shows)
    decreases |calls|
  {
    if calls != [] {
      var n := |calls| - 1;
      RunKeepsLast(t, calls[..n]);
      var r, fs := Run(t, calls[..n]), Fates(t.ready, calls[..n]);
      match calls[n]
      case WriteCall(e) =>
        TableStaysReady(t, calls[..n]);
        WriteShows(r.ring, fs, r.ready, e);
      case InitCall =>
        ClearingShows(r.ring, fs);
    }
  }

  /** Entry i, in order, shows fate n - count + i, and so does physical index i for fate k. */
  ghost predicate ShowsLast(g: Ring<Record>, fs: seq<Fate>, i: nat, k: nat)
    requires RingOk(g) && i < Kept(|fs|)
  {
    && g.count == Kept(|fs|) && Shows(Nth(g, i), fs[|fs| - Kept(|fs|) + i])
    && |fs| - Kept(|fs|) <= k < |fs| && Shows(g.slots[i], fs[k])
  }

  lemma KeptShow(g: Ring<Record>, fs: seq<Fate>, i: nat) returns (k: nat)
    requires KeepsLast(g, fs, Shows) && i < Kept(|fs|)
    ensures ShowsLast(g, fs, i, k)
  {
    k := KeptSlots(g, fs, Shows, i);
  }

  /**
   After every run of writes and initialisations: entry i of the trail, in order, shows write n - count + i, for the
   last 4096 writes, and so does each physical index below the count for one of them.
   */
  lemma {:induction false} RunShows(t: Trail, calls: seq<Call>, i: nat) returns (k: nat)
    requires Empty(t.ring) && i < Kept(|Fates(t.ready, calls)|)
    ensures ShowsLast(Run(t, calls).ring, Fates(t.ready, calls), i, k)
  {
    RunKeepsLast(t, calls);
    k := KeptShow(Run(t, calls).ring, Fates(t.ready, calls), i);
  }

  /** A write not wiped happened with the table as it is now. */
  lemma {:induction false} UnwipedReady(t: Trail, calls: seq<Call>, k: nat)
    requires RingOk(t.ring) && k < |Fates(t.ready, calls)| && !Fates(t.ready, calls)[k].wiped
    ensures Fates(t.ready, calls)[k].ready == Run(t, calls).ready
    decreases |calls|
  {
    var n := |calls| - 1;
    TableStaysReady(t, calls);
    TableStaysReady(t, calls[..n]);
    assert calls == calls[..n] + [calls[n]];
    if calls[n].WriteCall? && k < |Fates(t.ready, calls[..n])| {
      UnwipedReady(t, calls[..n], k);
    }
  }

  /** Unless fate n - count + i is wiped, entry i, in order, tells of it. */
  predicate TellsUnwiped(r: Trail, fs: seq<Fate>, i: nat)
    requires RingOk(r.ring) && i < Kept(|fs|)
  {
    var f := fs[|fs| - Kept(|fs|) + i];
    r.ring.count == Kept(|fs|) && (!f.wiped ==> Tells(r.ready, Nth(r.ring, i), f.entry))
  }

  lemma UnwipedShow(r: Trail, fs: seq<Fate>, i: nat)
    requires KeepsLast(r.ring, fs, Shows) && i < Kept(|fs|)
    requires var f := fs[|fs| - Kept(|fs|) + i]; !f.wiped ==> f.ready == r.ready
    ensures TellsUnwiped(r, fs, i)
  {
    var k := KeptShow(r.ring, fs, i);
  }

  /** In every run, what no initialisation has cleared reads as it was written and passes verification. */
  lemma {:induction false} UnwipedTells(t: Trail, calls: seq<Call>, i: nat)
    requires Empty(t.ring) && i < Kept(|Fates(t.ready, calls)|)
    ensures TellsUnwiped(Run(t, calls), Fates(t.ready, calls), i)
  {
    var fs := Fates(t.ready, calls);
    var k := |fs| - Kept(|fs|) + i;
    RunKeepsLast(t, calls);
    if !fs[k].wiped {
      UnwipedReady(t, calls, k);
    }
    UnwipedShow(Run(t, calls), fs, i);
  }

  // ---------------------------------------------------------------- writes only

  function WriteCalls(es: seq<Entry>): (calls: seq<Call>)
    ensures |calls| == |es|
  {
    seq(|es|, i requires 0 <= i < |es| => WriteCall(es[i]))
  }

  function Fresh(ready: bool, es: seq<Entry>): seq<Fate>
    decreases |es|
  {
    if es == [] then [] else Fresh(ready, es[..|es| - 1]) + [Fate(es[|es| - 1], ready, false)]
  }

  lemma {:induction false} FreshAt(ready: bool, es: seq<Entry>)
    ensures |Fresh(ready, es)| == |es|
    ensures forall k :: 0 <= k < |es| ==> Fresh(ready, es)[k] == Fate(es[k], ready, false)
    decreases |es|
  {
    if es != [] {
      FreshAt(ready, es[..|es| - 1]);
    }
  }

  lemma OneMoreWrite(ready: bool, before: seq<Call>, es: seq<Entry>, e: Entry)
    ensures Fates(ready, before + WriteCalls(es + [e])) ==
            Fates(ready, before + WriteCalls(es)) + [Fate(e, ready || InitCall in before, false)]
  {
    var calls := before + WriteCalls(es);
    assert before + WriteCalls(es + [e]) == calls + [WriteCall(e)];
    assert InitCall in calls <==> InitCall in before;
    OneMoreCall(ready, calls, WriteCall(e));
  }

  /** Writes at the end of a run are the last ones, and not wiped. */
  lemma {:induction false} FatesOfWrites(ready: bool, before: seq<Call>, es: seq<Entry>)
    ensures Fates(ready, before + WriteCalls(es)) == Fates(ready, before) + Fresh(ready || InitCall in before, es)
    decreases |es|
  {
    if es == [] {
      assert before + WriteCalls(es) == before;
    } else {
      var init, e := es[..|es| - 1], es[|es| - 1];
      FatesOfWrites(ready, before, init);
      OneMoreWrite(ready, before, init, e);
      assert init + [e] == es;
    }
  }

  /** These are fates of these entries, none of them wiped. */
  predicate Unwiped(ready: bool, fs: seq<Fate>, es: seq<Entry>) {
    |fs| == |es| && forall k :: 0 <= k < |es| ==> fs[k] == Fate(es[k], ready, false)
  }

  lemma OnlyWrites(ready: bool, es: seq<Entry>)
    ensures InitCall !in WriteCalls(es) && Unwiped(ready, Fates(ready, WriteCalls(es)), es)
  {
    FatesOfWrites(ready, [], es);
    FreshAt(ready, es);
    assert [] + WriteCalls(es) == WriteCalls(es);
  }

  /** Entry i of the trail, in order, tells of write n - count + i. */
  predicate TellsLast(r: Trail, es: seq<Entry>, i: nat)
    requires RingOk(r.ring) && i < Kept(|es|)
  {
    r.ring.count == Kept(|es|) && Tells(r.ready, Nth(r.ring, i), es[|es| - Kept(|es|) + i])
  }

  lemma UnwipedTell(r: Trail, fs: seq<Fate>, es: seq<Entry>, i: nat)
    requires KeepsLast(r.ring, fs, Shows) && Unwiped(r.ready, fs, es) && i < Kept(|es|)
    ensures TellsLast(r, es, i)
  {
    UnwipedShow(r, fs, i);
  }

  /**
   After every run of writes alone, whether the table is filled or not: entry i of the trail, in order, tells of write
   n - count + i, for the last 4096 writes.
   */
  lemma {:induction false} TrailTells(t: Trail, es: seq<Entry>, i: nat)
    requires Empty(t.ring) && i < Kept(|es|)
    ensures Run(t, WriteCalls(es)).ready == t.ready && TellsLast(Run(t, WriteCalls(es)), es, i)
  {
    OnlyWrites(t.ready, es);
    TableStaysReady(t, WriteCalls(es));
    RunKeepsLast(t, WriteCalls(es));
    UnwipedTell(Run(t, WriteCalls(es)), Fates(t.ready, WriteCalls(es)), es, i);
  }

  /** Strings without zero bytes that fit the buffers with their terminators. */
  predicate Fits(e: Entry) {
    && |e.action| < 64 && (forall i :: 0 <= i < |e.action| ==> e.action[i] != 0)
    && (e.data.Some? ==> |e.data.value| < 128 && forall i :: 0 <= i < |e.data.value| ==> e.data.value[i] != 0)
  }

  lemma FittingIsKept(e: Entry)
    requires Fits(e)
    ensures Expected(e) ==
            Account(e.ticks, e.level, e.agent, 0, e.action, match e.data case Some(d) => d case None => [])
  {
    CutIs(e.action, AUDIT_ACTION_MAX);
    CutIs(Text(e.data), AUDIT_DATA_MAX);
  }

  /** In particular, of the last 4096 writes, those whose strings fit read back word for word. */
  lemma {:induction false} TrailReads(t: Trail, es: seq<Entry>, i: nat)
    requires Empty(t.ring) && i < |es| && i < 4096
    ensures var g, n := Run(t, WriteCalls(es)).ring, |es|;
            var e := es[if n <= 4096 then i else n - 4096 + i];
            && g.count == (if n <= 4096 then n else 4096)
            && (Fits(e) ==>
                  Reading(Nth(g, i)) ==
                  Account(e.ticks, e.level, e.agent, 0, e.action, match e.data case Some(d) => d case None => []))
  {
    var e := es[if |es| <= 4096 then i else |es| - 4096 + i];
    TrailTells(t, es, i);
    if Fits(e) {
      FittingIsKept(e);
    }
  }

  /**
   Every physical index below the count passes verification, once the last 4096 writes have come after any last
   initialisation; in particular, in every run of writes alone.
   */
  lemma {:induction false} TrailVerifies(t: Trail, before: seq<Call>, es: seq<Entry>, i: nat)
    requires Empty(t.ring) && (before == [] || |es| >= SLOTS) && i < Kept(|es|)
    ensures var r := Run(t, before + WriteCalls(es));
            r.ring.count == Kept(|es|) && Passes(r.ready, r.ring.slots[i])
  {
    var calls := before + WriteCalls(es);
    FatesOfWrites(t.ready, before, es);
    FreshAt(t.ready || InitCall in before, es);
    RunKeepsLast(t, calls);
    var k := KeptShow(Run(t, calls).ring, Fates(t.ready, calls), i);
    UnwipedReady(t, calls, k);
  }

  /**
   What the verification is worth after every run of writes alone: with the table filled no change of a record inside
   seven adjacent bytes passes; without it, which is how the kernel runs, exactly those pass that leave the last eight
   bytes alone.
   */
  lemma {:induction false} TrailTampering(t: Trail, es: seq<Entry>, i: nat, r: Record,
                                          pre: seq<byte>, w: seq<byte>, w': seq<byte>, post: seq<byte>)
    requires Empty(t.ring) && i < Kept(|es|)
    ensures var s := Run(t, WriteCalls(es)).ring.slots[i];
            && (t.ready && Memory(s) == pre + w + post && Memory(r) == pre + w' + post
                && |w| == |w'| <= 7 && w != w' ==>
                  !Passes(true, r))
            && (!t.ready ==> (Passes(false, r) <==> Memory(r)[212..] == Memory(s)[212..]))
  {
    var s := Run(t, WriteCalls(es)).ring.slots[i];
    assert [] + WriteCalls(es) == WriteCalls(es);
    OnlyWrites(t.ready, es);
    TrailVerifies(t, [], es, i);
    TableStaysReady(t, WriteCalls(es));
    if !t.ready {
      UnreadyPassesIff(s, r);
    } else if Memory(s) == pre + w + post && Memory(r) == pre + w' + post && |w| == |w'| <= 7 && w != w' {
      TamperedRecordFails(s, r, pre, w, w', post);
    }
  }
}
