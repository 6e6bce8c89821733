/**
 What verification makes of the records of kernel/core/audit.c that an initialisation has cleared: their checksum is not
 computed again, so that of all records that differ in who wrote them, or when, at most one still passes.
 */
module AuditClearing {
  import opened Words
  import opened Bits
  import opened ShiftRegister
  import opened AuditCrc
  import opened RingLog
  import opened AuditTrail
  import opened AuditRuns

  /** What is left of a cleared record: who wrote it; no time, no strings; and the checksum of before. */
  lemma RemnantOf(r: Record, f: Fate)
    requires Shows(r, f) && f.wiped
    ensures Reading(r) == Account(0, f.entry.level, f.entry.agent, 0, [], [])
    ensures !f.ready ==> r.crc == ONES
  {
  }

  /** The record of a write that the initialisation follows, over whatever the slot held. */
  function Remnant(o: Record, e: Entry): Record {
    Cleared(Fill(false, o, e))
  }

  /** Two remnants that differ only inside seven adjacent bytes do not both pass. */
  lemma OneRemnantPasses(o: Record, e: Entry, o': Record, e': Entry,
                         pre: seq<byte>, w: seq<byte>, w': seq<byte>, post: seq<byte>)
    requires Memory(Remnant(o, e)) == pre + w + post && Memory(Remnant(o', e')) == pre + w' + post
    requires |w| == |w'| <= 7 && w != w'
    ensures !(Passes(true, Remnant(o, e)) && Passes(true, Remnant(o', e')))
  {
    if Passes(true, Remnant(o, e)) {
      TamperedRecordFails(Remnant(o, e), Remnant(o', e'), pre, w, w', post);
    }
  }

  /** The eight adjacent bytes that tell who wrote a record. */
  function Author(level: u32, agent: u32): (w: seq<byte>)
    ensures |w| == 8
  {
    Bytes(level, 4) + Bytes(agent, 4)
  }

  lemma AuthorInBody(r: Record)
    ensures Body(r) == Bytes(r.timestamp, 8) + Author(r.level, r.agent) + (Bytes(r.user, 4) + r.action + r.data)
  {
  }

  lemma AuthorDetermines(l: u32, a: u32, l': u32, a': u32)
    requires Author(l, a) == Author(l', a')
    ensures l == l' && a == a'
  {
    var w, w' := Author(l, a), Author(l', a');
    assert w[..4] == Bytes(l, 4) && w'[..4] == Bytes(l', 4);
    assert w[4..] == Bytes(a, 4) && w'[4..] == Bytes(a', 4);
    Pow2Values();
    BytesDetermine(l, l', 4);
    BytesDetermine(a, a', 4);
  }

  lemma SmallLevel(l: u32, a: u32)
    requires l < 256
    ensures Author(l, a)[1] == 0
  {
    assert Bytes(l, 4)[1] == l / 256 % 256;
  }

  lemma BitOfSecondByte(m: seq<byte>)
    requires |m| >= 2
    ensures |BitsOfMessage(m)| > 8 && BitsOfMessage(m)[8] == Odd(m[1])
  {
    assert BitsOfMessage(m) == BitsOf(m[0], 8) + BitsOfMessage(m[1..]);
    assert BitsOfMessage(m[1..]) == BitsOf(m[1], 8) + BitsOfMessage(m[2..]);
  }

  lemma PatternSecondByte(r: Poly, n: nat)
    requires n >= 2
    ensures PatternBytes(r, n)[1] == (2 * r.p + 1) / 256 % 256
  {
    var x := 2 * r.p + 1;
    assert PatternBytes(r, n) == [x % 256] + Bytes(x / 256, n - 1);
    assert Bytes(x / 256, n - 1) == [x / 256 % 256] + Bytes(x / 256 / 256, n - 2);
  }

  lemma P64SecondByte()
    ensures Odd((2 * P64.p + 1) / 256 % 256)
  {
    assert 2 * P64.p + 1 == 0x85E1_C3D7_53D4_6D27;
  }

  /** Two small levels never differ by a pattern that has a bit of the second byte. */
  lemma AuthorsDifferOtherwise(r: Poly, w: seq<byte>, l: u32, a: u32, w': seq<byte>, l': u32, a': u32)
    requires l < 256 && l' < 256 && w == Author(l, a) && w' == Author(l', a')
    requires Odd((2 * r.p + 1) / 256 % 256)
    ensures XorBits(BitsOfMessage(w), BitsOfMessage(w')) != BitsOfMessage(PatternBytes(r, |w|))
  {
    var p := PatternBytes(r, |w|);
    SmallLevel(l, a);
    SmallLevel(l', a');
    PatternSecondByte(r, |w|);
    BitOfSecondByte(w);
    BitOfSecondByte(w');
    BitOfSecondByte(p);
    assert !XorBits(BitsOfMessage(w), BitsOfMessage(w'))[8];
  }

  lemma AuthorsMissPattern(w: seq<byte>, l: u32, a: u32, w': seq<byte>, l': u32, a': u32)
    requires l < 256 && l' < 256 && w == Author(l, a) && w' == Author(l', a')
    ensures XorBits(BitsOfMessage(w), BitsOfMessage(w')) != BitsOfMessage(PatternBytes(P64, |w|))
  {
    P64SecondByte();
    AuthorsDifferOtherwise(P64, w, l, a, w', l', a');
  }

  /** Of two records that differ only in level and agent, at most one passes. */
  lemma OtherAuthorFails(s: Record, r: Record)
    requires Passes(true, s) && r == s.(level := r.level, agent := r.agent)
    requires s.level < 256 && r.level < 256 && r != s
    ensures !Passes(true, r)
  {
    var w, w' := Author(s.level, s.agent), Author(r.level, r.agent);
    AuthorInBody(s);
    AuthorInBody(r);
    EightBytesPassIff(s, r, Bytes(s.timestamp, 8), w, w', Bytes(s.user, 4) + s.action + s.data);
    AuthorsMissPattern(w, s.level, s.agent, w', r.level, r.agent);
    if w == w' {
      AuthorDetermines(s.level, s.agent, r.level, r.agent);
    }
  }

  /** Of all levels and agents, with everything else the same, at most one pair leaves a remnant that passes. */
  lemma OneAuthorPasses(o: Record, e: Entry, l: u32, a: u32)
    requires e.level < 256 && l < 256 && (l != e.level || a != e.agent)
    ensures !(Passes(true, Remnant(o, e)) && Passes(true, Remnant(o, e.(level := l, agent := a))))
  {
    var s, r := Remnant(o, e), Remnant(o, e.(level := l, agent := a));
    if Passes(true, s) {
      OtherAuthorFails(s, r);
    }
  }

  // ---------------------------------------------------------------- initialised again

  /** Two words below 2^n never differ by one that has bit n. */
  lemma SmallWordsDifferOtherwise(x: nat, y: nat, p: nat, n: nat)
    requires x < Pow2(n) && y < Pow2(n) <= p < Pow2(n + 1)
    ensures XorBits(BitsOf(x, n + 1), BitsOf(y, n + 1)) != BitsOf(p, n + 1)
  {
    BitsOfXor(x, y, n + 1);
    XorBound(x, y, n);
    ShiftBound(Xor(x, y), n + 1);
    ShiftBound(p, n + 1);
    if BitsOf(Xor(x, y), n + 1) == BitsOf(p, n + 1) {
      BitsDetermine(Xor(x, y), p, n + 1);
    }
  }

  lemma SmallWordsMissPattern(r: Poly, w: seq<byte>, x: u64, w': seq<byte>, x': u64, k: nat, n: nat)
    requires x < Pow2(n) && x' < Pow2(n) <= 2 * r.p + 1 < Pow2(n + 1)
    requires 8 * k == n + 1 && w == Bytes(x, k) && w' == Bytes(x', k)
    ensures XorBits(BitsOfMessage(w), BitsOfMessage(w')) != BitsOfMessage(PatternBytes(r, k))
  {
    BitsOfBytes(x, k);
    BitsOfBytes(x', k);
    BitsOfBytes(2 * r.p + 1, k);
    SmallWordsDifferOtherwise(x, x', 2 * r.p + 1, n);
  }

  /** The pattern is as long as a word of n + 1 bits. */
  predicate TopBit(n: nat) {
    Pow2(n) <= 2 * P64.p + 1 < Pow2(n + 1)
  }

  lemma TopBitIs63()
    ensures TopBit(63) && Pow2(63) == 0x8000_0000_0000_0000
  {
    Pow2Values();
  }

  lemma TimesDiffer(t: u64, t': u64, w: seq<byte>, w': seq<byte>, n: nat)
    requires TopBit(n) && t < Pow2(n) && t' < Pow2(n) && t != t'
    requires w == Bytes(t, |w|) && w' == Bytes(t', |w|) && 8 * |w| == n + 1
    ensures w != w'
    ensures XorBits(BitsOfMessage(w), BitsOfMessage(w')) != BitsOfMessage(PatternBytes(P64, |w|))
  {
    SmallWordsMissPattern(P64, w, t, w', t', |w|, n);
    if w == w' {
      BytesDetermine(t, t', |w|);
    }
  }

  lemma OtherTimeOtherCrc(t: u64, t': u64, pre: seq<byte>, w: seq<byte>, w': seq<byte>, post: seq<byte>)
    requires t < 0x8000_0000_0000_0000 && t' < 0x8000_0000_0000_0000 && t != t'
    requires |w| == 8 && w == Bytes(t, |w|) && w' == Bytes(t', |w|)
    ensures Crc(pre + w + post) != Crc(pre + w' + post)
  {
    TopBitIs63();
    TimesDiffer(t, t', w, w', 63);
    EightBytesMissedIff(pre, w, w', post);
  }

  /** The bytes of a body behind the time. */
  function Rest(r: Record): seq<byte> {
    Bytes(r.level, 4) + Bytes(r.agent, 4) + Bytes(r.user, 4) + r.action + r.data
  }

  lemma TimeInBody(r: Record)
    ensures Body(r) == [] + Bytes(r.timestamp, 8) + Rest(r)
  {
  }

  /**
   An initialisation with the table filled clears the time of a record that had a correct checksum: of all times below
   2^63, with everything else the same, at most one leaves a record that still passes.
   */
  lemma OneTimePasses(o: Record, e: Entry, time: u64)
    requires e.ticks < 0x8000_0000_0000_0000 && time < 0x8000_0000_0000_0000 && time != e.ticks
    ensures !(Passes(true, Cleared(Fill(true, o, e))) && Passes(true, Cleared(Fill(true, o, e.(ticks := time)))))
  {
    var e' := e.(ticks := time);
    var s, r := Fill(true, o, e), Fill(true, o, e');
    FillTells(true, o, e);
    FillTells(true, o, e');
    TimeInBody(s);
    TimeInBody(r);
    assert Rest(s) == Rest(r);
    assert Body(Cleared(s)) == Body(Cleared(r));
    OtherTimeOtherCrc(e.ticks, time, [], Bytes(e.ticks, 8), Bytes(time, 8), Rest(s));
  }

  // ---------------------------------------------------------------- what the kernel would see

  /** The record that a write and an initialisation leave behind in the state t. */
  function AfterInit(t: Trail, e: Entry): Record
    requires RingOk(t.ring)
  {
    Run(t, [WriteCall(e), InitCall]).ring.slots[LastSlot(Advance(t.ring))]
  }

  lemma AfterInitIsRemnant(t: Trail, e: Entry)
    requires RingOk(t.ring) && !t.ready
    ensures AfterInit(t, e) == Remnant(Overwritten(t.ring), e)
  {
    assert [WriteCall(e), InitCall][..1] == [WriteCall(e)];
    assert Run(t, [WriteCall(e)]) == Perform(t, WriteCall(e));
  }

  /**
   Initialising too late fails the verification: in every state with the table not filled, the initialisation that
   follows a write leaves a record that passes for at most one level and agent, ...
   */
  lemma LateInitFails(t: Trail, e: Entry, l: u32, a: u32)
    requires RingOk(t.ring) && !t.ready
    requires e.level < 256 && l < 256 && (l != e.level || a != e.agent)
    ensures !(Passes(true, AfterInit(t, e)) && Passes(true, AfterInit(t, e.(level := l, agent := a))))
  {
    AfterInitIsRemnant(t, e);
    AfterInitIsRemnant(t, e.(level := l, agent := a));
    OneAuthorPasses(Overwritten(t.ring), e, l, a);
  }

  /** ... so that in each such state one of the agents 0 and 1 can write what then fails. */
  lemma LateInitExample(t: Trail) returns (e: Entry)
    requires RingOk(t.ring) && !t.ready
    ensures e.level == 0 && e.agent < 2 && e.action == [] && e.data == None
    ensures !Passes(true, AfterInit(t, e))
  {
    e := Entry(0, 0, 0, [], None);
    LateInitFails(t, e, 0, 1);
    if Passes(true, AfterInit(t, e)) {
      e := e.(agent := 1);
    }
  }
}
