/** The audit trail of kernel/core/audit.c as a value: its records, and which of the writes they still tell of. */
module AuditTrail {
  import opened Words
  import opened Bits
  import opened ShiftRegister
  import opened AuditCrc
  import opened RingLog

  const AUDIT_ACTION_MAX := 64
  const AUDIT_DATA_MAX := 128

  datatype Option<T> = None | Some(value: T)

  type ActionBuffer = s: seq<byte> | |s| == AUDIT_ACTION_MAX witness seq(AUDIT_ACTION_MAX, _ => 0)
  type DataBuffer = s: seq<byte> | |s| == AUDIT_DATA_MAX witness seq(AUDIT_DATA_MAX, _ => 0)

  /** One slot of the ring; `action` and `data` are the fixed character buffers. */
  datatype Record = Record(timestamp: u64, level: u32, agent: u32, user: u32, action: ActionBuffer,
                           data: DataBuffer, crc: u64)

  /** The arguments of a write, and the time it happened. */
  datatype Entry = Entry(ticks: u64, level: u32, agent: u32, action: seq<byte>, data: Option<seq<byte>>)

  /** The 212 bytes in front of the checksum; the structure has no padding on the 32-bit target. */
  function Body(r: Record): seq<byte> {
    Bytes(r.timestamp, 8) + Bytes(r.level, 4) + Bytes(r.agent, 4) + Bytes(r.user, 4) + r.action + r.data
  }

  /** Length of a C string, at most `max`; the end of the sequence stands for its terminator. */
  function CLength(s: seq<byte>, max: nat): (n: nat)
    ensures n <= |s| && n <= max
  {
    if s == [] || max == 0 || s[0] == 0 then 0 else 1 + CLength(s[1..], max - 1)
  }

  /** It is the place of the first zero byte, if that comes before the end and the limit. */
  lemma {:induction false} CLengthIs(s: seq<byte>, max: nat)
    ensures var n := CLength(s, max);
            && (forall i :: 0 <= i < n ==> s[i] != 0)
            && (n < |s| && n < max ==> s[n] == 0)
  {
    if s != [] && max > 0 && s[0] != 0 {
      CLengthIs(s[1..], max - 1);
    }
  }

  /** The string that a buffer holds. */
  function Held(buffer: seq<byte>): seq<byte> {
    buffer[..CLength(buffer, |buffer|)]
  }

  /** A record as initialisation leaves it: time and strings cleared, the checksum as it was. */
  function Cleared(r: Record): Record {
    r.(timestamp := 0, action := r.action[0 := 0], data := r.data[0 := 0])
  }

  function ClearAll(g: Ring<Record>): (g': Ring<Record>)
    requires RingOk(g)
    ensures RingOk(g')
  {
    g.(slots := seq(|g.slots|, i requires 0 <= i < |g.slots| => Cleared(g.slots[i])))
  }

  /** What a buffer of `size` bytes can keep of a string. */
  function Cut(s: seq<byte>, size: nat): seq<byte>
    requires size > 0
  {
    s[..CLength(s, size - 1)]
  }

  /**
   A string is copied up to its end or the last place but one, and terminated; the rest of the buffer is as before.
   */
  function CopyString(buffer: seq<byte>, s: seq<byte>): (r: seq<byte>)
    requires |buffer| > 0
    ensures |r| == |buffer|
  {
    var n := CLength(s, |buffer| - 1);
    s[..n] + [0] + buffer[n + 1..]
  }

  function Text(data: Option<seq<byte>>): seq<byte> {
    if data.Some? then data.value else []
  }

  /** What the checksum loop returns for a record's body: a constant as long as its table is not filled. */
  function Checksum(ready: bool, m: seq<byte>): u64 {
    CrcFits(m);
    if ready then Crc(m) else ONES
  }

  function Fill(ready: bool, r: Record, e: Entry): Record {
    var r' := Record(e.ticks, e.level, e.agent, 0, CopyString(r.action, e.action),
                     CopyString(r.data, Text(e.data)), r.crc);
    r'.(crc := Checksum(ready, Body(r')))
  }

  /** The old contents of the slot that the next write goes to. */
  function Overwritten(g: Ring<Record>): Record
    requires RingOk(g)
  {
    g.slots[LastSlot(Advance(g))]
  }

  /** `audit_verify` below the count: the stored checksum is the one computed now. */
  predicate Passes(ready: bool, r: Record) {
    r.crc == Checksum(ready, Body(r))
  }

  /** The slots, and whether the table of the checksum is filled. */
  datatype Trail = Trail(ring: Ring<Record>, ready: bool)

  datatype Call = WriteCall(entry: Entry) | InitCall

  /**
   `audit_write` makes room and fills the last slot over its old contents; `audit_init` fills the table and clears.
   */
  function Perform(t: Trail, c: Call): (t': Trail)
    requires RingOk(t.ring)
    ensures RingOk(t'.ring)
  {
    match c
    case WriteCall(e) => t.(ring := Write(t.ring, Fill(t.ready, Overwritten(t.ring), e)))
    case InitCall => Trail(ClearAll(t.ring), true)
  }

  function Run(t: Trail, calls: seq<Call>): (t': Trail)
    requires RingOk(t.ring)
    ensures RingOk(t'.ring)
    decreases |calls|
  {
    if calls == [] then t else Perform(Run(t, calls[..|calls| - 1]), calls[|calls| - 1])
  }

  // ---------------------------------------------------------------- what a record tells

  /** Who did what, when and where, in readable form. */
  datatype Account = Account(timestamp: u64, level: u32, agent: u32, user: u32, action: seq<byte>, data: seq<byte>)

  function Reading(r: Record): Account {
    Account(r.timestamp, r.level, r.agent, r.user, Held(r.action), Held(r.data))
  }

  /** The strings are cut to the buffers; the user is always 0. */
  function Expected(e: Entry): Account {
    Account(e.ticks, e.level, e.agent, 0, Cut(e.action, AUDIT_ACTION_MAX), Cut(Text(e.data), AUDIT_DATA_MAX))
  }

  /** The record reads as the write it stems from, and passes verification. */
  predicate Tells(ready: bool, r: Record, e: Entry) {
    Reading(r) == Expected(e) && Passes(ready, r)
  }

  /** Reading a copied string back gives the string, cut to the buffer, whatever the buffer held before. */
  lemma CopyReadsBack(buffer: seq<byte>, s: seq<byte>)
    requires |buffer| > 0
    ensures Held(CopyString(buffer, s)) == Cut(s, |buffer|)
  {
    var n, r := CLength(s, |buffer| - 1), CopyString(buffer, s);
    var k := CLength(r, |r|);
    CLengthIs(s, |buffer| - 1);
    CLengthIs(r, |r|);
    assert r[n] == 0;
    assert forall i :: 0 <= i < n ==> r[i] == s[i] != 0;
    assert k == n;
    assert r[..n] == s[..n];
  }

  /**
   What a buffer keeps of a string: all of it, if that leaves room for the terminator, and as much as that otherwise.
   */
  lemma CutIs(s: seq<byte>, size: nat)
    requires size > 0 && forall i :: 0 <= i < |s| ==> s[i] != 0
    ensures Cut(s, size) == if |s| < size then s else s[..size - 1]
  {
    CLengthIs(s, size - 1);
  }

  /** A write leaves a record that tells of it, whatever the slot held before. */
  lemma FillTells(ready: bool, r: Record, e: Entry)
    ensures Tells(ready, Fill(ready, r, e), e)
  {
    CopyReadsBack(r.action, e.action);
    CopyReadsBack(r.data, Text(e.data));
    var x := Fill(ready, r, e);
    assert Body(x) == Body(x.(crc := r.crc));
  }

  // ---------------------------------------------------------------- tampering

  /** The 220 bytes of a record in memory. */
  function Memory(r: Record): seq<byte> {
    Raw(Body(r), r.crc)
  }

  /**
   A record with a correct checksum loses it whatever is changed inside at most seven adjacent bytes of its 220, the
   stored checksum included.
   */
  lemma TamperedRecordFails(s: Record, r: Record, pre: seq<byte>, w: seq<byte>, w': seq<byte>, post: seq<byte>)
    requires Passes(true, s)
    requires Memory(s) == pre + w + post && Memory(r) == pre + w' + post
    requires |w| == |w'| <= 7 && w != w'
    ensures !Passes(true, r)
  {
    TamperingShows(Body(s), s.crc, Body(r), r.crc, pre, w, w', post);
  }

  /** The same for at most 63 adjacent bits, wherever in a byte they begin and end. */
  lemma BurstFails(s: Record, r: Record, pre: seq<bool>, w: seq<bool>, w': seq<bool>, post: seq<bool>)
    requires Passes(true, s)
    requires BitsOfMessage(Memory(s)) == pre + w + post && BitsOfMessage(Memory(r)) == pre + w' + post
    requires |w| == |w'| <= 63 && w != w'
    ensures !Passes(true, r)
  {
    BurstShows(Body(s), s.crc, Body(r), r.crc, pre, w, w', post);
  }

  /**
   With the stored checksum left alone, a change of eight adjacent bytes passes exactly when its difference is the
   pattern of 2p + 1.
   */
  lemma EightBytesPassIff(s: Record, r: Record, pre: seq<byte>, w: seq<byte>, w': seq<byte>, post: seq<byte>)
    requires Passes(true, s) && r.crc == s.crc
    requires Body(s) == pre + w + post && Body(r) == pre + w' + post && |w| == |w'| == 8
    ensures Passes(true, r) <==>
            w == w' || XorBits(BitsOfMessage(w), BitsOfMessage(w')) == BitsOfMessage(PatternBytes(P64, |w|))
  {
    EightBytesMissedIff(pre, w, w', post);
  }

  /** As long as the table is not filled, an altered record passes exactly when its last eight bytes are untouched. */
  lemma UnreadyPassesIff(s: Record, r: Record)
    requires Passes(false, s)
    ensures Passes(false, r) <==> Memory(r)[212..] == Memory(s)[212..]
  {
    assert Memory(r)[212..] == Bytes(r.crc, 8) && Memory(s)[212..] == Bytes(s.crc, 8);
    Pow2Values();
    if Bytes(r.crc, 8) == Bytes(s.crc, 8) {
      BytesDetermine(r.crc, s.crc, 8);
    }
  }

  // ---------------------------------------------------------------- searching

  const ANY_LEVEL: u32 := 0xFF
  const ANY_AGENT: u32 := 0xFFFF_FFFF

  predicate Matches(r: Record, level: u32, agent: u32) {
    (level == ANY_LEVEL || r.level == level) && (agent == ANY_AGENT || r.agent == agent)
  }

  /** The matching records, in the order of the list. */
  function Matching(rs: seq<Record>, level: u32, agent: u32): seq<Record> {
    if rs == [] then []
    else
      var n := |rs| - 1;
      Matching(rs[..n], level, agent) + if Matches(rs[n], level, agent) then [rs[n]] else []
  }

  /** A record that a search for this level and agent should find: 0xFF and 0xFFFFFFFF stand for any. */
  predicate Wanted(r: Record, level: u32, agent: u32) {
    (level == 0xFF || r.level == level) && (agent == 0xFFFF_FFFF || r.agent == agent)
  }

  function WantedAt(rs: seq<Record>, level: u32, agent: u32): (wanted: seq<bool>)
    ensures |wanted| == |rs|
  {
    seq(|rs|, i requires 0 <= i < |rs| => Wanted(rs[i], level, agent))
  }

  /** The places of what is wanted, in order. */
  function Places(wanted: seq<bool>): seq<nat> {
    if wanted == [] then []
    else
      var n := |wanted| - 1;
      Places(wanted[..n]) + if wanted[n] then [n] else []
  }

  /** They are in order, each once, and they are all there are. */
  lemma {:induction false} PlacesExact(wanted: seq<bool>)
    ensures forall j, k :: 0 <= j < k < |Places(wanted)| ==> Places(wanted)[j] < Places(wanted)[k]
    ensures forall i :: i in Places(wanted) <==> 0 <= i < |wanted| && wanted[i]
    decreases |wanted|
  {
    if wanted != [] {
      var n := |wanted| - 1;
      var before := Places(wanted[..n]);
      PlacesExact(wanted[..n]);
      forall k | 0 <= k < |before| ensures before[k] < n && wanted[before[k]] {
        assert before[k] in before;
      }
      forall i | 0 <= i < |wanted| && wanted[i] ensures i in Places(wanted) {
        if i < n {
          assert wanted[..n][i] && i in before;
        } else {
          assert Places(wanted)[|before|] == n;
        }
      }
    }
  }

  /** A search finds exactly the wanted records, each once, in the order of the list. */
  lemma {:induction false} MatchingExact(rs: seq<Record>, level: u32, agent: u32)
    ensures var places, found := Places(WantedAt(rs, level, agent)), Matching(rs, level, agent);
            && |found| == |places|
            && forall k :: 0 <= k < |places| ==> places[k] < |rs| && found[k] == rs[places[k]]
    decreases |rs|
  {
    if rs != [] {
      var n := |rs| - 1;
      MatchingExact(rs[..n], level, agent);
      PlacesExact(WantedAt(rs[..n], level, agent));
      assert WantedAt(rs, level, agent)[..n] == WantedAt(rs[..n], level, agent);
    }
  }
}
