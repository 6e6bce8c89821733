/** The audit log of kernel/core/audit.c: static slots overwritten in turn, and the checksum with its table. */
module AuditLog {
  import opened Words
  import opened Bits
  import opened ShiftRegister
  import opened AuditCrc
  import opened RingLog
  import opened AuditTrail

  const BLANK := Record(0, 0, 0, 0, seq(AUDIT_ACTION_MAX, _ => 0), seq(AUDIT_DATA_MAX, _ => 0), 0)

  class Log {
    const slots: array<Record>
    const table: array<nat>
    var count: u32
    var head: u32
    var initialized: bool

    ghost predicate Valid()
      reads this, slots, table
    {
      && slots.Length == SLOTS && table.Length == 256
      && count <= SLOTS && head < SLOTS
      && (if initialized then TableReady(table[..]) else AllZero(table[..]))
    }

    ghost function View(): Trail
      reads this, slots
    {
      Trail(Ring(slots[..], count, head), initialized)
    }

    constructor ()
      ensures Valid() && !initialized && Empty(View().ring) && fresh(slots) && fresh(table)
    {
      slots := new Record[SLOTS](_ => BLANK);
      table := new nat[256](_ => 0);
      count, head, initialized := 0, 0, false;
      new;
      assert AllZero(table[..]);
    }

    /** Fills the table, once. */
    method Crc64Init()
      requires Valid()
      modifies this`initialized, table
      ensures Valid() && initialized
    {
      if initialized {
        return;
      }
      var i: u32 := 0;
      while i < 256
        invariant 0 <= i <= 256
        invariant forall k :: 0 <= k < i ==> table[k] == Steps(P64, k, 8)
      {
        table[i] := TableEntry(i);
        i := i + 1;
      }
      initialized := true;
    }

    /** The inner loop: eight conditional shifts of i. */
    method TableEntry(i: u32) returns (crc: nat)
      ensures crc == Steps(P64, i, 8)
    {
      crc := i;
      var j: nat := 0;
      while j < 8
        invariant 0 <= j <= 8
        invariant Steps(P64, crc, 8 - j) == Steps(P64, i, 8)
      {
        if crc % 2 == 1 {
          crc := Xor(crc / 2, 0x42F0_E1EB_A9EA_3693);
        } else {
          crc := crc / 2;
        }
        j := j + 1;
      }
    }

    /** The table-driven loop computes the same as stepping bit by bit, once the table is filled. */
    method Crc64(m: seq<byte>) returns (crc: nat)
      requires Valid()
      ensures initialized ==> crc == Crc(m)
      ensures !initialized && |m| >= 8 ==> crc == ONES
    {
      crc := 0xFFFF_FFFF_FFFF_FFFF;
      var i := 0;
      ghost var t := table[..];
      assert m[0..] == m;
      while i < |m|
        invariant 0 <= i <= |m|
        invariant TableAbsorb(t, crc, m[i..]) == TableAbsorb(t, ONES, m)
      {
        assert m[i..][1..] == m[i + 1..];
        var index := Xor(crc, m[i]) % 256;
        assert t[index] == table[index];
        crc := Xor(crc / 256, table[index]);
        i := i + 1;
      }
      TableCrcIs(t, m);
      crc := Xor(crc, 0xFFFF_FFFF_FFFF_FFFF);
    }

    /** Clears the time and the strings of all slots; counter, head and checksums stay. */
    method AuditInit()
      requires Valid()
      modifies this`initialized, slots, table
      ensures Valid() && View() == Perform(old(View()), InitCall)
    {
      Crc64Init();
      var i: u32 := 0;
      while i < SLOTS
        invariant 0 <= i <= SLOTS && Valid() && initialized
        invariant forall k :: i <= k < SLOTS ==> slots[k] == old(slots[k])
        invariant forall k :: 0 <= k < i ==> slots[k] == Cleared(old(slots[k]))
      {
        slots[i] := slots[i].(timestamp := 0, action := slots[i].action[0 := 0], data := slots[i].data[0 := 0]);
        i := i + 1;
      }
    }

    /**
     The copying loops: one byte after the other, up to the string's end or the last place but one, then the
     terminator.
     */
    method CopyInto(buffer: seq<byte>, s: seq<byte>) returns (r: seq<byte>)
      requires |buffer| > 0
      ensures r == CopyString(buffer, s)
    {
      r := buffer;
      var i: nat := 0;
      ghost var n := CLength(s, |buffer| - 1);
      CLengthIs(s, |buffer| - 1);
      while i < |buffer| - 1 && i < |s| && s[i] != 0
        invariant 0 <= i <= n && |r| == |buffer|
        invariant forall k :: 0 <= k < i ==> r[k] == s[k]
        invariant forall k :: i <= k < |buffer| ==> r[k] == buffer[k]
      {
        r := r[i := s[i]];
        i := i + 1;
      }
      assert i == n;
      r := r[i := 0];
    }

    /** Writes into the next slot, overwriting the oldest one when the ring is full. */
    method AuditWriteLog(ticks: u64, level: u32, agent: u32, action: seq<byte>, data: Option<seq<byte>>)
      requires Valid()
      modifies this`count, this`head, slots
      ensures Valid() && View() == Perform(old(View()), WriteCall(Entry(ticks, level, agent, action, data)))
    {
      ghost var g := View().ring;
      if count >= SLOTS {
        SlotOfIsMod(head + 1);
        head := (head + 1) % SLOTS;
      } else {
        count := count + 1;
      }
      SlotOfIsMod(head + count - 1);
      var index := (head + count - 1) % SLOTS;
      assert View().ring == Advance(g) && index == LastSlot(Advance(g));
      var record := MakeRecord(slots[index], ticks, level, agent, action, data);
      slots[index] := record;
    }

    method MakeRecord(r: Record, ticks: u64, level: u32, agent: u32, action: seq<byte>, data: Option<seq<byte>>)
      returns (r': Record)
      requires Valid()
      ensures r' == Fill(initialized, r, Entry(ticks, level, agent, action, data))
    {
      var a := CopyInto(r.action, action);
      var d := CopyInto(r.data, if data.Some? then data.value else []);
      r' := r.(timestamp := ticks, level := level, agent := agent, user := 0, action := a, data := d);
      var crc := Crc64(Body(r'));
      CrcFits(Body(r'));
      r' := r'.(crc := crc);
    }

    method AuditVerify(index: u32) returns (ok: bool)
      requires Valid()
      ensures ok == (index < count && Passes(initialized, View().ring.slots[index]))
    {
      if index >= count {
        return false;
      }
      var crc := Crc64(Body(slots[index]));
      ok := slots[index].crc == crc;
    }

    method AuditGet(index: u32) returns (r: Option<Record>)
      requires Valid()
      ensures r == if index < count then Some(View().ring.slots[index]) else None
    {
      r := if index >= count then None else Some(slots[index]);
    }

    /** The first `max` matching records, in the order of the slots. */
    method AuditSearch(level: u32, agent: u32, max: u32) returns (results: seq<Record>)
      requires Valid()
      ensures var all := Matching(View().ring.slots[..count], level, agent);
              results == if |all| <= max then all else all[..max]
    {
      results := [];
      var i: u32 := 0;
      while i < count && |results| < max
        invariant 0 <= i <= count && |results| <= max
        invariant results == Matching(slots[..i], level, agent)
      {
        assert slots[..i + 1][..i] == slots[..i];
        var matches := true;
        if level != ANY_LEVEL && slots[i].level != level {
          matches := false;
        }
        if agent != ANY_AGENT && slots[i].agent != agent {
          matches := false;
        }
        if matches {
          results := results + [slots[i]];
        }
        i := i + 1;
      }
      MatchingGrows(slots[..count], i, level, agent);
      assert slots[..count][..i] == slots[..i];
    }
  }

  lemma {:induction false} MatchingGrows(rs: seq<Record>, n: nat, level: u32, agent: u32)
    requires n <= |rs|
    ensures Matching(rs[..n], level, agent) <= Matching(rs, level, agent)
    decreases |rs| - n
  {
    if n < |rs| {
      assert rs[..n + 1][..n] == rs[..n];
      MatchingGrows(rs, n + 1, level, agent);
    } else {
      assert rs[..n] == rs;
    }
  }
}
