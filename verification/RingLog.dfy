/** A ring of 4096 slots written in turn, as in kernel/core/audit.c, whatever the slots contain. */
module RingLog {
  const SLOTS := 4096

  datatype Ring<T> = Ring(slots: seq<T>, count: nat, head: nat)

  predicate RingOk<T>(g: Ring<T>) {
    |g.slots| == SLOTS && g.count <= SLOTS && g.head < SLOTS
  }

  /** k mod 4096. */
  function SlotOf(k: nat): (i: nat)
    ensures i < SLOTS
  {
    if k < SLOTS then k else SlotOf(k - SLOTS)
  }

  lemma {:induction false} SlotOfIsMod(k: nat)
    ensures SlotOf(k) == k % SLOTS
  {
    if k >= SLOTS {
      SlotOfIsMod(k - SLOTS);
    }
  }

  /** Makes room for a write: once the ring is full, the head moves on. */
  function Advance<T>(g: Ring<T>): (g': Ring<T>)
    requires RingOk(g)
    ensures RingOk(g') && g'.count > 0 && g'.slots == g.slots
  {
    if g.count >= SLOTS then g.(head := SlotOf(g.head + 1)) else g.(count := g.count + 1)
  }

  /** The last slot in order behind the head. */
  function LastSlot<T>(g: Ring<T>): (i: nat)
    requires RingOk(g) && g.count > 0
    ensures i < SLOTS
  {
    SlotOf(g.head + g.count - 1)
  }

  function Write<T>(g: Ring<T>, y: T): (g': Ring<T>)
    requires RingOk(g)
    ensures RingOk(g')
  {
    var a := Advance(g);
    a.(slots := a.slots[LastSlot(a) := y])
  }

  function Writes<T>(g: Ring<T>, ys: seq<T>): (g': Ring<T>)
    requires RingOk(g)
    ensures RingOk(g')
    decreases |ys|
  {
    if ys == [] then g else Write(Writes(g, ys[..|ys| - 1]), ys[|ys| - 1])
  }

  predicate Empty<T>(g: Ring<T>) {
    RingOk(g) && g.count == 0 && g.head == 0
  }

  /** Slot i behind the head. */
  function Nth<T>(g: Ring<T>, i: nat): T
    requires RingOk(g)
  {
    g.slots[SlotOf(g.head + i)]
  }

  /** How many of n writes are still in the ring. */
  function Kept(n: nat): nat {
    if n <= SLOTS then n else SLOTS
  }

  /**
   Slot k mod 4096 shows entry k of the list, in the given sense, for the last `count` of n entries; older ones have
   been overwritten.
   */
  ghost predicate KeepsLast<T, E>(g: Ring<T>, es: seq<E>, shows: (T, E) -> bool) {
    && RingOk(g) && g.count == Kept(|es|) && g.head == SlotOf(|es| - g.count)
    && forall k {:trigger es[k]} :: |es| - g.count <= k < |es| ==> shows(g.slots[SlotOf(k)], es[k])
  }

  lemma {:induction false} SlotOfSum(a: nat, b: nat)
    ensures SlotOf(SlotOf(a) + b) == SlotOf(a + b)
    decreases a
  {
    if a >= SLOTS {
      SlotOfSum(a - SLOTS, b);
    }
  }

  /** Different writes among the last 4096 are in different slots. */
  lemma {:induction false} OtherSlots(n: nat, k: nat)
    requires n - SLOTS < k < n
    ensures SlotOf(k) != SlotOf(n)
    decreases k
  {
    if k >= SLOTS {
      OtherSlots(n - SLOTS, k - SLOTS);
    }
  }

  lemma WriteAt<T>(g: Ring<T>, y: T, n: nat)
    requires RingOk(g) && g.count == Kept(n) && g.head == SlotOf(n - g.count)
    ensures Write(g, y) == Ring(g.slots[SlotOf(n) := y], Kept(n + 1), SlotOf(n + 1 - Kept(n + 1)))
  {
    SlotOfSum(n - g.count, 1);
    SlotOfSum(n + 1 - Kept(n + 1), Kept(n + 1) - 1);
  }

  /** A write of what shows e extends the list by e. */
  lemma WriteKeepsLast<T, E>(g: Ring<T>, es: seq<E>, shows: (T, E) -> bool, y: T, e: E)
    requires KeepsLast(g, es, shows) && shows(y, e)
    ensures KeepsLast(Write(g, y), es + [e], shows)
  {
    var n, g', es' := |es|, Write(g, y), es + [e];
    WriteAt(g, y, n);
    forall k | |es'| - g'.count <= k < |es'| ensures shows(g'.slots[SlotOf(k)], es'[k]) {
      if k < n {
        OtherSlots(n, k);
        assert es'[k] == es[k];
      }
    }
  }

  /** Of n writes, the one that is in slot i now. */
  lemma {:induction false} SlotHolder(n: nat, i: nat) returns (k: nat)
    requires i < Kept(n)
    ensures n - Kept(n) <= k < n && SlotOf(k) == i
    decreases n
  {
    if n <= SLOTS || i >= n - SLOTS {
      k := i;
    } else {
      k := SlotHolder(n - SLOTS, i);
      k := k + SLOTS;
    }
  }

  /**
   In order behind the head, the ring shows the last entries; each physical index below the count shows one of them.
   */
  lemma KeptSlots<T, E>(g: Ring<T>, es: seq<E>, shows: (T, E) -> bool, i: nat) returns (k: nat)
    requires KeepsLast(g, es, shows) && i < g.count
    ensures shows(Nth(g, i), es[|es| - Kept(|es|) + i])
    ensures |es| - Kept(|es|) <= k < |es| && shows(g.slots[i], es[k])
  {
    var first := |es| - Kept(|es|);
    SlotOfSum(first, i);
    assert shows(g.slots[SlotOf(first + i)], es[first + i]);
    k := SlotHolder(|es|, i);
    assert shows(g.slots[SlotOf(k)], es[k]);
  }

  ghost predicate Is<T>(x: T, y: T) {
    x == y
  }

  lemma {:induction false} WritesKeepLast<T>(g: Ring<T>, ys: seq<T>)
    requires Empty(g)
    ensures KeepsLast(Writes(g, ys), ys, Is)
    decreases |ys|
  {
    if ys != [] {
      var init, y := ys[..|ys| - 1], ys[|ys| - 1];
      WritesKeepLast(g, init);
      WriteKeepsLast(Writes(g, init), init, Is, y, y);
      assert init + [y] == ys;
    }
  }

  /**
   The ring refines a list of the last 4096 writes: after n writes, for each i below the count, slot
   (head + i) mod 4096 holds write n - count + i; and each physical index below the count holds one of these writes.
   */
  lemma RingRefinesList<T>(g: Ring<T>, ys: seq<T>, i: nat)
    requires Empty(g) && i < Kept(|ys|)
    ensures var r := Writes(g, ys);
            && r.count == Kept(|ys|)
            && Nth(r, i) == ys[|ys| - Kept(|ys|) + i]
            && r.slots[i] in ys[|ys| - Kept(|ys|)..]
  {
    WritesKeepLast(g, ys);
    var k := KeptSlots(Writes(g, ys), ys, Is, i);
    assert ys[|ys| - Kept(|ys|)..][k - (|ys| - Kept(|ys|))] == ys[k];
  }
}
