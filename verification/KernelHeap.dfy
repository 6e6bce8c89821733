/**
 The allocator of kernel/core/memory.c over its static byte array, which holds payloads and headers alike.
 Every method is proved against the state machine of module HeapRuns.
 */
module KernelHeap {
  import opened Words
  import opened Blocks
  import opened HeapRuns
  import opened HeapMemory

  /**
   No payload changes but that of the resized block, and the block behind `p'` begins with the bytes that the block
   behind `p` held before.
   */
  ghost predicate Moved(m: seq<byte>, bs: seq<Block>, p: nat, m': seq<byte>, bs': seq<Block>, p': nat) {
    && IsLive(bs, p) && IsLive(bs', p')
    && var b, b' := bs[IndexOf(bs, p)], bs'[IndexOf(bs', p')];
    && Keeps(m, m', Live(bs) - {b})
    && End(b) <= |m| && End(b') <= |m'| && b.size <= b'.size
    && Contents(m', b')[..b.size] == Contents(m, b)
  }

  /**
   From `m1` to `m2` only the payload behind `q` changes, and gets that behind `p` as a prefix; no payload changes
   after.
   */
  ghost predicate CopiedThenFreed(bs: seq<Block>, p: nat, q: nat, m1: seq<byte>, m2: seq<byte>, m3: seq<byte>) {
    && IsLive(bs, p) && IsLive(bs, q)
    && var b, taken := bs[IndexOf(bs, p)], bs[IndexOf(bs, q)];
    && Keeps(m1, m2, AllBlocks(bs) - {taken}) && Keeps(m2, m3, AllBlocks(bs))
    && End(b) <= |m1| && End(taken) <= |m2| && b.size <= taken.size
    && Contents(m2, taken)[..b.size] == Contents(m1, b)
  }

  /** The whole effect of moving: the new state, the pointer returned, and the memory. */
  ghost predicate Relocated(m: seq<byte>, s: HeapState, p: nat, n: u32, m': seq<byte>, s': HeapState, q: nat) {
    && Wf(s.blocks) && IsLive(s.blocks, p)
    && s' == RelocateStep(s, p, n).0 && q == RelocateStep(s, p, n).1 && q != p
    && (if q == NULL then Keeps(m, m', Live(s.blocks)) else Moved(m, s.blocks, p, m', s'.blocks, q))
  }

  /**
   What `krealloc` promises about the memory: unless it moves, it keeps every payload; and the old contents move along.
   */
  ghost predicate Resized(m: seq<byte>, bs: seq<Block>, p: nat, m': seq<byte>, bs': seq<Block>, p': nat) {
    && (p' == NULL || p' == p ==> Keeps(m, m', Live(bs)))
    && (p' != NULL ==> Moved(m, bs, p, m', bs', p'))
  }

  /** `krealloc` has found another block, behind `q`. */
  ghost predicate Grown(m: seq<byte>, s: HeapState, p: nat, n: u32, m': seq<byte>, s': HeapState, q: nat) {
    && Wf(s.blocks) && IsLive(s.blocks, p) && s.blocks[IndexOf(s.blocks, p)].size < n
    && CopyStays(s, p, n) && |m| == HEAP_SIZE
    && q != NULL && s' == MallocStep(s, n).0 && q == MallocStep(s, n).1
    && Keeps(m, m', Live(s.blocks))
  }

  lemma RelocateFails(s: HeapState, p: nat, n: u32, m: seq<byte>, m': seq<byte>)
    requires Wf(s.blocks) && IsLive(s.blocks, p) && MallocStep(s, n).1 == NULL
    requires Keeps(m, m', Live(s.blocks))
    ensures Relocated(m, s, p, n, m', s, NULL)
  {
  }

  lemma KeepsLive(m: seq<byte>, m': seq<byte>, bs: seq<Block>)
    requires Keeps(m, m', AllBlocks(bs))
    ensures Keeps(m, m', Live(bs))
  {
  }

  lemma BeforeMove(s: HeapState, p: nat, n: u32)
    requires Wf(s.blocks) && IsLive(s.blocks, p) && s.blocks[IndexOf(s.blocks, p)].size < n && CopyStays(s, p, n)
    ensures var (s', q) := MallocStep(s, n);
            p != NULL && (q == NULL ==> s' == s) && (q != NULL ==> Movable(s'.blocks, p, q))
  {
    if MallocStep(s, n).1 != NULL {
      var b, taken := MoveStep(s, p, n);
    }
  }

  /** The block behind p can be copied into the one behind q. */
  ghost predicate Movable(bs: seq<Block>, p: nat, q: nat) {
    && q != p && IsLive(bs, p) && IsLive(bs, q)
    && bs[IndexOf(bs, p)].size <= bs[IndexOf(bs, q)].size
  }

  lemma GrownIsMovable(m: seq<byte>, s: HeapState, p: nat, n: u32, m': seq<byte>, s': HeapState, q: nat)
    requires Grown(m, s, p, n, m', s', q)
    ensures Movable(s'.blocks, p, q)
  {
    BeforeMove(s, p, n);
  }

  lemma MoveKeepsOthers(s: HeapState, p: nat, n: u32, m0: seq<byte>, m1: seq<byte>, m2: seq<byte>, m3: seq<byte>)
    requires Wf(s.blocks) && IsLive(s.blocks, p) && CopyStays(s, p, n) && |m0| == HEAP_SIZE
    requires s.blocks[IndexOf(s.blocks, p)].size < n && MallocStep(s, n).1 != NULL
    requires Keeps(m0, m1, Live(s.blocks))
    requires CopiedThenFreed(MallocStep(s, n).0.blocks, p, MallocStep(s, n).1, m1, m2, m3)
    ensures Relocated(m0, s, p, n, m3, FreeStep(MallocStep(s, n).0, p), MallocStep(s, n).1)
  {
    var b, taken := MoveStep(s, p, n);
    var (s', q) := MallocStep(s, n);
    OthersStay(s', p, taken);
    assert taken in AllBlocks(s'.blocks);
    forall x | x in Live(s.blocks) ensures x in AllBlocks(s'.blocks) && x != taken {
      assert x in Live(s'.blocks);
    }
    assert b in Live(s.blocks);
    KeepsTwice(m0, m1, m2, Live(s.blocks));
    KeepsTwice(m0, m2, m3, Live(s.blocks));
  }

  /** Allocating, copying and releasing, seen as four successive memories. */
  lemma MoveKeeps(m0: seq<byte>, s: HeapState, p: nat, n: u32, m1: seq<byte>, s': HeapState, q: nat,
                  m2: seq<byte>, m3: seq<byte>, s'': HeapState)
    requires Grown(m0, s, p, n, m1, s', q) && CopiedThenFreed(s'.blocks, p, q, m1, m2, m3)
    requires IsLive(s'.blocks, p) && s'' == FreeStep(s', p)
    ensures Relocated(m0, s, p, n, m3, s'', q)
  {
    MoveKeepsOthers(s, p, n, m0, m1, m2, m3);
  }

  class Heap {
    const base: u32           // address of the static array
    const heap: array<byte>
    var heapStart: u32        // address of the first header; NULL before initialization
    var totalAllocated: u32
    var totalFreed: u32
    ghost var state: HeapState

    ghost predicate Storage() {
      heap.Length == HEAP_SIZE && 0 < base && base + HEAP_SIZE < TWO_32
    }

    ghost predicate Valid()
      reads this, heap
    {
      && Storage()
      && heapStart == base
      && Wf(state.blocks)
      && InBand(base, heap[..], state.blocks)
      && totalAllocated == Wrap32(state.granted)
      && totalFreed == Wrap32(state.returned)
    }

    function Addr(p: nat): int {
      if p == NULL then 0 else base + p
    }

    /** NULL, or the address of the payload of an allocated block. */
    ghost predicate Owned(ptr: u32)
      reads this
    {
      ptr == 0 || (ptr >= base && IsLive(state.blocks, ptr - base))
    }

    function Offset(ptr: u32): nat
      requires ptr == 0 || ptr >= base
    {
      if ptr == 0 then NULL else ptr - base
    }

    constructor (base: u32)
      requires 0 < base && base + HEAP_SIZE < TWO_32
      ensures this.base == base && Storage() && fresh(heap)
    {
      this.base := base;
      heap := new byte[HEAP_SIZE](_ => 0);
      heapStart, totalAllocated, totalFreed := 0, 0, 0;
      state := INITIAL;
    }

    method StoreWord(o: nat, v: u32)
      requires o + 4 <= heap.Length
      modifies heap
      ensures Word(heap[..], o) == v
      ensures ChangedWithin(old(heap[..]), heap[..], o, o + 4)
    {
      heap[o], heap[o + 1], heap[o + 2], heap[o + 3] :=
        v % 256, v / 256 % 256, v / 256 / 256 % 256, v / 256 / 256 / 256;
      LittleOfWord(heap[..], o, v);
    }

    method StoreFlag(o: nat, free: bool)
      requires o < heap.Length
      modifies heap
      ensures (heap[..][o] != 0) == free
      ensures ChangedWithin(old(heap[..]), heap[..], o, o + 1)
    {
      heap[o] := if free then 1 else 0;
    }

    /** The header at heap offset `o`. */
    method StoreHeader(o: nat, size: u32, free: bool, next: u32)
      requires o + HEADER <= heap.Length
      modifies heap
      ensures Header(heap[..], o, size, free, next)
      ensures ChangedWithin(old(heap[..]), heap[..], o, o + HEADER)
    {
      StoreWord(o, size);
      ghost var m := heap[..];
      StoreFlag(o + FREE_FIELD, free);
      ghost var m' := heap[..];
      StoreWord(o + NEXT_FIELD, next);
      WordKept(m, m', o, o + FREE_FIELD, o + FREE_FIELD + 1);
      WordKept(m', heap[..], o, o + NEXT_FIELD, o + HEADER);
    }

    method MemoryInit()
      requires Storage()
      modifies this, heap
      ensures Valid() && state == INITIAL
    {
      heapStart := base;
      StoreHeader(0, HEAP_SIZE - HEADER, true, 0);
      totalAllocated := 0;
      totalFreed := 0;
      state := INITIAL;
      InitialIsWf();
    }

    method Kmalloc(request: u32) returns (ptr: u32)
      requires Valid()
      modifies this, heap
      ensures Valid()
      ensures state == MallocStep(old(state), request).0 && ptr == Addr(MallocStep(old(state), request).1)
      ensures Keeps(old(heap[..]), heap[..], Live(old(state.blocks)))
    {
      if request == 0 {
        TilesBounds(state.blocks, 0, HEAP_SIZE);
        return 0;
      }
      var size: u32 := Wrap32(request + 15) / 16 * 16;
      ghost var bs := state.blocks;
      TilesBounds(bs, 0, HEAP_SIZE);
      var current := heapStart;
      ghost var k := 0;
      while current != 0
        invariant 0 <= k <= |bs|
        invariant current == if k < |bs| then base + bs[k].off else 0
        invariant forall j :: 0 <= j < k ==> !Fits(bs[j], size)
        invariant unchanged(this) && unchanged(heap)
        decreases |bs| - k
      {
        var at := current - base;
        assert HeaderAt(base, heap[..], bs, k);
        if heap[at + FREE_FIELD] != 0 && Word(heap[..], at) >= size {
          assert k == FirstFit(bs, size);
          ptr := Grant(current, request, size, k);
          return;
        }
        current := Word(heap[..], at + NEXT_FIELD);
        k := k + 1;
      }
      assert k == FirstFit(bs, size);
      return 0;
    }

    /** Lines 67 to 72: a free block behind the first `size` bytes gets the rest of the space and the old successor. */
    method Split(at: nat, size: u32, ghost have: u32, ghost next: u32)
      requires Storage() && size + HEADER <= have && at + HEADER + have <= HEAP_SIZE
      requires Header(heap[..], at, have, true, next)
      modifies heap
      ensures ChangedWithin(old(heap[..]), heap[..], at, at + HEADER + have)
      ensures Header(heap[..], at, size, false, base + (at + HEADER + size))
      ensures Header(heap[..], at + HEADER + size, have - size - HEADER, true, next)
    {
      var rest := at + HEADER + size;
      StoreHeader(rest, Word(heap[..], at) - size - HEADER, true, Word(heap[..], at + NEXT_FIELD));
      ghost var m := heap[..];
      StoreHeader(at, size, false, base + rest);
      HeaderKept(m, heap[..], rest, have - size - HEADER, true, next, at, at + HEADER);
    }

    method TakeWhole(at: nat, ghost size: u32, ghost next: u32)
      requires Header(heap[..], at, size, true, next)
      modifies heap
      ensures ChangedWithin(old(heap[..]), heap[..], at, at + HEADER)
      ensures Header(heap[..], at, size, false, next)
    {
      ghost var m := heap[..];
      StoreFlag(at + FREE_FIELD, false);
      WordKept(m, heap[..], at, at + FREE_FIELD, at + FREE_FIELD + 1);
      WordKept(m, heap[..], at + NEXT_FIELD, at + FREE_FIELD, at + FREE_FIELD + 1);
    }

    /** Line 66: whether a free block of the smallest size fits behind the first `size` bytes. */
    method LeavesRoom(at: nat, size: u32, ghost have: u32) returns (split: bool)
      requires size <= have <= HEAP_SIZE && at + HEADER <= heap.Length && Word(heap[..], at) == have
      ensures split <==> have >= size + HEADER + MIN_SPLIT
    {
      WrapSmall(size + HEADER);
      WrapSmall(size + HEADER + MIN_SPLIT);
      split := Word(heap[..], at) >= Wrap32(Wrap32(size + HEADER) + MIN_SPLIT);
    }

    /** Lines 65 to 76: the block at `at` is split if the rest is large enough, and taken. */
    method SplitAndTake(at: nat, size: u32, ghost b: Block, ghost next: u32)
      requires Storage() && at == b.off && Fits(b, size) && End(b) <= HEAP_SIZE
      requires Header(heap[..], at, b.size, true, next)
      modifies heap
      ensures ChangedWithin(old(heap[..]), heap[..], at, End(b))
      ensures CarvedHeaders(base, heap[..], Carve(b, size), next)
    {
      var split := LeavesRoom(at, size, b.size);
      if split {
        Split(at, size, b.size, next);
      } else {
        TakeWhole(at, b.size, next);
      }
    }

    /** The body of the search loop once the block at `current` is found to fit. */
    method Grant(current: u32, ghost request: u32, size: u32, ghost k: nat) returns (ptr: u32)
      requires Valid() && request != 0 && size == Round(request)
      requires k == FirstFit(state.blocks, size) < |state.blocks| && current == base + state.blocks[k].off
      modifies this, heap
      ensures Valid()
      ensures state == MallocStep(old(state), request).0 && ptr == Addr(MallocStep(old(state), request).1)
      ensures Keeps(old(heap[..]), heap[..], Live(old(state.blocks)))
    {
      ghost var after := MallocStep(state, request).0;
      GrantStep(state, request, k);
      WrapAdd(state.granted, size);
      TakeBlock(current - base, size, state.blocks, k);
      totalAllocated := Wrap32(totalAllocated + size);
      state := after;
      ptr := current + HEADER;
    }

    method TakeBlock(at: nat, size: u32, ghost bs: seq<Block>, ghost k: nat)
      requires Storage() && Tiles(bs, 0, HEAP_SIZE) && InBand(base, heap[..], bs)
      requires k < |bs| && at == bs[k].off && Fits(bs[k], size)
      modifies heap
      ensures InBand(base, heap[..], AllocAt(bs, k, size))
      ensures Keeps(old(heap[..]), heap[..], Live(bs))
    {
      ghost var m := heap[..];
      assert HeaderAt(base, m, bs, k);
      SplitAndTake(at, size, bs[k], NextAddr(base, bs, k));
      ChainAfterCarve(base, m, bs, k, size, heap[..]);
    }

    method Kfree(ptr: u32)
      requires Valid() && Owned(ptr)
      modifies this, heap
      ensures Valid()
      ensures state == FreeStep(old(state), Offset(ptr))
      ensures Keeps(old(heap[..]), heap[..], AllBlocks(old(state.blocks)))
    {
      ghost var k := if ptr == 0 then 0 else IndexOf(state.blocks, ptr - base);
      if ptr == 0 {
        TilesBounds(state.blocks, 0, HEAP_SIZE);
        return;
      }
      ghost var after := FreeStep(state, ptr - base);
      ReleaseStep(state, ptr - base);
      WrapAdd(state.returned, state.blocks[k].size);
      var size := Release(ptr - base - HEADER, state.blocks, k);
      totalFreed := Wrap32(totalFreed + size);
      state := after;
    }

    /** What `kfree` does to the memory: it marks the block free and merges free neighbours. */
    method Release(at: nat, ghost bs: seq<Block>, ghost k: nat) returns (size: u32)
      requires Storage() && heapStart == base && Tiles(bs, 0, HEAP_SIZE) && InBand(base, heap[..], bs)
      requires k < |bs| && at == bs[k].off
      modifies heap
      ensures InBand(base, heap[..], FreeAt(bs, k))
      ensures Keeps(old(heap[..]), heap[..], AllBlocks(bs))
      ensures size == bs[k].size
    {
      ghost var m := heap[..];
      assert HeaderAt(base, m, bs, k);
      TilingIsClear(bs, k);
      MarkFreeCorrect(bs, k);
      StoreFlag(at + FREE_FIELD, true);
      ghost var m' := heap[..];
      HeadersAfterFlag(base, m, bs, k, m');
      WordKept(m, m', at, at + FREE_FIELD, at + FREE_FIELD + 1);
      size := Word(heap[..], at);
      HeaderWriteKeeps(m, m', bs, k, AllBlocks(bs));
      MergeFreeBlocks(MarkFree(bs, k), AllBlocks(bs));
      KeepsTwice(m, m', heap[..], AllBlocks(bs));
    }

    /** The pass over the whole list at the end of `kfree`. It writes into headers only. */
    method MergeFreeBlocks(ghost start: seq<Block>, ghost s: set<Block>)
      requires Storage() && heapStart == base
      requires start != [] && Tiles(start, 0, HEAP_SIZE) && InBand(base, heap[..], start)
      requires HeadersClear(start, s) && forall b :: b in s ==> End(b) <= HEAP_SIZE
      modifies heap
      ensures InBand(base, heap[..], Coalesce(start))
      ensures Keeps(old(heap[..]), heap[..], s)
    {
      ghost var bs: seq<Block>, k: nat := start, 0;
      var current: u32 := heapStart;
      assert bs[..0] + Coalesce(bs[0..]) == Coalesce(start);
      PassReads(base, heap[..], bs, k, start, s);
      while current != 0 && Word(heap[..], current - base + NEXT_FIELD) != 0
        invariant Pass(base, heap[..], bs, k, start, s)
        invariant Header(heap[..], bs[k].off, bs[k].size, bs[k].free, NextAddr(base, bs, k))
        invariant current == base + bs[k].off
        invariant Keeps(old(heap[..]), heap[..], s)
        decreases |bs| - k
      {
        ghost var m := heap[..];
        current, bs, k := PassStep(current, bs, k, start, s);
        KeepsTwice(old(heap[..]), m, heap[..], s);
        PassReads(base, heap[..], bs, k, start, s);
      }
      PassReads(base, heap[..], bs, k, start, s);
    }

    /** The loop body: merge in place, or move on to the next header. */
    method PassStep(current: u32, ghost bs: seq<Block>, ghost k: nat, ghost start: seq<Block>, ghost s: set<Block>)
      returns (current': u32, ghost bs': seq<Block>, ghost k': nat)
      requires Storage() && Pass(base, heap[..], bs, k, start, s) && k + 1 < |bs|
      requires forall b :: b in s ==> End(b) <= HEAP_SIZE
      requires current == base + bs[k].off
      modifies heap
      ensures Pass(base, heap[..], bs', k', start, s) && |bs'| - k' < |bs| - k
      ensures current' == base + bs'[k'].off && Keeps(old(heap[..]), heap[..], s)
    {
      ghost var m := heap[..];
      PassReads(base, m, bs, k, start, s);
      var here, there := current - base, Word(heap[..], current - base + NEXT_FIELD) - base;
      if heap[here + FREE_FIELD] != 0 && heap[there + FREE_FIELD] != 0 {
        MergeHeaders(here, there, bs[k].size, bs[k + 1].size, NextAddr(base, bs, k + 1));
        PassMerges(base, m, bs, k, start, s, heap[..]);
        current', bs', k' := current, MergeAt(bs, k), k;
      } else {
        PassSkips(base, m, bs, k, start, s);
        current', bs', k' := Word(heap[..], here + NEXT_FIELD), bs, k + 1;
      }
    }

    /** Lines 102 and 103: the header at `here` takes over the space and the successor of its neighbour. */
    method MergeHeaders(here: nat, there: nat, ghost size: nat, ghost size': nat, ghost next: nat)
      requires here + HEADER <= there && size + HEADER + size' < HEAP_SIZE
      requires Header(heap[..], here, size, true, base + there) && Header(heap[..], there, size', true, next)
      modifies heap
      ensures Header(heap[..], here, size + HEADER + size', true, next)
      ensures ChangedWithin(old(heap[..]), heap[..], here, here + HEADER)
    {
      ghost var m := heap[..];
      WrapSmall(size + HEADER + size');
      StoreWord(here, Wrap32(Word(heap[..], here) + (HEADER + Word(heap[..], there))));
      ghost var m' := heap[..];
      WordKept(m, m', there + NEXT_FIELD, here, here + 4);
      StoreWord(here + NEXT_FIELD, Word(heap[..], there + NEXT_FIELD));
      WordKept(m', heap[..], here, here + NEXT_FIELD, here + HEADER);
    }

    /** The zeroing loop of `kcalloc`. */
    method ZeroFill(from: nat, count: u32)
      requires from + count <= heap.Length
      modifies heap
      ensures ChangedWithin(old(heap[..]), heap[..], from, from + count)
      ensures forall j :: from <= j < from + count ==> heap[j] == 0
    {
      var i := 0;
      while i < count
        invariant 0 <= i <= count
        invariant ChangedWithin(old(heap[..]), heap[..], from, from + count)
        invariant forall j :: from <= j < from + i ==> heap[j] == 0
      {
        heap[from + i] := 0;
        i := i + 1;
      }
    }

    method ZeroPayload(from: nat, count: u32, ghost bs: seq<Block>, ghost k: nat)
      requires Storage() && Tiles(bs, 0, HEAP_SIZE) && InBand(base, heap[..], bs)
      requires k < |bs| && from == Payload(bs[k]) && count <= bs[k].size && End(bs[k]) <= HEAP_SIZE
      modifies heap
      ensures InBand(base, heap[..], bs)
      ensures Keeps(old(heap[..]), heap[..], AllBlocks(bs) - {bs[k]})
      ensures forall j :: from <= j < from + count ==> heap[j] == 0
    {
      ghost var m := heap[..];
      ZeroFill(from, count);
      ChainAfterPayloadWrite(base, m, bs, k, heap[..]);
    }

    /** `kcalloc` once the number of bytes is known. */
    method ZeroedBlock(total: u32) returns (ptr: u32)
      requires Valid() && ZeroingStays(state, total)
      modifies this, heap
      ensures Valid()
      ensures state == MallocStep(old(state), total).0 && ptr == Addr(MallocStep(old(state), total).1)
      ensures Keeps(old(heap[..]), heap[..], Live(old(state.blocks)))
      ensures ptr != 0 ==>
                && base <= ptr && ptr - base + total <= HEAP_SIZE
                && forall j :: ptr - base <= j < ptr - base + total ==> heap[j] == 0
    {
      ghost var m0, s0 := heap[..], state;
      ptr := Kmalloc(total);
      if ptr != 0 {
        ghost var k := GrantedIndex(s0, total);
        ghost var m := heap[..];
        ZeroPayload(ptr - base, total, state.blocks, k);
        KeepsTwice(m0, m, heap[..], Live(s0.blocks));
      }
    }

    /** The product is taken in 32 bits, and that many bytes are allocated and zeroed. */
    method Kcalloc(num: u32, size: u32) returns (ptr: u32)
      requires Valid() && ZeroingStays(state, Wrap32(num * size))
      modifies this, heap
      ensures Valid()
      ensures state == MallocStep(old(state), Wrap32(num * size)).0
      ensures ptr == Addr(MallocStep(old(state), Wrap32(num * size)).1)
      ensures Keeps(old(heap[..]), heap[..], Live(old(state.blocks)))
      ensures ptr != 0 ==>
                && base <= ptr && ptr - base + Wrap32(num * size) <= HEAP_SIZE
                && forall j :: ptr - base <= j < ptr - base + Wrap32(num * size) ==> heap[j] == 0
    {
      ptr := ZeroedBlock(Wrap32(num * size));
    }

    /** The copying loop of `krealloc`; its bound is read from the old block's header each time. */
    method CopyBytes(header: nat, from: nat, to: nat)
      requires header + HEADER == from <= heap.Length && from + Word(heap[..], header) <= heap.Length
      requires to + Word(heap[..], header) <= heap.Length
      requires to + Word(heap[..], header) <= header || from + Word(heap[..], header) <= to
      modifies heap
      ensures var n := old(Word(heap[..], header));
              && ChangedWithin(old(heap[..]), heap[..], to, to + n)
              && Copied(old(heap[..]), heap[..], from, to, n)
    {
      ghost var m, n := heap[..], Word(heap[..], header);
      var i := 0;
      while i < Word(heap[..], header)
        invariant 0 <= i <= n == Word(heap[..], header)
        invariant ChangedWithin(m, heap[..], to, to + n)
        invariant heap[..][to..to + i] == m[from..from + i]
      {
        heap[to + i] := heap[from + i];
        WordKept(m, heap[..], header, to, to + n);
        i := i + 1;
      }
    }

    /** Copies the payload of block k to the beginning of the payload of the larger block k'. */
    method CopyPayload(from: nat, to: nat, ghost bs: seq<Block>, ghost k: nat, ghost k': nat)
      requires Storage() && Tiles(bs, 0, HEAP_SIZE) && InBand(base, heap[..], bs)
      requires k < |bs| && k' < |bs| && k != k' && bs[k].size <= bs[k'].size
      requires from == Payload(bs[k]) && to == Payload(bs[k'])
      modifies heap
      ensures InBand(base, heap[..], bs)
      ensures Keeps(old(heap[..]), heap[..], AllBlocks(bs) - {bs[k']})
      ensures End(bs[k]) <= HEAP_SIZE && End(bs[k']) <= HEAP_SIZE
      ensures Contents(heap[..], bs[k'])[..bs[k].size] == Contents(old(heap[..]), bs[k])
    {
      ghost var m := heap[..];
      CopyBounds(base, m, bs, k, k');
      CopyBytes(from - HEADER, from, to);
      ChainAfterCopy(base, m, bs, k, k', heap[..]);
    }

    /**
     The old contents move along: the first bytes of the result are those of the old block. When no block is
     found, NULL is returned and the old block stays as it was.
     */
    method Krealloc(ptr: u32, request: u32) returns (result: u32)
      requires Valid() && Owned(ptr)
      requires ptr != 0 ==> CopyStays(state, ptr - base, request)
      modifies this, heap
      ensures Valid()
      ensures state == ReallocStep(old(state), Offset(ptr), request).0
      ensures result == Addr(ReallocStep(old(state), Offset(ptr), request).1)
      ensures result == 0 || result >= base
      ensures ptr == 0 ==> Keeps(old(heap[..]), heap[..], Live(old(state.blocks)))
      ensures ptr != 0 ==> Resized(old(heap[..]), old(state.blocks), ptr - base, heap[..], state.blocks, Offset(result))
    {
      if ptr == 0 {
        result := Kmalloc(request);
      } else if request == 0 {
        Kfree(ptr);
        KeepsLive(old(heap[..]), heap[..], old(state.blocks));
        result := 0;
      } else {
        result := Resize(ptr, request);
      }
    }

    method Resize(ptr: u32, request: u32) returns (result: u32)
      requires Valid() && ptr >= base && IsLive(state.blocks, ptr - base) && 0 < request
      requires CopyStays(state, ptr - base, request)
      modifies this, heap
      ensures Valid()
      ensures state == ResizeStep(old(state), ptr - base, request).0
      ensures result == Addr(ResizeStep(old(state), ptr - base, request).1)
      ensures result == 0 || result > base
      ensures Resized(old(heap[..]), old(state.blocks), ptr - base, heap[..], state.blocks, Offset(result))
    {
      var size := SizeBehind(ptr);
      if size >= request {
        result := ptr;
      } else {
        result := Relocate(ptr, request);
      }
    }

    method SizeBehind(ptr: u32) returns (size: u32)
      requires Valid() && ptr >= base && IsLive(state.blocks, ptr - base)
      ensures size == state.blocks[IndexOf(state.blocks, ptr - base)].size
      ensures Keeps(heap[..], heap[..], Live(state.blocks))
      ensures Moved(heap[..], state.blocks, ptr - base, heap[..], state.blocks, ptr - base)
    {
      TilesBounds(state.blocks, 0, HEAP_SIZE);
      assert HeaderAt(base, heap[..], state.blocks, IndexOf(state.blocks, ptr - base));
      size := Word(heap[..], ptr - base - HEADER);
    }

    method Relocate(ptr: u32, request: u32) returns (result: u32)
      requires Valid() && ptr >= base && IsLive(state.blocks, ptr - base) && 0 < request
      requires CopyStays(state, ptr - base, request)
      requires state.blocks[IndexOf(state.blocks, ptr - base)].size < request
      modifies this, heap
      ensures Valid()
      ensures result == 0 || result > base
      ensures Relocated(old(heap[..]), old(state), ptr - base, request, heap[..], state, Offset(result))
    {
      ghost var s0, m0 := state, heap[..];
      result := Kmalloc(request);
      if result == 0 {
        RelocateFails(s0, ptr - base, request, m0, heap[..]);
      } else {
        MoveTo(ptr, result, request, s0, m0);
      }
    }

    method MoveTo(ptr: u32, result: u32, ghost request: u32, ghost s: HeapState, ghost m: seq<byte>)
      requires Valid() && ptr >= base && result > base
      requires Grown(m, s, ptr - base, request, heap[..], state, result - base)
      modifies this, heap
      ensures Valid() && Relocated(m, s, ptr - base, request, heap[..], state, result - base)
    {
      ghost var m1, s1, p, q := heap[..], state, ptr - base, result - base;
      assert Movable(s1.blocks, p, q) by {
        GrownIsMovable(m, s, p, request, m1, s1, q);
      }
      ghost var m2 := MoveContents(ptr, result);
      assert Relocated(m, s, p, request, heap[..], state, q) by {
        MoveKeeps(m, s, p, request, m1, s1, q, m2, heap[..], state);
      }
    }

    /** `krealloc` once a larger block is in hand: copy, then release the old block. `m` is the memory in between. */
    method MoveContents(ptr: u32, result: u32) returns (ghost m: seq<byte>)
      requires Valid() && ptr >= base && result >= base && Movable(state.blocks, ptr - base, result - base)
      modifies this, heap
      ensures Valid() && state == FreeStep(old(state), ptr - base)
      ensures CopiedThenFreed(old(state.blocks), ptr - base, result - base, old(heap[..]), m, heap[..])
    {
      ghost var k, k' := IndexOf(state.blocks, ptr - base), IndexOf(state.blocks, result - base);
      CopyPayload(ptr - base, result - base, state.blocks, k, k');
      m := heap[..];
      Kfree(ptr);
    }

    method KmemStats() returns (granted: u32, returned: u32, available: u32)
      requires Valid()
      ensures granted == Wrap32(state.granted) && returned == Wrap32(state.returned)
      ensures available == FreeSize(state.blocks)
    {
      granted, returned, available := totalAllocated, totalFreed, 0;
      ghost var bs, k := state.blocks, 0;
      var current: u32 := heapStart;
      FreeSizeOfTiling(bs, 0, HEAP_SIZE);
      assert bs[0..] == bs;
      while current != 0
        invariant 0 <= k <= |bs|
        invariant current == if k < |bs| then base + bs[k].off else 0
        invariant available + FreeSize(bs[k..]) == FreeSize(bs)
        decreases |bs| - k
      {
        assert HeaderAt(base, heap[..], bs, k);
        assert bs[k..][1..] == bs[k + 1..];
        if heap[current - base + FREE_FIELD] != 0 {
          WrapSmall(available + bs[k].size);
          available := Wrap32(available + Word(heap[..], current - base));
        }
        current := Word(heap[..], current - base + NEXT_FIELD);
        k := k + 1;
      }
    }
  }
}
