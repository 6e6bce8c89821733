/**
 The allocator as a state machine over block lists, and what holds over every run of its calls.
 Pointers are payload offsets in the heap; every payload starts behind a header, so 0 can stand for NULL.
 */
module HeapRuns {
  import opened Words
  import opened Blocks

  const MAX_REQUEST := 0xFFFF_FFF0
  const NULL := 0

  /**
   `granted` and `returned` are the two statistics before 32-bit wrap-around. `slack` sums, over all
   `grants` successful allocations, the bytes by which the granted block exceeds the rounded request.
   */
  datatype HeapState = HeapState(blocks: seq<Block>, granted: nat, returned: nat, slack: nat, grants: nat)

  const INITIAL := HeapState(INITIAL_BLOCKS, 0, 0, 0, 0)

  datatype Call =
    | Malloc(size: u32)
    | Calloc(num: u32, size: u32)
    | Free(ptr: nat)
    | Realloc(ptr: nat, size: u32)

  predicate IsLive(bs: seq<Block>, p: nat) {
    exists k :: 0 <= k < |bs| && !bs[k].free && Payload(bs[k]) == p
  }

  function IndexOf(bs: seq<Block>, p: nat): (k: nat)
    requires IsLive(bs, p)
    ensures k < |bs| && !bs[k].free && Payload(bs[k]) == p
  {
    if !bs[0].free && Payload(bs[0]) == p then 0
    else
      assert IsLive(bs[1..], p) by {
        var k :| 0 <= k < |bs| && !bs[k].free && Payload(bs[k]) == p;
        assert bs[1..][k - 1] == bs[k];
      }
      1 + IndexOf(bs[1..], p)
  }

  // ---------------------------------------------------------------- the calls

  function MallocStep(s: HeapState, n: u32): (HeapState, nat) {
    var m := Round(n);
    var k := FirstFit(s.blocks, m);
    if n == 0 || k == |s.blocks| then (s, NULL)
    else
      var size := Carve(s.blocks[k], m)[0].size;
      (HeapState(AllocAt(s.blocks, k, m), s.granted + m, s.returned, s.slack + (size - m), s.grants + 1),
       Payload(s.blocks[k]))
  }

  function FreeStep(s: HeapState, p: nat): HeapState
    requires p == NULL || IsLive(s.blocks, p)
  {
    if p == NULL then s
    else
      var k := IndexOf(s.blocks, p);
      s.(blocks := FreeAt(s.blocks, k), returned := s.returned + s.blocks[k].size)
  }

  /** The new block is taken before the old one is released. */
  function RelocateStep(s: HeapState, p: nat, n: u32): (HeapState, nat)
    requires Wf(s.blocks) && IsLive(s.blocks, p)
  {
    var (s', q) := MallocStep(s, n);
    if q == NULL then (s, NULL)
    else
      MallocKeepsLive(s, n, p);
      (FreeStep(s', p), q)
  }

  function ResizeStep(s: HeapState, p: nat, n: u32): (HeapState, nat)
    requires Wf(s.blocks) && IsLive(s.blocks, p)
  {
    if s.blocks[IndexOf(s.blocks, p)].size >= n then (s, p) else RelocateStep(s, p, n)
  }

  function ReallocStep(s: HeapState, p: nat, n: u32): (HeapState, nat)
    requires Wf(s.blocks)
    requires p == NULL || IsLive(s.blocks, p)
  {
    if p == NULL then MallocStep(s, n)
    else if n == 0 then (FreeStep(s, p), NULL)
    else ResizeStep(s, p, n)
  }

  /** The size of the block that `kmalloc` grants, if it grants one. */
  function GrantedSize(s: HeapState, n: u32): nat {
    var k := FirstFit(s.blocks, Round(n));
    if k == |s.blocks| then 0 else Carve(s.blocks[k], Round(n))[0].size
  }

  /** The zeroing loop of `kcalloc`, which writes n bytes, stays inside the block granted. */
  predicate ZeroingStays(s: HeapState, n: u32) {
    MallocStep(s, n).1 == NULL || n <= GrantedSize(s, n)
  }

  /** The copying loop of `krealloc`, which writes as many bytes as the old block has, stays inside the new one. */
  predicate CopyStays(s: HeapState, p: nat, n: u32)
    requires IsLive(s.blocks, p)
  {
    var size := s.blocks[IndexOf(s.blocks, p)].size;
    n <= size || MallocStep(s, n).1 == NULL || size <= GrantedSize(s, n)
  }

  /** For sizes that do not wrap when they are rounded up, both loops stay inside. */
  lemma LoopsStay(s: HeapState, n: u32)
    requires n <= MAX_REQUEST
    ensures ZeroingStays(s, n) && forall p :: IsLive(s.blocks, p) ==> CopyStays(s, p, n)
  {
  }

  /**
   What the source demands of its callers: freed and resized pointers are NULL or live, and the zeroing and copying
   loops stay inside the new block, which they do not check.
   */
  predicate Legal(s: HeapState, c: Call) {
    match c
    case Malloc(_) => true
    case Calloc(num, size) => ZeroingStays(s, Wrap32(num * size))
    case Free(p) => p == NULL || IsLive(s.blocks, p)
    case Realloc(p, n) => p == NULL || (IsLive(s.blocks, p) && CopyStays(s, p, n))
  }

  function Exec(s: HeapState, c: Call): (HeapState, nat)
    requires Wf(s.blocks) && Legal(s, c)
  {
    match c
    case Malloc(n) => MallocStep(s, n)
    case Calloc(num, size) => MallocStep(s, Wrap32(num * size))
    case Free(p) => (FreeStep(s, p), NULL)
    case Realloc(p, n) => ReallocStep(s, p, n)
  }

  // ---------------------------------------------------------------- one call

  /** A successful `kmalloc` adds exactly one allocated block, disjoint from all others, and touches no other. */
  lemma MallocCorrect(s: HeapState, n: u32) returns (b: Block)
    requires Wf(s.blocks)
    ensures var (s', p) := MallocStep(s, n);
            && Wf(s'.blocks)
            && (p == NULL ==> s' == s)
            && (p != NULL ==>
                  && !b.free && p == Payload(b) && b !in Live(s.blocks)
                  && b.size == GrantedSize(s, n) && Round(n) <= b.size <= Round(n) + HEADER + MIN_SPLIT - 1
                  && s'.slack == s.slack + (b.size - Round(n))
                  && Live(s'.blocks) == Live(s.blocks) + {b})
  {
    b := Block(0, 0, true);
    var bs, m := s.blocks, Round(n);
    var k := FirstFit(bs, m);
    if n != 0 && k < |bs| {
      b := Carve(bs[k], m)[0];
      AllocAtCorrect(bs, k, m);
    }
  }

  lemma GrantStep(s: HeapState, n: u32, k: nat)
    requires Wf(s.blocks) && n != 0 && k == FirstFit(s.blocks, Round(n)) < |s.blocks|
    ensures var (s', p) := MallocStep(s, n);
            && s'.blocks == AllocAt(s.blocks, k, Round(n)) && Wf(s'.blocks)
            && s'.granted == s.granted + Round(n) && s'.returned == s.returned && p == Payload(s.blocks[k]) <= HEAP_SIZE
  {
    TilesSplit(s.blocks, 0, HEAP_SIZE, k);
    AllocAtCorrect(s.blocks, k, Round(n));
  }

  lemma AllocAtCorrect(bs: seq<Block>, k: nat, n: nat)
    requires Wf(bs) && k < |bs| && Fits(bs[k], n)
    ensures Wf(AllocAt(bs, k, n))
    ensures var b := Carve(bs[k], n)[0]; b !in Live(bs) && Live(AllocAt(bs, k, n)) == Live(bs) + {b}
  {
    var c := Carve(bs[k], n);
    TilesSplit(bs, 0, HEAP_SIZE, k);
    assert Tiles(c[1..], End(c[0]), End(bs[k]));
    TilesConcat(bs[..k], c, 0, bs[k].off, End(bs[k]));
    TilesConcat(bs[..k] + c, bs[k + 1..], 0, End(bs[k]), HEAP_SIZE);
    CoalescedCarve(bs, k, c);
    assert bs == bs[..k] + [bs[k]] + bs[k + 1..];
    assert forall x :: x in c && !x.free <==> x == c[0];
    if c[0] in Live(bs) {
      LiveBlocksDisjoint(bs, c[0], bs[k]);
    }
  }

  /** Replacing a free block by an allocated one, possibly followed by a free rest, keeps a heap merged. */
  lemma {:induction false} CoalescedCarve(bs: seq<Block>, k: nat, c: seq<Block>)
    requires Coalesced(bs) && k < |bs| && bs[k].free
    requires 1 <= |c| <= 2 && !c[0].free
    ensures Coalesced(bs[..k] + c + bs[k + 1..])
  {
    var r := bs[..k] + c + bs[k + 1..];
    if k == 0 {
      assert r == c + bs[1..];
      if |c| == 2 {
        assert r[1..][1..] == bs[1..];
        assert |bs| > 1 ==> !bs[1].free;
      } else {
        assert r[1..] == bs[1..];
      }
    } else {
      CoalescedCarve(bs[1..], k - 1, c);
      assert r[1..] == bs[1..][..k - 1] + c + bs[1..][k..];
    }
  }

  lemma MallocKeepsLive(s: HeapState, n: u32, p: nat)
    requires Wf(s.blocks) && IsLive(s.blocks, p)
    ensures IsLive(MallocStep(s, n).0.blocks, p)
    ensures MallocStep(s, n).1 != p
    ensures MallocStep(s, n).1 != NULL ==>
              var bs' := MallocStep(s, n).0.blocks;
              bs'[IndexOf(bs', p)] == s.blocks[IndexOf(s.blocks, p)]
  {
    var b := MallocCorrect(s, n);
    var (s', q) := MallocStep(s, n);
    var x := s.blocks[IndexOf(s.blocks, p)];
    assert x in Live(s'.blocks);
    if q != NULL {
      LiveBlocksDisjoint(s'.blocks, x, b);
      LiveBlocksDisjoint(s'.blocks, x, s'.blocks[IndexOf(s'.blocks, p)]);
    }
  }

  /** `kfree` removes exactly its block from the allocated ones, and keeps the heap merged. */
  lemma FreeCorrect(s: HeapState, p: nat)
    requires Wf(s.blocks) && IsLive(s.blocks, p)
    ensures var b := s.blocks[IndexOf(s.blocks, p)];
            var s' := FreeStep(s, p);
            Wf(s'.blocks) && Live(s'.blocks) == Live(s.blocks) - {b}
  {
    var k := IndexOf(s.blocks, p);
    MarkFreeCorrect(s.blocks, k);
    CoalesceCorrect(MarkFree(s.blocks, k), 0, HEAP_SIZE);
  }

  lemma ReleaseStep(s: HeapState, p: nat)
    requires Wf(s.blocks) && IsLive(s.blocks, p)
    ensures var k, s' := IndexOf(s.blocks, p), FreeStep(s, p);
            && Wf(s'.blocks) && s'.blocks == FreeAt(s.blocks, k)
            && s'.returned == s.returned + s.blocks[k].size && s'.granted == s.granted
  {
    FreeCorrect(s, p);
  }

  /** The block behind a live pointer is the only allocated block with that payload address. */
  lemma LiveIsUnique(bs: seq<Block>, b: Block)
    requires Wf(bs) && b in Live(bs)
    ensures IsLive(bs, Payload(b)) && bs[IndexOf(bs, Payload(b))] == b
  {
    LiveBlocksDisjoint(bs, b, bs[IndexOf(bs, Payload(b))]);
  }

  /** Releasing one block leaves every other allocated block reachable through its pointer. */
  lemma OthersStay(s: HeapState, p: nat, x: Block)
    requires Wf(s.blocks) && IsLive(s.blocks, p)
    requires x in Live(s.blocks) && x != s.blocks[IndexOf(s.blocks, p)]
    ensures var s' := FreeStep(s, p);
            IsLive(s'.blocks, Payload(x)) && s'.blocks[IndexOf(s'.blocks, Payload(x))] == x
  {
    FreeCorrect(s, p);
    LiveIsUnique(FreeStep(s, p).blocks, x);
  }

  lemma GrantedIndex(s: HeapState, n: u32) returns (k: nat)
    requires Wf(s.blocks) && MallocStep(s, n).1 != NULL
    ensures var (s', p) := MallocStep(s, n);
            && k < |s'.blocks| && Payload(s'.blocks[k]) == p && s'.blocks[k].size == GrantedSize(s, n)
            && s'.blocks[k] !in Live(s.blocks) && Live(s.blocks) <= AllBlocks(s'.blocks)
            && End(s'.blocks[k]) <= HEAP_SIZE
  {
    var b := MallocCorrect(s, n);
    var (s', p) := MallocStep(s, n);
    LiveIsUnique(s'.blocks, b);
    k := IndexOf(s'.blocks, p);
    TilesBounds(s'.blocks, 0, HEAP_SIZE);
  }

  /** What `krealloc` has in hand when it must move: the old block, still allocated, and a new one that is as large. */
  lemma MoveStep(s: HeapState, p: nat, n: u32) returns (b: Block, taken: Block)
    requires Wf(s.blocks) && IsLive(s.blocks, p) && CopyStays(s, p, n)
    requires s.blocks[IndexOf(s.blocks, p)].size < n && MallocStep(s, n).1 != NULL
    ensures var (s', q) := MallocStep(s, n);
            && b == s.blocks[IndexOf(s.blocks, p)] && b in Live(s.blocks)
            && Wf(s'.blocks) && IsLive(s'.blocks, p) && s'.blocks[IndexOf(s'.blocks, p)] == b
            && IsLive(s'.blocks, q) && s'.blocks[IndexOf(s'.blocks, q)] == taken
            && Payload(taken) == q && b != taken && taken !in Live(s.blocks)
            && b.size <= taken.size && b in Live(s'.blocks)
            && Live(s'.blocks) == Live(s.blocks) + {taken}
  {
    b := s.blocks[IndexOf(s.blocks, p)];
    taken := MallocCorrect(s, n);
    MallocKeepsLive(s, n, p);
    LiveIsUnique(MallocStep(s, n).0.blocks, taken);
  }

  // ---------------------------------------------------------------- runs

  /** A run whose only restriction is what each call demands of its caller in the state it meets. */
  ghost predicate LegalRun(s: HeapState, calls: seq<Call>)
    decreases |calls|
  {
    calls == [] || (Wf(s.blocks) && Legal(s, calls[0]) && LegalRun(Exec(s, calls[0]).0, calls[1..]))
  }

  ghost function Run(s: HeapState, calls: seq<Call>): HeapState
    requires LegalRun(s, calls)
    decreases |calls|
  {
    if calls == [] then s else Run(Exec(s, calls[0]).0, calls[1..])
  }

  lemma ExecKeepsWf(s: HeapState, c: Call)
    requires Wf(s.blocks) && Legal(s, c)
    ensures Wf(Exec(s, c).0.blocks)
  {
    match c
    case Malloc(n) =>
      var _ := MallocCorrect(s, n);
    case Calloc(num, size) =>
      var _ := MallocCorrect(s, Wrap32(num * size));
    case Free(p) =>
      if p != NULL { FreeCorrect(s, p); }
    case Realloc(p, n) =>
      var _ := MallocCorrect(s, n);
      if p != NULL {
        MallocKeepsLive(s, n, p);
        FreeCorrect(s, p);
        FreeCorrect(MallocStep(s, n).0, p);
      }
  }

  /** Over every run the headers tile the heap exactly and no two free blocks are neighbours. */
  lemma {:induction false} RunKeepsWf(s: HeapState, calls: seq<Call>)
    requires Wf(s.blocks) && LegalRun(s, calls)
    ensures Wf(Run(s, calls).blocks)
    decreases |calls|
  {
    if calls != [] {
      ExecKeepsWf(s, calls[0]);
      RunKeepsWf(Exec(s, calls[0]).0, calls[1..]);
    }
  }

  lemma InitialIsWf()
    ensures Wf(INITIAL.blocks) && Live(INITIAL.blocks) == {}
  {
    assert Tiles(INITIAL_BLOCKS[1..], HEAP_SIZE, HEAP_SIZE);
  }

  /** Two histories that leave the same blocks allocated leave the very same list of headers. */
  lemma {:induction false} HistoryForgotten(calls: seq<Call>, calls': seq<Call>)
    requires LegalRun(INITIAL, calls) && LegalRun(INITIAL, calls')
    requires Live(Run(INITIAL, calls).blocks) == Live(Run(INITIAL, calls').blocks)
    ensures Run(INITIAL, calls).blocks == Run(INITIAL, calls').blocks
  {
    InitialIsWf();
    RunKeepsWf(INITIAL, calls);
    RunKeepsWf(INITIAL, calls');
    Canonical(Run(INITIAL, calls).blocks, Run(INITIAL, calls').blocks, 0, HEAP_SIZE);
  }

  /** Freeing what `kmalloc` has just returned undoes the allocation exactly. */
  lemma FreeUndoesMalloc(s: HeapState, n: u32)
    requires Wf(s.blocks) && MallocStep(s, n).1 != NULL
    ensures var (s', p) := MallocStep(s, n);
            IsLive(s'.blocks, p) && FreeStep(s', p).blocks == s.blocks
  {
    var (s', p) := MallocStep(s, n);
    var b := MallocCorrect(s, n);
    LiveIsUnique(s'.blocks, b);
    FreeCorrect(s', p);
    Canonical(FreeStep(s', p).blocks, s.blocks, 0, HEAP_SIZE);
  }

  function Frees(ps: seq<nat>): seq<Call> {
    if ps == [] then [] else [Free(ps[0])] + Frees(ps[1..])
  }

  predicate Distinct(ps: seq<nat>) {
    forall i, j :: 0 <= i < j < |ps| ==> ps[i] != ps[j]
  }

  /** `ps` lists the pointers to all allocated blocks, each once, in any order. */
  predicate ListsLive(bs: seq<Block>, ps: seq<nat>) {
    && Distinct(ps)
    && (forall p :: p in ps ==> IsLive(bs, p))
    && (forall b :: b in Live(bs) ==> Payload(b) in ps)
  }

  /** Freeing all allocated blocks, in any order, restores the initial one-block heap. */
  lemma {:induction false} FreeAllRestores(s: HeapState, ps: seq<nat>)
    requires Wf(s.blocks) && ListsLive(s.blocks, ps)
    ensures LegalRun(s, Frees(ps)) && Run(s, Frees(ps)).blocks == INITIAL_BLOCKS
    decreases |ps|
  {
    if ps == [] {
      assert Live(s.blocks) == {};
      InitialIsWf();
      Canonical(s.blocks, INITIAL_BLOCKS, 0, HEAP_SIZE);
    } else {
      var p := ps[0];
      var b := s.blocks[IndexOf(s.blocks, p)];
      var s' := FreeStep(s, p);
      FreeCorrect(s, p);
      assert p != NULL;
      forall q | q in ps[1..] ensures IsLive(s'.blocks, q) {
        assert q in ps && q != p;
        var x := s.blocks[IndexOf(s.blocks, q)];
        assert x in Live(s'.blocks);
      }
      forall x | x in Live(s'.blocks) ensures Payload(x) in ps[1..] {
        assert x in Live(s.blocks);
        if Payload(x) == p {
          LiveIsUnique(s.blocks, x);
        }
      }
      FreeAllRestores(s', ps[1..]);
      assert Frees(ps)[0] == Free(p) && Frees(ps)[1..] == Frees(ps[1..]);
      assert Exec(s, Free(p)).0 == s';
    }
  }

  // ---------------------------------------------------------------- when allocation fails

  /** The bytes [a, a + len) meet no allocated block, header or payload. */
  predicate FreeRun(bs: seq<Block>, a: nat, len: nat) {
    a + len <= HEAP_SIZE && forall b :: b in Live(bs) ==> End(b) <= a || a + len <= b.off
  }

  ghost predicate SomeFreeRun(bs: seq<Block>, len: nat) {
    exists a: nat :: FreeRun(bs, a, len)
  }

  /**
   First fit on a merged heap misses nothing: `kmalloc` of a non-zero size returns NULL exactly when no
   contiguous stretch of unallocated bytes can hold a header and the rounded size.
   */
  lemma MallocFailsIff(s: HeapState, n: u32)
    requires Wf(s.blocks) && n != 0
    ensures MallocStep(s, n).1 == NULL <==> !SomeFreeRun(s.blocks, HEADER + Round(n))
  {
    var bs, m := s.blocks, Round(n);
    var k := FirstFit(bs, m);
    if k < |bs| {
      forall b | b in Live(bs) ensures End(b) <= bs[k].off || End(bs[k]) <= b.off {
        LiveBlocksDisjoint(bs, b, bs[k]);
      }
      LiveBlocksDisjoint(bs, bs[k], bs[k]);
      assert FreeRun(bs, bs[k].off, HEADER + m);
    } else if SomeFreeRun(bs, HEADER + m) {
      var a: nat :| FreeRun(bs, a, HEADER + m);
      var j := FreeRunIsInOneBlock(bs, a, HEADER + m);
      assert false;
    }
  }

  lemma FreeRunIsInOneBlock(bs: seq<Block>, a: nat, len: nat) returns (k: nat)
    requires Wf(bs) && HEADER <= len && FreeRun(bs, a, len)
    ensures k < |bs| && bs[k].off <= a && Fits(bs[k], len - HEADER)
  {
    k := BlockOfByte(bs, 0, HEAP_SIZE, a);
    var b := bs[k];
    assert b.free || b in Live(bs);
    TilesSplit(bs, 0, HEAP_SIZE, k);
    if k + 1 < |bs| {
      CoalescedAt(bs, k);
      assert bs[k + 1].free || bs[k + 1] in Live(bs);
    }
  }

  /** The granted block holds the requested bytes exactly when rounding the size up does not wrap. */
  lemma CapacityIff(s: HeapState, n: u32)
    requires Wf(s.blocks) && MallocStep(s, n).1 != NULL
    ensures var (s', p) := MallocStep(s, n);
            && IsLive(s'.blocks, p)
            && (s'.blocks[IndexOf(s'.blocks, p)].size >= n <==> n <= MAX_REQUEST)
  {
    var b := MallocCorrect(s, n);
    LiveIsUnique(MallocStep(s, n).0.blocks, b);
  }

  /**
   A block granted by `kcalloc` holds num * size bytes exactly when the product neither wraps nor wraps when rounded
   up.
   */
  lemma CallocCapacityIff(s: HeapState, num: u32, size: u32)
    requires Wf(s.blocks) && MallocStep(s, Wrap32(num * size)).1 != NULL
    ensures var (s', p) := MallocStep(s, Wrap32(num * size));
            && IsLive(s'.blocks, p)
            && (s'.blocks[IndexOf(s'.blocks, p)].size >= num * size <==> num * size <= MAX_REQUEST)
  {
    var total: nat := num * size;
    var n := Wrap32(total);
    var s' := MallocStep(s, n).0;
    var b := MallocCorrect(s, n);
    LiveIsUnique(s'.blocks, b);
    TilesBounds(s'.blocks, 0, HEAP_SIZE);
    if total < TWO_32 {
      WrapSmall(total);
      CapacityIff(s, n);
    }
  }

  /** For example, 0x8000_0001 times 2 bytes are granted with a block of 16. */
  lemma CallocExample()
    ensures var (s', p) := MallocStep(INITIAL, Wrap32(0x8000_0001 * 2));
            Legal(INITIAL, Calloc(0x8000_0001, 2)) && p != NULL && s'.blocks[0] == Block(0, 16, false)
            && 16 < 0x8000_0001 * 2
  {
    var n: u32 := 2;
    assert Wrap32(0x8000_0001 * 2) == n && Round(n) == 16;
    assert FirstFit(INITIAL.blocks, 16) == 0;
  }

  /** And resizing a block of 16 bytes to 2^32 - 1 would copy it into a block of none. */
  lemma CopyOverrunExample()
    ensures var (s, p) := MallocStep(INITIAL, 16);
            Wf(s.blocks) && IsLive(s.blocks, p) && !CopyStays(s, p, 0xFFFF_FFFF)
  {
    var (s, p) := MallocStep(INITIAL, 16);
    InitialIsWf();
    var b := MallocCorrect(INITIAL, 16);
    assert Round(16) == 16 && FirstFit(INITIAL.blocks, 16) == 0;
    var rest := HEAP_SIZE - HEADER - 16 - HEADER;
    assert s.blocks == [Block(0, 16, false), Block(HEADER + 16, rest, true)];
    assert !s.blocks[0].free && Payload(s.blocks[0]) == p;
    assert IndexOf(s.blocks, p) == 0;
    assert Round(0xFFFF_FFFF) == 0;
    assert !Fits(s.blocks[0], 0) && Fits(s.blocks[1], 0);
    assert FirstFit(s.blocks, 0) == 1 by {
      assert s.blocks[1..][0] == s.blocks[1];
    }
  }

  /** For example, the largest request of all is granted with a block of no bytes. */
  lemma CapacityExample()
    ensures MallocStep(INITIAL, 0xFFFF_FFFF).1 != NULL
    ensures MallocStep(INITIAL, 0xFFFF_FFFF).0.blocks[0] == Block(0, 0, false)
  {
    assert Round(0xFFFF_FFFF) == 0;
    assert FirstFit(INITIAL.blocks, 0) == 0;
  }

  // ---------------------------------------------------------------- accounting

  function TotalSize(bs: seq<Block>): nat {
    if bs == [] then 0 else bs[0].size + TotalSize(bs[1..])
  }

  function LiveSize(bs: seq<Block>): nat {
    if bs == [] then 0 else (if bs[0].free then 0 else bs[0].size) + LiveSize(bs[1..])
  }

  function FreeSize(bs: seq<Block>): nat {
    if bs == [] then 0 else (if bs[0].free then bs[0].size else 0) + FreeSize(bs[1..])
  }

  /** Headers, free bytes and allocated bytes make up the heap. */
  lemma {:induction false} FreeSizeOfTiling(bs: seq<Block>, lo: nat, hi: nat)
    requires Tiles(bs, lo, hi)
    ensures FreeSize(bs) + LiveSize(bs) + HEADER * |bs| == hi - lo
  {
    if bs != [] {
      FreeSizeOfTiling(bs[1..], End(bs[0]), hi);
    }
  }

  lemma {:induction false} TotalSizeOfTiling(bs: seq<Block>, lo: nat, hi: nat)
    requires Tiles(bs, lo, hi)
    ensures TotalSize(bs) + HEADER * |bs| == hi - lo
  {
    if bs != [] {
      TotalSizeOfTiling(bs[1..], End(bs[0]), hi);
    }
  }

  lemma {:induction false} LiveSizeConcat(a: seq<Block>, b: seq<Block>)
    ensures LiveSize(a + b) == LiveSize(a) + LiveSize(b)
  {
    if a == [] {
      assert a + b == b;
    } else {
      LiveSizeConcat(a[1..], b);
      assert (a + b)[1..] == a[1..] + b;
    }
  }

  lemma {:induction false} LiveSizeCoalesce(bs: seq<Block>)
    ensures LiveSize(Coalesce(bs)) == LiveSize(bs)
    decreases |bs|
  {
    if |bs| < 2 {
    } else if bs[0].free && bs[1].free {
      var m := [Merge(bs[0], bs[1])] + bs[2..];
      LiveSizeCoalesce(m);
      assert m[1..] == bs[1..][1..];
    } else {
      LiveSizeCoalesce(bs[1..]);
      assert ([bs[0]] + Coalesce(bs[1..]))[1..] == Coalesce(bs[1..]);
    }
  }

  lemma LiveSizeReplace(bs: seq<Block>, k: nat, c: seq<Block>)
    requires k < |bs|
    ensures LiveSize(bs[..k] + c + bs[k + 1..]) == LiveSize(bs) - LiveSize([bs[k]]) + LiveSize(c)
  {
    LiveSizeConcat(bs[..k] + c, bs[k + 1..]);
    LiveSizeConcat(bs[..k], c);
    LiveSizeConcat(bs[..k] + [bs[k]], bs[k + 1..]);
    LiveSizeConcat(bs[..k], [bs[k]]);
    assert bs == bs[..k] + [bs[k]] + bs[k + 1..];
  }

  /** The books balance: nothing is lost but the slack of unsplit blocks. */
  predicate Balanced(s: HeapState) {
    && LiveSize(s.blocks) + s.returned == s.granted + s.slack
    && s.slack <= s.grants * (HEADER + MIN_SPLIT - 1)
  }

  lemma MallocKeepsBalance(s: HeapState, n: u32)
    requires Balanced(s)
    ensures Balanced(MallocStep(s, n).0)
  {
    var bs, m := s.blocks, Round(n);
    var k := FirstFit(bs, m);
    if k < |bs| {
      var c := Carve(bs[k], m);
      LiveSizeReplace(bs, k, c);
      assert LiveSize(c) == c[0].size by {
        if |c| == 2 { assert LiveSize(c[1..]) == LiveSize(c[1..][1..]) == 0; }
      }
      assert LiveSize([bs[k]]) == 0;
    }
  }

  lemma FreeKeepsBalance(s: HeapState, p: nat)
    requires Balanced(s) && IsLive(s.blocks, p)
    ensures Balanced(FreeStep(s, p))
  {
    var bs := s.blocks;
    var k := IndexOf(bs, p);
    var f := bs[k].(free := true);
    LiveSizeReplace(bs, k, [f]);
    assert bs[k := f] == bs[..k] + [f] + bs[k + 1..];
    LiveSizeCoalesce(bs[k := f]);
    assert LiveSize([f]) == 0 && LiveSize([bs[k]]) == bs[k].size;
  }

  /**
   Over every run: payloads and headers add up to the heap; allocated bytes + total freed - total allocated is
   the slack of the unsplit grants, at most 27 bytes each.
   */
  lemma {:induction false} RunAccounting(s: HeapState, calls: seq<Call>)
    requires Wf(s.blocks) && Balanced(s) && LegalRun(s, calls)
    ensures var r := Run(s, calls);
            && TotalSize(r.blocks) + HEADER * |r.blocks| == HEAP_SIZE
            && LiveSize(r.blocks) + r.returned - r.granted == r.slack
            && r.slack <= 27 * r.grants
    decreases |calls|
  {
    if calls == [] {
      TotalSizeOfTiling(s.blocks, 0, HEAP_SIZE);
    } else {
      var s' := Exec(s, calls[0]).0;
      ExecKeepsWf(s, calls[0]);
      match calls[0] {
        case Malloc(n) => MallocKeepsBalance(s, n);
        case Calloc(num, size) => MallocKeepsBalance(s, Wrap32(num * size));
        case Free(p) => if p != NULL { FreeKeepsBalance(s, p); }
        case Realloc(p, n) =>
          MallocKeepsBalance(s, n);
          if p != NULL {
            MallocKeepsLive(s, n, p);
            FreeKeepsBalance(s, p);
            FreeKeepsBalance(MallocStep(s, n).0, p);
          }
      }
      RunAccounting(s', calls[1..]);
    }
  }
}
