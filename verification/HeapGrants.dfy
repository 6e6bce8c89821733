/**
 What the callers of kernel/core/memory.c can count on: where a new block is placed, how large it is, and that resizing
 delivers the size asked for.
 */
module HeapGrants {
  import opened Words
  import opened Blocks
  import opened HeapRuns

  /** Rounding gives the next multiple of 16, and 0 where that does not fit 32 bits. */
  lemma RoundIs(n: u32)
    ensures Round(n) % 16 == 0
    ensures n <= 0xFFFF_FFF0 ==> n <= Round(n) < n + 16
    ensures n > 0xFFFF_FFF0 ==> Round(n) == 0
  {
  }

  // ---------------------------------------------------------------- which block is granted

  /** The stretch at `a` is the lowest of its length. */
  ghost predicate LowestRun(bs: seq<Block>, a: nat, len: nat) {
    FreeRun(bs, a, len) && forall x: nat :: FreeRun(bs, x, len) ==> a <= x
  }

  /**
   Where `kmalloc` places a block: at the lowest of all addresses from which header and rounded size fit into
   unallocated bytes; NULL exactly for a size of 0 or if there is no such address.
   */
  lemma GrantIsLowest(s: HeapState, n: u32)
    requires Wf(s.blocks)
    ensures var p, len := MallocStep(s, n).1, HEADER + Round(n);
            && (p == NULL <==> n == 0 || !SomeFreeRun(s.blocks, len))
            && (p != NULL ==>
                  p >= HEADER && LowestRun(s.blocks, p - HEADER, len))
  {
    var bs, m := s.blocks, Round(n);
    var k := FirstFit(bs, m);
    if n != 0 {
      MallocFailsIff(s, n);
      if k < |bs| {
        FirstFitIsLowest(bs, m, k, HEADER + m);
      }
    }
  }

  lemma FirstFitIsLowest(bs: seq<Block>, m: nat, k: nat, len: nat)
    requires Wf(bs) && k == FirstFit(bs, m) < |bs| && len == HEADER + m
    ensures LowestRun(bs, bs[k].off, len)
  {
    forall b | b in Live(bs) ensures End(b) <= bs[k].off || End(bs[k]) <= b.off {
      LiveBlocksDisjoint(bs, b, bs[k]);
    }
    LiveBlocksDisjoint(bs, bs[k], bs[k]);
    forall a: nat | FreeRun(bs, a, len) ensures bs[k].off <= a {
      var j := FreeRunIsInOneBlock(bs, a, len);
      if k < j {
        TilesOrdered(bs, 0, HEAP_SIZE, k, j);
      }
    }
  }

  /** After initialisation exactly the sizes up to 1048560 are granted, and those that wrap to 0. */
  lemma InitialCapacity(n: u32)
    ensures MallocStep(INITIAL, n).1 != NULL <==> 0 < n <= 1_048_560 || n > 0xFFFF_FFF0
  {
    assert FirstFit(INITIAL.blocks, Round(n)) == 0 <==> Round(n) <= 1_048_564;
  }

  // ---------------------------------------------------------------- how blocks are split

  /** No block is too small to be of use. */
  predicate Useful(bs: seq<Block>) {
    forall b :: b in bs ==> b.size >= 16
  }

  /** Requests that do not wrap. */
  predicate Plain(c: Call) {
    match c
    case Malloc(n) => n <= MAX_REQUEST
    case Calloc(num, size) => Wrap32(num * size) <= MAX_REQUEST
    case Free(_) => true
    case Realloc(_, n) => n <= MAX_REQUEST
  }

  lemma {:induction false} CoalesceKeepsUseful(bs: seq<Block>)
    requires Useful(bs)
    ensures Useful(Coalesce(bs))
    decreases |bs|
  {
    if |bs| >= 2 {
      if bs[0].free && bs[1].free {
        CoalesceKeepsUseful([Merge(bs[0], bs[1])] + bs[2..]);
      } else {
        CoalesceKeepsUseful(bs[1..]);
      }
    }
  }

  lemma MallocKeepsUseful(s: HeapState, n: u32)
    requires Useful(s.blocks) && n <= MAX_REQUEST
    ensures Useful(MallocStep(s, n).0.blocks)
  {
    RoundIs(n);
  }

  lemma FreeKeepsUseful(s: HeapState, p: nat)
    requires Useful(s.blocks) && (p == NULL || IsLive(s.blocks, p))
    ensures Useful(FreeStep(s, p).blocks)
  {
    if p != NULL {
      CoalesceKeepsUseful(MarkFree(s.blocks, IndexOf(s.blocks, p)));
    }
  }

  lemma ExecKeepsUseful(s: HeapState, c: Call)
    requires Wf(s.blocks) && Legal(s, c) && Plain(c) && Useful(s.blocks)
    ensures Useful(Exec(s, c).0.blocks)
  {
    match c
    case Malloc(n) => MallocKeepsUseful(s, n);
    case Calloc(num, size) => MallocKeepsUseful(s, Wrap32(num * size));
    case Free(p) => FreeKeepsUseful(s, p);
    case Realloc(p, n) =>
      MallocKeepsUseful(s, n);
      if p != NULL {
        MallocKeepsLive(s, n, p);
        FreeKeepsUseful(s, p);
        FreeKeepsUseful(MallocStep(s, n).0, p);
      }
  }

  /** Over every run of requests that do not wrap, splitting never leaves a block of less than 16 bytes. */
  lemma {:induction false} RunKeepsUseful(s: HeapState, calls: seq<Call>)
    requires Wf(s.blocks) && Useful(s.blocks) && LegalRun(s, calls)
    requires forall k :: 0 <= k < |calls| ==> Plain(calls[k])
    ensures Useful(Run(s, calls).blocks)
    decreases |calls|
  {
    if calls != [] {
      ExecKeepsWf(s, calls[0]);
      ExecKeepsUseful(s, calls[0]);
      RunKeepsUseful(Exec(s, calls[0]).0, calls[1..]);
    }
  }

  // ---------------------------------------------------------------- resizing

  /** The size of the block behind a live pointer. */
  function SizeBehind(bs: seq<Block>, p: nat): nat
    requires IsLive(bs, p)
  {
    bs[IndexOf(bs, p)].size
  }

  /** Which other blocks are allocated. */
  function LiveOthers(bs: seq<Block>, p: nat): set<Block>
    requires IsLive(bs, p)
  {
    Live(bs) - {bs[IndexOf(bs, p)]}
  }

  /** What happens when `krealloc` must move. */
  lemma MovedCorrect(s: HeapState, p: nat, n: u32)
    requires Wf(s.blocks) && IsLive(s.blocks, p) && MallocStep(s, n).1 != NULL
    ensures var (s', q) := RelocateStep(s, p, n);
            && q == MallocStep(s, n).1 && q != p && !IsLive(s.blocks, q) && !IsLive(s'.blocks, p)
            && IsLive(s'.blocks, q) && (SizeBehind(s'.blocks, q) >= n <==> n <= 0xFFFF_FFF0)
            && LiveOthers(s'.blocks, q) == LiveOthers(s.blocks, p)
  {
    var b := MallocCorrect(s, n);
    var (t, q) := MallocStep(s, n);
    var gone := s.blocks[IndexOf(s.blocks, p)];
    CapacityIff(s, n);
    MallocKeepsLive(s, n, p);
    LiveIsUnique(t.blocks, b);
    OthersStay(t, p, b);
    FreeCorrect(t, p);
    var s' := FreeStep(t, p);
    if IsLive(s.blocks, q) {
      MallocKeepsLive(s, n, q);
    }
    if IsLive(s'.blocks, p) {
      var x := s'.blocks[IndexOf(s'.blocks, p)];
      assert x in Live(s'.blocks);
      LiveIsUnique(t.blocks, x);
    }
    assert gone in Live(s.blocks) && b !in Live(s.blocks);
  }

  /**
   What `krealloc` delivers for a live pointer and any size but 0. The old block is kept if it has n bytes, and nothing
   changes; otherwise NULL, and nothing changes, exactly if no unallocated stretch holds a header and the rounded size;
   otherwise another block in place of the old one, with at least n bytes exactly if rounding does not wrap. No other
   block is touched.
   */
  lemma ReallocDelivers(s: HeapState, p: nat, n: u32)
    requires Wf(s.blocks) && IsLive(s.blocks, p) && n > 0
    ensures var (s', q) := ReallocStep(s, p, n);
            && (q == p <==> SizeBehind(s.blocks, p) >= n)
            && (q == NULL <==> SizeBehind(s.blocks, p) < n && !SomeFreeRun(s.blocks, HEADER + Round(n)))
            && (q == p || q == NULL ==> s' == s)
            && (q != NULL ==>
                  && IsLive(s'.blocks, q) && (SizeBehind(s'.blocks, q) >= n <==> n <= 0xFFFF_FFF0)
                  && LiveOthers(s'.blocks, q) == LiveOthers(s.blocks, p))
            && (q != p && q != NULL ==> !IsLive(s'.blocks, p))
  {
    TilesBounds(s.blocks, 0, HEAP_SIZE);
    if SizeBehind(s.blocks, p) < n {
      MallocFailsIff(s, n);
      if MallocStep(s, n).1 != NULL {
        MovedCorrect(s, p, n);
      }
    }
  }

  /** Without a pointer it allocates, without a size it releases. */
  lemma ReallocAtTheEnds(s: HeapState, p: nat, n: u32)
    requires Wf(s.blocks)
    ensures ReallocStep(s, NULL, n) == MallocStep(s, n)
    ensures IsLive(s.blocks, p) ==>
              var (s', q) := ReallocStep(s, p, 0);
              q == NULL && !IsLive(s'.blocks, p) && Live(s'.blocks) == LiveOthers(s.blocks, p)
  {
    if IsLive(s.blocks, p) {
      FreeCorrect(s, p);
      var s' := FreeStep(s, p);
      if IsLive(s'.blocks, p) {
        var x := s'.blocks[IndexOf(s'.blocks, p)];
        assert x in Live(s'.blocks);
        LiveIsUnique(s.blocks, x);
      }
    }
  }
}
