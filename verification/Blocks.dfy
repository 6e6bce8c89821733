/**
 The block list of the kernel heap as a value: what the chain of in-band headers in
 kernel/core/memory.c denotes, and what each allocator call does to it.
 */
module Blocks {
  import opened Words

  const HEAP_SIZE := 1048576
  const HEADER := 12
  const MIN_SPLIT := 16

  /** A block starts with its header at heap offset `off`; `size` bytes of payload follow. */
  datatype Block = Block(off: nat, size: nat, free: bool)

  function End(b: Block): nat {
    b.off + HEADER + b.size
  }

  function Payload(b: Block): nat {
    b.off + HEADER
  }

  /** The blocks cover the heap bytes [lo, hi) in order, without gap or overlap. */
  predicate Tiles(bs: seq<Block>, lo: nat, hi: nat) {
    if bs == [] then lo == hi else bs[0].off == lo && Tiles(bs[1..], End(bs[0]), hi)
  }

  /** No two neighbours are both free. */
  predicate Coalesced(bs: seq<Block>) {
    |bs| >= 2 ==> !(bs[0].free && bs[1].free) && Coalesced(bs[1..])
  }

  predicate Wf(bs: seq<Block>) {
    Tiles(bs, 0, HEAP_SIZE) && Coalesced(bs)
  }

  /** The allocated blocks, whatever their order. */
  function Live(bs: seq<Block>): set<Block> {
    set b | b in bs && !b.free
  }

  function AllBlocks(bs: seq<Block>): set<Block> {
    set b | b in bs
  }

  const INITIAL_BLOCKS := [Block(0, HEAP_SIZE - HEADER, true)]

  // ---------------------------------------------------------------- operations

  /** Requested sizes are rounded up to 16 in 32-bit arithmetic, which wraps to 0 above 0xFFFF_FFF0. */
  function Round(n: u32): u32 {
    Wrap32(n + 15) / 16 * 16
  }

  predicate Fits(b: Block, n: nat) {
    b.free && b.size >= n
  }

  /** Index of the first fitting block, or |bs|. */
  function FirstFit(bs: seq<Block>, n: nat): (k: nat)
    ensures k <= |bs|
    ensures k < |bs| ==> Fits(bs[k], n)
    ensures forall j :: 0 <= j < k ==> !Fits(bs[j], n)
  {
    if bs == [] then 0 else if Fits(bs[0], n) then 0 else 1 + FirstFit(bs[1..], n)
  }

  function Carve(b: Block, n: nat): seq<Block>
    requires b.size >= n
  {
    if b.size >= n + HEADER + MIN_SPLIT then
      [Block(b.off, n, false), Block(b.off + HEADER + n, b.size - n - HEADER, true)]
    else
      [b.(free := false)]
  }

  function AllocAt(bs: seq<Block>, k: nat, n: nat): seq<Block>
    requires k < |bs| && bs[k].size >= n
  {
    bs[..k] + Carve(bs[k], n) + bs[k + 1..]
  }

  function Merge(a: Block, b: Block): Block {
    a.(size := a.size + HEADER + b.size)
  }

  /** One pass over the list, merging each free block with its free successors. */
  function Coalesce(bs: seq<Block>): seq<Block>
    decreases |bs|
  {
    if |bs| < 2 then bs
    else if bs[0].free && bs[1].free then Coalesce([Merge(bs[0], bs[1])] + bs[2..])
    else [bs[0]] + Coalesce(bs[1..])
  }

  function MarkFree(bs: seq<Block>, k: nat): seq<Block>
    requires k < |bs|
  {
    bs[k := bs[k].(free := true)]
  }

  function FreeAt(bs: seq<Block>, k: nat): seq<Block>
    requires k < |bs|
  {
    Coalesce(MarkFree(bs, k))
  }

  // ---------------------------------------------------------------- tilings

  lemma {:induction false} TilesConcat(a: seq<Block>, b: seq<Block>, lo: nat, mid: nat, hi: nat)
    requires Tiles(a, lo, mid) && Tiles(b, mid, hi)
    ensures Tiles(a + b, lo, hi)
  {
    if a == [] {
      assert a + b == b;
    } else {
      TilesConcat(a[1..], b, End(a[0]), mid, hi);
      assert (a + b)[1..] == a[1..] + b;
    }
  }

  lemma {:induction false} TilesSplit(bs: seq<Block>, lo: nat, hi: nat, k: nat)
    requires Tiles(bs, lo, hi) && k < |bs|
    ensures Tiles(bs[..k], lo, bs[k].off) && Tiles(bs[k + 1..], End(bs[k]), hi)
    ensures lo <= bs[k].off && End(bs[k]) <= hi
    ensures k + 1 < |bs| ==> bs[k + 1].off == End(bs[k])
    ensures k + 1 == |bs| ==> End(bs[k]) == hi
  {
    if k == 0 {
      TilesBounds(bs[1..], End(bs[0]), hi);
    } else {
      TilesSplit(bs[1..], End(bs[0]), hi, k - 1);
      assert bs[..k][1..] == bs[1..][..k - 1];
      assert bs[1..][k..] == bs[k + 1..];
    }
  }

  lemma {:induction false} TilesBounds(bs: seq<Block>, lo: nat, hi: nat)
    requires Tiles(bs, lo, hi)
    ensures lo <= hi
    ensures forall b :: b in bs ==> lo <= b.off && End(b) <= hi
  {
    if bs != [] {
      TilesBounds(bs[1..], End(bs[0]), hi);
    }
  }

  /** Every header and payload ends before the next header starts. */
  lemma {:induction false} TilesOrdered(bs: seq<Block>, lo: nat, hi: nat, i: nat, j: nat)
    requires Tiles(bs, lo, hi) && i < j < |bs|
    ensures End(bs[i]) <= bs[j].off
  {
    TilesSplit(bs, lo, hi, i);
    TilesBounds(bs[i + 1..], End(bs[i]), hi);
    assert bs[j] == bs[i + 1..][j - i - 1];
  }

  /** Live payloads are in bounds, and the extents (header and payload) of two blocks never meet. */
  lemma {:induction false} LiveBlocksDisjoint(bs: seq<Block>, a: Block, b: Block)
    requires Tiles(bs, 0, HEAP_SIZE) && a in bs && b in bs
    ensures End(a) <= HEAP_SIZE
    ensures a != b ==> End(a) <= b.off || End(b) <= a.off
  {
    TilesBounds(bs, 0, HEAP_SIZE);
    var i :| 0 <= i < |bs| && bs[i] == a;
    var j :| 0 <= j < |bs| && bs[j] == b;
    if i < j {
      TilesOrdered(bs, 0, HEAP_SIZE, i, j);
    } else if j < i {
      TilesOrdered(bs, 0, HEAP_SIZE, j, i);
    }
  }

  /** Every heap byte belongs to some block. */
  lemma {:induction false} BlockOfByte(bs: seq<Block>, lo: nat, hi: nat, a: nat) returns (k: nat)
    requires Tiles(bs, lo, hi) && lo <= a < hi
    ensures k < |bs| && bs[k].off <= a < End(bs[k])
  {
    if a < End(bs[0]) {
      k := 0;
    } else {
      k := BlockOfByte(bs[1..], End(bs[0]), hi, a);
      k := k + 1;
    }
  }

  lemma {:induction false} CoalescedAt(bs: seq<Block>, k: nat)
    requires Coalesced(bs) && k + 1 < |bs|
    ensures !(bs[k].free && bs[k + 1].free)
  {
    if k > 0 {
      CoalescedAt(bs[1..], k - 1);
    }
  }

  // ---------------------------------------------------------------- coalescing

  lemma {:induction false} MarkFreeTiles(bs: seq<Block>, k: nat)
    requires Tiles(bs, 0, HEAP_SIZE) && k < |bs|
    ensures Tiles(MarkFree(bs, k), 0, HEAP_SIZE)
  {
    var u := MarkFree(bs, k);
    var a, z := bs[..k], bs[k + 1..];
    TilesSplit(bs, 0, HEAP_SIZE, k);
    assert Tiles([u[k]], bs[k].off, End(bs[k]));
    TilesConcat(a, [u[k]], 0, bs[k].off, End(bs[k]));
    TilesConcat(a + [u[k]], z, 0, End(bs[k]), HEAP_SIZE);
    assert u == a + [u[k]] + z;
  }

  lemma {:induction false} MarkFreeCorrect(bs: seq<Block>, k: nat)
    requires Tiles(bs, 0, HEAP_SIZE) && k < |bs|
    ensures Tiles(MarkFree(bs, k), 0, HEAP_SIZE)
    ensures Live(MarkFree(bs, k)) == Live(bs) - {bs[k]}
  {
    var u := MarkFree(bs, k);
    MarkFreeTiles(bs, k);
    forall i | 0 <= i < |bs| && i != k
      ensures bs[i] != bs[k] && u[i] == bs[i]
    {
      TilesOrdered(bs, 0, HEAP_SIZE, if i < k then i else k, if i < k then k else i);
    }
  }

  /** The merging pass keeps the tiling, keeps exactly the allocated blocks, and leaves no free neighbours. */
  lemma {:induction false} CoalesceCorrect(bs: seq<Block>, lo: nat, hi: nat)
    requires Tiles(bs, lo, hi)
    ensures Tiles(Coalesce(bs), lo, hi)
    ensures Coalesced(Coalesce(bs))
    ensures Live(Coalesce(bs)) == Live(bs)
    ensures bs != [] ==> Coalesce(bs) != [] && Coalesce(bs)[0].free == bs[0].free
    decreases |bs|
  {
    if |bs| < 2 {
    } else if bs[0].free && bs[1].free {
      var m := [Merge(bs[0], bs[1])] + bs[2..];
      assert m[1..] == bs[2..] == bs[1..][1..];
      assert bs == [bs[0], bs[1]] + bs[2..];
      CoalesceCorrect(m, lo, hi);
    } else {
      CoalesceCorrect(bs[1..], End(bs[0]), hi);
      var c := Coalesce(bs[1..]);
      assert ([bs[0]] + c)[1..] == c;
      assert bs == [bs[0]] + bs[1..];
      assert Live([bs[0]] + c) == Live([bs[0]]) + Live(c);
      assert Live(bs) == Live([bs[0]]) + Live(bs[1..]);
    }
  }

  /**
   A fully merged heap is determined by its set of allocated blocks: no trace of the order
   of the calls that led to it remains.
   */
  lemma {:induction false} Canonical(a: seq<Block>, b: seq<Block>, lo: nat, hi: nat)
    requires Tiles(a, lo, hi) && Tiles(b, lo, hi)
    requires Coalesced(a) && Coalesced(b)
    requires Live(a) == Live(b)
    ensures a == b
  {
    TilesBounds(a, lo, hi);
    TilesBounds(b, lo, hi);
    if a != [] && b != [] {
      HeadsAgree(a, b, lo, hi);
      HeadsAgree(b, a, lo, hi);
      assert a[0] == b[0];
      LiveTail(a, lo, hi);
      LiveTail(b, lo, hi);
      Canonical(a[1..], b[1..], End(a[0]), hi);
      assert a == [a[0]] + a[1..] && b == [b[0]] + b[1..];
    }
  }

  lemma {:induction false} LiveTail(bs: seq<Block>, lo: nat, hi: nat)
    requires bs != [] && Tiles(bs, lo, hi)
    ensures Live(bs[1..]) == Live(bs) - {bs[0]}
  {
    TilesBounds(bs[1..], End(bs[0]), hi);
    assert bs[0] !in bs[1..];
    assert bs == [bs[0]] + bs[1..];
  }

  lemma {:induction false} HeadsAgree(a: seq<Block>, b: seq<Block>, lo: nat, hi: nat)
    requires a != [] && b != []
    requires Tiles(a, lo, hi) && Tiles(b, lo, hi)
    requires Coalesced(a) && Live(a) == Live(b)
    ensures b[0].free ==> a[0].free
    ensures a[0].free && b[0].free ==> a[0].size >= b[0].size
    ensures !a[0].free ==> a[0] == b[0]
  {
    TilesBounds(a[1..], End(a[0]), hi);
    TilesBounds(b[1..], End(b[0]), hi);
    if !a[0].free {
      assert a[0] in Live(b);
    } else if b[0].free && |a| > 1 {
      assert a[1..][0] in Live(b);
    }
  }
}
