/**
 What a block of kernel/core/memory.c holds over whole runs: calls of the allocator, and writes of its callers into
 their own blocks.
 */
module HeapTraces {
  import opened Words
  import opened Blocks
  import opened HeapRuns
  import opened HeapMemory
  import opened KernelHeap

  /** A call, or a write of some caller into the block behind its pointer. */
  datatype Action = Called(call: Call) | Written(ptr: nat)

  datatype Moment = Moment(state: HeapState, memory: seq<byte>)

  /** The action frees, resizes or writes the block behind p. */
  predicate Names(a: Action, p: nat) {
    match a
    case Called(Free(q)) => q == p
    case Called(Realloc(q, _)) => q == p
    case Called(_) => false
    case Written(q) => q == p
  }

  function Unnamed(bs: seq<Block>, a: Action): set<Block> {
    set b | b in bs && !b.free && !Names(a, Payload(b))
  }

  ghost predicate Happens(x: Moment, a: Action, y: Moment) {
    && Wf(x.state.blocks)
    && (match a
        case Called(c) => Legal(x.state, c) && y.state == Exec(x.state, c).0
        case Written(p) => y.state == x.state)
    && Keeps(x.memory, y.memory, Unnamed(x.state.blocks, a))
  }

  ghost predicate Trace(ms: seq<Moment>, actions: seq<Action>) {
    |ms| == |actions| + 1 && forall i :: 0 <= i < |actions| ==> Happens(ms[i], actions[i], ms[i + 1])
  }

  /** The block is allocated, and its payload is `bytes`. */
  ghost predicate Holds(x: Moment, b: Block, bytes: seq<byte>) {
    b in Live(x.state.blocks) && End(b) <= |x.memory| && Contents(x.memory, b) == bytes
  }

  lemma StaysAllocated(s: HeapState, c: Call, b: Block)
    requires Wf(s.blocks) && Legal(s, c) && b in Live(s.blocks) && !Names(Called(c), Payload(b))
    ensures b in Live(Exec(s, c).0.blocks)
  {
    match c
    case Malloc(n) =>
      var _ := MallocCorrect(s, n);
    case Calloc(num, size) =>
      var _ := MallocCorrect(s, Wrap32(num * size));
    case Free(p) =>
      if p != NULL { FreeCorrect(s, p); }
    case Realloc(p, n) =>
      var _ := MallocCorrect(s, n);
      if p != NULL {
        MallocKeepsLive(s, n, p);
        FreeCorrect(s, p);
        FreeCorrect(MallocStep(s, n).0, p);
      }
  }

  lemma HappensKeeps(x: Moment, a: Action, y: Moment, b: Block, bytes: seq<byte>)
    requires Happens(x, a, y) && Holds(x, b, bytes) && !Names(a, Payload(b))
    ensures Holds(y, b, bytes)
  {
    assert b in Unnamed(x.state.blocks, a);
    if a.Called? {
      StaysAllocated(x.state, a.call, b);
    }
  }

  /** Over every run, a block that is not freed, resized or written stays allocated and keeps every byte. */
  lemma {:induction false} UntouchedBlockKeepsBytes(ms: seq<Moment>, actions: seq<Action>, b: Block, bytes: seq<byte>)
    requires Trace(ms, actions) && Holds(ms[0], b, bytes)
    requires forall i :: 0 <= i < |actions| ==> !Names(actions[i], Payload(b))
    ensures Holds(ms[|actions|], b, bytes)
    decreases |actions|
  {
    if actions != [] {
      var n := |actions| - 1;
      assert Trace(ms[..n + 1], actions[..n]);
      UntouchedBlockKeepsBytes(ms[..n + 1], actions[..n], b, bytes);
      assert Happens(ms[n], actions[n], ms[n + 1]);
      HappensKeeps(ms[n], actions[n], ms[n + 1], b, bytes);
    }
  }

  // ---------------------------------------------------------------- the calls make such runs

  lemma SmallerKeeps(m: seq<byte>, m': seq<byte>, s: set<Block>, s': set<Block>)
    requires Keeps(m, m', s) && s' <= s
    ensures Keeps(m, m', s')
  {
  }

  lemma UnnamedAreLive(bs: seq<Block>, a: Action)
    ensures Unnamed(bs, a) <= Live(bs) <= AllBlocks(bs)
    ensures forall p :: IsLive(bs, p) && Names(a, p) ==> Unnamed(bs, a) <= Live(bs) - {bs[IndexOf(bs, p)]}
  {
  }

  /** Any call of the allocator is one step of such a run. */
  method Perform(h: Heap, c: Call) returns (ptr: u32)
    requires h.Valid() && Legal(h.state, c)
    modifies h, h.heap
    ensures h.Valid()
    ensures Happens(Moment(old(h.state), old(h.heap[..])), Called(c), Moment(h.state, h.heap[..]))
    ensures ptr == h.Addr(Exec(old(h.state), c).1)
  {
    ghost var bs, m := h.state.blocks, h.heap[..];
    UnnamedAreLive(bs, Called(c));
    match c {
      case Malloc(n) =>
        ptr := h.Kmalloc(n);
      case Calloc(num, size) =>
        ptr := h.Kcalloc(num, size);
      case Free(p) =>
        TilesBounds(bs, 0, HEAP_SIZE);
        h.Kfree(if p == NULL then 0 else h.base + p);
        ptr := 0;
      case Realloc(p, n) =>
        ptr := PerformRealloc(h, p, n);
    }
  }

  method PerformRealloc(h: Heap, p: nat, n: u32) returns (ptr: u32)
    requires h.Valid() && Legal(h.state, Realloc(p, n))
    modifies h, h.heap
    ensures h.Valid()
    ensures Happens(Moment(old(h.state), old(h.heap[..])), Called(Realloc(p, n)), Moment(h.state, h.heap[..]))
    ensures ptr == h.Addr(ReallocStep(old(h.state), p, n).1)
  {
    TilesBounds(h.state.blocks, 0, HEAP_SIZE);
    UnnamedAreLive(h.state.blocks, Called(Realloc(p, n)));
    ptr := h.Krealloc(if p == NULL then 0 else h.base + p, n);
  }

  /** So is the write of a byte into an allocated block. */
  method WriteByte(h: Heap, ptr: u32, i: u32, v: byte)
    requires h.Valid() && ptr >= h.base && IsLive(h.state.blocks, ptr - h.base)
    requires i < h.state.blocks[IndexOf(h.state.blocks, ptr - h.base)].size
    modifies h.heap
    ensures h.Valid()
    ensures Happens(Moment(h.state, old(h.heap[..])), Written(ptr - h.base), Moment(h.state, h.heap[..]))
  {
    ghost var bs, k, m := h.state.blocks, IndexOf(h.state.blocks, ptr - h.base), h.heap[..];
    TilesBounds(bs, 0, HEAP_SIZE);
    UnnamedAreLive(bs, Written(ptr - h.base));
    h.heap[ptr - h.base + i] := v;
    ChainAfterPayloadWrite(h.base, m, bs, k, h.heap[..]);
    SmallerKeeps(m, h.heap[..], AllBlocks(bs) - {bs[k]}, Unnamed(bs, Written(ptr - h.base)));
  }
}
