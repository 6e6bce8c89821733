/**
 How a block list is written into memory: in front of each payload a 12-byte header with the block's size,
 its `free` flag and the address of the next header, least significant byte first.
 `m` is the content of the heap array, `base` the address of its first byte.
 */
module HeapMemory {
  import opened Words
  import opened Blocks

  const FREE_FIELD := 4
  const NEXT_FIELD := 8

  /** The number stored in `n` bytes from offset `o`, least significant byte first. */
  function Little(m: seq<byte>, o: nat, n: nat): nat
    requires o + n <= |m|
    decreases n
  {
    if n == 0 then 0 else m[o] as int + 256 * Little(m, o + 1, n - 1)
  }

  function Word(m: seq<byte>, o: nat): u32
    requires o + 4 <= |m|
  {
    assert Little(m, o + 3, 1) < 256;
    assert Little(m, o + 2, 2) < 65536;
    assert Little(m, o + 1, 3) < 16777216;
    Little(m, o, 4)
  }

  lemma {:induction false} LittleKept(m: seq<byte>, m': seq<byte>, o: nat, n: nat)
    requires |m| == |m'| && o + n <= |m| && forall j :: o <= j < o + n ==> m[j] == m'[j]
    ensures Little(m, o, n) == Little(m', o, n)
    decreases n
  {
    if n > 0 {
      LittleKept(m, m', o + 1, n - 1);
    }
  }

  lemma LittleOfWord(m: seq<byte>, o: nat, v: u32)
    requires o + 4 <= |m|
    requires m[o] == v % 256 && m[o + 1] == v / 256 % 256 && m[o + 2] == v / 256 / 256 % 256
             && m[o + 3] == v / 256 / 256 / 256
    ensures Word(m, o) == v
  {
    assert Little(m, o + 3, 1) == v / 256 / 256 / 256;
    assert Little(m, o + 2, 2) == v / 256 / 256;
    assert Little(m, o + 1, 3) == v / 256;
  }

  /** Address of the header behind block k, NULL behind the last one. */
  function NextAddr(base: nat, bs: seq<Block>, k: nat): nat {
    if k + 1 < |bs| then base + bs[k + 1].off else 0
  }

  /** The twelve bytes at offset `o` are a header with these three fields. */
  ghost predicate Header(m: seq<byte>, o: nat, size: nat, free: bool, next: nat) {
    && o + HEADER <= |m|
    && Word(m, o) == size
    && (m[o + FREE_FIELD] != 0) == free
    && Word(m, o + NEXT_FIELD) == next
  }

  ghost predicate HeaderAt(base: nat, m: seq<byte>, bs: seq<Block>, k: nat)
    requires k < |bs|
  {
    End(bs[k]) <= |m| && Header(m, bs[k].off, bs[k].size, bs[k].free, NextAddr(base, bs, k))
  }

  ghost predicate HeadersAt(base: nat, m: seq<byte>, bs: seq<Block>, from: nat, to: nat) {
    to <= |bs| && forall k :: from <= k < to ==> HeaderAt(base, m, bs, k)
  }

  /** Following the headers from `base` finds exactly the blocks `bs`. */
  ghost predicate InBand(base: nat, m: seq<byte>, bs: seq<Block>) {
    forall k :: 0 <= k < |bs| ==> HeaderAt(base, m, bs, k)
  }

  function Contents(m: seq<byte>, b: Block): seq<byte>
    requires End(b) <= |m|
  {
    m[Payload(b)..End(b)]
  }

  lemma ContentsPrefix(m: seq<byte>, b: Block, n: nat)
    requires End(b) <= |m| && n <= b.size
    ensures Contents(m, b)[..n] == m[Payload(b)..Payload(b) + n]
  {
  }

  /** Every byte of the payload of every block in `s` is the same in both memories. */
  ghost predicate Keeps(m: seq<byte>, m': seq<byte>, s: set<Block>) {
    |m| == |m'| && forall b :: b in s ==> End(b) <= |m| && Contents(m, b) == Contents(m', b)
  }

  lemma KeepsTwice(m: seq<byte>, m': seq<byte>, m'': seq<byte>, s: set<Block>)
    requires Keeps(m, m', s) && Keeps(m', m'', s)
    ensures Keeps(m, m'', s)
  {
  }

  /** The memories differ at most inside [lo, hi). */
  ghost predicate ChangedWithin(m: seq<byte>, m': seq<byte>, lo: nat, hi: nat) {
    |m| == |m'| && forall j :: 0 <= j < |m| && !(lo <= j < hi) ==> m[j] == m'[j]
  }

  lemma WordKept(m: seq<byte>, m': seq<byte>, o: nat, lo: nat, hi: nat)
    requires ChangedWithin(m, m', lo, hi) && o + 4 <= |m| && (hi <= o || o + 4 <= lo)
    ensures Word(m', o) == Word(m, o)
  {
    LittleKept(m, m', o, 4);
  }

  lemma HeaderKept(m: seq<byte>, m': seq<byte>, o: nat, size: nat, free: bool, next: nat, lo: nat, hi: nat)
    requires Header(m, o, size, free, next) && ChangedWithin(m, m', lo, hi)
    requires hi <= o || o + HEADER <= lo
    ensures Header(m', o, size, free, next)
  {
    WordKept(m, m', o, lo, hi);
    WordKept(m, m', o + NEXT_FIELD, lo, hi);
  }

  /**
   Replacing block k of the chain by the blocks `c` that start where it starts, while writing only inside
   [lo, hi) of its extent, leaves every other header intact.
   */
  lemma {:induction false} HeadersAfterReplace(base: nat, m: seq<byte>, bs: seq<Block>, k: nat,
                                               c: seq<Block>, m': seq<byte>, hi: nat)
    requires |m| == HEAP_SIZE && Tiles(bs, 0, HEAP_SIZE) && InBand(base, m, bs)
    requires k < |bs| && c != [] && c[0].off == bs[k].off && hi <= End(bs[k])
    requires ChangedWithin(m, m', bs[k].off, hi)
    requires HeadersAt(base, m', bs[..k] + c + bs[k + 1..], k, k + |c|)
    ensures InBand(base, m', bs[..k] + c + bs[k + 1..])
  {
    var r := bs[..k] + c + bs[k + 1..];
    forall i | 0 <= i < |r| && !(k <= i < k + |c|) ensures HeaderAt(base, m', r, i) {
      var i' := if i < k then i else i + 1 - |c|;
      assert r[i] == bs[i'] && NextAddr(base, r, i) == NextAddr(base, bs, i') && HeaderAt(base, m, bs, i');
      TilesOrdered(bs, 0, HEAP_SIZE, if i' < k then i' else k, if i' < k then k else i');
      HeaderKept(m, m', r[i].off, r[i].size, r[i].free, NextAddr(base, r, i), bs[k].off, hi);
    }
  }

  /** Writing inside the extent of a free block, or inside a header, touches no other payload. */
  lemma {:induction false} PayloadsKept(m: seq<byte>, m': seq<byte>, bs: seq<Block>, k: nat, hi: nat, s: set<Block>)
    requires |m| == HEAP_SIZE && Tiles(bs, 0, HEAP_SIZE) && k < |bs|
    requires ChangedWithin(m, m', bs[k].off, hi)
    requires forall b :: b in s ==> b in bs
    requires hi <= bs[k].off + HEADER || (bs[k] !in s && hi <= End(bs[k]))
    ensures Keeps(m, m', s)
  {
    assert bs[k] in bs;
    forall b | b in s ensures End(b) <= |m| && Contents(m, b) == Contents(m', b) {
      assert b in bs;
      LiveBlocksDisjoint(bs, b, bs[k]);
      ContentsOutside(m, m', b, bs[k].off, hi);
    }
  }

  lemma ContentsOutside(m: seq<byte>, m': seq<byte>, b: Block, lo: nat, hi: nat)
    requires ChangedWithin(m, m', lo, hi) && End(b) <= |m|
    requires End(b) <= lo || hi <= Payload(b)
    ensures Contents(m, b) == Contents(m', b)
  {
    forall j | Payload(b) <= j < End(b)
      ensures m[j] == m'[j]
    {
    }
  }

  /** No header of `bs` reaches into the payload of a block of `s`. */
  ghost predicate HeadersClear(bs: seq<Block>, s: set<Block>) {
    forall x, b :: x in bs && b in s ==> x.off + HEADER <= Payload(b) || End(b) <= x.off
  }

  lemma HeaderWriteKeeps(m: seq<byte>, m': seq<byte>, bs: seq<Block>, k: nat, s: set<Block>)
    requires k < |bs| && ChangedWithin(m, m', bs[k].off, bs[k].off + HEADER)
    requires HeadersClear(bs, s) && forall b :: b in s ==> End(b) <= |m|
    ensures Keeps(m, m', s)
  {
    forall b | b in s ensures Contents(m, b) == Contents(m', b) {
      assert bs[k] in bs;
    }
  }

  lemma {:induction false} TilingIsClear(bs: seq<Block>, k: nat)
    requires Tiles(bs, 0, HEAP_SIZE) && k < |bs|
    ensures HeadersClear(bs, AllBlocks(bs)) && HeadersClear(MarkFree(bs, k), AllBlocks(bs))
    ensures forall b :: b in AllBlocks(bs) ==> End(b) <= HEAP_SIZE
  {
    forall x, b | x in bs && b in bs ensures End(b) <= HEAP_SIZE && (x.off + HEADER <= Payload(b) || End(b) <= x.off) {
      LiveBlocksDisjoint(bs, b, x);
    }
    var r := MarkFree(bs, k);
    forall x, b | x in r && b in bs ensures x.off + HEADER <= Payload(b) || End(b) <= x.off {
      assert x in bs || x.off == bs[k].off;
      assert bs[k] in bs;
    }
  }

  // ---------------------------------------------------------------- merging two neighbours

  function MergeAt(bs: seq<Block>, k: nat): seq<Block>
    requires k + 1 < |bs|
  {
    bs[..k] + [Merge(bs[k], bs[k + 1])] + bs[k + 2..]
  }

  /** Merging at k is the next thing the merging pass does when blocks k and k + 1 are free. */
  lemma {:induction false} MergeAtCorrect(bs: seq<Block>, k: nat)
    requires Tiles(bs, 0, HEAP_SIZE) && k + 1 < |bs| && bs[k].free && bs[k + 1].free
    ensures Tiles(MergeAt(bs, k), 0, HEAP_SIZE)
    ensures bs[..k] + Coalesce(bs[k..]) == MergeAt(bs, k)[..k] + Coalesce(MergeAt(bs, k)[k..])
  {
    var x, r := Merge(bs[k], bs[k + 1]), MergeAt(bs, k);
    TilesSplit(bs, 0, HEAP_SIZE, k);
    TilesSplit(bs, 0, HEAP_SIZE, k + 1);
    assert Tiles([x], bs[k].off, End(bs[k + 1]));
    TilesConcat(bs[..k], [x], 0, bs[k].off, End(x));
    TilesConcat(bs[..k] + [x], bs[k + 2..], 0, End(x), HEAP_SIZE);
    assert r[..k] == bs[..k] && r[k..] == [x] + bs[k..][2..];
  }

  lemma CoalesceHead(t: seq<Block>)
    requires |t| >= 2 && !(t[0].free && t[1].free)
    ensures Coalesce(t) == [t[0]] + Coalesce(t[1..])
  {
  }

  lemma {:induction false} SkipKeepsCoalesce(bs: seq<Block>, k: nat)
    requires k + 1 < |bs| && !(bs[k].free && bs[k + 1].free)
    ensures bs[..k] + Coalesce(bs[k..]) == bs[..k + 1] + Coalesce(bs[k + 1..])
  {
    var t, rest := bs[k..], Coalesce(bs[k + 1..]);
    assert t[0] == bs[k] && t[1] == bs[k + 1] && t[1..] == bs[k + 1..];
    CoalesceHead(t);
    assert bs[..k + 1] == bs[..k] + [bs[k]];
    assert bs[..k] + ([bs[k]] + rest) == bs[..k] + [bs[k]] + rest;
  }

  /** After merging, only the header of block k has changed, and the header of k + 1 is forgotten. */
  lemma {:induction false} HeadersAfterMerge(base: nat, m: seq<byte>, bs: seq<Block>, k: nat, m': seq<byte>)
    requires |m| == HEAP_SIZE && Tiles(bs, 0, HEAP_SIZE) && InBand(base, m, bs)
    requires k + 1 < |bs|
    requires ChangedWithin(m, m', bs[k].off, bs[k].off + HEADER)
    requires HeaderAt(base, m', MergeAt(bs, k), k)
    ensures InBand(base, m', MergeAt(bs, k))
  {
    var r := MergeAt(bs, k);
    forall i | 0 <= i < |r| && i != k ensures HeaderAt(base, m', r, i) {
      var i' := if i < k then i else i + 1;
      assert r[i] == bs[i'] && NextAddr(base, r, i) == NextAddr(base, bs, i') && HeaderAt(base, m, bs, i');
      TilesOrdered(bs, 0, HEAP_SIZE, if i' < k then i' else k, if i' < k then k else i');
      HeaderKept(m, m', r[i].off, r[i].size, r[i].free, NextAddr(base, r, i), bs[k].off, bs[k].off + HEADER);
    }
  }

  /** One merge of two free neighbours, seen from the whole chain. */
  lemma {:induction false} ChainAfterMerge(base: nat, m: seq<byte>, bs: seq<Block>, k: nat,
                                           m': seq<byte>, s: set<Block>)
    requires |m| == HEAP_SIZE && Tiles(bs, 0, HEAP_SIZE) && InBand(base, m, bs)
    requires k + 1 < |bs| && bs[k].free && bs[k + 1].free
    requires ChangedWithin(m, m', bs[k].off, bs[k].off + HEADER)
    requires Header(m', bs[k].off, bs[k].size + HEADER + bs[k + 1].size, true, NextAddr(base, bs, k + 1))
    requires HeadersClear(bs, s) && forall b :: b in s ==> End(b) <= HEAP_SIZE
    ensures InBand(base, m', MergeAt(bs, k))
    ensures Keeps(m, m', s)
    ensures HeadersClear(MergeAt(bs, k), s)
  {
    var r := MergeAt(bs, k);
    TilesSplit(bs, 0, HEAP_SIZE, k);
    TilesSplit(bs, 0, HEAP_SIZE, k + 1);
    assert r[k] == Merge(bs[k], bs[k + 1]) && NextAddr(base, r, k) == NextAddr(base, bs, k + 1);
    HeaderWriteKeeps(m, m', bs, k, s);
    MergeStaysClear(bs, k, s);
    HeadersAfterMerge(base, m, bs, k, m');
  }

  /** The headers of the one or two blocks that a granted block becomes. */
  ghost predicate CarvedHeaders(base: nat, m: seq<byte>, c: seq<Block>, next: nat)
    requires 1 <= |c| <= 2
  {
    && Header(m, c[0].off, c[0].size, false, if |c| == 1 then next else base + c[1].off)
    && (|c| == 2 ==> Header(m, c[1].off, c[1].size, true, next))
  }

  /** Taking a fitting block, with or without a split, seen from the whole chain. */
  lemma {:induction false} ChainAfterCarve(base: nat, m: seq<byte>, bs: seq<Block>, k: nat, n: nat, m': seq<byte>)
    requires |m| == HEAP_SIZE && Tiles(bs, 0, HEAP_SIZE) && InBand(base, m, bs)
    requires k < |bs| && Fits(bs[k], n)
    requires ChangedWithin(m, m', bs[k].off, End(bs[k]))
    requires CarvedHeaders(base, m', Carve(bs[k], n), NextAddr(base, bs, k))
    ensures InBand(base, m', AllocAt(bs, k, n))
    ensures Keeps(m, m', Live(bs))
  {
    var c, r := Carve(bs[k], n), AllocAt(bs, k, n);
    TilesSplit(bs, 0, HEAP_SIZE, k);
    assert r[k] == c[0] && (|c| == 2 ==> r[k + 1] == c[1]);
    assert NextAddr(base, r, k + |c| - 1) == NextAddr(base, bs, k);
    HeadersAfterReplace(base, m, bs, k, c, m', End(bs[k]));
    PayloadsKept(m, m', bs, k, End(bs[k]), Live(bs));
  }

  /**
   The state of the merging pass when it stands at block k of the chain `bs`: what is behind it is final, and
   merging the rest would complete the pass over `start`.
   */
  ghost predicate Pass(base: nat, m: seq<byte>, bs: seq<Block>, k: nat, start: seq<Block>, s: set<Block>) {
    && |m| == HEAP_SIZE && k < |bs|
    && Tiles(bs, 0, HEAP_SIZE) && InBand(base, m, bs)
    && bs[..k] + Coalesce(bs[k..]) == Coalesce(start)
    && HeadersClear(bs, s)
  }

  /** What the pass reads from the headers at block k and, if there is one, behind it. */
  lemma PassReads(base: nat, m: seq<byte>, bs: seq<Block>, k: nat, start: seq<Block>, s: set<Block>)
    requires base > 0 && Pass(base, m, bs, k, start, s)
    ensures End(bs[k]) <= HEAP_SIZE && Header(m, bs[k].off, bs[k].size, bs[k].free, NextAddr(base, bs, k))
    ensures k + 1 < |bs| ==>
              && bs[k + 1].off == End(bs[k]) && End(bs[k + 1]) <= HEAP_SIZE
              && Header(m, bs[k + 1].off, bs[k + 1].size, bs[k + 1].free, NextAddr(base, bs, k + 1))
    ensures k + 1 == |bs| ==> bs == Coalesce(start)
  {
    assert HeaderAt(base, m, bs, k);
    TilesSplit(bs, 0, HEAP_SIZE, k);
    if k + 1 < |bs| {
      assert HeaderAt(base, m, bs, k + 1);
    } else {
      assert bs[k..] == [bs[k]] && bs == bs[..k] + [bs[k]];
    }
  }

  lemma PassSkips(base: nat, m: seq<byte>, bs: seq<Block>, k: nat, start: seq<Block>, s: set<Block>)
    requires Pass(base, m, bs, k, start, s) && k + 1 < |bs| && !(bs[k].free && bs[k + 1].free)
    ensures Pass(base, m, bs, k + 1, start, s)
  {
    SkipKeepsCoalesce(bs, k);
  }

  lemma PassMerges(base: nat, m: seq<byte>, bs: seq<Block>, k: nat, start: seq<Block>, s: set<Block>, m': seq<byte>)
    requires Pass(base, m, bs, k, start, s) && k + 1 < |bs| && bs[k].free && bs[k + 1].free
    requires ChangedWithin(m, m', bs[k].off, bs[k].off + HEADER)
    requires Header(m', bs[k].off, bs[k].size + HEADER + bs[k + 1].size, true, NextAddr(base, bs, k + 1))
    requires forall b :: b in s ==> End(b) <= HEAP_SIZE
    ensures Pass(base, m', MergeAt(bs, k), k, start, s) && Keeps(m, m', s)
  {
    ChainAfterMerge(base, m, bs, k, m', s);
    MergeAtCorrect(bs, k);
  }

  lemma MergeStaysClear(bs: seq<Block>, k: nat, s: set<Block>)
    requires k + 1 < |bs| && HeadersClear(bs, s)
    ensures HeadersClear(MergeAt(bs, k), s)
  {
    var r := MergeAt(bs, k);
    forall x, b | x in r && b in s ensures x.off + HEADER <= Payload(b) || End(b) <= x.off {
      assert x in bs || x.off == bs[k].off;
      assert bs[k] in bs;
    }
  }

  /** What `kfree` does to the header of the block it releases, before merging. */
  lemma {:induction false} HeadersAfterFlag(base: nat, m: seq<byte>, bs: seq<Block>, k: nat, m': seq<byte>)
    requires |m| == HEAP_SIZE && Tiles(bs, 0, HEAP_SIZE) && InBand(base, m, bs) && k < |bs|
    requires ChangedWithin(m, m', bs[k].off + FREE_FIELD, bs[k].off + FREE_FIELD + 1)
    requires bs[k].off + HEADER <= HEAP_SIZE && m'[bs[k].off + FREE_FIELD] != 0
    ensures InBand(base, m', MarkFree(bs, k))
  {
    var f, r := bs[k].(free := true), MarkFree(bs, k);
    assert r == bs[..k] + [f] + bs[k + 1..];
    assert HeaderAt(base, m, bs, k) && NextAddr(base, r, k) == NextAddr(base, bs, k);
    WordKept(m, m', f.off, f.off + FREE_FIELD, f.off + FREE_FIELD + 1);
    WordKept(m, m', f.off + NEXT_FIELD, f.off + FREE_FIELD, f.off + FREE_FIELD + 1);
    HeadersAfterReplace(base, m, bs, k, [f], m', f.off + HEADER);
  }

  /** Writing into the payload of block k leaves the chain and all other payloads as they were. */
  lemma {:induction false} ChainAfterPayloadWrite(base: nat, m: seq<byte>, bs: seq<Block>, k: nat, m': seq<byte>)
    requires |m| == HEAP_SIZE && Tiles(bs, 0, HEAP_SIZE) && InBand(base, m, bs) && k < |bs|
    requires ChangedWithin(m, m', Payload(bs[k]), End(bs[k]))
    ensures InBand(base, m', bs)
    ensures Keeps(m, m', AllBlocks(bs) - {bs[k]})
  {
    forall i | 0 <= i < |bs| ensures HeaderAt(base, m', bs, i) {
      assert HeaderAt(base, m, bs, i);
      if i != k {
        TilesOrdered(bs, 0, HEAP_SIZE, if i < k then i else k, if i < k then k else i);
      }
      HeaderKept(m, m', bs[i].off, bs[i].size, bs[i].free, NextAddr(base, bs, i), Payload(bs[k]), End(bs[k]));
    }
    forall b | b in AllBlocks(bs) - {bs[k]} ensures End(b) <= |m| && Contents(m, b) == Contents(m', b) {
      LiveBlocksDisjoint(bs, b, bs[k]);
    }
  }

  ghost predicate Copied(m: seq<byte>, m': seq<byte>, from: nat, to: nat, n: nat)
    requires from + n <= |m| && to + n <= |m'|
  {
    m'[to..to + n] == m[from..from + n]
  }

  /** The header and payload of block k do not meet the payload of block k'. */
  lemma {:induction false} CopyBounds(base: nat, m: seq<byte>, bs: seq<Block>, k: nat, k': nat)
    requires |m| == HEAP_SIZE && Tiles(bs, 0, HEAP_SIZE) && InBand(base, m, bs)
    requires k < |bs| && k' < |bs| && k != k'
    ensures Payload(bs[k]) + bs[k].size <= HEAP_SIZE && Payload(bs[k']) + bs[k'].size <= HEAP_SIZE
    ensures Word(m, bs[k].off) == bs[k].size
    ensures End(bs[k']) <= bs[k].off || Payload(bs[k]) + bs[k].size <= bs[k'].off
  {
    assert HeaderAt(base, m, bs, k) && HeaderAt(base, m, bs, k');
    TilesOrdered(bs, 0, HEAP_SIZE, if k < k' then k else k', if k < k' then k' else k);
  }

  lemma {:induction false} ChainAfterCopy(base: nat, m: seq<byte>, bs: seq<Block>, k: nat, k': nat, m': seq<byte>)
    requires |m| == HEAP_SIZE && Tiles(bs, 0, HEAP_SIZE) && InBand(base, m, bs)
    requires k < |bs| && k' < |bs| && bs[k].size <= bs[k'].size
    requires Payload(bs[k]) + bs[k].size <= HEAP_SIZE && Payload(bs[k']) + bs[k'].size <= HEAP_SIZE
    requires ChangedWithin(m, m', Payload(bs[k']), Payload(bs[k']) + bs[k].size)
    requires Copied(m, m', Payload(bs[k]), Payload(bs[k']), bs[k].size)
    ensures InBand(base, m', bs)
    ensures Keeps(m, m', AllBlocks(bs) - {bs[k']})
    ensures Contents(m', bs[k'])[..bs[k].size] == Contents(m, bs[k])
  {
    ContentsPrefix(m', bs[k'], bs[k].size);
    ChainAfterPayloadWrite(base, m, bs, k', m');
  }
}
