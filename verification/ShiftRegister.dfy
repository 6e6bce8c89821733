/**
 Cyclic redundancy checks in the reflected form both checksums of the kernel use: a state is halved bit by bit, and
 the polynomial `p` is added whenever a one is dropped. Words have `width` informative bits, of which the highest
 is set in the polynomial.
 */
module ShiftRegister {
  import opened Words
  import opened Bits

  datatype Poly = Poly(p: nat, width: nat)

  predicate Good(r: Poly) {
    r.width >= 1 && Pow2(r.width - 1) <= r.p < Pow2(r.width)
  }

  predicate Small(r: Poly, x: nat) {
    x < Pow2(r.width)
  }

  function Step(r: Poly, x: nat): nat {
    if Odd(x) then Xor(Half(x), r.p) else Half(x)
  }

  function Steps(r: Poly, x: nat, n: nat): nat
    decreases n, x
  {
    if n == 0 then x else Steps(r, Step(r, x), n - 1)
  }

  /** The state after a message byte. */
  function Feed(r: Poly, s: nat, b: byte): nat {
    Steps(r, Xor(s, b), 8)
  }

  function Absorb(r: Poly, s: nat, m: seq<byte>): nat
    decreases |m|
  {
    if m == [] then s else Absorb(r, Feed(r, s, m[0]), m[1..])
  }

  /** The same, a single message bit at a time. */
  function FeedBits(r: Poly, s: nat, bits: seq<bool>): nat
    decreases |bits|
  {
    if bits == [] then s else FeedBits(r, Step(r, AddBit(s, bits[0])), bits[1..])
  }

  function AddBit(s: nat, b: bool): nat {
    Xor(s, if b then 1 else 0)
  }

  function BitsOfMessage(m: seq<byte>): (b: seq<bool>)
    ensures |b| == 8 * |m|
  {
    if m == [] then [] else BitsOf(m[0], 8) + BitsOfMessage(m[1..])
  }

  // ---------------------------------------------------------------- linearity

  lemma StepXor(r: Poly, x: nat, y: nat)
    ensures Step(r, Xor(x, y)) == Xor(Step(r, x), Step(r, y))
  {
    var hx, hy := Half(x), Half(y);
    XorUnfolds(x, y);
    XorMedial(hx, r.p, hy, r.p);
    XorSelf(r.p);
    XorAssociates(hx, hy, r.p);
    XorMedial(hx, r.p, hy, 0);
  }

  lemma {:induction false} StepsXor(r: Poly, x: nat, y: nat, n: nat)
    ensures Steps(r, Xor(x, y), n) == Xor(Steps(r, x, n), Steps(r, y, n))
    decreases n
  {
    if n > 0 {
      StepXor(r, x, y);
      StepsXor(r, Step(r, x), Step(r, y), n - 1);
    }
  }

  lemma BitXor(a: bool, b: bool)
    ensures Xor(if a then 1 else 0, if b then 1 else 0) == if a != b then 1 else 0
  {
  }

  /** The difference of two final states depends only on the differences of the first states and of the messages. */
  lemma {:induction false} FeedBitsXor(r: Poly, s: nat, t: nat, a: seq<bool>, b: seq<bool>)
    requires |a| == |b|
    ensures Xor(FeedBits(r, s, a), FeedBits(r, t, b)) == FeedBits(r, Xor(s, t), XorBits(a, b))
    decreases |a|
  {
    if a != [] {
      var s', t' := AddBit(s, a[0]), AddBit(t, b[0]);
      XorMedial(s, if a[0] then 1 else 0, t, if b[0] then 1 else 0);
      BitXor(a[0], b[0]);
      StepXor(r, s', t');
      FeedBitsXor(r, Step(r, s'), Step(r, t'), a[1..], b[1..]);
      assert XorBits(a, b)[1..] == XorBits(a[1..], b[1..]);
    }
  }

  // ---------------------------------------------------------------- bytes as bits

  /** Adding n bits at once and then stepping n times is feeding them one by one. */
  lemma {:induction false} StepsFeed(r: Poly, s: nat, v: nat, n: nat)
    requires Shift(v, n) == 0
    ensures Steps(r, Xor(s, v), n) == FeedBits(r, s, BitsOf(v, n))
    decreases n
  {
    if n > 0 {
      var b := v % 2;
      var even := v - b;
      assert Xor(even, b) == v by {
        XorUnfolds(even, b);
        Determined(Xor(even, b), v);
      }
      XorCommutes(even, b);
      XorAssociates(s, b, even);
      StepXor(r, Xor(s, b), even);
      assert Step(r, even) == Half(v);
      StepsFeed(r, Step(r, Xor(s, b)), Half(v), n - 1);
      assert BitsOf(v, n)[1..] == BitsOf(Half(v), n - 1);
    }
  }

  lemma {:induction false} FeedBitsConcat(r: Poly, s: nat, a: seq<bool>, b: seq<bool>)
    ensures FeedBits(r, s, a + b) == FeedBits(r, FeedBits(r, s, a), b)
    decreases |a|
  {
    if a == [] {
      assert a + b == b;
    } else {
      assert (a + b)[1..] == a[1..] + b;
      FeedBitsConcat(r, Step(r, AddBit(s, a[0])), a[1..], b);
    }
  }

  lemma ByteShift(b: byte)
    ensures Shift(b, 8) == 0
  {
    ShiftByte(b);
  }

  lemma {:induction false} AbsorbIsFeedBits(r: Poly, s: nat, m: seq<byte>)
    ensures Absorb(r, s, m) == FeedBits(r, s, BitsOfMessage(m))
    decreases |m|
  {
    if m != [] {
      ByteShift(m[0]);
      StepsFeed(r, s, m[0], 8);
      AbsorbIsFeedBits(r, Feed(r, s, m[0]), m[1..]);
      FeedBitsConcat(r, s, BitsOf(m[0], 8), BitsOfMessage(m[1..]));
    }
  }

  lemma {:induction false} AbsorbConcat(r: Poly, s: nat, a: seq<byte>, b: seq<byte>)
    ensures Absorb(r, s, a + b) == Absorb(r, Absorb(r, s, a), b)
    decreases |a|
  {
    if a == [] {
      assert a + b == b;
    } else {
      assert (a + b)[1..] == a[1..] + b;
      AbsorbConcat(r, Feed(r, s, a[0]), a[1..], b);
    }
  }

  // ---------------------------------------------------------------- bursts

  lemma {:induction false} FeedSmall(r: Poly, s: nat, bits: seq<bool>)
    requires Good(r) && Small(r, s)
    ensures Small(r, FeedBits(r, s, bits))
    decreases |bits|
  {
    if bits != [] {
      StepSmall(r, s, bits[0]);
      FeedSmall(r, Step(r, AddBit(s, bits[0])), bits[1..]);
    }
  }

  lemma StepSmall(r: Poly, s: nat, b: bool)
    requires Good(r) && Small(r, s)
    ensures Small(r, AddBit(s, b)) && Small(r, Step(r, AddBit(s, b)))
  {
    assert 1 < Pow2(r.width);
    XorBound(s, if b then 1 else 0, r.width);
    XorBound(Half(AddBit(s, b)), r.p, r.width);
  }

  /** Among small words, an odd one steps to one with the highest bit set, because the polynomial has that bit. */
  lemma OddStepsHigh(r: Poly, x: nat)
    requires Good(r) && Small(r, x) && Odd(x)
    ensures Step(r, x) >= Pow2(r.width - 1)
  {
    var h, n := Half(x), r.width - 1;
    if Step(r, x) < Pow2(n) {
      XorBound(Step(r, x), h, n);
      XorCommutes(h, r.p);
      XorTwice(r.p, h);
      assert false;
    }
  }

  /** From a small state, at most `width` bits lead to zero only if they are the bits of that state. */
  lemma {:induction false} BurstToZero(r: Poly, d: nat, bits: seq<bool>)
    requires Good(r) && Small(r, d) && |bits| <= r.width && FeedBits(r, d, bits) == 0
    ensures Shift(d, |bits|) == 0 && BitsOf(d, |bits|) == bits
    decreases |bits|
  {
    if bits != [] {
      var x := AddBit(d, bits[0]);
      var d' := Step(r, x);
      StepSmall(r, d, bits[0]);
      XorUnfolds(d, if bits[0] then 1 else 0);
      BurstToZero(r, d', bits[1..]);
      ShortIsLow(d', |bits| - 1, r.width - 1);
      if Odd(x) {
        OddStepsHigh(r, x);
      }
    }
  }

  lemma ShortIsLow(x: nat, n: nat, k: nat)
    requires n <= k && Shift(x, n) == 0
    ensures x < Pow2(k)
  {
    ShiftAdds(x, n, k - n);
    ShiftZero(k - n);
    ShiftBound(x, k);
  }

  /** The converse: the bits of a state lead to what is left of it, and nothing else. */
  lemma {:induction false} OwnBitsVanish(r: Poly, d: nat, n: nat)
    ensures FeedBits(r, d, BitsOf(d, n)) == Shift(d, n)
    decreases n
  {
    if n > 0 {
      XorUnfolds(d, if Odd(d) then 1 else 0);
      assert Step(r, AddBit(d, Odd(d))) == Half(d);
      OwnBitsVanish(r, Half(d), n - 1);
      assert BitsOf(d, n)[1..] == BitsOf(Half(d), n - 1);
    }
  }

  predicate AllFalse(bits: seq<bool>) {
    forall i :: 0 <= i < |bits| ==> !bits[i]
  }

  lemma {:induction false} ZerosFromSmall(r: Poly, d: nat, bits: seq<bool>)
    requires Good(r) && AllFalse(bits)
    ensures FeedBits(r, 0, bits) == 0
    ensures Small(r, d) && FeedBits(r, d, bits) == 0 ==> d == 0
    decreases |bits|
  {
    if bits != [] {
      assert AddBit(d, bits[0]) == d;
      ZerosFromSmall(r, Step(r, d), bits[1..]);
      if Small(r, d) {
        StepSmall(r, d, bits[0]);
        if Odd(d) {
          OddStepsHigh(r, d);
        }
      }
    }
  }

  /** The bit pattern of the polynomial, preceded by the one that makes a step add it. */
  function PolyPattern(r: Poly): seq<bool> {
    [true] + BitsOf(r.p, r.width)
  }

  /**
   Which differences confined to a burst are invisible: none up to `width` bits, and with one bit more, one pattern.
   */
  lemma BurstDifference(r: Poly, d: seq<bool>)
    requires Good(r) && |d| <= r.width + 1
    ensures |d| <= r.width ==> (FeedBits(r, 0, d) == 0 <==> AllFalse(d))
    ensures |d| == r.width + 1 ==> (FeedBits(r, 0, d) == 0 <==> AllFalse(d) || d == PolyPattern(r))
  {
    if AllFalse(d) {
      ZerosFromSmall(r, 0, d);
    } else if |d| <= r.width {
      if FeedBits(r, 0, d) == 0 {
        BurstToZero(r, 0, d);
        ShiftZero(|d|);
      }
    } else {
      LongBurst(r, d);
    }
  }

  lemma LongBurst(r: Poly, d: seq<bool>)
    requires Good(r) && |d| == r.width + 1 && !AllFalse(d)
    ensures FeedBits(r, 0, d) == 0 <==> d == PolyPattern(r)
  {
    var first := Step(r, AddBit(0, d[0]));
    assert first == if d[0] then r.p else 0;
    assert d == [d[0]] + d[1..];
    ShiftZero(r.width);
    ShiftBound(r.p, r.width);
    if FeedBits(r, first, d[1..]) == 0 {
      BurstToZero(r, first, d[1..]);
    }
    OwnBitsVanish(r, first, r.width);
  }

  lemma SameTail(r: Poly, u: nat, u': nat, post: seq<bool>, d: seq<bool>)
    requires Good(r) && Xor(u, u') == FeedBits(r, 0, d)
    ensures FeedBits(r, u, post) == FeedBits(r, u', post) <==> FeedBits(r, 0, d) == 0
  {
    FeedBitsXor(r, u, u', post, post);
    assert AllFalse(XorBits(post, post));
    FeedSmall(r, 0, d);
    ZerosFromSmall(r, Xor(u, u'), XorBits(post, post));
    XorIsZero(FeedBits(r, u, post), FeedBits(r, u', post));
    XorSelf(FeedBits(r, u, post));
  }

  /**
   Two bit messages that differ only inside a window of at most `width` bits never give the same check; in a window
   of width + 1 bits they do exactly when their difference is the polynomial's pattern.
   */
  lemma BurstDetected(r: Poly, s: nat, pre: seq<bool>, w: seq<bool>, w': seq<bool>, post: seq<bool>)
    requires Good(r) && |w| == |w'| <= r.width + 1
    ensures |w| <= r.width ==> (FeedBits(r, s, pre + w + post) == FeedBits(r, s, pre + w' + post) <==> w == w')
    ensures |w| == r.width + 1 ==>
              (FeedBits(r, s, pre + w + post) == FeedBits(r, s, pre + w' + post) <==>
               w == w' || XorBits(w, w') == PolyPattern(r))
  {
    var s1 := FeedBits(r, s, pre);
    var u, u', d := FeedBits(r, s1, w), FeedBits(r, s1, w'), XorBits(w, w');
    FeedBitsConcat(r, s, pre + w, post);
    FeedBitsConcat(r, s, pre, w);
    FeedBitsConcat(r, s, pre + w', post);
    FeedBitsConcat(r, s, pre, w');
    XorSelf(s1);
    FeedBitsXor(r, s1, s1, w, w');
    SameTail(r, u, u', post, d);
    BurstDifference(r, d);
    if AllFalse(d) {
      forall i | 0 <= i < |w| ensures w[i] == w'[i] {
        assert !d[i];
      }
      assert w == w';
    }
  }

  // ---------------------------------------------------------------- byte messages

  lemma {:induction false} MessageBitsConcat(a: seq<byte>, b: seq<byte>)
    ensures BitsOfMessage(a + b) == BitsOfMessage(a) + BitsOfMessage(b)
    decreases |a|
  {
    if a == [] {
      assert a + b == b;
    } else {
      assert (a + b)[1..] == a[1..] + b;
      MessageBitsConcat(a[1..], b);
    }
  }

  lemma {:induction false} MessageBitsDetermine(a: seq<byte>, b: seq<byte>)
    requires |a| == |b| && BitsOfMessage(a) == BitsOfMessage(b)
    ensures a == b
    decreases |a|
  {
    if a != [] {
      var bits, bits' := BitsOfMessage(a), BitsOfMessage(b);
      assert bits[..8] == BitsOf(a[0], 8) && bits[8..] == BitsOfMessage(a[1..]);
      assert bits'[..8] == BitsOf(b[0], 8) && bits'[8..] == BitsOfMessage(b[1..]);
      ByteShift(a[0]);
      ByteShift(b[0]);
      BitsDetermine(a[0], b[0], 8);
      MessageBitsDetermine(a[1..], b[1..]);
      assert a == [a[0]] + a[1..] && b == [b[0]] + b[1..];
    }
  }

  /**
   Byte messages that differ only inside a window of at most width / 8 bytes never lead to the same state; in a window
   of (width + 1) / 8 bytes they do exactly when their difference is the polynomial's pattern.
   */
  lemma WindowDetected(r: Poly, s: nat, pre: seq<byte>, w: seq<byte>, w': seq<byte>, post: seq<byte>)
    requires Good(r) && |w| == |w'| && 8 * |w| <= r.width + 1
    ensures 8 * |w| <= r.width ==> (Absorb(r, s, pre + w + post) == Absorb(r, s, pre + w' + post) <==> w == w')
    ensures 8 * |w| == r.width + 1 ==>
              (Absorb(r, s, pre + w + post) == Absorb(r, s, pre + w' + post) <==>
               w == w' || XorBits(BitsOfMessage(w), BitsOfMessage(w')) == PolyPattern(r))
  {
    var b, b' := BitsOfMessage(w), BitsOfMessage(w');
    AbsorbIsFeedBits(r, s, pre + w + post);
    AbsorbIsFeedBits(r, s, pre + w' + post);
    MessageBitsConcat(pre + w, post);
    MessageBitsConcat(pre, w);
    MessageBitsConcat(pre + w', post);
    MessageBitsConcat(pre, w');
    BurstDetected(r, s, BitsOfMessage(pre), b, b', BitsOfMessage(post));
    if b == b' {
      MessageBitsDetermine(w, w');
    }
  }

  // ---------------------------------------------------------------- the table form

  /** A word whose n lowest bits are clear is only shifted by n steps. */
  lemma {:induction false} StepsShift(r: Poly, x: nat, n: nat)
    requires AllFalse(BitsOf(x, n))
    ensures Steps(r, x, n) == Shift(x, n)
    decreases n
  {
    if n > 0 {
      assert !BitsOf(x, n)[0];
      var rest := BitsOf(Half(x), n - 1);
      forall i | 0 <= i < |rest| ensures !rest[i] {
        assert BitsOf(x, n)[i + 1] == rest[i];
      }
      StepsShift(r, Half(x), n - 1);
    }
  }

  /** A byte step is a shift by a byte and the addition of a table entry, chosen by the byte shifted out. */
  lemma TableStep(r: Poly, x: nat, lo: byte)
    requires BitsOf(lo, 8) == BitsOf(x, 8)
    ensures Steps(r, x, 8) == Xor(Shift(x, 8), Steps(r, lo, 8))
  {
    var hi := Xor(x, lo);
    ByteShift(lo);
    XorTwice(x, lo);
    BitsOfXor(x, lo, 8);
    StepsShift(r, hi, 8);
    StepsXor(r, hi, lo, 8);
  }

  // ---------------------------------------------------------------- words in messages

  lemma {:induction false} BitsOfBytes(x: nat, n: nat)
    ensures BitsOfMessage(Bytes(x, n)) == BitsOf(x, 8 * n)
    decreases n
  {
    if n > 0 {
      var m := Bytes(x, n);
      assert m[0] == x % 256 && m[1..] == Bytes(x / 256, n - 1);
      BitsOfBytes(x / 256, n - 1);
      LowByteBits(x);
      ShiftByte(x);
      BitsOfConcat(x, 8, 8 * (n - 1));
    }
  }

  lemma BytesDetermine(x: nat, y: nat, n: nat)
    requires x < Pow2(8 * n) && y < Pow2(8 * n) && Bytes(x, n) == Bytes(y, n)
    ensures x == y
  {
    BitsOfBytes(x, n);
    BitsOfBytes(y, n);
    ShiftBound(x, 8 * n);
    ShiftBound(y, 8 * n);
    BitsDetermine(x, y, 8 * n);
  }

  /** Absorbing the bytes of a word is adding the word and stepping once for each of its bits. */
  lemma AbsorbWord(r: Poly, s: nat, x: nat, n: nat)
    requires x < Pow2(8 * n)
    ensures Absorb(r, s, Bytes(x, n)) == Steps(r, Xor(s, x), 8 * n)
  {
    AbsorbIsFeedBits(r, s, Bytes(x, n));
    BitsOfBytes(x, n);
    ShiftBound(x, 8 * n);
    StepsFeed(r, s, x, 8 * n);
  }

  /** Absorbing a state's own bytes leads to the all-clear residue, whatever the message was. */
  lemma OwnWordResidue(r: Poly, s: nat, mask: nat, n: nat)
    requires Xor(s, mask) < Pow2(8 * n)
    ensures Absorb(r, s, Bytes(Xor(s, mask), n)) == Steps(r, mask, 8 * n)
  {
    AbsorbWord(r, s, Xor(s, mask), n);
    XorAssociates(s, s, mask);
    XorSelf(s);
  }

  /** The pattern that a window of (width + 1) / 8 bytes must change by to go unnoticed: the number 2p + 1. */
  function PatternBytes(r: Poly, n: nat): seq<byte> {
    Bytes(2 * r.p + 1, n)
  }

  lemma PatternIsWord(r: Poly, n: nat)
    requires 8 * n == r.width + 1
    ensures BitsOfMessage(PatternBytes(r, n)) == PolyPattern(r)
  {
    var x, k := 2 * r.p + 1, 8 * n;
    BitsOfBytes(x, n);
    assert Half(x) == r.p && Odd(x);
    assert BitsOf(x, k) == [Odd(x)] + BitsOf(Half(x), k - 1);
  }

  lemma PatternIsNotZero(r: Poly, n: nat)
    requires n > 0
    ensures PatternBytes(r, n)[0] != 0
  {
    assert (2 * r.p + 1) % 256 % 2 == 1;
  }

  lemma XorBitsZero(zeros: seq<bool>, b: seq<bool>)
    requires |zeros| == |b| && AllFalse(zeros)
    ensures XorBits(zeros, b) == b
  {
  }

  lemma {:induction false} ZeroMessageBits(z: seq<byte>)
    requires forall i :: 0 <= i < |z| ==> z[i] == 0
    ensures AllFalse(BitsOfMessage(z))
  {
    if z != [] {
      ShiftZero(8);
      ZeroMessageBits(z[1..]);
    }
  }
}
