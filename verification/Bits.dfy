/** Machine words as natural numbers: exclusive or, and the bits of a number. */
module Bits {
  import opened Words

  predicate Odd(x: nat) {
    x % 2 == 1
  }

  function Half(x: nat): nat {
    x / 2
  }

  /** Bitwise exclusive or. */
  function Xor(x: nat, y: nat): nat {
    if x == 0 then y else if y == 0 then x
    else 2 * Xor(x / 2, y / 2) + if Odd(x) == Odd(y) then 0 else 1
  }

  /** x shifted right by n bits. */
  function Shift(x: nat, n: nat): nat
    decreases n, x
  {
    if n == 0 then x else Shift(Half(x), n - 1)
  }

  /** The n lowest bits, lowest first. */
  function BitsOf(x: nat, n: nat): (b: seq<bool>)
    ensures |b| == n
    decreases n, x
  {
    if n == 0 then [] else [Odd(x)] + BitsOf(Half(x), n - 1)
  }

  function Pow2(n: nat): nat
    ensures Pow2(n) > 0
  {
    if n == 0 then 1 else 2 * Pow2(n - 1)
  }

  lemma XorUnfolds(x: nat, y: nat)
    ensures Odd(Xor(x, y)) == (Odd(x) != Odd(y))
    ensures Half(Xor(x, y)) == Xor(Half(x), Half(y))
  {
  }

  lemma {:induction false} XorSelf(x: nat)
    ensures Xor(x, x) == 0
  {
    if x > 0 {
      XorSelf(x / 2);
    }
  }

  lemma {:induction false} XorIsZero(x: nat, y: nat)
    ensures Xor(x, y) == 0 ==> x == y
  {
    if x > 0 && y > 0 {
      XorIsZero(x / 2, y / 2);
    }
  }

  lemma {:induction false} XorCommutes(x: nat, y: nat)
    ensures Xor(x, y) == Xor(y, x)
  {
    if x > 0 && y > 0 {
      XorCommutes(x / 2, y / 2);
    }
  }

  lemma Determined(x: nat, y: nat)
    requires Odd(x) == Odd(y) && Half(x) == Half(y)
    ensures x == y
  {
  }

  lemma {:induction false} XorAssociates(x: nat, y: nat, z: nat)
    ensures Xor(Xor(x, y), z) == Xor(x, Xor(y, z))
    decreases x + y + z
  {
    if x > 0 && y > 0 && z > 0 {
      XorUnfolds(x, y);
      XorUnfolds(y, z);
      XorUnfolds(Xor(x, y), z);
      XorUnfolds(x, Xor(y, z));
      XorAssociates(x / 2, y / 2, z / 2);
      Determined(Xor(Xor(x, y), z), Xor(x, Xor(y, z)));
    }
  }

  lemma XorMedial(a: nat, b: nat, c: nat, d: nat)
    ensures Xor(Xor(a, b), Xor(c, d)) == Xor(Xor(a, c), Xor(b, d))
  {
    XorAssociates(a, b, Xor(c, d));
    XorAssociates(b, c, d);
    XorCommutes(b, c);
    XorAssociates(c, b, d);
    XorAssociates(a, c, Xor(b, d));
  }

  /** Adding a word twice takes it away again. */
  lemma XorTwice(x: nat, y: nat)
    ensures Xor(Xor(x, y), y) == x
  {
    XorAssociates(x, y, y);
    XorSelf(y);
  }

  lemma {:induction false} XorBound(x: nat, y: nat, n: nat)
    requires x < Pow2(n) && y < Pow2(n)
    ensures Xor(x, y) < Pow2(n)
    decreases n
  {
    if n > 0 {
      XorBound(x / 2, y / 2, n - 1);
    }
  }

  lemma {:induction false} ShiftBound(x: nat, n: nat)
    ensures Shift(x, n) == 0 <==> x < Pow2(n)
    decreases n
  {
    if n > 0 {
      ShiftBound(x / 2, n - 1);
    }
  }

  /** Shifting by a byte is dividing by 256. */
  lemma ShiftByte(x: nat)
    ensures Shift(x, 8) == x / 256
  {
    var x3 := x / 2 / 2 / 2;
    var x6 := x3 / 2 / 2 / 2;
    assert Shift(x, 8) == Shift(x / 2, 7) == Shift(x / 2 / 2, 6) == Shift(x3, 5);
    assert Shift(x3, 5) == Shift(x3 / 2, 4) == Shift(x3 / 2 / 2, 3) == Shift(x6, 2);
    assert Shift(x6, 2) == Shift(x6 / 2, 1) == x6 / 2 / 2;
    assert x3 == x / 8 && x6 == x3 / 8;
  }

  lemma {:induction false} BitsDetermine(x: nat, y: nat, n: nat)
    requires BitsOf(x, n) == BitsOf(y, n) && Shift(x, n) == Shift(y, n)
    ensures x == y
    decreases n
  {
    if n > 0 {
      assert BitsOf(x, n)[0] == BitsOf(y, n)[0];
      assert BitsOf(x, n)[1..] == BitsOf(Half(x), n - 1);
      assert BitsOf(y, n)[1..] == BitsOf(Half(y), n - 1);
      BitsDetermine(Half(x), Half(y), n - 1);
    }
  }

  function XorBits(a: seq<bool>, b: seq<bool>): seq<bool>
    requires |a| == |b|
  {
    seq(|a|, i requires 0 <= i < |a| => a[i] != b[i])
  }

  lemma {:induction false} BitsOfXor(x: nat, y: nat, n: nat)
    ensures BitsOf(Xor(x, y), n) == XorBits(BitsOf(x, n), BitsOf(y, n))
    ensures Shift(Xor(x, y), n) == Xor(Shift(x, n), Shift(y, n))
    decreases n
  {
    if n > 0 {
      XorUnfolds(x, y);
      BitsOfXor(Half(x), Half(y), n - 1);
    }
  }

  lemma {:induction false} ShiftAdds(x: nat, a: nat, b: nat)
    ensures Shift(x, a + b) == Shift(Shift(x, a), b)
    decreases a
  {
    if a > 0 {
      ShiftAdds(Half(x), a - 1, b);
    }
  }

  lemma {:induction false} ShiftZero(n: nat)
    ensures Shift(0, n) == 0
    ensures forall i :: 0 <= i < n ==> !BitsOf(0, n)[i]
    decreases n
  {
    if n > 0 {
      ShiftZero(n - 1);
    }
  }

  lemma Pow2Nibble(n: nat)
    ensures Pow2(n + 4) == 16 * Pow2(n)
  {
    assert Pow2(n + 4) == 2 * Pow2(n + 3) && Pow2(n + 3) == 2 * Pow2(n + 2);
    assert Pow2(n + 2) == 2 * Pow2(n + 1);
  }

  lemma Pow2Values()
    ensures Pow2(8) == 0x100 && Pow2(15) == 0x8000 && Pow2(16) == 0x1_0000
    ensures Pow2(32) == 0x1_0000_0000
    ensures Pow2(62) == 0x4000_0000_0000_0000
    ensures Pow2(63) == 0x8000_0000_0000_0000
    ensures Pow2(64) == 0x1_0000_0000_0000_0000
  {
    assert Pow2(0) == 1;
    Pow2Nibble(0);
    Pow2Nibble(4);
    Pow2Nibble(8);
    Pow2Nibble(12);
    Pow2Nibble(16);
    Pow2Nibble(20);
    Pow2Nibble(24);
    Pow2Nibble(28);
    Pow2Nibble(32);
    Pow2Nibble(36);
    Pow2Nibble(40);
    Pow2Nibble(44);
    Pow2Nibble(48);
    Pow2Nibble(52);
    Pow2Nibble(56);
    Pow2Nibble(60);
    assert Pow2(16) == 2 * Pow2(15);
    assert Pow2(64) == 2 * Pow2(63) && Pow2(63) == 2 * Pow2(62);
  }

  /** The n bytes of a number, least significant first. */
  function Bytes(x: nat, n: nat): (m: seq<byte>)
    ensures |m| == n
    decreases n, x
  {
    if n == 0 then [] else [x % 256] + Bytes(x / 256, n - 1)
  }

  lemma {:induction false} BitsOfConcat(x: nat, a: nat, b: nat)
    ensures BitsOf(x, a + b) == BitsOf(x, a) + BitsOf(Shift(x, a), b)
    decreases a
  {
    if a > 0 {
      BitsOfConcat(Half(x), a - 1, b);
    }
  }

  /** A multiple of 2^n does not show in the n lowest bits. */
  lemma DoubleTimes(p: nat, q: nat)
    ensures (2 * p) * q == 2 * (p * q)
  {
  }

  lemma {:induction false} HighPartHidden(x: nat, q: nat, n: nat)
    ensures BitsOf(x + Pow2(n) * q, n) == BitsOf(x, n)
    decreases n
  {
    if n > 0 {
      var y := Pow2(n - 1) * q;
      DoubleTimes(Pow2(n - 1), q);
      HalfOfSum(x, y);
      HighPartHidden(Half(x), q, n - 1);
    }
  }

  lemma HalfOfSum(x: nat, y: nat)
    ensures Half(x + 2 * y) == Half(x) + y && Odd(x + 2 * y) == Odd(x)
  {
  }

  lemma LowByteBits(x: nat)
    ensures BitsOf(x % 256, 8) == BitsOf(x, 8)
  {
    Pow2Values();
    HighPartHidden(x % 256, x / 256, 8);
  }
}
