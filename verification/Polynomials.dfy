/**
 Polynomials with coefficients 0 and 1, their division with remainder, and what a shift register computes in these
 terms. A polynomial is the list of its coefficients, highest power first.
 */
module Polynomials {
  import opened Words
  import opened Bits
  import opened ShiftRegister

  /** Adds `a` to the highest powers of `m`. */
  function AddFront(m: seq<bool>, a: seq<bool>): (r: seq<bool>)
    requires |a| <= |m|
    ensures |r| == |m|
  {
    seq(|m|, i requires 0 <= i < |m| => if i < |a| then m[i] != a[i] else m[i])
  }

  /**
   The remainder of m modulo g, by long division: as long as m is as long as g, its highest power is taken away, by
   subtracting g if that power is there.
   */
  function Remainder(m: seq<bool>, g: seq<bool>): (r: seq<bool>)
    requires g != []
    ensures |r| < |g|
    decreases |m|
  {
    if |m| < |g| then m else Remainder((if m[0] then AddFront(m, g) else m)[1..], g)
  }

  function Zeros(n: nat): seq<bool> {
    seq(n, _ => false)
  }

  function Ones(n: nat): seq<bool> {
    seq(n, _ => true)
  }

  function Not(bits: seq<bool>): seq<bool> {
    seq(|bits|, i requires 0 <= i < |bits| => !bits[i])
  }

  /** The polynomial of degree n whose powers are those in the list. */
  function WithPowers(n: nat, powers: seq<nat>): (g: seq<bool>)
    ensures |g| == n + 1
  {
    seq(n + 1, i requires 0 <= i < n + 1 => n - i in powers)
  }

  /** The remainder of m * x^n modulo g, where the n highest powers have been complemented. */
  function CrcRemainder(m: seq<bool>, g: seq<bool>): seq<bool>
    requires g != []
  {
    var n := |g| - 1;
    Remainder(AddFront(m + Zeros(n), Ones(n)), g)
  }

  /** Four coefficients, written as a hexadecimal digit. */
  function DigitBits(d: nat): seq<bool> {
    [d / 8 % 2 == 1, d / 4 % 2 == 1, d / 2 % 2 == 1, d % 2 == 1]
  }

  /** Coefficients written as hexadecimal digits, highest power first. */
  function HexBits(digits: seq<nat>): seq<bool> {
    if digits == [] then [] else DigitBits(digits[0]) + HexBits(digits[1..])
  }

  // ---------------------------------------------------------------- the register divides

  lemma TopBitClear(s: nat, n: nat)
    requires s < Pow2(n)
    ensures BitsOf(s, n + 1) == BitsOf(s, n) + [false]
  {
    BitsOfConcat(s, n, 1);
    ShiftBound(s, n);
    FirstBit(0, 0, false, 0);
  }

  lemma HalfBits(s: nat, w: nat)
    requires w > 0 && s < Pow2(w)
    ensures BitsOf(s, w)[0] == Odd(s)
    ensures BitsOf(Half(s), w) == BitsOf(s, w)[1..] + [false]
  {
    FirstBit(s, Half(s), Odd(s), w - 1);
    TopBitClear(Half(s), w - 1);
  }

  lemma StepFits(r: Poly, w: nat, s: nat, b: bool)
    requires w > 0 && r.p < Pow2(w) && s < Pow2(w)
    ensures AddBit(s, b) < Pow2(w) && Step(r, AddBit(s, b)) < Pow2(w)
  {
    assert 1 < Pow2(w);
    XorBound(s, if b then 1 else 0, w);
    XorBound(Half(AddBit(s, b)), r.p, w);
  }

  /** The bits of the state after one message bit. */
  lemma StepBits(r: Poly, w: nat, s: nat, b: bool)
    requires w > 0 && r.p < Pow2(w) && s < Pow2(w)
    ensures var bits := BitsOf(s, w);
            var next := bits[1..] + [false];
            BitsOf(Step(r, AddBit(s, b)), w) == if bits[0] != b then XorBits(next, BitsOf(r.p, w)) else next
  {
    var x := AddBit(s, b);
    StepFits(r, w, s, b);
    HalfBits(s, w);
    HalfBits(x, w);
    XorUnfolds(s, if b then 1 else 0);
    assert Half(x) == Half(s);
    BitsOfXor(Half(x), r.p, w);
  }

  /** One step of the division: the state stands for what is added to the highest powers of the rest of the message. */
  lemma DivideOnce(r: Poly, w: nat, s: nat, bits: seq<bool>, g: seq<bool>)
    requires w > 0 && r.p < Pow2(w) && s < Pow2(w)
    requires bits != [] && g == [true] + BitsOf(r.p, w)
    ensures var d, d' := AddFront(bits + Zeros(w), BitsOf(s, w)),
                         AddFront(bits[1..] + Zeros(w), BitsOf(Step(r, AddBit(s, bits[0])), w));
            (if d[0] then AddFront(d, g) else d)[1..] == d'
  {
    StepBits(r, w, s, bits[0]);
    RestOfDividend(bits, BitsOf(s, w), BitsOf(r.p, w));
  }

  lemma RestOfDividend(bits: seq<bool>, a: seq<bool>, p: seq<bool>)
    requires bits != [] && |a| == |p| > 0
    ensures var d, z := AddFront(bits + Zeros(|a|), a), bits[1..] + Zeros(|a|);
            var next := a[1..] + [false];
            && d[0] == (bits[0] != a[0]) && d[1..] == AddFront(z, next)
            && AddFront(d, [true] + p)[1..] == AddFront(z, XorBits(next, p))
  {
    var m := bits + Zeros(|a|);
    assert m[1..] == bits[1..] + Zeros(|a|);
  }

  /** Feeding bits to the register is dividing: the final state is the remainder. */
  lemma {:induction false} FeedBitsDivides(r: Poly, w: nat, s: nat, bits: seq<bool>, g: seq<bool>)
    requires w > 0 && r.p < Pow2(w) && s < Pow2(w)
    requires g == [true] + BitsOf(r.p, w)
    ensures BitsOf(FeedBits(r, s, bits), w) == Remainder(AddFront(bits + Zeros(w), BitsOf(s, w)), g)
    decreases |bits|
  {
    if bits == [] {
      assert AddFront([] + Zeros(w), BitsOf(s, w)) == BitsOf(s, w);
    } else {
      StepFits(r, w, s, bits[0]);
      DivideOnce(r, w, s, bits, g);
      FeedBitsDivides(r, w, Step(r, AddBit(s, bits[0])), bits[1..], g);
    }
  }

  lemma {:induction false} AllOnes(n: nat)
    ensures BitsOf(Pow2(n) - 1, n) == Ones(n)
    decreases n
  {
    if n > 0 {
      AllOnes(n - 1);
      assert Half(Pow2(n) - 1) == Pow2(n - 1) - 1;
    }
  }

  /**
   From the state of all ones, the register computes the remainder of the message's bits, lowest first in each byte.
   */
  lemma AbsorbDivides(r: Poly, w: nat, ones: nat, m: seq<byte>, g: seq<bool>)
    requires w > 0 && r.p < Pow2(w) && ones == Pow2(w) - 1
    requires g == [true] + BitsOf(r.p, w)
    ensures BitsOf(Absorb(r, ones, m), w) == CrcRemainder(BitsOfMessage(m), g)
  {
    var bits := BitsOfMessage(m);
    assert BitsOf(Absorb(r, ones, m), w) == BitsOf(FeedBits(r, ones, bits), w) by {
      AbsorbIsFeedBits(r, ones, m);
    }
    FeedBitsDivides(r, w, ones, bits, g);
    assert BitsOf(ones, w) == Ones(w) by {
      AllOnes(w);
    }
  }

  // ---------------------------------------------------------------- the coefficients of a word

  /** The number with these hexadecimal digits, lowest first. */
  function FromDigits(digits: seq<nat>): nat {
    if digits == [] then 0 else digits[0] + 16 * FromDigits(digits[1..])
  }

  lemma FourDigits(digits: seq<nat>)
    requires |digits| >= 4
    ensures FromDigits(digits) ==
            digits[0] + 0x10 * digits[1] + 0x100 * digits[2] + 0x1000 * digits[3] + 0x1_0000 * FromDigits(digits[4..])
  {
    assert digits[1..][1..] == digits[2..] && digits[2..][1..] == digits[3..] && digits[3..][1..] == digits[4..];
    assert FromDigits(digits[2..]) == digits[2] + 16 * FromDigits(digits[3..]);
  }

  /** A hexadecimal digit with its bits read backwards. */
  function Mirror(d: nat): nat {
    8 * (d % 2) + 4 * (d / 2 % 2) + 2 * (d / 4 % 2) + d / 8 % 2
  }

  lemma MirrorBits(d: nat)
    requires d < 16
    ensures DigitBits(Mirror(d)) == [Odd(d), Odd(d / 2), Odd(d / 4), Odd(d / 8)]
  {
  }

  lemma DigitHalves(d: nat, y: nat)
    requires d < 16
    ensures Odd(d + 16 * y) == Odd(d) && Half(d + 16 * y) == 8 * y + d / 2
    ensures Odd(8 * y + d / 2) == Odd(d / 2) && Half(8 * y + d / 2) == 4 * y + d / 4
    ensures Odd(4 * y + d / 4) == Odd(d / 4) && Half(4 * y + d / 4) == 2 * y + d / 8
    ensures Odd(2 * y + d / 8) == Odd(d / 8) && Half(2 * y + d / 8) == y
  {
    HalfOfSum(d, 8 * y);
    HalfOfSum(d / 2, 4 * y);
    HalfOfSum(d / 4, 2 * y);
    HalfOfSum(d / 8, y);
  }

  /** A word, given by its lowest bit and its half. */
  lemma FirstBit(x: nat, h: nat, bit: bool, n: nat)
    requires Half(x) == h && Odd(x) == bit
    ensures BitsOf(x, n + 1) == [bit] + BitsOf(h, n)
  {
  }

  lemma FourthBit(a: bool, b: bool, c: bool, d: bool, rest: seq<bool>)
    ensures [a] + ([b] + ([c] + ([d] + rest))) == [a, b, c, d] + rest
  {
  }

  lemma LowDigit(d: nat, y: nat, n: nat)
    requires d < 16
    ensures BitsOf(d + 16 * y, n + 4) == DigitBits(Mirror(d)) + BitsOf(y, n)
  {
    DigitHalves(d, y);
    MirrorBits(d);
    FirstBit(d + 16 * y, 8 * y + d / 2, Odd(d), n + 3);
    FirstBit(8 * y + d / 2, 4 * y + d / 4, Odd(d / 2), n + 2);
    FirstBit(4 * y + d / 4, 2 * y + d / 8, Odd(d / 4), n + 1);
    FirstBit(2 * y + d / 8, y, Odd(d / 8), n);
    FourthBit(Odd(d), Odd(d / 2), Odd(d / 4), Odd(d / 8), BitsOf(y, n));
  }

  lemma {:induction false} MirroredBits(digits: seq<nat>, mirrored: seq<nat>, n: nat)
    requires |mirrored| == |digits| && n == 4 * |digits|
    requires forall i :: 0 <= i < |digits| ==> digits[i] < 16 && mirrored[i] == Mirror(digits[i])
    ensures BitsOf(FromDigits(digits), n) == HexBits(mirrored)
    decreases |digits|
  {
    if digits != [] {
      var d, y := digits[0], FromDigits(digits[1..]);
      assert BitsOf(d + 16 * y, n) == DigitBits(mirrored[0]) + BitsOf(y, n - 4) by {
        LowDigit(d, y, n - 4);
      }
      MirroredBits(digits[1..], mirrored[1..], n - 4);
    }
  }
}
