/** The checksum of kernel/core/audit.c, and what it detects. */
module AuditCrc {
  import opened Words
  import opened Bits
  import opened ShiftRegister
  import opened Polynomials

  /** The polynomial has bit 62 as its highest: after any step, bit 63 of the state is clear. */
  const P64 := Poly(0x42F0_E1EB_A9EA_3693, 63)
  const ONES := 0xFFFF_FFFF_FFFF_FFFF

  function Crc(m: seq<byte>): nat {
    Xor(Absorb(P64, ONES, m), ONES)
  }

  lemma P64IsGood()
    ensures Good(P64)
  {
    Pow2Values();
  }

  lemma {:induction false} StepsFit(x: nat, n: nat)
    requires x < TWO_64
    ensures Steps(P64, x, n) < TWO_64
    decreases n
  {
    if n > 0 {
      Pow2Values();
      XorBound(Half(x), P64.p, 63);
      StepsFit(Step(P64, x), n - 1);
    }
  }

  lemma {:induction false} AbsorbFits(s: nat, m: seq<byte>)
    requires s < TWO_64
    ensures Absorb(P64, s, m) < TWO_64
    decreases |m|
  {
    if m != [] {
      Pow2Values();
      XorBound(s, m[0], 64);
      StepsFit(Xor(s, m[0]), 8);
      AbsorbFits(Feed(P64, s, m[0]), m[1..]);
    }
  }

  lemma CrcFits(m: seq<byte>)
    ensures Crc(m) < TWO_64
  {
    AbsorbFits(ONES, m);
    Pow2Values();
    XorBound(Absorb(P64, ONES, m), ONES, 64);
  }

  // ---------------------------------------------------------------- what it computes

  /** The divisor: x^64 and the coefficients of the lower powers in hexadecimal digits, highest first. */
  function Divisor(): seq<bool> {
    [true] + HexBits([0xC, 9, 6, 0xC, 5, 7, 9, 5, 0xD, 7, 8, 7, 0, 0xF, 4, 2])
  }

  lemma P64Digits(digits: seq<nat>)
    requires digits == [3, 9, 6, 3, 0xA, 0xE, 9, 0xA, 0xB, 0xE, 1, 0xE, 0, 0xF, 2, 4]
    ensures FromDigits(digits) == 0x42F0_E1EB_A9EA_3693
  {
    FourDigits(digits);
    FourDigits(digits[4..]);
    FourDigits(digits[8..]);
    FourDigits(digits[12..]);
    assert digits[4..][4..] == digits[8..] && digits[8..][4..] == digits[12..] && digits[12..][4..] == [];
  }

  lemma P64Mirrored(digits: seq<nat>, mirrored: seq<nat>)
    requires digits == [3, 9, 6, 3, 0xA, 0xE, 9, 0xA, 0xB, 0xE, 1, 0xE, 0, 0xF, 2, 4]
    requires mirrored == [0xC, 9, 6, 0xC, 5, 7, 9, 5, 0xD, 7, 8, 7, 0, 0xF, 4, 2]
    ensures forall i :: 0 <= i < |digits| ==> digits[i] < 16 && mirrored[i] == Mirror(digits[i])
  {
  }

  lemma P64Bits(n: nat, digits: seq<nat>, mirrored: seq<nat>)
    requires digits == [3, 9, 6, 3, 0xA, 0xE, 9, 0xA, 0xB, 0xE, 1, 0xE, 0, 0xF, 2, 4]
    requires mirrored == [0xC, 9, 6, 0xC, 5, 7, 9, 5, 0xD, 7, 8, 7, 0, 0xF, 4, 2]
    requires n == 4 * |digits|
    ensures BitsOf(P64.p, n) == HexBits(mirrored)
  {
    P64Digits(digits);
    P64Mirrored(digits, mirrored);
    MirroredBits(digits, mirrored, n);
  }

  lemma {:induction false} OnesComplement(n: nat, x: nat)
    requires x < Pow2(n)
    ensures BitsOf(Xor(x, Pow2(n) - 1), n) == Not(BitsOf(x, n))
  {
    AllOnes(n);
    BitsOfXor(x, Pow2(n) - 1, n);
  }

  /**
   The checksum of every message is the complement of its remainder: the bits of the message, lowest first in each byte,
   followed by 64 zeros, the first 64 of all complemented, modulo the divisor.
   */
  lemma CrcIsRemainder(m: seq<byte>)
    ensures BitsOf(Crc(m), 64) == Not(CrcRemainder(BitsOfMessage(m), Divisor()))
  {
    var n, digits, mirrored := 64,
                               [3, 9, 6, 3, 0xA, 0xE, 9, 0xA, 0xB, 0xE, 1, 0xE, 0, 0xF, 2, 4],
                               [0xC, 9, 6, 0xC, 5, 7, 9, 5, 0xD, 7, 8, 7, 0, 0xF, 4, 2];
    Pow2Values();
    P64Bits(n, digits, mirrored);
    AbsorbFits(ONES, m);
    AbsorbDivides(P64, n, ONES, m, Divisor());
    OnesComplement(n, Absorb(P64, ONES, m));
  }

  /** A record as it lies in memory: its body and the checksum field. */
  function Raw(body: seq<byte>, crc: u64): seq<byte> {
    body + Bytes(crc, 8)
  }

  /** A record with a correct checksum always leads to the same residue. */
  lemma CorrectResidue(body: seq<byte>)
    ensures Crc(body) < TWO_64
    ensures Absorb(P64, ONES, Raw(body, Crc(body))) == Steps(P64, ONES, 64)
  {
    CrcFits(body);
    Pow2Values();
    var s := Absorb(P64, ONES, body);
    AbsorbConcat(P64, ONES, body, Bytes(Crc(body), 8));
    OwnWordResidue(P64, s, ONES, 8);
  }

  /**
   Tampering is evident: whatever is changed inside at most seven adjacent bytes of a record with a correct checksum,
   in its body, in the checksum field or across the border of the two, the checksum is no longer correct.
   */
  lemma TamperingShows(body: seq<byte>, crc: u64, body': seq<byte>, crc': u64,
                       pre: seq<byte>, w: seq<byte>, w': seq<byte>, post: seq<byte>)
    requires crc == Crc(body) && |body'| == |body|
    requires Raw(body, crc) == pre + w + post && Raw(body', crc') == pre + w' + post
    requires |w| == |w'| <= 7 && w != w'
    ensures crc' != Crc(body')
  {
    P64IsGood();
    CorrectResidue(body);
    CorrectResidue(body');
    WindowDetected(P64, ONES, pre, w, w', post);
  }

  /** The same for at most 63 adjacent bits, wherever in a byte they begin and end. */
  lemma BurstShows(body: seq<byte>, crc: u64, body': seq<byte>, crc': u64,
                   pre: seq<bool>, w: seq<bool>, w': seq<bool>, post: seq<bool>)
    requires crc == Crc(body) && |body'| == |body|
    requires BitsOfMessage(Raw(body, crc)) == pre + w + post && BitsOfMessage(Raw(body', crc')) == pre + w' + post
    requires |w| == |w'| <= 63 && w != w'
    ensures crc' != Crc(body')
  {
    P64IsGood();
    CorrectResidue(body);
    CorrectResidue(body');
    AbsorbIsFeedBits(P64, ONES, Raw(body, crc));
    AbsorbIsFeedBits(P64, ONES, Raw(body', crc'));
    BurstDetected(P64, ONES, pre, w, w', post);
  }

  /**
   Seven bytes is the most that can be said: a change of eight adjacent bytes of the body goes unnoticed exactly when
   its difference is the bit pattern of 2p + 1.
   */
  lemma EightBytesMissedIff(pre: seq<byte>, w: seq<byte>, w': seq<byte>, post: seq<byte>)
    requires |w| == |w'| == 8
    ensures Crc(pre + w + post) == Crc(pre + w' + post) <==>
            w == w' || XorBits(BitsOfMessage(w), BitsOfMessage(w')) == BitsOfMessage(PatternBytes(P64, |w|))
  {
    P64IsGood();
    WindowDetected(P64, ONES, pre, w, w', post);
    PatternIsWord(P64, |w|);
    XorTwice(Absorb(P64, ONES, pre + w + post), ONES);
    XorTwice(Absorb(P64, ONES, pre + w' + post), ONES);
  }

  /** For instance, turning eight zero bytes into those of 2p + 1 is never noticed. */
  lemma EightBytesMissedExample(pre: seq<byte>, z: seq<byte>, post: seq<byte>)
    requires |z| == 8 && forall i :: 0 <= i < |z| ==> z[i] == 0
    ensures var k := PatternBytes(P64, |z|); k != z && Crc(pre + z + post) == Crc(pre + k + post)
  {
    var k := PatternBytes(P64, |z|);
    EightBytesMissedIff(pre, z, k, post);
    ZeroMessageBits(z);
    XorBitsZero(BitsOfMessage(z), BitsOfMessage(k));
    PatternIsNotZero(P64, |z|);
  }

  // ---------------------------------------------------------------- the table

  /** Entry i of the table is what eight steps make of i. */
  predicate TableReady(table: seq<nat>) {
    |table| == 256 && forall i :: 0 <= i < 256 ==> table[i] == Steps(P64, i, 8)
  }

  /** One iteration of the table-driven loop equals eight bit steps. */
  lemma TableIteration(table: seq<nat>, crc: nat, b: byte)
    requires TableReady(table)
    ensures Xor(crc / 256, table[Xor(crc, b) % 256]) == Feed(P64, crc, b)
  {
    var x := Xor(crc, b);
    LowByteBits(x);
    TableStep(P64, x, x % 256);
    BitsOfXor(crc, b, 8);
    ByteShift(b);
    ShiftByte(crc);
  }

  /** The table before it is filled. */
  predicate AllZero(table: seq<nat>) {
    |table| == 256 && forall i :: 0 <= i < 256 ==> table[i] == 0
  }

  /** The table-driven loop over a message, from state s. */
  function TableAbsorb(table: seq<nat>, s: nat, m: seq<byte>): nat
    requires |table| == 256
    decreases |m|
  {
    if m == [] then s else TableAbsorb(table, Xor(s / 256, table[Xor(s, m[0]) % 256]), m[1..])
  }

  function TableCrc(table: seq<nat>, m: seq<byte>): nat
    requires |table| == 256
  {
    Xor(TableAbsorb(table, ONES, m), ONES)
  }

  lemma {:induction false} ReadyTableAbsorbs(table: seq<nat>, s: nat, m: seq<byte>)
    requires TableReady(table)
    ensures TableAbsorb(table, s, m) == Absorb(P64, s, m)
    decreases |m|
  {
    if m != [] {
      TableIteration(table, s, m[0]);
      ReadyTableAbsorbs(table, Feed(P64, s, m[0]), m[1..]);
    }
  }

  lemma {:induction false} ZeroTableForgets(table: seq<nat>, s: nat, m: seq<byte>)
    requires AllZero(table) && s < Pow2(8 * |m|)
    ensures TableAbsorb(table, s, m) == 0
    decreases |m|
  {
    if m != [] {
      Pow2Byte(8 * (|m| - 1));
      ZeroTableForgets(table, s / 256, m[1..]);
    }
  }

  lemma Pow2Byte(n: nat)
    ensures Pow2(n + 8) == 256 * Pow2(n)
  {
    Pow2Nibble(n);
    Pow2Nibble(n + 4);
  }

  lemma {:induction false} Pow2Grows(n: nat, k: nat)
    ensures Pow2(n) <= Pow2(n + k)
    decreases k
  {
    if k > 0 {
      Pow2Grows(n, k - 1);
    }
  }

  lemma ReadyTableCrc(table: seq<nat>, m: seq<byte>)
    requires TableReady(table)
    ensures TableCrc(table, m) == Crc(m)
  {
    ReadyTableAbsorbs(table, ONES, m);
  }

  lemma ZeroTableCrc(table: seq<nat>, m: seq<byte>)
    requires AllZero(table) && |m| >= 8
    ensures TableCrc(table, m) == ONES
  {
    Pow2Values();
    Pow2Grows(64, 8 * |m| - 64);
    ZeroTableForgets(table, ONES, m);
  }

  /**
   The table-driven checksum equals the bit-by-bit one once the table is filled. Before that it says nothing: from
   eight bytes on, every message has the same checksum.
   */
  lemma TableCrcIs(table: seq<nat>, m: seq<byte>)
    ensures TableReady(table) ==> TableCrc(table, m) == Crc(m)
    ensures AllZero(table) && |m| >= 8 ==> TableCrc(table, m) == ONES
  {
    if TableReady(table) {
      ReadyTableCrc(table, m);
    }
    if AllZero(table) && |m| >= 8 {
      ZeroTableCrc(table, m);
    }
  }
}
