/**
 Modbus RTU frames as kernel/drivers/modbus.c builds and checks them: the CRC of section 6.2.2 of the MODBUS over
 Serial Line Specification V1.02, and the messages of sections 6.3 and 6.6 of the MODBUS Application Protocol V1.1b3.
 */
module ModbusFrames {
  import opened Words
  import opened Bits
  import opened ShiftRegister
  import opened Polynomials

  const P16 := Poly(0xA001, 16)
  const FIRST := 0xFFFF
  const CRC_ERROR := 0xFFFF

  type u16 = x: int | 0 <= x < 0x1_0000

  function Crc16(m: seq<byte>): nat {
    Absorb(P16, FIRST, m)
  }

  lemma P16IsGood()
    ensures Good(P16)
  {
    Pow2Values();
  }

  lemma AbsorbFits(s: nat, m: seq<byte>)
    requires s < 0x1_0000
    ensures Absorb(P16, s, m) < 0x1_0000
  {
    P16IsGood();
    Pow2Values();
    AbsorbIsFeedBits(P16, s, m);
    FeedSmall(P16, s, BitsOfMessage(m));
  }

  // ---------------------------------------------------------------- what it computes

  /** The divisor x^16 + x^15 + x^2 + 1. */
  function Divisor(): seq<bool> {
    WithPowers(16, [16, 15, 2, 0])
  }

  lemma P16Bits(n: nat, digits: seq<nat>, mirrored: seq<nat>)
    requires digits == [1, 0, 0, 0xA] && mirrored == [8, 0, 0, 5] && n == 4 * |digits|
    ensures BitsOf(P16.p, n) == HexBits(mirrored)
  {
    FourDigits(digits);
    MirroredBits(digits, mirrored, n);
  }

  lemma DivisorDigits(mirrored: seq<nat>)
    requires mirrored == [8, 0, 0, 5]
    ensures Divisor() == [true] + HexBits(mirrored)
  {
    assert mirrored[1..][1..] == mirrored[2..] && mirrored[2..][1..] == mirrored[3..] && mirrored[3..][1..] == [];
    assert HexBits(mirrored[3..]) == DigitBits(5) + HexBits([]);
    assert HexBits(mirrored[2..]) == DigitBits(0) + HexBits(mirrored[3..]);
    assert HexBits(mirrored[1..]) == DigitBits(0) + HexBits(mirrored[2..]);
    assert HexBits(mirrored) == DigitBits(8) + (DigitBits(0) + (DigitBits(0) + DigitBits(5)));
  }

  /**
   The checksum of every message is its remainder: the bits of the message, lowest first in each byte, followed by 16
   zeros, the first 16 of all complemented, modulo x^16 + x^15 + x^2 + 1. Its lowest bit is the highest power.
   */
  lemma Crc16IsRemainder(m: seq<byte>)
    ensures Crc16(m) < 0x1_0000 && BitsOf(Crc16(m), 16) == CrcRemainder(BitsOfMessage(m), Divisor())
  {
    var n, digits, mirrored := 16, [1, 0, 0, 0xA], [8, 0, 0, 5];
    Pow2Values();
    P16Bits(n, digits, mirrored);
    DivisorDigits(mirrored);
    AbsorbFits(FIRST, m);
    AbsorbDivides(P16, n, FIRST, m, Divisor());
  }

  /** The checksum bytes, low byte first. */
  function CrcBytes(m: seq<byte>): (c: seq<byte>)
    ensures |c| == 2
  {
    Bytes(Crc16(m), 2)
  }

  function Frame(m: seq<byte>): seq<byte> {
    m + CrcBytes(m)
  }

  function Word16(high: byte, low: byte): (x: nat)
    ensures x < 0x1_0000 && x / 256 == high && x % 256 == low
  {
    256 * high as int + low as int
  }

  /** The last two bytes of a frame are the checksum of the bytes before. */
  predicate CrcMatches(f: seq<byte>)
    requires |f| >= 2
  {
    Word16(f[|f| - 1], f[|f| - 2]) == Crc16(f[..|f| - 2])
  }

  // ---------------------------------------------------------------- the residue

  lemma {:induction false} StepsZero(x: nat, n: nat)
    requires x < 0x1_0000
    ensures Steps(P16, x, n) == 0 <==> x == 0
    decreases n
  {
    if n > 0 {
      P16IsGood();
      Pow2Values();
      StepSmall(P16, x, false);
      if Odd(x) {
        OddStepsHigh(P16, x);
      }
      StepsZero(Step(P16, x), n - 1);
    }
  }

  lemma TwoBytes(x: nat)
    requires x < 0x1_0000
    ensures Bytes(x, 2) == [x % 256, x / 256]
  {
    assert Bytes(x, 2) == [x % 256] + Bytes(x / 256, 1);
    assert Bytes(x / 256, 1) == [x / 256 % 256] + Bytes(x / 256 / 256, 0);
  }

  lemma WordResidueZeroIff(s: nat, low: byte, high: byte)
    requires s < 0x1_0000
    ensures Absorb(P16, s, [low, high]) == 0 <==> s == Word16(high, low)
  {
    var x := Word16(high, low);
    Pow2Values();
    TwoBytes(x);
    AbsorbWord(P16, s, x, 2);
    XorBound(s, x, 16);
    StepsZero(Xor(s, x), 16);
    XorIsZero(s, x);
    XorSelf(s);
  }

  lemma ResidueZeroIff(m: seq<byte>, low: byte, high: byte)
    ensures Crc16(m + [low, high]) == 0 <==> Crc16(m) == Word16(high, low)
  {
    AbsorbFits(FIRST, m);
    AbsorbConcat(P16, FIRST, m, [low, high]);
    WordResidueZeroIff(Crc16(m), low, high);
  }

  /** A frame passes the comparison of its checksum exactly when the checksum of the whole frame is 0. */
  lemma MatchesIffResidueZero(f: seq<byte>)
    requires |f| >= 2
    ensures CrcMatches(f) <==> Crc16(f) == 0
  {
    var n := |f| - 2;
    var m, low, high := f[..n], f[n], f[n + 1];
    assert f[..|f| - 2] == m && f[|f| - 2] == low && f[|f| - 1] == high;
    assert f == m + [low, high];
    ResidueZeroIff(m, low, high);
  }

  /** Appending the checksum gives residue 0, for every message. */
  lemma FrameMatches(m: seq<byte>)
    ensures CrcMatches(Frame(m)) && Crc16(Frame(m)) == 0
  {
    AbsorbFits(FIRST, m);
    TwoBytes(Crc16(m));
    assert Frame(m)[..|m|] == m;
    MatchesIffResidueZero(Frame(m));
  }

  lemma CrcBytesIff(m: seq<byte>, c: seq<byte>)
    requires |c| == 2
    ensures c == CrcBytes(m) <==> Word16(c[1], c[0]) == Crc16(m)
  {
    AbsorbFits(FIRST, m);
    TwoBytes(Crc16(m));
  }

  lemma Halves<T>(f: seq<T>, m: seq<T>, c: seq<T>)
    requires |f| == |m| + |c|
    ensures f == m + c <==> f[..|m|] == m && f[|m|..] == c
  {
    assert f == f[..|m|] + f[|m|..];
  }

  /** A frame is its message and the checksum, and only that passes the comparison. */
  lemma CompletesIff(m: seq<byte>, f: seq<byte>)
    requires |f| == |m| + 2
    ensures f == Frame(m) <==> CrcMatches(f) && f[..|m|] == m
  {
    var c := f[|m|..];
    assert c[0] == f[|f| - 2] && c[1] == f[|f| - 1];
    Halves(f, m, CrcBytes(m));
    CrcBytesIff(m, c);
  }

  /** The checksum is the only pair of bytes that completes a message to a frame. */
  lemma FrameUnique(m: seq<byte>, low: byte, high: byte)
    ensures CrcMatches(m + [low, high]) <==> m + [low, high] == Frame(m)
  {
    CompletesIff(m, m + [low, high]);
  }

  // ---------------------------------------------------------------- damage on the line

  /** A valid frame damaged inside one byte or two adjacent bytes, data or checksum or both, fails the comparison. */
  lemma DamageShows(f: seq<byte>, f': seq<byte>, pre: seq<byte>, w: seq<byte>, w': seq<byte>, post: seq<byte>)
    requires |f| >= 2 && CrcMatches(f)
    requires f == pre + w + post && f' == pre + w' + post && |w| == |w'| <= 2 && w != w'
    ensures !CrcMatches(f')
  {
    P16IsGood();
    WindowDetected(P16, FIRST, pre, w, w', post);
    MatchesIffResidueZero(f);
    MatchesIffResidueZero(f');
  }

  /**
   Bit by bit: a burst of damage of at most 16 bits always shows, and one of 17 bits shows unless it is exactly the
   pattern of the polynomial.
   */
  lemma BurstShows(f: seq<byte>, f': seq<byte>, pre: seq<bool>, w: seq<bool>, w': seq<bool>, post: seq<bool>)
    requires |f| == |f'| >= 2 && CrcMatches(f)
    requires BitsOfMessage(f) == pre + w + post && BitsOfMessage(f') == pre + w' + post && |w| == |w'| <= 17
    ensures |w| <= 16 ==> (CrcMatches(f') <==> f == f')
    ensures |w| == 17 ==> (CrcMatches(f') <==> f == f' || XorBits(w, w') == PolyPattern(P16))
  {
    P16IsGood();
    BurstDetected(P16, FIRST, pre, w, w', post);
    AbsorbIsFeedBits(P16, FIRST, f);
    AbsorbIsFeedBits(P16, FIRST, f');
    MatchesIffResidueZero(f);
    MatchesIffResidueZero(f');
    if w == w' {
      MessageBitsDetermine(f, f');
    }
    if f == f' {
      assert w == BitsOfMessage(f)[|pre|..|pre| + |w|];
      assert w' == BitsOfMessage(f')[|pre|..|pre| + |w'|];
    }
  }

  // ---------------------------------------------------------------- messages

  function High(x: u16): byte {
    x / 256
  }

  function LowByte(x: u16): byte {
    x % 256
  }

  function ReadRequest(slave: byte, register: u16): seq<byte> {
    Frame([slave, 0x03, High(register), LowByte(register), 0x00, 0x01])
  }

  /** What a slave answers to it. */
  function ReadReply(slave: byte, value: u16): seq<byte> {
    Frame([slave, 0x03, 0x02, High(value), LowByte(value)])
  }

  function WriteRequest(slave: byte, register: u16, value: u16): seq<byte> {
    Frame([slave, 0x06, High(register), LowByte(register), High(value), LowByte(value)])
  }

  /** What the driver makes of the seven bytes it receives. */
  function Decode(reply: seq<byte>): u16
    requires |reply| == 7
  {
    if CrcMatches(reply) then Word16(reply[3], reply[4]) else CRC_ERROR
  }

  /** An undamaged reply carrying v is decoded as v. */
  lemma ReplyDecodes(slave: byte, value: u16)
    ensures |ReadReply(slave, value)| == 7 && Decode(ReadReply(slave, value)) == value
  {
    FrameMatches([slave, 0x03, 0x02, High(value), LowByte(value)]);
  }

  /** A reply damaged inside one byte or two adjacent bytes is reported as an error. */
  lemma DamagedReplyRejected(slave: byte, value: u16, reply: seq<byte>,
                             pre: seq<byte>, w: seq<byte>, w': seq<byte>, post: seq<byte>)
    requires |reply| == 7
    requires ReadReply(slave, value) == pre + w + post && reply == pre + w' + post && |w| == |w'| <= 2 && w != w'
    ensures Decode(reply) == CRC_ERROR
  {
    FrameMatches([slave, 0x03, 0x02, High(value), LowByte(value)]);
    DamageShows(ReadReply(slave, value), reply, pre, w, w', post);
  }

  /**
   The error value is also a register value: the caller sees it exactly when the checksum fails or the register holds
   it.
   */
  lemma ErrorValueIff(reply: seq<byte>)
    requires |reply| == 7
    ensures Decode(reply) == CRC_ERROR <==> !CrcMatches(reply) || (reply[3] == 0xFF && reply[4] == 0xFF)
  {
  }

  /** For example, the valid reply of a register that holds 0xFFFF reads as an error. */
  lemma ErrorValueExample(slave: byte)
    ensures CrcMatches(ReadReply(slave, 0xFFFF)) && |ReadReply(slave, 0xFFFF)| == 7
    ensures Decode(ReadReply(slave, 0xFFFF)) == CRC_ERROR
  {
    FrameMatches([slave, 0x03, 0x02, High(0xFFFF), LowByte(0xFFFF)]);
    ReplyDecodes(slave, 0xFFFF);
  }

  /**
   Which replies are read as a value: those with a correct checksum that carry it in their fourth and fifth byte. The
   slave address, the function code and the byte count are never looked at.
   */
  lemma AcceptedIff(reply: seq<byte>, value: u16)
    requires |reply| == 7 && value != CRC_ERROR
    ensures Decode(reply) == value <==> CrcMatches(reply) && reply[3] == High(value) && reply[4] == LowByte(value)
  {
  }

  lemma FifthByteLast(reply: seq<byte>, a: byte, b: byte)
    requires |reply| == 7
    ensures reply[..5] == reply[..3] + [a, b] <==> reply[3] == a && reply[4] == b
  {
    assert reply[..5] == reply[..3] + [reply[3], reply[4]];
    assert (reply[..3] + [a, b])[3] == a && (reply[..3] + [a, b])[4] == b;
    assert reply[..5][3] == reply[3] && reply[..5][4] == reply[4];
  }

  /** In other words: those that complete some three bytes and the value to a frame. */
  lemma AcceptedIsFrame(reply: seq<byte>, value: u16)
    requires |reply| == 7 && value != CRC_ERROR
    ensures Decode(reply) == value <==> reply == Frame(reply[..3] + [High(value), LowByte(value)])
  {
    AcceptedIff(reply, value);
    FifthByteLast(reply, High(value), LowByte(value));
    CompletesIff(reply[..3] + [High(value), LowByte(value)], reply);
  }

  /** So a reply read as a value is the one that was asked for exactly when its first three bytes are. */
  lemma ExpectedIff(slave: byte, reply: seq<byte>, value: u16)
    requires |reply| == 7 && value != CRC_ERROR && Decode(reply) == value
    ensures reply == ReadReply(slave, value) <==> reply[..3] == [slave, 0x03, 0x02]
  {
    AcceptedIsFrame(reply, value);
    var body := reply[..3] + [High(value), LowByte(value)];
    if reply[..3] == [slave, 0x03, 0x02] {
      assert body == [slave, 0x03, 0x02, High(value), LowByte(value)];
    }
    if reply == ReadReply(slave, value) {
      assert reply[..3] == [slave, 0x03, 0x02];
    }
  }

  /** For example, another slave's reply is read as if it were the right one's. */
  lemma ForeignReplyExample(slave: byte, other: byte, value: u16)
    requires slave != other
    ensures Decode(ReadReply(other, value)) == value && ReadReply(other, value) != ReadReply(slave, value)
  {
    ReplyDecodes(other, value);
    assert ReadReply(other, value)[0] == other && ReadReply(slave, value)[0] == slave;
  }

  /** Different registers or values give different requests, and a write request tells which. */
  lemma WriteRequestTells(slave: byte, register: u16, value: u16)
    ensures var q := WriteRequest(slave, register, value);
            |q| == 8 && CrcMatches(q) && q[0] == slave && q[1] == 6 && Word16(q[2], q[3]) == register
            && Word16(q[4], q[5]) == value
  {
    FrameMatches([slave, 0x06, High(register), LowByte(register), High(value), LowByte(value)]);
  }

  lemma ReadRequestTells(slave: byte, register: u16)
    ensures var q := ReadRequest(slave, register);
            |q| == 8 && CrcMatches(q) && q[0] == slave && q[1] == 3 && Word16(q[2], q[3]) == register
            && Word16(q[4], q[5]) == 1
  {
    FrameMatches([slave, 0x03, High(register), LowByte(register), 0x00, 0x01]);
  }
}
