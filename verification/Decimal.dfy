/**
 Decimal numbers across two files: the digits that the alarm of kernel/core/watchdog.c prints, and the digit loop with
 which kernel/services/shell.c reads numbers, in 32 bits.
 */
module Decimal {
  import opened Words
  import opened CStrings

  const ALARM_PREFIX := "WATCHDOG TIMEOUT: "
  const ALARM_SIZE := 128

  predicate IsDigit(c: char) {
    '0' <= c <= '9'
  }

  function DigitOf(c: char): (d: nat)
    requires IsDigit(c)
    ensures d < 10
  {
    c as int - '0' as int
  }

  function CharOf(d: nat): (c: char)
    requires d < 10
    ensures IsDigit(c) && DigitOf(c) == d
  {
    ('0' as int + d) as char
  }

  predicate AllDigits(s: string) {
    forall k :: 0 <= k < |s| ==> IsDigit(s[k])
  }

  /** The decimal digits of a number. */
  function Print(n: nat): (s: string)
    ensures |s| >= 1 && AllDigits(s)
    decreases n
  {
    if n < 10 then [CharOf(n)] else Print(n / 10) + [CharOf(n % 10)]
  }

  /** The number that digits following one of value v denote. */
  function Value(v: nat, s: string): nat
    requires AllDigits(s)
    decreases |s|
  {
    if s == [] then v else Value(v * 10 + DigitOf(s[0]), s[1..])
  }

  /** The shell's digit loop: it stops at the first character that is no digit, and wraps at 2^32. */
  function Parse(v: u32, s: string): u32
    decreases |s|
  {
    if s == [] || !IsDigit(s[0]) then v else Parse(Wrap32(v * 10 + DigitOf(s[0])), s[1..])
  }

  /** No further digit follows. */
  predicate Ends(rest: string) {
    rest == [] || !IsDigit(rest[0])
  }

  lemma {:induction false} ValueSnoc(v: nat, s: string, c: char)
    requires AllDigits(s) && IsDigit(c)
    ensures AllDigits(s + [c]) && Value(v, s + [c]) == Value(v, s) * 10 + DigitOf(c)
    decreases |s|
  {
    if s != [] {
      ValueSnoc(v * 10 + DigitOf(s[0]), s[1..], c);
      assert (s + [c])[1..] == s[1..] + [c];
    }
  }

  lemma {:induction false} PrintedValue(n: nat)
    ensures Value(0, Print(n)) == n
    decreases n
  {
    if n >= 10 {
      PrintedValue(n / 10);
      ValueSnoc(0, Print(n / 10), CharOf(n % 10));
    }
  }

  lemma WrapDigit(v: nat, d: nat)
    ensures Wrap32(Wrap32(v) as int * 10 + d) == Wrap32(v * 10 + d)
  {
    var q := v / TWO_32;
    assert v == TWO_32 * q + Wrap32(v);
    WrapMultiple(Wrap32(v) as int * 10 + d, 10 * q);
  }

  /** The loop computes the value of the digits modulo 2^32. */
  lemma {:induction false} ParseIsValue(v: nat, s: string, rest: string)
    requires AllDigits(s) && Ends(rest)
    ensures Parse(Wrap32(v), s + rest) == Wrap32(Value(v, s))
    decreases |s|
  {
    if s == [] {
      assert s + rest == rest;
    } else {
      assert (s + rest)[1..] == s[1..] + rest;
      WrapDigit(v, DigitOf(s[0]));
      ParseIsValue(v * 10 + DigitOf(s[0]), s[1..], rest);
    }
  }

  /** The round trip: every 32-bit number is read back from its printed digits, whatever non-digit follows. */
  lemma RoundTrip(n: u32, rest: string)
    requires Ends(rest)
    ensures Parse(0, Print(n) + rest) == n
  {
    PrintedValue(n);
    ParseIsValue(0, Print(n), rest);
    WrapSmall(n);
  }

  predicate Canonical(s: string) {
    s != [] && AllDigits(s) && (s[0] == '0' ==> |s| == 1)
  }

  lemma {:induction false} PrintIsCanonical(n: nat)
    ensures Canonical(Print(n)) && (n > 0 ==> Print(n)[0] != '0')
    decreases n
  {
    if n >= 10 {
      PrintIsCanonical(n / 10);
    } else {
      assert DigitOf(Print(n)[0]) == n;
    }
  }

  lemma PrintDigit(v: nat, c: char)
    requires IsDigit(c)
    ensures v > 0 ==> Print(v * 10 + DigitOf(c)) == Print(v) + [c]
    ensures Print(DigitOf(c)) == [c]
  {
    var n := v * 10 + DigitOf(c);
    assert n / 10 == v && n % 10 == DigitOf(c);
    assert CharOf(DigitOf(c)) == c;
  }

  lemma {:induction false} PrintOfValue(s: string)
    requires Canonical(s)
    ensures Print(Value(0, s)) == s && (s[0] != '0' ==> Value(0, s) > 0)
    decreases |s|
  {
    var n := |s| - 1;
    var t, c := s[..n], s[n];
    assert s == t + [c];
    ValueSnoc(0, t, c);
    PrintDigit(Value(0, t), c);
    if t != [] {
      PrintOfValue(t);
    }
  }

  /** Read and printed again, digits are the same exactly when they have no leading zero and denote less than 2^32. */
  lemma ReprintsIff(s: string)
    requires s != [] && AllDigits(s)
    ensures Print(Parse(0, s)) == s <==> Canonical(s) && Value(0, s) < TWO_32
  {
    ParseIsValue(0, s, []);
    assert s + [] == s;
    if Canonical(s) && Value(0, s) < TWO_32 {
      PrintOfValue(s);
      WrapSmall(Value(0, s));
    }
    if Print(Parse(0, s)) == s {
      PrintIsCanonical(Parse(0, s));
      PrintedValue(Parse(0, s));
    }
  }

  function Pow10(k: nat): nat
    decreases k
  {
    if k == 0 then 1 else 10 * Pow10(k - 1)
  }

  lemma {:induction false} PrintLength(n: nat, k: nat)
    requires k >= 1
    ensures |Print(n)| <= k <==> n < Pow10(k)
    decreases k
  {
    if k == 1 {
      assert Pow10(1) == 10 * Pow10(0);
    } else {
      PrintLength(n / 10, k - 1);
    }
  }

  /** The message with the largest agent id and its NUL fit the alarm's buffer. */
  lemma AlarmFits(agent: u32)
    ensures |ALARM_PREFIX| + |Print(agent)| + 1 <= 29 <= ALARM_SIZE
  {
    PrintLength(agent, 10);
    assert Pow10(10) == 10_000_000_000;
  }

  method CountDigits(n: u32) returns (digits: u32)
    ensures digits == |Print(n)| <= 10
  {
    AlarmFits(n);
    digits := 1;
    var temp: u32 := n / 10;
    while temp > 0
      invariant 1 <= digits <= |Print(n)|
      invariant if temp == 0 then digits == |Print(n)| else digits + |Print(temp)| == |Print(n)|
      decreases temp
    {
      digits := digits + 1;
      temp := temp / 10;
    }
  }

  /** Writes the digits from the last one backwards, and the NUL behind them. */
  method PrintAt(msg: array<char>, pos: nat, n: u32)
    requires pos + |Print(n)| < msg.Length
    modifies msg
    ensures msg[pos..pos + |Print(n)|] == Print(n) && msg[pos + |Print(n)|] == NUL
    ensures msg[..pos] == old(msg[..pos])
  {
    var digits := CountDigits(n);
    var left, i := n, 0;
    ghost var end := pos + digits;
    while i < digits
      invariant 0 <= i <= digits
      invariant msg[..pos] == old(msg[..pos])
      invariant if i < digits then Print(n) == Print(left) + msg[end - i..end] else Print(n) == msg[pos..end]
    {
      ghost var done := msg[end - i..end];
      msg[pos + digits - i - 1] := CharOf(left % 10);
      assert msg[end - i - 1..end] == [CharOf(left % 10)] + done;
      left := left / 10;
      i := i + 1;
    }
    msg[pos + digits] := NUL;
  }

  method AppendNumber(msg: array<char>, n: u32)
    requires NUL in msg[..] && |CString(msg[..])| + |Print(n)| < msg.Length
    modifies msg
    ensures CString(msg[..]) == old(CString(msg[..])) + Print(n)
  {
    var pos := StringLength(msg);
    ghost var text := CString(msg[..]) + Print(n);
    PrintAt(msg, pos, n);
    assert msg[..|text|] == text;
    CStringOfCopy(text, msg[..]);
  }

  /** The text of the alarm for an agent, as it stands in the 128-byte buffer. */
  method AlarmMessage(agent: u32) returns (msg: array<char>)
    ensures msg.Length == ALARM_SIZE && CString(msg[..]) == "WATCHDOG TIMEOUT: " + Print(agent)
  {
    AlarmFits(agent);
    msg := new char[ALARM_SIZE];
    CopyString(msg, ALARM_PREFIX);
    assert msg[|ALARM_PREFIX|..][0] == NUL;
    AppendNumber(msg, agent);
  }

  lemma ParseStep(v: u32, buf: seq<char>)
    requires NUL in buf
    ensures IsDigit(buf[0]) ==> NUL in buf[1..]
                                && Parse(v, CString(buf)) == Parse(Wrap32(v * 10 + DigitOf(buf[0])), CString(buf[1..]))
    ensures !IsDigit(buf[0]) ==> Parse(v, CString(buf)) == v
  {
    if IsDigit(buf[0]) {
      assert CString(buf) == [buf[0]] + CString(buf[1..]);
    }
  }

  /** The digit loop on a NUL-terminated argument. */
  method ParseNumber(arg: seq<char>) returns (value: u32)
    requires NUL in arg
    ensures value == Parse(0, CString(arg))
  {
    value := 0;
    var rest := arg;
    ParseStep(value, rest);
    while IsDigit(rest[0])
      invariant NUL in rest
      invariant Parse(value, CString(rest)) == Parse(0, CString(arg))
      invariant !IsDigit(rest[0]) ==> Parse(value, CString(rest)) == value
      decreases |rest|
    {
      value := Wrap32(value * 10 + DigitOf(rest[0]));
      rest := rest[1..];
      ParseStep(value, rest);
    }
  }
}
