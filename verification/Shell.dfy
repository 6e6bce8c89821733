/**
 The command line of kernel/services/shell.c: the line buffer edited key by key, and the two commands with numeric
 arguments. All other commands are kept as their text.
 */
module Shell {
  import opened Words
  import opened Decimal

  const CMD_BUFFER_SIZE := 128
  const READ := "l0 read "
  const WRITE := "l1 write "

  datatype Command = ReadSensor(id: u32) | WriteActuator(id: u32, value: u32) | OtherCommand(text: string)

  /** What follows the first space. */
  function AfterSpace(s: string): string
    decreases |s|
  {
    if s == [] then [] else if s[0] == ' ' then s[1..] else AfterSpace(s[1..])
  }

  function Interpret(line: string): Command {
    if READ <= line then ReadSensor(Parse(0, line[|READ|..]))
    else if WRITE <= line then
      var args := line[|WRITE|..];
      WriteActuator(Parse(0, args), Parse(0, AfterSpace(args)))
    else OtherCommand(line)
  }

  datatype Console = Console(line: string, commands: seq<Command>)

  predicate Printable(c: char) {
    ' ' <= c < '\U{7F}'
  }

  predicate Enter(c: char) {
    c == '\n' || c == '\r'
  }

  predicate Backspace(c: char) {
    c == '\U{8}' || c == '\U{7F}'
  }

  function Key(s: Console, c: char): Console {
    if Enter(c) then (if s.line == "" then s else Console("", s.commands + [Interpret(s.line)]))
    else if Backspace(c) then (if s.line == "" then s else s.(line := s.line[..|s.line| - 1]))
    else if Printable(c) && |s.line| < CMD_BUFFER_SIZE - 1 then s.(line := s.line + [c])
    else s
  }

  function Keys(s: Console, cs: string): Console
    decreases |cs|
  {
    if cs == [] then s else Keys(Key(s, cs[0]), cs[1..])
  }

  predicate AllPrintable(s: string) {
    forall k :: 0 <= k < |s| ==> Printable(s[k])
  }

  /** Whatever is typed, the line is printable and leaves room for its NUL. */
  predicate LineOk(line: string) {
    AllPrintable(line) && |line| < CMD_BUFFER_SIZE
  }

  lemma {:induction false} KeysKeepLine(s: Console, cs: string)
    requires LineOk(s.line)
    ensures LineOk(Keys(s, cs).line)
    decreases |cs|
  {
    if cs != [] {
      KeysKeepLine(Key(s, cs[0]), cs[1..]);
    }
  }

  lemma {:induction false} TextIsTyped(s: Console, text: string)
    requires AllPrintable(text) && |s.line| + |text| < CMD_BUFFER_SIZE
    ensures Keys(s, text) == s.(line := s.line + text)
    decreases |text|
  {
    if text == [] {
      assert s.line + text == s.line;
    } else {
      TextIsTyped(Key(s, text[0]), text[1..]);
      assert s.line + text == s.line + [text[0]] + text[1..];
    }
  }

  lemma {:induction false} KeysConcat(s: Console, a: string, b: string)
    ensures Keys(s, a + b) == Keys(Keys(s, a), b)
    decreases |a|
  {
    if a == [] {
      assert a + b == b;
    } else {
      assert (a + b)[1..] == a[1..] + b;
      KeysConcat(Key(s, a[0]), a[1..], b);
    }
  }

  function Backspaces(n: nat): string {
    seq(n, i => '\U{8}')
  }

  /** As many backspaces as characters typed restore the line as it was. */
  lemma {:induction false} BackspacesUndoText(s: Console, text: string)
    requires AllPrintable(text) && |s.line| + |text| < CMD_BUFFER_SIZE
    ensures Keys(s, text + Backspaces(|text|)) == s
  {
    KeysConcat(s, text, Backspaces(|text|));
    TextIsTyped(s, text);
    BackspacesCut(s.(line := s.line + text), |text|);
    assert (s.line + text)[..|s.line|] == s.line;
  }

  lemma {:induction false} BackspacesCut(s: Console, n: nat)
    requires n <= |s.line|
    ensures Keys(s, Backspaces(n)) == s.(line := s.line[..|s.line| - n])
    decreases n
  {
    if n == 0 {
      assert s.line[..|s.line|] == s.line;
    } else {
      assert Backspaces(n)[1..] == Backspaces(n - 1);
      BackspacesCut(Key(s, '\U{8}'), n - 1);
      assert s.line[..|s.line| - 1][..|s.line| - n] == s.line[..|s.line| - n];
    }
  }

  lemma PrintIsPrintable(n: u32)
    ensures AllPrintable(Print(n)) && |Print(n)| <= 10
  {
    AlarmFits(n);
    assert forall k :: 0 <= k < |Print(n)| ==> IsDigit(Print(n)[k]) ==> Printable(Print(n)[k]);
  }

  lemma {:induction false} SpaceEndsArgument(a: string, rest: string)
    requires AllDigits(a)
    ensures AfterSpace(a + " " + rest) == rest
    decreases |a|
  {
    if a == [] {
      assert (a + " " + rest)[1..] == rest;
    } else {
      assert (a + " " + rest)[1..] == a[1..] + " " + rest;
      SpaceEndsArgument(a[1..], rest);
    }
  }

  /** A write command with printed numbers means these numbers, for all 32-bit ids and values. */
  lemma {:induction false} WriteIsUnderstood(id: u32, value: u32)
    ensures Interpret(WRITE + Print(id) + " " + Print(value)) == WriteActuator(id, value)
  {
    var args := Print(id) + " " + Print(value);
    var line := WRITE + args;
    assert line == WRITE + Print(id) + " " + Print(value);
    assert line[1] == '1' && line[|WRITE|..] == args;
    assert args == Print(id) + (" " + Print(value));
    RoundTrip(id, " " + Print(value));
    SpaceEndsArgument(Print(id), Print(value));
    assert Print(value) + [] == Print(value);
    RoundTrip(value, []);
  }

  /** Typed on an empty line and entered, it is carried out once, and the line is empty again. */
  lemma TypedWriteIsCarriedOut(s: Console, id: u32, value: u32)
    requires s.line == ""
    ensures Keys(s, "l1 write " + Print(id) + " " + Print(value) + "\n") ==
            Console("", s.commands + [WriteActuator(id, value)])
  {
    var line := WRITE + Print(id) + " " + Print(value);
    PrintIsPrintable(id);
    PrintIsPrintable(value);
    KeysConcat(s, line, "\n");
    TextIsTyped(s, line);
    assert "" + line == line;
    WriteIsUnderstood(id, value);
    assert "\n"[1..] == "";
  }

  lemma TypedReadIsCarriedOut(s: Console, id: u32)
    requires s.line == ""
    ensures Keys(s, "l0 read " + Print(id) + "\n") == Console("", s.commands + [ReadSensor(id)])
  {
    var line := READ + Print(id);
    PrintIsPrintable(id);
    KeysConcat(s, line, "\n");
    TextIsTyped(s, line);
    assert "" + line == line && line[|READ|..] == Print(id) + [];
    RoundTrip(id, []);
    assert "\n"[1..] == "";
  }

  // ---------------------------------------------------------------- keys

  /** Both codes of the enter key, and both of the backspace key, do the same. */
  lemma SameEnter(s: Console)
    ensures Keys(s, "\r") == Keys(s, "\n") && Keys(s, ['\U{7F}']) == Keys(s, ['\U{8}'])
  {
    assert "\r"[1..] == "" && "\n"[1..] == "";
    assert ['\U{7F}'][1..] == [] && ['\U{8}'][1..] == [];
  }

  /** Of a long text the line keeps the first 127 characters; the rest is ignored. */
  lemma {:induction false} LongLineIsCut(s: Console, text: string)
    requires AllPrintable(text) && |s.line| <= 127
    ensures var all := s.line + text; Keys(s, text) == s.(line := if |all| <= 127 then all else all[..127])
    decreases |text|
  {
    if text == [] {
      assert s.line + text == s.line;
    } else {
      LongLineIsCut(Key(s, text[0]), text[1..]);
      assert s.line + text == s.line + [text[0]] + text[1..];
    }
  }

  /** A key that is neither printable nor enter nor backspace does nothing; enter does nothing on an empty line. */
  lemma DeadKeys(s: Console, c: char)
    ensures (c < ' ' && c !in {'\n', '\r', '\U{8}'}) || c > '\U{7F}' ==> Key(s, c) == s
    ensures s.line == "" && c in {'\n', '\r', '\U{8}', '\U{7F}'} ==> Key(s, c) == s
  {
  }

  /** A line that begins with neither numeric command is carried out as its text. */
  lemma OtherLine(s: Console, text: string)
    requires s.line == "" && AllPrintable(text) && 0 < |text| <= 127
    requires !("l0 read " <= text) && !("l1 write " <= text)
    ensures Keys(s, text + "\n") == Console("", s.commands + [OtherCommand(text)])
  {
    KeysConcat(s, text, "\n");
    TextIsTyped(s, text);
    assert "" + text == text;
    assert "\n"[1..] == "";
  }
}
