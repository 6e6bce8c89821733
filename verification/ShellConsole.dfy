/**
 The shell of kernel/services/shell.c: its static line buffer, edited in place, and the commands it has carried out.
 */
module ShellConsole {
  import opened CStrings
  import opened Decimal
  import opened Shell

  class Terminal {
    const cmdBuffer: array<char>
    var cmdPos: nat
    var commands: seq<Command>

    ghost predicate Valid()
      reads this, cmdBuffer
    {
      cmdBuffer.Length == CMD_BUFFER_SIZE && cmdPos < CMD_BUFFER_SIZE && LineOk(cmdBuffer[..cmdPos])
    }

    ghost function View(): Console
      requires cmdPos <= cmdBuffer.Length
      reads this, cmdBuffer
    {
      Console(cmdBuffer[..cmdPos], commands)
    }

    constructor ()
      ensures Valid() && View() == Console("", []) && fresh(cmdBuffer)
    {
      cmdBuffer := new char[CMD_BUFFER_SIZE];
      cmdPos, commands := 0, [];
    }

    /** Compares the first |prefix| characters, stopping at a NUL. */
    method StartsWith(cmd: seq<char>, prefix: string) returns (starts: bool)
      requires NUL in cmd && NUL !in prefix
      ensures starts == (prefix <= CString(cmd))
    {
      ComparesPrefix(prefix, cmd);
      var i := 0;
      while i < |prefix|
        invariant 0 <= i <= |prefix| && i < |cmd| && NUL !in cmd[..i]
        invariant forall k :: 0 <= k < i ==> prefix[k] == cmd[k]
      {
        if cmd[i] != prefix[i] {
          return false;
        }
        assert cmd[i] != NUL;
        i := i + 1;
        assert i < |cmd|;
      }
      starts := true;
    }

    /** Moves past the first space, or to the NUL. */
    method SkipArgument(arg: seq<char>) returns (rest: seq<char>)
      requires NUL in arg
      ensures NUL in rest && CString(rest) == AfterSpace(CString(arg))
    {
      rest := arg;
      while rest[0] != NUL && rest[0] != ' '
        invariant NUL in rest
        invariant AfterSpace(CString(rest)) == AfterSpace(CString(arg))
        decreases |rest|
      {
        assert CString(rest) == [rest[0]] + CString(rest[1..]);
        rest := rest[1..];
      }
      if rest[0] != NUL {
        assert CString(rest) == [rest[0]] + CString(rest[1..]);
        rest := rest[1..];
      }
    }

    method ParseCommand(cmd: seq<char>)
      requires NUL in cmd
      modifies this`commands
      ensures commands == old(commands) + [Interpret(CString(cmd))]
    {
      var read := StartsWith(cmd, READ);
      if read {
        TailOfCString(cmd, |READ|);
        var id := ParseNumber(cmd[|READ|..]);
        commands := commands + [ReadSensor(id)];
        return;
      }
      var write := StartsWith(cmd, WRITE);
      if write {
        TailOfCString(cmd, |WRITE|);
        var second := SkipArgument(cmd[|WRITE|..]);
        var id := ParseNumber(cmd[|WRITE|..]);
        var value := ParseNumber(second);
        commands := commands + [WriteActuator(id, value)];
        return;
      }
      commands := commands + [OtherCommand(CString(cmd))];
    }

    method HandleChar(c: char)
      requires Valid()
      modifies this, cmdBuffer
      ensures Valid() && View() == Key(old(View()), c)
    {
      if c == '\n' || c == '\r' {
        if cmdPos > 0 {
          cmdBuffer[cmdPos] := NUL;
          CStringOfCopy(cmdBuffer[..cmdPos], cmdBuffer[..]);
          ParseCommand(cmdBuffer[..]);
          cmdPos := 0;
        }
      } else if c == '\U{8}' || c == '\U{7F}' {
        if cmdPos > 0 {
          cmdPos := cmdPos - 1;
        }
      } else if ' ' <= c < '\U{7F}' {
        if cmdPos < CMD_BUFFER_SIZE - 1 {
          cmdBuffer[cmdPos] := c;
          cmdPos := cmdPos + 1;
        }
      }
    }
  }

  lemma {:induction false} TailOfCString(buf: seq<char>, n: nat)
    requires NUL in buf && n <= |CString(buf)|
    ensures n <= |buf| && NUL in buf[n..] && CString(buf[n..]) == CString(buf)[n..]
    decreases n
  {
    if n > 0 {
      TailOfCString(buf[1..], n - 1);
      assert buf[1..][n - 1..] == buf[n..];
      assert CString(buf) == [buf[0]] + CString(buf[1..]);
    }
  }
}
