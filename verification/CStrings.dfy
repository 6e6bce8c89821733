/** NUL-terminated strings in fixed buffers, and the loops of the kernel that measure and copy them. */
module CStrings {
  const NUL := '\0'

  /** The characters of a buffer before its first NUL. */
  function CString(buf: seq<char>): (s: string)
    ensures s <= buf && NUL !in s && (s == buf || buf[|s|] == NUL)
    decreases |buf|
  {
    if buf == [] || buf[0] == NUL then [] else [buf[0]] + CString(buf[1..])
  }

  /** Comparing character by character up to the end of either finds out whether one is a prefix of the other. */
  lemma {:induction false} ComparesPrefix(path: string, buf: seq<char>)
    requires NUL !in path && NUL in buf
    ensures path <= CString(buf) <==> forall j :: 0 <= j < |path| && j < |buf| ==> path[j] == buf[j]
    decreases |buf|
  {
    if path != [] && buf[0] != NUL {
      ComparesPrefix(path[1..], buf[1..]);
      assert forall j :: 0 < j < |path| && j < |buf| ==> path[j] == path[1..][j - 1] && buf[j] == buf[1..][j - 1];
      assert forall j :: 0 <= j < |path| - 1 && j < |buf| - 1 ==>
                           path[1..][j] == path[j + 1] && buf[1..][j] == buf[j + 1];
    }
  }

  lemma {:induction false} CStringOfCopy(s: string, buf: seq<char>)
    requires NUL !in s && |s| < |buf| && s == buf[..|s|] && buf[|s|] == NUL
    ensures CString(buf) == s
    decreases |s|
  {
    if s != [] {
      CStringOfCopy(s[1..], buf[1..]);
    }
  }

  /** Copies a string and its NUL to the front of a buffer. */
  method CopyString(dest: array<char>, src: string)
    requires NUL !in src && |src| < dest.Length
    modifies dest
    ensures CString(dest[..]) == src
    ensures dest[|src|..] == [NUL] + old(dest[|src| + 1..])
  {
    var i := 0;
    while i < |src|
      invariant 0 <= i <= |src| && dest[..i] == src[..i]
      invariant dest[i..] == old(dest[i..])
    {
      ghost var rest := dest[i..];
      dest[i] := src[i];
      assert dest[i + 1..] == rest[1..];
      i := i + 1;
    }
    dest[i] := NUL;
    CStringOfCopy(src, dest[..]);
  }

  method StringLength(buf: array<char>) returns (n: nat)
    requires NUL in buf[..]
    ensures n == |CString(buf[..])| && n < buf.Length
  {
    n := 0;
    ghost var k :| 0 <= k < |buf[..]| && buf[..][k] == NUL;
    while buf[n] != NUL
      invariant 0 <= n <= k < buf.Length
      invariant NUL !in buf[..n]
      decreases k - n
    {
      n := n + 1;
    }
    CStringOfCopy(buf[..n], buf[..]);
  }
}
