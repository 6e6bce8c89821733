/**
 What a file of kernel/core/isaf.c keeps from its creation on, who may open it, and what a descriptor is worth after it
 has been closed.
 */
module FileLives {
  import opened Words
  import opened FileTable

  // ---------------------------------------------------------------- creation

  /** What stays of a file: name, owner, inode, permissions and time of creation. */
  datatype Identity = Identity(name: string, owner: nat, inode: u32, perms: u32, created: u64)

  function IdentityOf(f: File): Identity {
    Identity(f.name, f.owner, f.inode, f.perms, f.created)
  }

  function Identities(files: seq<File>): (ids: seq<Identity>)
    ensures |ids| == |files|
  {
    seq(|files|, i requires 0 <= i < |files| => IdentityOf(files[i]))
  }

  /** The files that a run adds to a table of n files: at most 31 characters of each path, numbered from n + 1 on. */
  function Added(n: nat, ops: seq<Op>): seq<Identity>
    decreases |ops|
  {
    if ops == [] || n >= 1024 then []
    else
      match ops[0]
      case CreateOp(path, owner, perms, now) =>
        [Identity(if |path| <= 31 then path else path[..31], owner, n + 1, perms, now)] + Added(n + 1, ops[1..])
      case _ => Added(n, ops[1..])
  }

  lemma StepKeepsIdentities(fs: Fs, op: Op)
    requires Bounded(fs)
    ensures var r := Step(fs, op);
            Identities(r.files) == Identities(fs.files) + Added(|fs.files|, [op])
  {
    match op
    case CreateOp(path, owner, perms, now) =>
      assert |fs.files| < 1024 ==> StoredName(path) == if |path| <= 31 then path else path[..31];
      assert [op][1..] == [];
    case _ =>
      assert [op][1..] == [];
      assert Identities(Step(fs, op).files) == Identities(fs.files);
  }

  lemma Regroup(a: seq<Identity>, b: seq<Identity>, c: seq<Identity>)
    ensures a + b + c == a + (b + c)
  {
  }

  lemma AddedFirst(n: nat, ops: seq<Op>)
    requires ops != []
    ensures Added(n, ops) == Added(n, [ops[0]]) + Added(n + |Added(n, [ops[0]])|, ops[1..])
  {
    assert [ops[0]][1..] == [];
  }

  /** Over every run the table lists what was created, in order, up to 1024 files, and nothing changes in it later. */
  lemma {:induction false} RunKeepsIdentities(fs: Fs, ops: seq<Op>)
    requires Bounded(fs)
    ensures Identities(Run(fs, ops).files) == Identities(fs.files) + Added(|fs.files|, ops)
    decreases |ops|
  {
    if ops == [] {
      assert Identities(fs.files) + [] == Identities(fs.files);
    } else {
      var r, first := Step(fs, ops[0]), Added(|fs.files|, [ops[0]]);
      StepKeepsIdentities(fs, ops[0]);
      AddedFirst(|fs.files|, ops);
      RunKeepsIdentities(r, ops[1..]);
      Regroup(Identities(fs.files), first, Added(|r.files|, ops[1..]));
    }
  }

  // ---------------------------------------------------------------- who may open it

  lemma SameIdentity(fs: Fs, r: Fs, k: nat)
    requires k < |fs.files| && Identities(fs.files) <= Identities(r.files)
    ensures k < |r.files| && r.files[k].name == fs.files[k].name && r.files[k].owner == fs.files[k].owner
  {
    assert Identities(r.files)[k] == Identities(fs.files)[k];
  }

  /** What the path finds now, it finds after every run. */
  lemma {:induction false} StaysFound(fs: Fs, ops: seq<Op>, path: string)
    requires Bounded(fs) && Lookup(fs.files, path, 0) < |fs.files|
    ensures Lookup(Run(fs, ops).files, path, 0) == Lookup(fs.files, path, 0)
  {
    var r, k := Run(fs, ops), Lookup(fs.files, path, 0);
    RunKeepsIdentities(fs, ops);
    forall j | 0 <= j <= k ensures j < |r.files| && (Matches(r.files[j], path) <==> Matches(fs.files[j], path)) {
      SameIdentity(fs, r, j);
    }
  }

  /**
   The owner given at its creation decides for good: a file that its path opens is, after every run, refused for lack of
   permission to levels below the owner's, and to no others.
   */
  lemma {:induction false} OwnerDecides(fs: Fs, path: string, owner: nat, perms: u32, now: u64,
                                        ops: seq<Op>, level: nat)
    requires Sound(fs) && |fs.files| < 1024 && path != "" && |path| < 32
    requires forall j :: 0 <= j < |fs.files| ==> !Matches(fs.files[j], path)
    ensures var r := Run(Create(fs, path, owner, perms, now).0, ops);
            Open(r, path, level).1 == NO_PERMISSION <==> level < owner
  {
    var c := Create(fs, path, owner, perms, now).0;
    var r, k := Run(c, ops), |fs.files|;
    CreatedIsOpenedIff(fs, path, owner, perms, now);
    StaysFound(c, ops, path);
    RunKeepsIdentities(c, ops);
    SameIdentity(c, r, k);
  }

  /** And to the levels it is not refused to, as long as a descriptor is free. */
  lemma {:induction false} OwnerOpens(fs: Fs, path: string, owner: nat, perms: u32, now: u64, ops: seq<Op>, level: nat)
    requires Sound(fs) && |fs.files| < 1024 && path != "" && |path| < 32 && level >= owner
    requires forall j :: 0 <= j < |fs.files| ==> !Matches(fs.files[j], path)
    ensures var r := Run(Create(fs, path, owner, perms, now).0, ops);
            var (s, fd) := Open(r, path, level);
            if exists k :: 0 <= k < 64 && !r.fds[k].isOpen
            then fd < 64 && IsOpen(s, fd) && s.fds[fd] == Descriptor(|fs.files|, 0, true, level) && !IsOpen(r, fd)
            else fd == NO_DESCRIPTOR && s == r
  {
    var c := Create(fs, path, owner, perms, now).0;
    var r := Run(c, ops);
    OwnerDecides(fs, path, owner, perms, now, ops, level);
    CreatedIsOpenedIff(fs, path, owner, perms, now);
    StaysFound(c, ops, path);
    RunKeepsIdentities(c, ops);
    SameIdentity(c, r, |fs.files|);
  }

  // ---------------------------------------------------------------- closing

  /** The operation opens no file. */
  predicate OpensNone(ops: seq<Op>) {
    forall k :: 0 <= k < |ops| ==> !ops[k].OpenOp?
  }

  /** A closed descriptor stays closed until something is opened. */
  lemma {:induction false} StaysClosed(fs: Fs, ops: seq<Op>, fd: u32)
    requires Bounded(fs) && !IsOpen(fs, fd) && fd < |fs.fds| && !fs.fds[fd].isOpen && OpensNone(ops)
    ensures !IsOpen(Run(fs, ops), fd)
    decreases |ops|
  {
    if ops != [] {
      var op := ops[0];
      assert OpensNone(ops[1..]);
      assert !op.OpenOp?;
      assert !Step(fs, op).fds[fd].isOpen;
      StaysClosed(Step(fs, op), ops[1..], fd);
    }
  }

  /** A closed descriptor is refused: until something is opened, reading and writing deliver and change nothing. */
  lemma {:induction false} ClosedIsRefused(fs: Fs, ops: seq<Op>, fd: u32, length: u32, now: u64)
    requires Bounded(fs) && fd < 64 && OpensNone(ops)
    ensures var r := Run(Close(fs, fd), ops); Read(r, fd, length) == (r, 0) && Write(r, fd, length, now) == (r, 0)
  {
    StaysClosed(Close(fs, fd), ops, fd);
  }

  /** Closing concerns the one descriptor, and makes it free: opening again, at once, gives the same descriptor. */
  lemma CloseUndoesOpen(fs: Fs, path: string, level: nat)
    requires Sound(fs) && Open(fs, path, level).1 < 64
    ensures var (r, fd) := Open(fs, path, level);
            var c := Close(r, fd);
            && c.files == fs.files && (forall k :: 0 <= k < 64 && k != fd ==> c.fds[k] == fs.fds[k])
            && !IsOpen(c, fd) && Open(c, path, level) == (r, fd)
  {
    var (r, fd) := Open(fs, path, level);
    var c := Close(r, fd);
    var x := FreeSlot(c.fds, 0);
    assert forall k :: 0 <= k < fd ==> c.fds[k] == fs.fds[k];
    assert !c.fds[fd].isOpen;
    assert x == fd;
    assert c.fds[fd := Descriptor(Lookup(fs.files, path, 0), 0, true, level)] == r.fds;
  }

  // ---------------------------------------------------------------- positions that overflow

  /**
   What reads and writes do when the end position does not fit 32 bits: a read claims all it was asked for and goes back
   to the wrapped end; a write does the same and leaves the size as it was.
   */
  lemma OverflowIs(fs: Fs, fd: u32, length: u32, now: u64)
    requires Sound(fs) && IsOpen(fs, fd) && fs.fds[fd].position + length >= 0x1_0000_0000
    ensures var p, size := fs.fds[fd].position, SizeAt(fs, fd);
            var (r, n) := Read(fs, fd, length);
            var (w, m) := Write(fs, fd, length, now);
            && (p < size ==> n == length && r.fds[fd].position == p + length - 0x1_0000_0000)
            && (p >= size ==> n == 0 && r.fds[fd].position == p)
            && m == length && w.fds[fd].position == p + length - 0x1_0000_0000 && SizeAt(w, fd) == size
  {
    assert FdOk(fs, fs.fds[fd]);
    WrappedPosition(fs.fds[fd].position, length);
  }

  /** A write moves the position to its end, stamps the file, and touches no other file or descriptor. */
  lemma WriteMoves(fs: Fs, fd: u32, length: u32, now: u64)
    requires Sound(fs) && IsOpen(fs, fd) && fs.fds[fd].position + length < 0x1_0000_0000
    ensures var (r, n) := Write(fs, fd, length, now);
            var i := fs.fds[fd].file;
            && n == length && r.fds[fd] == fs.fds[fd].(position := fs.fds[fd].position + length)
            && r.files[i].modified == now
            && (forall k :: 0 <= k < 64 && k != fd ==> r.fds[k] == fs.fds[k])
            && (forall k :: 0 <= k < |fs.files| && k != i ==> r.files[k] == fs.files[k])
  {
    assert FdOk(fs, fs.fds[fd]);
    WrappedPosition(fs.fds[fd].position, length);
  }
}
