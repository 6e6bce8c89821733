/**
 The file and descriptor tables of kernel/core/isaf.c as values: what each call does, and what holds over every run,
 32-bit overflow of a position included. A file is its slot, a descriptor its index; a closed descriptor keeps its
 fields.
 */
module FileTable {
  import opened Words

  const MAX_FILES := 1024
  const MAX_OPEN_FILES := 64
  const FILE_NAME_MAX := 32
  const DEFAULT_FILES := 10

  const NO_FILE := 0xFFFF_FFFF
  const NO_PERMISSION := 0xFFFF_FFFE
  const NO_DESCRIPTOR := 0xFFFF_FFFD
  const NO_SPACE := 0xFFFF_FFFF

  datatype File = File(name: string, owner: nat, size: u32, inode: u32, perms: u32, created: u64, modified: u64)
  datatype Descriptor = Descriptor(file: nat, position: u32, isOpen: bool, accessor: nat)
  datatype Fs = Fs(files: seq<File>, fds: seq<Descriptor>)

  const NO_FILE_ENTRY := File("", 0, 0, 0, 0, 0, 0)
  const CLOSED := Descriptor(0, 0, false, 0)

  /** After initialisation: ten nameless entries and no open descriptor. */
  const INITIAL := Fs(seq(DEFAULT_FILES, i => NO_FILE_ENTRY), seq(MAX_OPEN_FILES, i => CLOSED))

  function Min(a: int, b: int): int {
    if a <= b then a else b
  }

  // ---------------------------------------------------------------- the calls

  function StoredName(path: string): string {
    path[..Min(|path|, FILE_NAME_MAX - 1)]
  }

  function Create(fs: Fs, path: string, owner: nat, perms: u32, now: u64): (Fs, u32)
    requires |fs.files| <= MAX_FILES
  {
    if |fs.files| >= MAX_FILES then (fs, NO_SPACE)
    else (fs.(files := fs.files + [File(StoredName(path), owner, 0, |fs.files| + 1, perms, now, now)]), |fs.files| + 1)
  }

  /** What opening accepts as a match: the path is a prefix of the stored name. */
  predicate Matches(f: File, path: string) {
    f.name != "" && path <= f.name
  }

  /** The first slot from k on that matches, |files| if there is none. */
  function Lookup(files: seq<File>, path: string, k: nat): (i: nat)
    requires k <= |files|
    ensures k <= i <= |files|
    ensures i < |files| ==> Matches(files[i], path)
    ensures forall j :: k <= j < i ==> !Matches(files[j], path)
    decreases |files| - k
  {
    if k == |files| || Matches(files[k], path) then k else Lookup(files, path, k + 1)
  }

  /** The first closed descriptor from k on, |fds| if there is none. */
  function FreeSlot(fds: seq<Descriptor>, k: nat): (i: nat)
    requires k <= |fds|
    ensures k <= i <= |fds|
    ensures i < |fds| ==> !fds[i].isOpen
    ensures forall j :: k <= j < i ==> fds[j].isOpen
    decreases |fds| - k
  {
    if k == |fds| || !fds[k].isOpen then k else FreeSlot(fds, k + 1)
  }

  predicate MayAccess(f: File, level: nat) {
    level >= f.owner
  }

  function Open(fs: Fs, path: string, level: nat): (Fs, u32)
    requires |fs.fds| == MAX_OPEN_FILES
  {
    var i := Lookup(fs.files, path, 0);
    var fd := FreeSlot(fs.fds, 0);
    if i == |fs.files| then (fs, NO_FILE)
    else if !MayAccess(fs.files[i], level) then (fs, NO_PERMISSION)
    else if fd == MAX_OPEN_FILES then (fs, NO_DESCRIPTOR)
    else (fs.(fds := fs.fds[fd := Descriptor(i, 0, true, level)]), fd)
  }

  predicate IsOpen(fs: Fs, fd: u32) {
    fd < |fs.fds| && fs.fds[fd].isOpen && fs.fds[fd].file < |fs.files|
  }

  function SizeAt(fs: Fs, fd: u32): u32
    requires IsOpen(fs, fd)
  {
    fs.files[fs.fds[fd].file].size
  }

  /** How far a read at `position` of a file of `size` bytes goes. */
  function ReadLength(position: u32, size: u32, length: u32): u32 {
    if position >= size then 0
    else if Wrap32(position + length) > size then size - position
    else length
  }

  function Read(fs: Fs, fd: u32, length: u32): (Fs, u32) {
    if !IsOpen(fs, fd) then (fs, 0)
    else
      var d := fs.fds[fd];
      var n := ReadLength(d.position, SizeAt(fs, fd), length);
      (fs.(fds := fs.fds[fd := d.(position := Wrap32(d.position + n))]), n)
  }

  function Write(fs: Fs, fd: u32, length: u32, now: u64): (Fs, u32) {
    if !IsOpen(fs, fd) || fs.fds[fd].accessor < fs.files[fs.fds[fd].file].owner then (fs, 0)
    else
      var d := fs.fds[fd];
      var f := fs.files[d.file];
      var p := Wrap32(d.position + length);
      var f' := f.(size := if p > f.size then p else f.size, modified := now);
      (Fs(fs.files[d.file := f'], fs.fds[fd := d.(position := p)]), length)
  }

  function Close(fs: Fs, fd: u32): Fs {
    if fd < |fs.fds| then fs.(fds := fs.fds[fd := fs.fds[fd].(isOpen := false)]) else fs
  }

  datatype Op =
    | CreateOp(path: string, owner: nat, perms: u32, now: u64)
    | OpenOp(path: string, level: nat)
    | ReadOp(fd: u32, length: u32)
    | WriteOp(fd: u32, length: u32, now: u64)
    | CloseOp(fd: u32)

  function Step(fs: Fs, op: Op): Fs
    requires Bounded(fs)
  {
    match op
    case CreateOp(path, owner, perms, now) => Create(fs, path, owner, perms, now).0
    case OpenOp(path, level) => Open(fs, path, level).0
    case ReadOp(fd, length) => Read(fs, fd, length).0
    case WriteOp(fd, length, now) => Write(fs, fd, length, now).0
    case CloseOp(fd) => Close(fs, fd)
  }

  function Run(fs: Fs, ops: seq<Op>): (r: Fs)
    requires Bounded(fs)
    ensures Bounded(r)
    decreases |ops|
  {
    if ops == [] then fs else Run(Step(fs, ops[0]), ops[1..])
  }

  predicate Bounded(fs: Fs) {
    |fs.files| <= MAX_FILES && |fs.fds| == MAX_OPEN_FILES
  }

  // ---------------------------------------------------------------- over all runs

  /** What is kept for an open descriptor: it is on a file its opener may access, at a position inside it. */
  predicate FdOk(fs: Fs, d: Descriptor) {
    d.isOpen ==> d.file < |fs.files| && MayAccess(fs.files[d.file], d.accessor) && d.position <= fs.files[d.file].size
  }

  ghost predicate Sound(fs: Fs) {
    Bounded(fs) && forall k :: 0 <= k < |fs.fds| ==> FdOk(fs, fs.fds[k])
  }

  /** Files stay where they are, keep their name and owner, and never shrink. */
  ghost predicate Grows(fs: Fs, r: Fs) {
    && |r.files| >= |fs.files|
    && forall i :: 0 <= i < |fs.files| ==>
                     && r.files[i].name == fs.files[i].name && r.files[i].owner == fs.files[i].owner
                     && r.files[i].inode == fs.files[i].inode && r.files[i].size >= fs.files[i].size
  }

  /** A wrapped position is below the one it wrapped from. */
  lemma WrappedPosition(position: u32, length: u32)
    ensures Wrap32(position + length) ==
            if position + length < TWO_32 then position + length else position + length - TWO_32
  {
    ModOnce(position + length, TWO_32);
  }

  lemma StepKeepsSound(fs: Fs, op: Op)
    requires Sound(fs)
    ensures Sound(Step(fs, op)) && Grows(fs, Step(fs, op))
  {
    match op
    case ReadOp(fd, length) => ReadKeepsSound(fs, fd, length);
    case WriteOp(fd, length, now) => WriteKeepsSound(fs, fd, length, now);
    case _ =>
      var r := Step(fs, op);
      assert forall k {:trigger r.fds[k]} :: 0 <= k < |r.fds| ==> FdOk(fs, fs.fds[k]);
  }

  lemma ReadKeepsSound(fs: Fs, fd: u32, length: u32)
    requires Sound(fs)
    ensures Sound(Read(fs, fd, length).0) && Grows(fs, Read(fs, fd, length).0)
  {
    if IsOpen(fs, fd) {
      var d := fs.fds[fd];
      var r := Read(fs, fd, length).0;
      WrappedPosition(d.position, length);
      WrappedPosition(d.position, ReadLength(d.position, SizeAt(fs, fd), length));
      assert FdOk(fs, d) && FdOk(r, r.fds[fd]);
      assert forall k {:trigger r.fds[k]} :: 0 <= k < |r.fds| && k != fd ==>
                                               r.fds[k] == fs.fds[k] && FdOk(fs, fs.fds[k]);
    }
  }

  lemma WriteKeepsSound(fs: Fs, fd: u32, length: u32, now: u64)
    requires Sound(fs)
    ensures Sound(Write(fs, fd, length, now).0) && Grows(fs, Write(fs, fd, length, now).0)
  {
    if IsOpen(fs, fd) {
      var r := Write(fs, fd, length, now).0;
      assert FdOk(fs, fs.fds[fd]);
      assert forall k {:trigger r.fds[k]} :: 0 <= k < |r.fds| && k != fd ==>
                                               r.fds[k] == fs.fds[k] && FdOk(fs, fs.fds[k]);
    }
  }

  /**
   Over every run, even one whose positions overflow: every open descriptor has an accessor level at least its file's
   owner level and a position at most its file's size, however many descriptors share a file; no file ever shrinks.
   */
  lemma {:induction false} RunKeepsSound(fs: Fs, ops: seq<Op>)
    requires Sound(fs)
    ensures Sound(Run(fs, ops)) && Grows(fs, Run(fs, ops))
    decreases |ops|
  {
    if ops != [] {
      StepKeepsSound(fs, ops[0]);
      RunKeepsSound(Step(fs, ops[0]), ops[1..]);
    }
  }

  /** The check that guards writing never refuses an open descriptor: opening has already made it. */
  lemma {:induction false} OpenDescriptorsMayWrite(ops: seq<Op>, fd: u32, length: u32, now: u64)
    ensures var fs := Run(INITIAL, ops); IsOpen(fs, fd) ==> Write(fs, fd, length, now).1 == length
  {
    RunKeepsSound(INITIAL, ops);
    var fs := Run(INITIAL, ops);
    if IsOpen(fs, fd) {
      assert FdOk(fs, fs.fds[fd]);
    }
  }

  // ---------------------------------------------------------------- reading and writing

  /**
   A read returns the bytes that are left, at most as many as asked for, exactly when position + length fits 32 bits.
   */
  lemma ReadExactIff(fs: Fs, fd: u32, length: u32)
    requires Sound(fs) && IsOpen(fs, fd)
    ensures var d, left := fs.fds[fd], SizeAt(fs, fd) - fs.fds[fd].position;
            var (r, n) := Read(fs, fd, length);
            (n == Min(length, left) && r.fds[fd].position == d.position + n <==>
             left == 0 || d.position + length < TWO_32)
  {
    var d := fs.fds[fd];
    assert FdOk(fs, d);
    WrappedPosition(d.position, length);
    WrappedPosition(d.position, ReadLength(d.position, SizeAt(fs, fd), length));
  }

  /** A write leaves the file as long as the larger of its size and the end of the write exactly when that end fits. */
  lemma WriteExtendsIff(fs: Fs, fd: u32, length: u32, now: u64)
    requires Sound(fs) && IsOpen(fs, fd)
    ensures var d, size := fs.fds[fd], SizeAt(fs, fd);
            var r := Write(fs, fd, length, now).0;
            IsOpen(r, fd) && (SizeAt(r, fd) == (if d.position + length > size then d.position + length else size)
                              <==> d.position + length < TWO_32)
  {
    assert FdOk(fs, fs.fds[fd]);
    WrappedPosition(fs.fds[fd].position, length);
  }

  function Sum(lengths: seq<u32>): nat {
    if lengths == [] then 0 else lengths[0] + Sum(lengths[1..])
  }

  /** The bytes delivered by reads one after the other. */
  function ReadAll(fs: Fs, fd: u32, lengths: seq<u32>): (Fs, nat)
    decreases |lengths|
  {
    if lengths == [] then (fs, 0)
    else
      var (r, n) := Read(fs, fd, lengths[0]);
      var (r', m) := ReadAll(r, fd, lengths[1..]);
      (r', n + m)
  }

  /**
   However a read is cut into pieces, the pieces deliver the same bytes: as many as are left, at most the total asked.
   */
  lemma {:induction false} ReadsAddUp(fs: Fs, fd: u32, lengths: seq<u32>)
    requires Sound(fs) && IsOpen(fs, fd)
    requires fs.fds[fd].position + Sum(lengths) < TWO_32
    ensures var left := SizeAt(fs, fd) - fs.fds[fd].position;
            ReadAll(fs, fd, lengths).1 == Min(Sum(lengths), left)
    decreases |lengths|
  {
    assert FdOk(fs, fs.fds[fd]);
    if lengths != [] {
      var r := Read(fs, fd, lengths[0]).0;
      ReadExactIff(fs, fd, lengths[0]);
      ReadKeepsSound(fs, fd, lengths[0]);
      ReadsAddUp(r, fd, lengths[1..]);
    }
  }

  // ---------------------------------------------------------------- opening

  /**
   Opening succeeds exactly when a stored name extends the path, its first such file may be accessed, and a slot is
   free.
   */
  lemma OpenIff(fs: Fs, path: string, level: nat)
    requires Sound(fs)
    ensures var (r, fd) := Open(fs, path, level);
            var i := Lookup(fs.files, path, 0);
            && (fd < MAX_OPEN_FILES <==>
                && (exists j :: 0 <= j < |fs.files| && Matches(fs.files[j], path))
                && MayAccess(fs.files[i], level)
                && (exists k :: 0 <= k < MAX_OPEN_FILES && !fs.fds[k].isOpen))
            && (fd < MAX_OPEN_FILES ==>
                  && r.fds == fs.fds[fd := Descriptor(i, 0, true, level)] && !fs.fds[fd].isOpen
                  && (forall j :: 0 <= j < i ==> !Matches(fs.files[j], path))
                  && (forall k :: 0 <= k < fd ==> fs.fds[k].isOpen))
            && (fd >= MAX_OPEN_FILES ==> r == fs)
  {
  }

  /**
   A file just created is the one its path opens exactly when the path is not empty, fits, and no earlier name extends
   it.
   */
  lemma CreatedIsOpenedIff(fs: Fs, path: string, owner: nat, perms: u32, now: u64)
    requires Sound(fs) && |fs.files| < MAX_FILES
    ensures var k, r := |fs.files|, Create(fs, path, owner, perms, now).0;
            Lookup(r.files, path, 0) == k <==>
            path != "" && |path| < FILE_NAME_MAX && forall j :: 0 <= j < k ==> !Matches(fs.files[j], path)
  {
    var k, r := |fs.files|, Create(fs, path, owner, perms, now).0;
    assert r.files[k].name == StoredName(path) && r.files[..k] == fs.files;
    assert Matches(r.files[k], path) <==> path != "" && |path| < FILE_NAME_MAX;
    assert forall j :: 0 <= j < k ==> r.files[j] == fs.files[j];
  }

  // ---------------------------------------------------------------- runs that show it

  /** A new file is opened and two bytes are written. */
  lemma TwoBytesWritten()
    ensures var fs := Step(Step(Step(INITIAL, CreateOp("a", 0, 0, 0)), OpenOp("a", 0)), WriteOp(0, 2, 0));
            && fs.files == INITIAL.files + [File("a", 0, 2, 11, 0, 0, 0)]
            && fs.fds == INITIAL.fds[0 := Descriptor(10, 2, true, 0)]
  {
    var fs1 := Step(INITIAL, CreateOp("a", 0, 0, 0));
    assert StoredName("a") == "a";
    var f := File("a", 0, 0, 11, 0, 0, 0);
    assert fs1 == INITIAL.(files := INITIAL.files + [f]);
    var i := Lookup(fs1.files, "a", 0);
    assert Matches(fs1.files[10], "a");
    assert forall j :: 0 <= j < 10 ==> fs1.files[j] == NO_FILE_ENTRY;
    assert i == 10;
    assert FreeSlot(fs1.fds, 0) == 0;
    var fs2 := Step(fs1, OpenOp("a", 0));
    assert fs2 == fs1.(fds := fs1.fds[0 := Descriptor(10, 0, true, 0)]);
    var fs3 := Step(fs2, WriteOp(0, 2, 0));
    assert fs3.files == fs2.files[10 := f.(size := 2)];
    assert fs3.fds == fs2.fds[0 := Descriptor(10, 2, true, 0)];
  }

  /**
   A run whose second write is accepted with 2^32 - 1 bytes and leaves the file two bytes long, at position 1; a read of
   as many bytes then claims to have read them all.
   */
  lemma OverflowExample()
    ensures var two := Step(Step(Step(INITIAL, CreateOp("a", 0, 0, 0)), OpenOp("a", 0)), WriteOp(0, 2, 0));
            var fs := Step(two, WriteOp(0, 0xFFFF_FFFF, 0));
            && IsOpen(fs, 0) && fs.fds[0].position == 1 && SizeAt(fs, 0) == 2
            && Read(fs, 0, 0xFFFF_FFFF).1 == 0xFFFF_FFFF && Read(fs, 0, 0xFFFF_FFFF).0.fds[0].position == 0
  {
    TwoBytesWritten();
    WrappedPosition(2, 0xFFFF_FFFF);
    WrappedPosition(1, 0xFFFF_FFFF);
  }

  /** A run that creates "ab" and then "a": the path "a" opens the first of the two. */
  lemma HiddenFileExample()
    ensures var fs := Create(Create(INITIAL, "ab", 0, 0, 0).0, "a", 0, 0, 0).0;
            && |fs.files| == 12 && fs.files[10].name == "ab" && fs.files[11].name == "a"
            && Lookup(fs.files, "a", 0) == 10
  {
    var fs := Create(Create(INITIAL, "ab", 0, 0, 0).0, "a", 0, 0, 0).0;
    assert StoredName("ab") == "ab" && StoredName("a") == "a";
    assert Matches(fs.files[10], "a");
    assert forall j :: 0 <= j < 10 ==> fs.files[j] == NO_FILE_ENTRY;
  }
}
