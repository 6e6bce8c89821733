/** The file system of kernel/core/isaf.c: its two static tables, with names in 32-byte buffers, updated in place. */
module IsaFs {
  import opened Words
  import opened CStrings
  import opened FileTable

  datatype Entry = Entry(name: seq<char>, owner: nat, size: u32, inode: u32, perms: u32, created: u64, modified: u64)

  predicate Terminated(name: seq<char>) {
    |name| == FILE_NAME_MAX && NUL in name
  }

  function AsFile(e: Entry): File {
    File(CString(e.name), e.owner, e.size, e.inode, e.perms, e.created, e.modified)
  }

  const EMPTY_NAME: seq<char> := seq(FILE_NAME_MAX, i => NUL)
  const NO_ENTRY := Entry(EMPTY_NAME, 0, 0, 0, 0, 0, 0)

  class FileSystem {
    const fileTable: array<Entry>
    const fdTable: array<Descriptor>
    var fileCount: u32

    ghost predicate Valid()
      reads this, fileTable, fdTable
    {
      && fileTable.Length == MAX_FILES && fdTable.Length == MAX_OPEN_FILES && fileCount <= MAX_FILES
      && (forall i :: 0 <= i < fileTable.Length ==> |fileTable[i].name| == FILE_NAME_MAX)
      && (forall i :: 0 <= i < fileCount ==> Terminated(fileTable[i].name))
      && Sound(View())
    }

    /** The slots in use, with their names as C strings. */
    ghost function View(): Fs
      requires fileCount <= fileTable.Length
      reads this, fileTable, fdTable
    {
      Fs(Files(fileTable[..fileCount]), fdTable[..])
    }

    static ghost function Files(entries: seq<Entry>): (fs: seq<File>)
      ensures |fs| == |entries|
    {
      seq(|entries|, i requires 0 <= i < |entries| => AsFile(entries[i]))
    }

    constructor ()
      ensures Valid() && View() == INITIAL && fresh(fileTable) && fresh(fdTable)
    {
      fileTable := new Entry[MAX_FILES](_ => NO_ENTRY);
      fdTable := new Descriptor[MAX_OPEN_FILES](_ => CLOSED);
      fileCount := DEFAULT_FILES;
      new;
      assert EMPTY_NAME[0] == NUL;
      assert fdTable[..] == INITIAL.fds;
      assert Files(fileTable[..fileCount]) == INITIAL.files;
    }

    /** The comparison loop for one slot. */
    method Compare(path: string, i: u32) returns (found: bool)
      requires Valid() && i < fileCount && NUL !in path
      ensures found == Matches(View().files[i], path)
    {
      var name := fileTable[i].name;
      ghost var f := View().files[i];
      assert f == AsFile(fileTable[i]);
      if name[0] == NUL {
        return false;
      }
      ComparesPrefix(path, name);
      var j := 0;
      while j < FILE_NAME_MAX && j < |path|
        invariant 0 <= j <= |path| && j <= FILE_NAME_MAX
        invariant forall k :: 0 <= k < j ==> path[k] == name[k]
      {
        if path[j] != name[j] {
          return false;
        }
        j := j + 1;
      }
      found := true;
    }

    method FindFile(path: string) returns (i: u32)
      requires Valid() && NUL !in path
      ensures i == Lookup(View().files, path, 0)
    {
      i := 0;
      while i < fileCount
        invariant 0 <= i <= fileCount
        invariant Lookup(View().files, path, i) == Lookup(View().files, path, 0)
      {
        var found := Compare(path, i);
        if found {
          return;
        }
        i := i + 1;
      }
    }

    method FindDescriptor() returns (fd: u32)
      requires Valid()
      ensures fd == FreeSlot(View().fds, 0)
    {
      fd := 0;
      while fd < MAX_OPEN_FILES
        invariant 0 <= fd <= MAX_OPEN_FILES
        invariant FreeSlot(View().fds, fd) == FreeSlot(View().fds, 0)
      {
        if !fdTable[fd].isOpen {
          return;
        }
        fd := fd + 1;
      }
    }

    method IsafOpen(path: string, level: nat) returns (r: u32)
      requires Valid() && NUL !in path
      modifies fdTable
      ensures Valid() && (View(), r) == Open(old(View()), path, level)
    {
      StepKeepsSound(View(), OpenOp(path, level));
      var i := FindFile(path);
      if i == fileCount {
        return NO_FILE;
      }
      ghost var f := View().files[i];
      if level < fileTable[i].owner {
        return NO_PERMISSION;
      }
      r := FindDescriptor();
      if r == MAX_OPEN_FILES {
        return NO_DESCRIPTOR;
      }
      fdTable[r] := Descriptor(i, 0, true, level);
    }

    method IsafRead(fd: u32, length: u32) returns (r: u32)
      requires Valid()
      modifies fdTable
      ensures Valid() && (View(), r) == Read(old(View()), fd, length)
    {
      StepKeepsSound(View(), ReadOp(fd, length));
      if fd >= MAX_OPEN_FILES || !fdTable[fd].isOpen {
        return 0;
      }
      ghost var fs := View();
      assert FdOk(fs, fs.fds[fd]);
      var d := fdTable[fd];
      assert fs.files[d.file] == AsFile(fileTable[d.file]);
      var size := fileTable[d.file].size;
      if d.position >= size {
        WrapSmall(d.position);
        assert fs.fds[fd := d] == fs.fds;
        return 0;
      }
      var toRead := length;
      if Wrap32(d.position + toRead) > size {
        toRead := size - d.position;
      }
      fdTable[fd] := d.(position := Wrap32(d.position + toRead));
      r := toRead;
    }

    method IsafWrite(fd: u32, length: u32, now: u64) returns (r: u32)
      requires Valid()
      modifies fdTable, fileTable
      ensures Valid() && (View(), r) == Write(old(View()), fd, length, now)
    {
      StepKeepsSound(View(), WriteOp(fd, length, now));
      r := 0;
      if fd >= MAX_OPEN_FILES || !fdTable[fd].isOpen {
        return 0;
      }
      ghost var fs := View();
      assert FdOk(fs, fs.fds[fd]);
      var d := fdTable[fd];
      assert fs.files[d.file] == AsFile(fileTable[d.file]);
      if d.accessor < fileTable[d.file].owner {
        return;
      }
      d := d.(position := Wrap32(d.position + length));
      fdTable[fd] := d;
      var f := fileTable[d.file];
      if d.position > f.size {
        f := f.(size := d.position);
      }
      f := f.(modified := now);
      fileTable[d.file] := f;
      assert Files(fileTable[..fileCount]) == fs.files[d.file := AsFile(f)];
      r := length;
    }

    method IsafClose(fd: u32)
      requires Valid()
      modifies fdTable
      ensures Valid() && View() == Close(old(View()), fd)
    {
      StepKeepsSound(View(), CloseOp(fd));
      if fd < MAX_OPEN_FILES {
        fdTable[fd] := fdTable[fd].(isOpen := false);
      }
    }

    /** Copies a path into a name buffer, cut to 31 characters. */
    method CopyName(path: string, buf: seq<char>) returns (name: seq<char>)
      requires NUL !in path && |buf| == FILE_NAME_MAX
      ensures Terminated(name) && CString(name) == StoredName(path)
    {
      name := buf;
      var i := 0;
      while i < FILE_NAME_MAX - 1 && i < |path|
        invariant 0 <= i <= |path| && i <= FILE_NAME_MAX - 1 && |name| == FILE_NAME_MAX
        invariant name[..i] == path[..i]
      {
        name := name[i := path[i]];
        i := i + 1;
      }
      name := name[i := NUL];
      assert name[i] == NUL;
      CStringOfCopy(path[..i], name);
    }

    method IsafCreate(path: string, owner: nat, perms: u32, now: u64) returns (r: u32)
      requires Valid() && NUL !in path
      modifies this`fileCount, fileTable
      ensures Valid() && (View(), r) == Create(old(View()), path, owner, perms, now)
    {
      StepKeepsSound(View(), CreateOp(path, owner, perms, now));
      if fileCount >= MAX_FILES {
        return NO_SPACE;
      }
      var name := CopyName(path, fileTable[fileCount].name);
      ghost var fs, e := View(), Entry(name, owner, 0, fileCount + 1, perms, now, now);
      fileTable[fileCount] := Entry(name, owner, 0, fileCount + 1, perms, now, now);
      assert Files(fileTable[..fileCount + 1]) == fs.files + [AsFile(e)];
      fileCount := fileCount + 1;
      r := fileCount;
    }
  }
}
