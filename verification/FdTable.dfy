/** The descriptor table over one RAM file system, updated in place. */
module FdTable {
  import opened Words
  import opened PathModel
  import opened VfsModel
  import opened DescModel
  import opened RamFs

  class Files {
    const files: array<Desc>
    const fs: Ramfs

    ghost predicate Shape()
      reads this, fs
    {
      files.Length == MAX_OPEN && fs.Shape() && files as object != fs.nodes && files as object != fs.data
    }

    /** The caller's memory is not the file system's. */
    ghost predicate Outside(o: object)
      reads this
    {
      o != files && o != fs.nodes && o != fs.data && o != fs && o != this
    }

    ghost function Model(): Vfs
      requires Shape()
      reads this, files, fs, fs.nodes, fs.data
    {
      Vfs(fs.Model(), files[..])
    }

    ghost predicate Valid()
      reads this, files, fs, fs.nodes, fs.data
    {
      Shape() && Inv(Model())
    }

    constructor (fs: Ramfs)
      requires fs.Valid()
      ensures Valid() && this.fs == fs && fresh(files) && Model() == Vfs(fs.Model(), Initial().table)
    {
      this.fs := fs;
      files := new Desc[MAX_OPEN](_ => FREE);
      new;
      Init();
    }

    /** Frees every descriptor, whatever was open. */
    method Init()
      requires Shape() && FsInv(fs.Model())
      modifies files
      ensures Valid() && Model() == Vfs(old(fs.Model()), Initial().table)
    {
      for i := 0 to MAX_OPEN
        invariant forall k :: 0 <= k < i ==> files[k] == FREE
      {
        files[i] := FREE;
      }
      assert files[..] == Initial().table;
    }

    method FdAlloc() returns (fd: int)
      requires Shape()
      modifies files
      ensures var i := FirstFree(old(files[..]), 0);
              if i < MAX_OPEN then fd == i && files[..] == old(files[..])[i := old(files[i]).(used := true)]
              else fd == Code(ENFile) && files[..] == old(files[..])
    {
      var i := 0;
      while i < MAX_OPEN
        invariant i <= MAX_OPEN && FirstFree(files[..], 0) == FirstFree(files[..], i)
        invariant files[..] == old(files[..])
      {
        if !files[i].used {
          files[i] := files[i].(used := true);
          return i;
        }
        i := i + 1;
      }
      fd := Code(ENFile);
    }

    method Open(path: string, given: bv32) returns (fd: int)
      requires Valid()
      modifies fs, fs.nodes, files
      ensures Valid() && (fd, Model()) == DescModel.Open(old(Model()), path, given)
    {
      ghost var was := Model();
      OpenEffect(was, path, given);
      var flags := given;
      if flags & MODE == 0 { flags := flags | RDONLY; }
      OpenNodeEffect(was.fs, path, flags);
      var rc, node := fs.Lookup(path);
      if rc != Ok {
        if flags & CREAT == 0 { return Code(rc); }
        rc, node := fs.CreateFile(path);
        if rc != Ok { return Code(rc); }
      }
      if fs.nodes[node].kind == Dir && CanWrite(flags) { return Code(EIsDir); }
      fd := Fill(node, flags);
    }

    method Fill(node: nat, flags: bv32) returns (fd: int)
      requires Shape() && node < fs.nodeCount
      modifies files, fs.nodes
      ensures Shape() && (fd, Model()) == Install(old(Model()), node, flags)
    {
      ghost var was := Model();
      fd := FdAlloc();
      if fd < 0 { return; }
      var start := if flags & APPEND != 0 then fs.nodes[node].size else 0;
      if flags & TRUNC == 0 {
        SetFile(fd, Desc(true, flags, start, Some(node)), was.table);
      } else if !CanWrite(flags) {
        SetFile(fd, Desc(false, flags, start, None), was.table);
        fd := Code(EAcces);
      } else {
        SetFile(fd, Desc(true, flags, 0, Some(node)), was.table);
        fs.nodes[node] := fs.nodes[node].(size := 0);
        assert fs.nodes[..fs.nodeCount] == was.fs.nodes[node := fs.nodes[node]];
      }
    }

    /** Fills a slot just allocated from `table`. */
    method SetFile(fd: int, d: Desc, ghost table: seq<Desc>)
      requires Shape() && 0 <= fd < MAX_OPEN && |table| == MAX_OPEN && files[..] == table[fd := files[fd]]
      modifies files
      ensures Model() == old(Model()).(table := table[fd := d])
    {
      files[fd] := d;
      assert files[..] == table[fd := d];
    }

    /** The file behind a descriptor that may be read, or written. */
    method Check(fd: int, write: bool) returns (rc: Status, node: nat)
      requires Valid()
      ensures var allowed := IsOpen(Model(), fd) &&
                             if write then CanWrite(files[fd].flags) else CanRead(files[fd].flags);
              Access(Model(), fd, allowed) == if rc == Ok then Good(node) else Bad(rc)
    {
      node := 0;
      if fd < 0 || fd >= MAX_OPEN || !files[fd].used { return EBadf, 0; }
      if write && !CanWrite(files[fd].flags) { return EAcces, 0; }
      if !write && !CanRead(files[fd].flags) { return EAcces, 0; }
      assert Refers(Model(), fd);
      node := files[fd].node.value;
      rc := if fs.nodes[node].kind == Dir then EIsDir else Ok;
    }

    /** Copies `n` bytes of the store into the caller's buffer. */
    method CopyToUser(buf: array<bv8>, at: nat, n: nat)
      requires Shape() && at + n <= DATA_BYTES && n <= buf.Length && Outside(buf)
      modifies buf
      ensures buf[..n] == fs.data[at..at + n] && buf[n..] == old(buf[n..]) && Model() == old(Model())
    {
      var i := 0;
      while i < n
        invariant i <= n && buf[..i] == fs.data[at..at + i] && buf[n..] == old(buf[n..])
      {
        buf[i] := fs.data[at + i];
        i := i + 1;
      }
    }

    /** Reads from a file the descriptor may read. */
    method ReadFile(fd: int, node: nat, buf: array<bv8>, len: nat) returns (n: int)
      requires Valid() && len <= buf.Length && Outside(buf) && 0 <= fd < MAX_OPEN && node < fs.nodeCount
      modifies files, buf
      ensures var (m, bytes, w) := ReadNode(old(Model()), fd, node, len);
              && Shape() && n == m && Model() == w && |bytes| <= len
              && buf[..|bytes|] == bytes && buf[|bytes|..] == old(buf[|bytes|..])
    {
      var f, at := fs.nodes[node], files[fd].offset;
      if at >= f.size { return 0; }
      n := if len < f.size - at then len else f.size - at;
      assert InExtent(fs.Model(), node);
      CopyToUser(buf, f.offset + at, n);
      Advance(fd, at + n);
    }

    method Read(fd: int, buf: array<bv8>, len: nat) returns (n: int)
      requires Valid() && len <= buf.Length && Outside(buf)
      modifies files, buf
      ensures Valid()
      ensures var (m, bytes, w) := DescModel.Read(old(Model()), fd, len);
              && n == m && Model() == w && |bytes| <= len
              && buf[..|bytes|] == bytes && buf[|bytes|..] == old(buf[|bytes|..])
    {
      ReadEffect(Model(), fd, len);
      var rc, node := Check(fd, false);
      if rc != Ok { return Code(rc); }
      n := ReadFile(fd, node, buf, len);
    }

    /** Moves one descriptor's offset. */
    method Advance(fd: int, offset: nat)
      requires Shape() && 0 <= fd < MAX_OPEN
      modifies files
      ensures Model() == SetOffset(old(Model()), fd, offset)
    {
      files[fd] := files[fd].(offset := offset);
    }

    /** Writes to a file the descriptor may write, at its offset. */
    method WriteFile(fd: int, node: nat, buf: seq<bv8>) returns (n: int)
      requires Shape() && FsInv(fs.Model()) && 0 <= fd < MAX_OPEN && node < fs.nodeCount
      modifies files, fs.nodes, fs.data
      ensures Shape() && (n, Model()) == WriteNode(old(Model()), fd, node, buf)
    {
      var at, cap := files[fd].offset, fs.nodes[node].cap;
      if at > cap { return Code(EInval); }
      if cap - at < |buf| { return Code(ENoSpc); }
      StoreAt(node, at, buf);
      Advance(fd, at + |buf|);
      n := |buf|;
    }

    method Write(fd: int, buf: seq<bv8>) returns (n: int)
      requires Valid()
      modifies files, fs.nodes, fs.data
      ensures Shape() && (n, Model()) == DescModel.Write(old(Model()), fd, buf) && Valid()
    {
      WriteEffect(Model(), fd, buf);
      var rc, node := Check(fd, true);
      if rc != Ok { return Code(rc); }
      if files[fd].flags & APPEND != 0 { Advance(fd, fs.nodes[node].size); }
      n := WriteFile(fd, node, buf);
    }

    /** Copies the buffer into a file's extent and raises its size to the end of what was written. */
    method StoreAt(node: nat, at: nat, buf: seq<bv8>)
      requires Shape() && FsInv(fs.Model()) && node < fs.nodeCount && at + |buf| <= fs.nodes[node].cap
      modifies fs.nodes, fs.data
      ensures var end, size := at + |buf|, old(fs.nodes[node].size);
              var stored := Store(old(fs.Model()), node, at, buf, if end > size then end else size);
              Shape() && Model() == old(Model()).(fs := stored)
    {
      assert InExtent(fs.Model(), node);
      fs.CopyBytes(fs.nodes[node].offset + at, buf);
      if at + |buf| > fs.nodes[node].size { fs.nodes[node] := fs.nodes[node].(size := at + |buf|); }
      assert fs.nodes[..fs.nodeCount] == old(fs.Model()).nodes[node := fs.nodes[node]];
    }

    method Lseek(fd: int, offset: int, whence: int) returns (n: int)
      requires Valid()
      modifies files
      ensures Valid() && (n, Model()) == DescModel.Lseek(old(Model()), fd, offset, whence)
    {
      SeekEffect(Model(), fd, offset, whence);
      if fd < 0 || fd >= MAX_OPEN || !files[fd].used { return Code(EBadf); }
      assert Refers(Model(), fd);
      if fs.nodes[files[fd].node.value].kind == Dir { return Code(EIsDir); }
      var base := 0;
      if whence == SEEK_SET {
        base := 0;
      } else if whence == SEEK_CUR {
        base := files[fd].offset;
      } else if whence == SEEK_END {
        base := fs.nodes[files[fd].node.value].size;
      } else {
        return Code(EInval);
      }
      var next := base + offset;
      if next < 0 { return Code(EInval); }
      Advance(fd, next);
      n := ToInt32(next);
    }

    method Close(fd: int) returns (rc: int)
      requires Valid()
      modifies files
      ensures Valid() && (rc, Model()) == DescModel.Close(old(Model()), fd)
    {
      CloseKeeps(Model(), fd);
      if fd < 0 || fd >= MAX_OPEN || !files[fd].used { return Code(EBadf); }
      files[fd] := FREE;
      rc := 0;
    }

    method Dup(fd: int) returns (d: int)
      requires Valid()
      modifies files
      ensures Valid() && (d, Model()) == DescModel.Dup(old(Model()), fd)
    {
      DupKeeps(Model(), fd);
      ghost var was := Model();
      if fd < 0 || fd >= MAX_OPEN || !files[fd].used { return Code(EBadf); }
      d := FdAlloc();
      if d < 0 { return; }
      files[d] := files[d].(flags := files[fd].flags, offset := files[fd].offset, node := files[fd].node);
      assert files[..] == was.table[d := was.table[fd]];
    }
  }
}
