/** File descriptors over the RAM file system: open, read, write, seek, close, duplicate. Results follow
    the C convention: a count or descriptor, or a negative error code. A descriptor's node and file-system
    pointers are set and cleared together and appear as one optional node. */
module DescModel {
  import opened Words
  import opened PathModel
  import opened VfsModel

  datatype Desc = Desc(used: bool, flags: bv32, offset: nat, node: Option<nat>)

  const FREE: Desc := Desc(false, 0, 0, None)

  datatype Vfs = Vfs(fs: Fs, table: seq<Desc>)

  predicate CanRead(flags: bv32) { flags & RDONLY != 0 || flags & RDWR != 0 }
  predicate CanWrite(flags: bv32) { flags & WRONLY != 0 || flags & RDWR != 0 }

  /** Storage is sound and every used descriptor refers to a live node. */
  ghost predicate Inv(v: Vfs) {
    && FsInv(v.fs) && |v.table| == MAX_OPEN
    && forall i :: 0 <= i < MAX_OPEN ==> Refers(v, i)
  }

  predicate Refers(v: Vfs, i: int) {
    0 <= i < |v.table| && v.table[i].used ==> v.table[i].node.Some? && v.table[i].node.value < |v.fs.nodes|
  }

  function Initial(): Vfs {
    Vfs(InitialFs(), seq(MAX_OPEN, _ => FREE))
  }

  predicate IsOpen(v: Vfs, fd: int) {
    0 <= fd < |v.table| && v.table[fd].used
  }

  /** Lowest unused slot, or the length of the table. */
  function FirstFree(table: seq<Desc>, from: nat): (i: nat)
    requires from <= |table|
    ensures from <= i <= |table| && (i < |table| ==> !table[i].used)
    ensures forall j :: from <= j < i ==> table[j].used
    decreases |table| - from
  {
    if from == |table| || !table[from].used then from else FirstFree(table, from + 1)
  }

  function WithDefault(flags: bv32): bv32 {
    if flags & MODE == 0 then flags | RDONLY else flags
  }

  /** The node `open` works on: what the path names, or a file created for it. */
  function OpenNode(fs: Fs, path: string, flags: bv32): (Result<nat>, Fs) {
    var found := Lookup(fs.nodes, path);
    if found.Good? || flags & CREAT == 0 then (found, fs) else CreateFile(fs, path)
  }

  /** Puts an opened node in the lowest free slot; truncation needs write access. */
  function Install(v: Vfs, n: nat, flags: bv32): (int, Vfs)
    requires n < |v.fs.nodes|
  {
    var fd := FirstFree(v.table, 0);
    if fd == |v.table| then (Code(ENFile), v)
    else
      var start := if flags & APPEND != 0 then v.fs.nodes[n].size else 0;
      if flags & TRUNC == 0 then (fd, v.(table := v.table[fd := Desc(true, flags, start, Some(n))]))
      else if !CanWrite(flags) then (Code(EAcces), v.(table := v.table[fd := Desc(false, flags, start, None)]))
      else (fd, Vfs(SetSize(v.fs, n, 0), v.table[fd := Desc(true, flags, 0, Some(n))]))
  }

  function Open(v: Vfs, path: string, given: bv32): (int, Vfs)
    requires FsInv(v.fs)
  {
    var flags := WithDefault(given);
    var (r, fs) := OpenNode(v.fs, path, flags);
    OpenNodeEffect(v.fs, path, flags);
    if r.Bad? then (Code(r.status), v.(fs := fs))
    else if fs.nodes[r.value].kind == Dir && CanWrite(flags) then (Code(EIsDir), v.(fs := fs))
    else Install(v.(fs := fs), r.value, flags)
  }

  /** The file behind a descriptor that passes the tests of read or write. */
  function Access(v: Vfs, fd: int, allowed: bool): (r: Result<nat>)
    ensures r != Bad(Ok)
  {
    if !IsOpen(v, fd) then Bad(EBadf)
    else if !allowed then Bad(EAcces)
    else if v.table[fd].node.None? || v.table[fd].node.value >= |v.fs.nodes| then Bad(EInval)
    else if v.fs.nodes[v.table[fd].node.value].kind == Dir then Bad(EIsDir)
    else Good(v.table[fd].node.value)
  }

  function SetOffset(v: Vfs, fd: int, offset: nat): Vfs
    requires 0 <= fd < |v.table|
  {
    v.(table := v.table[fd := v.table[fd].(offset := offset)])
  }

  /** At most `len` bytes of file `k` from the descriptor's offset; none at or past the end. */
  function ReadNode(v: Vfs, fd: int, k: nat, len: nat): (int, seq<bv8>, Vfs)
    requires Inv(v) && 0 <= fd < |v.table| && k < |v.fs.nodes|
  {
    var f, at := v.fs.nodes[k], v.table[fd].offset;
    if at >= f.size then (0, [], v)
    else
      assert InExtent(v.fs, k);
      var n := Min(len, f.size - at);
      (n, v.fs.data[f.offset + at..f.offset + at + n], SetOffset(v, fd, at + n))
  }

  function Read(v: Vfs, fd: int, len: nat): (int, seq<bv8>, Vfs)
    requires Inv(v)
  {
    var r := Access(v, fd, IsOpen(v, fd) && CanRead(v.table[fd].flags));
    if r.Bad? then (Code(r.status), [], v) else ReadNode(v, fd, r.value, len)
  }

  /** All of `buf` into file `k` at the descriptor's offset, or nothing. */
  function WriteNode(v: Vfs, fd: int, k: nat, buf: seq<bv8>): (int, Vfs)
    requires FsInv(v.fs) && 0 <= fd < |v.table| && k < |v.fs.nodes|
  {
    var f, at := v.fs.nodes[k], v.table[fd].offset;
    if at > f.cap then (Code(EInval), v)
    else if f.cap - at < |buf| then (Code(ENoSpc), v)
    else
      var end := at + |buf|;
      (|buf|, SetOffset(v.(fs := Store(v.fs, k, at, buf, if end > f.size then end else f.size)), fd, end))
  }

  /** Appending moves the offset to the end first, and a refused append has still moved it. */
  function Write(v: Vfs, fd: int, buf: seq<bv8>): (int, Vfs)
    requires Inv(v)
  {
    var r := Access(v, fd, IsOpen(v, fd) && CanWrite(v.table[fd].flags));
    if r.Bad? then (Code(r.status), v)
    else if v.table[fd].flags & APPEND == 0 then WriteNode(v, fd, r.value, buf)
    else WriteNode(SetOffset(v, fd, v.fs.nodes[r.value].size), fd, r.value, buf)
  }

  const SEEK_SET := 0
  const SEEK_CUR := 1
  const SEEK_END := 2

  /** A conversion to a 32-bit int keeps the low 32 bits. */
  function ToInt32(x: nat): int {
    var low := x % 0x1_0000_0000;
    if low >= 0x8000_0000 then low - 0x1_0000_0000 else low
  }

  function SeekBase(v: Vfs, fd: int, whence: int): nat
    requires IsOpen(v, fd) && v.table[fd].node.Some? && v.table[fd].node.value < |v.fs.nodes|
  {
    if whence == SEEK_CUR then v.table[fd].offset
    else if whence == SEEK_END then v.fs.nodes[v.table[fd].node.value].size else 0
  }

  function Lseek(v: Vfs, fd: int, offset: int, whence: int): (int, Vfs) {
    if !IsOpen(v, fd) then (Code(EBadf), v)
    else if v.table[fd].node.None? || v.table[fd].node.value >= |v.fs.nodes| ||
            v.fs.nodes[v.table[fd].node.value].kind == Dir then (Code(EIsDir), v)
    else if whence != SEEK_SET && whence != SEEK_CUR && whence != SEEK_END then (Code(EInval), v)
    else
      var next := SeekBase(v, fd, whence) + offset;
      if next < 0 then (Code(EInval), v) else (ToInt32(next), SetOffset(v, fd, next))
  }

  function Close(v: Vfs, fd: int): (int, Vfs) {
    if !IsOpen(v, fd) then (Code(EBadf), v) else (0, v.(table := v.table[fd := FREE]))
  }

  /** A copy in the lowest free slot, with its own offset from then on. */
  function Dup(v: Vfs, fd: int): (int, Vfs) {
    if !IsOpen(v, fd) then (Code(EBadf), v)
    else
      var slot := FirstFree(v.table, 0);
      if slot == |v.table| then (Code(ENFile), v) else (slot, v.(table := v.table[slot := v.table[fd]]))
  }

  // ---------- what each call keeps and touches ----------

  lemma InitialInv()
    ensures Inv(Initial())
  {
    InitialFsInv();
  }

  /** A call that changes the table only in one slot, soundly, and the storage soundly. */
  lemma TableKeeps(v: Vfs, fs: Fs, fd: nat, d: Desc)
    requires Inv(v) && FsInv(fs) && |v.fs.nodes| <= |fs.nodes| && fd < MAX_OPEN
    requires d.used ==> d.node.Some? && d.node.value < |fs.nodes|
    ensures Inv(Vfs(fs, v.table[fd := d]))
  {
    var w := Vfs(fs, v.table[fd := d]);
    forall i | 0 <= i < MAX_OPEN ensures Refers(w, i) { assert Refers(v, i); }
  }

  lemma FsGrows(v: Vfs, fs: Fs)
    requires Inv(v) && FsInv(fs) && |v.fs.nodes| <= |fs.nodes|
    ensures Inv(v.(fs := fs))
  {
    forall i | 0 <= i < MAX_OPEN ensures Refers(v.(fs := fs), i) { assert Refers(v, i); }
  }

  lemma OpenNodeEffect(fs: Fs, path: string, flags: bv32)
    requires FsInv(fs)
    ensures var (r, gs) := OpenNode(fs, path, flags);
            && FsInv(gs) && r != Bad(Ok) && (r.Good? ==> r.value < |gs.nodes| && Lookup(gs.nodes, path) == r)
            && (r.Good? && r.value < |fs.nodes| ==> Lookup(fs.nodes, path) == r)
            && Keeps(fs.nodes, gs.nodes)
            && (forall m :: 0 <= m < |fs.nodes| ==> Untouched(fs, gs, m))
  {
    CreateEffect(fs, path);
    if Lookup(fs.nodes, path).Good? { ResolvesOnlyToItself(fs.nodes, path); }
  }

  /** Slot `fd` is free and every slot below it is used. */
  predicate LowestFree(table: seq<Desc>, fd: int) {
    0 <= fd < |table| && !table[fd].used && forall g :: 0 <= g < fd ==> table[g].used
  }

  lemma InstallEffect(v: Vfs, n: nat, flags: bv32)
    requires Inv(v) && n < |v.fs.nodes| && flags == WithDefault(flags)
    ensures var (fd, w) := Install(v, n, flags);
            && Inv(w) && |w.fs.nodes| == |v.fs.nodes| && Keeps(v.fs.nodes, w.fs.nodes)
            && (fd < 0 || flags & TRUNC == 0 ==> w.fs == v.fs)
            && (forall m :: 0 <= m < |v.fs.nodes| && m != n ==> Untouched(v.fs, w.fs, m))
            && (forall g :: 0 <= g < MAX_OPEN && v.table[g].used ==> w.table[g] == v.table[g])
            && (fd >= 0 ==> LowestFree(v.table, fd) && w.table[fd].node == Some(n) && Records(w, fd, flags))
  {
    var fd := FirstFree(v.table, 0);
    ResizeKeepsInv(v.fs, n, 0);
    if fd < |v.table| {
      var w := Install(v, n, flags).1;
      TableKeeps(v, w.fs, fd, w.table[fd]);
    }
  }

  /** The descriptor is open with that mode, at the end of its file when appending and else at the start; a
      truncated file is empty. */
  predicate Recorded(w: Vfs, fd: int, mode: bv32, append: bool, truncate: bool) {
    && IsOpen(w, fd) && w.table[fd].node.Some? && w.table[fd].node.value < |w.fs.nodes| && w.table[fd].flags == mode
    && var size := w.fs.nodes[w.table[fd].node.value].size;
       w.table[fd].offset == (if append then size else 0) && (truncate ==> size == 0)
  }

  /** The mode a descriptor records: read-only when none of the three mode bits is given. */
  function Mode(flags: bv32): bv32 {
    if flags & 0x7 == 0 then flags | 0x1 else flags
  }

  predicate Appends(flags: bv32) { flags & 0x400 != 0 }
  predicate Truncates(flags: bv32) { flags & 0x200 != 0 }

  predicate Records(w: Vfs, fd: int, flags: bv32) {
    Recorded(w, fd, Mode(flags), Appends(flags), Truncates(flags))
  }

  /** The lowest free descriptor now refers to the node the path names, or nothing was opened. Only a
      successful truncation of that node changes any file; open descriptors stay as they are. */
  ghost predicate Opened(v: Vfs, w: Vfs, path: string, flags: bv32, fd: int) {
    && Inv(w) && Keeps(v.fs.nodes, w.fs.nodes)
    && (forall m :: 0 <= m < |v.fs.nodes| && (fd < 0 || !Truncates(flags) || Lookup(v.fs.nodes, path) != Good(m)) ==>
          Untouched(v.fs, w.fs, m))
    && |v.table| == MAX_OPEN && (forall g :: 0 <= g < MAX_OPEN && v.table[g].used ==> w.table[g] == v.table[g])
    && (fd >= 0 ==> LowestFree(v.table, fd) && Records(w, fd, flags) &&
                    Lookup(w.fs.nodes, path) == Good(w.table[fd].node.value))
  }

  lemma OpenEffect(v: Vfs, path: string, given: bv32)
    requires Inv(v)
    ensures Opened(v, Open(v, path, given).1, path, given, Open(v, path, given).0)
  {
    var flags := WithDefault(given);
    var (r, fs) := OpenNode(v.fs, path, flags);
    OpenNodeEffect(v.fs, path, flags);
    OpenRefused(v, fs, path, given);
    DefaultTwice(given);
    if r.Good? {
      InstallAfter(v, fs, path, r.value, flags);
      var (fd, w) := Install(v.(fs := fs), r.value, flags);
      DefaultMode(given);
      DefaultOpened(v, w, path, given, flags, fd);
    }
  }

  /** The default mode changes nothing that open promises. */
  lemma DefaultOpened(v: Vfs, w: Vfs, path: string, given: bv32, f: bv32, fd: int)
    requires SameMode(given, f) && Opened(v, w, path, f, fd)
    ensures Opened(v, w, path, given, fd)
  {
    if fd >= 0 { assert Records(w, fd, f) && Records(w, fd, given); }
  }

  /** Both flags lead to the same descriptor. */
  predicate SameMode(given: bv32, f: bv32) {
    Mode(f) == Mode(given) && Appends(f) == Appends(given) && Truncates(f) == Truncates(given)
  }

  lemma DefaultMode(given: bv32)
    ensures SameMode(given, WithDefault(given))
  {
    if given & MODE == 0 { ReadOnly(given, given | RDONLY); }
  }

  lemma ReadOnly(x: bv32, f: bv32)
    requires x & 0x7 == 0 && f == x | 0x1
    ensures SameMode(x, f)
  {
    OneMoreBit(x);
  }

  lemma OneMoreBit(x: bv32)
    ensures (x | 0x1) & 0x7 != 0 && (x | 0x1) & 0x400 == x & 0x400 && (x | 0x1) & 0x200 == x & 0x200
  {
  }

  lemma OpenRefused(v: Vfs, fs: Fs, path: string, flags: bv32)
    requires Inv(v) && FsInv(fs) && Keeps(v.fs.nodes, fs.nodes)
    requires forall m :: 0 <= m < |v.fs.nodes| ==> Untouched(v.fs, fs, m)
    ensures forall code :: code < 0 ==> Opened(v, v.(fs := fs), path, flags, code)
  {
    FsGrows(v, fs);
  }

  lemma InstallAfter(v: Vfs, fs: Fs, path: string, n: nat, flags: bv32)
    requires Inv(v) && FsInv(fs) && n < |fs.nodes| && Lookup(fs.nodes, path) == Good(n) && Keeps(v.fs.nodes, fs.nodes)
    requires (n < |v.fs.nodes| ==> Lookup(v.fs.nodes, path) == Good(n)) && flags == WithDefault(flags)
    requires forall m :: 0 <= m < |v.fs.nodes| ==> Untouched(v.fs, fs, m)
    ensures var (fd, w) := Install(v.(fs := fs), n, flags); Opened(v, w, path, flags, fd)
  {
    FsGrows(v, fs);
    var (fd, w) := Install(v.(fs := fs), n, flags);
    InstallEffect(v.(fs := fs), n, flags);
    KeepsLookup(fs.nodes, w.fs.nodes, path);
    forall m | 0 <= m < |v.fs.nodes| && (fd < 0 || flags & TRUNC == 0 || m != n) ensures Untouched(v.fs, w.fs, m) {
      if w.fs != fs { UntouchedTwice(v.fs, fs, w.fs, m); }
    }
  }

  lemma ReadEffect(v: Vfs, fd: int, len: nat)
    requires Inv(v)
    ensures var (n, bytes, w) := Read(v, fd, len);
            && Inv(w) && w.fs == v.fs
            && (n >= 0 ==> && IsOpen(v, fd) && v.table[fd].node.Some? && v.table[fd].node.value < |v.fs.nodes|
                           && var seen, at := Content(v.fs, v.table[fd].node.value), v.table[fd].offset;
                              && n == (if at >= |seen| then 0 else Min(len, |seen| - at))
                              && bytes == (if at >= |seen| then [] else seen[at..at + n])
                              && w == SetOffset(v, fd, at + n))
            && (n < 0 ==> w == v)
  {
    var r := Access(v, fd, IsOpen(v, fd) && CanRead(v.table[fd].flags));
    if r.Good? {
      assert InExtent(v.fs, r.value) && Refers(v, fd);
      TableKeeps(v, v.fs, fd, Read(v, fd, len).2.table[fd]);
      assert SetOffset(v, fd, v.table[fd].offset) == v;
      var f, at, n := v.fs.nodes[r.value], v.table[fd].offset, Read(v, fd, len).0;
      if at < f.size { Slices(v.fs.data, f.offset, f.offset + f.cap, f.size, at, at + n); }
    }
  }

  lemma Slices(data: seq<bv8>, lo: nat, hi: nat, size: nat, a: nat, b: nat)
    requires lo + size <= hi <= |data| && a <= b <= size
    ensures data[lo..hi][..size][a..b] == data[lo + a..lo + b]
  {
    var x, y := data[lo..hi][..size][a..b], data[lo + a..lo + b];
    forall i | 0 <= i < b - a ensures x[i] == y[i] {
      assert x[i] == data[lo..hi][a + i] == data[lo + (a + i)];
    }
    assert x == y;
  }

  /** Where a write through the descriptor starts. */
  function WriteAt(v: Vfs, fd: int): nat
    requires IsOpen(v, fd) && Refers(v, fd)
  {
    if v.table[fd].flags & APPEND != 0 then v.fs.nodes[v.table[fd].node.value].size else v.table[fd].offset
  }

  /** The buffer is in file `k` from `at` on, the size has risen to its end, and no other file changed. */
  ghost predicate Stored(fs: Fs, gs: Fs, k: nat, at: nat, buf: seq<bv8>) {
    && FsInv(fs) && FsInv(gs) && k < |fs.nodes| == |gs.nodes| && at + |buf| <= |ExtentBytes(fs, k)|
    && ExtentBytes(gs, k) == Overwrite(ExtentBytes(fs, k), at, buf) && Keeps(fs.nodes, gs.nodes)
    && gs.nodes[k].size == (if at + |buf| > fs.nodes[k].size then at + |buf| else fs.nodes[k].size)
    && forall m :: 0 <= m < |fs.nodes| && m != k ==> Untouched(fs, gs, m)
  }

  ghost predicate Wrote(v: Vfs, w: Vfs, fd: int, buf: seq<bv8>)
    requires IsOpen(v, fd) && Refers(v, fd)
  {
    var at := WriteAt(v, fd);
    && Stored(v.fs, w.fs, v.table[fd].node.value, at, buf)
    && w.table == v.table[fd := v.table[fd].(offset := at + |buf|)]
  }

  /** Write puts the buffer at the offset, grows the size to the larger end, moves the offset past it and
      touches no other file; a refused write changes no file, and only an append still moves its offset. */
  lemma WriteEffect(v: Vfs, fd: int, buf: seq<bv8>)
    requires Inv(v)
    ensures var (n, w) := Write(v, fd, buf);
            && Inv(w) && |w.fs.nodes| == |v.fs.nodes|
            && (n < 0 ==> w == if OnFile(v, fd) && CanWrite(v.table[fd].flags) && v.table[fd].flags & APPEND != 0
                               then SetOffset(v, fd, WriteAt(v, fd)) else v)
            && (n >= 0 ==> n == |buf| && IsOpen(v, fd) && Refers(v, fd) && Wrote(v, w, fd, buf))
  {
    var r := Access(v, fd, IsOpen(v, fd) && CanWrite(v.table[fd].flags));
    if r.Good? {
      assert Refers(v, fd);
      var (n, w) := Write(v, fd, buf);
      if n >= 0 {
        WroteStored(v, fd, buf, r.value);
      } else {
        WriteRefused(v, fd, buf, r.value);
      }
    }
  }

  lemma WriteRefused(v: Vfs, fd: int, buf: seq<bv8>, k: nat)
    requires Inv(v) && Write(v, fd, buf).0 < 0
    requires Access(v, fd, IsOpen(v, fd) && CanWrite(v.table[fd].flags)) == Good(k)
    ensures Refers(v, fd) && Inv(Write(v, fd, buf).1)
    ensures Write(v, fd, buf).1 == if v.table[fd].flags & APPEND != 0 then SetOffset(v, fd, WriteAt(v, fd)) else v
  {
    assert Refers(v, fd);
    TableKeeps(v, v.fs, fd, v.table[fd].(offset := v.fs.nodes[k].size));
    assert SetOffset(v, fd, v.fs.nodes[k].size) ==
           Vfs(v.fs, v.table[fd := v.table[fd].(offset := v.fs.nodes[k].size)]);
  }

  lemma NodeStored(v: Vfs, fd: int, k: nat, buf: seq<bv8>)
    requires Inv(v) && 0 <= fd < MAX_OPEN && k < |v.fs.nodes| && WriteNode(v, fd, k, buf).0 >= 0
    ensures var w, at := WriteNode(v, fd, k, buf).1, v.table[fd].offset;
            && Inv(w) && Stored(v.fs, w.fs, k, at, buf)
            && w.table == v.table[fd := v.table[fd].(offset := at + |buf|)]
  {
    assert InExtent(v.fs, k) && Refers(v, fd);
    var w := WriteNode(v, fd, k, buf).1;
    StoreEffect(v.fs, k, v.table[fd].offset, buf, w.fs.nodes[k].size);
    TableKeeps(v, w.fs, fd, w.table[fd]);
  }

  lemma WroteStored(v: Vfs, fd: int, buf: seq<bv8>, k: nat)
    requires Inv(v) && IsOpen(v, fd) && v.table[fd].node == Some(k) && Write(v, fd, buf).0 >= 0
    ensures Refers(v, fd) && Inv(Write(v, fd, buf).1) && Wrote(v, Write(v, fd, buf).1, fd, buf)
  {
    assert Refers(v, fd);
    var m := if v.table[fd].flags & APPEND == 0 then v else SetOffset(v, fd, v.fs.nodes[k].size);
    TableKeeps(v, v.fs, fd, m.table[fd]);
    assert m == Vfs(v.fs, v.table[fd := m.table[fd]]);
    NodeStored(m, fd, k, buf);
  }

  // ---------- when a call succeeds ----------

  /** The descriptor is open on a regular file. */
  predicate OnFile(v: Vfs, fd: int) {
    IsOpen(v, fd) && v.table[fd].node.Some? && v.table[fd].node.value < |v.fs.nodes| &&
    v.fs.nodes[v.table[fd].node.value].kind == File
  }

  lemma AccessIff(v: Vfs, fd: int, len: nat, buf: seq<bv8>)
    requires Inv(v)
    ensures Read(v, fd, len).0 >= 0 <==> OnFile(v, fd) && CanRead(v.table[fd].flags)
    ensures Write(v, fd, buf).0 >= 0 <==>
            && OnFile(v, fd) && CanWrite(v.table[fd].flags)
            && WriteAt(v, fd) + |buf| <= v.fs.nodes[v.table[fd].node.value].cap
  {
    if IsOpen(v, fd) { assert Refers(v, fd); }
  }

  /** Why read and write fail: the descriptor is not open, its mode does not allow it, it stands for a
      directory; a write also when it would start or end beyond the file's capacity. */
  lemma AccessFault(v: Vfs, fd: int, len: nat, buf: seq<bv8>)
    requires Inv(v)
    ensures !IsOpen(v, fd) ==> Read(v, fd, len).0 == -9 && Write(v, fd, buf).0 == -9
    ensures IsOpen(v, fd) && v.table[fd].flags & 0x5 == 0 ==> Read(v, fd, len).0 == -13
    ensures IsOpen(v, fd) && v.table[fd].flags & 0x6 == 0 ==> Write(v, fd, buf).0 == -13
    ensures IsOpen(v, fd) && !OnFile(v, fd) && v.table[fd].flags & 0x5 != 0 ==> Read(v, fd, len).0 == -21
    ensures IsOpen(v, fd) && !OnFile(v, fd) && v.table[fd].flags & 0x6 != 0 ==> Write(v, fd, buf).0 == -21
    ensures OnFile(v, fd) && v.table[fd].flags & 0x5 != 0 ==> Read(v, fd, len).0 >= 0
    ensures OnFile(v, fd) && v.table[fd].flags & 0x6 != 0 ==>
              var cap := v.fs.nodes[v.table[fd].node.value].cap;
              if WriteAt(v, fd) > cap then Write(v, fd, buf).0 == -22
              else if WriteAt(v, fd) + |buf| > cap then Write(v, fd, buf).0 == -28
              else Write(v, fd, buf).0 == |buf|
  {
    if IsOpen(v, fd) {
      assert Refers(v, fd);
      ModeBits(v.table[fd].flags);
    }
  }

  /** Bits 0 and 2 of the mode allow reading, bits 1 and 2 writing. */
  lemma ModeBits(flags: bv32)
    ensures (CanRead(flags) <==> flags & 0x5 != 0) && (CanWrite(flags) <==> flags & 0x6 != 0)
  {
  }

  predicate NamesDir(fs: Fs, path: string) {
    var found := Lookup(fs.nodes, path);
    found.Good? && found.value < |fs.nodes| && fs.nodes[found.value].kind == Dir
  }

  lemma OpenNodeIff(fs: Fs, path: string, flags: bv32)
    requires FsInv(fs)
    ensures var (r, gs) := OpenNode(fs, path, flags);
            && (r.Good? <==> Lookup(fs.nodes, path).Good? || (flags & CREAT != 0 && CreateFile(fs, path).0.Good?))
            && (r.Good? ==> r.value < |gs.nodes| && (gs.nodes[r.value].kind == Dir <==> NamesDir(fs, path)))
  {
    CreateEffect(fs, path);
    if Lookup(fs.nodes, path).Good? { ResolvesOnlyToItself(fs.nodes, path); }
  }

  lemma InstallIff(v: Vfs, n: nat, flags: bv32)
    requires n < |v.fs.nodes|
    ensures Install(v, n, flags).0 >= 0 <==>
            (flags & TRUNC != 0 ==> CanWrite(flags)) && exists i :: 0 <= i < |v.table| && !v.table[i].used
  {
  }

  lemma DefaultKeepsBits(flags: bv32)
    ensures var f := WithDefault(flags);
            && f & CREAT == flags & CREAT && f & TRUNC == flags & TRUNC && f & APPEND == flags & APPEND
            && CanWrite(f) == CanWrite(flags)
  {
  }

  lemma DefaultTwice(flags: bv32)
    ensures WithDefault(WithDefault(flags)) == WithDefault(flags)
  {
    assert (flags | RDONLY) & MODE != 0;
  }

  /** Exactly when open returns a descriptor: the path names a node or one can be created, a directory is
      not opened for writing, truncation comes with write access, and a slot is free. */
  lemma OpenIff(v: Vfs, path: string, given: bv32)
    requires Inv(v)
    ensures Open(v, path, given).0 >= 0 <==>
            && (Lookup(v.fs.nodes, path).Good? || (given & CREAT != 0 && CreateFile(v.fs, path).0.Good?))
            && !(CanWrite(given) && NamesDir(v.fs, path))
            && (given & TRUNC != 0 ==> CanWrite(given))
            && exists i :: 0 <= i < MAX_OPEN && !v.table[i].used
  {
    var flags := WithDefault(given);
    DefaultKeepsBits(given);
    var (r, fs) := OpenNode(v.fs, path, flags);
    OpenNodeIff(v.fs, path, flags);
    OpenNodeEffect(v.fs, path, flags);
    if r.Good? { InstallIff(v.(fs := fs), r.value, flags); }
  }

  /** Why open fails, in this order: the path names nothing and nothing may be created, or creating fails; a
      directory is opened for writing; no slot is free; truncation comes without write access. */
  lemma OpenFault(v: Vfs, path: string, given: bv32)
    requires Inv(v) && Open(v, path, given).0 < 0
    ensures var (found, n) := (Lookup(v.fs.nodes, path), Open(v, path, given).0);
            if found.Bad? && given & 0x100 == 0 then PathAnswer(found.status, n)
            else if found.Bad? && CreateFile(v.fs, path).0.Bad? then PathAnswer(CreateFile(v.fs, path).0.status, n)
            else if NamesDir(v.fs, path) && given & 0x6 != 0 then n == -21
            else if forall i :: 0 <= i < MAX_OPEN ==> v.table[i].used then n == -23
            else n == -13
  {
    var flags := WithDefault(given);
    DefaultKeepsBits(given);
    ModeBits(given);
    OpenNodeIff(v.fs, path, flags);
    OpenNodeEffect(v.fs, path, flags);
    PathFaults(v.fs, path);
  }

  /** What open answers for a path that cannot be followed or a file that cannot be created. */
  predicate PathAnswer(e: Status, n: int) {
    (e, n) in {(ENoEnt, -2), (ENotDir, -20), (EIsDir, -21), (EInval, -22), (ENoSpc, -28), (ENameTooLong, -36)}
  }

  /** No other error comes from a path. */
  lemma PathFaults(fs: Fs, path: string)
    requires FsInv(fs)
    ensures var found := Lookup(fs.nodes, path); found.Bad? ==> PathAnswer(found.status, Code(found.status))
    ensures var made := CreateFile(fs, path).0; made.Bad? ==> PathAnswer(made.status, Code(made.status))
  {
    var found, place := Lookup(fs.nodes, path), Split(fs.nodes, path);
    if found.Bad? { LookupFault(fs.nodes, path, found.status); }
    if place.Bad? { SplitFault(fs.nodes, path, place.status); }
    if CreateFile(fs, path).0.Bad? { CreateFault(fs, path); }
  }

  // ---------- a file just created ----------

  /** A file that open has just created takes a first write of up to 256 bytes and no more. */
  lemma FirstWrite(v: Vfs, path: string, given: bv32, buf: seq<bv8>)
    requires Inv(v) && Lookup(v.fs.nodes, path).Bad? && given & 0x6 != 0 && Open(v, path, given).0 >= 0
    ensures var (fd, w) := Open(v, path, given);
            Inv(w) && Write(w, fd, buf).0 == if |buf| <= 256 then |buf| else -28
  {
    var (fd, w) := Open(v, path, given);
    OpenEffect(v, path, given);
    CreatedEmpty(v, path, given);
    WriterMode(given);
    AccessFault(w, fd, 0, buf);
  }

  lemma WriterMode(given: bv32)
    requires given & 0x6 != 0
    ensures Mode(given) & 0x6 != 0
  {
  }

  /** The descriptor stands at the start of the new file. */
  lemma CreatedEmpty(v: Vfs, path: string, given: bv32)
    requires Inv(v) && Lookup(v.fs.nodes, path).Bad? && Open(v, path, given).0 >= 0
    ensures var (fd, w) := Open(v, path, given);
            && OnFile(w, fd) && Refers(w, fd) && w.fs.nodes[w.table[fd].node.value].cap == 256 && WriteAt(w, fd) == 0
  {
    OpenEffect(v, path, given);
    OpenNodeEffect(v.fs, path, WithDefault(given));
    CreateEffect(v.fs, path);
  }

  // ---------- reading back ----------

  /** A descriptor of the same file, standing where the write started, reads the buffer back. */
  lemma ReadBack(v: Vfs, w: Vfs, fd: int, buf: seq<bv8>, u: Vfs, g: int)
    requires Inv(v) && IsOpen(v, fd) && Refers(v, fd) && Wrote(v, w, fd, buf)
    requires Inv(u) && u.fs == w.fs && IsOpen(u, g)
    requires u.table[g].node == v.table[fd].node && u.table[g].offset == WriteAt(v, fd)
    requires CanRead(u.table[g].flags) && u.fs.nodes[v.table[fd].node.value].kind == File
    ensures Read(u, g, |buf|).0 == |buf| && Read(u, g, |buf|).1 == buf
  {
    var k, at := v.table[fd].node.value, WriteAt(v, fd);
    ReadEffect(u, g, |buf|);
    assert InExtent(u.fs, k);
    assert Access(u, g, true) == Good(k);
    if buf != [] {
      var all := ExtentBytes(u.fs, k);
      Slices(all, 0, |all|, u.fs.nodes[k].size, at, at + |buf|);
      assert all[0..|all|] == all;
    }
  }

  /** Where a seek lands: 0 counts from the start, 1 from the offset, 2 from the end of what can be read. */
  ghost function Landing(v: Vfs, fd: int, offset: int, whence: int): int
    requires Inv(v) && OnFile(v, fd)
  {
    if whence == 0 then offset
    else if whence == 1 then v.table[fd].offset + offset
    else |Content(v.fs, v.table[fd].node.value)| + offset
  }

  lemma LandingIsBase(v: Vfs, fd: int, offset: int, whence: int)
    requires Inv(v) && OnFile(v, fd) && 0 <= whence <= 2
    ensures Landing(v, fd, offset, whence) == SeekBase(v, fd, whence) + offset
  {
    assert InExtent(v.fs, v.table[fd].node.value);
  }

  /** The answer is the low 32 bits of the position as a signed int, so it is the position iff that is below
      2^31. */
  lemma AnswerIff(x: nat)
    ensures -0x8000_0000 <= ToInt32(x) < 0x8000_0000 && (x - ToInt32(x)) % 0x1_0000_0000 == 0
    ensures ToInt32(x) == x <==> x < 0x8000_0000
  {
    var low := x % 0x1_0000_0000;
    assert x - low == x / 0x1_0000_0000 * 0x1_0000_0000;
    assert x - (low - 0x1_0000_0000) == (x / 0x1_0000_0000 + 1) * 0x1_0000_0000;
  }

  /** A seek on an open file from a known base to a position not before the start lands there, past the end of
      the file too, and answers the position iff it is below 2^31. Any other seek moves nothing and answers
      EBADF for a descriptor that is not open, EISDIR for a directory and EINVAL otherwise. */
  lemma SeekEffect(v: Vfs, fd: int, offset: int, whence: int)
    requires Inv(v)
    ensures var (n, w) := Lseek(v, fd, offset, whence);
            && Inv(w) && w.fs == v.fs
            && (forall g :: 0 <= g < MAX_OPEN && g != fd ==> w.table[g] == v.table[g])
            && if OnFile(v, fd) && 0 <= whence <= 2 && Landing(v, fd, offset, whence) >= 0 then
                 var x := Landing(v, fd, offset, whence);
                 && w.table[fd] == v.table[fd].(offset := x) && (n == x <==> x < 0x8000_0000)
                 && -0x8000_0000 <= n < 0x8000_0000 && (x - n) % 0x1_0000_0000 == 0
               else n == (if !IsOpen(v, fd) then -9 else if !OnFile(v, fd) then -21 else -22) && w == v
  {
    if IsOpen(v, fd) {
      assert Refers(v, fd);
      TableKeeps(v, v.fs, fd, Lseek(v, fd, offset, whence).1.table[fd]);
      if OnFile(v, fd) && 0 <= whence <= 2 {
        LandingIsBase(v, fd, offset, whence);
        if Landing(v, fd, offset, whence) >= 0 { AnswerIff(Landing(v, fd, offset, whence)); }
      }
    }
  }

  /** On any open file a seek to 2^32 - 9 moves the offset there and answers the code for a bad descriptor. */
  lemma FarSeekLooksRefused(v: Vfs, fd: int)
    requires Inv(v) && OnFile(v, fd)
    ensures var (n, w) := Lseek(v, fd, 0x1_0000_0000 - 9, SEEK_SET);
            n == Code(EBadf) && IsOpen(w, fd) && w.table[fd].offset == 0x1_0000_0000 - 9
  {
  }

  lemma WrittenIsFile(v: Vfs, fd: int, buf: seq<bv8>)
    requires Inv(v) && Write(v, fd, buf).0 >= 0
    ensures IsOpen(v, fd) && Refers(v, fd) && v.fs.nodes[v.table[fd].node.value].kind == File
    ensures Write(v, fd, buf).1.fs.nodes[v.table[fd].node.value].kind == File
  {
  }

  /** What was written is read back after seeking back over it. */
  lemma WriteSeekRead(v: Vfs, fd: int, buf: seq<bv8>)
    requires Inv(v) && Write(v, fd, buf).0 >= 0 && IsOpen(v, fd) && CanRead(v.table[fd].flags)
    ensures var u := Lseek(Write(v, fd, buf).1, fd, -|buf|, SEEK_CUR).1;
            Inv(u) && Read(u, fd, |buf|).0 == |buf| && Read(u, fd, |buf|).1 == buf
  {
    WriteEffect(v, fd, buf);
    WrittenIsFile(v, fd, buf);
    var w := Write(v, fd, buf).1;
    SeekEffect(w, fd, -|buf|, SEEK_CUR);
    var u := Lseek(w, fd, -|buf|, SEEK_CUR).1;
    assert u == SetOffset(w, fd, WriteAt(v, fd));
    ReadBack(v, w, fd, buf, u, fd);
  }

  /** A duplicate has its own offset: what is written through it is still ahead of the original. */
  lemma WriteThroughDuplicate(v: Vfs, fd: int, buf: seq<bv8>)
    requires Inv(v) && IsOpen(v, fd) && Dup(v, fd).0 >= 0
    requires CanRead(v.table[fd].flags) && v.table[fd].flags & APPEND == 0
    ensures var (d, u) := Dup(v, fd);
            Inv(u) && (Write(u, d, buf).0 >= 0 ==>
              var w := Write(u, d, buf).1;
              Inv(w) && w.table[fd] == v.table[fd] && Read(w, fd, |buf|).0 == |buf| && Read(w, fd, |buf|).1 == buf)
  {
    var (d, u) := Dup(v, fd);
    DupKeeps(v, fd);
    if Write(u, d, buf).0 >= 0 {
      WriteEffect(u, d, buf);
      WrittenIsFile(u, d, buf);
      ReadBack(u, Write(u, d, buf).1, d, buf, Write(u, d, buf).1, fd);
    }
  }

  /** Duplicating an open descriptor copies it into the lowest free slot; it answers EBADF for a descriptor that
      is not open and ENFILE when every slot is used, and changes nothing then. */
  lemma DupKeeps(v: Vfs, fd: int)
    requires Inv(v)
    ensures var (d, u) := Dup(v, fd);
            && Inv(u) && u.fs == v.fs
            && (d >= 0 <==> IsOpen(v, fd) && exists i :: 0 <= i < MAX_OPEN && !v.table[i].used)
            && (d >= 0 ==> LowestFree(v.table, d) && u.table == v.table[d := v.table[fd]])
            && (d < 0 ==> u == v && d == if IsOpen(v, fd) then -23 else -9)
  {
    if IsOpen(v, fd) && FirstFree(v.table, 0) < MAX_OPEN {
      assert Refers(v, fd);
      TableKeeps(v, v.fs, FirstFree(v.table, 0), v.table[fd]);
    }
  }

  /** Closing answers 0 exactly for an open descriptor and EBADF otherwise; only that descriptor changes. */
  lemma CloseKeeps(v: Vfs, fd: int)
    requires Inv(v)
    ensures var (c, w) := Close(v, fd);
            && Inv(w) && w.fs == v.fs && !IsOpen(w, fd)
            && c == (if IsOpen(v, fd) then 0 else -9)
            && forall g :: 0 <= g < MAX_OPEN && g != fd ==> w.table[g] == v.table[g]
  {
    if IsOpen(v, fd) { TableKeeps(v, v.fs, fd, FREE); }
  }

  // ---------- runs ----------

  datatype Op =
    | DoSeed(path: string, bytes: seq<bv8>)
    | DoOpen(path: string, flags: bv32)
    | DoRead(fd: int, len: nat)
    | DoWrite(fd: int, bytes: seq<bv8>)
    | DoSeek(fd: int, offset: int, whence: int)
    | DoClose(fd: int)
    | DoDup(fd: int)

  function Step(v: Vfs, op: Op): (w: Vfs)
    requires Inv(v)
  {
    match op
    case DoSeed(path, bytes) => v.(fs := Seed(v.fs, path, bytes).1)
    case DoOpen(path, flags) => Open(v, path, flags).1
    case DoRead(fd, len) => Read(v, fd, len).2
    case DoWrite(fd, bytes) => Write(v, fd, bytes).1
    case DoSeek(fd, offset, whence) => Lseek(v, fd, offset, whence).1
    case DoClose(fd) => Close(v, fd).1
    case DoDup(fd) => Dup(v, fd).1
  }

  /** The operation is aimed at node `m`: it seeds it or truncates it by path, or writes to a descriptor of
      it. */
  predicate AimedAt(v: Vfs, op: Op, m: nat) {
    match op
    case DoSeed(path, _) => Lookup(v.fs.nodes, path) == Good(m)
    case DoOpen(path, flags) => flags & TRUNC != 0 && Lookup(v.fs.nodes, path) == Good(m)
    case DoWrite(fd, _) => IsOpen(v, fd) && v.table[fd].node == Some(m)
    case _ => false
  }

  /** The operation is given descriptor `fd` and may move or close it. */
  predicate Uses(op: Op, fd: int) {
    match op
    case DoRead(g, _) => g == fd
    case DoWrite(g, _) => g == fd
    case DoSeek(g, _, _) => g == fd
    case DoClose(g) => g == fd
    case _ => false
  }

  /** What a step leaves: names stay, files not aimed at keep every byte, open descriptors not used stay. */
  ghost predicate Leaves(v: Vfs, op: Op, w: Vfs)
    requires Inv(v)
  {
    && Inv(w) && Keeps(v.fs.nodes, w.fs.nodes)
    && (forall m :: 0 <= m < |v.fs.nodes| && !AimedAt(v, op, m) ==> Untouched(v.fs, w.fs, m))
    && (forall g :: 0 <= g < MAX_OPEN && v.table[g].used && !Uses(op, g) ==> w.table[g] == v.table[g])
  }

  lemma SeedLeaves(v: Vfs, path: string, bytes: seq<bv8>)
    requires Inv(v)
    ensures Leaves(v, DoSeed(path, bytes), Step(v, DoSeed(path, bytes)))
  {
    SeedEffect(v.fs, path, bytes);
    SeedKeepsNames(v.fs, path, bytes);
    FsGrows(v, Seed(v.fs, path, bytes).1);
  }

  lemma SeedKeepsNames(fs: Fs, path: string, bytes: seq<bv8>)
    requires FsInv(fs)
    ensures Keeps(fs.nodes, Seed(fs, path, bytes).1.nodes)
  {
    CreateEffect(fs, path);
    assert Keeps(fs.nodes, CreateFile(fs, path).1.nodes);
  }

  lemma WriteLeaves(v: Vfs, fd: int, bytes: seq<bv8>)
    requires Inv(v)
    ensures Leaves(v, DoWrite(fd, bytes), Step(v, DoWrite(fd, bytes)))
  {
    WriteEffect(v, fd, bytes);
  }

  lemma StepLeaves(v: Vfs, op: Op)
    requires Inv(v)
    ensures Leaves(v, op, Step(v, op))
  {
    match op
    case DoSeed(path, bytes) => SeedLeaves(v, path, bytes);
    case DoOpen(path, flags) => OpenEffect(v, path, flags);
    case DoRead(fd, len) => ReadEffect(v, fd, len);
    case DoWrite(fd, bytes) => WriteLeaves(v, fd, bytes);
    case DoSeek(fd, offset, whence) => SeekEffect(v, fd, offset, whence);
    case DoClose(fd) => CloseKeeps(v, fd);
    case DoDup(fd) => DupKeeps(v, fd);
  }

  function Run(v: Vfs, ops: seq<Op>): (w: Vfs)
    requires Inv(v)
    ensures Inv(w)
    decreases |ops|
  {
    if ops == [] then v
    else
      StepLeaves(v, ops[0]);
      Run(Step(v, ops[0]), ops[1..])
  }

  lemma StepKeepsPacked(v: Vfs, op: Op)
    requires Inv(v) && Packed(v.fs)
    ensures Packed(Step(v, op).fs)
  {
    match op
    case DoSeed(path, bytes) =>
      CreateKeepsPacked(v.fs, path);
      CreateEffect(v.fs, path);
      SeedKeepsPacked(v.fs, path, bytes);
    case DoOpen(path, given) => OpenKeepsPacked(v, path, given);
    case DoWrite(fd, bytes) => WriteKeepsPacked(v, fd, bytes);
    case DoRead(fd, len) => ReadEffect(v, fd, len);
    case DoSeek(fd, offset, whence) => SeekEffect(v, fd, offset, whence);
    case DoClose(fd) => CloseKeeps(v, fd);
    case DoDup(fd) => DupKeeps(v, fd);
  }

  lemma SeedKeepsPacked(fs: Fs, path: string, bytes: seq<bv8>)
    requires FsInv(fs) && FsInv(CreateFile(fs, path).1) && Packed(CreateFile(fs, path).1)
    ensures Packed(Seed(fs, path, bytes).1)
  {
    var (r, gs) := CreateFile(fs, path);
    CreateEffect(fs, path);
    if r.Good? && |bytes| <= gs.nodes[r.value].cap { StoreKeepsPacked(gs, r.value, 0, bytes, |bytes|); }
  }

  lemma OpenKeepsPacked(v: Vfs, path: string, given: bv32)
    requires Inv(v) && Packed(v.fs)
    ensures Packed(Open(v, path, given).1.fs)
  {
    CreateKeepsPacked(v.fs, path);
    OpenNodeEffect(v.fs, path, WithDefault(given));
    var (r, fs) := OpenNode(v.fs, path, WithDefault(given));
    if r.Good? { ResizeKeepsPacked(fs, r.value, 0); }
  }

  lemma WriteKeepsPacked(v: Vfs, fd: int, buf: seq<bv8>)
    requires Inv(v) && Packed(v.fs)
    ensures Packed(Write(v, fd, buf).1.fs)
  {
    WriteEffect(v, fd, buf);
    if Write(v, fd, buf).0 >= 0 {
      var k, w := v.table[fd].node.value, Write(v, fd, buf).1;
      assert w.fs == Store(v.fs, k, WriteAt(v, fd), buf, w.fs.nodes[k].size);
      StoreKeepsPacked(v.fs, k, WriteAt(v, fd), buf, w.fs.nodes[k].size);
    }
  }

  lemma {:induction false} RunPacked(v: Vfs, ops: seq<Op>)
    requires Inv(v) && Packed(v.fs)
    ensures Packed(Run(v, ops).fs)
    decreases |ops|
  {
    if ops != [] {
      StepLeaves(v, ops[0]);
      StepKeepsPacked(v, ops[0]);
      RunPacked(Step(v, ops[0]), ops[1..]);
    }
  }

  /** In every run from boot the file system is sound, and its files have taken the store in order, 256 bytes
      each: there are never more than 32. */
  function BootRun(ops: seq<Op>): (w: Vfs)
    ensures Inv(w) && Packed(w.fs) && |w.fs.nodes| <= 33
  {
    InitialInv();
    RunPacked(Initial(), ops);
    Run(Initial(), ops)
  }

  ghost predicate NeverAimedAt(v: Vfs, ops: seq<Op>, m: nat)
    requires Inv(v)
    decreases |ops|
  {
    ops == [] ||
    (StepLeaves(v, ops[0]); !AimedAt(v, ops[0], m) && NeverAimedAt(Step(v, ops[0]), ops[1..], m))
  }

  /** Over a whole run, a file that no operation was aimed at keeps its name, size and every byte. */
  lemma {:induction false} RunIsolates(v: Vfs, ops: seq<Op>, m: nat)
    requires Inv(v) && m < |v.fs.nodes| && NeverAimedAt(v, ops, m)
    ensures Untouched(v.fs, Run(v, ops).fs, m)
    decreases |ops|
  {
    if ops != [] {
      var u := Step(v, ops[0]);
      StepLeaves(v, ops[0]);
      RunIsolates(u, ops[1..], m);
      UntouchedTwice(v.fs, u.fs, Run(v, ops).fs, m);
    }
  }

  /** Over a whole run, a path that resolves goes on resolving to the same node. */
  lemma {:induction false} RunKeepsPaths(v: Vfs, ops: seq<Op>, path: string)
    requires Inv(v) && Lookup(v.fs.nodes, path).Good?
    ensures Lookup(Run(v, ops).fs.nodes, path) == Lookup(v.fs.nodes, path)
    decreases |ops|
  {
    if ops != [] {
      var u := Step(v, ops[0]);
      StepLeaves(v, ops[0]);
      KeepsLookup(v.fs.nodes, u.fs.nodes, path);
      RunKeepsPaths(u, ops[1..], path);
    }
  }

  /** Over a whole run, an open descriptor that no operation was given keeps its file, mode and offset. */
  lemma {:induction false} RunKeepsDescriptor(v: Vfs, ops: seq<Op>, fd: nat)
    requires Inv(v) && fd < MAX_OPEN && v.table[fd].used && forall i :: 0 <= i < |ops| ==> !Uses(ops[i], fd)
    ensures Run(v, ops).table[fd] == v.table[fd]
    decreases |ops|
  {
    if ops != [] {
      StepLeaves(v, ops[0]);
      assert !Uses(ops[0], fd);
      RunKeepsDescriptor(Step(v, ops[0]), ops[1..], fd);
    }
  }
}
