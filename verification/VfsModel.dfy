/** The RAM file system's storage as a value. A file owns a fixed extent of the shared 8192-byte store. */
module VfsModel {
  import opened PathModel

  const DATA_BYTES := 8192
  const FILE_CAP := 256
  const MAX_OPEN := 16

  const RDONLY: bv32 := 0x0001
  const WRONLY: bv32 := 0x0002
  const RDWR: bv32 := 0x0004
  const MODE: bv32 := 0x0007
  const CREAT: bv32 := 0x0100
  const TRUNC: bv32 := 0x0200
  const APPEND: bv32 := 0x0400

  function Code(s: Status): int {
    match s
    case Ok => 0
    case ENoEnt => -2
    case EBadf => -9
    case EAcces => -13
    case ENotDir => -20
    case EIsDir => -21
    case EInval => -22
    case ENFile => -23
    case ENoSpc => -28
    case ENameTooLong => -36
  }

  // ---------- files ----------

  datatype Fs = Fs(nodes: seq<Vnode>, data: seq<bv8>, dataUsed: nat)

  function InitialFs(): Fs {
    Fs([Vnode(0, Dir, "/", 0, 0, 0)], seq(DATA_BYTES, _ => 0), 0)
  }

  function AllocNode(fs: Fs, parent: nat, kind: Kind, name: string, cap: nat): (Result<nat>, Fs) {
    if name == "" || |name| >= MAX_NAME then (Bad(EInval), fs)
    else if |fs.nodes| >= MAX_NODES then (Bad(ENoSpc), fs)
    else if kind == File && fs.dataUsed + cap > DATA_BYTES then (Bad(ENoSpc), fs)
    else if kind == File then
      (Good(|fs.nodes|), fs.(nodes := fs.nodes + [Vnode(parent, File, name, 0, fs.dataUsed, cap)],
                             dataUsed := fs.dataUsed + cap))
    else (Good(|fs.nodes|), fs.(nodes := fs.nodes + [Vnode(parent, Dir, name, 0, 0, 0)]))
  }

  /** The existing file at `path`, or a new empty one of 256 bytes. */
  function CreateFile(fs: Fs, path: string): (Result<nat>, Fs) {
    var found := Lookup(fs.nodes, path);
    if found.Good? then
      (if found.value < |fs.nodes| && fs.nodes[found.value].kind == File then found else Bad(EIsDir), fs)
    else
      var place := Split(fs.nodes, path);
      if place.Bad? then (Bad(place.status), fs)
      else if place.value.parent < |fs.nodes| && fs.nodes[place.value.parent].kind != Dir then (Bad(ENotDir), fs)
      else AllocNode(fs, place.value.parent, File, place.value.leaf, FILE_CAP)
  }

  function Overwrite(data: seq<bv8>, at: nat, bytes: seq<bv8>): (r: seq<bv8>)
    requires at + |bytes| <= |data|
    ensures |r| == |data| && r[at..at + |bytes|] == bytes
    ensures forall i :: 0 <= i < |data| && !(at <= i < at + |bytes|) ==> r[i] == data[i]
  {
    data[..at] + bytes + data[at + |bytes|..]
  }

  function SetSize(fs: Fs, n: nat, size: nat): Fs
    requires n < |fs.nodes|
  {
    fs.(nodes := fs.nodes[n := fs.nodes[n].(size := size)])
  }

  // ---------- invariant of the store ----------

  predicate InExtent(fs: Fs, i: nat)
    requires i < |fs.nodes|
  {
    var v := fs.nodes[i];
    v.size <= v.cap && v.offset + v.cap <= fs.dataUsed
  }

  predicate Before(fs: Fs, i: nat, j: nat)
    requires i < |fs.nodes| && j < |fs.nodes|
  {
    fs.nodes[i].cap == 0 || fs.nodes[j].cap == 0 || fs.nodes[i].offset + fs.nodes[i].cap <= fs.nodes[j].offset
  }

  /** Every size fits its capacity, every extent lies in the used part of the store, and extents are laid
      out in creation order, so they are pairwise disjoint. */
  ghost predicate FsInv(fs: Fs) {
    && Tree(fs.nodes) && |fs.nodes| <= MAX_NODES && |fs.data| == DATA_BYTES && fs.dataUsed <= DATA_BYTES
    && (forall i {:trigger InExtent(fs, i)} :: 0 <= i < |fs.nodes| ==> InExtent(fs, i))
    && (forall i, j {:trigger Before(fs, i, j)} :: 0 <= i < j < |fs.nodes| ==> Before(fs, i, j))
  }

  /** The bytes of a node's extent, and those a reader can see. */
  ghost function ExtentBytes(fs: Fs, n: nat): seq<bv8>
    requires FsInv(fs) && n < |fs.nodes|
  {
    assert InExtent(fs, n);
    fs.data[fs.nodes[n].offset..fs.nodes[n].offset + fs.nodes[n].cap]
  }

  ghost function Content(fs: Fs, n: nat): seq<bv8>
    requires FsInv(fs) && n < |fs.nodes|
  {
    assert InExtent(fs, n);
    ExtentBytes(fs, n)[..fs.nodes[n].size]
  }

  /** Node `m` kept its name, place, size and every byte of its extent. */
  ghost predicate Untouched(fs: Fs, gs: Fs, m: nat) {
    && FsInv(fs) && FsInv(gs) && m < |fs.nodes| && m < |gs.nodes|
    && gs.nodes[m] == fs.nodes[m] && ExtentBytes(gs, m) == ExtentBytes(fs, m)
  }

  lemma InitialFsInv()
    ensures FsInv(InitialFs())
  {
  }

  lemma ResizeKeepsInv(fs: Fs, n: nat, size: nat)
    requires FsInv(fs) && n < |fs.nodes| && size <= fs.nodes[n].cap
    ensures var gs := SetSize(fs, n, size);
            FsInv(gs) && ExtentBytes(gs, n) == ExtentBytes(fs, n) &&
            forall m :: 0 <= m < |fs.nodes| && m != n ==> Untouched(fs, gs, m)
  {
    var gs := SetSize(fs, n, size);
    assert Tree(gs.nodes) by {
      forall i | 1 <= i < |gs.nodes| ensures PathModel.GoodNode(gs.nodes, i) { assert PathModel.GoodNode(fs.nodes, i); }
      forall i, j | 1 <= i < |gs.nodes| && 1 <= j < |gs.nodes| && SameSpot(gs.nodes, i, j) ensures i == j {
        assert SameSpot(fs.nodes, i, j);
      }
    }
    forall i | 0 <= i < |gs.nodes| ensures InExtent(gs, i) { assert InExtent(fs, i); }
    forall i, j | 0 <= i < j < |gs.nodes| ensures Before(gs, i, j) { assert Before(fs, i, j); }
    assert FsInv(gs);
  }

  lemma UntouchedTwice(fs: Fs, gs: Fs, hs: Fs, m: nat)
    requires Untouched(fs, gs, m) && Untouched(gs, hs, m)
    ensures Untouched(fs, hs, m)
  {
  }

  lemma OverwriteInside(data: seq<bv8>, lo: nat, hi: nat, at: nat, bytes: seq<bv8>)
    requires lo <= hi <= |data| && at + |bytes| <= hi - lo
    ensures Overwrite(data, lo + at, bytes)[lo..hi] == Overwrite(data[lo..hi], at, bytes)
  {
    var x, y := Overwrite(data, lo + at, bytes)[lo..hi], Overwrite(data[lo..hi], at, bytes);
    forall i | 0 <= i < hi - lo ensures x[i] == y[i] {
      if at <= i < at + |bytes| { assert x[i] == bytes[i - at] == y[i]; }
    }
    assert x == y;
  }

  lemma OverwriteOutside(data: seq<bv8>, at: nat, bytes: seq<bv8>, lo: nat, hi: nat)
    requires at + |bytes| <= |data| && lo <= hi <= |data|
    requires lo == hi || bytes == [] || hi <= at || at + |bytes| <= lo
    ensures Overwrite(data, at, bytes)[lo..hi] == data[lo..hi]
  {
    var x, y := Overwrite(data, at, bytes)[lo..hi], data[lo..hi];
    forall i | 0 <= i < hi - lo ensures x[i] == y[i] {
      assert x[i] == Overwrite(data, at, bytes)[lo + i] == data[lo + i];
    }
    assert x == y;
  }

  /** The layout does not depend on the bytes. */
  lemma NewBytesKeepInv(fs: Fs, data: seq<bv8>)
    requires FsInv(fs) && |data| == DATA_BYTES
    ensures FsInv(fs.(data := data))
  {
    var gs := fs.(data := data);
    forall i | 0 <= i < |gs.nodes| ensures InExtent(gs, i) { assert InExtent(fs, i); }
    forall i, j | 0 <= i < j < |gs.nodes| ensures Before(gs, i, j) { assert Before(fs, i, j); }
  }

  lemma OverwriteElsewhere(fs: Fs, n: nat, at: nat, bytes: seq<bv8>, m: nat)
    requires FsInv(fs) && n < |fs.nodes| && m < |fs.nodes| && m != n && at + |bytes| <= fs.nodes[n].cap
    ensures InExtent(fs, n) && Untouched(fs, fs.(data := Overwrite(fs.data, fs.nodes[n].offset + at, bytes)), m)
  {
    assert InExtent(fs, n) && InExtent(fs, m) && if m < n then Before(fs, m, n) else Before(fs, n, m);
    var start := fs.nodes[n].offset + at;
    NewBytesKeepInv(fs, Overwrite(fs.data, start, bytes));
    OverwriteOutside(fs.data, start, bytes, fs.nodes[m].offset, fs.nodes[m].offset + fs.nodes[m].cap);
  }

  lemma OverwriteKeepsInv(fs: Fs, n: nat, at: nat, bytes: seq<bv8>)
    requires FsInv(fs) && n < |fs.nodes| && at + |bytes| <= fs.nodes[n].cap
    ensures InExtent(fs, n) && FsInv(fs.(data := Overwrite(fs.data, fs.nodes[n].offset + at, bytes)))
    ensures var gs := fs.(data := Overwrite(fs.data, fs.nodes[n].offset + at, bytes));
            && ExtentBytes(gs, n) == Overwrite(ExtentBytes(fs, n), at, bytes)
            && forall m :: 0 <= m < |fs.nodes| && m != n ==> Untouched(fs, gs, m)
  {
    assert InExtent(fs, n);
    var gs := fs.(data := Overwrite(fs.data, fs.nodes[n].offset + at, bytes));
    NewBytesKeepInv(fs, gs.data);
    OverwriteInside(fs.data, fs.nodes[n].offset, fs.nodes[n].offset + fs.nodes[n].cap, at, bytes);
    forall m | 0 <= m < |fs.nodes| && m != n ensures Untouched(fs, gs, m) {
      OverwriteElsewhere(fs, n, at, bytes, m);
    }
  }

  /** Bytes written into a node's extent, and its size set. */
  function Store(fs: Fs, n: nat, at: nat, bytes: seq<bv8>, size: nat): Fs
    requires FsInv(fs) && n < |fs.nodes| && at + |bytes| <= fs.nodes[n].cap
  {
    assert InExtent(fs, n);
    SetSize(fs.(data := Overwrite(fs.data, fs.nodes[n].offset + at, bytes)), n, size)
  }

  lemma StoreEffect(fs: Fs, n: nat, at: nat, bytes: seq<bv8>, size: nat)
    requires FsInv(fs) && n < |fs.nodes| && at + |bytes| <= fs.nodes[n].cap && size <= fs.nodes[n].cap
    ensures var gs := Store(fs, n, at, bytes, size);
            && FsInv(gs) && |gs.nodes| == |fs.nodes| && Keeps(fs.nodes, gs.nodes)
            && gs.nodes[n] == fs.nodes[n].(size := size)
            && |ExtentBytes(fs, n)| == fs.nodes[n].cap && ExtentBytes(gs, n) == Overwrite(ExtentBytes(fs, n), at, bytes)
            && forall m :: 0 <= m < |fs.nodes| && m != n ==> Untouched(fs, gs, m)
  {
    OverwriteKeepsInv(fs, n, at, bytes);
    var hs := fs.(data := Overwrite(fs.data, fs.nodes[n].offset + at, bytes));
    ResizeKeepsInv(hs, n, size);
    forall m | 0 <= m < |fs.nodes| && m != n ensures Untouched(fs, SetSize(hs, n, size), m) {
      UntouchedTwice(fs, hs, SetSize(hs, n, size), m);
    }
  }

  /** The last node is an empty file with the next 256 bytes of the store. */
  predicate NewFile(fs: Fs, gs: Fs)
    requires |gs.nodes| == |fs.nodes| + 1
  {
    var f := gs.nodes[|fs.nodes|];
    f.kind == File && f.size == 0 && f.cap == 256 && f.offset == fs.dataUsed && gs.dataUsed == fs.dataUsed + 256
  }

  /** Creating keeps the invariant and touches no existing node; when it adds one, exactly one more path
      resolves, and that is the path given. */
  lemma CreateEffect(fs: Fs, path: string)
    requires FsInv(fs)
    ensures var (r, gs) := CreateFile(fs, path);
            && FsInv(gs)
            && (forall m :: 0 <= m < |fs.nodes| ==> Untouched(fs, gs, m))
            && (r.Bad? ==> gs == fs && r.status != Ok)
            && (r.Good? ==> r.value < |gs.nodes| && gs.nodes[r.value].kind == File && Lookup(gs.nodes, path) == r)
            && (gs == fs || (Lookup(fs.nodes, path).Bad? && r == Good(|fs.nodes|) && |gs.nodes| == |fs.nodes| + 1 &&
                             NewFile(fs, gs) &&
                             forall p, n: nat :: Lookup(gs.nodes, p) == Good(n) <==>
                               Lookup(fs.nodes, p) == Good(n) || (p == path && n == |fs.nodes|)))
  {
    if Lookup(fs.nodes, path).Good? {
      ResolvesOnlyToItself(fs.nodes, path);
    } else if Split(fs.nodes, path).Good? {
      var place := Split(fs.nodes, path).value;
      SplitSpellsPath(fs.nodes, path);
      var (r, gs) := CreateFile(fs, path);
      if r.Good? {
        LookupIsSplitThenFind(fs.nodes, path);
        var v := gs.nodes[|fs.nodes|];
        assert gs.nodes == fs.nodes + [v] && Addable(fs.nodes, v);
        AddKeepsExtents(fs, v);
        forall p, n: nat
          ensures Lookup(gs.nodes, p) == Good(n) <==>
                  Lookup(fs.nodes, p) == Good(n) || (p == path && n == |fs.nodes|)
        {
          AddResolvesOneMore(fs.nodes, v, p, n);
        }
      }
    }
  }

  /** Exactly when creating succeeds: the path names a file already, or names nothing but splits at a
      directory and there is room for one more node and one more extent. */
  lemma CreateIff(fs: Fs, path: string)
    requires FsInv(fs)
    ensures CreateFile(fs, path).0.Good? <==>
              if Lookup(fs.nodes, path).Good?
              then Lookup(fs.nodes, path).value < |fs.nodes| && fs.nodes[Lookup(fs.nodes, path).value].kind == File
              else Split(fs.nodes, path).Good? && |fs.nodes| < MAX_NODES && fs.dataUsed + FILE_CAP <= DATA_BYTES
  {
    if Lookup(fs.nodes, path).Bad? && Split(fs.nodes, path).Good? { SplitSpellsPath(fs.nodes, path); }
  }

  /** Why creating fails: the path names a directory, or splits at no directory, or nothing more fits. */
  lemma CreateFault(fs: Fs, path: string)
    requires FsInv(fs) && CreateFile(fs, path).0.Bad?
    ensures CreateFile(fs, path).0.status ==
            if Lookup(fs.nodes, path).Good? then EIsDir
            else if Split(fs.nodes, path).Bad? then Split(fs.nodes, path).status
            else ENoSpc
  {
    if Lookup(fs.nodes, path).Bad? && Split(fs.nodes, path).Good? { SplitSpellsPath(fs.nodes, path); }
  }

  // ---------- 256 bytes a file ----------

  /** Node `i` is a file with the `i`-th 256 bytes of the store. */
  predicate Slot(fs: Fs, i: nat)
    requires i < |fs.nodes|
  {
    fs.nodes[i].kind == File && fs.nodes[i].cap == 256 && fs.nodes[i].offset == 256 * (i - 1)
  }

  /** Only the root is a directory, and the files have taken the store in order, 256 bytes each. */
  ghost predicate Packed(fs: Fs) {
    && fs.nodes != [] && fs.nodes[0].kind == Dir && fs.dataUsed == 256 * (|fs.nodes| - 1)
    && forall i :: 1 <= i < |fs.nodes| ==> Slot(fs, i)
  }

  lemma CreateKeepsPacked(fs: Fs, path: string)
    requires FsInv(fs) && Packed(fs)
    ensures Packed(CreateFile(fs, path).1)
  {
    var gs := CreateFile(fs, path).1;
    CreateEffect(fs, path);
    forall i | 1 <= i < |gs.nodes| ensures Slot(gs, i) {
      if i < |fs.nodes| { assert Slot(fs, i) && Untouched(fs, gs, i); }
    }
    assert Untouched(fs, gs, 0);
  }

  lemma ResizeKeepsPacked(fs: Fs, n: nat, size: nat)
    requires Packed(fs) && n < |fs.nodes|
    ensures Packed(SetSize(fs, n, size))
  {
    var gs := SetSize(fs, n, size);
    forall i | 1 <= i < |gs.nodes| ensures Slot(gs, i) { assert Slot(fs, i); }
  }

  lemma StoreKeepsPacked(fs: Fs, n: nat, at: nat, bytes: seq<bv8>, size: nat)
    requires FsInv(fs) && Packed(fs) && n < |fs.nodes| && at + |bytes| <= fs.nodes[n].cap
    ensures Packed(Store(fs, n, at, bytes, size))
  {
    assert InExtent(fs, n);
    var hs := fs.(data := Overwrite(fs.data, fs.nodes[n].offset + at, bytes));
    forall i | 1 <= i < |hs.nodes| ensures Slot(hs, i) { assert Slot(fs, i); }
    ResizeKeepsPacked(hs, n, size);
  }

  /** In a packed store the table of nodes never fills up: creating a new file fails for want of space exactly
      when there are 32 files. */
  lemma ThirtyTwoFiles(fs: Fs, path: string)
    requires FsInv(fs) && Packed(fs)
    ensures |fs.nodes| <= 33
    ensures CreateFile(fs, path).0 == Bad(ENoSpc) <==>
            Lookup(fs.nodes, path).Bad? && Split(fs.nodes, path).Good? && |fs.nodes| == 33
  {
    CreateIff(fs, path);
    SplitFault(fs.nodes, path, ENoSpc);
    if CreateFile(fs, path).0.Bad? { CreateFault(fs, path); }
  }

  lemma AddKeepsExtents(fs: Fs, v: Vnode)
    requires FsInv(fs) && Addable(fs.nodes, v) && |fs.nodes| < MAX_NODES
    requires v.size == 0 && v.offset == fs.dataUsed && v.offset + v.cap <= DATA_BYTES
    ensures var gs := fs.(nodes := fs.nodes + [v], dataUsed := fs.dataUsed + v.cap);
            FsInv(gs) && forall m :: 0 <= m < |fs.nodes| ==> Untouched(fs, gs, m)
  {
    var gs := fs.(nodes := fs.nodes + [v], dataUsed := fs.dataUsed + v.cap);
    AddKeepsTree(fs.nodes, v);
    forall i | 0 <= i < |gs.nodes| ensures InExtent(gs, i) {
      if i < |fs.nodes| { assert InExtent(fs, i); }
    }
    forall i, j | 0 <= i < j < |gs.nodes| ensures Before(gs, i, j) {
      assert InExtent(fs, i);
      if j < |fs.nodes| { assert Before(fs, i, j); }
    }
    assert FsInv(gs);
  }

  function Seed(fs: Fs, path: string, bytes: seq<bv8>): (Status, Fs)
    requires FsInv(fs)
  {
    var (r, gs) := CreateFile(fs, path);
    CreateEffect(fs, path);
    if r.Bad? then (r.status, gs)
    else if |bytes| > gs.nodes[r.value].cap then (ENoSpc, gs)
    else (Ok, Store(gs, r.value, 0, bytes, |bytes|))
  }

  /** Exactly when seeding succeeds: the file is there or can be created, and the bytes fit its capacity,
      which is 256 for a new file. */
  lemma SeedIff(fs: Fs, path: string, bytes: seq<bv8>)
    requires FsInv(fs)
    ensures var (r, found) := (CreateFile(fs, path).0, Lookup(fs.nodes, path));
            && (found.Good? ==> found.value < |fs.nodes|)
            && var room := if found.Good? then fs.nodes[found.value].cap else 256;
            && Seed(fs, path, bytes).0 == (if r.Bad? then r.status else if |bytes| <= room then Ok else ENoSpc)
            && (Seed(fs, path, bytes).0 != Ok ==> Seed(fs, path, bytes).1 == CreateFile(fs, path).1)
  {
    CreateEffect(fs, path);
    if Lookup(fs.nodes, path).Good? { ResolvesOnlyToItself(fs.nodes, path); }
  }

  /** A seeded file holds exactly the bytes given; no other file changes. */
  lemma SeedEffect(fs: Fs, path: string, bytes: seq<bv8>)
    requires FsInv(fs)
    ensures var (status, gs) := Seed(fs, path, bytes);
            && FsInv(gs)
            && (status == Ok ==> Lookup(gs.nodes, path).Good? && Lookup(gs.nodes, path).value < |gs.nodes| &&
                                 Content(gs, Lookup(gs.nodes, path).value) == bytes)
            && (forall m :: 0 <= m < |fs.nodes| && (status == Ok ==> Lookup(fs.nodes, path) != Good(m)) ==>
                  Untouched(fs, gs, m))
  {
    var (r, hs) := CreateFile(fs, path);
    CreateEffect(fs, path);
    if r.Good? && |bytes| <= hs.nodes[r.value].cap {
      var n := r.value;
      StoreEffect(hs, n, 0, bytes, |bytes|);
      var gs := Store(hs, n, 0, bytes, |bytes|);
      KeepsLookup(hs.nodes, gs.nodes, path);
      forall m | 0 <= m < |fs.nodes| && Lookup(fs.nodes, path) != Good(m) ensures Untouched(fs, gs, m) {
        UntouchedTwice(fs, hs, gs, m);
      }
    }
  }
}
