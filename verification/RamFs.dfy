/** The RAM file system as the kernel keeps it: a fixed table of nodes and one fixed byte store, updated in
    place. Every method is proved against the value model. */
module RamFs {
  import opened PathModel
  import opened VfsModel

  /** The `n` characters of `path` at `at` are the name, exactly: the name ends where they do. */
  method SameName(path: string, at: nat, n: nat, name: string) returns (same: bool)
    requires at + n <= |path|
    ensures same <==> path[at..at + n] == name
  {
    var k := 0;
    while k < n
      invariant k <= n && k <= |name| && path[at..at + k] == name[..k]
    {
      if k >= |name| || path[at + k] != name[k] {
        assert path[at..at + n][k] == path[at + k];
        return false;
      }
      assert path[at..at + k + 1] == path[at..at + k] + [path[at + k]];
      k := k + 1;
    }
    assert name[..|name|] == name;
    return |name| == n;
  }

  const BLANK := Vnode(0, File, "", 0, 0, 0)

  class Ramfs {
    const nodes: array<Vnode>
    const data: array<bv8>
    var nodeCount: nat
    var dataUsed: nat

    ghost predicate Shape()
      reads this
    {
      nodes.Length == MAX_NODES && data.Length == DATA_BYTES && nodeCount <= MAX_NODES && nodes as object != data
    }

    ghost function Model(): Fs
      requires Shape()
      reads this, nodes, data
    {
      Fs(nodes[..nodeCount], data[..], dataUsed)
    }

    ghost predicate Valid()
      reads this, nodes, data
    {
      Shape() && FsInv(Model())
    }

    constructor ()
      ensures Valid() && Model() == InitialFs() && fresh(nodes) && fresh(data)
    {
      nodes := new Vnode[MAX_NODES](_ => BLANK);
      data := new bv8[DATA_BYTES](_ => 0);
      nodeCount := 1;
      dataUsed := 0;
      new;
      Init();
    }

    /** Back to an empty root directory over a zeroed store, whatever was there. */
    method Init()
      requires nodes.Length == MAX_NODES && data.Length == DATA_BYTES && nodes as object != data
      modifies this, nodes, data
      ensures Valid() && Model() == InitialFs()
    {
      for i := 0 to MAX_NODES {
        nodes[i] := BLANK;
      }
      for i := 0 to DATA_BYTES
        invariant forall k :: 0 <= k < i ==> data[k] == 0
      {
        data[i] := 0;
      }
      nodeCount := 1;
      dataUsed := 0;
      nodes[0] := Vnode(0, Dir, "/", 0, 0, 0);
      assert nodes[..1] == InitialFs().nodes && data[..] == InitialFs().data;
      InitialFsInv();
    }

    method FindChild(parent: nat, path: string, at: nat, n: nat) returns (rc: Status, child: nat)
      requires Shape() && at + n <= |path|
      ensures var r := PathModel.FindChild(nodes[..nodeCount], parent, path[at..at + n]);
              (rc == Ok ==> r == Good(child)) && (rc != Ok ==> r == Bad(rc))
    {
      child := 0;
      if n == 0 || n >= MAX_NAME { return EInval, 0; }
      ghost var live, name := nodes[..nodeCount], path[at..at + n];
      var i := 0;
      while i < nodeCount
        invariant i <= nodeCount && Search(live, parent, name, 0) == Search(live, parent, name, i)
      {
        var same := SameName(path, at, n, nodes[i].name);
        if nodes[i].parent == parent && same { return Ok, i; }
        i := i + 1;
      }
      rc := ENoEnt;
    }

    static method ScanSegment(path: string, at: nat) returns (next: nat)
      requires at <= |path|
      ensures next == SegEnd(path, at)
    {
      next := at;
      while next < |path| && path[next] != '/'
        invariant at <= next <= |path| && SegEnd(path, at) == SegEnd(path, next)
      {
        next := next + 1;
      }
    }

    /** One round of the lookup loop: it goes on in a directory, or has its answer. */
    method LookupRound(path: string, cur: nat, at: nat) returns (more: bool, r: Result<nat>, next: nat)
      requires Shape() && at < |path|
      ensures at <= next <= |path| && (more ==> r.Good? && at < next)
      ensures LookupFrom(nodes[..nodeCount], path, cur, at) ==
              if more then LookupFrom(nodes[..nodeCount], path, r.value, next) else r
    {
      LookupUnfold(nodes[..nodeCount], path, cur, at);
      var end := ScanSegment(path, at);
      if end == at || end - at >= MAX_NAME { return false, Bad(EInval), at; }
      var rc, child := FindChild(cur, path, at, end - at);
      r := if rc != Ok then Bad(rc) else Good(child);
      more := rc == Ok && end < |path|;
      next := if more then end + 1 else end;
      if more && nodes[child].kind != Dir { more, r := false, Bad(ENotDir); }
    }

    /** The lookup loop, from a node and a place in the path. */
    method LookupLoop(path: string, cur: nat, at: nat) returns (r: Result<nat>)
      requires Shape() && at <= |path|
      ensures r == LookupFrom(nodes[..nodeCount], path, cur, at)
    {
      var more, i := true, at;
      r := Good(cur);
      while more && i < |path|
        invariant i <= |path| && (more ==> r.Good?)
        invariant LookupFrom(nodes[..nodeCount], path, cur, at) ==
                  if more then LookupFrom(nodes[..nodeCount], path, r.value, i) else r
        decreases |path| - i, more
      {
        more, r, i := LookupRound(path, r.value, i);
      }
      if more { r := Bad(EInval); }
    }

    method Lookup(path: string) returns (rc: Status, node: nat)
      requires Shape() && nodeCount > 0
      ensures var r := PathModel.Lookup(nodes[..nodeCount], path);
              (rc == Ok ==> r == Good(node)) && (rc != Ok ==> r == Bad(rc))
    {
      if path == "" || path[0] != '/' { return EInval, 0; }
      if |path| >= MAX_PATH { return ENameTooLong, 0; }
      if |path| == 1 { return Ok, 0; }
      var r := LookupLoop(path, 0, 1);
      node := if r.Good? then r.value else 0;
      rc := if r.Good? then Ok else r.status;
    }

    /** One round of the splitter's loop: it goes on in a directory, or has its answer. */
    method SplitRound(path: string, cur: nat, at: nat) returns (more: bool, r: Result<Place>, next: nat)
      requires Shape() && at <= |path|
      ensures at <= next <= |path| && (more ==> r.Good? && at < next)
      ensures SplitFrom(nodes[..nodeCount], path, cur, at) ==
              if more then SplitFrom(nodes[..nodeCount], path, r.value.parent, next) else r
    {
      SplitUnfold(nodes[..nodeCount], path, cur, at);
      var end := ScanSegment(path, at);
      if end == at || end - at >= MAX_NAME { return false, Bad(EInval), end; }
      if end == |path| { return false, Good(Place(cur, path[at..end])), end; }
      var rc, child := FindChild(cur, path, at, end - at);
      r := if rc != Ok then Bad(rc) else Good(Place(child, ""));
      more, next := rc == Ok, end + 1;
      if more && nodes[child].kind != Dir { more, r := false, Bad(ENotDir); }
    }

    /** The splitter's loop, from a directory and a place in the path. */
    method SplitLoop(path: string, cur: nat, at: nat) returns (r: Result<Place>)
      requires Shape() && at <= |path|
      ensures r == SplitFrom(nodes[..nodeCount], path, cur, at)
    {
      var more, i := true, at;
      r := Good(Place(cur, ""));
      while more
        invariant i <= |path| && (more ==> r.Good?)
        invariant SplitFrom(nodes[..nodeCount], path, cur, at) ==
                  if more then SplitFrom(nodes[..nodeCount], path, r.value.parent, i) else r
        decreases |path| - i, more
      {
        more, r, i := SplitRound(path, r.value.parent, i);
      }
    }

    method SplitParentLeaf(path: string) returns (r: Result<Place>)
      requires Shape() && nodeCount > 0
      ensures r == Split(nodes[..nodeCount], path)
    {
      if path == "" || path[0] != '/' { return Bad(EInval); }
      if |path| == 1 { return Bad(EInval); }
      if |path| >= MAX_PATH { return Bad(ENameTooLong); }
      r := SplitLoop(path, 0, 1);
    }

    method AllocNode(parent: nat, kind: Kind, name: string, cap: nat) returns (rc: Status, node: nat)
      requires Shape()
      modifies this, nodes
      ensures Shape()
      ensures var (r, fs) := VfsModel.AllocNode(old(Model()), parent, kind, name, cap);
              Model() == fs && (rc == Ok ==> r == Good(node)) && (rc != Ok ==> r == Bad(rc))
    {
      node := 0;
      if name == "" || |name| >= MAX_NAME { return EInval, 0; }
      if nodeCount >= MAX_NODES { return ENoSpc, 0; }
      if kind == File && dataUsed + cap > DATA_BYTES { return ENoSpc, 0; }
      node := nodeCount;
      nodes[node] := Vnode(parent, kind, name, 0, 0, 0);
      if kind == File {
        nodes[node] := nodes[node].(offset := dataUsed, cap := cap);
        dataUsed := dataUsed + cap;
      }
      nodeCount := nodeCount + 1;
      assert nodes[..nodeCount] == old(nodes[..nodeCount]) + [nodes[node]];
      rc := Ok;
    }

    method CreateFile(path: string) returns (rc: Status, node: nat)
      requires Valid()
      modifies this, nodes
      ensures Valid()
      ensures var (r, fs) := VfsModel.CreateFile(old(Model()), path);
              Model() == fs && (rc == Ok ==> r == Good(node)) && (rc != Ok ==> r == Bad(rc))
    {
      CreateEffect(Model(), path);
      rc, node := Lookup(path);
      if rc == Ok {
        if nodes[node].kind != File { return EIsDir, 0; }
        return;
      }
      var place := SplitParentLeaf(path);
      if place.Bad? { return place.status, 0; }
      SplitSpellsPath(nodes[..nodeCount], path);
      if nodes[place.value.parent].kind != Dir { return ENotDir, 0; }
      rc, node := AllocNode(place.value.parent, File, place.value.leaf, FILE_CAP);
    }

    /** Copies `src` into the store at `at`. */
    method CopyBytes(at: nat, src: seq<bv8>)
      requires Shape() && at + |src| <= DATA_BYTES
      modifies data
      ensures Shape() && data[..] == Overwrite(old(data[..]), at, src)
    {
      var i := 0;
      while i < |src|
        invariant i <= |src|
        invariant forall k :: 0 <= k < DATA_BYTES ==>
                    data[k] == if at <= k < at + i then src[k - at] else old(data[..])[k]
      {
        data[at + i] := src[i];
        i := i + 1;
      }
      assert forall k :: at <= k < at + |src| ==> Overwrite(old(data[..]), at, src)[k] == src[k - at];
    }

    method SeedFile(path: string, bytes: seq<bv8>) returns (rc: Status)
      requires Valid()
      modifies this, nodes, data
      ensures Valid() && (rc, Model()) == Seed(old(Model()), path, bytes)
    {
      SeedEffect(Model(), path, bytes);
      CreateEffect(Model(), path);
      var node;
      rc, node := CreateFile(path);
      if rc != Ok { return; }
      if |bytes| > nodes[node].cap { return ENoSpc; }
      assert InExtent(Model(), node);
      CopyBytes(nodes[node].offset, bytes);
      nodes[node] := nodes[node].(size := |bytes|);
      rc := Ok;
    }
  }
}
