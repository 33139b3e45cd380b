/** Whole runs of map and unmap calls against a plain finite map from page address to mapping. */
module PageRuns {
  import opened Words
  import opened PageModel
  import opened PageProofs

  /** A call, with the answers the frame allocator gives during it. */
  datatype Op = MapOp(v: u64, p: u64, flags: u64, supply: seq<u64>) | UnmapOp(v: u64)

  function Step(s: Space, op: Op): (Status, Space) {
    match op
    case MapOp(v, p, flags, supply) =>
      var r := Map(s.root, Heap(s.mem, supply, []), v, p, flags);
      (r.0, s.(mem := r.1.mem))
    case UnmapOp(v) => Unmap(s, v)
  }

  type Flat = map<u64, Mapping>

  function FlatStep(flat: Flat, op: Op, status: Status): Flat {
    if status != Ok then flat
    else match op
      case MapOp(v, p, flags, _) => flat[v := Mapping(v, AddrBits(p), LeafFlags(flags))]
      case UnmapOp(v) => flat - {v}
  }

  function FlatQuery(flat: Flat, v: u64): Found<Mapping> {
    if !Canonical(v) || !Aligned(v) then Miss(Inval)
    else if v in flat then Hit(flat[v]) else Miss(NotFound)
  }

  /** What the flat map says about the outcome: everything except running out of frames. */
  predicate StatusFits(flat: Flat, op: Op, status: Status) {
    match op
    case MapOp(v, p, _, _) =>
      if !GoodMapArgs(v, p) then status == Inval
      else if v in flat then status == Exists
      else status == Ok || status == NoMem || status == Inval
    case UnmapOp(v) =>
      status == if !Canonical(v) || !Aligned(v) then Inval else if v in flat then Ok else NotFound
  }

  ghost predicate Agrees(s: Space, flat: Flat) {
    Tree(s) && forall v :: Query(s, v) == FlatQuery(flat, v)
  }

  lemma StepAgrees(s: Space, flat: Flat, op: Op)
    requires Agrees(s, flat) && (op.MapOp? ==> FreshSupply(s, op.supply))
    ensures var (status, t) := Step(s, op);
            StatusFits(flat, op, status) && Agrees(t, FlatStep(flat, op, status))
  {
    match op
    case MapOp(v, p, flags, supply) =>
      MapKeepsTree(s, Heap(s.mem, supply, []), v, p, flags);
      MapEffect(s, Heap(s.mem, supply, []), v, p, flags);
      assert Query(s, v) == FlatQuery(flat, v);
    case UnmapOp(v) =>
      UnmapEffect(s, v);
      assert Query(s, v) == FlatQuery(flat, v);
  }

  /** A space and its flat shadow after a run. */
  datatype Pair = Pair(space: Space, flat: Flat)

  function Run(start: Space, ops: seq<Op>): Pair {
    if ops == [] then Pair(start, map[])
    else
      var before := Run(start, ops[..|ops| - 1]);
      var (status, after) := Step(before.space, ops[|ops| - 1]);
      Pair(after, FlatStep(before.flat, ops[|ops| - 1], status))
  }

  /** At every map call of the run the allocator hands out fresh frames. */
  ghost predicate Supplied(start: Space, ops: seq<Op>) {
    forall k :: 0 <= k < |ops| && ops[k].MapOp? ==>
      FreshSupply(Run(start, ops[..k]).space, ops[k].supply)
  }

  lemma {:induction false} ZeroRootWalk(s: Space, q: seq<nat>)
    requires s.root in s.mem && s.mem[s.root] == ZeroTable() && ValidPath(q)
    ensures Walk(s, q) == if q == [] then Some(s.root) else None
    decreases |q|
  {
    if q != [] { ZeroRootWalk(s, q[..|q| - 1]); }
  }

  lemma ZeroRootAgrees(s: Space)
    requires Accessible(s.mem, s.root) && s.mem[s.root] == ZeroTable()
    ensures Agrees(s, map[])
    ensures forall t :: IsTable(s, t) <==> t == s.root
  {
    forall q | ValidPath(q) ensures Walk(s, q) == if q == [] then Some(s.root) else None {
      ZeroRootWalk(s, q);
    }
    assert Tree(s);
    assert ValidPath([]);
    forall v ensures Query(s, v) == FlatQuery(map[], v) {
      if Canonical(v) && Aligned(v) { QueryIsLeaf(s, v); }
    }
  }

  /** From a zeroed root, after any run, query agrees at every address with the flat map. */
  lemma {:induction false} RunAgrees(start: Space, ops: seq<Op>)
    requires Accessible(start.mem, start.root) && start.mem[start.root] == ZeroTable()
    requires Supplied(start, ops)
    ensures Agrees(Run(start, ops).space, Run(start, ops).flat)
    decreases |ops|
  {
    if ops == [] {
      ZeroRootAgrees(start);
    } else {
      var k := |ops| - 1;
      var before := ops[..k];
      forall j | 0 <= j < k && before[j].MapOp?
        ensures FreshSupply(Run(start, before[..j]).space, before[j].supply)
      {
        assert before[..j] == ops[..j] && before[j] == ops[j];
      }
      RunAgrees(start, before);
      assert ops[k].MapOp? ==> FreshSupply(Run(start, before).space, ops[k].supply);
      StepAgrees(Run(start, before).space, Run(start, before).flat, ops[k]);
    }
  }

  /** Map keeps bits 12 to 51 of the physical address, so query returns the address that was mapped
      exactly when it lies below 2^52. */
  lemma MappedAddressIff(s: Space, h: Heap, v: u64, p: u64, flags: u64)
    requires Tree(s) && h.mem == s.mem && FreshSupply(s, h.supply)
    requires Map(s.root, h, v, p, flags).0 == Ok
    ensures var t := s.(mem := Map(s.root, h, v, p, flags).1.mem);
            Query(t, v) == Hit(Mapping(v, p, LeafFlags(flags))) <==> p < POW52
  {
    MapEffect(s, h, v, p, flags);
    AddrBitsKeep(p);
  }

  /** Unmapping a page that was just mapped restores every translation. */
  lemma MapThenUnmap(s: Space, h: Heap, v: u64, p: u64, flags: u64)
    requires Tree(s) && h.mem == s.mem && FreshSupply(s, h.supply)
    requires Map(s.root, h, v, p, flags).0 == Ok
    ensures var t := s.(mem := Map(s.root, h, v, p, flags).1.mem);
            Unmap(t, v).0 == Ok && forall w :: Query(Unmap(t, v).1, w) == Query(s, w)
  {
    MapKeepsTree(s, h, v, p, flags);
    MapEffect(s, h, v, p, flags);
    UnmapEffect(s.(mem := Map(s.root, h, v, p, flags).1.mem), v);
  }

  /** The first map under a zeroed root succeeds when three frames are at hand. */
  lemma FirstMap(s: Space, supply: seq<u64>, v: u64, p: u64, flags: u64)
    requires Accessible(s.mem, s.root) && s.mem[s.root] == ZeroTable() && GoodMapArgs(v, p)
    requires FreshSupply(s, supply) && Enough(s.mem, supply, 3)
    ensures var r := Map(s.root, Heap(s.mem, supply, []), v, p, flags);
            r.0 == Ok && Query(s.(mem := r.1.mem), v) == Hit(Mapping(v, AddrBits(p), LeafFlags(flags)))
  {
    ZeroRootAgrees(s);
    assert Query(s, v) == FlatQuery(map[], v);
    MapEffect(s, Heap(s.mem, supply, []), v, p, flags);
  }

  /** A machine of four frames: a zeroed root at 4096 and three zeroed frames left to hand out. */
  ghost predicate FourFrames(s: Space, supply: seq<u64>) {
    && s == Space(4096, map[4096 := ZeroTable(), 8192 := ZeroTable(), 12288 := ZeroTable(), 16384 := ZeroTable()])
    && supply == [8192, 12288, 16384]
  }

  lemma FourFramesReady(s: Space, supply: seq<u64>)
    requires FourFrames(s, supply)
    ensures Accessible(s.mem, s.root) && s.mem[s.root] == ZeroTable()
    ensures FreshSupply(s, supply) && Enough(s.mem, supply, 3)
  {
    ZeroRootAgrees(s);
  }

  /** Mapping page `v` to `p` succeeds, and query then returns another physical address. */
  ghost predicate Misplaced(s: Space, supply: seq<u64>, v: u64, p: u64, flags: u64) {
    var r := Map(s.root, Heap(s.mem, supply, []), v, p, flags);
    r.0 == Ok && exists q :: q != p && Query(s.(mem := r.1.mem), v) == Hit(Mapping(v, q, LeafFlags(flags)))
  }

  lemma HighIsMisplaced(s: Space, supply: seq<u64>, v: u64, p: u64, flags: u64)
    requires Accessible(s.mem, s.root) && s.mem[s.root] == ZeroTable() && GoodMapArgs(v, p) && p >= POW52
    requires FreshSupply(s, supply) && Enough(s.mem, supply, 3)
    ensures Misplaced(s, supply, v, p, flags)
  {
    FirstMap(s, supply, v, p, flags);
    AddrBitsKeep(p);
  }

  /** The input: page 0 mapped to physical 2^52 in a machine of four frames is found at physical 0. */
  lemma HighAddressTruncated(s: Space, supply: seq<u64>, v: u64, p: u64, flags: u64)
    requires FourFrames(s, supply) && v == 0 && p == POW52 && flags == 0
    ensures Misplaced(s, supply, v, p, flags) && AddrBits(p) == 0
  {
    FourFramesReady(s, supply);
    HighIsMisplaced(s, supply, v, p, flags);
    Bit52IsLost();
  }

  /** Entry `i` of the table at path `q` refers to table `t`. */
  ghost predicate RefersTo(s: Space, q: seq<nat>, i: nat, t: u64) {
    && ValidPath(q) && |q| <= 2 && i < ENTRIES && Walk(s, q).Some? && Walk(s, q).value in s.mem
    && Present(s.mem[Walk(s, q).value][i]) && AddrBits(s.mem[Walk(s, q).value][i]) == t
  }

  lemma ReferenceIsPath(s: Space, q: seq<nat>, i: nat, t: u64)
    requires Tree(s) && RefersTo(s, q, i, t)
    ensures ValidPath(q + [i]) && Walk(s, q + [i]) == Some(t)
  {
    TableBelow(s, q, Walk(s, q).value, i);
  }

  lemma ParentExists(s: Space, t: u64) returns (q: seq<nat>, i: nat)
    requires Tree(s) && IsTable(s, t) && t != s.root
    ensures RefersTo(s, q, i, t)
  {
    var c :| ValidPath(c) && Walk(s, c) == Some(t);
    q, i := c[..|c| - 1], c[|c| - 1];
    assert ValidPath(q);
  }

  /** Every table but the root is referenced by exactly one entry, and the root by none. */
  lemma OneParentEntry(s: Space, t: u64)
    requires Tree(s) && IsTable(s, t)
    ensures t == s.root ==> forall q, i :: !RefersTo(s, q, i, t)
    ensures t != s.root ==> exists q, i :: RefersTo(s, q, i, t)
    ensures forall q, i, r, j :: RefersTo(s, q, i, t) && RefersTo(s, r, j, t) ==> q == r && i == j
  {
    if t != s.root { var q, i := ParentExists(s, t); }
    assert ValidPath([]) && Walk(s, []) == Some(s.root);
    forall q, i | RefersTo(s, q, i, t) ensures t != s.root {
      ReferenceIsPath(s, q, i, t);
      assert q + [i] != [];
    }
    forall q, i, r, j | RefersTo(s, q, i, t) && RefersTo(s, r, j, t) ensures q == r && i == j {
      ReferenceIsPath(s, q, i, t);
      ReferenceIsPath(s, r, j, t);
      LastOf(q, i, r, j);
    }
  }
}
