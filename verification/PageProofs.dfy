/** Why the radix tree behaves like a flat map: linking an empty table changes no translation and
    writing a last-level entry changes exactly one. */
module PageProofs {
  import opened Words
  import opened PageModel

  ghost predicate SameLeaves(s: Space, t: Space) {
    forall q, d :: ValidPath(q) && |q| == 3 && 0 <= d < ENTRIES ==> Leaf(s, q, d) == Leaf(t, q, d)
  }

  // ---------- query reads the tree ----------

  lemma LastTableIsWalk(s: Space, v: u64)
    requires Tree(s) && Canonical(v) && Aligned(v)
    ensures LastTable(s, v) == match Walk(s, PathOf(v))
                               case Some(t) => Hit(t)
                               case None => Miss(NotFound)
  {
    var q := PathOf(v);
    assert q[..2] == [IdxPml4(v), IdxPdpt(v)] && q[..2][..1] == [IdxPml4(v)] && q[..1][..0] == [];
    assert Walk(s, []) == Some(s.root);
    assert ValidPath([]) && ValidPath(q[..1]) && ValidPath(q[..2]);
    assert q[..2][..1] == q[..1];
  }

  lemma QueryIsLeaf(s: Space, v: u64)
    requires Tree(s) && Canonical(v) && Aligned(v)
    ensures Query(s, v) == match Leaf(s, PathOf(v), IdxPt(v))
                           case Some(e) => Hit(Mapping(v, AddrBits(e), OtherBits(e)))
                           case None => Miss(NotFound)
  {
    LastTableIsWalk(s, v);
  }

  lemma SameLeavesSameQuery(s: Space, t: Space, w: u64)
    requires Tree(s) && Tree(t) && SameLeaves(s, t)
    ensures Query(s, w) == Query(t, w)
  {
    if Canonical(w) && Aligned(w) {
      QueryIsLeaf(s, w);
      QueryIsLeaf(t, w);
    }
  }

  // ---------- writing a last-level entry ----------

  lemma {:induction false} LeafWriteKeepsWalks(s: Space, q: seq<nat>, d: nat, e: u64, r: seq<nat>)
    requires Tree(s) && ValidPath(q) && |q| == 3 && d < ENTRIES && Walk(s, q).Some? && ValidPath(r)
    ensures Walk(s.(mem := WriteEntry(s.mem, Walk(s, q).value, d, e)), r) == Walk(s, r)
    decreases |r|
  {
    if r != [] { LeafWriteKeepsWalks(s, q, d, e, r[..|r| - 1]); }
  }

  lemma LeafWrite(s: Space, q: seq<nat>, d: nat, e: u64)
    requires Tree(s) && ValidPath(q) && |q| == 3 && d < ENTRIES && Walk(s, q).Some?
    ensures var t := s.(mem := WriteEntry(s.mem, Walk(s, q).value, d, e));
            && Tree(t)
            && (forall x :: IsTable(t, x) <==> IsTable(s, x))
            && (forall r, k :: ValidPath(r) && |r| == 3 && 0 <= k < ENTRIES ==>
                  Leaf(t, r, k) == if r == q && k == d then (if Present(e) then Some(e) else None)
                                   else Leaf(s, r, k))
  {
    var t := s.(mem := WriteEntry(s.mem, Walk(s, q).value, d, e));
    forall r | ValidPath(r) ensures Walk(t, r) == Walk(s, r) { LeafWriteKeepsWalks(s, q, d, e, r); }
    assert Tree(t) by {
      forall r, i | ValidPath(r) && |r| <= 2 && Walk(t, r).Some? && 0 <= i < ENTRIES &&
                    Present(t.mem[Walk(t, r).value][i])
        ensures !Huge(t.mem[Walk(t, r).value][i])
      {
        assert Walk(s, r) != Walk(s, q);
      }
    }
  }

  // ---------- writing a frame that is no table ----------

  lemma {:induction false} OutsideKeepsWalks(s: Space, a: u64, contents: Table, r: seq<nat>)
    requires Tree(s) && ValidPath(r) && a in s.mem && !IsTable(s, a)
    ensures Walk(s.(mem := s.mem[a := contents]), r) == Walk(s, r)
    decreases |r|
  {
    if r != [] {
      var up := r[..|r| - 1];
      OutsideKeepsWalks(s, a, contents, up);
      if Walk(s, up).Some? { assert IsTable(s, Walk(s, up).value); }
    }
  }

  /** Whatever is written to a frame that is no table, the tables and every translation stay. */
  lemma OutsideWrite(s: Space, a: u64, contents: Table)
    requires Tree(s) && a in s.mem && !IsTable(s, a)
    ensures var t := s.(mem := s.mem[a := contents]);
            && Tree(t) && (forall x :: IsTable(t, x) <==> IsTable(s, x))
            && (forall v :: Query(t, v) == Query(s, v))
  {
    var t := s.(mem := s.mem[a := contents]);
    forall r | ValidPath(r) ensures Walk(t, r) == Walk(s, r) { OutsideKeepsWalks(s, a, contents, r); }
    forall r | ValidPath(r) && Walk(s, r).Some? ensures t.mem[Walk(s, r).value] == s.mem[Walk(s, r).value] {
      assert IsTable(s, Walk(s, r).value);
    }
    assert Tree(t);
    assert SameLeaves(s, t);
    forall v ensures Query(t, v) == Query(s, v) { SameLeavesSameQuery(s, t, v); }
  }

  // ---------- linking an empty table ----------

  function Linked(s: Space, t: u64, i: nat, p: u64): Space
    requires t in s.mem && i < ENTRIES
  {
    s.(mem := WriteEntry(s.mem[p := ZeroTable()], t, i, TableEntry(p)))
  }

  ghost predicate CanLink(s: Space, q: seq<nat>, i: nat, p: u64) {
    && Tree(s) && ValidPath(q) && |q| <= 2 && i < ENTRIES && Walk(s, q).Some?
    && !Present(s.mem[Walk(s, q).value][i])
    && Accessible(s.mem, p) && p < POW52 && !IsTable(s, p)
  }

  /** What linking writes: one entry of `t`, and the whole of the zeroed frame. */
  lemma LinkMemory(s: Space, q: seq<nat>, i: nat, p: u64)
    requires CanLink(s, q, i, p)
    ensures var t := Walk(s, q).value; var l := Linked(s, t, i, p);
            && t != p && t in l.mem && p in l.mem && l.mem[p] == ZeroTable() && l.mem[t] == s.mem[t][i := TableEntry(p)]
            && l.mem.Keys == s.mem.Keys && forall x :: x in s.mem && x != t && x != p ==> l.mem[x] == s.mem[x]
  {
    assert IsTable(s, Walk(s, q).value);
  }

  lemma NothingBelowZeros(l: Space, c: seq<nat>, p: u64, k: nat)
    requires ValidPath(c) && ValidPath(c + [k]) && Walk(l, c) == Some(p) && p in l.mem && l.mem[p] == ZeroTable()
    ensures Walk(l, c + [k]) == None
  {
    assert (c + [k])[..|c|] == c && (c + [k])[|c|] == k;
    assert ZeroTable()[k] == 0;
  }

  lemma NothingBelowNone(s: Space, c: seq<nat>, k: nat)
    requires ValidPath(c) && ValidPath(c + [k]) && Walk(s, c) == None
    ensures Walk(s, c + [k]) == None
  {
    assert (c + [k])[..|c|] == c;
  }

  lemma NotYetLinked(s: Space, q: seq<nat>, i: nat)
    requires ValidPath(q) && ValidPath(q + [i]) && i < ENTRIES && Walk(s, q).Some? && Walk(s, q).value in s.mem
    requires !Present(s.mem[Walk(s, q).value][i])
    ensures Walk(s, q + [i]) == None
  {
    assert (q + [i])[..|q|] == q && (q + [i])[|q|] == i;
  }

  /** Below the new table there is nothing, before and after. */
  lemma LinkWalkBelow(s: Space, q: seq<nat>, i: nat, p: u64, k: nat)
    requires CanLink(s, q, i, p) && ValidPath(q + [i] + [k])
    requires ValidPath(q + [i]) && Walk(Linked(s, Walk(s, q).value, i, p), q + [i]) == Some(p)
    ensures Walk(Linked(s, Walk(s, q).value, i, p), q + [i] + [k]) == None == Walk(s, q + [i] + [k])
  {
    LinkMemory(s, q, i, p);
    NothingBelowZeros(Linked(s, Walk(s, q).value, i, p), q + [i], p, k);
    NotYetLinked(s, q, i);
    NothingBelowNone(s, q + [i], k);
  }

  /** Beside the new table a walk goes on as before, except through the new entry. */
  lemma LinkWalkBeside(s: Space, q: seq<nat>, i: nat, p: u64, up: seq<nat>, k: nat)
    requires CanLink(s, q, i, p) && ValidPath(up + [k]) && ValidPath(up)
    requires Walk(Linked(s, Walk(s, q).value, i, p), up) == Walk(s, up)
    ensures Walk(Linked(s, Walk(s, q).value, i, p), up + [k]) ==
            if up == q && k == i then Some(p) else Walk(s, up + [k])
  {
    var r := up + [k];
    LinkMemory(s, q, i, p);
    TableEntryBits(p);
    assert r[..|r| - 1] == up && r[|r| - 1] == k;
    if Walk(s, up).Some? { assert IsTable(s, Walk(s, up).value); }
  }

  lemma {:induction false} LinkWalk(s: Space, q: seq<nat>, i: nat, p: u64, r: seq<nat>)
    requires CanLink(s, q, i, p) && ValidPath(r)
    ensures Walk(Linked(s, Walk(s, q).value, i, p), r) ==
            if r == q + [i] then Some(p) else Walk(s, r)
    decreases |r|
  {
    if r != [] {
      var up, k := r[..|r| - 1], r[|r| - 1];
      assert r == up + [k] && ValidPath(up);
      LinkWalk(s, q, i, p, up);
      if up == q + [i] {
        LinkWalkBelow(s, q, i, p, k);
      } else {
        LinkWalkBeside(s, q, i, p, up, k);
        LastOf(up, k, q, i);
      }
    }
  }

  lemma LastOf(a: seq<nat>, x: nat, b: seq<nat>, y: nat)
    ensures a + [x] == b + [y] <==> a == b && x == y
  {
    if a + [x] == b + [y] {
      assert (a + [x])[..|a|] == a && (b + [y])[..|b|] == b && (a + [x])[|a|] == x && (b + [y])[|b|] == y;
    }
  }

  /** Linking a zeroed fresh frame adds one table and no translation. */
  lemma Link(s: Space, q: seq<nat>, i: nat, p: u64)
    requires CanLink(s, q, i, p)
    ensures var l := Linked(s, Walk(s, q).value, i, p);
            && Tree(l) && SameLeaves(s, l)
            && Walk(l, q + [i]) == Some(p)
            && (forall x :: IsTable(l, x) <==> IsTable(s, x) || x == p)
  {
    LinkWalk(s, q, i, p, q + [i]);
    LinkTree(s, q, i, p);
    LinkLeaves(s, q, i, p);
    LinkTables(s, q, i, p);
  }

  lemma LinkTables(s: Space, q: seq<nat>, i: nat, p: u64)
    requires CanLink(s, q, i, p)
    ensures forall x :: IsTable(Linked(s, Walk(s, q).value, i, p), x) <==> IsTable(s, x) || x == p
  {
    var l := Linked(s, Walk(s, q).value, i, p);
    var c := q + [i];
    forall r | ValidPath(r) ensures Walk(l, r) == if r == c then Some(p) else Walk(s, r) {
      LinkWalk(s, q, i, p, r);
    }
    assert c[..|c| - 1] == q && ValidPath(c) && Walk(s, c).None?;
    forall x: u64 | IsTable(s, x) ensures IsTable(l, x) {
      var r :| ValidPath(r) && Walk(s, r) == Some(x);
      assert Walk(l, r) == Some(x);
    }
    assert Walk(l, c) == Some(p);
  }

  lemma LinkNotHuge(s: Space, q: seq<nat>, i: nat, p: u64, r: seq<nat>, k: nat)
    requires CanLink(s, q, i, p) && ValidPath(r) && |r| <= 2 && k < ENTRIES
    requires var l := Linked(s, Walk(s, q).value, i, p); Walk(l, r).Some? && Walk(l, r).value in l.mem
    ensures var l := Linked(s, Walk(s, q).value, i, p);
            !(Present(l.mem[Walk(l, r).value][k]) && Huge(l.mem[Walk(l, r).value][k]))
  {
    LinkWalk(s, q, i, p, r);
    LinkMemory(s, q, i, p);
    TableEntryBits(p);
    if r != q + [i] { assert IsTable(s, Walk(s, r).value); }
  }

  lemma LinkApart(s: Space, q: seq<nat>, i: nat, p: u64, r: seq<nat>, u: seq<nat>)
    requires CanLink(s, q, i, p) && ValidPath(r) && ValidPath(u)
    requires var l := Linked(s, Walk(s, q).value, i, p); Walk(l, r).Some? && Walk(l, r) == Walk(l, u)
    ensures r == u
  {
    LinkWalk(s, q, i, p, r);
    LinkWalk(s, q, i, p, u);
    if r != q + [i] { assert IsTable(s, Walk(s, r).value); }
    if u != q + [i] { assert IsTable(s, Walk(s, u).value); }
  }

  lemma LinkTree(s: Space, q: seq<nat>, i: nat, p: u64)
    requires CanLink(s, q, i, p)
    ensures Tree(Linked(s, Walk(s, q).value, i, p))
  {
    var l := Linked(s, Walk(s, q).value, i, p);
    LinkMemory(s, q, i, p);
    forall r | ValidPath(r) && Walk(l, r).Some? ensures Accessible(l.mem, Walk(l, r).value) {
      LinkWalk(s, q, i, p, r);
    }
    forall r, u | ValidPath(r) && ValidPath(u) && Walk(l, r).Some? && Walk(l, r) == Walk(l, u) ensures r == u {
      LinkApart(s, q, i, p, r, u);
    }
    forall r, k | ValidPath(r) && |r| <= 2 && Walk(l, r).Some? && 0 <= k < ENTRIES
      ensures !(Present(l.mem[Walk(l, r).value][k]) && Huge(l.mem[Walk(l, r).value][k]))
    {
      LinkNotHuge(s, q, i, p, r, k);
    }
  }

  lemma LinkLeaves(s: Space, q: seq<nat>, i: nat, p: u64)
    requires CanLink(s, q, i, p)
    ensures SameLeaves(s, Linked(s, Walk(s, q).value, i, p))
  {
    var t := Walk(s, q).value;
    var l := Linked(s, t, i, p);
    var c := q + [i];
    assert c[..|c| - 1] == q && ValidPath(c) && Walk(s, c).None?;
    forall r, d | ValidPath(r) && |r| == 3 && 0 <= d < ENTRIES
      ensures Leaf(s, r, d) == Leaf(l, r, d)
    {
      LinkWalk(s, q, i, p, r);
      if Walk(s, r).Some? { assert IsTable(s, Walk(s, r).value); }
    }
  }

  // ---------- one level of vmm_map_page ----------

  predicate UsableFrame(mem: Memory, p: u64) {
    p != INVALID_PHYS && Accessible(mem, p)
  }

  /** The frames the allocator will hand out are below 2^52, distinct, and not tables already. */
  ghost predicate FreshSupply(s: Space, supply: seq<u64>) {
    && (forall k :: 0 <= k < |supply| && UsableFrame(s.mem, supply[k]) ==>
          supply[k] < POW52 && !IsTable(s, supply[k]))
    && (forall j, k :: 0 <= j < k < |supply| && UsableFrame(s.mem, supply[j]) ==> supply[j] != supply[k])
  }

  predicate Enough(mem: Memory, supply: seq<u64>, n: nat) {
    n <= |supply| && forall k :: 0 <= k < n ==> UsableFrame(mem, supply[k])
  }

  /** What one level, or all levels, of table allocation leave alone. */
  ghost predicate OnlyLinked(root: u64, h: Heap, r: Stepped, need: nat) {
    Grown(Space(root, h.mem), Space(root, r.heap.mem), h.supply, r.heap.supply) && Drawn(h, r, need)
  }

  /** Tables were only added, each from the frames taken, and no translation changed. */
  ghost predicate Grown(s: Space, t: Space, before: seq<u64>, after: seq<u64>) {
    && Tree(t) && SameLeaves(s, t) && t.mem.Keys == s.mem.Keys && FreshSupply(t, after)
    && (forall x :: IsTable(s, x) ==> IsTable(t, x))
    && |after| <= |before|
    && (forall x :: IsTable(t, x) ==> IsTable(s, x) || x in before[..|before| - |after|])
  }

  /** At most `need` frames were taken, in order, and only unreachable ones given back. */
  ghost predicate Drawn(h: Heap, r: Stepped, need: nat) {
    && |r.heap.supply| <= |h.supply| <= |r.heap.supply| + need
    && r.heap.supply == h.supply[|h.supply| - |r.heap.supply|..]
    && (forall x :: x in r.heap.returned ==> x in h.returned || (x in h.supply && Aligned(x) && x !in h.mem))
    && (r.Failed? ==> r.status != Exists && r.status != Ok && r.status != NotFound)
    && (Enough(h.mem, h.supply, need) ==> r.Moved?)
  }

  /** Nothing was linked: the table was there, or no usable frame came. */
  lemma NothingLinked(root: u64, h: Heap, r: Stepped)
    requires Tree(Space(root, h.mem)) && FreshSupply(Space(root, h.mem), h.supply)
    requires r.heap.mem == h.mem
    requires r.Moved? ==> r.heap == h
    requires r.Failed? ==> (r.status == NoMem || r.status == Inval) && !Enough(h.mem, h.supply, 1)
    requires r.heap.supply == h.supply || (h.supply != [] && r.heap.supply == h.supply[1..])
    requires forall x :: x in r.heap.returned ==> x in h.returned || (x in h.supply && Aligned(x) && x !in h.mem)
    ensures OnlyLinked(root, h, r, 1)
  {
    if r.heap.supply != h.supply {
      forall k | 0 <= k < |r.heap.supply| ensures r.heap.supply[k] == h.supply[k + 1] { }
    }
  }

  lemma OneLinked(root: u64, h: Heap, q: seq<nat>, i: nat)
    requires h.supply != [] && CanLink(Space(root, h.mem), q, i, h.supply[0])
    requires UsableFrame(h.mem, h.supply[0]) && FreshSupply(Space(root, h.mem), h.supply)
    ensures var r := GetOrAlloc(h, Walk(Space(root, h.mem), q).value, i);
            OnlyLinked(root, h, r, 1) && r.Moved? &&
            Walk(Space(root, r.heap.mem), q + [i]) == Some(r.table)
  {
    var s, p := Space(root, h.mem), h.supply[0];
    Link(s, q, i, p);
    var l := Linked(s, Walk(s, q).value, i, p);
    var rest := h.supply[1..];
    forall k | 0 <= k < |rest| && UsableFrame(l.mem, rest[k])
      ensures rest[k] < POW52 && !IsTable(l, rest[k])
    {
      assert rest[k] == h.supply[k + 1];
    }
    assert FreshSupply(l, rest);
  }

  lemma GetOrAllocOnlyLinks(root: u64, h: Heap, q: seq<nat>, t: u64, i: nat)
    requires Tree(Space(root, h.mem)) && ValidPath(q) && |q| <= 2 && i < ENTRIES
    requires Walk(Space(root, h.mem), q) == Some(t) && Accessible(h.mem, t)
    requires FreshSupply(Space(root, h.mem), h.supply)
    ensures var r := GetOrAlloc(h, t, i);
            && OnlyLinked(root, h, r, 1)
            && (r.Moved? ==> Walk(Space(root, r.heap.mem), q + [i]) == Some(r.table))
  {
    if Present(h.mem[t][i]) {
      TableBelow(Space(root, h.mem), q, t, i);
      NothingLinked(root, h, Moved(AddrBits(h.mem[t][i]), h));
    } else if h.supply != [] && UsableFrame(h.mem, h.supply[0]) {
      OneLinked(root, h, q, i);
    } else {
      NoFrameCame(root, h, t, i);
    }
  }

  lemma NoFrameCame(root: u64, h: Heap, t: u64, i: nat)
    requires Tree(Space(root, h.mem)) && i < ENTRIES && Accessible(h.mem, t) && !Present(h.mem[t][i])
    requires FreshSupply(Space(root, h.mem), h.supply)
    requires h.supply == [] || !UsableFrame(h.mem, h.supply[0])
    ensures GetOrAlloc(h, t, i).Failed? && OnlyLinked(root, h, GetOrAlloc(h, t, i), 1)
  {
    NothingLinked(root, h, GetOrAlloc(h, t, i));
  }

  lemma TableBelow(s: Space, q: seq<nat>, t: u64, i: nat)
    requires Tree(s) && ValidPath(q) && |q| <= 2 && i < ENTRIES
    requires Walk(s, q) == Some(t) && Accessible(s.mem, t) && Present(s.mem[t][i])
    ensures !Huge(s.mem[t][i]) && Accessible(s.mem, AddrBits(s.mem[t][i]))
    ensures Walk(s, q + [i]) == Some(AddrBits(s.mem[t][i]))
  {
    var c := q + [i];
    assert c[..|c| - 1] == q && ValidPath(c);
  }

  /** What two steps take from the supply is what the first took and then what the second took. */
  lemma SupplyTrans(h: seq<u64>, a: seq<u64>, b: seq<u64>)
    requires |b| <= |a| <= |h| && a == h[|h| - |a|..] && b == a[|a| - |b|..]
    ensures b == h[|h| - |b|..] && h[..|h| - |b|] == h[..|h| - |a|] + a[..|a| - |b|]
    ensures a != [] ==> a[0] == h[|h| - |a|]
  {
  }

  lemma LeavesTrans(s: Space, t: Space, u: Space)
    requires SameLeaves(s, t) && SameLeaves(t, u)
    ensures SameLeaves(s, u)
  {
    forall q, d | ValidPath(q) && |q| == 3 && 0 <= d < ENTRIES ensures Leaf(s, q, d) == Leaf(u, q, d) {
      assert Leaf(s, q, d) == Leaf(t, q, d);
    }
  }

  lemma GrownTrans(s: Space, t: Space, u: Space, h: seq<u64>, a: seq<u64>, b: seq<u64>)
    requires |b| <= |a| <= |h| && a == h[|h| - |a|..] && b == a[|a| - |b|..]
    requires Grown(s, t, h, a) && Grown(t, u, a, b)
    ensures Grown(s, u, h, b)
  {
    LeavesTrans(s, t, u);
    SupplyTrans(h, a, b);
  }

  /** When one frame more than the first step may take is at hand, one is left for the second. */
  lemma EnoughLeft(h: Heap, a: Stepped, n: nat)
    requires Drawn(h, a, n) && Enough(h.mem, h.supply, n + 1) && a.heap.mem.Keys == h.mem.Keys
    ensures Enough(a.heap.mem, a.heap.supply, 1)
  {
    assert a.heap.supply[0] == h.supply[|h.supply| - |a.heap.supply|];
  }

  lemma ReturnedTrans(h: Heap, a: Stepped, b: Stepped, n: nat)
    requires Drawn(h, a, n) && Drawn(a.heap, b, 1) && a.heap.mem.Keys == h.mem.Keys
    ensures forall x :: x in b.heap.returned ==> x in h.returned || (x in h.supply && Aligned(x) && x !in h.mem)
  {
    forall x | x in b.heap.returned && x !in h.returned ensures x in h.supply && Aligned(x) && x !in h.mem {
      if x !in a.heap.returned { assert x in a.heap.supply; }
    }
  }

  lemma DrawnTrans(h: Heap, a: Stepped, b: Stepped, n: nat)
    requires Drawn(h, a, n) && a.Moved? && Drawn(a.heap, b, 1) && a.heap.mem.Keys == h.mem.Keys
    ensures Drawn(h, b, n + 1)
  {
    SupplyTrans(h.supply, a.heap.supply, b.heap.supply);
    ReturnedTrans(h, a, b, n);
    if Enough(h.mem, h.supply, n + 1) {
      EnoughLess(h.mem, h.supply, n);
      EnoughLeft(h, a, n);
    }
  }

  lemma EnoughLess(mem: Memory, supply: seq<u64>, n: nat)
    requires Enough(mem, supply, n + 1)
    ensures Enough(mem, supply, n)
  {
  }

  lemma OnlyLinkedTrans(root: u64, h: Heap, a: Stepped, b: Stepped, n: nat)
    requires OnlyLinked(root, h, a, n) && a.Moved? && OnlyLinked(root, a.heap, b, 1)
    ensures OnlyLinked(root, h, b, n + 1)
  {
    DrawnTrans(h, a, b, n);
    GrownTrans(Space(root, h.mem), Space(root, a.heap.mem), Space(root, b.heap.mem),
               h.supply, a.heap.supply, b.heap.supply);
  }

  lemma ReachOnlyLinks(root: u64, h: Heap, v: u64)
    requires Tree(Space(root, h.mem)) && Accessible(h.mem, root)
    requires FreshSupply(Space(root, h.mem), h.supply)
    ensures var r := ReachLastTable(root, h, v);
            && OnlyLinked(root, h, r, 3)
            && (r.Moved? ==> Walk(Space(root, r.heap.mem), PathOf(v)) == Some(r.table))
  {
    var q := PathOf(v);
    PathSteps(q);
    assert Walk(Space(root, h.mem), []) == Some(root);
    GetOrAllocOnlyLinks(root, h, [], root, q[0]);
    var pdpt := GetOrAlloc(h, root, q[0]);
    if pdpt.Moved? {
      GetOrAllocOnlyLinks(root, pdpt.heap, q[..1], pdpt.table, q[1]);
      var pd := GetOrAlloc(pdpt.heap, pdpt.table, q[1]);
      OnlyLinkedTrans(root, h, pdpt, pd, 1);
      if pd.Moved? {
        GetOrAllocOnlyLinks(root, pd.heap, q[..2], pd.table, q[2]);
        OnlyLinkedTrans(root, h, pd, GetOrAlloc(pd.heap, pd.table, q[2]), 2);
      } else {
        MoreNeed(root, h, pd, 2);
      }
    } else {
      MoreNeed(root, h, pdpt, 1);
      MoreNeed(root, h, pdpt, 2);
    }
  }

  lemma PathSteps(q: seq<nat>)
    requires ValidPath(q) && |q| == 3
    ensures [] + [q[0]] == q[..1] && q[..1] + [q[1]] == q[..2] && q[..2] + [q[2]] == q
    ensures ValidPath([]) && ValidPath(q[..1]) && ValidPath(q[..2])
  {
  }

  lemma MoreNeed(root: u64, h: Heap, r: Stepped, n: nat)
    requires OnlyLinked(root, h, r, n)
    ensures OnlyLinked(root, h, r, n + 1)
  {
  }

  /** When query reaches the last-level table, map reaches the same one without allocating. */
  lemma ReachFollowsQuery(root: u64, h: Heap, v: u64)
    requires Accessible(h.mem, root) && LastTable(Space(root, h.mem), v).Hit?
    ensures ReachLastTable(root, h, v) == Moved(LastTable(Space(root, h.mem), v).value, h)
  {
  }

  // ---------- how a map fails ----------

  /** Nothing is given back on success. NO_MEMORY comes from a null callback or a frame that is invalid or
      unaligned; INVALID from an unreachable frame, which alone is given back. */
  ghost predicate Settled(h: Heap, r: Stepped) {
    && |r.heap.supply| <= |h.supply| && r.heap.supply == h.supply[|h.supply| - |r.heap.supply|..]
    && var taken := h.supply[..|h.supply| - |r.heap.supply|];
    && (r.Moved? ==> r.heap.returned == h.returned)
    && (r.Failed? ==> GoodReason(taken, r.heap.supply, r.status, h.mem, h.returned, r.heap.returned))
  }

  predicate GoodReason(taken: seq<u64>, left: seq<u64>, status: Status, mem: Memory,
                       before: seq<u64>, after: seq<u64>) {
    match status
    case NoMem =>
      after == before && (left == [] || (taken != [] && var x := taken[|taken| - 1]; x == INVALID_PHYS || !Aligned(x)))
    case Inval =>
      taken != [] && var x := taken[|taken| - 1];
      after == before + [x] && x != INVALID_PHYS && Aligned(x) && x !in mem
    case _ => false
  }

  lemma GetOrAllocSettles(root: u64, h: Heap, q: seq<nat>, t: u64, i: nat)
    requires Tree(Space(root, h.mem)) && ValidPath(q) && |q| <= 2 && i < ENTRIES
    requires Walk(Space(root, h.mem), q) == Some(t) && Accessible(h.mem, t)
    ensures Settled(h, GetOrAlloc(h, t, i))
  {
    if Present(h.mem[t][i]) {
      TableBelow(Space(root, h.mem), q, t, i);
      Unmoved(h, GetOrAlloc(h, t, i));
    } else {
      AllocSettles(h, t, i);
    }
  }

  lemma Unmoved(h: Heap, r: Stepped)
    requires r.Moved? && r.heap == h
    ensures Settled(h, r)
  {
  }

  lemma AllocSettles(h: Heap, t: u64, i: nat)
    requires Accessible(h.mem, t) && i < ENTRIES && !Present(h.mem[t][i])
    ensures Settled(h, GetOrAlloc(h, t, i))
  {
    if h.supply != [] { assert h.supply[..1] == [h.supply[0]]; }
  }

  lemma SettledTrans(h: Heap, a: Stepped, b: Stepped)
    requires Settled(h, a) && a.Moved? && Settled(a.heap, b) && a.heap.mem.Keys == h.mem.Keys
    ensures Settled(h, b)
  {
    SupplyTrans(h.supply, a.heap.supply, b.heap.supply);
    if b.Failed? { ReasonCarries(h, a, b); }
  }

  lemma ReasonCarries(h: Heap, a: Stepped, b: Stepped)
    requires Settled(h, a) && a.Moved? && Settled(a.heap, b) && a.heap.mem.Keys == h.mem.Keys && b.Failed?
    requires |b.heap.supply| <= |h.supply|
    requires h.supply[..|h.supply| - |b.heap.supply|] ==
             h.supply[..|h.supply| - |a.heap.supply|] + a.heap.supply[..|a.heap.supply| - |b.heap.supply|]
    ensures GoodReason(h.supply[..|h.supply| - |b.heap.supply|], b.heap.supply, b.status, h.mem,
                       h.returned, b.heap.returned)
  {
    var last, all := a.heap.supply[..|a.heap.supply| - |b.heap.supply|], h.supply[..|h.supply| - |b.heap.supply|];
    assert last != [] ==> all[|all| - 1] == last[|last| - 1];
  }

  lemma ReachSettles(root: u64, h: Heap, v: u64)
    requires Tree(Space(root, h.mem)) && Accessible(h.mem, root)
    requires FreshSupply(Space(root, h.mem), h.supply)
    ensures Settled(h, ReachLastTable(root, h, v))
  {
    var q := PathOf(v);
    PathSteps(q);
    assert Walk(Space(root, h.mem), []) == Some(root);
    GetOrAllocOnlyLinks(root, h, [], root, q[0]);
    GetOrAllocSettles(root, h, [], root, q[0]);
    var pdpt := GetOrAlloc(h, root, q[0]);
    if pdpt.Moved? {
      GetOrAllocOnlyLinks(root, pdpt.heap, q[..1], pdpt.table, q[1]);
      GetOrAllocSettles(root, pdpt.heap, q[..1], pdpt.table, q[1]);
      var pd := GetOrAlloc(pdpt.heap, pdpt.table, q[1]);
      SettledTrans(h, pdpt, pd);
      if pd.Moved? {
        GetOrAllocSettles(root, pd.heap, q[..2], pd.table, q[2]);
        SettledTrans(h, pd, GetOrAlloc(pd.heap, pd.table, q[2]));
      }
    }
  }

  // ---------- map and unmap against the flat map ----------

  predicate GoodMapArgs(v: u64, p: u64) {
    Canonical(v) && Aligned(v) && Aligned(p)
  }

  /** `vmm_map_page` takes at most three frames from the supply, in order, and hands back only a
      frame it could not reach. */
  lemma MapTakesInOrder(s: Space, h: Heap, v: u64, p: u64, flags: u64)
    requires Tree(s) && h.mem == s.mem && FreshSupply(s, h.supply)
    ensures var r := Map(s.root, h, v, p, flags).1;
            && |r.supply| <= |h.supply| <= |r.supply| + 3
            && r.supply == h.supply[|h.supply| - |r.supply|..]
            && (forall x :: x in r.returned ==> x in h.returned || (x in h.supply && Aligned(x) && x !in h.mem))
  {
    assert Walk(s, []) == Some(s.root);
    if GoodMapArgs(v, p) {
      assert s == Space(s.root, h.mem);
      ReachOnlyLinks(s.root, h, v);
    }
  }

  /** `vmm_map_page` keeps the tree: tables are only added, each from the frames it took. */
  lemma MapKeepsTree(s: Space, h: Heap, v: u64, p: u64, flags: u64)
    requires Tree(s) && h.mem == s.mem && FreshSupply(s, h.supply)
    ensures var r := Map(s.root, h, v, p, flags).1;
            var t := s.(mem := r.mem);
            && |r.supply| <= |h.supply|
            && Tree(t) && FreshSupply(t, r.supply) && t.mem.Keys == s.mem.Keys
            && (forall x :: IsTable(s, x) ==> IsTable(t, x))
            && (forall x :: IsTable(t, x) ==> IsTable(s, x) || x in h.supply[..|h.supply| - |r.supply|])
  {
    assert Walk(s, []) == Some(s.root);
    if GoodMapArgs(v, p) {
      assert s == Space(s.root, h.mem);
      ReachOnlyLinks(s.root, h, v);
      var pt := ReachLastTable(s.root, h, v);
      var l := Space(s.root, pt.heap.mem);
      if pt.Moved? && !Present(pt.heap.mem[pt.table][IdxPt(v)]) {
        LeafWrite(l, PathOf(v), IdxPt(v), LeafEntry(p, flags));
        assert s.(mem := Map(s.root, h, v, p, flags).1.mem) ==
               l.(mem := WriteEntry(l.mem, pt.table, IdxPt(v), LeafEntry(p, flags)));
      }
    }
  }

  /** `vmm_map_page` fails with EXISTS exactly on a mapped page, succeeds on an unmapped one whenever
      three usable frames are at hand, and changes that one translation exactly when it succeeds;
      any failure changes none, even when it linked tables on the way. */
  lemma MapEffect(s: Space, h: Heap, v: u64, p: u64, flags: u64)
    requires Tree(s) && h.mem == s.mem && FreshSupply(s, h.supply)
    ensures var r := Map(s.root, h, v, p, flags);
            var t := s.(mem := r.1.mem);
            && (r.0 == Exists <==> GoodMapArgs(v, p) && Query(s, v).Hit?)
            && (r.0 == Ok ==> GoodMapArgs(v, p) && Query(s, v) == Miss(NotFound))
            && (r.0 != NotFound && (!GoodMapArgs(v, p) ==> r.0 == Inval))
            && (GoodMapArgs(v, p) && Enough(s.mem, h.supply, 3) ==> r.0 == Ok || r.0 == Exists)
            && (forall w :: Query(t, w) == if r.0 == Ok && w == v
                                           then Hit(Mapping(v, AddrBits(p), LeafFlags(flags)))
                                           else Query(s, w))
  {
    assert Walk(s, []) == Some(s.root);
    if GoodMapArgs(v, p) {
      assert s == Space(s.root, h.mem);
      ReachOnlyLinks(s.root, h, v);
      var pt := ReachLastTable(s.root, h, v);
      var l := Space(s.root, pt.heap.mem);
      if Query(s, v).Hit? { ReachFollowsQuery(s.root, h, v); }
      forall w ensures Query(l, w) == Query(s, w) { SameLeavesSameQuery(s, l, w); }
      QueryIsLeaf(l, v);
      if pt.Moved? && !Present(pt.heap.mem[pt.table][IdxPt(v)]) {
        MapWritesOne(l, v, p, flags);
        assert s.(mem := Map(s.root, h, v, p, flags).1.mem) ==
               l.(mem := WriteEntry(l.mem, pt.table, IdxPt(v), LeafEntry(p, flags)));
      }
    }
  }

  /** With good arguments a map that runs out of tables says why: NO_MEMORY, giving nothing back, when no
      answer was left or the last frame drawn was invalid or unaligned; INVALID, giving exactly the last frame
      drawn back, when that frame cannot be reached. Otherwise nothing is given back. */
  lemma MapFailure(s: Space, h: Heap, v: u64, p: u64, flags: u64)
    requires Tree(s) && h.mem == s.mem && FreshSupply(s, h.supply) && GoodMapArgs(v, p)
    ensures var (status, r) := Map(s.root, h, v, p, flags);
            && |r.supply| <= |h.supply| && status != NotFound
            && (status == Ok || status == Exists ==> r.returned == h.returned)
            && (status == NoMem || status == Inval ==>
                  GoodReason(h.supply[..|h.supply| - |r.supply|], r.supply, status, s.mem, h.returned, r.returned))
  {
    assert Walk(s, []) == Some(s.root);
    assert s == Space(s.root, h.mem);
    ReachSettles(s.root, h, v);
    MapFollowsReach(s.root, h, v, p, flags, ReachLastTable(s.root, h, v));
  }

  lemma MapFollowsReach(root: u64, h: Heap, v: u64, p: u64, flags: u64, pt: Stepped)
    requires GoodMapArgs(v, p) && Accessible(h.mem, root) && pt == ReachLastTable(root, h, v)
    ensures var (status, r) := Map(root, h, v, p, flags);
            && r.supply == pt.heap.supply && r.returned == pt.heap.returned
            && (if pt.Failed? then status == pt.status else status == Ok || status == Exists)
  {
  }

  lemma MapWritesOne(l: Space, v: u64, p: u64, flags: u64)
    requires Tree(l) && GoodMapArgs(v, p) && Walk(l, PathOf(v)).Some?
    ensures var t := l.(mem := WriteEntry(l.mem, Walk(l, PathOf(v)).value, IdxPt(v), LeafEntry(p, flags)));
            && Tree(t)
            && (forall x :: IsTable(t, x) <==> IsTable(l, x))
            && (forall w :: Query(t, w) == if w == v then Hit(Mapping(v, AddrBits(p), LeafFlags(flags)))
                                           else Query(l, w))
  {
    var e := LeafEntry(p, flags);
    var t := l.(mem := WriteEntry(l.mem, Walk(l, PathOf(v)).value, IdxPt(v), e));
    LeafWrite(l, PathOf(v), IdxPt(v), e);
    LeafEntryBits(p, flags);
    forall w ensures Query(t, w) == if w == v then Hit(Mapping(v, AddrBits(p), LeafFlags(flags)))
                                    else Query(l, w)
    {
      if Canonical(w) && Aligned(w) {
        QueryIsLeaf(t, w);
        QueryIsLeaf(l, w);
        if PathOf(w) == PathOf(v) && IdxPt(w) == IdxPt(v) { IndicesDetermineAddress(v, w); }
      }
    }
  }

  /** `vmm_unmap_page` succeeds exactly on mapped pages and removes that one translation. */
  lemma UnmapEffect(s: Space, v: u64)
    requires Tree(s)
    ensures var (status, t) := Unmap(s, v);
            && Tree(t) && t.root == s.root && t.mem.Keys == s.mem.Keys
            && (forall x :: IsTable(t, x) <==> IsTable(s, x))
            && status == (match Query(s, v) case Hit(_) => Ok case Miss(e) => e)
            && (forall w :: Query(t, w) == if status == Ok && w == v then Miss(NotFound) else Query(s, w))
  {
    if Query(s, v).Hit? {
      LastTableIsWalk(s, v);
      var q, d := PathOf(v), IdxPt(v);
      LeafWrite(s, q, d, 0);
      var t := Unmap(s, v).1;
      forall w ensures Query(t, w) == if w == v then Miss(NotFound) else Query(s, w) {
        if Canonical(w) && Aligned(w) {
          QueryIsLeaf(t, w);
          QueryIsLeaf(s, w);
          if PathOf(w) == q && IdxPt(w) == d { IndicesDetermineAddress(v, w); }
        }
      }
    }
  }
}
