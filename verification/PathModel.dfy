/** Path resolution in the RAM file system. A node's position in the table is its id; the live nodes are
    the first `node_count` ones. Paths are C strings: they contain no NUL. */
module PathModel {

  const MAX_NAME := 32
  const MAX_PATH := 128
  const MAX_NODES := 64

  datatype Status = Ok | ENoEnt | EBadf | EAcces | ENotDir | EIsDir | EInval | ENFile | ENoSpc | ENameTooLong

  datatype Result<T> = Good(value: T) | Bad(status: Status)

  datatype Kind = Dir | File

  datatype Vnode = Vnode(parent: nat, kind: Kind, name: string, size: nat, offset: nat, cap: nat)

  // ---------- the code's functions ----------

  predicate Matches(n: Vnode, parent: nat, name: string) {
    n.parent == parent && n.name == name
  }

  function Search(nodes: seq<Vnode>, parent: nat, name: string, from: nat): (i: nat)
    requires from <= |nodes|
    ensures from <= i <= |nodes| && (i < |nodes| ==> Matches(nodes[i], parent, name))
    ensures forall j :: from <= j < i ==> !Matches(nodes[j], parent, name)
    decreases |nodes| - from
  {
    if from == |nodes| || Matches(nodes[from], parent, name) then from
    else Search(nodes, parent, name, from + 1)
  }

  function FindChild(nodes: seq<Vnode>, parent: nat, name: string): (r: Result<nat>)
    ensures r.Good? ==> r.value < |nodes| && Matches(nodes[r.value], parent, name)
    ensures r != Bad(Ok)
  {
    if name == "" || |name| >= MAX_NAME then Bad(EInval)
    else
      var i := Search(nodes, parent, name, 0);
      if i < |nodes| then Good(i) else Bad(ENoEnt)
  }

  /** The first child of that name is found, and ENOENT means there is none; only names of 1 to 31 characters
      are looked for. */
  lemma FindChildIff(nodes: seq<Vnode>, parent: nat, name: string, n: nat)
    ensures FindChild(nodes, parent, name) == Good(n) <==>
            && 0 < |name| < MAX_NAME && n < |nodes| && Matches(nodes[n], parent, name)
            && forall j :: 0 <= j < n ==> !Matches(nodes[j], parent, name)
    ensures FindChild(nodes, parent, name) == Bad(ENoEnt) <==>
            0 < |name| < MAX_NAME && forall j :: 0 <= j < |nodes| ==> !Matches(nodes[j], parent, name)
    ensures FindChild(nodes, parent, name) == Bad(EInval) <==> !(0 < |name| < MAX_NAME)
  {
    var i := Search(nodes, parent, name, 0);
    assert i < |nodes| ==> Matches(nodes[i], parent, name);
  }

  /** End of the segment that starts at `i`: the next slash or the end of the path. */
  function SegEnd(path: string, i: nat): (j: nat)
    requires i <= |path|
    ensures i <= j <= |path| && (j < |path| ==> path[j] == '/')
    ensures forall k :: i <= k < j ==> path[k] != '/'
    decreases |path| - i
  {
    if i == |path| || path[i] == '/' then i else SegEnd(path, i + 1)
  }

  function LookupFrom(nodes: seq<Vnode>, path: string, cur: nat, i: nat): (r: Result<nat>)
    requires i <= |path|
    ensures r.Good? ==> r.value < |nodes|
    ensures r != Bad(Ok)
    decreases |path| - i
  {
    if i == |path| then Bad(EInval)
    else
      var j := SegEnd(path, i);
      if j == i || j - i >= MAX_NAME then Bad(EInval)
      else
        var child := FindChild(nodes, cur, path[i..j]);
        if child.Bad? || j == |path| then child
        else if nodes[child.value].kind != Dir then Bad(ENotDir)
        else LookupFrom(nodes, path, child.value, j + 1)
  }

  /** One round of the lookup. */
  lemma LookupUnfold(nodes: seq<Vnode>, path: string, cur: nat, i: nat)
    requires i < |path|
    ensures var j := SegEnd(path, i);
            LookupFrom(nodes, path, cur, i) ==
            if j == i || j - i >= MAX_NAME then Bad(EInval)
            else match FindChild(nodes, cur, path[i..j])
              case Bad(e) => Bad(e)
              case Good(c) => if j == |path| then Good(c)
                              else if nodes[c].kind != Dir then Bad(ENotDir)
                              else LookupFrom(nodes, path, c, j + 1)
  {
  }

  function Lookup(nodes: seq<Vnode>, path: string): Result<nat> {
    if path == "" || path[0] != '/' then Bad(EInval)
    else if |path| >= MAX_PATH then Bad(ENameTooLong)
    else if |path| == 1 then Good(0)
    else LookupFrom(nodes, path, 0, 1)
  }

  datatype Place = Place(parent: nat, leaf: string)

  function SplitFrom(nodes: seq<Vnode>, path: string, cur: nat, i: nat): (r: Result<Place>)
    requires i <= |path|
    ensures r != Bad(Ok)
    decreases |path| - i
  {
    var j := SegEnd(path, i);
    if j == i || j - i >= MAX_NAME then Bad(EInval)
    else if j == |path| then Good(Place(cur, path[i..j]))
    else
      var child := FindChild(nodes, cur, path[i..j]);
      if child.Bad? then Bad(child.status)
      else if nodes[child.value].kind != Dir then Bad(ENotDir)
      else SplitFrom(nodes, path, child.value, j + 1)
  }

  function Split(nodes: seq<Vnode>, path: string): Result<Place> {
    if path == "" || path[0] != '/' then Bad(EInval)
    else if |path| == 1 then Bad(EInval)
    else if |path| >= MAX_PATH then Bad(ENameTooLong)
    else SplitFrom(nodes, path, 0, 1)
  }

  // ---------- trees ----------

  predicate ValidName(name: string) {
    0 < |name| < MAX_NAME && '/' !in name
  }

  predicate GoodNode(nodes: seq<Vnode>, i: nat)
    requires i < |nodes|
  {
    nodes[i].parent < i && nodes[nodes[i].parent].kind == Dir && ValidName(nodes[i].name)
  }

  predicate SameSpot(nodes: seq<Vnode>, i: nat, j: nat)
    requires i < |nodes| && j < |nodes|
  {
    Matches(nodes[i], nodes[j].parent, nodes[j].name)
  }

  /** A directory root, every other node under an earlier directory, siblings with distinct names. */
  ghost predicate Tree(nodes: seq<Vnode>) {
    && nodes != [] && nodes[0].kind == Dir && nodes[0].parent == 0 && nodes[0].name == "/"
    && (forall i :: 1 <= i < |nodes| ==> GoodNode(nodes, i))
    && (forall i, j :: 1 <= i < |nodes| && 1 <= j < |nodes| && SameSpot(nodes, i, j) ==> i == j)
  }

  /** The names from the root down to node `n`, each with its slash; empty for the root. */
  ghost function Trail(nodes: seq<Vnode>, n: nat): string
    requires Tree(nodes) && n < |nodes|
  {
    if n == 0 then "" else
      assert GoodNode(nodes, n);
      Trail(nodes, nodes[n].parent) + "/" + nodes[n].name
  }

  ghost function PathTo(nodes: seq<Vnode>, n: nat): string
    requires Tree(nodes) && n < |nodes|
  {
    if n == 0 then "/" else Trail(nodes, n)
  }

  // ---------- lookup and split ----------

  lemma {:induction false} LookupFromIsSplit(nodes: seq<Vnode>, path: string, cur: nat, i: nat)
    requires i <= |path|
    ensures LookupFrom(nodes, path, cur, i) == match SplitFrom(nodes, path, cur, i)
                                               case Bad(e) => Bad(e)
                                               case Good(p) => FindChild(nodes, p.parent, p.leaf)
    decreases |path| - i
  {
    var j := SegEnd(path, i);
    if i < j < |path| && j - i < MAX_NAME {
      var child := FindChild(nodes, cur, path[i..j]);
      if child.Good? && nodes[child.value].kind == Dir { LookupFromIsSplit(nodes, path, child.value, j + 1); }
    }
  }

  /** Lookup is the splitter followed by one search, on every path but the root's own: the same node, the
      same error. */
  lemma LookupIsSplitThenFind(nodes: seq<Vnode>, path: string)
    requires path != "/"
    ensures Lookup(nodes, path) == match Split(nodes, path)
                                   case Bad(e) => Bad(e)
                                   case Good(p) => FindChild(nodes, p.parent, p.leaf)
  {
    if |path| >= 2 { LookupFromIsSplit(nodes, path, 0, 1); }
  }

  // ---------- a path resolves to at most one node, and a node from one path ----------

  lemma ChildIsUnique(nodes: seq<Vnode>, m: nat)
    requires Tree(nodes) && 1 <= m < |nodes|
    ensures FindChild(nodes, nodes[m].parent, nodes[m].name) == Good(m)
  {
    assert GoodNode(nodes, m);
    var i := Search(nodes, nodes[m].parent, nodes[m].name, 0);
    assert Matches(nodes[m], nodes[m].parent, nodes[m].name);
    assert i <= m;
    assert nodes[0].name[0] == '/';
    assert SameSpot(nodes, i, m);
  }

  /** The node found for a segment is not the root and extends the trail by that segment. */
  lemma ChildTrail(nodes: seq<Vnode>, cur: nat, seg: string)
    requires Tree(nodes) && cur < |nodes| && '/' !in seg && FindChild(nodes, cur, seg).Good?
    ensures var c := FindChild(nodes, cur, seg).value;
            c >= 1 && Trail(nodes, c) == Trail(nodes, cur) + "/" + seg && ValidName(seg)
  {
    var c := FindChild(nodes, cur, seg).value;
    assert nodes[0].name[0] == '/';
    assert c != 0 && GoodNode(nodes, c);
  }

  lemma Spelled(path: string, i: nat, j: nat, trail: string)
    requires i <= j <= |path| && path[..i] == trail + "/"
    ensures path[..j] == trail + "/" + path[i..j]
    ensures j < |path| && path[j] == '/' ==> path[..j + 1] == trail + "/" + path[i..j] + "/"
    ensures j == |path| ==> path[..j] == path
  {
    assert path[..j] == path[..i] + path[i..j];
  }

  /** The result names a directory and a leaf that spell the path. */
  ghost predicate Spells(nodes: seq<Vnode>, path: string, p: Place)
    requires Tree(nodes)
  {
    && p.parent < |nodes| && nodes[p.parent].kind == Dir && ValidName(p.leaf)
    && path == Trail(nodes, p.parent) + "/" + p.leaf
  }

  /** The path up to `i` is the trail of directory `cur` and a slash. */
  ghost predicate ReadUpTo(nodes: seq<Vnode>, path: string, cur: nat, i: nat)
    requires Tree(nodes)
  {
    cur < |nodes| && nodes[cur].kind == Dir && i <= |path| && path[..i] == Trail(nodes, cur) + "/"
  }

  lemma SegmentHasNoSlash(path: string, i: nat, j: nat)
    requires i <= j <= |path| && SegEnd(path, i) == j
    ensures '/' !in path[i..j]
  {
    forall c | c in path[i..j] ensures c != '/' {
      var k :| 0 <= k < j - i && path[i..j][k] == c;
      assert path[i + k] == c;
    }
  }

  lemma LastSpells(nodes: seq<Vnode>, path: string, cur: nat, i: nat)
    requires Tree(nodes) && ReadUpTo(nodes, path, cur, i) && i < |path|
    requires SegEnd(path, i) == |path| && |path| - i < MAX_NAME
    ensures Spells(nodes, path, Place(cur, path[i..|path|]))
  {
    Spelled(path, i, |path|, Trail(nodes, cur));
    SegmentHasNoSlash(path, i, |path|);
  }

  lemma ChildSpells(nodes: seq<Vnode>, path: string, cur: nat, i: nat, j: nat, c: nat)
    requires Tree(nodes) && ReadUpTo(nodes, path, cur, i) && i < j < |path| && SegEnd(path, i) == j
    requires FindChild(nodes, cur, path[i..j]) == Good(c) && nodes[c].kind == Dir
    ensures ReadUpTo(nodes, path, c, j + 1)
  {
    Spelled(path, i, j, Trail(nodes, cur));
    SegmentHasNoSlash(path, i, j);
    ChildTrail(nodes, cur, path[i..j]);
  }

  /** A walk that has read the trail of `cur` and goes on to succeed spells the path. */
  lemma {:induction false} SplitSpells(nodes: seq<Vnode>, path: string, cur: nat, i: nat, p: Place)
    requires Tree(nodes) && ReadUpTo(nodes, path, cur, i) && SplitFrom(nodes, path, cur, i) == Good(p)
    ensures Spells(nodes, path, p)
    decreases |path| - i
  {
    var j := SegEnd(path, i);
    if j == |path| {
      LastSpells(nodes, path, cur, i);
    } else {
      SplitUnfold(nodes, path, cur, i);
      var c := FindChild(nodes, cur, path[i..j]).value;
      ChildSpells(nodes, path, cur, i, j, c);
      SplitSpells(nodes, path, c, j + 1, p);
    }
  }

  /** A successful split names a directory and a leaf that spell the path. */
  lemma SplitSpellsPath(nodes: seq<Vnode>, path: string)
    requires Tree(nodes) && Split(nodes, path).Good?
    ensures var p := Split(nodes, path).value;
            && p.parent < |nodes| && nodes[p.parent].kind == Dir && ValidName(p.leaf)
            && path == Trail(nodes, p.parent) + "/" + p.leaf && |path| < MAX_PATH
  {
    assert path[..1] == "/" == Trail(nodes, 0) + "/";
    SplitSpells(nodes, path, 0, 1, Split(nodes, path).value);
  }

  /** Whatever a path resolves to is the node it spells. */
  lemma ResolvesOnlyToItself(nodes: seq<Vnode>, path: string)
    requires Tree(nodes) && Lookup(nodes, path).Good?
    ensures var n := Lookup(nodes, path).value;
            n < |nodes| && path == PathTo(nodes, n) && |path| < MAX_PATH
  {
    if path == "/" {
    } else {
      LookupIsSplitThenFind(nodes, path);
      SplitSpellsPath(nodes, path);
      var p := Split(nodes, path).value;
      ChildTrail(nodes, p.parent, p.leaf);
    }
  }

  lemma SegmentEnds(path: string, i: nat, j: nat)
    requires i <= j <= |path| && (j == |path| || path[j] == '/') && forall k :: i <= k < j ==> path[k] != '/'
    ensures SegEnd(path, i) == j
  {
  }

  /** One round of the splitter. */
  lemma SplitUnfold(nodes: seq<Vnode>, path: string, cur: nat, i: nat)
    requires i <= |path|
    ensures var j := SegEnd(path, i);
            SplitFrom(nodes, path, cur, i) ==
            if j == i || j - i >= MAX_NAME then Bad(EInval)
            else if j == |path| then Good(Place(cur, path[i..j]))
            else match FindChild(nodes, cur, path[i..j])
              case Bad(e) => Bad(e)
              case Good(c) => if nodes[c].kind != Dir then Bad(ENotDir) else SplitFrom(nodes, path, c, j + 1)
  {
  }

  /** The path goes on from a directory to its child `q`. */
  ghost predicate StepsTo(nodes: seq<Vnode>, path: string, q: nat, k: nat, i: nat)
    requires Tree(nodes)
  {
    1 <= q < |nodes| && nodes[q].parent < |nodes| && ReadUpTo(nodes, path, nodes[q].parent, k) &&
    ReadUpTo(nodes, path, q, i)
  }

  /** One step of the walk. */
  lemma StepIsRound(nodes: seq<Vnode>, path: string, q: nat, k: nat, i: nat)
    requires Tree(nodes) && StepsTo(nodes, path, q, k, i)
    ensures k <= |path| && i <= |path|
    ensures SplitFrom(nodes, path, nodes[q].parent, k) == SplitFrom(nodes, path, q, i)
  {
    TrailUnfold(nodes, q);
    NameBetween(Trail(nodes, nodes[q].parent), nodes[q].name, path, k, i);
    assert GoodNode(nodes, q);
    forall m | k <= m < i - 1 ensures path[m] != '/' { assert path[m] == nodes[q].name[m - k]; }
    SegmentEnds(path, k, i - 1);
    ChildIsUnique(nodes, q);
    SplitUnfold(nodes, path, nodes[q].parent, k);
  }

  lemma NameBetween(a: string, name: string, path: string, k: nat, i: nat)
    requires k <= |path| && i <= |path| && path[..k] == a + "/" && path[..i] == a + "/" + name + "/"
    ensures k + |name| + 1 == i && path[k..i - 1] == name && path[i - 1] == '/'
  {
    assert |path[..k]| == |a| + 1 && |path[..i]| == |a| + 1 + |name| + 1;
    forall m | 0 <= m < |name| ensures path[k + m] == name[m] {
      assert path[k + m] == path[..i][k + m] == (a + "/" + name + "/")[k + m];
    }
    assert path[i - 1] == path[..i][i - 1];
  }

  lemma ParentRead(nodes: seq<Vnode>, path: string, q: nat, i: nat)
    requires Tree(nodes) && ReadUpTo(nodes, path, q, i) && q > 0
    ensures nodes[q].parent < q && StepsTo(nodes, path, q, |Trail(nodes, nodes[q].parent)| + 1, i)
  {
    TrailUnfold(nodes, q);
    var a := Trail(nodes, nodes[q].parent);
    var k := |a| + 1;
    assert path[..i] == a + "/" + nodes[q].name + "/";
    assert path[..k] == path[..i][..k];
  }

  /** Whatever every step of the walk keeps is the same at the root and at any directory on the path. */
  lemma {:induction false} WalkAlong(nodes: seq<Vnode>, path: string, f: (nat, nat) -> Result<Place>, q: nat, i: nat)
    requires Tree(nodes) && ReadUpTo(nodes, path, q, i)
    requires forall c: nat, k: nat, j: nat :: StepsTo(nodes, path, c, k, j) ==> f(nodes[c].parent, k) == f(c, j)
    ensures f(q, i) == f(0, 1)
    decreases q
  {
    if q == 0 {
      assert |path[..i]| == 1;
    } else {
      ParentRead(nodes, path, q, i);
      WalkAlong(nodes, path, f, nodes[q].parent, |Trail(nodes, nodes[q].parent)| + 1);
    }
  }

  lemma TrailUnfold(nodes: seq<Vnode>, m: nat)
    requires Tree(nodes) && 1 <= m < |nodes|
    ensures var q := nodes[m].parent;
            && q < m && nodes[q].kind == Dir && 0 < |nodes[m].name|
            && Trail(nodes, m) == Trail(nodes, q) + "/" + nodes[m].name
  {
    assert GoodNode(nodes, m);
  }

  lemma SplitLast(nodes: seq<Vnode>, path: string, cur: nat, i: nat)
    requires i < |path| && |path| - i < MAX_NAME && '/' !in path[i..]
    ensures SplitFrom(nodes, path, cur, i) == Good(Place(cur, path[i..]))
  {
    forall k | i <= k < |path| ensures path[k] != '/' { assert path[k] == path[i..][k - i]; }
    SegmentEnds(path, i, |path|);
    assert path[i..|path|] == path[i..];
  }

  /** The splitter gets to every directory whose trail the path begins with, and goes on from there. */
  lemma SplitFromHere(nodes: seq<Vnode>, path: string, d: nat, i: nat)
    requires Tree(nodes) && ReadUpTo(nodes, path, d, i) && 1 < |path| < MAX_PATH
    ensures Split(nodes, path) == SplitFrom(nodes, path, d, i)
  {
    var f := (c: nat, k: nat) => if k <= |path| then SplitFrom(nodes, path, c, k) else Bad(EInval);
    forall c: nat, k: nat, j: nat | StepsTo(nodes, path, c, k, j) ensures f(nodes[c].parent, k) == f(c, j) {
      StepIsRound(nodes, path, c, k, j);
    }
    WalkAlong(nodes, path, f, d, i);
    TrailStarts(nodes, d);
    assert path[0] == path[..i][0];
  }

  lemma SplitReaches(nodes: seq<Vnode>, path: string, d: nat, leaf: string)
    requires Tree(nodes) && d < |nodes| && nodes[d].kind == Dir && ValidName(leaf)
    requires path == Trail(nodes, d) + "/" + leaf && |path| < MAX_PATH
    ensures Split(nodes, path) == Good(Place(d, leaf))
  {
    var i := |Trail(nodes, d)| + 1;
    assert path[..i] == Trail(nodes, d) + "/" && path[i..] == leaf;
    SplitFromHere(nodes, path, d, i);
    SplitLast(nodes, path, d, i);
  }

  /** Exactly: a path splits at a directory and a leaf iff it is the directory's trail and that leaf. */
  lemma SplitIff(nodes: seq<Vnode>, path: string, d: nat, leaf: string)
    requires Tree(nodes)
    ensures Split(nodes, path) == Good(Place(d, leaf)) <==>
            && d < |nodes| && nodes[d].kind == Dir && ValidName(leaf)
            && path == Trail(nodes, d) + "/" + leaf && |path| < MAX_PATH
  {
    if Split(nodes, path) == Good(Place(d, leaf)) {
      SplitSpellsPath(nodes, path);
    } else if d < |nodes| && nodes[d].kind == Dir && ValidName(leaf) {
      if path == Trail(nodes, d) + "/" + leaf && |path| < MAX_PATH { SplitReaches(nodes, path, d, leaf); }
    }
  }

  /** Exactly: a path resolves to a node iff it is the node's own path and is short enough. */
  lemma ResolvesIff(nodes: seq<Vnode>, path: string, n: nat)
    requires Tree(nodes) && n < |nodes|
    ensures Lookup(nodes, path) == Good(n) <==> path == PathTo(nodes, n) && |path| < MAX_PATH
  {
    if Lookup(nodes, path) == Good(n) { ResolvesOnlyToItself(nodes, path); }
    if path == PathTo(nodes, n) && |path| < MAX_PATH && n > 0 {
      assert GoodNode(nodes, n);
      SplitReaches(nodes, path, nodes[n].parent, nodes[n].name);
      TrailStarts(nodes, n);
      LookupIsSplitThenFind(nodes, path);
      ChildIsUnique(nodes, n);
    }
  }

  lemma {:induction false} TrailStarts(nodes: seq<Vnode>, n: nat)
    requires Tree(nodes) && n < |nodes|
    ensures n > 0 ==> |Trail(nodes, n)| > 1 && Trail(nodes, n)[0] == '/'
    decreases n
  {
    if n > 0 {
      assert GoodNode(nodes, n);
      TrailStarts(nodes, nodes[n].parent);
    }
  }

  /** Distinct paths that resolve do so to distinct nodes. */
  lemma DistinctPathsDistinctNodes(nodes: seq<Vnode>, p: string, q: string)
    requires Tree(nodes) && Lookup(nodes, p).Good? && Lookup(nodes, q).Good?
    ensures Lookup(nodes, p) == Lookup(nodes, q) ==> p == q
  {
    ResolvesOnlyToItself(nodes, p);
    ResolvesOnlyToItself(nodes, q);
  }

  // ---------- why a path does not resolve ----------

  /** Directory `d` has a child of that name. */
  ghost predicate HasChild(nodes: seq<Vnode>, d: nat, name: string) {
    exists c :: 0 <= c < |nodes| && Matches(nodes[c], d, name)
  }

  ghost predicate HasFile(nodes: seq<Vnode>, d: nat, name: string) {
    exists c :: 0 <= c < |nodes| && Matches(nodes[c], d, name) && nodes[c].kind == File
  }

  /** The path reads as far as directory `d`, and the segment after it is no name, names nothing in `d`, or
      names a file there though the path goes on. */
  ghost predicate Stops(nodes: seq<Vnode>, path: string, d: nat, i: nat, e: Status)
    requires Tree(nodes)
  {
    && ReadUpTo(nodes, path, d, i)
    && var j := SegEnd(path, i);
    match e
    case EInval => !(0 < j - i < 32)
    case ENoEnt => 0 < j - i < 32 && !HasChild(nodes, d, path[i..j])
    case ENotDir => 0 < j - i < 32 && j < |path| && HasFile(nodes, d, path[i..j])
    case _ => false
  }

  /** The splitter looks for no child of the last segment's name. */
  ghost predicate StopsEarly(nodes: seq<Vnode>, path: string, d: nat, i: nat, e: Status)
    requires Tree(nodes)
  {
    Stops(nodes, path, d, i, e) && (e == EInval || SegEnd(path, i) < |path|)
  }

  /** One search in a directory: the only child of that name, or none. */
  lemma ChildKind(nodes: seq<Vnode>, d: nat, name: string)
    requires Tree(nodes) && 0 < |name| < MAX_NAME && '/' !in name
    ensures match FindChild(nodes, d, name)
            case Bad(e) => e == ENoEnt && !HasChild(nodes, d, name)
            case Good(c) => HasChild(nodes, d, name)
                            && (HasFile(nodes, d, name) <==> nodes[c].kind == File)
  {
    FindChildIff(nodes, d, name, 0);
    if HasFile(nodes, d, name) {
      var c :| 0 <= c < |nodes| && Matches(nodes[c], d, name) && nodes[c].kind == File;
      assert nodes[0].name[0] == '/' && c > 0;
      ChildIsUnique(nodes, c);
    }
    var r := FindChild(nodes, d, name);
    if r.Good? { assert Matches(nodes[r.value], d, name); }
  }

  /** What one round of the splitter refuses. */
  ghost predicate RoundRefuses(nodes: seq<Vnode>, path: string, d: nat, i: nat, e: Status)
    requires i <= |path|
  {
    var j := SegEnd(path, i);
    if !(0 < j - i < 32) then e == EInval
    else j < |path| && match FindChild(nodes, d, path[i..j])
                       case Bad(found) => e == found
                       case Good(c) => e == ENotDir && nodes[c].kind != Dir
  }

  /** What the splitter does at a directory it has reached. */
  lemma RoundStops(nodes: seq<Vnode>, path: string, d: nat, i: nat, e: Status)
    requires Tree(nodes) && ReadUpTo(nodes, path, d, i)
    ensures StopsEarly(nodes, path, d, i, e) <==> RoundRefuses(nodes, path, d, i, e)
  {
    var j := SegEnd(path, i);
    if 0 < j - i < 32 {
      SegmentHasNoSlash(path, i, j);
      ChildKind(nodes, d, path[i..j]);
    }
  }

  predicate SplitFails(nodes: seq<Vnode>, path: string, cur: nat, i: nat, e: Status) {
    i <= |path| && SplitFrom(nodes, path, cur, i) == Bad(e)
  }

  lemma RoundGoesOn(nodes: seq<Vnode>, path: string, cur: nat, i: nat, e: Status) returns (c: nat, j: nat)
    requires SplitFails(nodes, path, cur, i, e) && !RoundRefuses(nodes, path, cur, i, e)
    ensures i < j < |path| && SegEnd(path, i) == j && FindChild(nodes, cur, path[i..j]) == Good(c)
    ensures nodes[c].kind == Dir && SplitFails(nodes, path, c, j + 1, e)
  {
    SplitUnfold(nodes, path, cur, i);
    j := SegEnd(path, i);
    c := FindChild(nodes, cur, path[i..j]).value;
  }

  /** The splitter goes on from a directory it has reached, or stops there. */
  lemma RoundEnds(nodes: seq<Vnode>, path: string, cur: nat, i: nat, e: Status) returns (c: nat, k: nat)
    requires Tree(nodes) && ReadUpTo(nodes, path, cur, i) && SplitFails(nodes, path, cur, i, e)
    requires !StopsEarly(nodes, path, cur, i, e)
    ensures i < k && ReadUpTo(nodes, path, c, k) && SplitFails(nodes, path, c, k, e)
  {
    RoundStops(nodes, path, cur, i, e);
    c, k := RoundGoesOn(nodes, path, cur, i, e);
    ChildSpells(nodes, path, cur, i, k, c);
    k := k + 1;
  }

  lemma {:induction false} SplitStops(nodes: seq<Vnode>, path: string, cur: nat, i: nat, e: Status)
    returns (d: nat, k: nat)
    requires Tree(nodes) && ReadUpTo(nodes, path, cur, i) && SplitFails(nodes, path, cur, i, e)
    ensures StopsEarly(nodes, path, d, k, e)
    decreases |path| - i
  {
    if StopsEarly(nodes, path, cur, i, e) {
      d, k := cur, i;
    } else {
      d, k := RoundEnds(nodes, path, cur, i, e);
      d, k := SplitStops(nodes, path, d, k, e);
    }
  }

  /** Exactly why a split fails: no leading slash, the root alone, too long, or a fault before the leaf. */
  lemma SplitFault(nodes: seq<Vnode>, path: string, e: Status)
    requires Tree(nodes)
    ensures Split(nodes, path) == Bad(e) <==>
            if path == "" || path[0] != '/' || path == "/" then e == EInval
            else if |path| >= 128 then e == ENameTooLong
            else exists d: nat, i: nat :: StopsEarly(nodes, path, d, i, e)
  {
    if 1 < |path| < 128 && path[0] == '/' {
      if Split(nodes, path) == Bad(e) {
        assert path[..1] == "/" == Trail(nodes, 0) + "/";
        var d, i := SplitStops(nodes, path, 0, 1, e);
      }
      forall d: nat, i: nat | StopsEarly(nodes, path, d, i, e) ensures Split(nodes, path) == Bad(e) {
        SplitFromHere(nodes, path, d, i);
        SplitUnfold(nodes, path, d, i);
        RoundStops(nodes, path, d, i, e);
      }
    }
  }

  lemma LastStops(nodes: seq<Vnode>, path: string, d: nat, i: nat, e: Status)
    requires Tree(nodes) && Stops(nodes, path, d, i, e) && e != EInval && SegEnd(path, i) == |path|
    requires 1 < |path| < MAX_PATH
    ensures Lookup(nodes, path) == Bad(e)
  {
    SplitFromHere(nodes, path, d, i);
    SplitUnfold(nodes, path, d, i);
    SegmentHasNoSlash(path, i, |path|);
    ChildKind(nodes, d, path[i..|path|]);
    assert path != "/";
    LookupIsSplitThenFind(nodes, path);
  }

  lemma LastFault(nodes: seq<Vnode>, path: string, p: Place, e: Status) returns (d: nat, i: nat)
    requires Tree(nodes) && Split(nodes, path) == Good(p) && FindChild(nodes, p.parent, p.leaf) == Bad(e)
    ensures Stops(nodes, path, d, i, e)
  {
    SplitSpellsPath(nodes, path);
    d, i := p.parent, |Trail(nodes, p.parent)| + 1;
    assert path[..i] == Trail(nodes, d) + "/" && path[i..|path|] == p.leaf;
    forall k | i <= k < |path| ensures path[k] != '/' { assert path[k] == p.leaf[k - i]; }
    SegmentEnds(path, i, |path|);
    ChildKind(nodes, d, p.leaf);
  }

  /** Exactly why a lookup fails: no leading slash, too long, or a fault at the directory where the path stops
      reading. */
  lemma LookupFault(nodes: seq<Vnode>, path: string, e: Status)
    requires Tree(nodes)
    ensures Lookup(nodes, path) == Bad(e) <==>
            if path == "" || path[0] != '/' then e == EInval
            else if |path| >= 128 then e == ENameTooLong
            else path != "/" && exists d: nat, i: nat :: Stops(nodes, path, d, i, e)
  {
    if 1 < |path| < 128 && path[0] == '/' {
      LookupIsSplitThenFind(nodes, path);
      SplitFault(nodes, path, e);
      if Lookup(nodes, path) == Bad(e) && Split(nodes, path).Good? {
        var d, i := LastFault(nodes, path, Split(nodes, path).value, e);
      }
      forall d: nat, i: nat | Stops(nodes, path, d, i, e) ensures Lookup(nodes, path) == Bad(e) {
        if StopsEarly(nodes, path, d, i, e) { } else { LastStops(nodes, path, d, i, e); }
      }
    }
  }

  // ---------- adding a node ----------

  /** Every node of `nodes` is still there, under the same parent and name. */
  ghost predicate Keeps(nodes: seq<Vnode>, more: seq<Vnode>) {
    |nodes| <= |more| && forall i :: 0 <= i < |nodes| ==>
      more[i].parent == nodes[i].parent && more[i].kind == nodes[i].kind && more[i].name == nodes[i].name
  }

  lemma {:induction false} TrailStays(nodes: seq<Vnode>, more: seq<Vnode>, n: nat)
    requires Tree(nodes) && Tree(more) && Keeps(nodes, more) && n < |nodes|
    ensures Trail(more, n) == Trail(nodes, n)
    decreases n
  {
    if n > 0 {
      assert GoodNode(nodes, n);
      TrailStays(nodes, more, nodes[n].parent);
    }
  }

  /** A path that resolves goes on resolving to the same node. */
  lemma KeepsLookup(nodes: seq<Vnode>, more: seq<Vnode>, path: string)
    requires Tree(nodes) && Tree(more) && Keeps(nodes, more) && Lookup(nodes, path).Good?
    ensures Lookup(more, path) == Lookup(nodes, path)
  {
    ResolvesOnlyToItself(nodes, path);
    var n := Lookup(nodes, path).value;
    TrailStays(nodes, more, n);
    ResolvesIff(more, path, n);
  }

  predicate Addable(nodes: seq<Vnode>, v: Vnode) {
    && v.parent < |nodes| && nodes[v.parent].kind == Dir && ValidName(v.name)
    && FindChild(nodes, v.parent, v.name) == Bad(ENoEnt)
  }

  lemma AddKeepsTree(nodes: seq<Vnode>, v: Vnode)
    requires Tree(nodes) && Addable(nodes, v)
    ensures Tree(nodes + [v])
  {
    var more := nodes + [v];
    forall i | 1 <= i < |more| ensures GoodNode(more, i) {
      if i < |nodes| { assert GoodNode(nodes, i); }
    }
    forall i, j | 1 <= i < |more| && 1 <= j < |more| && SameSpot(more, i, j) ensures i == j {
      if i < |nodes| && j < |nodes| { assert SameSpot(nodes, i, j); }
    }
  }

  /** Adding a node makes exactly one more path resolve, to that node, when the path is short enough;
      every path that resolved before keeps its node. */
  lemma AddResolvesOneMore(nodes: seq<Vnode>, v: Vnode, path: string, n: nat)
    requires Tree(nodes) && Addable(nodes, v)
    ensures var more := nodes + [v];
            Lookup(more, path) == Good(n) <==>
              Lookup(nodes, path) == Good(n) ||
              (n == |nodes| && path == Trail(nodes, v.parent) + "/" + v.name && |path| < MAX_PATH)
  {
    var more := nodes + [v];
    AddKeepsTree(nodes, v);
    if n < |nodes| {
      ResolvesIff(nodes, path, n);
      ResolvesIff(more, path, n);
      TrailStays(nodes, more, n);
    } else {
      if Lookup(nodes, path) == Good(n) { ResolvesOnlyToItself(nodes, path); }
      if Lookup(more, path) == Good(n) { ResolvesOnlyToItself(more, path); }
      if n == |nodes| {
        ResolvesIff(more, path, n);
        TrailStays(nodes, more, v.parent);
      }
    }
  }
}
