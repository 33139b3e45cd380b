/** Doubly linked block headers, written into the arena they describe: how the header writes of split,
    merge and mark act on the block list they represent. Address 0 is the null pointer. */
module HeapLinks {
  import opened Words
  import opened HeapModel

  const MAGIC: u64 := 0x4d43_534f_5348_4541
  const MAX_BLOCKS := 1048576
  const ARENA_LIMIT: int := TWO64 - 96  // keeps every pointer and size sum of the code below 2^64

  datatype Header = Header(magic: u64, size: nat, free: bool, prev: nat, next: nat)

  type Headers = map<nat, Header>

  /** Memory that carries no header never shows the magic number. */
  function Peek(hs: Headers, a: nat): Header {
    if a in hs then hs[a] else Header(0, 0, false, 0, 0)
  }

  /** `kmem_align_up_ptr` with alignment 16: 0 when rounding would overflow. */
  function AlignPtr(v: nat): nat {
    if v > TWO64 - ALIGN then 0 else (v + ALIGN - 1) / ALIGN * ALIGN
  }

  // ---------- doubly linked headers ----------

  /** The header of node `i` of a list at addresses `ads` with contents `bs`. */
  function NodeHeader(ads: seq<nat>, bs: seq<Block>, i: nat): Header
    requires i < |ads| == |bs|
  {
    Header(MAGIC, bs[i].size, bs[i].free,
           if i == 0 then 0 else ads[i - 1], if i + 1 == |ads| then 0 else ads[i + 1])
  }

  predicate Apart(ads: seq<nat>, i: int, j: int) {
    0 <= i < |ads| && 0 <= j < |ads| && i != j ==> ads[i] != ads[j]
  }

  ghost predicate Distinct(ads: seq<nat>) {
    0 !in ads && forall i, j :: Apart(ads, i, j)
  }

  /** Every node has its header with consistent links, and nothing else carries the magic number. */
  ghost predicate Linked(hs: Headers, ads: seq<nat>, bs: seq<Block>) {
    Nodes(hs, ads, bs) && forall a {:trigger a in ads} :: Peek(hs, a).magic == MAGIC ==> a in ads
  }

  ghost predicate Nodes(hs: Headers, ads: seq<nat>, bs: seq<Block>) {
    && |ads| == |bs| && Distinct(ads)
    && (forall i {:trigger NodeHeader(ads, bs, i)} :: 0 <= i < |ads| ==>
          Peek(hs, ads[i]) == NodeHeader(ads, bs, i))
  }

  /** Cutting node `i` at `cut`: a free node for the rest is linked in behind it. */
  function SplitHeaders(hs: Headers, cur: nat, wanted: nat, cut: nat, rest: nat): Headers {
    var b := Peek(hs, cur);
    var created := hs[cut := Header(MAGIC, rest, true, cur, b.next)];
    var linked := if b.next != 0 then created[b.next := Peek(created, b.next).(prev := cut)] else created;
    linked[cur := b.(next := cut, size := wanted)]
  }

  function InsertAfter(ads: seq<nat>, i: nat, cut: nat): (r: seq<nat>)
    requires i < |ads|
    ensures |r| == |ads| + 1 && r[i + 1] == cut
    ensures forall j :: 0 <= j <= i ==> r[j] == ads[j]
    ensures forall j :: i + 1 < j < |r| ==> r[j] == ads[j - 1]
  {
    ads[..i + 1] + [cut] + ads[i + 1..]
  }

  function CutBlock(bs: seq<Block>, i: nat, wanted: nat, rest: nat): (r: seq<Block>)
    requires i < |bs|
    ensures |r| == |bs| + 1 && r[i] == Block(wanted, bs[i].free) && r[i + 1] == Block(rest, true)
    ensures forall j :: 0 <= j < i ==> r[j] == bs[j]
    ensures forall j :: i + 1 < j < |r| ==> r[j] == bs[j - 1]
  {
    bs[..i] + [Block(wanted, bs[i].free), Block(rest, true)] + bs[i + 1..]
  }

  lemma SplitPeek(hs: Headers, cur: nat, wanted: nat, cut: nat, rest: nat, a: nat)
    requires var n := Peek(hs, cur).next; cut != cur && n != cur && n != cut
    ensures var b := Peek(hs, cur);
            Peek(SplitHeaders(hs, cur, wanted, cut, rest), a) ==
            if a == cut then Header(MAGIC, rest, true, cur, b.next)
            else if a == cur then b.(next := cut, size := wanted)
            else if a == b.next && a != 0 then Peek(hs, a).(prev := cut)
            else Peek(hs, a)
  {
  }

  lemma SplitNode(hs: Headers, ads: seq<nat>, bs: seq<Block>, i: nat, wanted: nat, cut: nat, rest: nat, j: nat)
    requires Nodes(hs, ads, bs) && i < |ads| && cut != 0 && cut !in ads && j <= |ads|
    ensures Peek(SplitHeaders(hs, ads[i], wanted, cut, rest), InsertAfter(ads, i, cut)[j]) ==
            NodeHeader(InsertAfter(ads, i, cut), CutBlock(bs, i, wanted, rest), j)
  {
    var ads' := InsertAfter(ads, i, cut);
    assert Peek(hs, ads[i]) == NodeHeader(ads, bs, i);
    assert Apart(ads, i, i + 1);
    SplitPeek(hs, ads[i], wanted, cut, rest, ads'[j]);
    if j < i {
      assert Peek(hs, ads[j]) == NodeHeader(ads, bs, j);
      assert Apart(ads, i, j) && Apart(ads, i + 1, j);
    } else if j > i + 1 {
      assert Peek(hs, ads[j - 1]) == NodeHeader(ads, bs, j - 1);
      assert Apart(ads, i, j - 1) && Apart(ads, i + 1, j - 1);
    }
  }

  lemma SplitLinked(hs: Headers, ads: seq<nat>, bs: seq<Block>, i: nat, wanted: nat, cut: nat, rest: nat)
    requires Linked(hs, ads, bs) && i < |ads| && cut != 0 && cut !in ads
    ensures Linked(SplitHeaders(hs, ads[i], wanted, cut, rest),
                   InsertAfter(ads, i, cut), CutBlock(bs, i, wanted, rest))
  {
    var hs' := SplitHeaders(hs, ads[i], wanted, cut, rest);
    var ads' := InsertAfter(ads, i, cut);
    assert Distinct(ads') by { InsertDistinct(ads, i, cut); }
    assert Nodes(hs', ads', CutBlock(bs, i, wanted, rest)) by {
      forall j | 0 <= j < |ads'|
        ensures Peek(hs', ads'[j]) == NodeHeader(ads', CutBlock(bs, i, wanted, rest), j)
      {
        SplitNode(hs, ads, bs, i, wanted, cut, rest, j);
      }
    }
    forall a | Peek(hs', a).magic == MAGIC ensures a in ads' {
      assert Peek(hs, ads[i]) == NodeHeader(ads, bs, i);
      assert Apart(ads, i, i + 1);
      SplitPeek(hs, ads[i], wanted, cut, rest, a);
      InsertKeeps(ads, i, cut, a);
    }
  }

  lemma InsertDistinct(ads: seq<nat>, i: nat, cut: nat)
    requires Distinct(ads) && i < |ads| && cut != 0 && cut !in ads
    ensures Distinct(InsertAfter(ads, i, cut))
  {
    var ads' := InsertAfter(ads, i, cut);
    forall j, k ensures Apart(ads', j, k) {
      assert Apart(ads, if j <= i then j else j - 1, if k <= i then k else k - 1);
    }
    InsertKeeps(ads, i, cut, 0);
  }

  lemma RemoveDistinct(ads: seq<nat>, i: nat)
    requires Distinct(ads) && i + 1 < |ads|
    ensures Distinct(RemoveAfter(ads, i))
  {
    var ads' := RemoveAfter(ads, i);
    forall j, k ensures Apart(ads', j, k) {
      assert Apart(ads, if j <= i then j else j + 1, if k <= i then k else k + 1);
    }
  }

  lemma InsertKeeps(ads: seq<nat>, i: nat, cut: nat, a: nat)
    requires i < |ads|
    ensures a in InsertAfter(ads, i, cut) <==> a == cut || a in ads
  {
  }

  /** Fusing node `i` with its successor, whose header is wiped. */
  function MergeHeaders(hs: Headers, cur: nat): Headers {
    var b := Peek(hs, cur);
    var n := Peek(hs, b.next);
    var grown := hs[cur := b.(size := b.size + HEADER + n.size, next := n.next)];
    var linked := if n.next != 0 then grown[n.next := Peek(grown, n.next).(prev := cur)] else grown;
    linked[b.next := Header(0, 0, n.free, 0, 0)]
  }

  function RemoveAfter(ads: seq<nat>, i: nat): (r: seq<nat>)
    requires i + 1 < |ads|
    ensures |r| == |ads| - 1
    ensures forall j :: 0 <= j <= i ==> r[j] == ads[j]
    ensures forall j :: i < j < |r| ==> r[j] == ads[j + 1]
  {
    ads[..i + 1] + ads[i + 2..]
  }

  lemma MergePeek(hs: Headers, cur: nat, a: nat)
    requires var n := Peek(hs, cur).next; n != cur && Peek(hs, n).next != cur && Peek(hs, n).next != n
    ensures var b := Peek(hs, cur);
            var n := Peek(hs, b.next);
            Peek(MergeHeaders(hs, cur), a) ==
            if a == b.next then Header(0, 0, n.free, 0, 0)
            else if a == cur then b.(size := b.size + HEADER + n.size, next := n.next)
            else if a == n.next && a != 0 then Peek(hs, a).(prev := cur)
            else Peek(hs, a)
  {
  }

  lemma MergeOneAt(bs: seq<Block>, i: nat, j: nat)
    requires i + 1 < |bs| && j < |MergeOne(bs, i)|
    ensures |MergeOne(bs, i)| == |bs| - 1
    ensures MergeOne(bs, i)[j] == if j < i then bs[j]
                                  else if j == i then Block(bs[i].size + HEADER + bs[i + 1].size, bs[i].free)
                                  else bs[j + 1]
  {
  }

  lemma MergeNodeAt(hs: Headers, ads: seq<nat>, bs: seq<Block>, i: nat)
    requires Nodes(hs, ads, bs) && i + 1 < |ads|
    ensures Peek(MergeHeaders(hs, ads[i]), ads[i]) ==
            NodeHeader(RemoveAfter(ads, i), MergeOne(bs, i), i)
  {
    assert Peek(hs, ads[i]) == NodeHeader(ads, bs, i);
    assert Peek(hs, ads[i + 1]) == NodeHeader(ads, bs, i + 1);
    assert Apart(ads, i, i + 1) && Apart(ads, i, i + 2) && Apart(ads, i + 1, i + 2);
    MergePeek(hs, ads[i], ads[i]);
    MergeOneAt(bs, i, i);
  }

  lemma MergeNodeElse(hs: Headers, ads: seq<nat>, bs: seq<Block>, i: nat, j: nat, k: nat)
    requires Nodes(hs, ads, bs) && i + 1 < |ads| && k < |ads| && k != i && k != i + 1
    requires j == if k < i then k else k - 1
    ensures Peek(MergeHeaders(hs, ads[i]), ads[k]) ==
            NodeHeader(RemoveAfter(ads, i), MergeOne(bs, i), j)
  {
    assert Peek(hs, ads[i]) == NodeHeader(ads, bs, i);
    assert Peek(hs, ads[i + 1]) == NodeHeader(ads, bs, i + 1);
    assert Peek(hs, ads[k]) == NodeHeader(ads, bs, k);
    assert Apart(ads, i, i + 1) && Apart(ads, i, i + 2) && Apart(ads, i + 1, i + 2);
    assert Apart(ads, i, k) && Apart(ads, i + 1, k) && Apart(ads, i + 2, k);
    MergePeek(hs, ads[i], ads[k]);
    MergeOneAt(bs, i, j);
  }

  lemma MergeLinked(hs: Headers, ads: seq<nat>, bs: seq<Block>, i: nat)
    requires Linked(hs, ads, bs) && i + 1 < |ads|
    ensures Linked(MergeHeaders(hs, ads[i]), RemoveAfter(ads, i), MergeOne(bs, i))
  {
    var hs' := MergeHeaders(hs, ads[i]);
    var ads' := RemoveAfter(ads, i);
    assert Distinct(ads') by { RemoveDistinct(ads, i); }
    assert Nodes(hs', ads', MergeOne(bs, i)) by {
      forall j | 0 <= j < |ads'| ensures Peek(hs', ads'[j]) == NodeHeader(ads', MergeOne(bs, i), j) {
        if j == i {
          MergeNodeAt(hs, ads, bs, i);
        } else {
          MergeNodeElse(hs, ads, bs, i, j, if j < i then j else j + 1);
        }
      }
    }
    forall a | Peek(hs', a).magic == MAGIC ensures a in ads' {
      assert Peek(hs, ads[i]) == NodeHeader(ads, bs, i);
      assert Peek(hs, ads[i + 1]) == NodeHeader(ads, bs, i + 1);
      assert Apart(ads, i, i + 1) && Apart(ads, i, i + 2) && Apart(ads, i + 1, i + 2);
      MergePeek(hs, ads[i], a);
      RemoveKeeps(ads, i, a);
    }
  }

  lemma RemoveKeeps(ads: seq<nat>, i: nat, a: nat)
    requires i + 1 < |ads| && a in ads && a != ads[i + 1]
    ensures a in RemoveAfter(ads, i)
  {
    var k :| 0 <= k < |ads| && ads[k] == a;
    assert RemoveAfter(ads, i)[if k <= i then k else k - 1] == a;
  }

  lemma MarkLinked(hs: Headers, ads: seq<nat>, bs: seq<Block>, i: nat, free: bool)
    requires Linked(hs, ads, bs) && i < |ads|
    ensures Linked(hs[ads[i] := Peek(hs, ads[i]).(free := free)], ads, bs[i := bs[i].(free := free)])
  {
    var hs' := hs[ads[i] := Peek(hs, ads[i]).(free := free)];
    var bs' := bs[i := bs[i].(free := free)];
    forall j | 0 <= j < |ads| ensures Peek(hs', ads[j]) == NodeHeader(ads, bs', j) {
      assert Peek(hs, ads[j]) == NodeHeader(ads, bs, j);
      assert Apart(ads, i, j);
    }
    assert Peek(hs, ads[i]) == NodeHeader(ads, bs, i);
  }

  // ---------- the addresses of a block list ----------

  function Addrs(base: nat, bs: seq<Block>): (ads: seq<nat>)
    ensures |ads| == |bs| && forall i :: 0 <= i < |bs| ==> ads[i] == Addr(base, bs, i)
  {
    seq(|bs|, i requires 0 <= i < |bs| => Addr(base, bs, i))
  }

  function SplitAt(bs: seq<Block>, i: nat, wanted: nat): seq<Block>
    requires i < |bs| && wanted + HEADER <= bs[i].size
  {
    CutBlock(bs, i, wanted, bs[i].size - wanted - HEADER)
  }

  lemma {:induction false} SplitOff(bs: seq<Block>, i: nat, wanted: nat, j: nat)
    requires i < |bs| && wanted + HEADER <= bs[i].size && j <= |bs| + 1
    ensures Off(SplitAt(bs, i, wanted), j) ==
            if j <= i then Off(bs, j) else if j == i + 1 then Off(bs, i) + HEADER + wanted else Off(bs, j - 1)
    decreases j
  {
    if j > 0 { SplitOff(bs, i, wanted, j - 1); }
  }

  lemma {:induction false} MergeOff(bs: seq<Block>, i: nat, j: nat)
    requires i + 1 < |bs| && j < |bs|
    ensures |MergeOne(bs, i)| == |bs| - 1
    ensures Off(MergeOne(bs, i), j) == if j <= i then Off(bs, j) else Off(bs, j + 1)
    decreases j
  {
    if j > 0 {
      MergeOff(bs, i, j - 1);
      MergeOneAt(bs, i, j - 1);
    }
  }

  lemma {:induction false} MarkOff(bs: seq<Block>, i: nat, free: bool, j: nat)
    requires i < |bs| && j <= |bs|
    ensures Off(bs[i := bs[i].(free := free)], j) == Off(bs, j)
    decreases j
  {
    if j > 0 { MarkOff(bs, i, free, j - 1); }
  }

  lemma SplitAddrs(base: nat, bs: seq<Block>, i: nat, wanted: nat)
    requires i < |bs| && wanted + HEADER <= bs[i].size
    ensures var cut := Addr(base, bs, i) + HEADER + wanted;
            Addrs(base, SplitAt(bs, i, wanted)) == InsertAfter(Addrs(base, bs), i, cut) &&
            cut !in Addrs(base, bs)
    ensures Extent(SplitAt(bs, i, wanted)) == Extent(bs)
  {
    var t := SplitAt(bs, i, wanted);
    var cut := Addr(base, bs, i) + HEADER + wanted;
    forall j | 0 <= j < |t| ensures Addr(base, t, j) == InsertAfter(Addrs(base, bs), i, cut)[j] {
      SplitOff(bs, i, wanted, j);
    }
    forall j | 0 <= j < |bs| ensures Addr(base, bs, j) != cut {
      if j != i { BlocksDisjoint(base, bs, i, j); }
    }
    SplitOff(bs, i, wanted, |t|);
  }

  lemma MergeAddrs(base: nat, bs: seq<Block>, i: nat)
    requires i + 1 < |bs|
    ensures Addrs(base, MergeOne(bs, i)) == RemoveAfter(Addrs(base, bs), i)
    ensures Extent(MergeOne(bs, i)) == Extent(bs)
  {
    var t := MergeOne(bs, i);
    MergeOff(bs, i, |bs| - 1);
    forall j | 0 <= j < |t| ensures Addr(base, t, j) == RemoveAfter(Addrs(base, bs), i)[j] {
      MergeOff(bs, i, j);
    }
  }

  lemma MarkAddrs(base: nat, bs: seq<Block>, i: nat, free: bool)
    requires i < |bs|
    ensures Addrs(base, bs[i := bs[i].(free := free)]) == Addrs(base, bs)
    ensures Extent(bs[i := bs[i].(free := free)]) == Extent(bs)
  {
    var t := bs[i := bs[i].(free := free)];
    forall j | 0 <= j < |t| ensures Addr(base, t, j) == Addr(base, bs, j) {
      MarkOff(bs, i, free, j);
    }
    MarkOff(bs, i, free, |bs|);
  }

  /** The headers hold exactly the block list `bs`, laid out from `base`. */
  ghost predicate Represents(hs: Headers, base: nat, bs: seq<Block>) {
    Linked(hs, Addrs(base, bs), bs)
  }

  lemma SplitRepresents(hs: Headers, base: nat, bs: seq<Block>, i: nat, wanted: nat)
    requires Represents(hs, base, bs) && base > 0 && i < |bs| && wanted + HEADER <= bs[i].size
    ensures var a := Addr(base, bs, i);
            Represents(SplitHeaders(hs, a, wanted, a + HEADER + wanted, bs[i].size - wanted - HEADER),
                       base, SplitAt(bs, i, wanted))
    ensures Extent(SplitAt(bs, i, wanted)) == Extent(bs)
  {
    var ads, rest := Addrs(base, bs), bs[i].size - wanted - HEADER;
    var cut := ads[i] + HEADER + wanted;
    SplitAddrs(base, bs, i, wanted);
    SplitLinked(hs, ads, bs, i, wanted, cut, rest);
  }

  lemma MergeRepresents(hs: Headers, base: nat, bs: seq<Block>, i: nat)
    requires Represents(hs, base, bs) && i + 1 < |bs|
    ensures Represents(MergeHeaders(hs, Addr(base, bs, i)), base, MergeOne(bs, i))
    ensures Addr(base, MergeOne(bs, i), i) == Addr(base, bs, i)
    ensures Extent(MergeOne(bs, i)) == Extent(bs)
  {
    MergeAddrs(base, bs, i);
    MergeLinked(hs, Addrs(base, bs), bs, i);
    assert Addrs(base, MergeOne(bs, i))[i] == Addrs(base, bs)[i];
  }

  lemma SplitSizes(bs: seq<Block>, i: nat, wanted: nat)
    requires Sizes(bs) && i < |bs| && ALIGN <= wanted && wanted % ALIGN == 0
    requires wanted + HEADER + MIN_SPLIT < bs[i].size
    ensures Sizes(SplitAt(bs, i, wanted))
  {
    var t := SplitAt(bs, i, wanted);
    forall j | 0 <= j < |t| ensures t[j].size >= ALIGN && t[j].size % ALIGN == 0 {
      assert j > i + 1 ==> t[j] == bs[j - 1];
    }
  }

  lemma MergeSizes(bs: seq<Block>, i: nat)
    requires Sizes(bs) && i + 1 < |bs|
    ensures Sizes(MergeOne(bs, i))
  {
    forall j | 0 <= j < |MergeOne(bs, i)|
      ensures MergeOne(bs, i)[j].size >= ALIGN && MergeOne(bs, i)[j].size % ALIGN == 0
    {
      MergeOneAt(bs, i, j);
    }
  }

  lemma MarkRepresents(hs: Headers, base: nat, bs: seq<Block>, i: nat, free: bool)
    requires Represents(hs, base, bs) && i < |bs|
    ensures var a := Addr(base, bs, i);
            var t := bs[i := bs[i].(free := free)];
            Represents(hs[a := Peek(hs, a).(free := free)], base, t) && Extent(t) == Extent(bs)
  {
    MarkAddrs(base, bs, i, free);
    MarkLinked(hs, Addrs(base, bs), bs, i, free);
  }

  /** The header at block `i`, and where the block lies. */
  lemma HeaderAt(hs: Headers, base: nat, bs: seq<Block>, i: nat)
    requires Represents(hs, base, bs) && base > 0 && base % ALIGN == 0 && Sizes(bs) && i < |bs|
    ensures var a := Addr(base, bs, i);
            && Peek(hs, a) == Header(MAGIC, bs[i].size, bs[i].free,
                                     if i == 0 then 0 else Addr(base, bs, i - 1),
                                     if i + 1 == |bs| then 0 else Addr(base, bs, i + 1))
            && a % ALIGN == 0 && a + HEADER + bs[i].size == Addr(base, bs, i + 1) <= base + Extent(bs)
            && Addr(base, bs, i + 1) % ALIGN == 0
  {
    assert Peek(hs, Addrs(base, bs)[i]) == NodeHeader(Addrs(base, bs), bs, i);
    AlignedAddr(base, bs, i);
    AlignedAddr(base, bs, i + 1);
    if i + 1 < |bs| { AddrIncreasing(base, bs, i + 1, |bs|); }
  }
}
