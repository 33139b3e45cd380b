/** The kernel heap as a value: the list of blocks in address order. A block's address is the heap
    base plus the headers and payloads before it, so the list alone fixes every pointer. */
module HeapModel {
  import opened Words

  const HEADER := 48
  const MIN_SPLIT := 32
  const ALIGN := 16

  datatype Block = Block(size: nat, free: bool)

  // ---------- layout ----------

  /** Bytes taken by the first `i` blocks with their headers. */
  function Off(bs: seq<Block>, i: nat): nat
    requires i <= |bs|
    decreases i
  {
    if i == 0 then 0 else Off(bs, i - 1) + HEADER + bs[i - 1].size
  }

  function Extent(bs: seq<Block>): nat {
    Off(bs, |bs|)
  }

  /** Address of the header of block `i`; `i == |bs|` is the end of the heap. */
  function Addr(base: nat, bs: seq<Block>, i: nat): nat
    requires i <= |bs|
  {
    base + Off(bs, i)
  }

  lemma {:induction false} OffConcat(a: seq<Block>, b: seq<Block>, j: nat)
    requires j <= |a| + |b|
    ensures Off(a + b, j) == if j <= |a| then Off(a, j) else Off(a, |a|) + Off(b, j - |a|)
    decreases j
  {
    if j > 0 { OffConcat(a, b, j - 1); }
  }

  lemma OffPrefix(bs: seq<Block>, i: nat)
    requires i <= |bs|
    ensures Extent(bs[..i]) == Off(bs, i)
  {
    assert bs == bs[..i] + bs[i..];
    OffConcat(bs[..i], bs[i..], i);
  }

  lemma ExtentParts(a: seq<Block>, m: seq<Block>, c: seq<Block>)
    ensures Extent(a + m) == Extent(a) + Extent(m)
    ensures Extent(a + m + c) == Extent(a) + Extent(m) + Extent(c)
  {
    OffConcat(a, m, |a| + |m|);
    OffConcat(a + m, c, |a| + |m| + |c|);
  }

  lemma {:induction false} AddrIncreasing(base: nat, bs: seq<Block>, i: nat, j: nat)
    requires i < j <= |bs|
    ensures Addr(base, bs, i) + HEADER + bs[i].size <= Addr(base, bs, j)
    decreases j
  {
    if i < j - 1 { AddrIncreasing(base, bs, i, j - 1); }
  }

  /** Headers and payloads are pairwise disjoint. */
  lemma BlocksDisjoint(base: nat, bs: seq<Block>, i: nat, j: nat)
    requires i < |bs| && j < |bs| && i != j
    ensures Addr(base, bs, i) + HEADER + bs[i].size <= Addr(base, bs, j) ||
            Addr(base, bs, j) + HEADER + bs[j].size <= Addr(base, bs, i)
  {
    if i < j { AddrIncreasing(base, bs, i, j); } else { AddrIncreasing(base, bs, j, i); }
  }

  // ---------- invariant ----------

  predicate NoFreeNeighbours(bs: seq<Block>) {
    forall i :: 0 <= i < |bs| - 1 ==> !(bs[i].free && bs[i + 1].free)
  }

  predicate Sizes(bs: seq<Block>) {
    forall i :: 0 <= i < |bs| ==> bs[i].size >= ALIGN && bs[i].size % ALIGN == 0
  }

  /** The blocks tile `total` bytes, sizes are non-zero multiples of 16, and no two neighbours are
      both free. */
  predicate Inv(bs: seq<Block>, total: nat) {
    bs != [] && Extent(bs) == total && Sizes(bs) && NoFreeNeighbours(bs)
  }

  function Initial(total: nat): seq<Block>
    requires total >= HEADER
  {
    [Block(total - HEADER, true)]
  }

  lemma {:induction false} AlignedAddr(base: nat, bs: seq<Block>, i: nat)
    requires base % ALIGN == 0 && Sizes(bs) && i <= |bs|
    ensures Addr(base, bs, i) % ALIGN == 0
  {
    if i > 0 {
      AlignedAddr(base, bs, i - 1);
      AddAligned(Addr(base, bs, i - 1), bs[i - 1].size);
    }
  }

  /** Each block takes at least 64 bytes. */
  lemma {:induction false} CountBound(bs: seq<Block>, i: nat)
    requires Sizes(bs) && i <= |bs|
    ensures 64 * i <= Off(bs, i)
  {
    if i > 0 { CountBound(bs, i - 1); }
  }

  // ---------- allocation ----------

  /** The request rounded up to 16, or 0 when rounding would overflow. */
  function RoundUp(bytes: u64): u64 {
    if bytes > TWO64 - ALIGN then 0 else (bytes + ALIGN - 1) / ALIGN * ALIGN
  }

  predicate Fits(b: Block, wanted: nat) {
    b.free && b.size >= wanted
  }

  /** Lowest-address block that fits, or `|bs|`. */
  function FirstFit(bs: seq<Block>, wanted: nat, from: nat): (i: nat)
    requires from <= |bs|
    ensures from <= i <= |bs| && (i < |bs| ==> Fits(bs[i], wanted))
    ensures forall j :: from <= j < i ==> !Fits(bs[j], wanted)
    decreases |bs| - from
  {
    if from == |bs| || Fits(bs[from], wanted) then from else FirstFit(bs, wanted, from + 1)
  }

  /** What becomes of the chosen block: it is cut when more than a header and 32 bytes remain. */
  function Cut(size: nat, wanted: nat): seq<Block>
    requires wanted <= size
  {
    if size > wanted + HEADER + MIN_SPLIT
    then [Block(wanted, false), Block(size - wanted - HEADER, true)]
    else [Block(size, false)]
  }

  function Take(bs: seq<Block>, i: nat, wanted: nat): seq<Block>
    requires i < |bs| && wanted <= bs[i].size
  {
    bs[..i] + Cut(bs[i].size, wanted) + bs[i + 1..]
  }

  /** The block `kmem_alloc` chooses; `|bs|` means it returns null. */
  function Chosen(bs: seq<Block>, bytes: u64): (i: nat)
    ensures i <= |bs|
  {
    if RoundUp(bytes) == 0 then |bs| else FirstFit(bs, RoundUp(bytes), 0)
  }

  /** `kmem_alloc` picks the lowest-address fitting block, and returns null exactly on a zero request,
      an overflowing one, or when nothing fits. */
  lemma ChosenIsLowest(bs: seq<Block>, bytes: u64)
    ensures var i, wanted := Chosen(bs, bytes), RoundUp(bytes);
            && (i == |bs| <==> bytes == 0 || bytes > TWO64 - ALIGN ||
                               forall j :: 0 <= j < |bs| ==> !Fits(bs[j], wanted))
            && (i < |bs| ==> bytes <= wanted < bytes + ALIGN && wanted % ALIGN == 0 &&
                             Fits(bs[i], wanted) && forall j :: 0 <= j < i ==> !Fits(bs[j], wanted))
  {
    var wanted := RoundUp(bytes);
    assert bytes <= TWO64 - ALIGN ==> bytes <= wanted < bytes + ALIGN;
  }

  function Alloc(bs: seq<Block>, bytes: u64): seq<Block> {
    var i := Chosen(bs, bytes);
    if i == |bs| then bs else Take(bs, i, RoundUp(bytes))
  }

  // ---------- freeing ----------

  /** `kmem_coalesce_forward` on block `i`. */
  function Merge(bs: seq<Block>, i: nat): seq<Block>
    requires i < |bs|
    decreases |bs|
  {
    if i + 1 < |bs| && bs[i + 1].free
    then Merge(MergeOne(bs, i), i)
    else bs
  }

  function MergeOne(bs: seq<Block>, i: nat): seq<Block>
    requires i + 1 < |bs|
  {
    bs[..i] + [bs[i].(size := bs[i].size + HEADER + bs[i + 1].size)] + bs[i + 2..]
  }

  /** `kmem_free_checked` on used block `i`: mark, merge forward, merge the one before forward. */
  function FreeAt(bs: seq<Block>, i: nat): seq<Block>
    requires i < |bs|
  {
    var merged := Merge(bs[i := bs[i].(free := true)], i);
    if i > 0 && i <= |merged| && merged[i - 1].free then Merge(merged, i - 1) else merged
  }

  // ---------- live pointers ----------

  /** The (payload address, size) pairs of the used blocks among the first `i`. */
  function LiveTo(base: nat, bs: seq<Block>, i: nat): set<(nat, nat)>
    requires i <= |bs|
    decreases i
  {
    if i == 0 then {}
    else LiveTo(base, bs, i - 1) +
         if bs[i - 1].free then {} else {(Addr(base, bs, i - 1) + HEADER, bs[i - 1].size)}
  }

  function Live(base: nat, bs: seq<Block>): set<(nat, nat)> {
    LiveTo(base, bs, |bs|)
  }

  lemma {:induction false} LiveConcat(base: nat, a: seq<Block>, b: seq<Block>, j: nat)
    requires j <= |a| + |b|
    ensures LiveTo(base, a + b, j) ==
            if j <= |a| then LiveTo(base, a, j) else Live(base, a) + LiveTo(base + Extent(a), b, j - |a|)
    decreases j
  {
    if j > 0 {
      LiveConcat(base, a, b, j - 1);
      OffConcat(a, b, j - 1);
    }
  }

  lemma {:induction false} LiveBounds(base: nat, bs: seq<Block>, i: nat)
    requires i <= |bs|
    ensures forall p :: p in LiveTo(base, bs, i) ==> base + HEADER <= p.0 && p.0 + p.1 <= Addr(base, bs, i)
  {
    if i > 0 { LiveBounds(base, bs, i - 1); }
  }

  lemma LiveOne(base: nat, b: Block)
    ensures Live(base, [b]) == if b.free then {} else {(base + HEADER, b.size)}
    ensures Extent([b]) == HEADER + b.size
  {
    assert Off([b], 0) == 0 && LiveTo(base, [b], 0) == {};
  }

  lemma LiveTwo(base: nat, b: Block, c: Block)
    ensures Live(base, [b, c]) == Live(base, [b]) + Live(base + HEADER + b.size, [c])
    ensures Extent([b, c]) == 2 * HEADER + b.size + c.size
  {
    assert [b, c] == [b] + [c];
    LiveOne(base, b);
    LiveOne(base + HEADER + b.size, c);
    LiveConcat(base, [b], [c], 2);
    ExtentParts([b], [c], []);
  }

  /** The live payloads of three adjacent pieces, each seen from its own start. */
  lemma LiveParts(base: nat, a: seq<Block>, m: seq<Block>, c: seq<Block>)
    ensures Live(base, a + m + c) ==
            Live(base, a) + Live(base + Extent(a), m) + Live(base + Extent(a) + Extent(m), c)
  {
    ExtentParts(a, m, c);
    LiveJoin(base, a, m);
    LiveJoin(base, a + m, c);
  }

  lemma LiveJoin(base: nat, a: seq<Block>, b: seq<Block>)
    ensures Live(base, a + b) == Live(base, a) + Live(base + Extent(a), b)
  {
    LiveConcat(base, a, b, |a| + |b|);
    assert b == [] ==> a + b == a;
  }

  /** A payload of the middle piece starts inside no other piece. */
  lemma LiveApart(base: nat, a: seq<Block>, m: seq<Block>, c: seq<Block>, ptr: nat)
    requires base + Extent(a) + HEADER <= ptr <= base + Extent(a) + Extent(m)
    ensures forall q :: q in Live(base, a) || q in Live(base + Extent(a) + Extent(m), c) ==> q.0 != ptr
  {
    LiveBounds(base, a, |a|);
    LiveBounds(base + Extent(a) + Extent(m), c, |c|);
  }

  /** Swapping the middle piece for one of the same extent adds or removes only its own payloads. */
  lemma Replace(base: nat, a: seq<Block>, m: seq<Block>, m': seq<Block>, c: seq<Block>, p: (nat, nat))
    requires Extent(m) == Extent(m') && base + Extent(a) + HEADER <= p.0 <= base + Extent(a) + Extent(m)
    requires Live(base + Extent(a), m) == {} && Live(base + Extent(a), m') == {p}
    ensures Extent(a + m' + c) == Extent(a + m + c)
    ensures Live(base, a + m' + c) == Live(base, a + m + c) + {p}
    ensures Live(base, a + m + c) == Live(base, a + m' + c) - {p}
    ensures forall q :: q in Live(base, a + m + c) ==> q.0 != p.0
  {
    ExtentParts(a, m, c);
    ExtentParts(a, m', c);
    LiveParts(base, a, m, c);
    LiveParts(base, a, m', c);
    LiveApart(base, a, m, c, p.0);
  }

  lemma CutLive(base: nat, size: nat, wanted: nat)
    requires wanted <= size
    ensures Extent(Cut(size, wanted)) == HEADER + size
    ensures Live(base, Cut(size, wanted)) == {(base + HEADER, Cut(size, wanted)[0].size)}
  {
    if size > wanted + HEADER + MIN_SPLIT {
      LiveTwo(base, Block(wanted, false), Block(size - wanted - HEADER, true));
      LiveOne(base, Block(wanted, false));
      LiveOne(base + HEADER + wanted, Block(size - wanted - HEADER, true));
    } else {
      LiveOne(base, Block(size, false));
    }
  }

  /** Taking a free block keeps the invariant, adds exactly its payload to the live ones, and gives
      at least the rounded request. */
  lemma TakeEffect(base: nat, bs: seq<Block>, total: nat, i: nat, wanted: nat)
    requires Inv(bs, total) && i < |bs| && Fits(bs[i], wanted) && wanted >= ALIGN && wanted % ALIGN == 0
    ensures var t := Take(bs, i, wanted);
            var p := (Addr(base, bs, i) + HEADER, t[i].size);
            && Inv(t, total)
            && p !in Live(base, bs) && Live(base, t) == Live(base, bs) + {p}
            && (forall q :: q in Live(base, bs) ==> q.0 != p.0)
            && wanted <= p.1 && Addr(base, t, i) == Addr(base, bs, i)
  {
    var a, m, c := bs[..i], [bs[i]], bs[i + 1..];
    var m' := Cut(bs[i].size, wanted);
    assert bs == a + m + c;
    var t := Take(bs, i, wanted);
    assert t[..i] == a;
    OffPrefix(bs, i);
    OffPrefix(t, i);
    CutLive(base + Extent(a), bs[i].size, wanted);
    LiveOne(base + Extent(a), bs[i]);
    Replace(base, a, m, m', c, (base + Extent(a) + HEADER, m'[0].size));
    TakeShape(bs, i, wanted);
  }

  lemma CutSizes(size: nat, wanted: nat)
    requires size % ALIGN == 0 && ALIGN <= wanted <= size && wanted % ALIGN == 0
    ensures Sizes(Cut(size, wanted)) && !Cut(size, wanted)[0].free
  {
  }

  /** Where each block of the result comes from. */
  lemma TakeAt(bs: seq<Block>, i: nat, wanted: nat, j: nat)
    requires i < |bs| && wanted <= bs[i].size && j < |Take(bs, i, wanted)|
    ensures var t, cut := Take(bs, i, wanted), Cut(bs[i].size, wanted);
            t[j] == if j < i then bs[j] else if j < i + |cut| then cut[j - i] else bs[j - |cut| + 1]
  {
  }

  lemma TakeShape(bs: seq<Block>, i: nat, wanted: nat)
    requires Sizes(bs) && NoFreeNeighbours(bs)
    requires i < |bs| && Fits(bs[i], wanted) && wanted >= ALIGN && wanted % ALIGN == 0
    ensures Sizes(Take(bs, i, wanted)) && NoFreeNeighbours(Take(bs, i, wanted))
  {
    var t := Take(bs, i, wanted);
    CutSizes(bs[i].size, wanted);
    forall j | 0 <= j < |t| ensures t[j].size >= ALIGN && t[j].size % ALIGN == 0 { TakeAt(bs, i, wanted, j); }
    if i > 0 { assert bs[i - 1 + 1].free && !bs[i - 1].free; }
    forall j | 0 <= j < |t| - 1 ensures !(t[j].free && t[j + 1].free) {
      TakeAt(bs, i, wanted, j);
      TakeAt(bs, i, wanted, j + 1);
    }
  }

  // ---------- freeing: closed form and effect ----------

  function Tail(bs: seq<Block>, i: nat): nat
    requires i < |bs|
  {
    if i + 1 < |bs| && bs[i + 1].free then i + 2 else i + 1
  }

  function Front(bs: seq<Block>, i: nat): nat
    requires i < |bs|
  {
    if i > 0 && bs[i - 1].free then i - 1 else i
  }

  lemma MergeClosed(bs: seq<Block>, i: nat)
    requires i < |bs| && bs[i].free && (i + 2 < |bs| && bs[i + 1].free ==> !bs[i + 2].free)
    ensures Merge(bs, i) == bs[..i] + [Block(Extent(bs[i..Tail(bs, i)]) - HEADER, true)] + bs[Tail(bs, i)..]
  {
    LiveOne(0, bs[i]);
    if Tail(bs, i) == i + 2 {
      assert bs[i..i + 2] == [bs[i], bs[i + 1]];
      LiveTwo(0, bs[i], bs[i + 1]);
      var one := MergeOne(bs, i);
      assert i + 1 < |one| ==> one[i + 1] == bs[i + 2];
    } else {
      assert bs[i..i + 1] == [bs[i]];
      assert bs == bs[..i] + [bs[i]] + bs[i + 1..];
    }
  }

  /** Marking block `i` free and merging forward fuses it with a free block behind it. */
  lemma MarkMergeClosed(bs: seq<Block>, i: nat)
    requires NoFreeNeighbours(bs) && i < |bs| && !bs[i].free
    ensures var hi := Tail(bs, i);
            Merge(bs[i := bs[i].(free := true)], i) == bs[..i] + [Block(Extent(bs[i..hi]) - HEADER, true)] + bs[hi..]
  {
    var hi := Tail(bs, i);
    var marked := bs[i := bs[i].(free := true)];
    MergeClosed(marked, i);
    MarkedExtent(bs, i, hi);
    assert marked[..i] == bs[..i] && marked[hi..] == bs[hi..];
  }

  /** The block before is used: freeing fuses forward only. */
  lemma FreeAtForward(bs: seq<Block>, i: nat)
    requires NoFreeNeighbours(bs) && i < |bs| && !bs[i].free && (i > 0 ==> !bs[i - 1].free)
    ensures var hi := Tail(bs, i);
            FreeAt(bs, i) == bs[..i] + [Block(Extent(bs[i..hi]) - HEADER, true)] + bs[hi..]
  {
    var hi := Tail(bs, i);
    var merged := bs[..i] + [Block(Extent(bs[i..hi]) - HEADER, true)] + bs[hi..];
    MarkMergeClosed(bs, i);
    assert i > 0 ==> merged[i - 1] == bs[i - 1];
    FreeAtFrom(bs, i, merged);
  }

  lemma FusedForward(bs: seq<Block>, i: nat, hi: nat, merged: seq<Block>)
    requires NoFreeNeighbours(bs) && 0 < i < |bs| && !bs[i].free && hi == Tail(bs, i)
    requires Extent(bs[i..hi]) >= HEADER && merged == bs[..i] + [Block(Extent(bs[i..hi]) - HEADER, true)] + bs[hi..]
    ensures Merge(bs[i := bs[i].(free := true)], i) == merged && i <= |merged| && merged[i - 1] == bs[i - 1]
  {
    MarkMergeClosed(bs, i);
  }

  /** The block before is free: it takes in what was fused. */
  lemma FreeAtBackward(bs: seq<Block>, i: nat)
    requires NoFreeNeighbours(bs) && 0 < i < |bs| && !bs[i].free && bs[i - 1].free
    ensures var hi := Tail(bs, i);
            FreeAt(bs, i) == bs[..i - 1] + [Block(Extent(bs[i - 1..hi]) - HEADER, true)] + bs[hi..]
  {
    var hi := Tail(bs, i);
    MarkedExtent(bs, i, hi);
    var merged := bs[..i] + [Block(Extent(bs[i..hi]) - HEADER, true)] + bs[hi..];
    FusedForward(bs, i, hi, merged);
    FreeAtFrom(bs, i, merged);
    MergeBackClosed(bs, i, hi);
  }

  /** With no free neighbours elsewhere, freeing block `i` fuses it with whichever neighbours are free. */
  lemma FreeAtClosed(bs: seq<Block>, i: nat)
    requires NoFreeNeighbours(bs) && i < |bs| && !bs[i].free
    ensures var lo, hi := Front(bs, i), Tail(bs, i);
            FreeAt(bs, i) == bs[..lo] + [Block(Extent(bs[lo..hi]) - HEADER, true)] + bs[hi..]
  {
    if Front(bs, i) < i { FreeAtBackward(bs, i); } else { FreeAtForward(bs, i); }
  }

  lemma FreeAtFrom(bs: seq<Block>, i: nat, merged: seq<Block>)
    requires i < |bs| && Merge(bs[i := bs[i].(free := true)], i) == merged
    requires i <= |merged| && (i > 0 ==> merged[i - 1] == bs[i - 1])
    ensures FreeAt(bs, i) == if i > 0 && bs[i - 1].free then Merge(merged, i - 1) else merged
  {
  }

  lemma FirstApart(bs: seq<Block>, lo: nat, hi: nat)
    requires lo < hi <= |bs|
    ensures Extent(bs[lo..hi]) == HEADER + bs[lo].size + Extent(bs[lo + 1..hi])
  {
    assert bs[lo..hi] == [bs[lo]] + bs[lo + 1..hi];
    ExtentParts([bs[lo]], bs[lo + 1..hi], []);
    LiveOne(0, bs[lo]);
  }

  /** Two free blocks before one that is not, or before the end, become one. */
  lemma MergePair(bs: seq<Block>, i: nat)
    requires i + 1 < |bs| && bs[i].free && bs[i + 1].free && (i + 2 < |bs| ==> !bs[i + 2].free)
    ensures Merge(bs, i) == bs[..i] + [Block(bs[i].size + HEADER + bs[i + 1].size, true)] + bs[i + 2..]
  {
    MergeClosed(bs, i);
    assert bs[i..i + 2] == [bs[i], bs[i + 1]];
    LiveTwo(0, bs[i], bs[i + 1]);
  }

  lemma MergeBackClosed(bs: seq<Block>, i: nat, hi: nat)
    requires 0 < i < hi <= |bs| && bs[i - 1].free && (hi < |bs| ==> !bs[hi].free)
    ensures Merge(bs[..i] + [Block(Extent(bs[i..hi]) - HEADER, true)] + bs[hi..], i - 1) ==
            bs[..i - 1] + [Block(Extent(bs[i - 1..hi]) - HEADER, true)] + bs[hi..]
  {
    FirstApart(bs, i, hi);
    FirstApart(bs, i - 1, hi);
    var merged := bs[..i] + [Block(Extent(bs[i..hi]) - HEADER, true)] + bs[hi..];
    MergePair(merged, i - 1);
    assert merged[..i - 1] == bs[..i - 1] && merged[i + 1..] == bs[hi..];
  }

  lemma MarkedExtent(bs: seq<Block>, i: nat, hi: nat)
    requires i < |bs| && i + 1 <= hi <= i + 2 && hi <= |bs|
    ensures Extent(bs[i := bs[i].(free := true)][i..hi]) == Extent(bs[i..hi]) >= HEADER
  {
    var m := bs[i := bs[i].(free := true)];
    if hi == i + 1 {
      assert m[i..hi] == [m[i]] && bs[i..hi] == [bs[i]];
      LiveOne(0, m[i]);
      LiveOne(0, bs[i]);
    } else {
      assert m[i..hi] == [m[i], bs[i + 1]] && bs[i..hi] == [bs[i], bs[i + 1]];
      LiveTwo(0, m[i], bs[i + 1]);
      LiveTwo(0, bs[i], bs[i + 1]);
    }
  }

  /** Freeing keeps the invariant and removes exactly that payload from the live ones. */
  lemma FreeEffect(base: nat, bs: seq<Block>, total: nat, i: nat)
    requires Inv(bs, total) && i < |bs| && !bs[i].free
    ensures var p := (Addr(base, bs, i) + HEADER, bs[i].size);
            && Inv(FreeAt(bs, i), total)
            && p in Live(base, bs) && Live(base, FreeAt(bs, i)) == Live(base, bs) - {p}
            && |FreeAt(bs, i)| <= |bs|
  {
    FreeAtClosed(bs, i);
    FreeShape(bs, i);
    FuseEffect(base, bs, Front(bs, i), i, Tail(bs, i));
  }

  /** Block `i` is the only used one of blocks `lo` to `hi`. */
  predicate OnlyUsed(bs: seq<Block>, lo: nat, i: nat, hi: nat) {
    lo <= i < hi <= |bs| && !bs[i].free && forall j :: lo <= j < hi && j != i ==> bs[j].free
  }

  lemma FuseEffect(base: nat, bs: seq<Block>, lo: nat, i: nat, hi: nat)
    requires OnlyUsed(bs, lo, i, hi)
    ensures Extent(bs[lo..hi]) >= HEADER
    ensures var p := (Addr(base, bs, i) + HEADER, bs[i].size);
            var t := bs[..lo] + [Block(Extent(bs[lo..hi]) - HEADER, true)] + bs[hi..];
            Extent(t) == Extent(bs) && p in Live(base, bs) && Live(base, t) == Live(base, bs) - {p}
  {
    MiddleLive(base, bs, lo, i, hi);
    OffPrefix(bs, lo);
    assert bs == bs[..lo] + bs[lo..hi] + bs[hi..];
    FuseParts(base, bs[..lo], bs[lo..hi], bs[hi..], (Addr(base, bs, i) + HEADER, bs[i].size));
  }

  lemma {:induction false} FreeHasNoLive(base: nat, bs: seq<Block>, i: nat)
    requires i <= |bs| && forall j :: 0 <= j < i ==> bs[j].free
    ensures LiveTo(base, bs, i) == {}
  {
    if i > 0 { FreeHasNoLive(base, bs, i - 1); }
  }

  lemma FuseParts(base: nat, a: seq<Block>, m: seq<Block>, c: seq<Block>, p: (nat, nat))
    requires Extent(m) >= HEADER && Live(base + Extent(a), m) == {p}
    requires base + Extent(a) + HEADER <= p.0 <= base + Extent(a) + Extent(m)
    ensures var t := a + [Block(Extent(m) - HEADER, true)] + c;
            Extent(t) == Extent(a + m + c) && p in Live(base, a + m + c) &&
            Live(base, t) == Live(base, a + m + c) - {p}
  {
    var fused := Block(Extent(m) - HEADER, true);
    LiveOne(base + Extent(a), fused);
    Replace(base, a, [fused], m, c, p);
  }

  lemma MiddleLive(base: nat, bs: seq<Block>, lo: nat, i: nat, hi: nat)
    requires OnlyUsed(bs, lo, i, hi)
    ensures var start := base + Extent(bs[..lo]);
            && Extent(bs[lo..hi]) >= HEADER + bs[i].size
            && start + HEADER <= Addr(base, bs, i) + HEADER <= start + Extent(bs[lo..hi])
            && Live(start, bs[lo..hi]) == {(Addr(base, bs, i) + HEADER, bs[i].size)}
  {
    var before, mid, after := bs[lo..i], [bs[i]], bs[i + 1..hi];
    var start := base + Extent(bs[..lo]);
    assert bs[lo..hi] == before + mid + after;
    assert bs[..i] == bs[..lo] + before;
    OffPrefix(bs, i);
    ExtentParts(bs[..lo], before, []);
    ExtentParts(before, mid, after);
    LiveParts(start, before, mid, after);
    LiveOne(start + Extent(before), bs[i]);
    FreeHasNoLive(start, before, |before|);
    FreeHasNoLive(start + Extent(before) + Extent(mid), after, |after|);
  }

  /** The fused block is a whole block. */
  lemma FusedSize(bs: seq<Block>, lo: nat, i: nat, hi: nat)
    requires Sizes(bs) && OnlyUsed(bs, lo, i, hi)
    ensures Extent(bs[lo..hi]) >= HEADER + ALIGN && (Extent(bs[lo..hi]) - HEADER) % ALIGN == 0
  {
    ExtentAligned(bs[lo..hi], hi - lo);
    MiddleLive(0, bs, lo, i, hi);
  }

  lemma FreeShape(bs: seq<Block>, i: nat)
    requires Sizes(bs) && NoFreeNeighbours(bs) && i < |bs| && !bs[i].free
    ensures Sizes(FreeAt(bs, i)) && NoFreeNeighbours(FreeAt(bs, i)) && FreeAt(bs, i) != []
    ensures |FreeAt(bs, i)| <= |bs|
  {
    var lo, hi := Front(bs, i), Tail(bs, i);
    UsedAround(bs, i);
    FusedSize(bs, lo, i, hi);
    var b := Block(Extent(bs[lo..hi]) - HEADER, true);
    Joined(bs, lo, hi, b);
    FreeAtClosed(bs, i);
    assert FreeAt(bs, i) == bs[..lo] + [b] + bs[hi..];
  }

  /** What is fused around a used block lies between used blocks. */
  lemma UsedAround(bs: seq<Block>, i: nat)
    requires NoFreeNeighbours(bs) && i < |bs| && !bs[i].free
    ensures var lo, hi := Front(bs, i), Tail(bs, i);
            OnlyUsed(bs, lo, i, hi) && (lo > 0 ==> !bs[lo - 1].free) && (hi < |bs| ==> !bs[hi].free)
  {
  }

  /** A free block put between pieces that do not touch it with free ones has no free neighbour. */
  lemma Joined(bs: seq<Block>, lo: nat, hi: nat, b: Block)
    requires Sizes(bs) && NoFreeNeighbours(bs) && lo <= hi <= |bs| && Sizes([b])
    requires lo > 0 ==> !bs[lo - 1].free
    requires hi < |bs| ==> !bs[hi].free
    ensures Sizes(bs[..lo] + [b] + bs[hi..]) && NoFreeNeighbours(bs[..lo] + [b] + bs[hi..])
  {
    var t := bs[..lo] + [b] + bs[hi..];
    assert t[lo] == b == [b][0];
    forall j | lo < j < |t| ensures t[j] == bs[j - lo - 1 + hi] { }
    forall j | 0 <= j < lo ensures t[j] == bs[j] { }
  }

  lemma {:induction false} ExtentAligned(bs: seq<Block>, i: nat)
    requires Sizes(bs) && i <= |bs|
    ensures Off(bs, i) % ALIGN == 0
  {
    if i > 0 {
      ExtentAligned(bs, i - 1);
      AddAligned(Off(bs, i - 1), bs[i - 1].size);
    }
  }

  lemma AddAligned(x: int, y: int)
    requires x % ALIGN == 0 && y % ALIGN == 0
    ensures (x + HEADER + y) % ALIGN == 0
  {
  }

  /** A successful allocation yields a live payload at the chosen block, as large as asked for. */
  lemma AllocGives(base: nat, bs: seq<Block>, total: nat, bytes: u64)
    requires Inv(bs, total) && Chosen(bs, bytes) < |bs|
    ensures exists p :: p in Live(base, Alloc(bs, bytes)) && bytes <= p.1 &&
              p.0 == Addr(base, bs, Chosen(bs, bytes)) + HEADER
  {
    var i, wanted := Chosen(bs, bytes), RoundUp(bytes);
    ChosenIsLowest(bs, bytes);
    TakeEffect(base, bs, total, i, wanted);
    var p := (Addr(base, bs, i) + HEADER, Take(bs, i, wanted)[i].size);
    assert p in Live(base, Alloc(bs, bytes));
  }

  /** A successful allocation makes exactly one more payload live, at the chosen block: the request rounded up
      to 16 when more than 80 bytes would remain, and else the whole block. */
  lemma AllocExact(base: nat, bs: seq<Block>, total: nat, bytes: u64)
    requires Inv(bs, total) && Chosen(bs, bytes) < |bs|
    ensures var i, wanted := Chosen(bs, bytes), (bytes + 15) / 16 * 16;
            var p := (Addr(base, bs, i) + 48, if bs[i].size > wanted + 80 then wanted else bs[i].size);
            p !in Live(base, bs) && Live(base, Alloc(bs, bytes)) == Live(base, bs) + {p}
  {
    var i, wanted := Chosen(bs, bytes), RoundUp(bytes);
    ChosenIsLowest(bs, bytes);
    TakeEffect(base, bs, total, i, wanted);
  }

  // ---------- the main laws ----------

  /** Where the pieces of the cut block are, and that nothing beside them would fuse with them. */
  lemma TakePieces(bs: seq<Block>, i: nat, wanted: nat)
    requires NoFreeNeighbours(bs) && i < |bs| && Fits(bs[i], wanted)
    ensures var t, cut := Take(bs, i, wanted), Cut(bs[i].size, wanted);
            && i + |cut| <= |t| && !t[i].free && Front(t, i) == i && Tail(t, i) == i + |cut|
            && t[..i] == bs[..i] && t[i..i + |cut|] == cut && t[i + |cut|..] == bs[i + 1..]
  {
    var t, cut := Take(bs, i, wanted), Cut(bs[i].size, wanted);
    assert t[i] == cut[0];
    if i > 0 { assert t[i - 1] == bs[i - 1]; }
    if |cut| == 2 {
      assert t[i + 1] == cut[1];
    } else if i + 1 < |bs| {
      assert t[i + 1] == bs[i + 1];
    }
  }

  lemma TakeThenFree(bs: seq<Block>, i: nat, wanted: nat)
    requires Sizes(bs) && NoFreeNeighbours(bs) && i < |bs| && Fits(bs[i], wanted)
    requires wanted >= ALIGN && wanted % ALIGN == 0
    ensures FreeAt(Take(bs, i, wanted), i) == bs
  {
    var t, cut := Take(bs, i, wanted), Cut(bs[i].size, wanted);
    TakeShape(bs, i, wanted);
    TakePieces(bs, i, wanted);
    FreeAtClosed(t, i);
    CutLive(0, bs[i].size, wanted);
    assert FreeAt(t, i) == bs[..i] + [Block(bs[i].size, true)] + bs[i + 1..];
    PutBack(bs, i);
  }

  /** A successful allocation undone at once restores the exact earlier block list. */
  lemma AllocThenFree(bs: seq<Block>, total: nat, bytes: u64)
    requires Inv(bs, total) && Chosen(bs, bytes) < |bs|
    ensures FreeAt(Alloc(bs, bytes), Chosen(bs, bytes)) == bs
  {
    ChosenIsLowest(bs, bytes);
    TakeThenFree(bs, Chosen(bs, bytes), RoundUp(bytes));
  }

  lemma PutBack(bs: seq<Block>, i: nat)
    requires i < |bs| && bs[i].free
    ensures bs[..i] + [Block(bs[i].size, true)] + bs[i + 1..] == bs
  {
  }

  lemma {:induction false} AllFreeIsInitial(base: nat, bs: seq<Block>, total: nat)
    requires Inv(bs, total) && Live(base, bs) == {}
    ensures bs == Initial(total)
  {
    AllFree(base, bs, |bs|);
    OneOfTwoUsed(bs);
    assert bs == [bs[0]];
    LiveOne(0, bs[0]);
  }

  lemma OneOfTwoUsed(bs: seq<Block>)
    requires NoFreeNeighbours(bs)
    ensures |bs| > 1 ==> exists i :: 0 <= i < |bs| && !bs[i].free
  {
    if |bs| > 1 { assert !bs[0].free || !bs[0 + 1].free; }
  }

  lemma {:induction false} AllFree(base: nat, bs: seq<Block>, i: nat)
    requires i <= |bs| && LiveTo(base, bs, i) == {}
    ensures forall j :: 0 <= j < i ==> bs[j].free
  {
    if i > 0 {
      AllFree(base, bs, i - 1);
      var p: (nat, nat) := (Addr(base, bs, i - 1) + HEADER, bs[i - 1].size);
      var live := LiveTo(base, bs, i);
      assert bs[i - 1].free || p in live;
    }
  }

  /** The block whose payload is at `ptr`, or `|bs|`. */
  function Locate(base: nat, bs: seq<Block>, ptr: nat, from: nat := 0): (i: nat)
    requires from <= |bs|
    ensures from <= i <= |bs| && (i < |bs| ==> Addr(base, bs, i) + HEADER == ptr)
    ensures forall j :: from <= j < i ==> Addr(base, bs, j) + HEADER != ptr
    decreases |bs| - from
  {
    if from == |bs| || Addr(base, bs, from) + HEADER == ptr then from
    else Locate(base, bs, ptr, from + 1)
  }

  /** Freeing by pointer; pointers that are not live are refused and change nothing. */
  function FreePtr(base: nat, bs: seq<Block>, ptr: nat): seq<Block> {
    var i := Locate(base, bs, ptr);
    if i < |bs| && !bs[i].free then FreeAt(bs, i) else bs
  }

  lemma {:induction false} LiveAtIndex(base: nat, bs: seq<Block>, p: (nat, nat), i: nat) returns (j: nat)
    requires i <= |bs| && p in LiveTo(base, bs, i)
    ensures j < i && !bs[j].free && p == (Addr(base, bs, j) + HEADER, bs[j].size)
  {
    if p in LiveTo(base, bs, i - 1) {
      j := LiveAtIndex(base, bs, p, i - 1);
    } else {
      j := i - 1;
    }
  }

  /** Live payloads are 16-aligned, lie inside the heap, and are disjoint from each other and from every
      header. */
  lemma LivePayloads(base: nat, bs: seq<Block>, total: nat, p: (nat, nat), q: (nat, nat), k: nat)
    requires base % ALIGN == 0 && Inv(bs, total) && p in Live(base, bs) && q in Live(base, bs) && k < |bs|
    ensures p.0 % ALIGN == 0 && base + HEADER <= p.0 && p.0 + p.1 <= base + total
    ensures p != q ==> p.0 + p.1 <= q.0 || q.0 + q.1 <= p.0
    ensures Addr(base, bs, k) + HEADER <= p.0 || p.0 + p.1 <= Addr(base, bs, k)
  {
    var i := LiveAtIndex(base, bs, p, |bs|);
    var j := LiveAtIndex(base, bs, q, |bs|);
    AlignedAddr(base, bs, i);
    AddrIncreasing(base, bs, i, |bs|);
    if i != j { BlocksDisjoint(base, bs, i, j); }
    if i != k { BlocksDisjoint(base, bs, i, k); }
  }

  lemma FreePtrEffect(base: nat, bs: seq<Block>, total: nat, ptr: nat)
    requires Inv(bs, total)
    ensures Inv(FreePtr(base, bs, ptr), total)
    ensures forall p :: p in Live(base, FreePtr(base, bs, ptr)) <==> p in Live(base, bs) && p.0 != ptr
  {
    var i := Locate(base, bs, ptr);
    if i < |bs| && !bs[i].free { FreeEffect(base, bs, total, i); }
    forall p | p in Live(base, bs) && p.0 == ptr
      ensures i < |bs| && !bs[i].free && p == (ptr, bs[i].size)
    {
      var j := LiveAtIndex(base, bs, p, |bs|);
      if i < |bs| && i != j { BlocksDisjoint(base, bs, i, j); }
    }
  }

  function FreeEach(base: nat, bs: seq<Block>, ptrs: seq<nat>): seq<Block>
    decreases |ptrs|
  {
    if ptrs == [] then bs else FreeEach(base, FreePtr(base, bs, ptrs[0]), ptrs[1..])
  }

  /** Freeing every live pointer, in any order, leaves the single initial free block. */
  lemma {:induction false} FreeAllInAnyOrder(base: nat, bs: seq<Block>, total: nat, ptrs: seq<nat>)
    requires Inv(bs, total) && total >= HEADER
    requires forall p :: p in Live(base, bs) ==> p.0 in ptrs
    ensures FreeEach(base, bs, ptrs) == Initial(total)
    decreases |ptrs|
  {
    if ptrs == [] {
      assert Live(base, bs) == {};
      AllFreeIsInitial(base, bs, total);
    } else {
      FreePtrEffect(base, bs, total, ptrs[0]);
      FreeAllInAnyOrder(base, FreePtr(base, bs, ptrs[0]), total, ptrs[1..]);
    }
  }

  // ---------- statistics ----------

  function UsedBytes(bs: seq<Block>, i: nat): nat
    requires i <= |bs|
  {
    if i == 0 then 0 else UsedBytes(bs, i - 1) + if bs[i - 1].free then 0 else bs[i - 1].size
  }

  function FreeBytes(bs: seq<Block>, i: nat): nat
    requires i <= |bs|
  {
    if i == 0 then 0 else FreeBytes(bs, i - 1) + if bs[i - 1].free then bs[i - 1].size else 0
  }

  /** Conservation: every byte of the heap is a header, a used or a free payload byte. */
  lemma {:induction false} BytesConserved(bs: seq<Block>, i: nat)
    requires i <= |bs|
    ensures Off(bs, i) == UsedBytes(bs, i) + FreeBytes(bs, i) + HEADER * i
  {
    if i > 0 { BytesConserved(bs, i - 1); }
  }

  /** The sizes of a set of payloads, added up in any order. */
  ghost function Total(live: set<(nat, nat)>): nat {
    if live == {} then 0
    else
      var p :| p in live;
      p.1 + Total(live - {p})
  }

  lemma {:induction false} TotalWithout(live: set<(nat, nat)>, q: (nat, nat))
    requires q in live
    ensures Total(live) == q.1 + Total(live - {q})
    decreases |live|
  {
    var p :| p in live && Total(live) == p.1 + Total(live - {p});
    if p != q {
      TotalWithout(live - {p}, q);
      TotalWithout(live - {q}, p);
      assert live - {p} - {q} == live - {q} - {p};
    }
  }

  /** The used bytes are the sizes of the live payloads, added up. */
  lemma {:induction false} UsedIsLive(base: nat, bs: seq<Block>, i: nat)
    requires i <= |bs|
    ensures UsedBytes(bs, i) == Total(LiveTo(base, bs, i))
  {
    if i > 0 {
      UsedIsLive(base, bs, i - 1);
      if !bs[i - 1].free {
        var before := LiveTo(base, bs, i - 1);
        var p: (nat, nat) := (Addr(base, bs, i - 1) + HEADER, bs[i - 1].size);
        LiveBounds(base, bs, i - 1);
        TotalWithout(before + {p}, p);
        assert before + {p} - {p} == before;
      } else {
        assert LiveTo(base, bs, i) == LiveTo(base, bs, i - 1);
      }
    }
  }

  // ---------- runs ----------

  datatype Op = DoAlloc(bytes: u64) | DoFree(ptr: nat)

  function Step(base: nat, bs: seq<Block>, op: Op): seq<Block> {
    match op
    case DoAlloc(bytes) => Alloc(bs, bytes)
    case DoFree(ptr) => FreePtr(base, bs, ptr)
  }

  lemma StepKeepsInv(base: nat, bs: seq<Block>, total: nat, op: Op)
    requires Inv(bs, total)
    ensures Inv(Step(base, bs, op), total)
  {
    match op
    case DoAlloc(bytes) =>
      var i := Chosen(bs, bytes);
      if i < |bs| { TakeEffect(base, bs, total, i, RoundUp(bytes)); }
    case DoFree(ptr) => FreePtrEffect(base, bs, total, ptr);
  }

  /** In every run from a fresh heap the blocks tile it exactly, with no two free neighbours. */
  function Run(base: nat, total: nat, ops: seq<Op>): (bs: seq<Block>)
    requires total >= HEADER + ALIGN && total % ALIGN == 0
    ensures Inv(bs, total)
  {
    if ops == [] then
      LiveOne(0, Initial(total)[0]);
      Initial(total)
    else
      var before := Run(base, total, ops[..|ops| - 1]);
      StepKeepsInv(base, before, total, ops[|ops| - 1]);
      Step(base, before, ops[|ops| - 1])
  }
}
