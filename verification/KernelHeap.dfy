/** The kernel heap: first fit over doubly linked blocks, split on allocation and coalesced on free.
    `headers` holds the block headers by address, `bytes` the payload bytes. */
module KernelHeap {
  import opened Words
  import opened HeapModel
  import opened HeapLinks

  const GUARDED := 64 * 1024 * 1024  // heap size up to which the validator's guard cannot fire

  // ---------- what kmem_validate accepts ----------

  /** One header passes the local tests of `kmem_validate`. */
  predicate NodeOk(hs: Headers, end: nat, a: nat) {
    var h := Peek(hs, a);
    var cursor := AlignPtr(a + HEADER + h.size);
    && a != 0 && a + HEADER <= end && h.magic == MAGIC
    && h.size <= end - (a + HEADER) && cursor != 0 && cursor <= end
  }

  /** The answer for a header: that of its first fault, 0 when there is none. */
  ghost function NodeFault(hs: Headers, end: nat, a: nat, prev: nat, cursor: nat): int {
    var h := Peek(hs, a);
    if a != cursor then -4
    else if a + 48 > end then -5
    else if h.magic != MAGIC then -6
    else if h.prev != prev then -7
    else if a + 48 + h.size > end then -8
    else if !(0 < AlignPtr(a + 48 + h.size) <= end) then -9
    else 0
  }

  /** Consecutive nodes tile and point at each other. */
  predicate LinkOk(hs: Headers, a: nat, b: nat) {
    Peek(hs, a).next == b && Peek(hs, b).prev == a && AlignPtr(a + HEADER + Peek(hs, a).size) == b
  }

  predicate Prefix(hs: Headers, base: nat, end: nat, nodes: seq<nat>) {
    && (nodes != [] ==> nodes[0] == base && Peek(hs, base).prev == 0)
    && (forall k :: 0 <= k < |nodes| ==> NodeOk(hs, end, nodes[k]))
    && (forall k :: 0 <= k < |nodes| - 1 ==> LinkOk(hs, nodes[k], nodes[k + 1]))
  }

  /** A null-terminated list of well-formed headers, each where the one before ends, from `base` on. Where the
      last one ends is not tested. */
  predicate Chain(hs: Headers, base: nat, end: nat, nodes: seq<nat>) {
    nodes != [] && Prefix(hs, base, end, nodes) && Peek(hs, nodes[|nodes| - 1]).next == 0
  }

  /** The pointer the walk stands at after the nodes in `seen`. */
  function At(hs: Headers, base: nat, seen: seq<nat>): nat {
    if seen == [] then base else Peek(hs, seen[|seen| - 1]).next
  }

  /** Any chain starts with the nodes already seen, and goes on at the current pointer unless null. */
  lemma {:induction false} ChainForced(hs: Headers, base: nat, end: nat, nodes: seq<nat>, seen: seq<nat>)
    requires Chain(hs, base, end, nodes) && Prefix(hs, base, end, seen)
    ensures |seen| <= |nodes| && nodes[..|seen|] == seen
    ensures |seen| == |nodes| <==> seen != [] && At(hs, base, seen) == 0
    ensures |seen| < |nodes| ==> nodes[|seen|] == At(hs, base, seen)
    decreases |seen|
  {
    if seen != [] {
      var k := |seen| - 1;
      ChainForced(hs, base, end, nodes, seen[..k]);
      if k > 0 { assert LinkOk(hs, seen[k - 1], seen[k]) && NodeOk(hs, end, seen[k]); }
      assert nodes[k] == seen[k];
      if k + 1 < |nodes| { assert LinkOk(hs, nodes[k], nodes[k + 1]) && NodeOk(hs, end, nodes[k + 1]); }
    }
  }

  /** A walk that has not ended stands at the chain's next node, whose local tests and back link hold. */
  lemma ChainGoesOn(hs: Headers, base: nat, end: nat, nodes: seq<nat>, seen: seq<nat>)
    requires Chain(hs, base, end, nodes) && Prefix(hs, base, end, seen) && At(hs, base, seen) != 0
    ensures var cur := At(hs, base, seen);
            && |seen| < |nodes| && nodes[|seen|] == cur && NodeOk(hs, end, cur)
            && (seen == [] ==> cur == base && Peek(hs, cur).prev == 0)
            && (seen != [] ==> LinkOk(hs, seen[|seen| - 1], cur))
  {
    ChainForced(hs, base, end, nodes, seen);
    assert NodeOk(hs, end, nodes[|seen|]);
    if seen != [] { assert LinkOk(hs, nodes[|seen| - 1], nodes[|seen| - 1 + 1]); }
  }

  function Last(seen: seq<nat>): nat {
    if seen == [] then 0 else seen[|seen| - 1]
  }

  /** Where the node after those in `seen` must be. */
  function Cursor(hs: Headers, base: nat, seen: seq<nat>): nat {
    if seen == [] then base else AlignPtr(Last(seen) + HEADER + Peek(hs, Last(seen)).size)
  }

  /** The walk over sound nodes `seen` stops at the next one with that answer: one node too many, or a fault. */
  ghost predicate StopsAt(hs: Headers, base: nat, end: nat, seen: seq<nat>, code: int) {
    && Prefix(hs, base, end, seen) && At(hs, base, seen) != 0
    && code == if |seen| == 0x10_0000 then -3
               else NodeFault(hs, end, At(hs, base, seen), Last(seen), Cursor(hs, base, seen))
  }

  /** A sound header makes the walk one node longer. */
  lemma WalksOn(hs: Headers, base: nat, end: nat, seen: seq<nat>)
    requires Prefix(hs, base, end, seen) && At(hs, base, seen) != 0
    requires NodeFault(hs, end, At(hs, base, seen), Last(seen), Cursor(hs, base, seen)) == 0
    ensures var cur := At(hs, base, seen);
            var more := seen + [cur];
            && Prefix(hs, base, end, more) && Last(more) == cur && At(hs, base, more) == Peek(hs, cur).next
            && Cursor(hs, base, more) == AlignPtr(cur + HEADER + Peek(hs, cur).size)
  {
  }

  /** Where the walk stops with an error no chain within the guard goes on. */
  lemma StopsRefuses(hs: Headers, base: nat, end: nat, nodes: seq<nat>, seen: seq<nat>, code: int)
    requires StopsAt(hs, base, end, seen, code) && Chain(hs, base, end, nodes) && |nodes| <= MAX_BLOCKS
    ensures code == 0
  {
    ChainGoesOn(hs, base, end, nodes, seen);
  }

  /** Where a node ends and the next one would be. */
  function Ends(hs: Headers, a: nat): nat {
    AlignPtr(a + HEADER + Peek(hs, a).size)
  }

  predicate Within(hs: Headers, nodes: seq<nat>, k: nat, x: nat)
    requires k < |nodes|
  {
    nodes[k] <= x < Ends(hs, nodes[k])
  }

  /** The address is in one of the first `n` nodes. */
  ghost predicate Owned(hs: Headers, nodes: seq<nat>, n: nat, x: nat) {
    n <= |nodes| && exists k :: 0 <= k < n && Within(hs, nodes, k, x)
  }

  predicate InBoth(hs: Headers, nodes: seq<nat>, j: int, k: int, x: nat) {
    0 <= j < |nodes| && 0 <= k < |nodes| && Within(hs, nodes, j, x) && Within(hs, nodes, k, x)
  }

  /** Every address of the arena, and no other, is in exactly one node. */
  ghost predicate Tiles(hs: Headers, base: nat, end: nat, nodes: seq<nat>) {
    && (forall x: nat :: Owned(hs, nodes, |nodes|, x) <==> base <= x < end)
    && (forall x, j, k :: InBoth(hs, nodes, j, k, x) ==> j == k)
  }

  lemma NodeEndsLater(hs: Headers, end: nat, a: nat)
    requires NodeOk(hs, end, a)
    ensures a + HEADER + Peek(hs, a).size <= Ends(hs, a) <= end
  {
  }

  lemma {:induction false} NodesFollow(hs: Headers, base: nat, end: nat, nodes: seq<nat>, j: nat, k: nat)
    requires Prefix(hs, base, end, nodes) && j < k < |nodes|
    ensures Ends(hs, nodes[j]) <= nodes[k]
    decreases k
  {
    assert NodeOk(hs, end, nodes[k - 1]) && LinkOk(hs, nodes[k - 1], nodes[k - 1 + 1]);
    NodeEndsLater(hs, end, nodes[k - 1]);
    if j < k - 1 { NodesFollow(hs, base, end, nodes, j, k - 1); }
  }

  lemma BaseFirst(hs: Headers, base: nat, end: nat, nodes: seq<nat>, k: nat)
    requires Prefix(hs, base, end, nodes) && k < |nodes|
    ensures base <= nodes[k] < Ends(hs, nodes[k]) <= end
  {
    assert NodeOk(hs, end, nodes[0]) && NodeOk(hs, end, nodes[k]);
    NodeEndsLater(hs, end, nodes[0]);
    NodeEndsLater(hs, end, nodes[k]);
    if k > 0 { NodesFollow(hs, base, end, nodes, 0, k); }
  }

  lemma {:induction false} NodesCover(hs: Headers, base: nat, end: nat, nodes: seq<nat>, n: nat, x: nat)
    requires Prefix(hs, base, end, nodes) && 0 < n <= |nodes|
    ensures Owned(hs, nodes, n, x) <==> base <= x < Ends(hs, nodes[n - 1])
    decreases n
  {
    BaseFirst(hs, base, end, nodes, n - 1);
    assert Within(hs, nodes, n - 1, x) <==> nodes[n - 1] <= x < Ends(hs, nodes[n - 1]);
    if n > 1 {
      NodesCover(hs, base, end, nodes, n - 1, x);
      assert LinkOk(hs, nodes[n - 2], nodes[n - 2 + 1]);
    }
    assert Owned(hs, nodes, n, x) <==> Within(hs, nodes, n - 1, x) || Owned(hs, nodes, n - 1, x);
  }

  lemma NodesApart(hs: Headers, base: nat, end: nat, nodes: seq<nat>)
    requires Prefix(hs, base, end, nodes)
    ensures forall x, j, k :: InBoth(hs, nodes, j, k, x) ==> j == k
  {
    forall x, j, k | InBoth(hs, nodes, j, k, x) ensures j == k {
      if j < k { NodesFollow(hs, base, end, nodes, j, k); }
      if k < j { NodesFollow(hs, base, end, nodes, k, j); }
    }
  }

  /** Exactly: an accepted chain tiles the arena iff its last node ends at the arena's end. */
  lemma ChainTilesIff(hs: Headers, base: nat, end: nat, nodes: seq<nat>)
    requires Chain(hs, base, end, nodes)
    ensures Tiles(hs, base, end, nodes) <==> Ends(hs, nodes[|nodes| - 1]) == end
  {
    var stop := Ends(hs, nodes[|nodes| - 1]);
    BaseFirst(hs, base, end, nodes, |nodes| - 1);
    NodesApart(hs, base, end, nodes);
    forall x: nat ensures Owned(hs, nodes, |nodes|, x) <==> base <= x < stop {
      NodesCover(hs, base, end, nodes, |nodes|, x);
    }
    assert !Owned(hs, nodes, |nodes|, stop);
  }

  /** `kmem_validate` accepts one 16-byte block at the start of a 4080-byte arena and nothing after it. */
  lemma ShortChainAccepted()
    ensures var hs := map[16 := Header(MAGIC, 16, true, 0, 0)];
            Chain(hs, 16, 4096, [16]) && !Tiles(hs, 16, 4096, [16])
  {
    var hs := map[16 := Header(MAGIC, 16, true, 0, 0)];
    assert Chain(hs, 16, 4096, [16]);
    ChainTilesIff(hs, 16, 4096, [16]);
  }

  ghost predicate Laid(hs: Headers, base: nat, bs: seq<Block>) {
    && 0 < base && base % ALIGN == 0 && bs != [] && Sizes(bs) && base + Extent(bs) <= ARENA_LIMIT
    && Represents(hs, base, bs)
  }

  /** The header writes of a split leave a heap laid out as the split blocks. */
  lemma SplitLaid(hs: Headers, base: nat, bs: seq<Block>, i: nat, wanted: nat)
    requires Laid(hs, base, bs) && i < |bs| && ALIGN <= wanted && wanted % ALIGN == 0
    requires wanted + HEADER + MIN_SPLIT < bs[i].size
    ensures var a, t := Addr(base, bs, i), SplitAt(bs, i, wanted);
            && Peek(hs, a).size == bs[i].size && Extent(t) == Extent(bs) && Addr(base, t, i) == a && i < |t|
            && Laid(SplitHeaders(hs, a, wanted, a + HEADER + wanted, bs[i].size - wanted - HEADER), base, t)
  {
    SplitRepresents(hs, base, bs, i, wanted);
    SplitOff(bs, i, wanted, i);
    SplitSizes(bs, i, wanted);
    HeaderAt(hs, base, bs, i);
  }

  lemma RepresentedNodes(hs: Headers, base: nat, bs: seq<Block>, k: nat)
    requires Laid(hs, base, bs) && k < |bs|
    ensures NodeOk(hs, base + Extent(bs), Addr(base, bs, k))
    ensures k + 1 < |bs| ==> LinkOk(hs, Addr(base, bs, k), Addr(base, bs, k + 1))
  {
    HeaderAt(hs, base, bs, k);
    AlignPtrExact(Addr(base, bs, k + 1));
    if k + 1 < |bs| { HeaderAt(hs, base, bs, k + 1); }
  }

  lemma AlignPtrExact(v: nat)
    requires v % ALIGN == 0 && v <= ARENA_LIMIT
    ensures AlignPtr(v) == v
  {
  }

  /** A represented block list is a chain, and so the only one. */
  lemma RepresentedChain(hs: Headers, base: nat, bs: seq<Block>)
    requires Laid(hs, base, bs)
    ensures Chain(hs, base, base + Extent(bs), Addrs(base, bs))
    ensures var end := base + Extent(bs); forall nodes :: Chain(hs, base, end, nodes) ==> nodes == Addrs(base, bs)
  {
    var ads, end := Addrs(base, bs), base + Extent(bs);
    HeaderAt(hs, base, bs, 0);
    HeaderAt(hs, base, bs, |bs| - 1);
    assert Prefix(hs, base, end, ads) by {
      forall k | 0 <= k < |bs| ensures NodeOk(hs, end, ads[k]) { RepresentedNodes(hs, base, bs, k); }
      forall k | 0 <= k < |bs| - 1 ensures LinkOk(hs, ads[k], ads[k + 1]) { RepresentedNodes(hs, base, bs, k); }
    }
    forall nodes | Chain(hs, base, end, nodes) ensures nodes == ads {
      ChainForced(hs, base, end, nodes, ads);
    }
  }

  lemma RepresentedEnds(hs: Headers, base: nat, bs: seq<Block>)
    requires Laid(hs, base, bs)
    ensures Ends(hs, Addrs(base, bs)[|bs| - 1]) == base + Extent(bs)
  {
    HeaderAt(hs, base, bs, |bs| - 1);
    AlignPtrExact(Addr(base, bs, |bs|));
  }

  /** On a represented heap the validator accepts exactly up to its guard of 2^20 blocks. */
  lemma AcceptedIff(hs: Headers, base: nat, bs: seq<Block>)
    requires Laid(hs, base, bs)
    ensures var end := base + Extent(bs);
            (exists nodes :: Chain(hs, base, end, nodes) && |nodes| <= MAX_BLOCKS) <==> |bs| <= MAX_BLOCKS
  {
    RepresentedChain(hs, base, bs);
    assert |Addrs(base, bs)| == |bs|;
  }

  class Kmem {
    var heapBase: nat
    var heapEnd: nat
    var head: nat
    var initialized: bool
    var headers: Headers
    var bytes: map<nat, bv8>
    ghost var blocks: seq<Block>

    /** The headers represent `blocks`, which tile the arena. */
    ghost predicate Holds()
      reads this`heapBase, this`heapEnd, this`head, this`headers, this`blocks
    {
      head == heapBase && heapEnd == heapBase + Extent(blocks) && Laid(headers, heapBase, blocks)
    }

    ghost predicate Valid()
      reads this`heapBase, this`heapEnd, this`head, this`headers, this`blocks, this`initialized
    {
      initialized ==> Holds() && NoFreeNeighbours(blocks)
    }

    constructor ()
      ensures Valid() && !initialized
    {
      heapBase, heapEnd, head, initialized := 0, 0, 0, false;
      headers, bytes, blocks := map[], map[], [];
    }

    /** The four tests of `kmem_split_if_useful`: they come to one bound on the block's size. */
    method SplitUseful(cur: nat, wanted: nat, ghost i: nat) returns (useful: bool)
      requires Holds() && i < |blocks| && cur == Addr(heapBase, blocks, i)
      requires ALIGN <= wanted <= blocks[i].size && wanted % ALIGN == 0
      ensures useful <==> blocks[i].size > wanted + HEADER + MIN_SPLIT
    {
      HeaderAt(headers, heapBase, blocks, i);
      var size := Peek(headers, cur).size;
      if size < wanted + HEADER + MIN_SPLIT {
        return false;
      }
      var cut := AlignPtr(cur + HEADER + wanted);
      AddAligned(cur, wanted);
      AlignPtrExact(cur + HEADER + wanted);
      if cut == 0 || cut + HEADER >= heapEnd {
        return false;
      }
      return size > cut - (cur + HEADER) + HEADER + MIN_SPLIT;
    }

    method SplitIfUseful(cur: nat, wanted: nat, ghost i: nat)
      requires Holds() && i < |blocks| && cur == Addr(heapBase, blocks, i)
      requires ALIGN <= wanted <= blocks[i].size && wanted % ALIGN == 0
      modifies this`headers, this`blocks
      ensures Holds()
      ensures blocks == if old(blocks)[i].size > wanted + HEADER + MIN_SPLIT
                        then SplitAt(old(blocks), i, wanted) else old(blocks)
      ensures i < |blocks| && cur == Addr(heapBase, blocks, i)
    {
      var useful := SplitUseful(cur, wanted, i);
      if useful {
        SplitBlock(cur, wanted, i);
      }
    }

    method SplitBlock(cur: nat, wanted: nat, ghost i: nat)
      requires Holds() && i < |blocks| && cur == Addr(heapBase, blocks, i)
      requires ALIGN <= wanted && wanted % ALIGN == 0 && wanted + HEADER + MIN_SPLIT < blocks[i].size
      modifies this`headers, this`blocks
      ensures blocks == SplitAt(old(blocks), i, wanted)
      ensures Holds() && i < |blocks| && cur == Addr(heapBase, blocks, i)
    {
      SplitLaid(headers, heapBase, blocks, i, wanted);
      LinkSplit(cur, wanted);
      blocks := SplitAt(blocks, i, wanted);
    }

    /** The header writes of `kmem_split_if_useful`. */
    method LinkSplit(cur: nat, wanted: nat)
      requires Peek(headers, cur).size >= wanted + HEADER
      modifies this`headers
      ensures headers == SplitHeaders(old(headers), cur, wanted, cur + HEADER + wanted,
                                      Peek(old(headers), cur).size - wanted - HEADER)
    {
      var b := Peek(headers, cur);
      var cut := cur + HEADER + wanted;
      headers := headers[cut := Header(MAGIC, b.size - wanted - HEADER, true, cur, b.next)];
      if b.next != 0 {
        headers := headers[b.next := Peek(headers, b.next).(prev := cut)];
      }
      headers := headers[cur := b.(next := cut, size := wanted)];
    }

    /** The loop test of `kmem_coalesce_forward`, with its check that the next header is adjacent. */
    method NextIsFree(cur: nat, ghost i: nat) returns (yes: bool)
      requires Holds() && i < |blocks| && cur == Addr(heapBase, blocks, i)
      ensures yes <==> i + 1 < |blocks| && blocks[i + 1].free
    {
      HeaderAt(headers, heapBase, blocks, i);
      var b := Peek(headers, cur);
      if b.next == 0 {
        return false;
      }
      HeaderAt(headers, heapBase, blocks, i + 1);
      AlignPtrExact(b.next);
      yes := Peek(headers, b.next).free && AlignPtr(cur + HEADER + b.size) == b.next;
    }

    method CoalesceForward(cur: nat, ghost i: nat)
      requires Holds() && i < |blocks| && cur == Addr(heapBase, blocks, i)
      modifies this`headers, this`blocks
      ensures Holds() && blocks == Merge(old(blocks), i)
      ensures i < |blocks| && cur == Addr(heapBase, blocks, i)
    {
      var more := NextIsFree(cur, i);
      while more
        invariant Holds() && i < |blocks| && cur == Addr(heapBase, blocks, i)
        invariant Merge(blocks, i) == Merge(old(blocks), i)
        invariant more <==> i + 1 < |blocks| && blocks[i + 1].free
        decreases |blocks|
      {
        MergeOneStep(cur, i);
        more := NextIsFree(cur, i);
      }
    }

    /** The loop body of `kmem_coalesce_forward`. */
    method MergeOneStep(cur: nat, ghost i: nat)
      requires Holds() && i + 1 < |blocks| && cur == Addr(heapBase, blocks, i)
      modifies this`headers, this`blocks
      ensures Holds() && blocks == MergeOne(old(blocks), i) && |blocks| == |old(blocks)| - 1
      ensures cur == Addr(heapBase, blocks, i)
    {
      HeaderAt(headers, heapBase, blocks, i);
      MergeRepresents(headers, heapBase, blocks, i);
      MergeSizes(blocks, i);
      MergeOneAt(blocks, i, i);
      UnlinkNext(cur);
      blocks := MergeOne(blocks, i);
    }

    /** The header writes of one merge. */
    method UnlinkNext(cur: nat)
      modifies this`headers
      ensures headers == MergeHeaders(old(headers), cur)
    {
      var b := Peek(headers, cur);
      var next := b.next;
      var n := Peek(headers, next);
      headers := headers[cur := b.(size := b.size + HEADER + n.size, next := n.next)];
      if n.next != 0 {
        headers := headers[n.next := Peek(headers, n.next).(prev := cur)];
      }
      headers := headers[next := Header(0, 0, n.free, 0, 0)];
    }

    method Mark(cur: nat, free: bool, ghost i: nat)
      requires Holds() && i < |blocks| && cur == Addr(heapBase, blocks, i)
      modifies this`headers, this`blocks
      ensures Holds() && blocks == old(blocks)[i := old(blocks)[i].(free := free)]
      ensures cur == Addr(heapBase, blocks, i)
    {
      MarkRepresents(headers, heapBase, blocks, i, free);
      MarkOff(blocks, i, free, i);
      headers := headers[cur := Peek(headers, cur).(free := free)];
      blocks := blocks[i := blocks[i].(free := free)];
    }

    /** The search loop of `kmem_alloc`. */
    method FindFit(wanted: nat) returns (cur: nat, ghost i: nat)
      requires Holds()
      ensures i == FirstFit(blocks, wanted, 0)
      ensures cur == if i == |blocks| then 0 else Addr(heapBase, blocks, i)
    {
      cur, i := head, 0;
      while cur != 0 && Peek(headers, cur).magic == MAGIC
        invariant i <= |blocks| && cur == if i == |blocks| then 0 else Addr(heapBase, blocks, i)
        invariant FirstFit(blocks, wanted, 0) == FirstFit(blocks, wanted, i)
        decreases |blocks| - i
      {
        HeaderAt(headers, heapBase, blocks, i);
        if Peek(headers, cur).free && Peek(headers, cur).size >= wanted {
          return;
        }
        cur, i := Peek(headers, cur).next, i + 1;
      }
      if i < |blocks| { HeaderAt(headers, heapBase, blocks, i); }
    }

    /** First fit: the payload of the block `Chosen` picks, or null. */
    method Alloc(count: u64) returns (ptr: nat)
      requires Valid()
      modifies this`headers, this`blocks
      ensures Valid()
      ensures !initialized ==> ptr == 0 && unchanged(this)
      ensures initialized ==> blocks == HeapModel.Alloc(old(blocks), count)
      ensures initialized ==>
        var i := Chosen(old(blocks), count);
        ptr == if i == |old(blocks)| then 0 else Addr(heapBase, old(blocks), i) + HEADER
    {
      if !initialized || count == 0 {
        return 0;
      }
      var wanted := RoundUp(count);
      if wanted == 0 {
        return 0;
      }
      ghost var i;
      var cur;
      cur, i := FindFit(wanted);
      if cur == 0 {
        return 0;
      }
      TakeShape(blocks, i, wanted);
      SplitThenMark(blocks, i, wanted);
      SplitIfUseful(cur, wanted, i);
      Mark(cur, false, i);
      return cur + HEADER;
    }

    /** The tests `kmem_validate` makes at one header. */
    method CheckNode(cur: nat, prev: nat, cursor: nat) returns (code: int, after: nat)
      requires cur != 0 && cursor >= heapBase
      ensures code == 0 <==> cur == cursor && NodeOk(headers, heapEnd, cur) && Peek(headers, cur).prev == prev
      ensures code == NodeFault(headers, heapEnd, cur, prev, cursor)
      ensures code == 0 ==> after == AlignPtr(cur + HEADER + Peek(headers, cur).size) >= cur
    {
      after := 0;
      if cur != cursor { return -4, after; }
      if cur < heapBase || cur + HEADER > heapEnd { return -5, after; }
      var h := Peek(headers, cur);
      if h.magic != MAGIC { return -6, after; }
      if h.prev != prev { return -7, after; }
      if h.size > heapEnd - (cur + HEADER) { return -8, after; }
      after := AlignPtr(cur + HEADER + h.size);
      if after == 0 || after > heapEnd { return -9, after; }
      code := 0;
    }

    /** The headers form a chain of at most 2^20 nodes from the start of the arena. */
    ghost predicate Accepted()
      reads this`heapBase, this`heapEnd, this`head, this`headers, this`initialized
    {
      && initialized && heapBase != 0 && heapBase < heapEnd && head == heapBase
      && exists nodes :: Chain(headers, heapBase, heapEnd, nodes) && |nodes| <= MAX_BLOCKS
    }

    /** A sound heap of at most 64 MiB is a chain within the guard, and the chain tiles the arena. */
    lemma ValidIsAccepted()
      requires Valid() && initialized && heapEnd - heapBase <= GUARDED
      ensures Accepted()
      ensures exists nodes :: Chain(headers, heapBase, heapEnd, nodes) && Tiles(headers, heapBase, heapEnd, nodes)
    {
      var nodes := Addrs(heapBase, blocks);
      RepresentedChain(headers, heapBase, blocks);
      GuardNeverFires(blocks, heapEnd - heapBase);
      CountBound(blocks, |blocks|);
      RepresentedEnds(headers, heapBase, blocks);
      ChainTilesIff(headers, heapBase, heapEnd, nodes);
      assert |nodes| == |blocks|;
    }

    /** The loop of `kmem_validate`: all of `seen` is sound, and the list ends there or the walk stops there. */
    method WalkHeaders() returns (code: int, ghost seen: seq<nat>)
      requires initialized && 0 < heapBase < heapEnd && head == heapBase
      ensures code == 0 ==> Chain(headers, heapBase, heapEnd, seen) && |seen| <= MAX_BLOCKS
      ensures code != 0 ==> StopsAt(headers, heapBase, heapEnd, seen, code) && -9 <= code <= -3
    {
      var prev, cursor, guard := 0, heapBase, 0;
      var cur := head;
      seen := [];
      while cur != 0
        invariant guard == |seen| <= MAX_BLOCKS && Prefix(headers, heapBase, heapEnd, seen)
        invariant cur == At(headers, heapBase, seen) && prev == Last(seen) && (seen != [] ==> prev >= heapBase)
        invariant cursor == Cursor(headers, heapBase, seen) >= heapBase
        decreases MAX_BLOCKS - guard
      {
        guard := guard + 1;
        if guard > MAX_BLOCKS { return -3, seen; }
        code, cursor := CheckNode(cur, prev, cursor);
        if code != 0 { return; }
        WalksOn(headers, heapBase, heapEnd, seen);
        seen := seen + [cur];
        prev, cur := cur, Peek(headers, cur).next;
      }
      code := 0;
    }

    /** `kmem_validate` accepts exactly the headers that form a chain of at most 2^20 nodes; otherwise it answers
        -1 or -2 for the heap's own fields, or the fault of the first bad header. */
    method Validate() returns (code: int)
      ensures code == 0 <==> Accepted()
      ensures code == -1 <==> !initialized || heapBase == 0 || heapEnd <= heapBase || head == 0
      ensures code == -2 <==> initialized && 0 < heapBase < heapEnd && head != 0 && head != heapBase
      ensures code !in {0, -1, -2} ==> exists seen :: StopsAt(headers, heapBase, heapEnd, seen, code)
    {
      if !initialized || heapBase == 0 || heapEnd <= heapBase || head == 0 {
        return -1;
      }
      if head != heapBase {
        return -2;
      }
      ghost var seen: seq<nat>;
      code, seen := WalkHeaders();
      forall nodes | Chain(headers, heapBase, heapEnd, nodes) && |nodes| <= MAX_BLOCKS ensures code == 0 {
        if code != 0 { StopsRefuses(headers, heapBase, heapEnd, nodes, seen, code); }
      }
    }

    /** Frees the block whose payload is at `ptr`, or says why it will not. */
    method FreeChecked(ptr: u64) returns (code: int)
      requires Valid()
      modifies this`headers, this`blocks
      ensures Valid()
      ensures ptr == 0 ==> code == 0 && unchanged(this)
      ensures ptr != 0 && !(initialized && heapBase <= ptr < heapEnd) ==> code == -1 && unchanged(this)
      ensures initialized && heapBase <= ptr < heapEnd && ptr % ALIGN != 0 ==> code == -2 && unchanged(this)
      ensures initialized && heapBase <= ptr < heapEnd && ptr % ALIGN == 0 ==>
        var i := Locate(heapBase, old(blocks), ptr);
        if i == |old(blocks)| then code == -3 && unchanged(this)
        else if old(blocks)[i].free then code == -4 && unchanged(this)
        else && blocks == FreeAt(old(blocks), i) && (code == 0 <==> |blocks| <= MAX_BLOCKS)
             && (heapEnd - heapBase <= GUARDED ==> code == 0)
    {
      if ptr == 0 {
        return 0;
      }
      if !(initialized && heapBase <= ptr < heapEnd) {
        return -1;
      }
      if ptr % ALIGN != 0 {
        return -2;
      }
      ghost var i := Locate(heapBase, blocks, ptr);
      LocatedHeader(headers, heapBase, blocks, ptr);
      if ptr < heapBase + HEADER || Peek(headers, ptr - HEADER).magic != MAGIC {
        return -3;
      }
      var cur := ptr - HEADER;
      if Peek(headers, cur).free {
        return -4;
      }
      FreeShape(blocks, i);
      Release(cur, i);
      if heapEnd - heapBase <= GUARDED { GuardNeverFires(blocks, heapEnd - heapBase); }
      AcceptedIff(headers, heapBase, blocks);
      code := Validate();
    }

    /** The list surgery of `kmem_free_checked`. */
    method Release(cur: nat, ghost i: nat)
      requires Holds() && i < |blocks| && cur == Addr(heapBase, blocks, i)
      modifies this`headers, this`blocks
      ensures Holds() && blocks == FreeAt(old(blocks), i)
    {
      Mark(cur, true, i);
      CoalesceForward(cur, i);
      HeaderAt(headers, heapBase, blocks, i);
      if i > 0 { HeaderAt(headers, heapBase, blocks, i - 1); }
      var prev := Peek(headers, cur).prev;
      if prev != 0 && Peek(headers, prev).free {
        CoalesceForward(prev, i - 1);
      }
    }

    method Memset(start: nat, count: nat)
      modifies this`bytes
      ensures forall a :: start <= a < start + count ==> a in bytes && bytes[a] == 0
      ensures forall a :: !(start <= a < start + count) ==>
                (a in bytes <==> a in old(bytes)) && (a in bytes ==> bytes[a] == old(bytes)[a])
    {
      var k := 0;
      while k < count
        invariant k <= count
        invariant forall a :: start <= a < start + k ==> a in bytes && bytes[a] == 0
        invariant forall a :: !(start <= a < start + k) ==>
                    (a in bytes <==> a in old(bytes)) && (a in bytes ==> bytes[a] == old(bytes)[a])
      {
        bytes, k := bytes[start + k := 0], k + 1;
      }
    }

    /** Allocates `count * size` bytes and zeroes exactly those, all of them inside the new payload. */
    method Calloc(count: u64, size: u64) returns (ptr: nat)
      requires Valid()
      modifies this`headers, this`blocks, this`bytes
      ensures Valid()
      ensures Product(count, size) >= TWO64 ==> ptr == 0 && unchanged(this)
      ensures initialized && Product(count, size) < TWO64 ==>
        && blocks == HeapModel.Alloc(old(blocks), Product(count, size))
        && var i := Chosen(old(blocks), Product(count, size));
           ptr == if i == |old(blocks)| then 0 else Addr(heapBase, old(blocks), i) + HEADER
      ensures ptr == 0 ==> bytes == old(bytes)
      ensures ptr != 0 ==>
        && (forall a :: ptr <= a < ptr + Product(count, size) ==> a in bytes && bytes[a] == 0)
        && (forall a :: !(ptr <= a < ptr + Product(count, size)) ==>
              (a in bytes <==> a in old(bytes)) && (a in bytes ==> bytes[a] == old(bytes)[a]))
        && exists p :: p in Live(heapBase, blocks) && p.0 == ptr && Product(count, size) <= p.1
    {
      ProductFits(count, size);
      if count != 0 && size > (TWO64 - 1) / count {
        return 0;
      }
      var total := Product(count, size);
      ghost var before := blocks;
      ptr := Alloc(total);
      if ptr != 0 {
        AllocGives(heapBase, before, Extent(before), total);
        Memset(ptr, total);
      }
    }

    method GetStats() returns (st: Stats)
      requires Valid()
      ensures !initialized ==> st == Stats(0, 0, 0, 0, 0, 0)
      ensures initialized ==>
        && st.total == heapEnd - heapBase && Tallied(st, blocks, |blocks|)
        && st.total == st.used + st.free + HEADER * st.count && st.used == Total(Live(heapBase, blocks))
    {
      st := Stats(0, 0, 0, 0, 0, 0);
      if !initialized {
        return;
      }
      st := st.(total := heapEnd - heapBase);
      var cur := head;
      ghost var i := 0;
      while cur != 0
        invariant i <= |blocks| && cur == if i == |blocks| then 0 else Addr(heapBase, blocks, i)
        invariant st.total == heapEnd - heapBase && Tallied(st, blocks, i)
        decreases |blocks| - i
      {
        HeaderAt(headers, heapBase, blocks, i);
        var h := Peek(headers, cur);
        TallyStep(st, blocks, i);
        st := Tally(st, h.size, h.free);
        cur, i := h.next, i + 1;
      }
      BytesConserved(blocks, |blocks|);
      UsedIsLive(heapBase, blocks, |blocks|);
    }

    /** Lays one free block over the aligned arena. The caller's arena must not wrap the address space. */
    method Init(base: u64, size: u64) returns (code: int)
      requires base + size <= ARENA_LIMIT
      modifies this`heapBase, this`heapEnd, this`head, this`headers, this`blocks, this`initialized
      ensures code == 0 <==> base != 0 && size - (AlignPtr(base) - base) >= HEADER + MIN_SPLIT + ALIGN
      ensures code == 0 ==> Valid() && initialized && base <= heapBase < base + 16 && heapBase % 16 == 0
      ensures code == 0 ==> base + size - ALIGN < heapEnd <= base + size && blocks == Initial(heapEnd - heapBase)
      ensures code != 0 ==> unchanged(this)
      ensures var room := size - (AlignPtr(base) - base);
              base == 0 || size < 80 || room < 96 ==>
              code == if base == 0 || size < 80 then -1 else if room <= 80 then -3 else -4
    {
      if base == 0 || size < HEADER + MIN_SPLIT {
        return -1;
      }
      var start := AlignPtr(base);
      if start == 0 || start < base {
        return -2;
      }
      var lost := start - base;
      if size <= lost + HEADER + MIN_SPLIT {
        return -3;
      }
      var usable := (size - lost) / ALIGN * ALIGN;
      if usable <= HEADER + MIN_SPLIT {
        return -4;
      }
      LiveOne(0, Block(usable - HEADER, true));
      heapBase, heapEnd, head := start, start + usable, start;
      headers := map[start := Header(MAGIC, usable - HEADER, true, 0, 0)];
      blocks := [Block(usable - HEADER, true)];
      initialized := true;
      InitialRepresents(heapBase, usable);
      AcceptedIff(headers, heapBase, blocks);
      code := Validate();
    }
  }

  datatype Stats = Stats(total: nat, used: nat, free: nat, count: nat, freeCount: nat, largestFree: nat)

  ghost function FreeIndices(bs: seq<Block>, i: nat): set<nat>
    requires i <= |bs|
  {
    set j: nat | j < i && bs[j].free
  }

  lemma FreeIndicesStep(bs: seq<Block>, i: nat)
    requires i < |bs|
    ensures |FreeIndices(bs, i + 1)| == |FreeIndices(bs, i)| + if bs[i].free then 1 else 0
  {
    assert FreeIndices(bs, i + 1) == FreeIndices(bs, i) + if bs[i].free then {i} else {};
  }

  /** The counters are those of the first `i` blocks. */
  ghost predicate Tallied(st: Stats, bs: seq<Block>, i: nat) {
    && i <= |bs| && st.count == i && st.used == UsedBytes(bs, i) && st.free == FreeBytes(bs, i)
    && st.freeCount == |FreeIndices(bs, i)|
    && (forall j :: 0 <= j < i && bs[j].free ==> bs[j].size <= st.largestFree)
    && (st.largestFree == 0 || exists j :: 0 <= j < i && bs[j] == Block(st.largestFree, true))
  }

  /** The loop body of `kmem_get_stats`. */
  function Tally(st: Stats, size: nat, free: bool): Stats {
    var one := st.(count := st.count + 1);
    if !free then one.(used := one.used + size)
    else one.(freeCount := one.freeCount + 1, free := one.free + size,
              largestFree := if size > one.largestFree then size else one.largestFree)
  }

  lemma TallyStep(st: Stats, bs: seq<Block>, i: nat)
    requires i < |bs| && Tallied(st, bs, i)
    ensures Tallied(Tally(st, bs[i].size, bs[i].free), bs, i + 1)
  {
    FreeIndicesStep(bs, i);
    var t := Tally(st, bs[i].size, bs[i].free);
    assert t.largestFree == st.largestFree || bs[i] == Block(t.largestFree, true);
  }

  function Product(a: u64, b: u64): nat {
    ProductNat(a, b);
    a * b
  }

  lemma ProductNat(a: int, b: int)
    requires 0 <= a && 0 <= b
    ensures 0 <= a * b
  {
  }

  /** The code's division test detects exactly the products that do not fit 64 bits. */
  lemma ProductFits(count: u64, size: u64)
    ensures Product(count, size) >= TWO64 <==> count != 0 && size > (TWO64 - 1) / count
  {
    if count != 0 { TimesQuotient(count, size, TWO64 - 1); }
  }

  lemma TimesQuotient(count: int, size: int, max: int)
    requires count > 0 && size >= 0 && max >= 0
    ensures size > max / count <==> count * size > max
  {
    var q := max / count;
    QuotientBounds(max, count);
    if size > q { TimesMore(count, q + 1, size); } else { TimesMore(count, size, q); }
  }

  lemma InitialRepresents(base: nat, usable: nat)
    requires base > 0 && usable >= HEADER
    ensures Represents(map[base := Header(MAGIC, usable - HEADER, true, 0, 0)], base, Initial(usable))
  {
    var bs := Initial(usable);
    var hs: Headers := map[base := Header(MAGIC, usable - HEADER, true, 0, 0)];
    var ads := Addrs(base, bs);
    assert ads[0] == base;
    forall a | Peek(hs, a).magic == MAGIC ensures a in ads { assert a == ads[0]; }
  }

  /** A pointer has a header in front of it exactly when it is some block's payload. */
  lemma LocatedHeader(hs: Headers, base: nat, bs: seq<Block>, ptr: nat)
    requires Laid(hs, base, bs) && ptr >= base
    ensures var i := Locate(base, bs, ptr);
            (i < |bs| <==> ptr >= base + HEADER && Peek(hs, ptr - HEADER).magic == MAGIC) &&
            (i < |bs| ==> Peek(hs, ptr - HEADER).free == bs[i].free)
  {
    var i := Locate(base, bs, ptr);
    if i < |bs| { HeaderAt(hs, base, bs, i); }
    if ptr >= base + HEADER && Peek(hs, ptr - HEADER).magic == MAGIC {
      var a := ptr - HEADER;
      assert a in Addrs(base, bs);
      var j :| 0 <= j < |bs| && Addrs(base, bs)[j] == a;
    }
  }

  /** A heap of at most 64 MiB never holds more blocks than the validator's guard allows. */
  lemma GuardNeverFires(bs: seq<Block>, total: nat)
    requires Inv(bs, total) && total <= GUARDED
    ensures |bs| <= MAX_BLOCKS
  {
    CountBound(bs, |bs|);
  }

  lemma SplitThenMark(bs: seq<Block>, i: nat, wanted: nat)
    requires i < |bs| && bs[i].free && wanted <= bs[i].size
    ensures var t := if bs[i].size > wanted + HEADER + MIN_SPLIT then SplitAt(bs, i, wanted) else bs;
            i < |t| && t[i := t[i].(free := false)] == Take(bs, i, wanted)
  {
  }
}
