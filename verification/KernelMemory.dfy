/** The kernel's wiring: page tables drawn from the frame allocator (kmain's adapters), beside
    callers that allocate frames, free what they were given, and reserve ranges. */
module KernelMemory {
  import opened Words
  import Frame = FrameModel
  import opened PageModel
  import opened PageProofs
  import PageRuns

  /** One call of `pmm_alloc_frame` that answers `a` and leaves `t`. */
  ghost predicate Allocates(s: Frame.Frames, a: u64, t: Frame.Frames) {
    && Frame.Inv(s) && Frame.Inv(t) && |t.used| == |s.used|
    && (if a == INVALID_PHYS then t == s
        else Aligned(a) && 0 < a / PAGE < |s.used| && !s.used[a / PAGE] && t.used == s.used[a / PAGE := true])
  }

  function Answer(s: Frame.Frames): (a: u64)
    requires Frame.Inv(s)
    ensures Allocates(s, a, Frame.Alloc(s).s)
  {
    Frame.AllocIsLowestFree(s);
    match Frame.Alloc(s)
    case Got(f, _) => f * PAGE
    case NoFrame(_) => INVALID_PHYS
  }

  /** Consecutive allocations: the answers, and the states around them. */
  datatype Chain = Chain(states: seq<Frame.Frames>, answers: seq<u64>)

  ghost predicate IsChain(c: Chain) {
    |c.states| == |c.answers| + 1 &&
    forall j :: 0 <= j < |c.answers| ==> Allocates(c.states[j], c.answers[j], c.states[j + 1])
  }

  function Allocations(s: Frame.Frames, k: nat): (c: Chain)
    requires Frame.Inv(s)
    ensures IsChain(c) && |c.answers| == k && c.states[0] == s
  {
    if k == 0 then Chain([s], [])
    else
      var c := Allocations(s, k - 1);
      var last := c.states[k - 1];
      assert k > 1 ==> Allocates(c.states[k - 2], c.answers[k - 2], last);
      Chain(c.states + [Frame.Alloc(last).s], c.answers + [Answer(last)])
  }

  lemma {:induction false} UsedStaysUsed(c: Chain, j: nat, k: nat, f: nat)
    requires IsChain(c) && j <= k <= |c.answers| && f < |c.states[j].used| && c.states[j].used[f]
    ensures f < |c.states[k].used| == |c.states[j].used| && c.states[k].used[f]
    decreases k
  {
    if j < k { UsedStaysUsed(c, j, k - 1, f); assert Allocates(c.states[k - 1], c.answers[k - 1], c.states[k]); }
  }

  lemma {:induction false} ChainSizes(c: Chain, j: nat)
    requires IsChain(c) && j <= |c.answers| && Frame.Inv(c.states[0])
    ensures |c.states[j].used| == |c.states[0].used| && Frame.Inv(c.states[j])
  {
    if j > 0 { ChainSizes(c, j - 1); assert Allocates(c.states[j - 1], c.answers[j - 1], c.states[j]); }
  }

  /** The frames given out by consecutive allocations were free before and stay used after. */
  lemma AnswerFresh(c: Chain, j: nat, k: nat)
    requires IsChain(c) && j < k <= |c.answers| && c.answers[j] != INVALID_PHYS && Frame.Inv(c.states[0])
    ensures var f := c.answers[j] / PAGE;
            && Aligned(c.answers[j]) && 0 < f < |c.states[0].used| == |c.states[k].used|
            && !c.states[0].used[f] && c.states[k].used[f]
  {
    var f := c.answers[j] / PAGE;
    ChainSizes(c, j);
    ChainSizes(c, k);
    assert Allocates(c.states[j], c.answers[j], c.states[j + 1]);
    UsedStaysUsed(c, j + 1, k, f);
    if c.states[0].used[f] { UsedStaysUsed(c, 0, j, f); }
  }

  lemma AnswersDistinct(c: Chain, i: nat, j: nat)
    requires IsChain(c) && i < j < |c.answers| && c.answers[i] != INVALID_PHYS
    ensures c.answers[i] != c.answers[j]
  {
    assert Allocates(c.states[i], c.answers[i], c.states[i + 1]);
    assert Allocates(c.states[j], c.answers[j], c.states[j + 1]);
    UsedStaysUsed(c, i + 1, j, c.answers[i] / PAGE);
  }

  // ---------- the machine ----------

  /** Allocator, kernel address space, and the frames callers were handed and have not freed. */
  datatype Kernel = Kernel(frames: Frame.Frames, space: Space, handed: set<u64>)

  ghost predicate UsedFrame(s: Frame.Frames, a: u64) {
    Aligned(a) && 0 < a / PAGE < |s.used| && s.used[a / PAGE]
  }

  /** The table frames are used, non-zero frames of the machine and none of them is a caller's. */
  ghost predicate KernelInv(k: Kernel) {
    && Frame.Inv(k.frames) && |k.frames.used| * PAGE <= POW52
    && (forall f :: 0 <= f < |k.frames.used| ==> f * PAGE in k.space.mem)
    && Tree(k.space)
    && (forall t :: IsTable(k.space, t) ==> UsedFrame(k.frames, t) && t !in k.handed)
    && (forall a :: a in k.handed ==> UsedFrame(k.frames, a))
  }

  datatype Op =
    | KMap(v: u64, p: u64, flags: u64)
    | KUnmap(v: u64)
    | KAlloc
    | KFree(addr: u64)
    | KReserve(base: u64, length: u64)
    | KWrite(addr: u64, contents: Table)

  /** What callers owe: free and write only the frames you were given. */
  predicate Obeys(k: Kernel, op: Op) {
    op.KFree? || op.KWrite? ==> op.addr in k.handed
  }

  function FreeAll(s: Frame.Frames, addrs: seq<u64>): Frame.Frames {
    if addrs == [] then s else Frame.Free(FreeAll(s, addrs[..|addrs| - 1]), addrs[|addrs| - 1])
  }

  function Step(k: Kernel, op: Op): Kernel
    requires Frame.Inv(k.frames)
  {
    match op
    case KMap(v, p, flags) =>
      var c := Allocations(k.frames, 3);
      var r := Map(k.space.root, Heap(k.space.mem, c.answers, []), v, p, flags).1;
      var calls := if |r.supply| <= 3 then 3 - |r.supply| else 0;
      k.(frames := FreeAll(c.states[calls], r.returned), space := k.space.(mem := r.mem))
    case KUnmap(v) => k.(space := Unmap(k.space, v).1)
    case KAlloc =>
      var a := Answer(k.frames);
      k.(frames := Frame.Alloc(k.frames).s, handed := if a == INVALID_PHYS then k.handed else k.handed + {a})
    case KFree(a) => k.(frames := Frame.Free(k.frames, a), handed := k.handed - {a})
    case KReserve(b, l) => k.(frames := Frame.Reserve(k.frames, b, l))
    case KWrite(a, contents) => k.(space := k.space.(mem := k.space.mem[a := contents]))
  }

  ghost predicate ChainFrom(k: Kernel, c: Chain) {
    KernelInv(k) && IsChain(c) && c.states[0] == k.frames
  }

  lemma SupplyIsFresh(k: Kernel, c: Chain)
    requires ChainFrom(k, c)
    ensures FreshSupply(k.space, c.answers)
  {
    forall j | 0 <= j < |c.answers| && c.answers[j] != INVALID_PHYS
      ensures c.answers[j] < POW52 && !IsTable(k.space, c.answers[j])
    {
      AnswerFresh(c, j, j + 1);
    }
    forall i, j | 0 <= i < j < |c.answers| && c.answers[i] != INVALID_PHYS ensures c.answers[i] != c.answers[j] {
      AnswersDistinct(c, i, j);
    }
  }

  lemma AnswersMapped(k: Kernel, c: Chain)
    requires ChainFrom(k, c)
    ensures forall x :: x in c.answers && Aligned(x) ==> x in k.space.mem
  {
    forall x: u64 | x in c.answers && Aligned(x) ensures x in k.space.mem {
      var j :| 0 <= j < |c.answers| && c.answers[j] == x;
      AnswerFresh(c, j, j + 1);
      assert x == x / PAGE * PAGE;
    }
  }

  /** Every frame of the machine is reachable through the direct map, so map never gives one back. */
  lemma NothingReturned(k: Kernel, c: Chain, v: u64, p: u64, flags: u64)
    requires ChainFrom(k, c)
    ensures Map(k.space.root, Heap(k.space.mem, c.answers, []), v, p, flags).1.returned == []
  {
    SupplyIsFresh(k, c);
    MapTakesInOrder(k.space, Heap(k.space.mem, c.answers, []), v, p, flags);
    AnswersMapped(k, c);
    var back := Map(k.space.root, Heap(k.space.mem, c.answers, []), v, p, flags).1.returned;
    NoneOutside(back, c.answers, k.space.mem);
  }

  lemma NoneOutside(back: seq<u64>, supply: seq<u64>, mem: Memory)
    requires forall x :: x in back ==> x in supply && Aligned(x) && x !in mem
    requires forall x :: x in supply && Aligned(x) ==> x in mem
    ensures back == []
  {
    HasElement(back);
  }

  lemma HasElement(s: seq<u64>)
    ensures s != [] ==> exists x :: x in s
  {
    if s != [] { assert s[0] in s; }
  }

  /** The frames that were used stay used along the chain, and so do the frames that became tables. */
  lemma TablesStayUsed(k: Kernel, c: Chain, calls: nat, space: Space)
    requires ChainFrom(k, c) && calls <= |c.answers| && Tree(space)
    requires forall t :: IsTable(space, t) ==> IsTable(k.space, t) || t in c.answers[..calls]
    ensures forall a :: UsedFrame(k.frames, a) ==> UsedFrame(c.states[calls], a)
    ensures forall t :: IsTable(space, t) ==> UsedFrame(c.states[calls], t) && t !in k.handed
  {
    ChainSizes(c, calls);
    forall a: u64 | UsedFrame(k.frames, a) ensures UsedFrame(c.states[calls], a) {
      UsedStaysUsed(c, 0, calls, a / PAGE);
    }
    forall t: u64 | IsTable(space, t) ensures UsedFrame(c.states[calls], t) && t !in k.handed {
      if !IsTable(k.space, t) {
        TableAligned(space, t);
        var j :| 0 <= j < calls && c.answers[j] == t;
        AnswerFresh(c, j, calls);
      }
    }
  }

  lemma TableAligned(s: Space, t: u64)
    requires Tree(s) && IsTable(s, t)
    ensures Aligned(t)
  {
  }

  /** After some allocations, with new tables only among the frames they gave, the invariant holds. */
  lemma AfterAllocations(k: Kernel, c: Chain, calls: nat, space: Space)
    requires ChainFrom(k, c) && calls <= |c.answers| && Tree(space) && space.mem.Keys == k.space.mem.Keys
    requires forall t :: IsTable(space, t) ==> IsTable(k.space, t) || t in c.answers[..calls]
    ensures KernelInv(Kernel(c.states[calls], space, k.handed))
  {
    TablesStayUsed(k, c, calls, space);
    ChainSizes(c, calls);
  }

  /** What a map does to the machine: the allocations it made, and the tables it wrote. */
  lemma MapStepIs(k: Kernel, v: u64, p: u64, flags: u64)
    requires KernelInv(k)
    ensures var c := Allocations(k.frames, 3);
            var r := Map(k.space.root, Heap(k.space.mem, c.answers, []), v, p, flags).1;
            && |r.supply| <= 3
            && Step(k, KMap(v, p, flags)) == Kernel(c.states[3 - |r.supply|], k.space.(mem := r.mem), k.handed)
  {
    var c := Allocations(k.frames, 3);
    SupplyIsFresh(k, c);
    MapTakesInOrder(k.space, Heap(k.space.mem, c.answers, []), v, p, flags);
    NothingReturned(k, c, v, p, flags);
  }

  lemma MapStep(k: Kernel, v: u64, p: u64, flags: u64)
    requires KernelInv(k)
    ensures KernelInv(Step(k, KMap(v, p, flags)))
    ensures forall t :: IsTable(k.space, t) ==> IsTable(Step(k, KMap(v, p, flags)).space, t)
  {
    var c := Allocations(k.frames, 3);
    var h := Heap(k.space.mem, c.answers, []);
    SupplyIsFresh(k, c);
    MapStepIs(k, v, p, flags);
    MapKeepsTree(k.space, h, v, p, flags);
    var r := Map(k.space.root, h, v, p, flags).1;
    AfterAllocations(k, c, 3 - |r.supply|, k.space.(mem := r.mem));
  }

  /** An allocation returns neither a table nor a frame that is still a caller's. */
  lemma AllocReturnsNeither(k: Kernel)
    requires KernelInv(k)
    ensures !IsTable(k.space, Answer(k.frames)) && Answer(k.frames) !in k.handed
  {
    var a := Answer(k.frames);
    if a == INVALID_PHYS && IsTable(k.space, a) { TableAligned(k.space, a); }
  }

  lemma AllocStep(k: Kernel)
    requires KernelInv(k)
    ensures KernelInv(Step(k, KAlloc))
  {
    AllocReturnsNeither(k);
    var a, t := Answer(k.frames), Frame.Alloc(k.frames).s;
    assert Allocates(k.frames, a, t);
  }

  /** Every step keeps the invariant, and tables stay tables. */
  lemma StepKeepsInv(k: Kernel, op: Op)
    requires KernelInv(k) && Obeys(k, op)
    ensures KernelInv(Step(k, op))
    ensures forall t :: IsTable(k.space, t) ==> IsTable(Step(k, op).space, t)
  {
    match op
    case KMap(v, p, flags) => MapStep(k, v, p, flags);
    case KUnmap(v) => UnmapEffect(k.space, v);
    case KAlloc => AllocStep(k);
    case KFree(a) => Frame.StepKeepsInv(k.frames, Frame.DoFree(a));
    case KReserve(b, l) =>
      Frame.StepKeepsInv(k.frames, Frame.DoReserve(b, l));
      var sp := Frame.ReservedSpan(b, l, |k.frames.used|);
      Frame.UseRangeEffect(k.frames, sp.lo, sp.hi);
    case KWrite(a, contents) => WriteStep(k, a, contents);
  }

  /** Writing a frame a caller holds keeps the invariant, the tables and every translation. */
  lemma WriteStep(k: Kernel, a: u64, contents: Table)
    requires KernelInv(k) && a in k.handed
    ensures var r := Step(k, KWrite(a, contents));
            && KernelInv(r) && (forall t :: IsTable(r.space, t) <==> IsTable(k.space, t))
            && (forall v :: Query(r.space, v) == Query(k.space, v))
  {
    assert UsedFrame(k.frames, a);
    assert a == a / PAGE * PAGE && a in k.space.mem;
    OutsideWrite(k.space, a, contents);
  }

  /** Exactly: freeing an address keeps the invariant iff it is not a page table. */
  lemma FreeKeepsIff(k: Kernel, a: u64)
    requires KernelInv(k)
    ensures KernelInv(Step(k, KFree(a))) <==> !IsTable(k.space, a)
  {
    Frame.StepKeepsInv(k.frames, Frame.DoFree(a));
    if IsTable(k.space, a) {
      assert UsedFrame(k.frames, a);
      assert a == a / PAGE * PAGE && Frame.FreeAccepted(k.frames, a);
      assert !UsedFrame(Step(k, KFree(a)).frames, a);
    } else {
      forall x: u64 | UsedFrame(k.frames, x) && x != a ensures UsedFrame(Frame.Free(k.frames, a), x) {
        assert x == x / PAGE * PAGE && a == a / PAGE * PAGE + a % PAGE;
      }
    }
  }

  /** `kernel_vmm_init`: a frame from the allocator becomes the zeroed root. */
  function Boot(frames: Frame.Frames, mem: Memory): Kernel
    requires Frame.Inv(frames) && Frame.Alloc(frames).Got?
  {
    Frame.AllocIsLowestFree(frames);
    var root := Answer(frames);
    Kernel(Frame.Alloc(frames).s, Space(root, mem[root := ZeroTable()]), {})
  }

  lemma BootInv(frames: Frame.Frames, mem: Memory)
    requires Frame.Inv(frames) && Frame.Alloc(frames).Got? && |frames.used| * PAGE <= POW52
    requires forall f :: 0 <= f < |frames.used| ==> f * PAGE in mem
    ensures KernelInv(Boot(frames, mem))
  {
    Frame.AllocIsLowestFree(frames);
    PageRuns.ZeroRootAgrees(Boot(frames, mem).space);
  }

  /** Why callers owe it: free the root of any freshly booted kernel, and the next allocation returns it. */
  lemma FreedRootReturns(frames: Frame.Frames, mem: Memory)
    requires Frame.Inv(frames) && Frame.Alloc(frames).Got?
    ensures var k := Boot(frames, mem);
            var freed := Step(k, KFree(k.space.root));
            && Frame.Inv(freed.frames) && IsTable(freed.space, k.space.root)
            && Answer(freed.frames) == k.space.root
  {
    Frame.AllocIsLowestFree(frames);
    var k := Boot(frames, mem);
    var root := k.space.root;
    assert ValidPath([]) && Walk(k.space, []) == Some(root);
    Frame.FreedComesBack(frames);
    assert root == Frame.Alloc(frames).frame * PAGE;
  }

  ghost predicate ObeysAll(k: Kernel, ops: seq<Op>)
    requires KernelInv(k)
    decreases |ops|
  {
    ops == [] ||
    (Obeys(k, ops[0]) && (StepKeepsInv(k, ops[0]); ObeysAll(Step(k, ops[0]), ops[1..])))
  }

  /** In every run of a booted kernel whose callers free only what they were given, the table frames
      are distinct, non-zero, marked used, nobody else's, and no allocation ever returns one. */
  function Run(k: Kernel, ops: seq<Op>): (r: Kernel)
    requires KernelInv(k) && ObeysAll(k, ops)
    ensures KernelInv(r)
    ensures forall t :: IsTable(k.space, t) ==> IsTable(r.space, t)
    ensures !IsTable(r.space, Answer(r.frames)) && Answer(r.frames) !in r.handed
    decreases |ops|
  {
    if ops == [] then
      AllocReturnsNeither(k);
      k
    else
      StepKeepsInv(k, ops[0]);
      Run(Step(k, ops[0]), ops[1..])
  }

  // ---------- the address space over a run ----------

  /** What a step does to the flat map of the address space. */
  function FlatStep(k: Kernel, flat: PageRuns.Flat, op: Op): PageRuns.Flat
    requires Frame.Inv(k.frames)
  {
    match op
    case KMap(v, p, flags) =>
      var call := PageRuns.MapOp(v, p, flags, Allocations(k.frames, 3).answers);
      PageRuns.FlatStep(flat, call, PageRuns.Step(k.space, call).0)
    case KUnmap(v) => PageRuns.FlatStep(flat, PageRuns.UnmapOp(v), PageRuns.Step(k.space, PageRuns.UnmapOp(v)).0)
    case _ => flat
  }

  lemma StepAgrees(k: Kernel, flat: PageRuns.Flat, op: Op)
    requires KernelInv(k) && Obeys(k, op) && PageRuns.Agrees(k.space, flat)
    ensures PageRuns.Agrees(Step(k, op).space, FlatStep(k, flat, op))
  {
    match op
    case KMap(v, p, flags) =>
      var c := Allocations(k.frames, 3);
      SupplyIsFresh(k, c);
      PageRuns.StepAgrees(k.space, flat, PageRuns.MapOp(v, p, flags, c.answers));
    case KUnmap(v) => PageRuns.StepAgrees(k.space, flat, PageRuns.UnmapOp(v));
    case KWrite(a, contents) => WriteStep(k, a, contents);
    case _ =>
  }

  ghost function FlatRun(k: Kernel, flat: PageRuns.Flat, ops: seq<Op>): PageRuns.Flat
    requires KernelInv(k) && ObeysAll(k, ops)
    decreases |ops|
  {
    if ops == [] then flat
    else
      StepKeepsInv(k, ops[0]);
      FlatRun(Step(k, ops[0]), FlatStep(k, flat, ops[0]), ops[1..])
  }

  lemma {:induction false} RunAgrees(k: Kernel, flat: PageRuns.Flat, ops: seq<Op>)
    requires KernelInv(k) && ObeysAll(k, ops) && PageRuns.Agrees(k.space, flat)
    ensures PageRuns.Agrees(Run(k, ops).space, FlatRun(k, flat, ops))
    decreases |ops|
  {
    if ops != [] {
      StepKeepsInv(k, ops[0]);
      StepAgrees(k, flat, ops[0]);
      RunAgrees(Step(k, ops[0]), FlatStep(k, flat, ops[0]), ops[1..]);
    }
  }

  /** From boot, in every obedient run on the real allocator, query agrees with the flat map at every
      address. */
  lemma BootRunAgrees(frames: Frame.Frames, mem: Memory, ops: seq<Op>)
    requires Frame.Inv(frames) && Frame.Alloc(frames).Got? && |frames.used| * PAGE <= POW52
    requires forall f :: 0 <= f < |frames.used| ==> f * PAGE in mem
    requires (BootInv(frames, mem); ObeysAll(Boot(frames, mem), ops))
    ensures (BootInv(frames, mem);
             var k := Boot(frames, mem); PageRuns.Agrees(Run(k, ops).space, FlatRun(k, map[], ops)))
  {
    BootInv(frames, mem);
    Frame.AllocIsLowestFree(frames);
    PageRuns.ZeroRootAgrees(Boot(frames, mem).space);
    RunAgrees(Boot(frames, mem), map[], ops);
  }
}
