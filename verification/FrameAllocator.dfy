/** The physical frame allocator: a byte bitmap, three counters and a search hint, updated in place. */
module FrameAllocator {
  import opened Words
  import opened FrameModel

  const INVALID_FRAME: u64 := 0xffff_ffff_ffff_ffff

  // ---------- bits of the bitmap ----------

  /** `1U << k`. */
  function Mask(k: nat): bv8
    requires k < 8
  {
    if k == 0 then 1 else if k == 1 then 2 else if k == 2 then 4 else if k == 3 then 8
    else if k == 4 then 16 else if k == 5 then 32 else if k == 6 then 64 else 128
  }

  predicate ByteBit(b: bv8, k: nat)
    requires k < 8
  {
    b & Mask(k) != 0
  }

  function SetByteBit(b: bv8, k: nat): (r: bv8)
    requires k < 8
    ensures forall j :: 0 <= j < 8 ==> ByteBit(r, j) == (j == k || ByteBit(b, j))
  {
    b | Mask(k)
  }

  function ClearByteBit(b: bv8, k: nat): (r: bv8)
    requires k < 8
    ensures forall j :: 0 <= j < 8 ==> ByteBit(r, j) == (j != k && ByteBit(b, j))
  {
    b & !Mask(k)
  }

  predicate TestBit(bytes: seq<bv8>, i: nat)
    requires i / 8 < |bytes|
  {
    ByteBit(bytes[i / 8], i % 8)
  }

  /** `used` is the bitmap read bit by bit. */
  ghost predicate Shows(bytes: seq<bv8>, used: seq<bool>) {
    |used| <= 8 * |bytes| && forall i {:trigger TestBit(bytes, i)} :: 0 <= i < |used| ==> used[i] == TestBit(bytes, i)
  }

  /** Setting or clearing bit `i` of its byte changes bit `i` of the bitmap and no other. */
  lemma BitUpdate(bytes: seq<bv8>, used: seq<bool>, i: nat)
    requires i < |used| && Shows(bytes, used)
    ensures Shows(bytes[i / 8 := SetByteBit(bytes[i / 8], i % 8)], used[i := true])
    ensures Shows(bytes[i / 8 := ClearByteBit(bytes[i / 8], i % 8)], used[i := false])
  {
    var sets := bytes[i / 8 := SetByteBit(bytes[i / 8], i % 8)];
    var clears := bytes[i / 8 := ClearByteBit(bytes[i / 8], i % 8)];
    forall j | 0 <= j < |used|
      ensures TestBit(sets, j) == used[i := true][j]
      ensures TestBit(clears, j) == used[i := false][j]
    {
      assert used[j] == TestBit(bytes, j);
      assert i / 8 == j / 8 && i % 8 == j % 8 ==> i == j;
    }
  }

  class Allocator {
    ghost var used: seq<bool>  // the bitmap, one bit per frame
    var bitmap: array<bv8>
    var maxPhys: u64
    var frameCount: nat
    var freeFrames: nat
    var usedFrames: nat
    var reservedFrames: u64
    var ignoredFrames: u64
    var nextHint: nat
    var initialized: bool

    /** The bitmap covers every frame and the two counters are its clear and set counts. */
    ghost predicate Counted()
      reads this`bitmap, this`used, this`frameCount, this`maxPhys, this`nextHint,
            this`freeFrames, this`usedFrames, bitmap
    {
      && Shows(bitmap[..], used)
      && |used| == frameCount
      && maxPhys == frameCount * PAGE
      && nextHint <= frameCount
      && freeFrames == CountFree(used)
      && usedFrames == frameCount - freeFrames
    }

    ghost predicate Valid()
      reads this, bitmap
    {
      initialized ==> Counted() && Inv(Model())
    }

    ghost function Model(): Frames
      reads this`used, this`nextHint
    {
      Frames(used, nextHint)
    }

    /** The reservation counter grew by the frames taken, in 64 bits. */
    ghost predicate Reserved(before: u64, taken: int)
      reads this`reservedFrames
    {
      0 <= taken < TWO64 &&
      reservedFrames == if before + taken < TWO64 then before + taken else before + taken - TWO64
    }

    constructor ()
      ensures Valid() && !initialized
      ensures fresh(bitmap)
    {
      bitmap := new bv8[0];
      used := [];
      maxPhys, frameCount, freeFrames, usedFrames := 0, 0, 0, 0;
      reservedFrames, ignoredFrames, nextHint, initialized := 0, 0, 0, false;
    }

    method Test(frame: nat) returns (b: bool)
      requires Counted() && frame < frameCount
      ensures b == used[frame]
    {
      b := TestBit(bitmap[..], frame);
    }

    method BitmapSet(frame: nat)
      requires Shows(bitmap[..], used) && frame < |used|
      modifies this`used, bitmap
      ensures Shows(bitmap[..], used) && used == old(used)[frame := true]
    {
      BitUpdate(bitmap[..], used, frame);
      ghost var bytes := bitmap[..];
      bitmap[frame / 8] := SetByteBit(bitmap[frame / 8], frame % 8);
      assert bitmap[..] == bytes[frame / 8 := SetByteBit(bytes[frame / 8], frame % 8)];
      used := used[frame := true];
    }

    method BitmapClear(frame: nat)
      requires Shows(bitmap[..], used) && frame < |used|
      modifies this`used, bitmap
      ensures Shows(bitmap[..], used) && used == old(used)[frame := false]
    {
      BitUpdate(bitmap[..], used, frame);
      ghost var bytes := bitmap[..];
      bitmap[frame / 8] := ClearByteBit(bitmap[frame / 8], frame % 8);
      assert bitmap[..] == bytes[frame / 8 := ClearByteBit(bytes[frame / 8], frame % 8)];
      used := used[frame := false];
    }

    method MarkFrameFree(frame: nat)
      requires Counted()
      modifies this`used, this`freeFrames, this`usedFrames, this`nextHint, bitmap
      ensures Counted() && Model() == MarkFree(old(Model()), frame)
    {
      if frame >= frameCount {
        return;
      }
      var isUsed := Test(frame);
      if isUsed {
        CountUpdate(used, frame, false);
        BitmapClear(frame);
        freeFrames := freeFrames + 1;
        if usedFrames > 0 {
          usedFrames := usedFrames - 1;
        }
        if frame < nextHint {
          nextHint := frame;
        }
      }
    }

    method MarkFrameUsed(frame: nat)
      requires Counted()
      modifies this`used, this`freeFrames, this`usedFrames, bitmap
      ensures Counted() && Model() == MarkUsed(old(Model()), frame)
      ensures freeFrames == old(freeFrames) - (if frame < frameCount && !old(used)[frame] then 1 else 0)
    {
      if frame >= frameCount {
        return;
      }
      var isUsed := Test(frame);
      CountUpdate(used, frame, true);
      if !isUsed {
        BitmapSet(frame);
        if freeFrames > 0 {
          freeFrames := freeFrames - 1;
        }
        usedFrames := usedFrames + 1;
      } else {
        assert used[frame := true] == used;
      }
    }

    /** The loop of `mark_range_free`, from page `lo` up to page `hi`. */
    method FreePages(start: nat, stop: nat, ghost lo: nat, ghost hi: nat)
      requires Counted() && start == lo * PAGE && stop == hi * PAGE && lo <= hi
      modifies this`used, this`freeFrames, this`usedFrames, this`nextHint, bitmap
      ensures Counted() && Model() == FreeRange(old(Model()), lo, hi)
    {
      var addr := start;
      ghost var k := lo;
      while addr < stop
        invariant lo <= k <= hi && addr == k * PAGE
        invariant Counted() && Model() == FreeRange(old(Model()), lo, k)
      {
        assert addr / PAGE == k;
        MarkFrameFree(addr / PAGE);
        addr, k := addr + PAGE, k + 1;
      }
    }

    /** The loop of `mark_range_used`, from page `lo` up to page `hi`. */
    method UsePages(start: nat, stop: nat, ghost lo: nat, ghost hi: nat)
      requires Counted() && start == lo * PAGE && stop == hi * PAGE && lo <= hi <= frameCount
      modifies this`used, this`freeFrames, this`usedFrames, this`reservedFrames, bitmap
      ensures Counted() && Model() == UseRange(old(Model()), lo, hi)
      ensures Reserved(old(reservedFrames), old(freeFrames) - freeFrames)
    {
      var addr := start;
      ghost var k := lo;
      while addr < stop
        invariant lo <= k <= hi && addr == k * PAGE
        invariant Counted() && Model() == UseRange(old(Model()), lo, k)
        invariant Reserved(old(reservedFrames), old(freeFrames) - freeFrames)
      {
        assert addr / PAGE == k;
        var wasUsed := Test(addr / PAGE);
        MarkFrameUsed(addr / PAGE);
        if !wasUsed {
          reservedFrames := Inc64(reservedFrames);
        }
        addr, k := addr + PAGE, k + 1;
      }
    }

    /** Counts the whole pages of a usable range that lie beyond the machine, and clips the range. */
    method ClipEnd(end: nat) returns (stop: nat)
      requires end < TWO64
      modifies this`ignoredFrames
      ensures stop == Min(end, maxPhys)
      ensures ignoredFrames == Wrap64(old(ignoredFrames) + if end <= maxPhys then 0 else (end - maxPhys) / PAGE)
    {
      stop := end;
      if stop > maxPhys {
        stop := maxPhys;
        ignoredFrames := Wrap64(ignoredFrames + (end - stop) / PAGE);
      }
    }

    method MarkRangeFree(base: u64, length: u64)
      requires Counted()
      modifies this`used, this`freeFrames, this`usedFrames, this`nextHint, this`ignoredFrames, bitmap
      ensures Counted()
      ensures var sp := FreedSpan(base, length, frameCount);
              Model() == FreeRange(old(Model()), sp.lo, sp.hi)
      ensures ignoredFrames == Wrap64(old(ignoredFrames) + IgnoredPages(base, length, frameCount))
    {
      if length == 0 || base + length >= TWO64 {
        return;
      }
      var start, end := AlignUp(base), AlignDown(base + length);
      if end <= start || start >= maxPhys {
        return;
      }
      ghost var sp := FreedSpan(base, length, frameCount);
      SpanPages(base, length, frameCount);
      var stop := ClipEnd(end);
      FreePages(start, stop, sp.lo, sp.hi);
    }

    method MarkRangeUsed(base: u64, length: u64)
      requires Counted()
      modifies this`used, this`freeFrames, this`usedFrames, this`reservedFrames, bitmap
      ensures Counted()
      ensures var sp := ReservedSpan(base, length, frameCount);
              Model() == UseRange(old(Model()), sp.lo, sp.hi)
      ensures Reserved(old(reservedFrames), old(freeFrames) - freeFrames)
    {
      if length == 0 || base + length >= TWO64 {
        return;
      }
      var start, stop := AlignDown(base), AlignUp(base + length);
      if stop <= start || start >= maxPhys {
        return;
      }
      if stop > maxPhys {
        stop := maxPhys;
      }
      ghost var sp := ReservedSpan(base, length, frameCount);
      SpanPages(base, length, frameCount);
      UsePages(start, stop, sp.lo, sp.hi);
    }

    /** Every frame used: the state initialisation starts from. */
    method FillBitmap(storage: array<bv8>, count: nat, maxPhysBytes: u64)
      requires count * PAGE == maxPhysBytes && (count + 7) / 8 <= storage.Length
      modifies this, storage
      ensures bitmap == storage && frameCount == count && !initialized
      ensures Counted() && Model() == Frames(seq(count, _ => true), 0)
      ensures reservedFrames == ignoredFrames == 0
    {
      bitmap, maxPhys, frameCount := storage, maxPhysBytes, count;
      freeFrames, usedFrames, reservedFrames, ignoredFrames := 0, count, 0, 0;
      nextHint, initialized := 0, false;
      for i := 0 to (count + 7) / 8
        invariant bitmap == storage && frameCount == count && maxPhys == maxPhysBytes
        invariant freeFrames == nextHint == 0 && usedFrames == count && !initialized
        invariant reservedFrames == ignoredFrames == 0
        invariant forall j :: 0 <= j < i ==> storage[j] == 0xff
      {
        storage[i] := 0xff;
      }
      used := seq(count, _ => true);
      AllOnes(bitmap[..], used);
      CountAllUsed(count);
    }

    method OpenUsable(regions: seq<Region>)
      requires Counted()
      modifies this`used, this`freeFrames, this`usedFrames, this`nextHint, this`ignoredFrames, bitmap
      ensures Counted() && Model() == FreeRegions(old(Model()), regions)
    {
      for i := 0 to |regions|
        invariant Counted() && Model() == FreeRegions(old(Model()), regions[..i])
      {
        assert regions[..i + 1][..i] == regions[..i];
        if regions[i].Usable() {
          MarkRangeFree(regions[i].base, regions[i].length);
        }
      }
      assert regions[..|regions|] == regions;
    }

    method CloseOthers(regions: seq<Region>)
      requires Counted()
      modifies this`used, this`freeFrames, this`usedFrames, this`reservedFrames, bitmap
      ensures Counted() && Model() == ReserveRegions(old(Model()), regions)
    {
      for i := 0 to |regions|
        invariant Counted() && Model() == ReserveRegions(old(Model()), regions[..i])
      {
        assert regions[..i + 1][..i] == regions[..i];
        if !regions[i].Usable() {
          MarkRangeUsed(regions[i].base, regions[i].length);
        }
      }
      assert regions[..|regions|] == regions;
    }

    /** Boots on a memory map. `storageBytes` is the caller's claim about the size of `storage`. */
    method InitFromMap(regions: seq<Region>, storage: array<bv8>, storageBytes: u64, maxPhysBytes: u64)
      returns (ok: bool)
      requires storageBytes <= storage.Length
      modifies this, storage
      ensures ok <==> regions != [] && maxPhysBytes != 0 && maxPhysBytes % PAGE == 0 &&
                      (maxPhysBytes / PAGE + 7) / 8 <= storageBytes
      ensures ok ==> Valid() && initialized && bitmap == storage
      ensures ok ==> frameCount == maxPhysBytes / PAGE && Model() == InitFrames(regions, frameCount)
      ensures !ok ==> unchanged(this) && unchanged(storage)
    {
      if regions == [] {
        return false;
      }
      if maxPhysBytes == 0 || maxPhysBytes % PAGE != 0 {
        return false;
      }
      var count := maxPhysBytes / PAGE;
      if storageBytes < (count + 7) / 8 {
        return false;
      }
      FillBitmap(storage, count, maxPhysBytes);
      OpenUsable(regions);
      MarkRangeUsed(0, PAGE);  // frame 0 is never handed out
      CloseOthers(regions);
      InitFramesEffect(regions, count);
      initialized := true;
      return true;
    }

    static lemma AllOnes(bytes: seq<bv8>, used: seq<bool>)
      requires |used| <= 8 * |bytes|
      requires forall j :: 0 <= j < (|used| + 7) / 8 ==> bytes[j] == 0xff
      requires forall i :: 0 <= i < |used| ==> used[i]
      ensures Shows(bytes, used)
    {
    }

    /** One scan of `pmm_alloc_frame`. */
    method Scan(lo: nat, hi: nat) returns (frame: nat)
      requires Counted() && lo <= hi <= frameCount
      ensures frame == FirstFree(used, lo, hi)
    {
      frame := lo;
      while frame < hi
        invariant lo <= frame <= hi && FirstFree(used, lo, hi) == FirstFree(used, frame, hi)
      {
        var isUsed := Test(frame);
        if !isUsed {
          return;
        }
        frame := frame + 1;
      }
    }

    /** Takes the frame `Alloc` prescribes and returns its address. The counters and the bitmap must
        agree; that no free frame lies below the hint is not needed to run, only to find the lowest. */
    method AllocFrame() returns (addr: u64)
      requires initialized ==> Counted()
      modifies this`used, this`freeFrames, this`usedFrames, this`nextHint, bitmap
      ensures !initialized ==> addr == INVALID_FRAME && unchanged(this) && unchanged(bitmap)
      ensures initialized ==> Counted() && Model() == Alloc(old(Model())).s
      ensures initialized ==> match Alloc(old(Model()))
                              case Got(f, _) => addr == f * PAGE
                              case NoFrame(_) => addr == INVALID_FRAME
      ensures old(Valid()) ==> Valid()
    {
      if Valid() && initialized { StepKeepsInv(Model(), DoAlloc); }
      if !initialized || freeFrames == 0 {
        return INVALID_FRAME;
      }
      var frame := Scan(nextHint, frameCount);
      if frame < frameCount {
        MarkFrameUsed(frame);
        nextHint := frame + 1;
        return frame * PAGE;
      }
      frame := Scan(0, nextHint);
      if frame < nextHint {
        MarkFrameUsed(frame);
        nextHint := frame + 1;
        return frame * PAGE;
      }
      return INVALID_FRAME;
    }

    method FreeFrame(addr: u64) returns (ok: bool)
      requires initialized ==> Counted()
      modifies this`used, this`freeFrames, this`usedFrames, this`nextHint, bitmap
      ensures !initialized ==> !ok && unchanged(this) && unchanged(bitmap)
      ensures initialized ==> Counted() && Model() == Free(old(Model()), addr)
      ensures initialized ==> (ok <==> FreeAccepted(old(Model()), addr))
      ensures old(Valid()) ==> Valid()
    {
      if Valid() && initialized { StepKeepsInv(Model(), DoFree(addr)); }
      if !initialized {
        return false;
      }
      if addr % PAGE != 0 || addr == 0 || addr >= maxPhys {
        return false;
      }
      var frame := addr / PAGE;
      var isUsed := Test(frame);
      if !isUsed {
        return false;
      }
      MarkFrameFree(frame);
      return true;
    }

    method ReserveRange(base: u64, length: u64) returns (ok: bool)
      requires initialized ==> Counted()
      modifies this`used, this`freeFrames, this`usedFrames, this`reservedFrames, bitmap
      ensures ok <==> initialized && length != 0
      ensures !ok ==> unchanged(this) && unchanged(bitmap)
      ensures initialized ==> Counted() && Model() == Reserve(old(Model()), base, length)
      ensures Reserved(old(reservedFrames), old(freeFrames) - freeFrames)
      ensures old(Valid()) ==> Valid()
    {
      if Valid() && initialized { StepKeepsInv(Model(), DoReserve(base, length)); }
      if !initialized || length == 0 {
        return false;
      }
      MarkRangeUsed(base, length);
      return true;
    }
  }
}
