/** The frame allocator as a value: one bit per frame and the search hint. The class
    `FrameAllocator.Allocator` is proved to compute exactly these functions on its bitmap. */
module FrameModel {
  import opened Words

  const BOOT_MEM_USABLE := 1

  datatype Region = Region(base: u64, length: u64, kind: nat) {
    predicate Usable() { kind == BOOT_MEM_USABLE }
  }

  datatype Frames = Frames(used: seq<bool>, hint: nat)

  // ---------- single frames ----------

  function CountFree(used: seq<bool>): (n: nat)
    ensures n <= |used|
  {
    if used == [] then 0
    else CountFree(used[..|used| - 1]) + (if used[|used| - 1] then 0 else 1)
  }

  function MarkFree(s: Frames, f: nat): Frames {
    if f < |s.used| && s.used[f] then Frames(s.used[f := false], Min(f, s.hint)) else s
  }

  function MarkUsed(s: Frames, f: nat): Frames {
    if f < |s.used| then s.(used := s.used[f := true]) else s
  }

  function FreeRange(s: Frames, lo: nat, hi: nat): Frames
    decreases hi
  {
    if hi <= lo then s else MarkFree(FreeRange(s, lo, hi - 1), hi - 1)
  }

  function UseRange(s: Frames, lo: nat, hi: nat): Frames
    decreases hi
  {
    if hi <= lo then s else MarkUsed(UseRange(s, lo, hi - 1), hi - 1)
  }

  /** Flipping one bit moves the free count by one. */
  lemma {:induction false} CountUpdate(used: seq<bool>, f: nat, b: bool)
    requires f < |used|
    ensures CountFree(used[f := b]) ==
            CountFree(used) + (if used[f] then 1 else 0) - (if b then 1 else 0)
    decreases |used|
  {
    var n := |used| - 1;
    var after := used[f := b];
    if f == n {
      assert after[..n] == used[..n];
    } else {
      assert after[..n] == used[..n][f := b];
      CountUpdate(used[..n], f, b);
    }
  }

  lemma {:induction false} CountZero(used: seq<bool>)
    ensures CountFree(used) == 0 <==> forall i :: 0 <= i < |used| ==> used[i]
  {
    if used != [] { CountZero(used[..|used| - 1]); }
  }

  lemma {:induction false} CountAllUsed(n: nat)
    ensures CountFree(seq(n, _ => true)) == 0
  {
    CountZero(seq(n, _ => true));
  }

  // ---------- regions of the boot memory map ----------

  datatype Span = Span(lo: nat, hi: nat) {
    predicate Has(f: nat) { lo <= f < hi }
  }

  /** The frames `mark_range_free` visits: base rounded up, end rounded down, clipped to `n` frames. */
  function FreedSpan(base: u64, length: u64, n: nat): Span {
    if length == 0 || base + length >= TWO64 then Span(0, 0)
    else
      var start, stop := AlignUp(base), AlignDown(base + length);
      if stop <= start || start >= n * PAGE then Span(0, 0)
      else Span(start / PAGE, Min(stop, n * PAGE) / PAGE)
  }

  /** The page count `mark_range_free` reports as beyond the machine. */
  function IgnoredPages(base: u64, length: u64, n: nat): nat {
    if length == 0 || base + length >= TWO64 then 0
    else
      var start, stop := AlignUp(base), AlignDown(base + length);
      if stop <= start || start >= n * PAGE || stop <= n * PAGE then 0 else (stop - n * PAGE) / PAGE
  }

  /** The frames `mark_range_used` visits: base rounded down, end rounded up, clipped to `n` frames. */
  function ReservedSpan(base: u64, length: u64, n: nat): Span {
    if length == 0 || base + length >= TWO64 then Span(0, 0)
    else
      var start, stop := AlignDown(base), AlignUp(base + length);
      if stop <= start || start >= n * PAGE then Span(0, 0)
      else Span(start / PAGE, Min(stop, n * PAGE) / PAGE)
  }

  lemma PageCount(start: nat, stop: nat, n: nat)
    requires start % 4096 == 0 && stop % 4096 == 0 && start < stop && start < n * 4096
    ensures start / 4096 * 4096 == start && Min(stop, n * 4096) / 4096 * 4096 == Min(stop, n * 4096)
    ensures start / 4096 <= Min(stop, n * 4096) / 4096 <= n
  {
  }

  /** Both roundings end on page boundaries, so the spans are exact page counts. */
  lemma SpanPages(base: u64, length: u64, n: nat)
    requires length != 0 && base + length < TWO64 && n * PAGE < TWO64
    ensures var start, stop := AlignUp(base), AlignDown(base + length);
            start < stop && start < n * PAGE ==>
              var sp := FreedSpan(base, length, n);
              sp.lo * PAGE == start && sp.hi * PAGE == Min(stop, n * PAGE) && sp.lo <= sp.hi <= n
    ensures var start, stop := AlignDown(base), AlignUp(base + length);
            start < stop && start < n * PAGE ==>
              var sp := ReservedSpan(base, length, n);
              sp.lo * PAGE == start && sp.hi * PAGE == Min(stop, n * PAGE) && sp.lo <= sp.hi <= n
  {
    Rounded(base);
    Rounded(base + length);
    var up, down := AlignUp(base), AlignDown(base + length);
    if up < down && up < n * PAGE { PageCount(up, down, n); }
    var low, high := AlignDown(base), AlignUp(base + length);
    if low < high && low < n * PAGE { PageCount(low, high, n); }
  }

  /** Of a usable region that begins below the machine's end, every whole page is freed or counted as ignored. */
  lemma PagesConserved(base: u64, length: u64, n: nat)
    requires length != 0 && base + length < TWO64 && n * PAGE < TWO64
    requires AlignUp(base) < n * PAGE && AlignUp(base) <= AlignDown(base + length)
    ensures var sp := FreedSpan(base, length, n);
            sp.hi - sp.lo + IgnoredPages(base, length, n) == (AlignDown(base + length) - AlignUp(base)) / PAGE
  {
    SpanPages(base, length, n);
  }

  function RegionSpan(r: Region, n: nat): Span {
    if r.Usable() then FreedSpan(r.base, r.length, n) else ReservedSpan(r.base, r.length, n)
  }

  function FreeRegions(s: Frames, regions: seq<Region>): Frames {
    if regions == [] then s
    else
      var r := regions[|regions| - 1];
      var t := FreeRegions(s, regions[..|regions| - 1]);
      if r.Usable() then var sp := RegionSpan(r, |s.used|); FreeRange(t, sp.lo, sp.hi) else t
  }

  function ReserveRegions(s: Frames, regions: seq<Region>): Frames {
    if regions == [] then s
    else
      var r := regions[|regions| - 1];
      var t := ReserveRegions(s, regions[..|regions| - 1]);
      if r.Usable() then t else var sp := RegionSpan(r, |s.used|); UseRange(t, sp.lo, sp.hi)
  }

  /** `pmm_init_from_map`: all used, open the usable regions, close frame 0, close the rest. */
  function InitFrames(regions: seq<Region>, n: nat): Frames {
    var open := FreeRegions(Frames(seq(n, _ => true), 0), regions);
    var zero := ReservedSpan(0, PAGE, n);
    ReserveRegions(UseRange(open, zero.lo, zero.hi), regions)
  }

  // ---------- what the ranges do ----------

  lemma {:induction false} FreeRangeEffect(s: Frames, lo: nat, hi: nat)
    ensures var t := FreeRange(s, lo, hi);
            && |t.used| == |s.used|
            && (forall f :: 0 <= f < |s.used| ==> t.used[f] == (s.used[f] && !(lo <= f < hi)))
            && (HintBelow(s) ==> HintBelow(t))
    decreases hi
  {
    if lo < hi { FreeRangeEffect(s, lo, hi - 1); }
  }

  lemma {:induction false} UseRangeCount(s: Frames, lo: nat, hi: nat, n: nat)
    requires CountFree(s.used) == n
    ensures CountFree(UseRange(s, lo, hi).used) <= n
    decreases hi
  {
    if lo < hi {
      UseRangeCount(s, lo, hi - 1, n);
      MarkUsedCount(UseRange(s, lo, hi - 1), hi - 1);
    }
  }

  lemma MarkUsedCount(t: Frames, f: nat)
    ensures CountFree(MarkUsed(t, f).used) <= CountFree(t.used)
  {
    if f < |t.used| { CountUpdate(t.used, f, true); }
  }

  lemma {:induction false} UseRangeBits(s: Frames, lo: nat, hi: nat)
    ensures var t := UseRange(s, lo, hi);
            && |t.used| == |s.used| && t.hint == s.hint
            && (forall f :: 0 <= f < |s.used| ==> t.used[f] == (s.used[f] || lo <= f < hi))
    decreases hi
  {
    if lo < hi { UseRangeBits(s, lo, hi - 1); }
  }

  lemma UseRangeEffect(s: Frames, lo: nat, hi: nat)
    ensures var t := UseRange(s, lo, hi);
            && |t.used| == |s.used| && t.hint == s.hint
            && (forall f :: 0 <= f < |s.used| ==> t.used[f] == (s.used[f] || lo <= f < hi))
            && CountFree(t.used) <= CountFree(s.used)
  {
    UseRangeBits(s, lo, hi);
    UseRangeCount(s, lo, hi, CountFree(s.used));
  }

  ghost predicate Opens(regions: seq<Region>, n: nat, f: nat) {
    exists i :: 0 <= i < |regions| && regions[i].Usable() && RegionSpan(regions[i], n).Has(f)
  }

  ghost predicate Closes(regions: seq<Region>, n: nat, f: nat) {
    exists i :: 0 <= i < |regions| && !regions[i].Usable() && RegionSpan(regions[i], n).Has(f)
  }

  lemma OpensStep(regions: seq<Region>, n: nat, f: nat)
    requires regions != []
    ensures var k := |regions| - 1;
            Opens(regions, n, f) <==>
            Opens(regions[..k], n, f) || (regions[k].Usable() && RegionSpan(regions[k], n).Has(f))
  {
    var k := |regions| - 1;
    var before := regions[..k];
    if Opens(before, n, f) {
      var i :| 0 <= i < k && before[i].Usable() && RegionSpan(before[i], n).Has(f);
      assert regions[i] == before[i];
    }
    if Opens(regions, n, f) {
      var i :| 0 <= i < |regions| && regions[i].Usable() && RegionSpan(regions[i], n).Has(f);
      if i < k { assert before[i] == regions[i]; }
    }
  }

  lemma ClosesStep(regions: seq<Region>, n: nat, f: nat)
    requires regions != []
    ensures var k := |regions| - 1;
            Closes(regions, n, f) <==>
            Closes(regions[..k], n, f) || (!regions[k].Usable() && RegionSpan(regions[k], n).Has(f))
  {
    var k := |regions| - 1;
    var before := regions[..k];
    if Closes(before, n, f) {
      var i :| 0 <= i < k && !before[i].Usable() && RegionSpan(before[i], n).Has(f);
      assert regions[i] == before[i];
    }
    if Closes(regions, n, f) {
      var i :| 0 <= i < |regions| && !regions[i].Usable() && RegionSpan(regions[i], n).Has(f);
      if i < k { assert before[i] == regions[i]; }
    }
  }

  lemma {:induction false} FreeRegionsEffect(s: Frames, regions: seq<Region>)
    ensures var t := FreeRegions(s, regions);
            && |t.used| == |s.used|
            && (forall f :: 0 <= f < |s.used| ==>
                  t.used[f] == (s.used[f] && !Opens(regions, |s.used|, f)))
            && (HintBelow(s) ==> HintBelow(t))
  {
    if regions != [] {
      var k := |regions| - 1;
      FreeRegionsEffect(s, regions[..k]);
      var sp := RegionSpan(regions[k], |s.used|);
      FreeRangeEffect(FreeRegions(s, regions[..k]), sp.lo, sp.hi);
      forall f | 0 <= f < |s.used|
        ensures FreeRegions(s, regions).used[f] == (s.used[f] && !Opens(regions, |s.used|, f))
      {
        OpensStep(regions, |s.used|, f);
      }
    }
  }

  lemma {:induction false} ReserveRegionsEffect(s: Frames, regions: seq<Region>)
    ensures var t := ReserveRegions(s, regions);
            && |t.used| == |s.used| && t.hint == s.hint
            && (forall f :: 0 <= f < |s.used| ==>
                  t.used[f] == (s.used[f] || Closes(regions, |s.used|, f)))
  {
    if regions != [] {
      var k := |regions| - 1;
      ReserveRegionsEffect(s, regions[..k]);
      var sp := RegionSpan(regions[k], |s.used|);
      UseRangeEffect(ReserveRegions(s, regions[..k]), sp.lo, sp.hi);
      forall f | 0 <= f < |s.used|
        ensures ReserveRegions(s, regions).used[f] == (s.used[f] || Closes(regions, |s.used|, f))
      {
        ClosesStep(regions, |s.used|, f);
      }
    }
  }

  // ---------- what a region means ----------

  predicate WhollyInside(r: Region, f: nat) {
    r.base <= f * PAGE && (f + 1) * PAGE <= r.base + r.length
  }

  predicate Touches(r: Region, f: nat) {
    r.length > 0 && r.base < (f + 1) * PAGE && f * PAGE < r.base + r.length
  }

  /** A usable region should open the frames it covers, any other region close those it touches. */
  predicate Covers(r: Region, f: nat) {
    if r.Usable() then WhollyInside(r, f) else Touches(r, f)
  }

  /** The regions whose rounding does not overflow inside the `n` frames of the machine. */
  predicate Representable(r: Region, n: nat) {
    || r.length == 0
    || (if r.Usable() then
          (if r.base + r.length < TWO64 then r.base <= TWO64 - PAGE else r.base > (n - 1) * PAGE)
        else
          r.base + r.length <= TWO64 - PAGE || r.base >= n * PAGE)
  }

  predicate Sized(n: nat) {
    1 <= n && n * PAGE < TWO64
  }

  lemma UsableSpan(r: Region, n: nat, f: nat)
    requires Sized(n) && Representable(r, n) && f < n && r.Usable()
    ensures FreedSpan(r.base, r.length, n).Has(f) <==> WhollyInside(r, f)
  {
    if r.length != 0 && r.base + r.length < TWO64 {
      SpanPages(r.base, r.length, n);
      AlignUpBound(r.base, f);
      AlignDownBound(r.base + r.length, f + 1);
    }
  }

  lemma OtherSpan(r: Region, n: nat, f: nat)
    requires Sized(n) && Representable(r, n) && f < n && !r.Usable()
    ensures ReservedSpan(r.base, r.length, n).Has(f) <==> Touches(r, f)
  {
    if r.length != 0 && r.base + r.length <= TWO64 - PAGE {
      SpanPages(r.base, r.length, n);
      AlignDownBound(r.base, f);
      AlignUpBound(r.base + r.length, f);
    }
  }

  lemma RepresentableSpan(r: Region, n: nat, f: nat)
    requires Sized(n) && Representable(r, n) && f < n
    ensures RegionSpan(r, n).Has(f) <==> Covers(r, f)
  {
    if r.Usable() { UsableSpan(r, n, f); } else { OtherSpan(r, n, f); }
  }

  lemma WrapSpan(r: Region, n: nat)
    requires Sized(n) && !Representable(r, n) && r.Usable() && r.base + r.length < TWO64
    ensures FreedSpan(r.base, r.length, n) == Span(0, n) && forall f :: 0 <= f < n ==> !WhollyInside(r, f)
  {
    AlignUpWraps(r.base);
    AlignDownBound(r.base + r.length, n);
    PageCount(0, n * 4096, n);
  }

  lemma LostSpan(r: Region, n: nat)
    requires Sized(n) && !Representable(r, n) && !r.Usable()
    ensures ReservedSpan(r.base, r.length, n) == Span(0, 0) && Touches(r, n - 1)
  {
    if r.base + r.length < TWO64 { AlignUpWraps(r.base + r.length); }
  }

  lemma UnrepresentableSpan(r: Region, n: nat)
    requires Sized(n) && !Representable(r, n)
    ensures r.Usable() && r.base + r.length < TWO64 ==>
              RegionSpan(r, n) == Span(0, n) && forall f :: 0 <= f < n ==> !WhollyInside(r, f)
    ensures r.Usable() && r.base + r.length >= TWO64 ==>
              RegionSpan(r, n) == Span(0, 0) && WhollyInside(r, n - 1)
    ensures !r.Usable() ==> RegionSpan(r, n) == Span(0, 0) && Touches(r, n - 1)
  {
    if !r.Usable() {
      LostSpan(r, n);
    } else if r.base + r.length < TWO64 {
      WrapSpan(r, n);
    }
  }

  ghost predicate ShouldBeFree(regions: seq<Region>, f: nat) {
    && f != 0
    && (exists i :: 0 <= i < |regions| && regions[i].Usable() && WhollyInside(regions[i], f))
    && (forall i :: 0 <= i < |regions| && !regions[i].Usable() ==> !Touches(regions[i], f))
  }

  /** The memory map is honoured: a frame is free exactly when the regions say it should be. */
  ghost predicate Honoured(regions: seq<Region>, n: nat) {
    var s := InitFrames(regions, n);
    |s.used| == n && forall f :: 0 <= f < n ==> s.used[f] == !ShouldBeFree(regions, f)
  }

  /** What initialisation computes on any map, whatever the order or overlap of its regions. */
  lemma {:induction false} InitFramesEffect(regions: seq<Region>, n: nat)
    requires Sized(n)
    ensures var s := InitFrames(regions, n);
            && |s.used| == n && HintBelow(s) && s.used[0]
            && (forall f :: 0 <= f < n ==>
                  (!s.used[f] <==> f != 0 && Opens(regions, n, f) && !Closes(regions, n, f)))
  {
    var start := Frames(seq(n, _ => true), 0);
    FreeRegionsEffect(start, regions);
    var open := FreeRegions(start, regions);
    var zero := ReservedSpan(0, PAGE, n);
    assert zero == Span(0, 1);
    UseRangeEffect(open, 0, 1);
    ReserveRegionsEffect(UseRange(open, 0, 1), regions);
  }

  lemma RepresentableMapHonoured(regions: seq<Region>, n: nat)
    requires Sized(n)
    requires forall i :: 0 <= i < |regions| ==> Representable(regions[i], n)
    ensures Honoured(regions, n)
  {
    InitFramesEffect(regions, n);
    forall f | 0 <= f < n
      ensures Opens(regions, n, f) <==>
              exists i :: 0 <= i < |regions| && regions[i].Usable() && WhollyInside(regions[i], f)
      ensures Closes(regions, n, f) <==>
              exists i :: 0 <= i < |regions| && !regions[i].Usable() && Touches(regions[i], f)
    {
      forall i | 0 <= i < |regions|
        ensures RegionSpan(regions[i], n).Has(f) <==> Covers(regions[i], f)
      {
        RepresentableSpan(regions[i], n, f);
      }
    }
  }

  /** A usable region that is not representable is not honoured even alone. */
  lemma UsableNotHonoured(r: Region, n: nat)
    requires Sized(n) && n >= 2 && !Representable(r, n) && r.Usable()
    ensures !Honoured([r], n)
  {
    var regions, last := [r], n - 1;
    UnrepresentableSpan(r, n);
    InitFramesEffect(regions, n);
    assert Opens(regions, n, last) <==> RegionSpan(regions[0], n).Has(last);
    assert !Closes(regions, n, last);
    assert ShouldBeFree(regions, last) <==> WhollyInside(regions[0], last);
    assert InitFrames(regions, n).used[last] != !ShouldBeFree(regions, last);
  }

  /** Any other region that is not representable is not honoured over a usable machine. */
  lemma OtherNotHonoured(r: Region, n: nat)
    requires Sized(n) && n >= 2 && !Representable(r, n) && !r.Usable()
    ensures var all := Region(0, n * PAGE, BOOT_MEM_USABLE);
            Representable(all, n) && !Honoured([all, r], n)
  {
    var all := Region(0, n * PAGE, BOOT_MEM_USABLE);
    var regions, last := [all, r], n - 1;
    UnrepresentableSpan(r, n);
    UsableSpan(all, n, last);
    InitFramesEffect(regions, n);
    assert regions[0] == all && regions[1] == r && RegionSpan(regions[0], n).Has(last);
    assert !Closes(regions, n, last);
    assert !ShouldBeFree(regions, last);
    assert InitFrames(regions, n).used[last] != !ShouldBeFree(regions, last);
  }

  /** Exactness: a region is representable iff every otherwise representable map with it is honoured. */
  lemma MapHonouredIff(r: Region, n: nat)
    requires Sized(n) && n >= 2
    ensures Representable(r, n) <==>
            forall rest: seq<Region> ::
              (forall i :: 0 <= i < |rest| ==> Representable(rest[i], n)) ==> Honoured(rest + [r], n)
  {
    if Representable(r, n) {
      forall rest: seq<Region> | forall i :: 0 <= i < |rest| ==> Representable(rest[i], n)
        ensures Honoured(rest + [r], n)
      {
        RepresentableMapHonoured(rest + [r], n);
      }
    } else if r.Usable() {
      UsableNotHonoured(r, n);
      var rest: seq<Region> := [];
      assert rest + [r] == [r];
    } else {
      OtherNotHonoured(r, n);
      var all := Region(0, n * PAGE, BOOT_MEM_USABLE);
      assert [all] + [r] == [all, r];
    }
  }

  // The parts of a map, frame by frame: what its representable regions say, and what the others add or lose.

  predicate SoundlyUsable(r: Region, n: nat, f: nat) { r.Usable() && Representable(r, n) && WhollyInside(r, f) }
  predicate WrapsRound(r: Region, n: nat) { r.Usable() && !Representable(r, n) && r.base + r.length < TWO64 }
  predicate CutOff(r: Region, n: nat, f: nat) {
    r.Usable() && !Representable(r, n) && r.base + r.length >= TWO64 && WhollyInside(r, f)
  }
  predicate SoundlyReserved(r: Region, n: nat, f: nat) { !r.Usable() && Representable(r, n) && Touches(r, f) }
  predicate Missed(r: Region, n: nat, f: nat) { !r.Usable() && !Representable(r, n) && Touches(r, f) }

  ghost predicate SomeUsable(regions: seq<Region>, n: nat, f: nat) {
    exists i :: 0 <= i < |regions| && SoundlyUsable(regions[i], n, f)
  }
  ghost predicate SomeWraps(regions: seq<Region>, n: nat) {
    exists i :: 0 <= i < |regions| && WrapsRound(regions[i], n)
  }
  ghost predicate SomeCutOff(regions: seq<Region>, n: nat, f: nat) {
    exists i :: 0 <= i < |regions| && CutOff(regions[i], n, f)
  }
  ghost predicate SomeReserved(regions: seq<Region>, n: nat, f: nat) {
    exists i :: 0 <= i < |regions| && SoundlyReserved(regions[i], n, f)
  }
  ghost predicate SomeMissed(regions: seq<Region>, n: nat, f: nat) {
    exists i :: 0 <= i < |regions| && Missed(regions[i], n, f)
  }

  lemma SpanIs(r: Region, n: nat, f: nat)
    requires Sized(n) && f < n
    ensures RegionSpan(r, n).Has(f) <==> SoundlyUsable(r, n, f) || WrapsRound(r, n) || SoundlyReserved(r, n, f)
    ensures r.Usable() && WhollyInside(r, f) <==> SoundlyUsable(r, n, f) || CutOff(r, n, f)
    ensures !r.Usable() && Touches(r, f) <==> SoundlyReserved(r, n, f) || Missed(r, n, f)
  {
    if Representable(r, n) { RepresentableSpan(r, n, f); } else { UnrepresentableSpan(r, n); }
  }

  lemma OpensIs(regions: seq<Region>, n: nat, f: nat)
    requires Sized(n) && f < n
    ensures Opens(regions, n, f) <==> SomeUsable(regions, n, f) || SomeWraps(regions, n)
  {
    forall i | 0 <= i < |regions|
      ensures regions[i].Usable() && RegionSpan(regions[i], n).Has(f) <==>
              SoundlyUsable(regions[i], n, f) || WrapsRound(regions[i], n)
    {
      SpanIs(regions[i], n, f);
    }
  }

  lemma ClosesIs(regions: seq<Region>, n: nat, f: nat)
    requires Sized(n) && f < n
    ensures Closes(regions, n, f) <==> SomeReserved(regions, n, f)
  {
    forall i | 0 <= i < |regions|
      ensures !regions[i].Usable() && RegionSpan(regions[i], n).Has(f) <==> SoundlyReserved(regions[i], n, f)
    {
      SpanIs(regions[i], n, f);
    }
  }

  lemma ShouldIs(regions: seq<Region>, n: nat, f: nat)
    requires Sized(n) && f < n
    ensures ShouldBeFree(regions, f) <==>
            && f != 0 && (SomeUsable(regions, n, f) || SomeCutOff(regions, n, f))
            && !SomeReserved(regions, n, f) && !SomeMissed(regions, n, f)
  {
    forall i | 0 <= i < |regions|
      ensures regions[i].Usable() && WhollyInside(regions[i], f) <==>
              SoundlyUsable(regions[i], n, f) || CutOff(regions[i], n, f)
      ensures !regions[i].Usable() && Touches(regions[i], f) <==>
              SoundlyReserved(regions[i], n, f) || Missed(regions[i], n, f)
    {
      SpanIs(regions[i], n, f);
    }
  }

  /** What a map must satisfy at a frame: a representable reserved region closes it anyway; a reserved region
      that is missed must have nothing to close; a region that wraps or is cut off must be masked by a usable
      one, or they must cancel. */
  ghost predicate Masked(regions: seq<Region>, n: nat, f: nat) {
    SomeReserved(regions, n, f) ||
    if SomeMissed(regions, n, f) then !SomeUsable(regions, n, f) && !SomeWraps(regions, n)
    else SomeUsable(regions, n, f) || (SomeWraps(regions, n) <==> SomeCutOff(regions, n, f))
  }

  /** Exactly which maps are honoured, whatever regions they hold. */
  lemma HonouredIffMasked(regions: seq<Region>, n: nat)
    requires Sized(n)
    ensures Honoured(regions, n) <==> forall f :: 0 < f < n ==> Masked(regions, n, f)
  {
    InitFramesEffect(regions, n);
    forall f | 0 <= f < n
      ensures InitFrames(regions, n).used[f] == !ShouldBeFree(regions, f) <==> f == 0 || Masked(regions, n, f)
    {
      OpensIs(regions, n, f);
      ClosesIs(regions, n, f);
      ShouldIs(regions, n, f);
    }
  }

  /** A 50-byte usable region in the last page of the address space opens the whole machine. */
  lemma LastPageWrapsToZero(n: nat, f: nat)
    requires Sized(n) && 0 < f < n
    ensures var regions := [Region(TWO64 - 100, 50, BOOT_MEM_USABLE)];
            var s := InitFrames(regions, n);
            |s.used| == n && !s.used[f] && !ShouldBeFree(regions, f)
  {
    var regions := [Region(TWO64 - 100, 50, BOOT_MEM_USABLE)];
    InitFramesEffect(regions, n);
    UnrepresentableSpan(regions[0], n);
    assert regions[0].Usable() && RegionSpan(regions[0], n).Has(f);
  }

  // ---------- allocation ----------

  /** First free frame in [lo, hi), or hi. */
  function FirstFree(used: seq<bool>, lo: nat, hi: nat): (f: nat)
    requires lo <= hi <= |used|
    ensures lo <= f <= hi && (f < hi ==> !used[f])
    ensures forall i :: lo <= i < f ==> used[i]
    decreases hi - lo
  {
    if lo == hi || !used[lo] then lo else FirstFree(used, lo + 1, hi)
  }

  datatype AllocResult = NoFrame(s: Frames) | Got(frame: nat, s: Frames)

  function Take(s: Frames, f: nat): AllocResult
    requires f < |s.used|
  {
    Got(f, Frames(s.used[f := true], f + 1))
  }

  /** `pmm_alloc_frame`: a scan from the hint, then a scan below the hint. */
  function Alloc(s: Frames): AllocResult
    requires s.hint <= |s.used|
  {
    if CountFree(s.used) == 0 then NoFrame(s)
    else
      var f := FirstFree(s.used, s.hint, |s.used|);
      if f < |s.used| then Take(s, f)
      else
        var g := FirstFree(s.used, 0, s.hint);
        if g < s.hint then Take(s, g) else NoFrame(s)
  }

  predicate FreeAccepted(s: Frames, addr: u64) {
    addr % PAGE == 0 && addr != 0 && addr < |s.used| * PAGE && s.used[addr / PAGE]
  }

  function Free(s: Frames, addr: u64): Frames {
    if FreeAccepted(s, addr) then MarkFree(s, addr / PAGE) else s
  }

  function Reserve(s: Frames, base: u64, length: u64): Frames {
    var sp := ReservedSpan(base, length, |s.used|);
    UseRange(s, sp.lo, sp.hi)
  }

  /** Reserving does what it says: exactly the touched frames become used. */
  ghost predicate Reserves(s: Frames, base: u64, length: u64) {
    var t := Reserve(s, base, length);
    |t.used| == |s.used| &&
    forall f :: 0 <= f < |s.used| ==> (t.used[f] <==> s.used[f] || Touches(Region(base, length, 0), f))
  }

  /** Exactly: a range is reserved iff its rounding does not overflow inside the machine or every frame it
      touches was used already. */
  lemma ReservesIff(s: Frames, base: u64, length: u64)
    requires Sized(|s.used|)
    ensures Reserves(s, base, length) <==>
            || Representable(Region(base, length, 0), |s.used|)
            || forall f :: 0 <= f < |s.used| && Touches(Region(base, length, 0), f) ==> s.used[f]
  {
    var r, n := Region(base, length, 0), |s.used|;
    var sp := ReservedSpan(base, length, n);
    UseRangeEffect(s, sp.lo, sp.hi);
    if Representable(r, n) {
      forall f | 0 <= f < n ensures sp.Has(f) <==> Touches(r, f) { OtherSpan(r, n, f); }
    } else {
      UnrepresentableSpan(r, n);
      assert RegionSpan(r, n) == sp;
    }
  }

  /** Reserving the whole address space but its last byte reports success and takes nothing. */
  lemma ReserveAllTakesNothing(s: Frames, f: nat)
    requires Sized(|s.used|) && f < |s.used|
    ensures Touches(Region(0, TWO64 - 1, 0), f)
    ensures |Reserve(s, 0, TWO64 - 1).used| == |s.used| && Reserve(s, 0, TWO64 - 1).used[f] == s.used[f]
  {
    UnrepresentableSpan(Region(0, TWO64 - 1, 0), |s.used|);
    assert RegionSpan(Region(0, TWO64 - 1, 0), |s.used|) == ReservedSpan(0, TWO64 - 1, |s.used|);
    UseRangeEffect(s, 0, 0);
  }

  /** No free frame lies below the hint. */
  ghost predicate HintBelow(s: Frames) {
    s.hint <= |s.used| && forall f :: 0 <= f < s.hint ==> s.used[f]
  }

  ghost predicate Inv(s: Frames) {
    Sized(|s.used|) && s.used[0] && HintBelow(s)
  }

  ghost predicate LowestFree(s: Frames, f: nat) {
    f < |s.used| && !s.used[f] && forall i :: 0 <= i < f ==> s.used[i]
  }

  /** Under the invariant the scan from the hint finds the lowest free frame whenever there is one,
      so the second scan never succeeds and allocation fails exactly when nothing is free. */
  lemma AllocIsLowestFree(s: Frames)
    requires Inv(s)
    ensures FirstFree(s.used, 0, s.hint) == s.hint
    ensures match Alloc(s)
            case Got(f, t) => LowestFree(s, f) && f != 0 && t == Frames(s.used[f := true], f + 1)
            case NoFrame(t) => t == s && forall i :: 0 <= i < |s.used| ==> s.used[i]
    ensures Inv(Alloc(s).s) && |Alloc(s).s.used| == |s.used|
    ensures Alloc(s).Got? ==>
              CountFree(Alloc(s).s.used) == CountFree(s.used) - 1
  {
    CountZero(s.used);
    if Alloc(s).Got? { CountUpdate(s.used, Alloc(s).frame, true); }
  }

  /** A free is accepted exactly for the page address of a used frame other than frame 0. It frees that frame
      and no other, and moves the hint down to it when it lies above. */
  lemma FreeEffect(s: Frames, addr: u64)
    ensures FreeAccepted(s, addr) <==> exists f :: 0 < f < |s.used| && s.used[f] && f * 4096 == addr
    ensures forall f :: 0 < f < |s.used| && s.used[f] && f * 4096 == addr ==>
              Free(s, addr).used == s.used[f := false] && Free(s, addr).hint == Min(s.hint, f)
    ensures !FreeAccepted(s, addr) ==> Free(s, addr) == s
  {
    if FreeAccepted(s, addr) {
      assert addr / 4096 * 4096 == addr && 0 < addr / 4096 < |s.used|;
    }
  }

  /** An allocation followed by freeing its frame restores the bitmap. */
  lemma AllocThenFree(s: Frames)
    requires Inv(s) && Alloc(s).Got?
    ensures var a := Alloc(s);
            FreeAccepted(a.s, a.frame * PAGE) &&
            Free(a.s, a.frame * PAGE).used == s.used &&
            LowestFree(Free(a.s, a.frame * PAGE), Free(a.s, a.frame * PAGE).hint)
  {
    AllocIsLowestFree(s);
    var a := Alloc(s);
    assert s.used[a.frame := true][a.frame := false] == s.used;
  }

  /** The frame just allocated and freed again is what the next allocation returns. */
  lemma FreedComesBack(s: Frames)
    requires Inv(s) && Alloc(s).Got?
    ensures var t := Free(Alloc(s).s, Alloc(s).frame * PAGE);
            Inv(t) && Alloc(t).Got? && Alloc(t).frame == Alloc(s).frame
  {
    AllocIsLowestFree(s);
    AllocThenFree(s);
    var a := Alloc(s);
    StepKeepsInv(a.s, DoFree(a.frame * PAGE));
    AllocIsLowestFree(Free(a.s, a.frame * PAGE));
  }

  // ---------- runs ----------

  datatype Op = DoAlloc | DoFree(addr: u64) | DoReserve(base: u64, length: u64)

  function Step(s: Frames, op: Op): Frames
    requires s.hint <= |s.used|
  {
    match op
    case DoAlloc => Alloc(s).s
    case DoFree(a) => Free(s, a)
    case DoReserve(b, l) => Reserve(s, b, l)
  }

  lemma StepKeepsInv(s: Frames, op: Op)
    requires Inv(s)
    ensures Inv(Step(s, op)) && |Step(s, op).used| == |s.used|
  {
    match op
    case DoAlloc => AllocIsLowestFree(s);
    case DoFree(_) =>
    case DoReserve(b, l) =>
      var sp := ReservedSpan(b, l, |s.used|);
      UseRangeEffect(s, sp.lo, sp.hi);
  }

  /** The state after booting on a memory map and running `ops`: in every such state frame 0 is
      used and no free frame lies below the hint. */
  function Run(regions: seq<Region>, n: nat, ops: seq<Op>): (s: Frames)
    requires Sized(n)
    ensures Inv(s) && |s.used| == n
  {
    if ops == [] then
      InitFramesEffect(regions, n);
      InitFrames(regions, n)
    else
      var t := Run(regions, n, ops[..|ops| - 1]);
      StepKeepsInv(t, ops[|ops| - 1]);
      Step(t, ops[|ops| - 1])
  }
}
