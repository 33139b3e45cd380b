/** The ELF64 load planner's checks, on the bytes of an image. Multi-byte fields are little-endian, at the
    offsets of the packed ELF64 header (64 bytes) and program header (56 bytes). */
module ElfModel {
  import opened Bits
  import opened Words

  type byte = x: int | 0 <= x < 256

  const EHDR_SIZE := 64
  const PHDR_SIZE := 56
  const MAX_LOAD_SEGMENTS := 8
  const PT_LOAD := 1

  datatype Status =
    | Ok | ErrSize | ErrMagic | ErrClass | ErrEndian | ErrVersion | ErrType | ErrMachine | ErrEhsize
    | ErrPhentsize | ErrPhbounds | ErrAlign | ErrSegbounds | ErrSegrange | ErrSegcount | ErrEntry | ErrFlags

  datatype Region = Region(base: u64, limit: u64)

  datatype Phdr = Phdr(kind: nat, flags: nat, offset: u64, vaddr: u64, filesz: u64, memsz: u64, align: u64)

  /** An image as large as `size_t` can say. */
  type Image = s: seq<byte> | |s| < TWO64

  // ---------- fields ----------

  function Le16(image: seq<byte>, at: nat): (v: nat)
    requires at + 2 <= |image|
    ensures v < 0x1_0000
  {
    (image[at] as int) + 0x100 * (image[at + 1] as int)
  }

  function Le32(image: seq<byte>, at: nat): (v: nat)
    requires at + 4 <= |image|
    ensures v < 0x1_0000_0000
  {
    Le16(image, at) + 0x1_0000 * Le16(image, at + 2)
  }

  function Le64(image: seq<byte>, at: nat): (v: u64)
    requires at + 8 <= |image|
  {
    Le32(image, at) + 0x1_0000_0000 * Le32(image, at + 4)
  }

  function Entry(image: seq<byte>): u64
    requires |image| >= EHDR_SIZE
  {
    Le64(image, 24)
  }

  function Phoff(image: seq<byte>): u64
    requires |image| >= EHDR_SIZE
  {
    Le64(image, 32)
  }

  function Phnum(image: seq<byte>): nat
    requires |image| >= EHDR_SIZE
  {
    Le16(image, 56)
  }

  function ReadPhdr(image: seq<byte>, at: nat): Phdr
    requires at + PHDR_SIZE <= |image|
  {
    Phdr(Le32(image, at), Le32(image, at + 4), Le64(image, at + 8), Le64(image, at + 16),
         Le64(image, at + 32), Le64(image, at + 40), Le64(image, at + 48))
  }

  // ---------- bit tests ----------

  /** Bitwise and of two unsigned integers. */
  function And(a: nat, b: nat): nat
    decreases a
  {
    if a == 0 then 0 else (if a % 2 == 1 && b % 2 == 1 then 1 else 0) + 2 * And(a / 2, b / 2)
  }

  function IsPowerOfTwo(v: nat): bool {
    v != 0 && And(v, v - 1) == 0
  }

  lemma {:induction false} AndSelf(a: nat)
    ensures And(a, a) == a
    decreases a
  {
    if a > 0 { AndSelf(a / 2); }
  }

  lemma AndStep(a: nat, b: nat, x: nat, y: nat)
    requires x < 2 && y < 2
    ensures And(2 * a + x, 2 * b + y) == (if x == 1 && y == 1 then 1 else 0) + 2 * And(a, b)
  {
    assert (2 * a + x) / 2 == a && (2 * a + x) % 2 == x && (2 * b + y) / 2 == b && (2 * b + y) % 2 == y;
  }

  ghost predicate PowerOfTwo(v: nat) {
    exists k: nat :: Pow2(k) == v
  }

  lemma {:induction false} OddPower(w: nat)
    ensures PowerOfTwo(2 * w + 1) <==> w == 0
  {
    if w == 0 {
      var k: nat := 0;
      assert Pow2(k) == 2 * w + 1;
    } else {
      forall k: nat ensures Pow2(k) != 2 * w + 1 { if k > 0 { assert Pow2(k) == 2 * Pow2(k - 1); } }
    }
  }

  lemma EvenPower(w: nat)
    ensures PowerOfTwo(2 * w) <==> PowerOfTwo(w)
  {
    if k: nat :| Pow2(k) == w { assert Pow2(k + 1) == 2 * w; }
    if k: nat :| Pow2(k) == 2 * w { assert k > 0 && Pow2(k - 1) == w; }
  }

  /** The `v & (v - 1)` test accepts exactly the powers of two. */
  lemma {:induction false} PowerOfTwoIff(v: nat)
    ensures IsPowerOfTwo(v) <==> PowerOfTwo(v)
    decreases v
  {
    if v == 0 {
      forall k: nat ensures Pow2(k) != 0 { Pow2Positive(k); }
    } else if v % 2 == 1 {
      var w := v / 2;
      AndStep(w, w, 1, 0);
      AndSelf(w);
      OddPower(w);
    } else {
      var w := v / 2;
      AndStep(w, w - 1, 0, 1);
      PowerOfTwoIff(w);
      EvenPower(w);
    }
  }

  predicate Executable(flags: nat) { And(flags, 1) != 0 }
  predicate Writable(flags: nat) { And(flags, 2) != 0 }

  lemma {:induction false} NothingAbove(a: nat)
    ensures And(a, 0) == 0
    decreases a
  {
    if a > 0 { NothingAbove(a / 2); }
  }

  /** Bit 0 is execute and bit 1 is write. */
  lemma SegmentFlags(flags: nat)
    ensures (Executable(flags) <==> flags % 2 == 1) && (Writable(flags) <==> flags / 2 % 2 == 1)
  {
    var w := flags / 2;
    AndStep(w, 0, flags % 2, 1);
    NothingAbove(w);
    AndStep(w, 1, flags % 2, 0);
    AndStep(w / 2, 0, w % 2, 1);
    NothingAbove(w / 2);
  }

  /** The flags with no bit but R, W and X, and not both W and X. */
  lemma SafeFlags(flags: nat)
    ensures flags / 8 == 0 && !(Writable(flags) && Executable(flags)) <==> flags in {0, 1, 2, 4, 5, 6}
  {
    SegmentFlags(flags);
  }

  // ---------- the checks, in the code's order ----------

  predicate AddOverflows(a: u64, b: u64) {
    Wrap64(a + b) < a
  }

  function UserRange(region: Region, base: u64, size: u64): Status {
    if region.base >= region.limit then ErrSegrange
    else if size == 0 then ErrSegrange
    else if AddOverflows(base, size) then ErrSegrange
    else
      var end := Wrap64(base + size);
      if base < region.base || end > region.limit || end <= base then ErrSegrange else Ok
  }

  function Ident(image: seq<byte>): Status
    requires |image| >= EHDR_SIZE
  {
    if image[0] != 0x7f || image[1] != 'E' as int || image[2] != 'L' as int || image[3] != 'F' as int then ErrMagic
    else if image[4] != 2 then ErrClass
    else if image[5] != 1 then ErrEndian
    else if image[6] != 1 || Le32(image, 20) != 1 then ErrVersion
    else Ok
  }

  function PhdrBounds(image: seq<byte>): Status
    requires |image| >= EHDR_SIZE
  {
    var size, n := Le16(image, 54), Phnum(image);
    if n == 0 then ErrPhbounds
    else if size != PHDR_SIZE then ErrPhentsize
    else
      var bytes := size * n;
      if bytes / n != size || AddOverflows(Phoff(image), bytes) then ErrPhbounds
      else if Wrap64(Phoff(image) + bytes) > |image| || Phoff(image) > |image| then ErrPhbounds
      else Ok
  }

  function LoadSegment(ph: Phdr, size: u64, region: Region): Status {
    if ph.flags / 8 != 0 then ErrFlags
    else if Writable(ph.flags) && Executable(ph.flags) then ErrFlags
    else if ph.memsz < ph.filesz then ErrSegbounds
    else if ph.align != 0 && ph.align != 1 && !IsPowerOfTwo(ph.align) then ErrAlign
    else if ph.align != 0 && ph.align != 1 && ph.vaddr % ph.align != ph.offset % ph.align then ErrAlign
    else if AddOverflows(ph.offset, ph.filesz) then ErrSegbounds
    else if Wrap64(ph.offset + ph.filesz) > size || ph.offset > size then ErrSegbounds
    else UserRange(region, ph.vaddr, ph.memsz)
  }

  /** Everything checked before the program headers are walked. */
  function Header(image: seq<byte>, region: Region): Status {
    if |image| < EHDR_SIZE then ErrSize
    else if Ident(image) != Ok then Ident(image)
    else if Le16(image, 16) != 2 && Le16(image, 16) != 3 then ErrType
    else if Le16(image, 18) != 62 then ErrMachine
    else if Le16(image, 52) != EHDR_SIZE then ErrEhsize
    else if PhdrBounds(image) != Ok then PhdrBounds(image)
    else if UserRange(region, Entry(image), 1) != Ok then ErrEntry
    else Ok
  }

  // ---------- what the checks mean ----------

  predicate Inside(region: Region, base: nat, size: nat) {
    size > 0 && region.base <= base && base + size <= region.limit
  }

  /** The code's wrap-around tests accept exactly the ranges inside the region, over the integers. */
  lemma UserRangeIff(region: Region, base: u64, size: u64)
    ensures UserRange(region, base, size) == Ok <==> Inside(region, base, size)
  {
  }

  lemma SumFits(a: u64, b: u64, size: u64)
    ensures !AddOverflows(a, b) && Wrap64(a + b) <= size && a <= size <==> a + b <= size
  {
  }

  /** The program header table lies wholly in the image. */
  predicate TableInside(image: seq<byte>)
    requires |image| >= EHDR_SIZE
  {
    Phnum(image) > 0 && Phoff(image) + PHDR_SIZE * Phnum(image) <= |image|
  }

  lemma ProductQuotient(n: nat)
    requires n > 0
    ensures 56 * n / n == 56
  {
    var q := 56 * n / n;
    QuotientBounds(56 * n, n);
    if q > 56 { TimesMore(n, 57, q); }
    if q < 56 { TimesMore(n, q + 1, 56); }
  }

  lemma PhdrBoundsIff(image: Image)
    requires |image| >= EHDR_SIZE
    ensures PhdrBounds(image) == Ok <==> Le16(image, 54) == PHDR_SIZE && TableInside(image)
  {
    var n := Phnum(image);
    if n > 0 && Le16(image, 54) == PHDR_SIZE {
      ProductQuotient(n);
      SumFits(Phoff(image), PHDR_SIZE * n, |image|);
    }
  }

  /** A loadable header that is safe to load: its file range is in the image, its memory range in the user
      region, it is not smaller in memory than in the file, never both writable and executable, and its
      address is congruent to its offset modulo its alignment. */
  ghost predicate Loadable(ph: Phdr, size: nat, region: Region) {
    && ph.flags in {0, 1, 2, 4, 5, 6}
    && ph.filesz <= ph.memsz && ph.offset + ph.filesz <= size && Inside(region, ph.vaddr, ph.memsz)
    && (ph.align > 1 ==> PowerOfTwo(ph.align) && ph.vaddr % ph.align == ph.offset % ph.align)
  }

  lemma LoadSegmentIff(ph: Phdr, size: u64, region: Region)
    ensures LoadSegment(ph, size, region) == Ok <==> Loadable(ph, size, region)
  {
    SafeFlags(ph.flags);
    PowerOfTwoIff(ph.align);
    SumFits(ph.offset, ph.filesz, size);
    UserRangeIff(region, ph.vaddr, ph.memsz);
  }

  /** A header the loader accepts. */
  ghost predicate GoodHeader(image: seq<byte>, region: Region) {
    && |image| >= EHDR_SIZE && image[..7] == [0x7f, 0x45, 0x4c, 0x46, 2, 1, 1] && Le32(image, 20) == 1
    && Le16(image, 16) in {2, 3} && Le16(image, 18) == 62 && Le16(image, 52) == EHDR_SIZE
    && Le16(image, 54) == PHDR_SIZE && TableInside(image)
    && region.base <= Entry(image) < region.limit
  }

  lemma HeaderIff(image: Image, region: Region)
    ensures Header(image, region) == Ok <==> GoodHeader(image, region)
  {
    if |image| >= EHDR_SIZE {
      PhdrBoundsIff(image);
      UserRangeIff(region, Entry(image), 1);
      IdentIff(image);
    }
  }

  lemma IdentIff(image: seq<byte>)
    requires |image| >= EHDR_SIZE
    ensures Ident(image) == Ok <==> image[..7] == [0x7f, 0x45, 0x4c, 0x46, 2, 1, 1] && Le32(image, 20) == 1
  {
    var magic: seq<byte> := [0x7f, 0x45, 0x4c, 0x46, 2, 1, 1];
    if Ident(image) == Ok { assert image[..7] == magic; }
    if image[..7] == magic {
      assert forall i :: 0 <= i < 7 ==> image[i] == image[..7][i];
      assert image[0] == magic[0] && image[1] == magic[1] && image[2] == magic[2] && image[3] == magic[3];
      assert image[4] == magic[4] && image[5] == magic[5] && image[6] == magic[6];
    }
  }

  // ---------- the loadable headers ----------

  /** The program header table, entry by entry. */
  function Table(image: seq<byte>): (t: seq<Phdr>)
    requires |image| >= EHDR_SIZE && TableInside(image)
  {
    seq(Phnum(image), i requires 0 <= i < Phnum(image) => ReadPhdr(image, Phoff(image) + PHDR_SIZE * i))
  }

  /** The PT_LOAD headers among the first `n`, in table order. */
  function Loads(table: seq<Phdr>, n: nat): seq<Phdr>
    requires n <= |table|
  {
    if n == 0 then []
    else if table[n - 1].kind == PT_LOAD then Loads(table, n - 1) + [table[n - 1]]
    else Loads(table, n - 1)
  }

  function AllLoads(image: seq<byte>): seq<Phdr>
    requires |image| >= EHDR_SIZE && TableInside(image)
  {
    Loads(Table(image), Phnum(image))
  }

  lemma {:induction false} LoadsGrow(table: seq<Phdr>, n: nat, m: nat)
    requires n <= m <= |table|
    ensures Loads(table, n) <= Loads(table, m)
    decreases m
  {
    if n < m { LoadsGrow(table, n, m - 1); }
  }

  /** The next PT_LOAD header of the table is the next one of the whole list. */
  lemma NextLoad(table: seq<Phdr>, i: nat)
    requires i < |table| && table[i].kind == PT_LOAD
    ensures var all, k := Loads(table, |table|), |Loads(table, i)|; k < |all| && all[k] == table[i]
  {
    LoadsGrow(table, i + 1, |table|);
    assert Loads(table, i + 1)[|Loads(table, i)|] == table[i];
  }

  /** The first error in walking the loadable headers from the `k`-th on. */
  function Walk(loads: seq<Phdr>, size: u64, region: Region, k: nat): Status
    requires k <= |loads|
    decreases |loads| - k
  {
    if k == |loads| then (if k == 0 then ErrSegcount else Ok)
    else if k >= MAX_LOAD_SEGMENTS then ErrSegcount
    else if LoadSegment(loads[k], size, region) != Ok then LoadSegment(loads[k], size, region)
    else Walk(loads, size, region, k + 1)
  }

  /** One table entry of the walk: passed over, refused, or planned. */
  lemma WalkOn(table: seq<Phdr>, i: nat, size: u64, region: Region)
    requires i < |table| && |Loads(table, i)| <= |Loads(table, |table|)|
    ensures var all, k, m := Loads(table, |table|), |Loads(table, i)|, |Loads(table, i + 1)|;
            if table[i].kind != PT_LOAD then m == k
            else && k < m <= |all|
                 && Walk(all, size, region, k) ==
                    if k >= MAX_LOAD_SEGMENTS then ErrSegcount
                    else if LoadSegment(table[i], size, region) != Ok then LoadSegment(table[i], size, region)
                    else Walk(all, size, region, m)
  {
    if table[i].kind == PT_LOAD { NextLoad(table, i); }
  }

  lemma {:induction false} WalkIff(loads: seq<Phdr>, size: u64, region: Region, k: nat)
    requires k <= |loads|
    ensures Walk(loads, size, region, k) == Ok <==>
            && loads != [] && (k == |loads| || |loads| <= MAX_LOAD_SEGMENTS)
            && forall j :: k <= j < |loads| ==> Loadable(loads[j], size, region)
    decreases |loads| - k
  {
    if k < |loads| {
      LoadSegmentIff(loads[k], size, region);
      WalkIff(loads, size, region, k + 1);
    }
  }

  /** The planner's result: the first header error, else the first error of the walk. */
  function Plan(image: Image, region: Region): Status {
    if Header(image, region) != Ok then Header(image, region)
    else
      HeaderIff(image, region);
      Walk(AllLoads(image), |image|, region, 0)
  }

  /** An image that can be planned: a good header and one to eight loadable segments. */
  ghost predicate Plannable(image: seq<byte>, region: Region) {
    && GoodHeader(image, region) && 1 <= |AllLoads(image)| <= MAX_LOAD_SEGMENTS
    && forall k :: 0 <= k < |AllLoads(image)| ==> Loadable(AllLoads(image)[k], |image|, region)
  }

  /** Exactly the plannable images are accepted. */
  lemma PlanIff(image: Image, region: Region)
    ensures Plan(image, region) == Ok <==> Plannable(image, region)
  {
    HeaderIff(image, region);
    if Header(image, region) == Ok { WalkIff(AllLoads(image), |image|, region, 0); }
  }

  /** A table entry is planned exactly when it is loadable by type: the plan keeps every PT_LOAD header and
      no other. */
  lemma {:induction false} LoadsAreLoads(table: seq<Phdr>, n: nat, ph: Phdr)
    requires n <= |table|
    ensures ph in Loads(table, n) <==> ph.kind == PT_LOAD && ph in table[..n]
  {
    if n > 0 {
      LoadsAreLoads(table, n - 1, ph);
      assert table[..n] == table[..n - 1] + [table[n - 1]];
    }
  }

  // ---------- which error ----------

  /** The identification error is that of the first bad byte. */
  lemma IdentFault(image: seq<byte>)
    requires |image| >= 64
    ensures Ident(image) ==
            if image[..4] != [0x7f, 0x45, 0x4c, 0x46] then ErrMagic
            else if image[4] != 2 then ErrClass
            else if image[5] != 1 then ErrEndian
            else if image[6] != 1 || Le32(image, 20) != 1 then ErrVersion
            else Ok
  {
    var magic: seq<byte> := [0x7f, 0x45, 0x4c, 0x46];
    if Ident(image) != ErrMagic { assert image[..4] == magic; }
    if image[..4] == magic {
      assert forall i :: 0 <= i < 4 ==> image[i] == image[..4][i];
      assert image[0] == magic[0] && image[1] == magic[1] && image[2] == magic[2] && image[3] == magic[3];
    }
  }

  /** The header error is that of the first condition that fails, in this order. */
  lemma HeaderFault(image: Image, region: Region)
    ensures Header(image, region) ==
            if |image| < 64 then ErrSize
            else if Ident(image) != Ok then Ident(image)
            else if Le16(image, 16) !in {2, 3} then ErrType
            else if Le16(image, 18) != 62 then ErrMachine
            else if Le16(image, 52) != 64 then ErrEhsize
            else if Phnum(image) == 0 then ErrPhbounds
            else if Le16(image, 54) != 56 then ErrPhentsize
            else if Phoff(image) + 56 * Phnum(image) > |image| then ErrPhbounds
            else if !(region.base <= Entry(image) < region.limit) then ErrEntry
            else Ok
  {
    if |image| >= 64 {
      PhdrBoundsIff(image);
      PhdrFault(image);
      UserRangeIff(region, Entry(image), 1);
    }
  }

  lemma PhdrFault(image: seq<byte>)
    requires |image| >= 64
    ensures Phnum(image) == 0 ==> PhdrBounds(image) == ErrPhbounds
    ensures Phnum(image) != 0 ==> (PhdrBounds(image) == ErrPhentsize <==> Le16(image, 54) != 56)
    ensures PhdrBounds(image) in {Ok, ErrPhbounds, ErrPhentsize}
  {
  }

  /** A PT_LOAD header's error is that of the first condition that fails, in this order. */
  lemma SegmentFault(ph: Phdr, size: u64, region: Region)
    ensures LoadSegment(ph, size, region) ==
            if ph.flags !in {0, 1, 2, 4, 5, 6} then ErrFlags
            else if ph.filesz > ph.memsz then ErrSegbounds
            else if ph.align > 1 && !(PowerOfTwo(ph.align) && ph.vaddr % ph.align == ph.offset % ph.align) then ErrAlign
            else if ph.offset + ph.filesz > size then ErrSegbounds
            else if !Inside(region, ph.vaddr, ph.memsz) then ErrSegrange
            else Ok
  {
    SafeFlags(ph.flags);
    PowerOfTwoIff(ph.align);
    SumFits(ph.offset, ph.filesz, size);
    UserRangeIff(region, ph.vaddr, ph.memsz);
  }

  lemma {:induction false} WalkFault(loads: seq<Phdr>, size: u64, region: Region, k: nat, bad: nat)
    requires k <= 8 && k <= bad <= |loads| && loads != []
    requires forall j :: k <= j < bad ==> Loadable(loads[j], size, region)
    requires bad < |loads| ==> !Loadable(loads[bad], size, region)
    ensures Walk(loads, size, region, k) ==
            if bad < 8 && bad < |loads| then LoadSegment(loads[bad], size, region)
            else if |loads| > 8 then ErrSegcount else Ok
    decreases bad - k
  {
    if k < |loads| { LoadSegmentIff(loads[k], size, region); }
    if k < bad && k < 8 { WalkFault(loads, size, region, k + 1, bad); }
  }

  /** The planner's error: that of the header; else, with `bad` the first PT_LOAD header that may not be
      loaded, its error unless eight come before it; ESEGCOUNT for no PT_LOAD header or for more than eight. */
  lemma PlanFault(image: Image, region: Region, bad: nat)
    requires |image| >= EHDR_SIZE && TableInside(image) && bad <= |AllLoads(image)|
    requires forall j :: 0 <= j < bad ==> Loadable(AllLoads(image)[j], |image|, region)
    requires bad < |AllLoads(image)| ==> !Loadable(AllLoads(image)[bad], |image|, region)
    ensures var loads := AllLoads(image);
            Plan(image, region) ==
            if Header(image, region) != Ok then Header(image, region)
            else if loads == [] then ErrSegcount
            else if bad < 8 && bad < |loads| then LoadSegment(loads[bad], |image|, region)
            else if |loads| > 8 then ErrSegcount else Ok
  {
    if AllLoads(image) != [] { WalkFault(AllLoads(image), |image|, region, 0, bad); }
  }
}
