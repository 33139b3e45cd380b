/** ELF64 images as they are written: every field as little-endian digits at its place, and what the planner
    makes of an image written so. */
module ElfLayout {
  import opened Words
  import opened ElfModel

  // ---------- little-endian digits ----------

  function Pow256(n: nat): nat {
    if n == 0 then 1 else 256 * Pow256(n - 1)
  }

  /** The lowest `n` bytes of `v`, lowest first. */
  function Digits(v: nat, n: nat): (b: seq<byte>)
    ensures |b| == n
  {
    if n == 0 then [] else [v % 256] + Digits(v / 256, n - 1)
  }

  function Value(b: seq<byte>): nat {
    if b == [] then 0 else b[0] + 256 * Value(b[1..])
  }

  lemma {:induction false} DigitsOfValue(b: seq<byte>)
    ensures Digits(Value(b), |b|) == b
  {
    if b != [] {
      DigitsOfValue(b[1..]);
      assert Value(b) % 256 == b[0] && Value(b) / 256 == Value(b[1..]);
      assert b == [b[0]] + b[1..];
    }
  }

  lemma {:induction false} ValueOfDigits(v: nat, n: nat)
    requires v < Pow256(n)
    ensures Value(Digits(v, n)) == v
    decreases n
  {
    if n > 0 {
      ValueOfDigits(v / 256, n - 1);
      assert Digits(v, n)[1..] == Digits(v / 256, n - 1);
    }
  }

  lemma {:induction false} ValueSplit(b: seq<byte>, k: nat)
    requires k <= |b|
    ensures Value(b) == Value(b[..k]) + Pow256(k) * Value(b[k..])
    decreases k
  {
    if k == 0 {
      assert b[0..] == b;
    } else {
      ValueSplit(b[1..], k - 1);
      var low, high := Value(b[1..][..k - 1]), Value(b[1..][k - 1..]);
      assert b[..k][1..] == b[1..][..k - 1] && b[1..][k - 1..] == b[k..];
      assert 256 * (Pow256(k - 1) * high) == Pow256(k) * high;
    }
  }

  lemma Widths()
    ensures Pow256(2) == 0x1_0000 && Pow256(4) == 0x1_0000_0000 && Pow256(8) == TWO64
  {
    assert Pow256(2) == 256 * Pow256(1) && Pow256(4) == 256 * Pow256(3);
    assert Pow256(6) == 256 * Pow256(5) && Pow256(8) == 256 * Pow256(7);
  }

  /** The bytes stand in the image at that place. */
  predicate At(image: seq<byte>, at: nat, bytes: seq<byte>) {
    at + |bytes| <= |image| && image[at..at + |bytes|] == bytes
  }

  lemma ValueIff(image: seq<byte>, at: nat, n: nat, v: nat)
    requires at + n <= |image| && v < Pow256(n)
    ensures Value(image[at..at + n]) == v <==> At(image, at, Digits(v, n))
  {
    DigitsOfValue(image[at..at + n]);
    ValueOfDigits(v, n);
  }

  lemma Value16(image: seq<byte>, at: nat)
    requires at + 2 <= |image|
    ensures Le16(image, at) == Value(image[at..at + 2])
  {
    var b := image[at..at + 2];
    assert b[1..] == [image[at + 1]] && b[1..][1..] == [];
    assert Value(b) == b[0] + 256 * Value(b[1..]) && Value(b[1..]) == b[1..][0] + 256 * Value([]);
  }

  lemma Value32(image: seq<byte>, at: nat)
    requires at + 4 <= |image|
    ensures Le32(image, at) == Value(image[at..at + 4])
  {
    var b := image[at..at + 4];
    Widths();
    ValueSplit(b, 2);
    assert b[..2] == image[at..at + 2] && b[2..] == image[at + 2..at + 4];
    Value16(image, at);
    Value16(image, at + 2);
  }

  lemma Value64(image: seq<byte>, at: nat)
    requires at + 8 <= |image|
    ensures Le64(image, at) == Value(image[at..at + 8])
  {
    var b := image[at..at + 8];
    Widths();
    ValueSplit(b, 4);
    assert b[..4] == image[at..at + 4] && b[4..] == image[at + 4..at + 8];
    Value32(image, at);
    Value32(image, at + 4);
  }

  // ---------- fields ----------

  type u16 = x: int | 0 <= x < 0x1_0000
  type u32 = x: int | 0 <= x < 0x1_0000_0000

  /** A field reads as `v` exactly when the little-endian digits of `v` stand there. */
  lemma Field16(image: seq<byte>, at: nat, v: u16)
    requires at + 2 <= |image|
    ensures Le16(image, at) == v <==> At(image, at, Digits(v, 2))
  {
    Widths();
    Value16(image, at);
    ValueIff(image, at, 2, v);
  }

  lemma Field32(image: seq<byte>, at: nat, v: u32)
    requires at + 4 <= |image|
    ensures Le32(image, at) == v <==> At(image, at, Digits(v, 4))
  {
    Widths();
    Value32(image, at);
    ValueIff(image, at, 4, v);
  }

  lemma Field64(image: seq<byte>, at: nat, v: u64)
    requires at + 8 <= |image|
    ensures Le64(image, at) == v <==> At(image, at, Digits(v, 8))
  {
    Widths();
    Value64(image, at);
    ValueIff(image, at, 8, v);
  }

  lemma Peel(image: seq<byte>, at: nat, init: seq<byte>, last: seq<byte>)
    ensures At(image, at, init + last) <==> At(image, at, init) && At(image, at + |init|, last)
  {
    if at + |init| + |last| <= |image| {
      var whole := image[at..at + |init| + |last|];
      assert whole == image[at..at + |init|] + image[at + |init|..at + |init| + |last|];
      assert whole[..|init|] == image[at..at + |init|];
      assert whole[|init|..] == image[at + |init|..at + |init| + |last|];
      assert (init + last)[..|init|] == init && (init + last)[|init|..] == last;
    }
  }

  // ---------- program headers ----------

  /** The first half of a program header: type, flags, offset, address, and the physical address nobody reads. */
  function PhdrFront(ph: Phdr, paddr: u64): (b: seq<byte>)
    ensures |b| == 32
  {
    Digits(ph.kind, 4) + Digits(ph.flags, 4) + Digits(ph.offset, 8) + Digits(ph.vaddr, 8) + Digits(paddr, 8)
  }

  function PhdrBack(ph: Phdr): (b: seq<byte>)
    ensures |b| == 24
  {
    Digits(ph.filesz, 8) + Digits(ph.memsz, 8) + Digits(ph.align, 8)
  }

  /** The 56 bytes of a program header: type at 0, flags at 4, offset at 8, vaddr at 16, paddr at 24, filesz at
      32, memsz at 40 and align at 48. */
  function PhdrBytes(ph: Phdr, paddr: u64): (b: seq<byte>)
    ensures |b| == 56
  {
    PhdrFront(ph, paddr) + PhdrBack(ph)
  }

  lemma FrontIff(image: seq<byte>, at: nat, ph: Phdr, paddr: u64)
    requires at + 32 <= |image| && ph.kind < 0x1_0000_0000 && ph.flags < 0x1_0000_0000
    ensures At(image, at, PhdrFront(ph, paddr)) <==>
            && Le32(image, at) == ph.kind && Le32(image, at + 4) == ph.flags && Le64(image, at + 8) == ph.offset
            && Le64(image, at + 16) == ph.vaddr && Le64(image, at + 24) == paddr
  {
    var a, b, c, d, e := Digits(ph.kind, 4), Digits(ph.flags, 4), Digits(ph.offset, 8), Digits(ph.vaddr, 8),
                         Digits(paddr, 8);
    Peel(image, at, a + b + c + d, e);
    Peel(image, at, a + b + c, d);
    Peel(image, at, a + b, c);
    Peel(image, at, a, b);
    Field32(image, at, ph.kind);
    Field32(image, at + 4, ph.flags);
    Field64(image, at + 8, ph.offset);
    Field64(image, at + 16, ph.vaddr);
    Field64(image, at + 24, paddr);
  }

  lemma BackIff(image: seq<byte>, at: nat, ph: Phdr)
    requires at + 24 <= |image|
    ensures At(image, at, PhdrBack(ph)) <==>
            Le64(image, at) == ph.filesz && Le64(image, at + 8) == ph.memsz && Le64(image, at + 16) == ph.align
  {
    var a, b, c := Digits(ph.filesz, 8), Digits(ph.memsz, 8), Digits(ph.align, 8);
    Peel(image, at, a + b, c);
    Peel(image, at, a, b);
    Field64(image, at, ph.filesz);
    Field64(image, at + 8, ph.memsz);
    Field64(image, at + 16, ph.align);
  }

  /** A program header reads back from its bytes at any place in any image, and from no other bytes. */
  lemma PhdrRoundTrip(image: seq<byte>, at: nat, ph: Phdr)
    requires at + 56 <= |image| && ph.kind < 0x1_0000_0000 && ph.flags < 0x1_0000_0000
    ensures ReadPhdr(image, at) == ph <==> exists paddr: u64 :: At(image, at, PhdrBytes(ph, paddr))
  {
    BackIff(image, at + 32, ph);
    forall paddr: u64
      ensures At(image, at, PhdrBytes(ph, paddr)) <==> ReadPhdr(image, at) == ph && Le64(image, at + 24) == paddr
    {
      Peel(image, at, PhdrFront(ph, paddr), PhdrBack(ph));
      FrontIff(image, at, ph, paddr);
    }
    assert At(image, at, PhdrBytes(ph, Le64(image, at + 24))) <==> ReadPhdr(image, at) == ph;
  }

  // ---------- the file header ----------

  datatype Ehdr = Ehdr(
    ident: seq<byte>, kind: u16, machine: u16, version: u32, entry: u64, phoff: u64, shoff: u64, flags: u32,
    ehsize: u16, phentsize: u16, phnum: u16, shentsize: u16, shnum: u16, shstrndx: u16)

  /** The 64 bytes of the file header, in the order of the format: identification at 0, entry at 24, program
      header offset at 32, number of program headers at 56. */
  function EhdrFront(e: Ehdr): (b: seq<byte>)
    ensures |e.ident| == 16 ==> |b| == 48
  {
    e.ident + Digits(e.kind, 2) + Digits(e.machine, 2) + Digits(e.version, 4) + Digits(e.entry, 8) +
    Digits(e.phoff, 8) + Digits(e.shoff, 8)
  }

  function EhdrBack(e: Ehdr): (b: seq<byte>)
    ensures |b| == 16
  {
    Digits(e.flags, 4) + Digits(e.ehsize, 2) + Digits(e.phentsize, 2) + Digits(e.phnum, 2) +
    Digits(e.shentsize, 2) + Digits(e.shnum, 2) + Digits(e.shstrndx, 2)
  }

  function EhdrBytes(e: Ehdr): seq<byte> {
    EhdrFront(e) + EhdrBack(e)
  }

  lemma EhdrFrontReads(image: seq<byte>, e: Ehdr)
    requires |e.ident| == 16 && At(image, 0, EhdrFront(e))
    ensures image[..16] == e.ident && Le16(image, 16) == e.kind && Le16(image, 18) == e.machine
    ensures Le32(image, 20) == e.version && Le64(image, 24) == e.entry && Le64(image, 32) == e.phoff
  {
    var a, b, c, d, f, g := e.ident, Digits(e.kind, 2), Digits(e.machine, 2), Digits(e.version, 4),
                            Digits(e.entry, 8), Digits(e.phoff, 8);
    Peel(image, 0, a + b + c + d + f + g, Digits(e.shoff, 8));
    Peel(image, 0, a + b + c + d + f, g);
    Peel(image, 0, a + b + c + d, f);
    Peel(image, 0, a + b + c, d);
    Peel(image, 0, a + b, c);
    Peel(image, 0, a, b);
    Field16(image, 16, e.kind);
    Field16(image, 18, e.machine);
    Field32(image, 20, e.version);
    Field64(image, 24, e.entry);
    Field64(image, 32, e.phoff);
  }

  lemma EhdrBackReads(image: seq<byte>, at: nat, e: Ehdr)
    requires At(image, at, EhdrBack(e))
    ensures Le16(image, at + 4) == e.ehsize && Le16(image, at + 6) == e.phentsize && Le16(image, at + 8) == e.phnum
  {
    var a, b, c, d := Digits(e.flags, 4), Digits(e.ehsize, 2), Digits(e.phentsize, 2), Digits(e.phnum, 2);
    var f, g, h := Digits(e.shentsize, 2), Digits(e.shnum, 2), Digits(e.shstrndx, 2);
    Peel(image, at, a + b + c + d + f + g, h);
    Peel(image, at, a + b + c + d + f, g);
    Peel(image, at, a + b + c + d, f);
    Peel(image, at, a + b + c, d);
    Peel(image, at, a + b, c);
    Peel(image, at, a, b);
    Field16(image, at + 4, e.ehsize);
    Field16(image, at + 6, e.phentsize);
    Field16(image, at + 8, e.phnum);
  }

  /** Every field the planner looks at reads back from the header's bytes. */
  lemma EhdrReads(image: seq<byte>, e: Ehdr)
    requires |e.ident| == 16 && At(image, 0, EhdrBytes(e))
    ensures |image| >= 64 && image[..16] == e.ident
    ensures Le16(image, 16) == e.kind && Le16(image, 18) == e.machine && Le32(image, 20) == e.version
    ensures Entry(image) == e.entry && Phoff(image) == e.phoff && Phnum(image) == e.phnum
    ensures Le16(image, 52) == e.ehsize && Le16(image, 54) == e.phentsize
  {
    Peel(image, 0, EhdrFront(e), EhdrBack(e));
    EhdrFrontReads(image, e);
    EhdrBackReads(image, 48, e);
  }

  // ---------- whole images ----------

  /** An image with this file header and this program header table, entry `i` with that physical address. */
  ghost predicate Written(image: Image, e: Ehdr, table: seq<Phdr>, paddrs: seq<u64>) {
    && |e.ident| == 16 && At(image, 0, EhdrBytes(e)) && |table| == |paddrs| == e.phnum
    && (forall i :: 0 <= i < |table| ==> table[i].kind < 0x1_0000_0000 && table[i].flags < 0x1_0000_0000)
    && forall i :: 0 <= i < |table| ==> At(image, e.phoff + 56 * i, PhdrBytes(table[i], paddrs[i]))
  }

  /** The planner sees the table that was written. */
  lemma TableReads(image: Image, e: Ehdr, table: seq<Phdr>, paddrs: seq<u64>)
    requires Written(image, e, table, paddrs) && table != []
    ensures |image| >= 64 && TableInside(image) && Table(image) == table
  {
    EhdrReads(image, e);
    var n := |table| - 1;
    assert At(image, e.phoff + 56 * n, PhdrBytes(table[n], paddrs[n]));
    forall i | 0 <= i < |table| ensures Table(image)[i] == table[i] { EntryReads(image, e.phoff, table, paddrs, i); }
  }

  lemma EntryReads(image: seq<byte>, phoff: u64, table: seq<Phdr>, paddrs: seq<u64>, i: nat)
    requires i < |table| == |paddrs| && At(image, phoff + 56 * i, PhdrBytes(table[i], paddrs[i]))
    requires table[i].kind < 0x1_0000_0000 && table[i].flags < 0x1_0000_0000
    ensures ReadPhdr(image, phoff + 56 * i) == table[i]
  {
    PhdrRoundTrip(image, phoff + 56 * i, table[i]);
  }

  /** What a written header and table must say to be planned. */
  ghost predicate GoodImage(size: nat, e: Ehdr, table: seq<Phdr>, region: Region) {
    && |e.ident| == 16 && e.ident[..7] == [0x7f, 0x45, 0x4c, 0x46, 2, 1, 1] && e.version == 1
    && e.kind in {2, 3} && e.machine == 62 && e.ehsize == 64 && e.phentsize == 56
    && region.base <= e.entry < region.limit
    && var loads := Loads(table, |table|);
    && 1 <= |loads| <= 8 && forall k :: 0 <= k < |loads| ==> Loadable(loads[k], size, region)
  }

  lemma GoodHeaderWritten(image: Image, e: Ehdr, table: seq<Phdr>, paddrs: seq<u64>, region: Region)
    requires Written(image, e, table, paddrs) && table != []
    ensures GoodHeader(image, region) <==>
            && e.ident[..7] == [0x7f, 0x45, 0x4c, 0x46, 2, 1, 1] && e.version == 1
            && e.kind in {2, 3} && e.machine == 62 && e.ehsize == 64 && e.phentsize == 56
            && region.base <= e.entry < region.limit
  {
    EhdrReads(image, e);
    TableReads(image, e, table, paddrs);
    assert image[..16][..7] == image[..7];
  }

  /** The planner on an image written field by field, without naming a reader: it accepts exactly good headers
      with one to eight PT_LOAD entries, each safe to load. */
  lemma WrittenIff(image: Image, e: Ehdr, table: seq<Phdr>, paddrs: seq<u64>, region: Region)
    requires Written(image, e, table, paddrs)
    ensures Plan(image, region) == Ok <==> GoodImage(|image|, e, table, region)
  {
    PlanIff(image, region);
    EhdrReads(image, e);
    if table != [] {
      TableReads(image, e, table, paddrs);
      GoodHeaderWritten(image, e, table, paddrs, region);
    }
  }

  /** The PT_LOAD entries before entry `n`. */
  ghost function LoadPlaces(table: seq<Phdr>, n: nat): set<nat>
    requires n <= |table|
  {
    set i: nat | i < n && table[i].kind == 1
  }

  lemma {:induction false} LoadCount(table: seq<Phdr>, n: nat)
    requires n <= |table|
    ensures |Loads(table, n)| == |LoadPlaces(table, n)|
  {
    if n > 0 {
      LoadCount(table, n - 1);
      var before := LoadPlaces(table, n - 1);
      assert LoadPlaces(table, n) == if table[n - 1].kind == 1 then before + {n - 1} else before;
    }
  }

  /** The plan lists the PT_LOAD entries in table order: as many as there are, each in the place given by how
      many come before it. */
  lemma LoadsInOrder(table: seq<Phdr>, i: nat)
    requires i < |table| && table[i].kind == 1
    ensures var loads, k := Loads(table, |table|), |LoadPlaces(table, i)|;
            |loads| == |LoadPlaces(table, |table|)| && k < |loads| && loads[k] == table[i]
  {
    LoadCount(table, i);
    LoadCount(table, |table|);
    NextLoad(table, i);
  }
}
