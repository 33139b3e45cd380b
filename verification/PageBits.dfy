/** Page-table words bit by bit: what the entry layout, the indices and the canonical test come to. */
module PageBits {
  import opened Bits
  import opened Words
  import opened PageModel
  import opened PageProofs

  lemma BigPowers()
    ensures Pow2(39) == 0x80_0000_0000 && Pow2(30) == 0x4000_0000 && Pow2(21) == 0x20_0000
    ensures Pow2(40) == 0x100_0000_0000 && Pow2(47) == 0x8000_0000_0000 && Pow2(48) == 0x1_0000_0000_0000
    ensures Pow2(54) == 0x40_0000_0000_0000 && Pow2(63) == 0x8000_0000_0000_0000
  {
    Powers();
    PowerSum(12, 9);
    PowerSum(21, 9);
    PowerSum(30, 9);
    PowerSum(39, 1);
    PowerSum(40, 7);
    PowerSum(47, 1);
    PowerSum(47, 7);
    PowerSum(54, 9);
  }

  lemma Divided(x: nat, d: nat)
    requires d > 0
    ensures x == x % d + d * (x / d) && x % d < d
  {
  }

  lemma HighBits(v: nat, lo: nat, w: nat, j: nat, k: nat)
    requires lo < Pow2(j) && v == lo + Pow2(j) * w
    ensures Bit(v, j + k) == Bit(w, k)
  {
    BitParts(lo, j, w, j + k);
  }

  lemma LowBits(v: nat, w: nat, h: nat, n: nat, k: nat)
    requires w < Pow2(n) && v == w + Pow2(n) * h
    ensures Bit(w, k) <==> k < n && Bit(v, k)
  {
    BitParts(w, n, h, k);
    if k >= n { SmallBits(w, n, k); }
  }

  /** The field of bits `j` to `j + n - 1` of a word, as a number. */
  lemma FieldBits(x: nat, lo: nat, f: nat, hi: nat, j: nat, n: nat, k: nat)
    requires lo < Pow2(j) && f < Pow2(n) && x == lo + Pow2(j) * (f + Pow2(n) * hi)
    ensures Bit(f, k) <==> k < n && Bit(x, j + k)
  {
    var q := f + Pow2(n) * hi;
    HighBits(x, lo, q, j, k);
    LowBits(q, f, hi, n, k);
  }

  lemma ShiftedBits(h: nat, j: nat, k: nat)
    ensures Bit(Pow2(j) * h, k) <==> k >= j && Bit(h, k - j)
  {
    Pow2Positive(j);
    BitParts(0, j, h, k);
    NoBits(k);
  }

  // ---------- addresses ----------

  /** The address part of an entry or address is its bits 12 to 51. */
  lemma AddrBitsBits(e: u64, k: nat)
    ensures Bit(AddrBits(e), k) <==> 12 <= k < 52 && Bit(e, k)
  {
    Powers();
    BigPowers();
    var q := e / 4096;
    Divided(e, 4096);
    Divided(q, POW40);
    ShiftedBits(q % POW40, 12, k);
    if k >= 12 { FieldBits(e, e % 4096, q % POW40, q / POW40, 12, 40, k - 12); }
  }

  /** The rest of an entry is its other bits. */
  lemma OtherBitsBits(e: u64, k: nat)
    ensures Bit(OtherBits(e), k) <==> !(12 <= k < 52) && Bit(e, k)
  {
    Powers();
    BigPowers();
    var low, q := e % 4096, e / 4096;
    var mid, top := q % POW40, q / POW40;
    Divided(e, 4096);
    Divided(q, POW40);
    assert OtherBits(e) == low + 4096 * (POW40 * top);
    BitParts(low, 12, POW40 * top, k);
    if k < 12 {
      LowBits(e, low, q, 12, k);
    } else {
      ShiftedBits(top, 40, k - 12);
      HighBits(e, low, q, 12, k - 12);
      if k >= 52 { HighBits(q, mid, top, 40, k - 52); }
    }
  }

  lemma NineBits(v: nat, d: nat, j: nat, k: nat)
    requires d == Pow2(j) > 0 && k < 9
    ensures Bit(v / d % 512, k) <==> Bit(v, j + k)
  {
    Powers();
    var q := v / d;
    Divided(v, d);
    Divided(q, 512);
    FieldBits(v, v % d, q % 512, q / 512, j, 9, k);
  }

  /** Each table index is nine bits of the address. */
  lemma IndexBits(v: u64, j: nat)
    requires j < 9
    ensures Bit(IdxPml4(v), j) <==> Bit(v, 39 + j)
    ensures Bit(IdxPdpt(v), j) <==> Bit(v, 30 + j)
    ensures Bit(IdxPd(v), j) <==> Bit(v, 21 + j)
    ensures Bit(IdxPt(v), j) <==> Bit(v, 12 + j)
  {
    Powers();
    BigPowers();
    NineBits(v, 0x80_0000_0000, 39, j);
    NineBits(v, 0x4000_0000, 30, j);
    NineBits(v, 0x20_0000, 21, j);
    NineBits(v, 0x1000, 12, j);
  }

  lemma TopBits(v: u64, w: nat)
    requires w == v / 0x8000_0000_0000
    ensures w < 0x2_0000 && v / 0x1_0000_0000_0000 == w / 2
  {
  }

  /** Bits `lo` up to `hi` are all alike. */
  ghost predicate Alike(x: nat, lo: nat, hi: nat) {
    forall j, k :: lo <= j < hi && lo <= k < hi ==> Bit(x, j) == Bit(x, k)
  }

  /** Bits `lo` up to `hi` are all clear. */
  ghost predicate Clear(x: nat, lo: nat, hi: nat) {
    forall k :: lo <= k < hi ==> !Bit(x, k)
  }

  /** The bits of an n-bit number are all alike exactly in 0 and 2^n - 1. */
  lemma SpreadIff(w: nat, n: nat)
    requires n > 0 && w < Pow2(n)
    ensures Alike(w, 0, n) <==> w == 0 || w + 1 == Pow2(n)
  {
    if w == 0 {
      forall k | 0 <= k < n ensures !Bit(w, k) { NoBits(k); }
    } else if w + 1 == Pow2(n) {
      forall k | 0 <= k < n ensures Bit(w, k) { AllSet(w, n, k); }
    } else {
      var j := SomeSet(w, n);
      var k := SomeClear(w, n);
      assert Bit(w, j) != Bit(w, k);
    }
  }

  lemma CanonicalTop(v: u64, w: nat)
    requires w == v / 0x8000_0000_0000
    ensures Canonical(v) <==> w == 0 || w == 0x1_FFFF
  {
  }

  /** Canonical: bits 47 to 63 are all alike. */
  lemma CanonicalIff(v: u64)
    ensures Canonical(v) <==> Alike(v, 47, 64)
  {
    Powers();
    BigPowers();
    var w := v / 0x8000_0000_0000;
    TopBits(v, w);
    CanonicalTop(v, w);
    SpreadIff(w, 17);
    Divided(v, 0x8000_0000_0000);
    AlikeAbove(v, v % 0x8000_0000_0000, w, 47, 17);
  }

  lemma AlikeAbove(v: nat, lo: nat, w: nat, j: nat, n: nat)
    requires lo < Pow2(j) && v == lo + Pow2(j) * w
    ensures Alike(v, j, j + n) <==> Alike(w, 0, n)
  {
    forall k: nat ensures Bit(v, j + k) == Bit(w, k) { HighBits(v, lo, w, j, k); }
    if Alike(v, j, j + n) {
      forall a, b | 0 <= a < n && 0 <= b < n ensures Bit(w, a) == Bit(w, b) { assert Bit(v, j + a) == Bit(v, j + b); }
    } else {
      var a, b :| j <= a < j + n && j <= b < j + n && Bit(v, a) != Bit(v, b);
      assert Bit(v, j + (a - j)) == Bit(w, a - j) && Bit(v, j + (b - j)) == Bit(w, b - j);
    }
  }

  /** Page aligned: bits 0 to 11 are clear. */
  lemma AlignedIff(v: u64)
    ensures Aligned(v) <==> Clear(v, 0, 12)
  {
    Powers();
    var low, n := v % 4096, 12;
    Divided(v, 4096);
    forall k | 0 <= k < n ensures Bit(v, k) == Bit(low, k) { BitParts(low, n, v / 4096, k); }
    if low == 0 {
      forall k | 0 <= k < n ensures !Bit(v, k) { NoBits(k); }
    } else {
      var k := SomeSet(low, n);
      assert Bit(v, k);
    }
  }

  // ---------- flags ----------

  /** An entry is present by its bit 0 and maps a huge page by its bit 7. */
  lemma EntryTests(e: u64)
    ensures (Present(e) <==> Bit(e, 0)) && (Huge(e) <==> Bit(e, 7))
  {
    Powers();
    Divided(e, 128);
    HighBits(e, e % 128, e / 128, 7, 0);
  }

  /** A table is linked present and writable: bits 0 and 1 beside the address. */
  lemma TableEntryFlags(p: u64, k: nat)
    requires k < 64
    ensures Bit(TableEntry(p), k) <==> k == 0 || k == 1 || (12 <= k < 52 && Bit(p, k))
  {
    Powers();
    var h := p / 4096 % POW40;
    assert TableEntry(p) == 3 + 4096 * h;
    BitParts(3, 12, h, k);
    ShiftedBits(h, 12, k);
    AddrBitsBits(p, k);
    if k < 12 { BitsOfThree(k); }
  }

  lemma BitsOfThree(k: nat)
    ensures Bit(3, k) <==> k <= 1
  {
    if k >= 2 { NoBits(k - 2); }
  }

  lemma UpperParts(b: nat, c: nat, k: nat)
    requires b < 2
    ensures Bit(b + 2 * (Pow2(54) * c), k) <==> if k == 0 then Bit(b, 0) else k >= 55 && Bit(c, k - 55)
  {
    Powers();
    BitParts(b, 1, Pow2(54) * c, k);
    if k >= 1 { ShiftedBits(c, 54, k - 1); }
  }

  lemma LowerParts(a: nat, mid: nat, k: nat)
    requires a < 16
    ensures Bit(1 + 2 * (a + 16 * (8 * mid)), k) <==>
            if k == 0 then true else if k < 5 then Bit(a, k - 1) else k >= 8 && Bit(mid, k - 8)
  {
    Powers();
    BitParts(1, 1, a + 16 * (8 * mid), k);
    if k >= 1 {
      BitParts(a, 4, 8 * mid, k - 1);
      if k >= 5 { ShiftedBits(mid, 3, k - 5); }
    }
  }

  /** The flags a page entry gets, part by part: bit 0, bits 1 to 4, bit 8 and bit 63. */
  lemma PartsBits(a: nat, b: nat, c: nat, k: nat)
    requires a < 16 && b < 2
    ensures Bit(1 + 2 * a + 256 * b + 0x8000_0000_0000_0000 * c, k) <==>
            k == 0 || (1 <= k < 5 && Bit(a, k - 1)) || (k == 8 && Bit(b, 0)) || (k >= 63 && Bit(c, k - 63))
  {
    BigPowers();
    var mid := b + 2 * (Pow2(54) * c);
    assert 1 + 2 * a + 256 * b + 0x8000_0000_0000_0000 * c == 1 + 2 * (a + 16 * (8 * mid));
    LowerParts(a, mid, k);
    if k >= 8 { UpperParts(b, c, k - 8); }
  }

  lemma GivenLow(flags: nat, k: nat)
    requires 1 <= k < 5
    ensures Bit(flags / 2 % 16, k - 1) <==> Bit(flags, k)
  {
    Powers();
    var q := flags / 2;
    Divided(flags, 2);
    Divided(q, 16);
    FieldBits(flags, flags % 2, q % 16, q / 16, 1, 4, k - 1);
  }

  lemma GivenGlobal(flags: nat)
    ensures Bit(flags / 256 % 2, 0) <==> Bit(flags, 8)
  {
    Powers();
    PowerSum(7, 1);
    var q := flags / 256;
    Divided(flags, 256);
    Divided(q, 2);
    FieldBits(flags, flags % 256, q % 2, q / 2, 8, 1, 0);
  }

  lemma GivenTop(flags: nat)
    ensures Bit(flags / POW63, 0) <==> Bit(flags, 63)
  {
    BigPowers();
    Divided(flags, POW63);
    HighBits(flags, flags % POW63, flags / POW63, 63, 0);
  }

  lemma LeafFlagsBits(flags: u64, k: nat)
    requires k < 64
    ensures Bit(LeafFlags(flags), k) <==> k == 0 || (k in {1, 2, 3, 4, 8, 63} && Bit(flags, k))
  {
    var a, b, c := flags / 2 % 16, flags / 256 % 2, flags / POW63;
    assert LeafFlags(flags) == 1 + 2 * a + 256 * b + 0x8000_0000_0000_0000 * c;
    PartsBits(a, b, c, k);
    if 1 <= k < 5 { GivenLow(flags, k); }
    GivenGlobal(flags);
    GivenTop(flags);
  }

  /** After a map that succeeds, query finds the page with bits 12 to 51 of the physical address, and its
      flags are PRESENT and exactly those of WRITABLE, USER, WRITE_THROUGH, CACHE_DISABLE, GLOBAL and
      NO_EXECUTE that were given, each in its own place. */
  lemma MappedBits(s: Space, h: Heap, v: u64, p: u64, flags: u64, k: nat)
    requires Tree(s) && h.mem == s.mem && FreshSupply(s, h.supply) && k < 64
    requires Map(s.root, h, v, p, flags).0 == Ok
    ensures var found := Query(s.(mem := Map(s.root, h, v, p, flags).1.mem), v);
            && found.Hit? && found.value.vaddr == v
            && (Bit(found.value.paddr, k) <==> 12 <= k < 52 && Bit(p, k))
            && (Bit(found.value.flags, k) <==> k == 0 || (k in {1, 2, 3, 4, 8, 63} && Bit(flags, k)))
  {
    MapEffect(s, h, v, p, flags);
    LeafFlagsBits(flags, k);
    AddrBitsBits(p, k);
  }
}
