/** Four-level page tables as a value: physical memory is a map from table address to 512 entries,
    read and written with the entry layout of section 4.5 of the Intel SDM, Volume 3A. */
module PageModel {
  import opened Words

  const ENTRIES := 512
  const INVALID_PHYS: u64 := 0xffff_ffff_ffff_ffff
  const POW40 := 0x100_0000_0000
  const POW52 := 0x10_0000_0000_0000
  const POW63 := 0x8000_0000_0000_0000

  type Table = t: seq<u64> | |t| == 512 witness seq(512, _ => 0)
  type Memory = map<u64, Table>

  datatype Space = Space(root: u64, mem: Memory)

  datatype Status = Ok | Inval | NoMem | Exists | NotFound
  datatype Mapping = Mapping(vaddr: u64, paddr: u64, flags: u64)
  datatype Found<T> = Hit(value: T) | Miss(status: Status)

  // ---------- addresses and entries ----------

  predicate Aligned(v: u64) { v % PAGE == 0 }

  /** Bits 48 to 63 all equal bit 47. */
  predicate Canonical(v: u64) {
    if v / 0x8000_0000_0000 % 2 == 1 then v / 0x1_0000_0000_0000 == 0xFFFF
    else v / 0x1_0000_0000_0000 == 0
  }

  function IdxPml4(v: u64): (i: nat) ensures i < ENTRIES { v / 0x80_0000_0000 % 512 }
  function IdxPdpt(v: u64): (i: nat) ensures i < ENTRIES { v / 0x4000_0000 % 512 }
  function IdxPd(v: u64): (i: nat) ensures i < ENTRIES { v / 0x20_0000 % 512 }
  function IdxPt(v: u64): (i: nat) ensures i < ENTRIES { v / 0x1000 % 512 }

  /** The table path of an address: its three upper indices. */
  function PathOf(v: u64): (q: seq<nat>)
    ensures ValidPath(q) && |q| == 3
  {
    [IdxPml4(v), IdxPdpt(v), IdxPd(v)]
  }

  predicate Present(e: u64) { e % 2 == 1 }
  predicate Huge(e: u64) { e / 128 % 2 == 1 }

  /** `e & VMM_PTE_ADDR_MASK`: bits 12 to 51. */
  function AddrBits(e: u64): u64 {
    e / 4096 % POW40 * 4096
  }

  /** `e & ~VMM_PTE_ADDR_MASK`. */
  function OtherBits(e: u64): (r: u64)
    ensures AddrBits(e) + r == e
  {
    e - AddrBits(e)
  }

  /** `flags & allowed`: bits 1 to 4, 8 and 63. */
  function AllowedBits(flags: u64): u64 {
    flags / 2 % 16 * 2 + flags / 256 % 2 * 256 + flags / POW63 * POW63
  }

  /** The flags a successful map leaves in the entry: present plus the allowed ones. */
  function LeafFlags(flags: u64): u64 {
    1 + AllowedBits(flags)
  }

  function TableEntry(p: u64): u64 {
    AddrBits(p) + 3
  }

  function LeafEntry(p: u64, flags: u64): u64 {
    AddrBits(p) + LeafFlags(flags)
  }

  /** Canonical page addresses are determined by their four indices. */
  lemma IndicesDetermineAddress(v: u64, w: u64)
    requires Canonical(v) && Canonical(w) && Aligned(v) && Aligned(w)
    requires PathOf(v) == PathOf(w) && IdxPt(v) == IdxPt(w)
    ensures v == w
  {
    assert PathOf(v)[0] == PathOf(w)[0] && PathOf(v)[1] == PathOf(w)[1] && PathOf(v)[2] == PathOf(w)[2];
    LowBits(v);
    LowBits(w);
  }

  lemma ShiftTwelve(v: nat)
    ensures v / 0x1000 / 512 == v / 0x20_0000
  {
  }

  lemma ShiftTwentyOne(v: nat)
    ensures v / 0x20_0000 / 512 == v / 0x4000_0000
  {
  }

  lemma ShiftThirty(v: nat)
    ensures v / 0x4000_0000 / 512 == v / 0x80_0000_0000
  {
  }

  lemma ShiftThirtyNine(v: nat)
    ensures v / 0x80_0000_0000 / 512 == v / 0x1_0000_0000_0000
    ensures v / 0x80_0000_0000 / 256 == v / 0x8000_0000_0000
  {
  }

  lemma Digit(w: nat)
    ensures w == w / 512 * 512 + w % 512
  {
  }

  lemma TopDigit(w: nat)
    ensures w / 256 % 2 == w % 512 / 256
  {
    var a, b := w / 512, w % 512;
    assert w == 256 * (2 * a + b / 256) + b % 256;
    Quotient256(2 * a + b / 256, b % 256);
  }

  lemma Quotient256(y: nat, r: nat)
    requires r < 256
    ensures (256 * y + r) / 256 == y
  {
  }

  lemma Compose(v: nat, a: nat, b: nat, c: nat, d: nat, e: nat, i: nat, j: nat, k: nat, l: nat, low: nat)
    requires v == a * 0x1000 + low && a == b * 512 + i && b == c * 512 + j && c == d * 512 + k && d == e * 512 + l
    ensures v == e * 0x1_0000_0000_0000 + l * 0x80_0000_0000 + k * 0x4000_0000 + j * 0x20_0000 + i * 0x1000 + low
  {
  }

  /** The bits below bit 48 are the four indices and the page offset. */
  lemma LowBits(v: u64)
    ensures v == v / 0x1_0000_0000_0000 * 0x1_0000_0000_0000 +
                 IdxPml4(v) * 0x80_0000_0000 + IdxPdpt(v) * 0x4000_0000 + IdxPd(v) * 0x20_0000 +
                 IdxPt(v) * 0x1000 + v % 0x1000
    ensures v / 0x8000_0000_0000 % 2 == IdxPml4(v) / 256
  {
    var a, b, c, d := v / 0x1000, v / 0x20_0000, v / 0x4000_0000, v / 0x80_0000_0000;
    ShiftTwelve(v);
    ShiftTwentyOne(v);
    ShiftThirty(v);
    ShiftThirtyNine(v);
    Digit(a);
    Digit(b);
    Digit(c);
    Digit(d);
    TopDigit(d);
    Compose(v, a, b, c, d, v / 0x1_0000_0000_0000, a % 512, b % 512, c % 512, d % 512, v % 0x1000);
  }

  lemma TableEntryBits(p: u64)
    requires Aligned(p) && p < POW52
    ensures Present(TableEntry(p)) && !Huge(TableEntry(p)) && AddrBits(TableEntry(p)) == p
  {
    var hi := p / 4096;
    assert p == hi * 4096 && AddrBits(p) == p;
    WordParts(hi, 0, 3);
  }

  lemma FrameOf(hi: nat, low: nat)
    requires low < 4096
    ensures (hi * 4096 + low) / 4096 == hi
  {
  }

  lemma BitZero(hi: nat, low: nat)
    ensures (hi * 4096 + low) % 2 == low % 2
  {
    assert hi * 4096 + low == 2 * (hi * 2048) + low;
  }

  lemma BitSeven(hi: nat, low: nat)
    requires low < 4096
    ensures (hi * 4096 + low) / 128 % 2 == low / 128 % 2
  {
    var a, r := low / 128, low % 128;
    assert hi * 4096 + low == 128 * (hi * 32 + a) + r;
    Above(hi * 32 + a, r);
    assert hi * 32 + a == 2 * (hi * 16) + a;
  }

  lemma Above(y: nat, r: nat)
    requires r < 128
    ensures (128 * y + r) / 128 == y
  {
  }

  lemma TopRemainder(hi: nat, c: nat)
    requires hi < 0x100_0000_0000 && c <= 1
    ensures (hi + c * 0x8_0000_0000_0000) % 0x100_0000_0000 == hi
  {
    if c == 1 { assert hi + 0x8_0000_0000_0000 == 2048 * 0x100_0000_0000 + hi; }
  }

  /** An entry made of an address part, a low part and bit 63. */
  lemma WordParts(hi: int, c: int, low: int)
    requires 0 <= hi < POW40 && 0 <= c <= 1 && 0 <= low < 4096
    ensures var e := hi * 4096 + low + c * POW63;
            && 0 <= e < TWO64 && AddrBits(e) == hi * 4096
            && (Present(e) <==> low % 2 == 1) && (Huge(e) <==> low / 128 % 2 == 1)
  {
    var top := hi + c * 0x8_0000_0000_0000;
    assert hi * 4096 + low + c * POW63 == top * 4096 + low;
    FrameOf(top, low);
    BitZero(top, low);
    BitSeven(top, low);
    TopRemainder(hi, c);
  }

  lemma LeafEntryBits(p: u64, flags: u64)
    ensures var e := LeafEntry(p, flags);
            Present(e) && !Huge(e) && AddrBits(e) == AddrBits(p) && OtherBits(e) == LeafFlags(flags)
  {
    var a, b, c := flags / 2 % 16, flags / 256 % 2, flags / POW63;
    WordParts(p / 4096 % POW40, c, 1 + a * 2 + b * 256);
  }

  lemma AddrBitsKeep(p: u64)
    requires Aligned(p)
    ensures AddrBits(p) == p <==> p < POW52
  {
    assert p == p / 4096 * 4096;
    assert p / 4096 < POW40 <==> p < POW52;
  }

  lemma Bit52IsLost()
    ensures AddrBits(POW52) == 0
  {
    assert 0x10_0000_0000_0000 / 4096 == 0x100_0000_0000;
  }

  // ---------- walking ----------

  predicate Accessible(mem: Memory, p: u64) {
    Aligned(p) && p in mem
  }

  /** One level of `vmm_query_page` and `vmm_unmap_page`. */
  function Descend(mem: Memory, t: u64, i: nat): (r: Found<u64>)
    requires Accessible(mem, t) && i < ENTRIES
    ensures r.Hit? ==> Accessible(mem, r.value)
  {
    var e := mem[t][i];
    if !Present(e) || Huge(e) then Miss(NotFound)
    else if !Accessible(mem, AddrBits(e)) then Miss(Inval)
    else Hit(AddrBits(e))
  }

  /** The last-level table of `v`, as query and unmap reach it. */
  function LastTable(s: Space, v: u64): (r: Found<u64>)
    ensures r.Hit? ==> Accessible(s.mem, r.value)
  {
    if !Canonical(v) || !Aligned(v) || !Accessible(s.mem, s.root) then Miss(Inval)
    else
      var pdpt := Descend(s.mem, s.root, IdxPml4(v));
      if pdpt.Miss? then pdpt
      else
        var pd := Descend(s.mem, pdpt.value, IdxPdpt(v));
        if pd.Miss? then pd else Descend(s.mem, pd.value, IdxPd(v))
  }

  function Query(s: Space, v: u64): Found<Mapping> {
    var pt := LastTable(s, v);
    if pt.Miss? then Miss(pt.status)
    else
      var e := s.mem[pt.value][IdxPt(v)];
      if Present(e) then Hit(Mapping(v, AddrBits(e), OtherBits(e))) else Miss(NotFound)
  }

  function WriteEntry(mem: Memory, t: u64, i: nat, e: u64): Memory
    requires t in mem && i < ENTRIES
  {
    mem[t := mem[t][i := e]]
  }

  function Unmap(s: Space, v: u64): (Status, Space) {
    var pt := LastTable(s, v);
    if pt.Miss? then (pt.status, s)
    else if !Present(s.mem[pt.value][IdxPt(v)]) then (NotFound, s)
    else (Ok, s.(mem := WriteEntry(s.mem, pt.value, IdxPt(v), 0)))
  }

  // ---------- mapping ----------

  /** The allocator callback is an oracle: `supply` is what its next calls return (no answers left
      is a null callback), and `returned` collects what was handed back through `free_frame`. */
  datatype Heap = Heap(mem: Memory, supply: seq<u64>, returned: seq<u64>)

  datatype Stepped = Failed(status: Status, heap: Heap) | Moved(table: u64, heap: Heap)

  function ZeroTable(): Table {
    seq(512, _ => 0)
  }

  function GetOrAlloc(h: Heap, t: u64, i: nat): (r: Stepped)
    requires Accessible(h.mem, t) && i < ENTRIES
    ensures r.Moved? ==> Accessible(r.heap.mem, r.table)
    ensures r.heap.mem.Keys == h.mem.Keys
  {
    var e := h.mem[t][i];
    if Present(e) then
      if Huge(e) then Failed(Exists, h)
      else if !Accessible(h.mem, AddrBits(e)) then Failed(Inval, h)
      else Moved(AddrBits(e), h)
    else if h.supply == [] then Failed(NoMem, h)
    else
      var p, rest := h.supply[0], h.supply[1..];
      if p == INVALID_PHYS || !Aligned(p) then Failed(NoMem, h.(supply := rest))
      else if p !in h.mem then Failed(Inval, h.(supply := rest, returned := h.returned + [p]))
      else Moved(p, h.(supply := rest, mem := WriteEntry(h.mem[p := ZeroTable()], t, i, TableEntry(p))))
  }

  function ReachLastTable(root: u64, h: Heap, v: u64): (r: Stepped)
    requires Accessible(h.mem, root)
    ensures r.Moved? ==> Accessible(r.heap.mem, r.table)
    ensures r.heap.mem.Keys == h.mem.Keys
  {
    var pdpt := GetOrAlloc(h, root, IdxPml4(v));
    if pdpt.Failed? then pdpt
    else
      var pd := GetOrAlloc(pdpt.heap, pdpt.table, IdxPdpt(v));
      if pd.Failed? then pd else GetOrAlloc(pd.heap, pd.table, IdxPd(v))
  }

  function Map(root: u64, h: Heap, v: u64, p: u64, flags: u64): (Status, Heap) {
    if !Canonical(v) || !Aligned(v) || !Aligned(p) || !Accessible(h.mem, root) then (Inval, h)
    else
      var pt := ReachLastTable(root, h, v);
      if pt.Failed? then (pt.status, pt.heap)
      else if Present(pt.heap.mem[pt.table][IdxPt(v)]) then (Exists, pt.heap)
      else
        (Ok, pt.heap.(mem := WriteEntry(pt.heap.mem, pt.table, IdxPt(v), LeafEntry(p, flags))))
  }

  // ---------- the tree of tables ----------

  predicate ValidPath(q: seq<nat>) {
    |q| <= 3 && forall k :: 0 <= k < |q| ==> q[k] < ENTRIES
  }

  /** The table reached from the root along `q`. */
  function Walk(s: Space, q: seq<nat>): Option<u64>
    requires ValidPath(q)
  {
    if q == [] then Some(s.root)
    else
      var up := Walk(s, q[..|q| - 1]);
      if up.None? || up.value !in s.mem then None
      else
        var e := s.mem[up.value][q[|q| - 1]];
        if Present(e) && !Huge(e) then Some(AddrBits(e)) else None
  }

  ghost predicate IsTable(s: Space, t: u64) {
    exists q :: ValidPath(q) && Walk(s, q) == Some(t)
  }

  /** Each reachable table is accessible and reached along exactly one path, so it is referenced by
      exactly one entry and the levels are disjoint; upper entries are never huge pages. */
  ghost predicate Tree(s: Space) {
    && (forall q :: ValidPath(q) && Walk(s, q).Some? ==> Accessible(s.mem, Walk(s, q).value))
    && (forall q, r :: ValidPath(q) && ValidPath(r) && Walk(s, q).Some? && Walk(s, q) == Walk(s, r)
          ==> q == r)
    && (forall q, i :: ValidPath(q) && |q| <= 2 && Walk(s, q).Some? && 0 <= i < ENTRIES ==>
          !(Present(s.mem[Walk(s, q).value][i]) && Huge(s.mem[Walk(s, q).value][i])))
  }

  /** The entry that translates the page at index `d` of the last-level table at path `q`. */
  ghost function Leaf(s: Space, q: seq<nat>, d: nat): Option<u64>
    requires ValidPath(q) && |q| == 3 && d < ENTRIES
  {
    var t := Walk(s, q);
    if t.Some? && t.value in s.mem && Present(s.mem[t.value][d]) then Some(s.mem[t.value][d]) else None
  }
}
