/** `struct vmm_space` with the physical memory its tables live in. The allocator callback is the
    queue of answers `supply`; frames given to `free_frame` are appended to `returned`. TLB
    invalidation has no effect on the tables and is not represented. */
module AddressSpace {
  import opened Words
  import opened PageModel

  class VmmSpace {
    var root: u64
    var mem: Memory
    var supply: seq<u64>
    var returned: seq<u64>

    ghost function State(): Heap
      reads this
    {
      Heap(mem, supply, returned)
    }

    constructor (mem: Memory, supply: seq<u64>)
      ensures this.mem == mem && this.supply == supply && returned == []
    {
      this.mem, this.supply, returned, root := mem, supply, [], 0;
    }

    method Init(rootPaddr: u64) returns (status: Status)
      modifies this`root
      ensures status == if Aligned(rootPaddr) then Ok else Inval
      ensures root == if status == Ok then rootPaddr else old(root)
    {
      if !Aligned(rootPaddr) {
        return Inval;
      }
      root := rootPaddr;
      return Ok;
    }

    method ZeroPage(p: u64)
      requires p in mem
      modifies this`mem
      ensures mem == old(mem)[p := ZeroTable()]
    {
      for i := 0 to ENTRIES
        invariant mem.Keys == old(mem).Keys
        invariant forall x :: x in mem && x != p ==> mem[x] == old(mem)[x]
        invariant forall j :: 0 <= j < i ==> mem[p][j] == 0
      {
        mem := mem[p := mem[p][i := 0]];
      }
      assert mem[p] == ZeroTable();
    }

    method GetOrAllocNextTable(table: u64, index: nat) returns (status: Status, next: u64)
      requires Accessible(mem, table) && index < ENTRIES
      modifies this`mem, this`supply, this`returned
      ensures match GetOrAlloc(old(State()), table, index)
              case Moved(t, h) => status == Ok && next == t && State() == h
              case Failed(e, h) => status == e && status != Ok && State() == h
    {
      next := 0;
      var entry := mem[table][index];
      if Present(entry) {
        if Huge(entry) {
          return Exists, next;
        }
        if !Accessible(mem, AddrBits(entry)) {
          return Inval, next;
        }
        return Ok, AddrBits(entry);
      }
      if supply == [] {
        return NoMem, next;
      }
      var frame := supply[0];
      supply := supply[1..];
      if frame == INVALID_PHYS || !Aligned(frame) {
        return NoMem, next;
      }
      if !Accessible(mem, frame) {
        returned := returned + [frame];
        return Inval, next;
      }
      ZeroPage(frame);
      mem := WriteEntry(mem, table, index, TableEntry(frame));
      return Ok, frame;
    }

    method MapPage(v: u64, p: u64, flags: u64) returns (status: Status)
      modifies this`mem, this`supply, this`returned
      ensures (status, State()) == Map(root, old(State()), v, p, flags)
    {
      if !Canonical(v) || !Aligned(v) || !Aligned(p) {
        return Inval;
      }
      if !Accessible(mem, root) {
        return Inval;
      }
      var pdpt, pd, pt;
      status, pdpt := GetOrAllocNextTable(root, IdxPml4(v));
      if status != Ok { return; }
      status, pd := GetOrAllocNextTable(pdpt, IdxPdpt(v));
      if status != Ok { return; }
      status, pt := GetOrAllocNextTable(pd, IdxPd(v));
      if status != Ok { return; }
      if Present(mem[pt][IdxPt(v)]) {
        return Exists;
      }
      mem := WriteEntry(mem, pt, IdxPt(v), LeafEntry(p, flags));
      return Ok;
    }

    method QueryPage(v: u64) returns (r: Found<Mapping>)
      ensures r == Query(Space(root, mem), v)
    {
      if !Canonical(v) || !Aligned(v) || !Accessible(mem, root) {
        return Miss(Inval);
      }
      var e := mem[root][IdxPml4(v)];
      if !Present(e) || Huge(e) { return Miss(NotFound); }
      var pdpt := AddrBits(e);
      if !Accessible(mem, pdpt) { return Miss(Inval); }
      e := mem[pdpt][IdxPdpt(v)];
      if !Present(e) || Huge(e) { return Miss(NotFound); }
      var pd := AddrBits(e);
      if !Accessible(mem, pd) { return Miss(Inval); }
      e := mem[pd][IdxPd(v)];
      if !Present(e) || Huge(e) { return Miss(NotFound); }
      var pt := AddrBits(e);
      if !Accessible(mem, pt) { return Miss(Inval); }
      e := mem[pt][IdxPt(v)];
      if !Present(e) { return Miss(NotFound); }
      return Hit(Mapping(v, AddrBits(e), OtherBits(e)));
    }

    method UnmapPage(v: u64) returns (status: Status)
      modifies this`mem
      ensures (status, Space(root, mem)) == Unmap(Space(root, old(mem)), v)
    {
      if !Canonical(v) || !Aligned(v) || !Accessible(mem, root) {
        return Inval;
      }
      var e := mem[root][IdxPml4(v)];
      if !Present(e) || Huge(e) { return NotFound; }
      var pdpt := AddrBits(e);
      if !Accessible(mem, pdpt) { return Inval; }
      e := mem[pdpt][IdxPdpt(v)];
      if !Present(e) || Huge(e) { return NotFound; }
      var pd := AddrBits(e);
      if !Accessible(mem, pd) { return Inval; }
      e := mem[pd][IdxPd(v)];
      if !Present(e) || Huge(e) { return NotFound; }
      var pt := AddrBits(e);
      if !Accessible(mem, pt) { return Inval; }
      if !Present(mem[pt][IdxPt(v)]) { return NotFound; }
      mem := WriteEntry(mem, pt, IdxPt(v), 0);
      return Ok;
    }
  }
}
