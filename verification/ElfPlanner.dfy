/** The ELF64 planner filling its output plan in place. */
module ElfPlanner {
  import opened Words
  import opened ElfModel

  datatype Segment = Segment(fileOffset: u64, vaddr: u64, filesz: u64, memsz: u64, align: u64, flags: nat)

  const NO_SEGMENT := Segment(0, 0, 0, 0, 0, 0)

  /** What a planned segment says of its program header. */
  ghost predicate Describes(seg: Segment, ph: Phdr) {
    && seg.fileOffset == ph.offset && seg.vaddr == ph.vaddr && seg.filesz == ph.filesz && seg.memsz == ph.memsz
    && seg.align == ph.align && seg.flags == ph.flags
  }

  function SegmentOf(ph: Phdr): Segment {
    Segment(ph.offset, ph.vaddr, ph.filesz, ph.memsz, ph.align, ph.flags)
  }

  class ProcessImagePlan {
    var entry: u64
    var segmentCount: nat
    const segments: array<Segment>

    ghost predicate Shape()
      reads this
    {
      segments.Length == MAX_LOAD_SEGMENTS && segmentCount <= MAX_LOAD_SEGMENTS
    }

    /** No segment is left in the plan. */
    ghost predicate Empty()
      reads this, segments
    {
      Shape() && segmentCount == 0 && forall k :: 0 <= k < MAX_LOAD_SEGMENTS ==> segments[k] == NO_SEGMENT
    }

    constructor ()
      ensures Shape() && fresh(segments)
    {
      entry := 0;
      segmentCount := 0;
      segments := new Segment[MAX_LOAD_SEGMENTS](_ => NO_SEGMENT);
    }

    method Zero()
      requires Shape()
      modifies this, segments
      ensures Empty() && entry == 0
    {
      entry := 0;
      segmentCount := 0;
      var i := 0;
      while i < MAX_LOAD_SEGMENTS
        invariant i <= MAX_LOAD_SEGMENTS && Shape() && entry == 0 && segmentCount == 0
        invariant forall k :: 0 <= k < i ==> segments[k] == NO_SEGMENT
      {
        segments[i] := NO_SEGMENT;
        i := i + 1;
      }
    }

    /** The plan holds exactly these headers, in order, and nothing after them. */
    ghost predicate Holds(loads: seq<Phdr>)
      reads this, segments
    {
      && Shape() && segmentCount == |loads|
      && (forall k :: 0 <= k < |loads| ==> Describes(segments[k], loads[k]))
      && (forall k :: |loads| <= k < MAX_LOAD_SEGMENTS ==> segments[k] == NO_SEGMENT)
    }

    /** Reads only inside the image. On success the plan holds exactly the image's PT_LOAD headers in table
        order, all of them loadable; on every error it holds no segment. The entry is kept when the only
        fault is that nothing is loadable. */
    method PlanLoad(image: Image, region: Region) returns (rc: Status)
      requires Shape()
      modifies this, segments
      ensures rc == Plan(image, region) && (rc == Ok <==> Plannable(image, region))
      ensures rc == Ok ==> Holds(AllLoads(image)) && entry == Entry(image)
      ensures rc != Ok ==> Empty() && entry == if GoodHeader(image, region) && AllLoads(image) == []
                                               then Entry(image) else 0
    {
      PlanIff(image, region);
      HeaderIff(image, region);
      Zero();
      rc := Header(image, region);
      if rc != Ok { return; }
      entry := Entry(image);
      rc := FillSegments(image, region);
    }

    /** The `i`-th program header, read from inside the image. */
    static method ReadEntry(image: Image, i: nat) returns (ph: Phdr)
      requires |image| >= EHDR_SIZE && TableInside(image) && i < Phnum(image)
      ensures ph == Table(image)[i]
    {
      ph := ReadPhdr(image, Phoff(image) + PHDR_SIZE * i);
    }

    /** Adds one loadable header to the plan, or clears the plan. */
    method PlanOne(ph: Phdr, size: u64, region: Region, ghost loads: seq<Phdr>) returns (rc: Status)
      requires Holds(loads)
      modifies this, segments
      ensures rc == if |loads| >= MAX_LOAD_SEGMENTS then ErrSegcount else LoadSegment(ph, size, region)
      ensures rc == Ok ==> Holds(loads + [ph]) && entry == old(entry)
      ensures rc != Ok ==> Empty() && entry == 0
    {
      if segmentCount >= MAX_LOAD_SEGMENTS {
        Zero();
        return ErrSegcount;
      }
      rc := LoadSegment(ph, size, region);
      if rc != Ok {
        Zero();
        return;
      }
      segments[segmentCount] := SegmentOf(ph);
      segmentCount := segmentCount + 1;
    }

    /** One round of the loop: a PT_LOAD header is planned, any other passed over. */
    method PlanEntry(image: Image, i: nat, region: Region) returns (rc: Status)
      requires |image| >= EHDR_SIZE && TableInside(image) && i < Phnum(image) && Holds(Loads(Table(image), i))
      modifies this, segments
      ensures var table := Table(image);
              rc == if table[i].kind != PT_LOAD then Ok
                    else if |Loads(table, i)| >= MAX_LOAD_SEGMENTS then ErrSegcount
                    else LoadSegment(table[i], |image|, region)
      ensures rc == Ok ==> Holds(Loads(Table(image), i + 1)) && entry == old(entry)
      ensures rc != Ok ==> Empty() && entry == 0
    {
      rc := Ok;
      var ph := ReadEntry(image, i);
      if ph.kind == PT_LOAD {
        rc := PlanOne(ph, |image|, region, Loads(Table(image), i));
      }
    }

    method FillSegments(image: Image, region: Region) returns (rc: Status)
      requires Empty() && GoodHeader(image, region)
      modifies this, segments
      ensures rc == Walk(AllLoads(image), |image|, region, 0)
      ensures rc == Ok ==> Holds(AllLoads(image)) && entry == old(entry)
      ensures rc != Ok ==> Empty() && entry == if AllLoads(image) == [] then old(entry) else 0
    {
      ghost var table, all := Table(image), AllLoads(image);
      ghost var result := Walk(all, |image|, region, segmentCount);
      var i := 0;
      while i < Phnum(image)
        invariant i <= |table| && Holds(Loads(table, i)) && entry == old(entry) && segmentCount <= |all|
        invariant result == Walk(all, |image|, region, segmentCount)
      {
        WalkOn(table, i, |image|, region);
        rc := PlanEntry(image, i, region);
        if rc != Ok { return; }
        i := i + 1;
      }
      rc := if segmentCount == 0 then ErrSegcount else Ok;
    }
  }
}
