/** The bounds of a loaded executable, gathered from its program headers. */
module ElfBounds {
  import opened Machine

  /** The fields of a program header that count here; load tells PT_LOAD from other types. */
  datatype Header = Header(load: bool, offset: int, vaddr: u32, filesz: u32)

  datatype Bounds = Bounds(virtualBase: u32, physicalBase: u32, virtualEnd: u32, physicalEnd: u32)

  function SegmentEnd(h: Header): u32 {
    Wrap32(h.vaddr + h.filesz)
  }

  /** elf_process_phdr_pt_load; a bound of 0 stands for one that is not set. */
  function Widen(b: Bounds, memory: u32, h: Header): Bounds {
    var atBase := b.virtualBase >= h.vaddr || b.virtualBase == 0;
    var atEnd := b.virtualEnd <= SegmentEnd(h) || b.virtualEnd == 0;
    Bounds(if atBase then h.vaddr else b.virtualBase,
           if atBase then Wrap32(memory + h.offset) else b.physicalBase,
           if atEnd then SegmentEnd(h) else b.virtualEnd,
           if atEnd then Wrap32(memory + h.offset + h.filesz) else b.physicalEnd)
  }

  /** The bounds after all headers, from those of a file that has just been allocated. */
  function BoundsOf(memory: u32, hs: seq<Header>): Bounds {
    if |hs| == 0 then Bounds(0, 0, 0, 0)
    else
      var before, h := BoundsOf(memory, hs[..|hs| - 1]), hs[|hs| - 1];
      if h.load then Widen(before, memory, h) else before
  }

  class ElfFile {
    const memory: u32
    var bounds: Bounds

    constructor (memory: u32)
      ensures this.memory == memory && bounds == Bounds(0, 0, 0, 0)
    {
      this.memory, bounds := memory, Bounds(0, 0, 0, 0);
    }

    /** elf_process_phdr_pt_load: both bounds take the segment in, a base of 0 being no base yet;
        a bound that moves goes with the place of the segment in memory. */
    method ProcessLoad(h: Header)
      modifies this
      ensures bounds == Widen(old(bounds), memory, h)
      ensures bounds.virtualBase <= h.vaddr
      ensures (h.vaddr + h.filesz) % 0x1_0000_0000 <= bounds.virtualEnd && old(bounds.virtualEnd) <= bounds.virtualEnd
      ensures old(bounds.virtualBase) != 0 ==> bounds.virtualBase <= old(bounds.virtualBase)
      ensures if bounds.virtualBase == h.vaddr
              then bounds.physicalBase == (memory + h.offset) % 0x1_0000_0000
              else bounds.virtualBase == old(bounds.virtualBase) && bounds.physicalBase == old(bounds.physicalBase)
      ensures if bounds.virtualEnd == (h.vaddr + h.filesz) % 0x1_0000_0000
              then bounds.physicalEnd == (memory + h.offset + h.filesz) % 0x1_0000_0000
              else bounds.virtualEnd == old(bounds.virtualEnd) && bounds.physicalEnd == old(bounds.physicalEnd)
    {
      if bounds.virtualBase >= h.vaddr || bounds.virtualBase == 0 {
        bounds := bounds.(virtualBase := h.vaddr, physicalBase := Wrap32(memory + h.offset));
      }
      var end := Wrap32(h.vaddr + h.filesz);
      if bounds.virtualEnd <= end || bounds.virtualEnd == 0 {
        bounds := bounds.(virtualEnd := end, physicalEnd := Wrap32(memory + h.offset + h.filesz));
      }
    }

    /** elf_process_pheaders, for a file that has just been allocated: the end is the greatest end
        of a segment, and the base the least address but for segments at 0. */
    method ProcessHeaders(hs: seq<Header>)
      requires bounds == Bounds(0, 0, 0, 0)
      modifies this
      ensures bounds == BoundsOf(memory, hs)
      ensures SomeSegment(hs) ==>
                && (forall h :: IsSegment(hs, h) ==> (h.vaddr + h.filesz) % 0x1_0000_0000 <= bounds.virtualEnd)
                && (exists h :: IsSegment(hs, h) && bounds.virtualEnd == (h.vaddr + h.filesz) % 0x1_0000_0000)
                && ((forall h :: IsSegment(hs, h) ==> bounds.virtualBase <= h.vaddr)
                    <==> NoneAtZero(hs) || LastSegment(hs).value.vaddr == 0)
    {
      for i := 0 to |hs|
        invariant bounds == BoundsOf(memory, hs[..i])
      {
        assert hs[..i + 1][..i] == hs[..i];
        if hs[i].load {
          ProcessLoad(hs[i]);
        }
      }
      assert hs[..|hs|] == hs;
      if SomeSegment(hs) {
        BoundsOfSegments(memory, hs);
        BaseIsLeastIff(memory, hs);
      }
    }
  }

  /** The headers of segments to be loaded. */
  predicate IsSegment(hs: seq<Header>, h: Header) {
    h in hs && h.load
  }

  ghost predicate SomeSegment(hs: seq<Header>) {
    exists h :: IsSegment(hs, h)
  }

  /** The last segment to be loaded, if there is one. */
  function LastSegment(hs: seq<Header>): (last: Option<Header>)
    ensures last.Some? <==> SomeSegment(hs)
    ensures last.Some? ==> IsSegment(hs, last.value)
  {
    if |hs| == 0 then None
    else
      Members(hs);
      if hs[|hs| - 1].load then Some(hs[|hs| - 1]) else LastSegment(hs[..|hs| - 1])
  }

  lemma {:induction false} Members(hs: seq<Header>)
    requires |hs| > 0
    ensures forall h :: IsSegment(hs, h) <==> IsSegment(hs[..|hs| - 1], h) || (h == hs[|hs| - 1] && h.load)
  {
  }

  /** The base is the address of a segment, with the place of that segment in memory; the end
      is the greatest end of any segment. */
  lemma {:induction false} BoundsOfSegments(memory: u32, hs: seq<Header>)
    requires SomeSegment(hs)
    ensures var b := BoundsOf(memory, hs);
            && (exists h :: IsSegment(hs, h) && b.virtualBase == h.vaddr
                            && b.physicalBase == (memory + h.offset) % 0x1_0000_0000)
            && (exists h :: IsSegment(hs, h) && b.virtualEnd == (h.vaddr + h.filesz) % 0x1_0000_0000
                            && b.physicalEnd == (memory + h.offset + h.filesz) % 0x1_0000_0000)
            && (forall h :: IsSegment(hs, h) ==> (h.vaddr + h.filesz) % 0x1_0000_0000 <= b.virtualEnd)
  {
    Members(hs);
    var init, last := hs[..|hs| - 1], hs[|hs| - 1];
    if SomeSegment(init) {
      BoundsOfSegments(memory, init);
    } else {
      assert IsSegment(hs, last);
      NoSegment(memory, init);
    }
  }

  lemma {:induction false} NoSegment(memory: u32, hs: seq<Header>)
    requires !SomeSegment(hs)
    ensures BoundsOf(memory, hs) == Bounds(0, 0, 0, 0)
  {
    if |hs| > 0 {
      Members(hs);
      NoSegment(memory, hs[..|hs| - 1]);
    }
  }

  /** The base is 0 exactly when it was never set or the last segment is at 0. */
  lemma {:induction false} BaseZeroIff(memory: u32, hs: seq<Header>)
    ensures BoundsOf(memory, hs).virtualBase == 0 <==> LastSegment(hs).None? || LastSegment(hs).value.vaddr == 0
  {
    if |hs| > 0 {
      BaseZeroIff(memory, hs[..|hs| - 1]);
    }
  }

  ghost predicate NoneAtZero(hs: seq<Header>) {
    forall h :: IsSegment(hs, h) ==> h.vaddr != 0
  }

  /** The base is the least address of a segment, except when a segment at 0 is followed, in the
      end, by one elsewhere: a base of 0 looks like one that is not set. */
  lemma {:induction false} BaseIsLeastIff(memory: u32, hs: seq<Header>)
    requires SomeSegment(hs)
    ensures (forall h :: IsSegment(hs, h) ==> BoundsOf(memory, hs).virtualBase <= h.vaddr)
       <==> NoneAtZero(hs) || LastSegment(hs).value.vaddr == 0
  {
    BaseZeroIff(memory, hs);
    if NoneAtZero(hs) {
      BaseBelow(memory, hs);
    }
  }

  lemma {:induction false} BaseBelow(memory: u32, hs: seq<Header>)
    requires NoneAtZero(hs)
    ensures forall h :: IsSegment(hs, h) ==> BoundsOf(memory, hs).virtualBase <= h.vaddr
  {
    if |hs| > 0 {
      var init := hs[..|hs| - 1];
      Members(hs);
      BaseBelow(memory, init);
      BaseZeroIff(memory, init);
    }
  }
}
