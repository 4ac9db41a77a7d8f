/** Mapping the program headers of an executable, and the stack, into a fresh address space. */
module ElfMapping {
  import opened Machine
  import opened Bits
  import opened BlockTable
  import opened HeapRuns
  import opened Heap
  import opened PageMap
  import opened ProcessMemory
  import opened ProcessRuns

  const PF_W := 2

  /** The fields of an ELF program header that the mapping uses; p_offset is signed. */
  datatype Phdr = Phdr(offset: int, vaddr: u32, memsz: u32, flags: u32)

  /** elf_phdr_phys_addr */
  function PhysAddr(elfMemory: u32, h: Phdr): u32 {
    Wrap32(elfMemory + h.offset)
  }

  function PhysEnd(elfMemory: u32, h: Phdr): u32 {
    AlignAddress(Wrap32(PhysAddr(elfMemory, h) + h.memsz))
  }

  function SegmentFlags(h: Phdr): u32 {
    if And(h.flags, PF_W) != 0 then USER_RW else USER_RO
  }

  /** One header's turn in process_map_elf succeeds. Neither address is rounded down. */
  predicate SegmentAccepted(elfMemory: u32, h: Phdr) {
    MappingAccepted(h.vaddr, PhysAddr(elfMemory, h), PhysEnd(elfMemory, h))
  }

  function AfterSegment(m: FlatMap, elfMemory: u32, h: Phdr): FlatMap {
    AfterMapTo(m, h.vaddr, PhysAddr(elfMemory, h), PhysEnd(elfMemory, h), SegmentFlags(h))
  }

  /** The map after process_map_elf: headers in order up to the first that fails. */
  function AfterElf(m: FlatMap, elfMemory: u32, hs: seq<Phdr>): FlatMap
    decreases |hs|
  {
    if hs == [] || !SegmentAccepted(elfMemory, hs[0]) then m
    else AfterElf(AfterSegment(m, elfMemory, hs[0]), elfMemory, hs[1..])
  }

  // ---------------------------------------------------------------- which segments are accepted

  /** The rounded end of a segment stays below 4 GB. */
  predicate EndFits(elfMemory: u32, h: Phdr) {
    PhysAddr(elfMemory, h) + PAGE_SIZE * BlocksFor(h.memsz) < TWO_TO_THE_32
  }

  lemma {:induction false} AlignUp(page: nat, r: nat)
    requires page < PAGE_COUNT && r < PAGE_SIZE
    ensures AlignAddress(PAGE_SIZE * page + r) == Wrap32(PAGE_SIZE * (page + if r == 0 then 0 else 1))
  {
    SumModulo(page, 0, r);
  }

  lemma {:induction false} WrapPages(page: nat, r: nat)
    requires page < 2 * PAGE_COUNT && r < PAGE_SIZE
    ensures Wrap32(PAGE_SIZE * page + r) == PAGE_SIZE * (if page < PAGE_COUNT then page else page - PAGE_COUNT) + r
  {
  }

  /** Where the pages of a segment end, rounded up, with wrap-around at 4 GB. */
  lemma {:induction false} RoundedEnd(page: nat, q: nat, r: nat, size: u32)
    requires r < PAGE_SIZE && size == PAGE_SIZE * q + r && page < PAGE_COUNT
    ensures var n := BlocksFor(size);
            && n == q + (if r == 0 then 0 else 1)
            && (page + n < PAGE_COUNT ==> AlignAddress(Wrap32(PAGE_SIZE * page + size)) == PAGE_SIZE * (page + n))
            && (page + n >= PAGE_COUNT ==>
                  AlignAddress(Wrap32(PAGE_SIZE * page + size)) == PAGE_SIZE * (page + n - PAGE_COUNT))
  {
    SumModulo(page, q, r);
    assert PAGE_SIZE * page + size == PAGE_SIZE * (page + q) + r;
    WrapPages(page + q, r);
    var end := if page + q < PAGE_COUNT then page + q else page + q - PAGE_COUNT;
    AlignUp(end, r);
    WrapPages(end + (if r == 0 then 0 else 1), 0);
  }

  /** A segment is accepted exactly when it is page aligned at both ends of the mapping and
      fits below 4 GB, except that sizes above 4 GB - 4096 wrap to an accepted, empty range. */
  lemma {:induction false} SegmentAcceptedIff(elfMemory: u32, h: Phdr)
    ensures SegmentAccepted(elfMemory, h)
       <==> && h.vaddr % PAGE_SIZE == 0 && PhysAddr(elfMemory, h) % PAGE_SIZE == 0
            && (EndFits(elfMemory, h) || h.memsz > TWO_TO_THE_32 - PAGE_SIZE)
  {
    var phys := PhysAddr(elfMemory, h);
    MostBlocks(h.memsz);
    if phys % PAGE_SIZE == 0 {
      assert phys == PAGE_SIZE * (phys / PAGE_SIZE);
      RoundedEnd(phys / PAGE_SIZE, h.memsz / PAGE_SIZE, h.memsz % PAGE_SIZE, h.memsz);
    }
  }

  lemma {:induction false} MostBlocks(size: u32)
    ensures BlocksFor(size) <= PAGE_COUNT
    ensures BlocksFor(size) == PAGE_COUNT <==> size > TWO_TO_THE_32 - PAGE_SIZE
  {
  }

  // ---------------------------------------------------------------- the loaded image

  /** Page page lies in the address range of the segment, which may wrap at 4 GB. */
  predicate Covers(h: Phdr, page: nat)
    requires page < PAGE_COUNT
  {
    PagesAbove(page, h.vaddr / PAGE_SIZE) < BlocksFor(h.memsz)
  }

  /** The frame of a page of the segment. */
  function SegmentFrame(elfMemory: u32, h: Phdr, page: nat): nat
    requires page < PAGE_COUNT
  {
    PhysAddr(elfMemory, h) / PAGE_SIZE + PagesAbove(page, h.vaddr / PAGE_SIZE)
  }

  predicate InStackPages(page: nat) {
    STACK_PAGE <= page < STACK_PAGE + STACK_PAGES
  }

  /** Segments aligned in memory and in the file, and below 4 GB at their rounded ends. */
  predicate Mappable(elfMemory: u32, hs: seq<Phdr>) {
    forall i :: 0 <= i < |hs| ==>
      && hs[i].vaddr % PAGE_SIZE == 0 && PhysAddr(elfMemory, hs[i]) % PAGE_SIZE == 0
      && EndFits(elfMemory, hs[i])
  }

  /** No page is in two segments, or in a segment and the stack. */
  ghost predicate Separate(hs: seq<Phdr>) {
    && (forall i, j, page :: 0 <= i < j < |hs| && 0 <= page < PAGE_COUNT ==>
          !(Covers(hs[i], page) && Covers(hs[j], page)))
    && (forall i, page :: 0 <= i < |hs| && 0 <= page < PAGE_COUNT && InStackPages(page) ==>
          !Covers(hs[i], page))
  }

  lemma {:induction false} SegmentPage(m: FlatMap, elfMemory: u32, h: Phdr, page: nat)
    requires Mappable(elfMemory, [h]) && page < PAGE_COUNT
    ensures SegmentAccepted(elfMemory, h)
    ensures PhysAddr(elfMemory, h) / PAGE_SIZE + BlocksFor(h.memsz) <= PAGE_COUNT
    ensures AfterSegment(m, elfMemory, h)[page]
         == if Covers(h, page)
            then MakeEntry(SegmentFrame(elfMemory, h, page), SegmentFlags(h))
            else m[page]
  {
    assert [h][0] == h;
    SegmentAcceptedIff(elfMemory, h);
    var phys := PhysAddr(elfMemory, h);
    RoundedEnd(phys / PAGE_SIZE, h.memsz / PAGE_SIZE, h.memsz % PAGE_SIZE, h.memsz);
  }

  lemma {:induction false} PageOutsideSegments(m: FlatMap, elfMemory: u32, hs: seq<Phdr>, page: nat)
    requires Mappable(elfMemory, hs) && page < PAGE_COUNT
    requires forall i :: 0 <= i < |hs| ==> !Covers(hs[i], page)
    ensures AfterElf(m, elfMemory, hs)[page] == m[page]
    decreases |hs|
  {
    if hs != [] {
      SegmentPage(m, elfMemory, hs[0], page);
      PageOutsideSegments(AfterSegment(m, elfMemory, hs[0]), elfMemory, hs[1..], page);
    }
  }

  lemma {:induction false} PageInSegment(m: FlatMap, elfMemory: u32, hs: seq<Phdr>, i: nat, page: nat)
    requires Mappable(elfMemory, hs) && i < |hs| && page < PAGE_COUNT
    requires Covers(hs[i], page) && forall j :: i < j < |hs| ==> !Covers(hs[j], page)
    ensures PhysAddr(elfMemory, hs[i]) / PAGE_SIZE + BlocksFor(hs[i].memsz) <= PAGE_COUNT
    ensures SegmentFrame(elfMemory, hs[i], page) < PAGE_COUNT
    ensures AfterElf(m, elfMemory, hs)[page]
         == MakeEntry(SegmentFrame(elfMemory, hs[i], page), SegmentFlags(hs[i]))
    decreases |hs|
  {
    var m' := AfterSegment(m, elfMemory, hs[0]);
    SegmentPage(m, elfMemory, hs[0], page);
    if i == 0 {
      PageOutsideSegments(m', elfMemory, hs[1..], page);
    } else {
      assert hs[1..][i - 1] == hs[i];
      PageInSegment(m', elfMemory, hs[1..], i - 1, page);
    }
  }

  /** Byte k of a segment: its page, its offset in the page, and its frame. */
  lemma {:induction false} ByteOfSegment(vaddr: u32, phys: u32, k: nat, size: nat)
    requires vaddr % PAGE_SIZE == 0 && phys % PAGE_SIZE == 0 && k < size
    requires phys + PAGE_SIZE * BlocksFor(size) < TWO_TO_THE_32
    ensures var virt := Wrap32(vaddr + k);
            && PagesAbove(virt / PAGE_SIZE, vaddr / PAGE_SIZE) == k / PAGE_SIZE < BlocksFor(size)
            && virt % PAGE_SIZE == k % PAGE_SIZE
            && PAGE_SIZE * (phys / PAGE_SIZE + k / PAGE_SIZE) + k % PAGE_SIZE == phys + k
  {
  }

  lemma {:induction false} TranslateEntry(m: FlatMap, virt: u32, frame: nat, flags: nat)
    requires frame < PAGE_COUNT && flags < PAGE_SIZE && m[virt / PAGE_SIZE] == MakeEntry(frame, flags)
    ensures Translate(m, virt) == PAGE_SIZE * frame + virt % PAGE_SIZE
  {
    EntryRoundTrip(frame, flags);
  }

  lemma {:induction false} ImageEntry(m: FlatMap, elfMemory: u32, hs: seq<Phdr>, i: nat, k: nat)
    requires Mappable(elfMemory, hs) && Separate(hs)
    requires i < |hs| && k < hs[i].memsz
    ensures var phys, page := PhysAddr(elfMemory, hs[i]), Wrap32(hs[i].vaddr + k) / PAGE_SIZE;
            && phys / PAGE_SIZE + k / PAGE_SIZE < PAGE_COUNT && !InStackPages(page)
            && AfterElf(m, elfMemory, hs)[page] == MakeEntry(phys / PAGE_SIZE + k / PAGE_SIZE, SegmentFlags(hs[i]))
  {
    var s, phys := hs[i], PhysAddr(elfMemory, hs[i]);
    var page := Wrap32(s.vaddr + k) / PAGE_SIZE;
    ByteOfSegment(s.vaddr, phys, k, s.memsz);
    assert Covers(s, page);
    PageInSegment(m, elfMemory, hs, i, page);
  }

  /** The entry behind byte k of segment i once everything is mapped. */
  lemma {:induction false} SegmentEntry(h: HeapState, stack: u32, m: FlatMap, elfMemory: u32, hs: seq<Phdr>,
                                        i: nat, k: nat)
    requires KernelHeap(h) && RunAtAddress(h, stack, STACK_PAGES)
    requires Mappable(elfMemory, hs) && Separate(hs)
    requires i < |hs| && k < hs[i].memsz
    ensures var phys := PhysAddr(elfMemory, hs[i]);
            && phys / PAGE_SIZE + k / PAGE_SIZE < PAGE_COUNT
            && WithStack(AfterElf(m, elfMemory, hs), stack)[Wrap32(hs[i].vaddr + k) / PAGE_SIZE]
               == MakeEntry(phys / PAGE_SIZE + k / PAGE_SIZE, SegmentFlags(hs[i]))
  {
    ImageEntry(m, elfMemory, hs, i, k);
    StackKeepsPage(h, stack, AfterElf(m, elfMemory, hs), Wrap32(hs[i].vaddr + k) / PAGE_SIZE);
  }

  lemma {:induction false} StackKeepsPage(h: HeapState, stack: u32, m: FlatMap, page: nat)
    requires KernelHeap(h) && RunAtAddress(h, stack, STACK_PAGES)
    requires page < PAGE_COUNT && !InStackPages(page)
    ensures WithStack(m, stack)[page] == m[page]
  {
    StackMapping(h, stack, m);
  }

  lemma {:induction false} SegmentByte(h: HeapState, stack: u32, m: FlatMap, elfMemory: u32, hs: seq<Phdr>,
                                       i: nat, k: nat)
    requires KernelHeap(h) && RunAtAddress(h, stack, STACK_PAGES)
    requires Mappable(elfMemory, hs) && Separate(hs)
    requires i < |hs| && k < hs[i].memsz
    ensures Translate(WithStack(AfterElf(m, elfMemory, hs), stack), Wrap32(hs[i].vaddr + k))
         == PhysAddr(elfMemory, hs[i]) + k
  {
    var phys := PhysAddr(elfMemory, hs[i]);
    SegmentEntry(h, stack, m, elfMemory, hs, i, k);
    ByteOfSegment(hs[i].vaddr, phys, k, hs[i].memsz);
    ByteTranslates(WithStack(AfterElf(m, elfMemory, hs), stack), Wrap32(hs[i].vaddr + k), phys, k,
                   SegmentFlags(hs[i]));
  }

  /** The place of a segment in memory is where the file was read to, and its offset in the file. */
  lemma {:induction false} PlaceOfSegment(elfMemory: u32, h: Phdr)
    ensures PhysAddr(elfMemory, h) == (elfMemory + h.offset) % 0x1_0000_0000
    ensures 0 <= elfMemory + h.offset < 0x1_0000_0000 ==> PhysAddr(elfMemory, h) == elfMemory + h.offset
  {
  }

  /** Every byte of every segment is where the program expects it. */
  lemma {:induction false} SegmentsTranslate(h: HeapState, stack: u32, m: FlatMap, elfMemory: u32, hs: seq<Phdr>,
                                             i: nat, k: nat)
    requires KernelHeap(h) && RunAtAddress(h, stack, STACK_PAGES)
    requires Mappable(elfMemory, hs) && Separate(hs)
    requires i < |hs| && k < hs[i].memsz
    ensures var phys := Translate(WithStack(AfterElf(m, elfMemory, hs), stack), (hs[i].vaddr + k) % 0x1_0000_0000);
            && phys == (elfMemory + hs[i].offset) % 0x1_0000_0000 + k
            && (0 <= elfMemory + hs[i].offset < 0x1_0000_0000 ==> phys == elfMemory + hs[i].offset + k)
  {
    SegmentByte(h, stack, m, elfMemory, hs, i, k);
    PlaceOfSegment(elfMemory, hs[i]);
  }

  /** It is present, open to the user, and writable exactly when the header says so. */
  lemma {:induction false} SegmentRights(h: HeapState, stack: u32, m: FlatMap, elfMemory: u32, hs: seq<Phdr>,
                                         i: nat, k: nat)
    requires KernelHeap(h) && RunAtAddress(h, stack, STACK_PAGES)
    requires Mappable(elfMemory, hs) && Separate(hs)
    requires i < |hs| && k < hs[i].memsz
    ensures var entry := WithStack(AfterElf(m, elfMemory, hs), stack)[Wrap32(hs[i].vaddr + k) / PAGE_SIZE];
            && Present(entry) && (Writable(entry) <==> And(hs[i].flags, PF_W) != 0)
            && entry % 0x1000 == if And(hs[i].flags, 2) != 0 then 0x7 else 0x5
  {
    SegmentEntry(h, stack, m, elfMemory, hs, i, k);
    EntryParts(PhysAddr(elfMemory, hs[i]) / PAGE_SIZE + k / PAGE_SIZE, hs[i]);
  }

  lemma {:induction false} ByteTranslates(m: FlatMap, virt: u32, phys: u32, k: nat, flags: nat)
    requires phys / PAGE_SIZE + k / PAGE_SIZE < PAGE_COUNT && flags < PAGE_SIZE
    requires m[virt / PAGE_SIZE] == MakeEntry(phys / PAGE_SIZE + k / PAGE_SIZE, flags)
    requires phys % PAGE_SIZE == 0 && virt % PAGE_SIZE == k % PAGE_SIZE
    ensures Translate(m, virt) == phys + k
  {
    TranslateEntry(m, virt, phys / PAGE_SIZE + k / PAGE_SIZE, flags);
  }

  /** The stack pages lead to the process's own stack. */
  lemma {:induction false} StackTranslates(h: HeapState, stack: u32, m: FlatMap, k: nat)
    requires KernelHeap(h) && RunAtAddress(h, stack, STACK_PAGES)
    requires k < USER_PROGRAM_STACK_SIZE
    ensures Translate(WithStack(m, stack), PROGRAM_VIRTUAL_STACK_ADDRESS_END + k) == stack + k
    ensures PROGRAM_VIRTUAL_STACK_ADDRESS_END + USER_PROGRAM_STACK_SIZE == 0x3F_F000
    ensures USER_PROGRAM_STACK_SIZE == 0x4000
  {
    StackMapping(h, stack, m);
    RunGeometry(h, stack, STACK_PAGES);
    var virt := PROGRAM_VIRTUAL_STACK_ADDRESS_END + k;
    ByteOfSegment(PROGRAM_VIRTUAL_STACK_ADDRESS_END, stack, k, USER_PROGRAM_STACK_SIZE);
    assert virt / PAGE_SIZE == STACK_PAGE + k / PAGE_SIZE;
    TranslateEntry(WithStack(m, stack), virt, stack / PAGE_SIZE + k / PAGE_SIZE, USER_RW);
  }

  /** Every page outside the segments and the stack is as it was. */
  lemma {:induction false} OtherPagesUnchanged(h: HeapState, stack: u32, m: FlatMap, elfMemory: u32,
                                               hs: seq<Phdr>, page: nat)
    requires KernelHeap(h) && RunAtAddress(h, stack, STACK_PAGES)
    requires Mappable(elfMemory, hs) && page < PAGE_COUNT
    requires !InStackPages(page) && forall i :: 0 <= i < |hs| ==> !Covers(hs[i], page)
    ensures WithStack(AfterElf(m, elfMemory, hs), stack)[page] == m[page]
  {
    StackMapping(h, stack, AfterElf(m, elfMemory, hs));
    PageOutsideSegments(m, elfMemory, hs, page);
  }

  /** A segment so large that its rounded end wraps is accepted, and maps nothing. */
  lemma {:induction false} HugeSegmentMapsNothing(m: FlatMap, elfMemory: u32, h: Phdr)
    requires SegmentAccepted(elfMemory, h) && h.memsz > TWO_TO_THE_32 - PAGE_SIZE
    ensures AfterSegment(m, elfMemory, h) == m
  {
    var phys := PhysAddr(elfMemory, h);
    MostBlocks(h.memsz);
    RoundedEnd(phys / PAGE_SIZE, h.memsz / PAGE_SIZE, h.memsz % PAGE_SIZE, h.memsz);
    assert PhysEnd(elfMemory, h) == phys;
    MapNoPages(m, h.vaddr / PAGE_SIZE, phys / PAGE_SIZE, SegmentFlags(h));
  }

  /** Headers that were all accepted are mappable, unless one is so large that its range is empty;
      that one would cover the stack. */
  lemma {:induction false} AcceptedIsMappable(elfMemory: u32, hs: seq<Phdr>)
    requires (forall i :: 0 <= i < |hs| ==> SegmentAccepted(elfMemory, hs[i])) && Separate(hs)
    ensures Mappable(elfMemory, hs)
  {
    forall i | 0 <= i < |hs|
      ensures hs[i].vaddr % PAGE_SIZE == 0 && PhysAddr(elfMemory, hs[i]) % PAGE_SIZE == 0
      ensures EndFits(elfMemory, hs[i])
    {
      SegmentAcceptedIff(elfMemory, hs[i]);
      MostBlocks(hs[i].memsz);
      assert InStackPages(STACK_PAGE) && !Covers(hs[i], STACK_PAGE);
    }
  }

  /** Byte k of the segment is where the file has it, in the address space m. */
  predicate SegmentByteShown(m: FlatMap, elfMemory: u32, h: Phdr, k: nat) {
    Translate(m, (h.vaddr + k) % 0x1_0000_0000) == (elfMemory + h.offset) % 0x1_0000_0000 + k
  }

  /** That is so of all bytes of all segments. */
  ghost predicate ImageShown(m: FlatMap, elfMemory: u32, hs: seq<Phdr>) {
    forall i, k :: 0 <= i < |hs| && 0 <= k < hs[i].memsz ==> SegmentByteShown(m, elfMemory, hs[i], k)
  }

  /** Before the stack is mapped, and after. */
  lemma {:induction false} ImageIsShown(m: FlatMap, elfMemory: u32, hs: seq<Phdr>)
    requires (forall i :: 0 <= i < |hs| ==> SegmentAccepted(elfMemory, hs[i])) && Separate(hs)
    ensures ImageShown(AfterElf(m, elfMemory, hs), elfMemory, hs)
  {
    AcceptedIsMappable(elfMemory, hs);
    forall i: nat, k: nat | i < |hs| && k < hs[i].memsz
      ensures SegmentByteShown(AfterElf(m, elfMemory, hs), elfMemory, hs[i], k)
    {
      var phys := PhysAddr(elfMemory, hs[i]);
      ImageEntry(m, elfMemory, hs, i, k);
      ByteOfSegment(hs[i].vaddr, phys, k, hs[i].memsz);
      ByteTranslates(AfterElf(m, elfMemory, hs), Wrap32(hs[i].vaddr + k), phys, k, SegmentFlags(hs[i]));
    }
  }

  lemma {:induction false} LoadedImageIsShown(h: HeapState, stack: u32, m: FlatMap, elfMemory: u32, hs: seq<Phdr>)
    requires KernelHeap(h) && RunAtAddress(h, stack, STACK_PAGES)
    requires (forall i :: 0 <= i < |hs| ==> SegmentAccepted(elfMemory, hs[i])) && Separate(hs)
    ensures ImageShown(WithStack(AfterElf(m, elfMemory, hs), stack), elfMemory, hs)
  {
    AcceptedIsMappable(elfMemory, hs);
    forall i: nat, k: nat | i < |hs| && k < hs[i].memsz
      ensures SegmentByteShown(WithStack(AfterElf(m, elfMemory, hs), stack), elfMemory, hs[i], k)
    {
      SegmentsTranslate(h, stack, m, elfMemory, hs, i, k);
    }
  }

  // ---------------------------------------------------------------- joining the system

  /** A process loaded into a fresh address space, with its segments clear of the heap region, can
      join the system, however far the segments reach in memory. */
  lemma {:induction false} LoadedProcessCanSpawn(s: System, stack: u32, image: Allocation, hs: seq<Phdr>)
    requires Ok(s) && RunAtAddress(s.heap, stack, STACK_PAGES) && !Held(s, stack)
    requires image.ptr != stack && ImageOk(s.heap, image) && (image.ptr != 0 ==> !Held(s, image.ptr))
    requires Mappable(image.ptr, hs)
    requires forall i, page :: 0 <= i < |hs| && 0 <= page < PAGE_COUNT && InHeapRegion(s.heap, page) ==>
               !Covers(hs[i], page)
    ensures Enabled(s, Spawn(stack, image, AfterElf(Identity(USER_RO), image.ptr, hs)))
  {
    forall page | 0 <= page < PAGE_COUNT && InHeapRegion(s.heap, page)
      ensures AfterElf(Identity(USER_RO), image.ptr, hs)[page] == MakeEntry(page, USER_RO)
    {
      PageOutsideSegments(Identity(USER_RO), image.ptr, hs, page);
    }
  }

  /** What the program may write of the segment lies in the memory its file was read into, or in
      its stack. */
  ghost predicate InsideOwn(p: Proc, h: Phdr) {
    var first := PhysAddr(p.image.ptr, h) / PAGE_SIZE;
    And(h.flags, PF_W) != 0 ==>
      forall frame :: first <= frame < first + BlocksFor(h.memsz) ==> OwnMemory(p, frame)
  }

  /** The process made of an executable and a stack. */
  function Loaded(stack: u32, image: Allocation, hs: seq<Phdr>): Proc {
    NewProc(stack, image, AfterElf(Identity(USER_RO), image.ptr, hs))
  }

  /** The entry of a page in a segment. */
  lemma {:induction false} LoadedEntry(h: HeapState, stack: u32, image: Allocation, hs: seq<Phdr>, i: nat, page: nat)
    requires KernelHeap(h) && RunAtAddress(h, stack, STACK_PAGES)
    requires Mappable(image.ptr, hs) && Separate(hs) && i < |hs| && page < PAGE_COUNT && Covers(hs[i], page)
    ensures var entry := Loaded(stack, image, hs).pages[page];
            && (Writable(entry) <==> And(hs[i].flags, PF_W) != 0)
            && entry / PAGE_SIZE == SegmentFrame(image.ptr, hs[i], page)
  {
    PageInSegment(Identity(USER_RO), image.ptr, hs, i, page);
    StackKeepsPage(h, stack, AfterElf(Identity(USER_RO), image.ptr, hs), page);
    EntryParts(SegmentFrame(image.ptr, hs[i], page), hs[i]);
  }

  lemma {:induction false} EntryParts(frame: nat, h: Phdr)
    requires frame < PAGE_COUNT
    ensures Present(MakeEntry(frame, SegmentFlags(h)))
    ensures Writable(MakeEntry(frame, SegmentFlags(h))) <==> And(h.flags, PF_W) != 0
    ensures MakeEntry(frame, SegmentFlags(h)) / PAGE_SIZE == frame
    ensures MakeEntry(frame, SegmentFlags(h)) % 0x1000 == if And(h.flags, 2) != 0 then 0x7 else 0x5
  {
    AddressPlusFlags(frame, SegmentFlags(h));
    EntryFlags(frame, SegmentFlags(h));
    EntryPage(frame, SegmentFlags(h));
  }

  /** A page outside the segments and the stack is not writable. */
  lemma {:induction false} UnloadedEntry(h: HeapState, stack: u32, image: Allocation, hs: seq<Phdr>, page: nat)
    requires KernelHeap(h) && RunAtAddress(h, stack, STACK_PAGES) && Mappable(image.ptr, hs) && page < PAGE_COUNT
    requires !InStackPages(page) && forall i :: 0 <= i < |hs| ==> !Covers(hs[i], page)
    ensures !Writable(Loaded(stack, image, hs).pages[page])
  {
    OtherPagesUnchanged(h, stack, Identity(USER_RO), image.ptr, hs, page);
    EntryFlags(page, USER_RO);
  }

  lemma {:induction false} InsidePageIsOwn(h: HeapState, stack: u32, image: Allocation, hs: seq<Phdr>, page: nat)
    requires KernelHeap(h) && RunAtAddress(h, stack, STACK_PAGES)
    requires Mappable(image.ptr, hs) && Separate(hs) && page < PAGE_COUNT && !InStackPages(page)
    requires forall i :: 0 <= i < |hs| ==> InsideOwn(Loaded(stack, image, hs), hs[i])
    requires Writable(Loaded(stack, image, hs).pages[page])
    ensures OwnMemory(Loaded(stack, image, hs), Loaded(stack, image, hs).pages[page] / PAGE_SIZE)
  {
    if i :| 0 <= i < |hs| && Covers(hs[i], page) {
      LoadedEntry(h, stack, image, hs, i, page);
    } else {
      UnloadedEntry(h, stack, image, hs, page);
    }
  }

  /** Every frame of a segment is behind one of its pages. */
  lemma {:induction false} PageOfFrame(h: HeapState, stack: u32, image: Allocation, hs: seq<Phdr>, i: nat, frame: nat)
    returns (page: nat)
    requires KernelHeap(h) && RunAtAddress(h, stack, STACK_PAGES)
    requires Mappable(image.ptr, hs) && Separate(hs) && i < |hs| && And(hs[i].flags, PF_W) != 0
    requires var first := PhysAddr(image.ptr, hs[i]) / PAGE_SIZE; first <= frame < first + BlocksFor(hs[i].memsz)
    ensures page < PAGE_COUNT && !InStackPages(page)
    ensures Writable(Loaded(stack, image, hs).pages[page])
    ensures Loaded(stack, image, hs).pages[page] / PAGE_SIZE == frame
  {
    var v, above := hs[i].vaddr / PAGE_SIZE, frame - PhysAddr(image.ptr, hs[i]) / PAGE_SIZE;
    page := (v + above) % PAGE_COUNT;
    SegmentFitsBelow(image.ptr, hs[i]);
    PageAbove(v, above);
    assert Covers(hs[i], page);
    LoadedEntry(h, stack, image, hs, i, page);
  }

  lemma {:induction false} PageAbove(v: nat, above: nat)
    requires v < PAGE_COUNT && above < PAGE_COUNT
    ensures PagesAbove((v + above) % PAGE_COUNT, v) == above
  {
  }

  lemma {:induction false} SegmentFitsBelow(elfMemory: u32, h: Phdr)
    requires EndFits(elfMemory, h)
    ensures BlocksFor(h.memsz) < PAGE_COUNT
  {
  }

  /** A process that has nothing from process_malloc holds its stack and its image. */
  lemma {:induction false} HeldIsOwn(h: HeapState, p: Proc, frame: int)
    requires RunAtAddress(h, p.stack, STACK_PAGES) && ImageOk(h, p.image) && SlotPointers(p.slots) == {}
    ensures HeldFrame(h, p, frame) <==> OwnMemory(p, frame)
  {
    if OwnMemory(p, frame) {
      OwnMemoryIsHeld(h, p, frame);
    }
    if HeldFrame(h, p, frame) {
      var ptr, n :| ptr in Pointers(p) && RunAtAddress(h, ptr, n) && InRun(ptr, n, frame);
      assert ptr == p.stack ==> n == STACK_PAGES;
      assert ptr != p.stack ==> ptr == p.image.ptr && n == BlocksFor(p.image.size);
    }
  }

  /** When a loaded process is contained: exactly when all it may write lies in runs that it holds,
      and exactly when that is so of its segments. p_memsz can reach past the end of the file. */
  lemma {:induction false} ContainedIff(h: HeapState, stack: u32, image: Allocation, hs: seq<Phdr>)
    requires KernelHeap(h) && RunAtAddress(h, stack, STACK_PAGES) && ImageOk(h, image)
    requires Mappable(image.ptr, hs) && Separate(hs)
    ensures var p := Loaded(stack, image, hs);
            Contained(p) <==> forall hdr <- hs :: InsideOwn(p, hdr)
  {
    var p := Loaded(stack, image, hs);
    if forall hdr <- hs :: InsideOwn(p, hdr) {
      forall page | 0 <= page < PAGE_COUNT && Writable(p.pages[page]) && !GivenPage(p, page)
        ensures OwnMemory(p, p.pages[page] / PAGE_SIZE)
      {
        InsidePageIsOwn(h, stack, image, hs, page);
      }
    }
    if Contained(p) {
      forall i | 0 <= i < |hs|
        ensures InsideOwn(p, hs[i])
      {
        ContainedIsInside(h, stack, image, hs, i);
      }
    }
  }

  lemma {:induction false} ContainedIsInside(h: HeapState, stack: u32, image: Allocation, hs: seq<Phdr>, i: nat)
    requires KernelHeap(h) && RunAtAddress(h, stack, STACK_PAGES)
    requires Mappable(image.ptr, hs) && Separate(hs) && i < |hs| && Contained(Loaded(stack, image, hs))
    ensures InsideOwn(Loaded(stack, image, hs), hs[i])
  {
    var p, first := Loaded(stack, image, hs), PhysAddr(image.ptr, hs[i]) / PAGE_SIZE;
    if And(hs[i].flags, PF_W) != 0 {
      forall frame | first <= frame < first + BlocksFor(hs[i].memsz)
        ensures OwnMemory(p, frame)
      {
        var page := PageOfFrame(h, stack, image, hs, i, frame);
        assert forall j :: 0 <= j < |p.slots| ==> !InAllocation(p.slots[j], page);
        assert !GivenPage(p, page);
      }
    }
  }

  /** In terms of the runs it holds. */
  lemma {:induction false} WritesHeldIff(h: HeapState, stack: u32, image: Allocation, hs: seq<Phdr>)
    requires KernelHeap(h) && RunAtAddress(h, stack, STACK_PAGES) && ImageOk(h, image) && image.ptr != stack
    requires Mappable(image.ptr, hs) && Separate(hs)
    requires Loadable(h, AfterElf(Identity(USER_RO), image.ptr, hs))
    ensures var p := Loaded(stack, image, hs);
            (forall page :: 0 <= page < PAGE_COUNT && Writable(p.pages[page]) ==>
               HeldFrame(h, p, p.pages[page] / PAGE_SIZE))
            <==> forall hdr <- hs :: InsideOwn(p, hdr)
  {
    var p := Loaded(stack, image, hs);
    ContainedIff(h, stack, image, hs);
    SpawnOk(h, stack, image, AfterElf(Identity(USER_RO), image.ptr, hs));
    assert SlotPointers(p.slots) == {};
    forall page | 0 <= page < PAGE_COUNT && Writable(p.pages[page])
      ensures HeldFrame(h, p, p.pages[page] / PAGE_SIZE) <==>
              GivenPage(p, page) || OwnMemory(p, p.pages[page] / PAGE_SIZE)
    {
      HeldIsOwn(h, p, p.pages[page] / PAGE_SIZE);
      if GivenPage(p, page) {
        GivenPageIsHeld(h, p, page);
      }
    }
  }
}
