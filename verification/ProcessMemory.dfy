/** Memory of processes as values: allocation slots, address space and stack of each process,
    all living on one kernel heap, and every interleaving of their mallocs and frees. */
module ProcessMemory {
  import opened Machine
  import opened Bits
  import opened BlockTable
  import opened HeapRuns
  import opened Heap
  import opened PageMap

  const MAX_PROGRAM_ALLOCATIONS := 1024
  const USER_PROGRAM_STACK_SIZE := 1024 * 16
  const PROGRAM_VIRTUAL_STACK_ADDRESS_END := 0x3FF000 - 1024 * 16
  const STACK_PAGE := PROGRAM_VIRTUAL_STACK_ADDRESS_END / PAGE_SIZE
  const STACK_PAGES := USER_PROGRAM_STACK_SIZE / PAGE_SIZE

  datatype Allocation = Allocation(ptr: u32, size: u32)

  /** A process as far as memory goes; stack is the physical address of its stack, and image
      the allocation that its executable was read into. */
  datatype Proc = Proc(slots: seq<Allocation>, pages: FlatMap, stack: u32, image: Allocation)

  /** paging_align_address: up to the next page, wrapping at 4 GB. */
  function AlignAddress(addr: u32): u32 {
    if addr % PAGE_SIZE == 0 then addr else Wrap32(addr + PAGE_SIZE - addr % PAGE_SIZE)
  }

  /** The first slot from i on that holds ptr; ptr 0 looks for an empty slot. */
  function FindSlot(slots: seq<Allocation>, ptr: u32, i: nat): (r: Option<nat>)
    ensures r.Some? ==> i <= r.value < |slots| && slots[r.value].ptr == ptr
    ensures r.Some? ==> forall j :: i <= j < r.value ==> slots[j].ptr != ptr
    ensures r.None? ==> forall j :: i <= j < |slots| ==> slots[j].ptr != ptr
    decreases |slots| - i
  {
    if i >= |slots| then None
    else if slots[i].ptr == ptr then Some(i)
    else FindSlot(slots, ptr, i + 1)
  }

  /** Every slot holding ptr, emptied. */
  function ClearSlots(slots: seq<Allocation>, ptr: u32): (r: seq<Allocation>)
    ensures |r| == |slots|
  {
    seq(|slots|, i requires 0 <= i < |slots| =>
      if slots[i].ptr == ptr then Allocation(0, 0) else slots[i])
  }

  // ---------------------------------------------------------------- the two operations

  /** The kernel heap: its place and size are fixed. */
  ghost predicate KernelHeap(h: HeapState) {
    Sound(h) && h.base == HEAP_ADDRESS && |h.table| == HEAP_SIZE / BLOCK_SIZE
  }

  function Block(h: HeapState, ptr: u32): nat
    requires h.base <= ptr
  {
    (ptr - h.base) / BLOCK_SIZE
  }

  /** End of the pages of an allocation, as both operations compute it. */
  function EndOf(ptr: u32, size: u32): u32 {
    AlignAddress(Wrap32(ptr + size))
  }

  datatype Outcome = Outcome(heap: HeapState, proc: Proc, ptr: u32)

  /** process_malloc. When every slot is in use the new run is freed again. */
  ghost function ProcMalloc(h: HeapState, p: Proc, size: u32): Outcome
    requires KernelHeap(h)
  {
    MallocSound(h, size);
    match Place(h, size)
    case None => Outcome(h, p, 0)
    case Some(b) =>
      var ptr: u32 := Address(h, b);
      var h' := AfterMalloc(h, size);
      AccountsTerminated(h'.table, h'.cells);
      match FindSlot(p.slots, 0, 0)
      case None => Outcome(AfterFree(h', b), p, 0)
      case Some(i) =>
        Outcome(h', p.(slots := p.slots[i := Allocation(ptr, size)],
                       pages := AfterMapTo(p.pages, ptr, ptr, EndOf(ptr, size), USER_RW)), ptr)
  }

  /** process_free. A pointer that is in no slot is ignored. */
  ghost function ProcFree(h: HeapState, p: Proc, ptr: u32): Outcome
    requires KernelHeap(h) && ProcOk(h, p) && ptr != 0
  {
    match FindSlot(p.slots, ptr, 0)
    case None => Outcome(h, p, ptr)
    case Some(i) =>
      AccountsTerminated(h.table, h.cells);
      Outcome(AfterFree(h, Block(h, ptr)),
              p.(slots := ClearSlots(p.slots, ptr),
                 pages := AfterMapTo(p.pages, ptr, ptr, EndOf(ptr, p.slots[i].size), 0)), ptr)
  }

  // ---------------------------------------------------------------- the invariant

  /** ptr is the address of a live run of n blocks. */
  ghost predicate RunAtAddress(h: HeapState, ptr: u32, n: nat) {
    h.base <= ptr && (ptr - h.base) % BLOCK_SIZE == 0 && Live(h.cells, Block(h, ptr), n)
  }

  /** Page page belongs to the allocation. */
  predicate InAllocation(a: Allocation, page: int) {
    a.ptr != 0 && a.ptr / PAGE_SIZE <= page < a.ptr / PAGE_SIZE + BlocksFor(a.size)
  }

  predicate InHeapRegion(h: HeapState, page: int) {
    h.base / PAGE_SIZE <= page < h.base / PAGE_SIZE + |h.table|
  }

  /** A slot in use holds a live run of exactly the blocks its size needs, mapped to itself,
      present, writable and open to the user. */
  ghost predicate SlotOk(h: HeapState, m: FlatMap, a: Allocation) {
    a.ptr != 0 ==>
      && RunAtAddress(h, a.ptr, BlocksFor(a.size))
      && forall page :: 0 <= page < PAGE_COUNT && InAllocation(a, page) ==>
           m[page] == MakeEntry(page, USER_RW)
  }

  ghost predicate StackOk(h: HeapState, m: FlatMap, stack: u32) {
    && RunAtAddress(h, stack, STACK_PAGES)
    && stack / PAGE_SIZE + STACK_PAGES <= PAGE_COUNT
    && forall page :: STACK_PAGE <= page < STACK_PAGE + STACK_PAGES ==>
         m[page] == MakeEntry(stack / PAGE_SIZE + (page - STACK_PAGE), USER_RW)
  }

  ghost predicate ImageOk(h: HeapState, image: Allocation) {
    image.ptr != 0 ==> RunAtAddress(h, image.ptr, BlocksFor(image.size))
  }

  /** The slots in use, the stack and the image are at different addresses. */
  predicate PointersApart(p: Proc) {
    && (forall i, j :: 0 <= i < j < |p.slots| && p.slots[i].ptr != 0 ==> p.slots[i].ptr != p.slots[j].ptr)
    && (forall i :: 0 <= i < |p.slots| && p.slots[i].ptr != 0 ==> p.slots[i].ptr !in {p.stack, p.image.ptr})
    && p.stack != p.image.ptr
  }

  /** Page page of the process was mapped by process_malloc or is one of its stack pages. */
  ghost predicate GivenPage(p: Proc, page: nat) {
    || STACK_PAGE <= page < STACK_PAGE + STACK_PAGES
    || exists i :: 0 <= i < |p.slots| && InAllocation(p.slots[i], page)
  }

  /** A writable page of the heap region was given to the process. */
  ghost predicate WritableOk(h: HeapState, p: Proc) {
    forall page :: 0 <= page < PAGE_COUNT && InHeapRegion(h, page) && Writable(p.pages[page]) ==> GivenPage(p, page)
  }

  /** The pages of the heap region lead to the frames of the same number. */
  ghost predicate OwnFrames(h: HeapState, m: FlatMap) {
    forall page :: 0 <= page < PAGE_COUNT && InHeapRegion(h, page) ==> m[page] / PAGE_SIZE == page
  }

  ghost predicate SlotsOk(h: HeapState, p: Proc) {
    |p.slots| == MAX_PROGRAM_ALLOCATIONS && forall i :: 0 <= i < |p.slots| ==> SlotOk(h, p.pages, p.slots[i])
  }

  ghost predicate ProcOk(h: HeapState, p: Proc) {
    && SlotsOk(h, p) && StackOk(h, p.pages, p.stack) && ImageOk(h, p.image)
    && PointersApart(p) && WritableOk(h, p) && OwnFrames(h, p.pages)
  }

  /** The frame belongs to the image or to the stack of the process. */
  predicate OwnMemory(p: Proc, frame: int) {
    InAllocation(p.image, frame) || p.stack / PAGE_SIZE <= frame < p.stack / PAGE_SIZE + STACK_PAGES
  }

  /** What the process may write was given to it or is its own: not every process is like this,
      for a segment may reach past the memory that its file was read into. */
  ghost predicate Contained(p: Proc) {
    forall page :: 0 <= page < PAGE_COUNT && Writable(p.pages[page]) ==>
      GivenPage(p, page) || OwnMemory(p, p.pages[page] / PAGE_SIZE)
  }

  /** The runs a process holds, by address. */
  function Pointers(p: Proc): set<u32> {
    {p.stack} + (if p.image.ptr == 0 then {} else {p.image.ptr}) + SlotPointers(p.slots)
  }

  function SlotPointers(slots: seq<Allocation>): set<u32> {
    set i | 0 <= i < |slots| && slots[i].ptr != 0 :: slots[i].ptr
  }

  // ---------------------------------------------------------------- geometry

  lemma {:induction false} RunGeometry(h: HeapState, ptr: u32, n: nat)
    requires KernelHeap(h) && RunAtAddress(h, ptr, n)
    ensures 0 < n && Block(h, ptr) + n <= |h.table|
    ensures ptr % PAGE_SIZE == 0 && ptr / PAGE_SIZE == HEAP_ADDRESS / PAGE_SIZE + Block(h, ptr)
    ensures ptr + PAGE_SIZE * n <= HEAP_ADDRESS + HEAP_SIZE
  {
  }

  lemma {:induction false} SumModulo(page: nat, q: nat, r: nat)
    requires r < PAGE_SIZE
    ensures (PAGE_SIZE * page + (PAGE_SIZE * q + r)) % PAGE_SIZE == r
    ensures (PAGE_SIZE * q + r + PAGE_SIZE - 1) / PAGE_SIZE == q + if r == 0 then 0 else 1
    ensures PAGE_SIZE * page % PAGE_SIZE == 0 && PAGE_SIZE * page / PAGE_SIZE == page
  {
  }

  lemma {:induction false} RangeOfAllocation(ptr: u32, size: u32)
    requires ptr % PAGE_SIZE == 0 && ptr + PAGE_SIZE * BlocksFor(size) < TWO_TO_THE_32
    ensures EndOf(ptr, size) == ptr + PAGE_SIZE * BlocksFor(size)
    ensures MappingAccepted(ptr, ptr, EndOf(ptr, size))
  {
    var page, q, r := ptr / PAGE_SIZE, size / PAGE_SIZE, size % PAGE_SIZE;
    SumModulo(page, q, r);
    SumModulo(page + BlocksFor(size), q, r);
    assert Wrap32(ptr + size) == ptr + size == PAGE_SIZE * page + (PAGE_SIZE * q + r);
  }

  /** The pages of the allocation have been mapped to themselves with these flags, and no
      others. */
  predicate Remapped(m: FlatMap, m': FlatMap, a: Allocation, flags: u32) {
    forall page :: 0 <= page < PAGE_COUNT ==>
      m'[page] == if InAllocation(a, page) then MakeEntry(page, flags) else m[page]
  }

  /** Mapping an allocation touches its own pages and no others. */
  lemma {:induction false} MapAllocation(m: FlatMap, a: Allocation, flags: u32)
    requires a.ptr != 0 && a.ptr % PAGE_SIZE == 0
    requires a.ptr + PAGE_SIZE * BlocksFor(a.size) < TWO_TO_THE_32
    ensures Remapped(m, AfterMapTo(m, a.ptr, a.ptr, EndOf(a.ptr, a.size), flags), a, flags)
  {
    RangeOfAllocation(a.ptr, a.size);
    PagesBetween(a.ptr, BlocksFor(a.size));
  }

  lemma {:induction false} PagesBetween(ptr: u32, n: nat)
    requires ptr % PAGE_SIZE == 0 && ptr + PAGE_SIZE * n < TWO_TO_THE_32
    ensures (ptr + PAGE_SIZE * n - ptr) / PAGE_SIZE == n && ptr / PAGE_SIZE + n <= PAGE_COUNT
  {
  }

  /** The pages of a run lie in the heap region, which is clear of the stack pages. */
  lemma {:induction false} RunInRegion(h: HeapState, a: Allocation)
    requires KernelHeap(h) && a.ptr != 0 && RunAtAddress(h, a.ptr, BlocksFor(a.size))
    ensures forall page :: InAllocation(a, page) ==> InHeapRegion(h, page)
    ensures forall page :: InHeapRegion(h, page) ==> STACK_PAGE + STACK_PAGES <= page < PAGE_COUNT
  {
    RunGeometry(h, a.ptr, BlocksFor(a.size));
  }

  // ---------------------------------------------------------------- frames

  /** A change of the heap that keeps the runs a process holds keeps the process in order. */
  lemma {:induction false} ProcOkFrame(h: HeapState, h': HeapState, p: Proc)
    requires ProcOk(h, p)
    requires h'.base == h.base && |h'.table| == |h.table|
    requires forall ptr, n :: ptr in Pointers(p) && RunAtAddress(h, ptr, n) ==> RunAtAddress(h', ptr, n)
    ensures ProcOk(h', p)
  {
  }

  /** What a process holds are live runs. */
  lemma {:induction false} PointerIsRun(h: HeapState, p: Proc, ptr: u32)
    requires ProcOk(h, p) && ptr in Pointers(p)
    ensures h.base <= ptr && IsLiveStart(h, Block(h, ptr))
    ensures exists n :: RunAtAddress(h, ptr, n)
  {
  }

  /** Allocation anywhere keeps every live run. */
  lemma {:induction false} MallocFrame(h: HeapState, size: nat, p: Proc)
    requires KernelHeap(h) && ProcOk(h, p)
    ensures KernelHeap(AfterMalloc(h, size)) && ProcOk(AfterMalloc(h, size), p)
    ensures Place(h, size).Some? ==> Address(h, Place(h, size).value) < TWO_TO_THE_32
    ensures Place(h, size).Some? ==> Address(h, Place(h, size).value) !in Pointers(p)
  {
    MallocSound(h, size);
    var h' := AfterMalloc(h, size);
    forall ptr, n | RunAtAddress(h, ptr, n)
      ensures RunAtAddress(h', ptr, n)
    {
      assert h.cells[Block(h, ptr)] == Run(Block(h, ptr), n);
    }
    ProcOkFrame(h, h', p);
    if Place(h, size).Some? && Address(h, Place(h, size).value) in Pointers(p) {
      PointerIsRun(h, p, Address(h, Place(h, size).value));
    }
  }

  /** Freeing a run that a process does not hold keeps the process in order. */
  lemma {:induction false} FreeFrame(h: HeapState, ptr: u32, p: Proc)
    requires KernelHeap(h) && ProcOk(h, p)
    requires h.base <= ptr && (ptr - h.base) % BLOCK_SIZE == 0 && IsLiveStart(h, Block(h, ptr))
    requires ptr !in Pointers(p)
    ensures Terminated(h.table) && KernelHeap(AfterFree(h, Block(h, ptr)))
    ensures ProcOk(AfterFree(h, Block(h, ptr)), p)
  {
    var b := Block(h, ptr);
    FreeSound(h, b);
    var h' := AfterFree(h, b);
    forall q, n | q in Pointers(p) && RunAtAddress(h, q, n)
      ensures RunAtAddress(h', q, n)
    {
      BlockOfAddress(h, q);
      BlockOfAddress(h, ptr);
      FreeKeepsOtherRun(h, b, Block(h, q), n);
    }
    ProcOkFrame(h, h', p);
  }

  lemma {:induction false} BlockOfAddress(h: HeapState, ptr: u32)
    requires h.base <= ptr && (ptr - h.base) % BLOCK_SIZE == 0
    ensures ptr == h.base + BLOCK_SIZE * Block(h, ptr)
  {
  }

  lemma {:induction false} FreeKeepsOtherRun(h: HeapState, b: nat, s: nat, n: nat)
    requires Sound(h) && IsLiveStart(h, b) && Live(h.cells, s, n) && s != b
    ensures Terminated(h.table) && Live(AfterFree(h, b).cells, s, n)
  {
  }

  // ---------------------------------------------------------------- one operation

  /** Runs at different addresses have no page in common. */
  lemma {:induction false} RunsShareNoPage(h: HeapState, p1: u32, n1: nat, p2: u32, n2: nat, page: nat)
    requires KernelHeap(h) && RunAtAddress(h, p1, n1) && RunAtAddress(h, p2, n2) && p1 != p2
    requires p1 / PAGE_SIZE <= page < p1 / PAGE_SIZE + n1
    ensures !(p2 / PAGE_SIZE <= page < p2 / PAGE_SIZE + n2)
  {
  }

  /** Mapping or unmapping one allocation leaves every other one mapped as it was. */
  lemma {:induction false} OtherSlotKeepsPages(h: HeapState, m: FlatMap, b: Allocation, a: Allocation,
                                               m': FlatMap, flags: u32)
    requires KernelHeap(h) && SlotOk(h, m, b) && b.ptr != a.ptr && Remapped(m, m', a, flags)
    requires a.ptr != 0 && RunAtAddress(h, a.ptr, BlocksFor(a.size))
    ensures SlotOk(h, m', b)
  {
    if b.ptr != 0 {
      forall page | InAllocation(b, page)
        ensures !InAllocation(a, page)
      {
        RunsShareNoPage(h, b.ptr, BlocksFor(b.size), a.ptr, BlocksFor(a.size), page);
      }
    }
  }

  /** The stack and the frames of the heap region are as they should be, whatever the flags. */
  lemma {:induction false} RemappedFrames(h: HeapState, p: Proc, a: Allocation, m': FlatMap, flags: nat)
    requires KernelHeap(h) && StackOk(h, p.pages, p.stack) && OwnFrames(h, p.pages) && flags < PAGE_SIZE
    requires a.ptr != 0 && RunAtAddress(h, a.ptr, BlocksFor(a.size)) && Remapped(p.pages, m', a, flags)
    ensures StackOk(h, m', p.stack) && OwnFrames(h, m')
  {
    RunInRegion(h, a);
    forall page | 0 <= page < PAGE_COUNT && InHeapRegion(h, page)
      ensures m'[page] / PAGE_SIZE == page
    {
      EntryPage(page, flags);
    }
  }

  lemma {:induction false} EntryPage(page: nat, flags: nat)
    requires page < PAGE_COUNT && flags < PAGE_SIZE
    ensures MakeEntry(page, flags) / PAGE_SIZE == page
  {
    AddressPlusFlags(page, flags);
    ModOfSum(MakeEntry(page, flags), page, flags);
  }

  // ---------------------------------------------------------------- a run entered in a slot

  ghost predicate Storable(h: HeapState, p: Proc, i: nat, a: Allocation, p': Proc) {
    && KernelHeap(h) && ProcOk(h, p)
    && i < |p.slots| && p.slots[i].ptr == 0
    && a.ptr != 0 && a.ptr !in Pointers(p) && RunAtAddress(h, a.ptr, BlocksFor(a.size))
    && Remapped(p.pages, p'.pages, a, USER_RW) && p' == p.(slots := p.slots[i := a], pages := p'.pages)
  }

  lemma {:induction false} StoreSlots(h: HeapState, p: Proc, i: nat, a: Allocation, p': Proc)
    requires Storable(h, p, i, a, p')
    ensures SlotsOk(h, p')
  {
    RunInRegion(h, a);
    forall j | 0 <= j < |p.slots|
      ensures SlotOk(h, p'.pages, p'.slots[j])
    {
      var b := p.slots[j];
      assert SlotOk(h, p.pages, b);
      if j != i {
        assert b.ptr != 0 ==> b.ptr in Pointers(p);
        OtherSlotKeepsPages(h, p.pages, b, a, p'.pages, USER_RW);
      }
    }
  }

  lemma {:induction false} StoreApart(h: HeapState, p: Proc, i: nat, a: Allocation, p': Proc)
    requires Storable(h, p, i, a, p')
    ensures PointersApart(p')
  {
    assert p.stack in Pointers(p) && (p.image.ptr != 0 ==> p.image.ptr in Pointers(p));
    forall j | 0 <= j < |p.slots| && p.slots[j].ptr != 0
      ensures p.slots[j].ptr != a.ptr
    {
      assert p.slots[j].ptr in Pointers(p);
    }
  }

  lemma {:induction false} StorePointers(p: Proc, i: nat, a: Allocation, p': Proc)
    requires i < |p.slots| && p.slots[i].ptr == 0 && a.ptr != 0
    requires p' == p.(slots := p.slots[i := a], pages := p'.pages)
    ensures Pointers(p') == Pointers(p) + {a.ptr}
  {
    forall q
      ensures q in SlotPointers(p'.slots) <==> q in SlotPointers(p.slots) || q == a.ptr
    {
      if q in SlotPointers(p.slots) {
        var j :| 0 <= j < |p.slots| && p.slots[j].ptr != 0 && p.slots[j].ptr == q;
        assert p'.slots[j].ptr == q;
      }
      assert p'.slots[i].ptr == a.ptr;
    }
  }

  /** A writable page after the change is one of the new run or was writable before; and what was
      given to the process still is. */
  lemma {:induction false} StoredPage(h: HeapState, p: Proc, i: nat, a: Allocation, p': Proc, page: nat)
    requires Storable(h, p, i, a, p') && page < PAGE_COUNT
    ensures GivenPage(p', page) || p'.pages[page] == p.pages[page]
    ensures GivenPage(p, page) ==> GivenPage(p', page)
  {
    if InAllocation(a, page) {
      assert InAllocation(p'.slots[i], page);
    }
    if GivenPage(p, page) {
      GivenByOther(p, p', page, i);
    }
  }

  lemma {:induction false} StoreWritable(h: HeapState, p: Proc, i: nat, a: Allocation, p': Proc)
    requires Storable(h, p, i, a, p')
    ensures WritableOk(h, p') && (Contained(p) ==> Contained(p'))
  {
    forall page | 0 <= page < PAGE_COUNT
      ensures GivenPage(p', page) || p'.pages[page] == p.pages[page]
      ensures GivenPage(p, page) ==> GivenPage(p', page)
    {
      StoredPage(h, p, i, a, p', page);
    }
  }

  /** A page given to the process stays given while its slot stays. */
  lemma {:induction false} GivenByOther(p: Proc, p': Proc, page: nat, i: nat)
    requires GivenPage(p, page) && i < |p.slots| == |p'.slots| && !InAllocation(p.slots[i], page)
    requires forall j :: 0 <= j < |p.slots| && j != i ==> p'.slots[j] == p.slots[j]
    ensures GivenPage(p', page)
  {
    if !(STACK_PAGE <= page < STACK_PAGE + STACK_PAGES) {
      var j :| 0 <= j < |p.slots| && InAllocation(p.slots[j], page);
      assert InAllocation(p'.slots[j], page);
    }
  }

  /** Entering a new run in an empty slot and mapping its pages. */
  lemma {:induction false} StoreAllocation(h: HeapState, p: Proc, i: nat, a: Allocation, p': Proc)
    requires Storable(h, p, i, a, p')
    ensures KernelHeap(h) && ProcOk(h, p') && Pointers(p') == Pointers(p) + {a.ptr}
    ensures Contained(p) ==> Contained(p')
  {
    StoreSlots(h, p, i, a, p');
    StoreApart(h, p, i, a, p');
    StorePointers(p, i, a, p');
    StoreWritable(h, p, i, a, p');
    RemappedFrames(h, p, a, p'.pages, USER_RW);
  }

  // ---------------------------------------------------------------- a slot emptied

  ghost predicate Droppable(h: HeapState, p: Proc, i: nat, p': Proc) {
    && KernelHeap(h) && ProcOk(h, p)
    && i < |p.slots| && p.slots[i].ptr != 0
    && Remapped(p.pages, p'.pages, p.slots[i], 0)
    && p' == p.(slots := p.slots[i := Allocation(0, 0)], pages := p'.pages)
  }

  /** Only one slot holds the pointer. */
  lemma {:induction false} ClearOneSlot(p: Proc, i: nat)
    requires PointersApart(p) && i < |p.slots| && p.slots[i].ptr != 0
    ensures ClearSlots(p.slots, p.slots[i].ptr) == p.slots[i := Allocation(0, 0)]
  {
  }

  lemma {:induction false} DropSlots(h: HeapState, p: Proc, i: nat, p': Proc)
    requires Droppable(h, p, i, p')
    ensures SlotsOk(h, p')
  {
    var a := p.slots[i];
    assert SlotOk(h, p.pages, a);
    forall j | 0 <= j < |p.slots|
      ensures SlotOk(h, p'.pages, p'.slots[j])
    {
      if j != i {
        assert SlotOk(h, p.pages, p.slots[j]);
        OtherSlotKeepsPages(h, p.pages, p.slots[j], a, p'.pages, 0);
      }
    }
  }

  lemma {:induction false} DropApart(h: HeapState, p: Proc, i: nat, p': Proc)
    requires Droppable(h, p, i, p')
    ensures PointersApart(p')
  {
    assert forall j :: 0 <= j < |p.slots| ==> p'.slots[j] == if j == i then Allocation(0, 0) else p.slots[j];
  }

  lemma {:induction false} DropPointers(p: Proc, i: nat, p': Proc)
    requires PointersApart(p) && i < |p.slots| && p.slots[i].ptr != 0
    requires p' == p.(slots := p.slots[i := Allocation(0, 0)], pages := p'.pages)
    ensures Pointers(p') == Pointers(p) - {p.slots[i].ptr}
  {
    forall q
      ensures q in SlotPointers(p'.slots) <==> q in SlotPointers(p.slots) && q != p.slots[i].ptr
    {
      if q in SlotPointers(p.slots) && q != p.slots[i].ptr {
        var j :| 0 <= j < |p.slots| && p.slots[j].ptr != 0 && p.slots[j].ptr == q;
        assert p'.slots[j].ptr == q;
      }
    }
  }

  lemma {:induction false} DroppedPage(h: HeapState, p: Proc, i: nat, p': Proc, page: nat)
    requires Droppable(h, p, i, p') && page < PAGE_COUNT && Writable(p'.pages[page])
    ensures p'.pages[page] == p.pages[page]
    ensures GivenPage(p, page) ==> GivenPage(p', page)
  {
    EntryFlags(page, 0);
    if GivenPage(p, page) {
      GivenByOther(p, p', page, i);
    }
  }

  lemma {:induction false} DropWritable(h: HeapState, p: Proc, i: nat, p': Proc)
    requires Droppable(h, p, i, p')
    ensures WritableOk(h, p') && (Contained(p) ==> Contained(p'))
  {
    forall page | 0 <= page < PAGE_COUNT && Writable(p'.pages[page])
      ensures p'.pages[page] == p.pages[page]
      ensures GivenPage(p, page) ==> GivenPage(p', page)
    {
      DroppedPage(h, p, i, p', page);
    }
  }

  /** Unmapping the pages of a slot and emptying it, before its run is freed. */
  lemma {:induction false} DropAllocation(h: HeapState, p: Proc, i: nat, p': Proc)
    requires Droppable(h, p, i, p')
    ensures ProcOk(h, p') && Pointers(p') == Pointers(p) - {p.slots[i].ptr}
    ensures Contained(p) ==> Contained(p')
  {
    assert SlotOk(h, p.pages, p.slots[i]);
    DropSlots(h, p, i, p');
    DropApart(h, p, i, p');
    DropPointers(p, i, p');
    DropWritable(h, p, i, p');
    RemappedFrames(h, p, p.slots[i], p'.pages, 0);
  }

  // ---------------------------------------------------------------- the operations keep the invariant

  lemma {:induction false} MallocFillsSlot(h: HeapState, p: Proc, size: u32, i: nat)
    requires KernelHeap(h) && ProcOk(h, p) && Place(h, size).Some? && FindSlot(p.slots, 0, 0) == Some(i)
    ensures var r := ProcMalloc(h, p, size);
            Storable(r.heap, p, i, Allocation(r.ptr, size), r.proc) && r.ptr != 0
  {
    MallocFrame(h, size, p);
    MallocSound(h, size);
    var h', ptr := AfterMalloc(h, size), Address(h, Place(h, size).value);
    assert Block(h', ptr) == Place(h, size).value;
    RunGeometry(h', ptr, BlocksFor(size));
    MapAllocation(p.pages, Allocation(ptr, size), USER_RW);
  }

  lemma {:induction false} MallocFreedAgain(h: HeapState, p: Proc, size: u32)
    requires KernelHeap(h) && ProcOk(h, p) && Place(h, size).Some? && FindSlot(p.slots, 0, 0).None?
    ensures KernelHeap(ProcMalloc(h, p, size).heap) && ProcOk(ProcMalloc(h, p, size).heap, p)
  {
    MallocFrame(h, size, p);
    MallocSound(h, size);
    var h', ptr := AfterMalloc(h, size), Address(h, Place(h, size).value);
    assert Block(h', ptr) == Place(h, size).value;
    FreeFrame(h', ptr, p);
  }

  /** process_malloc keeps the process in order, whether it succeeds, finds no room or finds
      no slot; it gives the process one new run at most. */
  lemma {:induction false} ProcMallocOk(h: HeapState, p: Proc, size: u32)
    requires KernelHeap(h) && ProcOk(h, p)
    ensures var r := ProcMalloc(h, p, size);
            && KernelHeap(r.heap) && ProcOk(r.heap, r.proc)
            && Pointers(r.proc) == if r.ptr == 0 then Pointers(p) else Pointers(p) + {r.ptr}
  {
    var r := ProcMalloc(h, p, size);
    if Place(h, size).Some? {
      match FindSlot(p.slots, 0, 0)
      case None => MallocFreedAgain(h, p, size);
      case Some(i) =>
        MallocFillsSlot(h, p, size, i);
        StoreAllocation(r.heap, p, i, Allocation(r.ptr, size), r.proc);
    }
  }

  /** With every slot in use, process_malloc fails and one block is lost. */
  lemma {:induction false} FullSlotsLoseBlock(h: HeapState, p: Proc, size: u32)
    requires KernelHeap(h) && Place(h, size).Some? && FindSlot(p.slots, 0, 0).None?
    ensures var r := ProcMalloc(h, p, size);
            && r.ptr == 0 && r.proc == p && Taken(r.heap.table) == Taken(h.table) + 1
            && Place(h, size).value + BlocksFor(size) <= |h.table|
            && r.heap.table == h.table[Place(h, size).value + BlocksFor(size) - 1 := TAKEN]
  {
    MallocThenFree(h.table, h.cells, Place(h, size).value, BlocksFor(size));
  }

  lemma {:induction false} FreeDropsSlot(h: HeapState, p: Proc, ptr: u32, i: nat)
    requires KernelHeap(h) && ProcOk(h, p) && ptr != 0 && FindSlot(p.slots, ptr, 0) == Some(i)
    ensures Droppable(h, p, i, ProcFree(h, p, ptr).proc)
    ensures h.base <= ptr && (ptr - h.base) % BLOCK_SIZE == 0 && IsLiveStart(h, Block(h, ptr))
  {
    assert SlotOk(h, p.pages, p.slots[i]);
    RunGeometry(h, ptr, BlocksFor(p.slots[i].size));
    MapAllocation(p.pages, p.slots[i], 0);
    ClearOneSlot(p, i);
  }

  /** process_free keeps the process in order and gives up exactly the run it was asked to. */
  lemma {:induction false} ProcFreeOk(h: HeapState, p: Proc, ptr: u32)
    requires KernelHeap(h) && ProcOk(h, p) && ptr != 0
    ensures var r := ProcFree(h, p, ptr);
            && KernelHeap(r.heap) && ProcOk(r.heap, r.proc)
            && Pointers(r.proc) == if FindSlot(p.slots, ptr, 0).Some? then Pointers(p) - {ptr} else Pointers(p)
  {
    match FindSlot(p.slots, ptr, 0)
    case None =>
    case Some(i) =>
      var p' := ProcFree(h, p, ptr).proc;
      FreeDropsSlot(h, p, ptr, i);
      DropAllocation(h, p, i, p');
      FreeFrame(h, ptr, p');
  }

  // ---------------------------------------------------------------- what the operations do

  /** The entries of a run of n blocks at b have been cleared, but for the last; no other entry has
      changed. */
  ghost predicate RunCleared(t: seq<Entry>, t': seq<Entry>, b: int, n: nat) {
    && |t'| == |t| && 0 <= b && 0 < n && b + n <= |t|
    && forall k :: 0 <= k < |t| ==> t'[k] == if b <= k < b + n - 1 then 0x00 else t[k]
  }

  /** The entries of n vacant blocks at b have become a chain; no other entry has changed. */
  ghost predicate RunMarked(t: seq<Entry>, t': seq<Entry>, b: int, n: nat) {
    && |t'| == |t| && 0 <= b && 0 < n && b + n <= |t|
    && forall k :: 0 <= k < |t| ==>
         t'[k] == if b <= k < b + n - 1 then 0x81 else if k == b + n - 1 then 0x01 else t[k]
  }

  /** The outcome r of process_free of slot i: the run has gone back to the heap but for its last
      block, the slot is empty, and its pages are absent; all else of the process, and of the heap,
      is as it was. */
  ghost predicate GivenBack(h: HeapState, p: Proc, i: nat, r: Outcome)
    requires i < |p.slots|
  {
    && RunCleared(h.table, r.heap.table, (p.slots[i].ptr - 0x100_0000) / 4096, BlocksFor(p.slots[i].size))
    && |h.cells| == |h.table| && |r.heap.cells| == |r.heap.table|
    && ResiduesUpTo(r.heap.cells, |r.heap.cells|) == ResiduesUpTo(h.cells, |h.cells|) + 1
    && r.proc.slots == p.slots[i := Allocation(0, 0)]
    && Remapped(p.pages, r.proc.pages, p.slots[i], 0)
    && r.proc.stack == p.stack && r.proc.image == p.image
  }

  /** The outcome r of process_malloc where b are the first blocks that fit, and i is the first empty
      slot: they are taken, the slot is filled, and the pages are mapped to themselves, present,
      writable and open to the user; all else is as it was. */
  ghost predicate Allocated(h: HeapState, p: Proc, size: u32, b: nat, i: nat, r: Outcome)
    requires i < |p.slots|
  {
    && r.ptr == 0x100_0000 + 4096 * b
    && RunMarked(h.table, r.heap.table, b, BlocksFor(size))
    && |h.cells| == |h.table| && |r.heap.cells| == |r.heap.table|
    && ResiduesUpTo(r.heap.cells, |r.heap.cells|) == ResiduesUpTo(h.cells, |h.cells|)
    && r.proc.slots == p.slots[i := Allocation(r.ptr, size)]
    && Remapped(p.pages, r.proc.pages, Allocation(r.ptr, size), 0x7)
    && r.proc.stack == p.stack && r.proc.image == p.image
  }

  lemma {:induction false} ProcFreeEffect(h: HeapState, p: Proc, ptr: u32, i: nat)
    requires KernelHeap(h) && ProcOk(h, p) && ptr != 0 && FindSlot(p.slots, ptr, 0) == Some(i)
    ensures GivenBack(h, p, i, ProcFree(h, p, ptr))
  {
    FreeDropsSlot(h, p, ptr, i);
    ClearOneSlot(p, i);
    var b, n := Block(h, ptr), BlocksFor(p.slots[i].size);
    assert SlotOk(h, p.pages, p.slots[i]);
    FreeSound(h, b);
    FreeAccounts(h.table, h.cells, b, n);
  }

  /** A pointer that the process does not hold is ignored. */
  lemma {:induction false} ForeignPointerIgnored(h: HeapState, p: Proc, ptr: u32)
    requires KernelHeap(h) && ProcOk(h, p) && ptr != 0 && forall i :: 0 <= i < |p.slots| ==> p.slots[i].ptr != ptr
    ensures ProcFree(h, p, ptr) == Outcome(h, p, ptr)
  {
    assert FindSlot(p.slots, ptr, 0).None?;
  }

  lemma {:induction false} ProcMallocEffect(h: HeapState, p: Proc, size: u32, b: nat, i: nat)
    requires KernelHeap(h) && ProcOk(h, p) && FirstFitFrom(h.table, BlocksFor(size), 0) == Some(b)
    requires FindSlot(p.slots, 0, 0) == Some(i)
    ensures Allocated(h, p, size, b, i, ProcMalloc(h, p, size))
  {
    MallocFillsSlot(h, p, size, i);
    MallocSound(h, size);
  }

  /** Where no blocks fit, it returns 0 and changes nothing. */
  lemma {:induction false} ProcMallocFails(h: HeapState, p: Proc, size: u32)
    requires KernelHeap(h) && forall b :: 0 <= b ==> !Fits(h.table, b, BlocksFor(size))
    ensures ProcMalloc(h, p, size) == Outcome(h, p, 0)
  {
    assert Place(h, size).None?;
  }

  lemma {:induction false} NewPointerSlot(p: Proc, i: nat, a: Allocation, slots: seq<Allocation>)
    requires i < |p.slots| && slots == p.slots[i := a] && a.ptr != 0 && a.ptr !in Pointers(p)
    ensures FindSlot(slots, a.ptr, 0) == Some(i)
  {
    forall j | 0 <= j < |slots| && j != i
      ensures slots[j].ptr != a.ptr
    {
      assert slots[j] == p.slots[j];
      assert slots[j].ptr != 0 ==> slots[j].ptr in SlotPointers(p.slots);
    }
    assert slots[i].ptr == a.ptr;
  }

  /** Marking a run and clearing it leaves the last block of it. */
  lemma {:induction false} MarkedThenCleared(t: seq<Entry>, t': seq<Entry>, t'': seq<Entry>, b: int, n: nat)
    requires RunMarked(t, t', b, n) && RunCleared(t', t'', b, n)
    requires forall k :: b <= k < b + n ==> t[k] == FREE
    ensures t'' == t[b + n - 1 := TAKEN]
  {
  }

  lemma {:induction false} UnusedBlocksAreFree(h: HeapState, size: u32, b: nat)
    requires KernelHeap(h) && Place(h, size) == Some(b)
    ensures b + BlocksFor(size) <= |h.table| && forall k :: b <= k < b + BlocksFor(size) ==> h.table[k] == FREE
  {
    MallocSound(h, size);
  }

  lemma {:induction false} RemappedTwice(m: FlatMap, m': FlatMap, m'': FlatMap, a: Allocation, flags: u32, flags': u32)
    requires Remapped(m, m', a, flags) && Remapped(m', m'', a, flags')
    ensures Remapped(m, m'', a, flags')
  {
  }

  lemma {:induction false} GivenBackAtOnce(h: HeapState, p: Proc, size: u32, b: nat, i: nat, r: Outcome, f: Outcome)
    requires i < |p.slots| && Allocated(h, p, size, b, i, r) && GivenBack(r.heap, r.proc, i, f)
    requires b + BlocksFor(size) <= |h.table|
    requires forall k :: b <= k < b + BlocksFor(size) ==> h.table[k] == FREE
    ensures f.heap.table == h.table[b + BlocksFor(size) - 1 := TAKEN]
    ensures f.proc.slots == p.slots[i := Allocation(0, 0)]
    ensures Remapped(p.pages, f.proc.pages, Allocation(r.ptr, size), 0)
  {
    MarkedThenCleared(h.table, r.heap.table, f.heap.table, b, BlocksFor(size));
    RemappedTwice(p.pages, r.proc.pages, f.proc.pages, Allocation(r.ptr, size), 0x7, 0);
  }

  /** Both together: the slot is empty again, the pages are absent, and of the whole heap one block
      is different, the last of the run, which stays taken. */
  lemma {:induction false} ProcMallocThenFree(h: HeapState, p: Proc, size: u32, b: nat, i: nat, r: Outcome)
    requires KernelHeap(h) && ProcOk(h, p) && FirstFitFrom(h.table, BlocksFor(size), 0) == Some(b)
    requires FindSlot(p.slots, 0, 0) == Some(i) && r == ProcMalloc(h, p, size)
    ensures KernelHeap(r.heap) && ProcOk(r.heap, r.proc) && r.ptr != 0
    ensures b + BlocksFor(size) <= |h.table|
    ensures var f := ProcFree(r.heap, r.proc, r.ptr);
            && f.heap.table == h.table[b + BlocksFor(size) - 1 := TAKEN]
            && f.proc.slots == p.slots[i := Allocation(0, 0)]
            && Remapped(p.pages, f.proc.pages, Allocation(r.ptr, size), 0)
  {
    ProcMallocOk(h, p, size);
    ProcMallocEffect(h, p, size, b, i);
    MallocFillsSlot(h, p, size, i);
    NewPointerSlot(p, i, Allocation(r.ptr, size), r.proc.slots);
    ProcFreeEffect(r.heap, r.proc, r.ptr, i);
    UnusedBlocksAreFree(h, size, b);
    GivenBackAtOnce(h, p, size, b, i, r, ProcFree(r.heap, r.proc, r.ptr));
  }

  /** Neither operation makes a process write to what is not its own. */
  lemma {:induction false} MallocContained(h: HeapState, p: Proc, size: u32)
    requires KernelHeap(h) && ProcOk(h, p) && Contained(p)
    ensures Contained(ProcMalloc(h, p, size).proc)
  {
    var r := ProcMalloc(h, p, size);
    if Place(h, size).Some? {
      match FindSlot(p.slots, 0, 0)
      case None =>
      case Some(i) =>
        MallocFillsSlot(h, p, size, i);
        StoreAllocation(r.heap, p, i, Allocation(r.ptr, size), r.proc);
    }
  }

  lemma {:induction false} FreeContained(h: HeapState, p: Proc, ptr: u32)
    requires KernelHeap(h) && ProcOk(h, p) && ptr != 0 && Contained(p)
    ensures Contained(ProcFree(h, p, ptr).proc)
  {
    match FindSlot(p.slots, ptr, 0)
    case None =>
    case Some(i) =>
      FreeDropsSlot(h, p, ptr, i);
      DropAllocation(h, p, i, ProcFree(h, p, ptr).proc);
  }
}
