/** The process structure: its allocation slots, page directory and stack, changed in place. */
module Process {
  import opened Machine
  import opened Bits
  import opened BlockTable
  import opened HeapRuns
  import opened Heap
  import opened PageMap
  import opened Paging
  import opened ProcessMemory
  import opened ProcessRuns
  import opened ElfMapping

  class UserProcess {
    const heap: BlockHeap
    const pageDir: Chunk
    const allocations: array<Allocation>
    const stack: u32
    /** The memory that the executable was read into. */
    const image: Allocation

    /** The heap is the kernel's, and the page tables and slots are memory of their own. */
    ghost predicate Valid()
      reads heap, heap.entries, pageDir.Repr, allocations
    {
      && KernelHeap(heap.State())
      && pageDir.Valid()
      && allocations.Length == MAX_PROGRAM_ALLOCATIONS
      && heap !in pageDir.Repr && heap.entries !in pageDir.Repr && allocations !in pageDir.Repr
    }

    ghost function State(): Proc
      requires pageDir.Shape()
      reads pageDir.Repr, allocations
    {
      Proc(allocations[..], pageDir.Flat(), stack, image)
    }

    /** task_new and the start of process_load_for_slot: empty slots, pages mapped to themselves
        without write access, and a stack. */
    constructor (heap: BlockHeap, pageDir: Chunk, stack: u32, image: Allocation)
      requires KernelHeap(heap.State()) && pageDir.Valid()
      requires heap !in pageDir.Repr && heap.entries !in pageDir.Repr
      ensures Valid() && fresh(allocations)
      ensures this.heap == heap && this.pageDir == pageDir
      ensures State() == Proc(seq(MAX_PROGRAM_ALLOCATIONS, _ => Allocation(0, 0)), pageDir.Flat(), stack, image)
    {
      this.heap, this.pageDir, this.stack, this.image := heap, pageDir, stack, image;
      allocations := new Allocation[MAX_PROGRAM_ALLOCATIONS](_ => Allocation(0, 0));
      new;
      assert allocations[..] == seq(MAX_PROGRAM_ALLOCATIONS, _ => Allocation(0, 0));
    }

    /** process_find_free_alloc_index and process_get_allocation_by_addr: the first slot that
        holds ptr, where ptr 0 stands for an empty slot. */
    method FindAllocation(ptr: u32) returns (index: Option<nat>)
      ensures index == FindSlot(allocations[..], ptr, 0)
    {
      for i := 0 to allocations.Length
        invariant FindSlot(allocations[..], ptr, 0) == FindSlot(allocations[..], ptr, i)
      {
        if allocations[i].ptr == ptr {
          return Some(i);
        }
      }
      return None;
    }

    /** The end of process_malloc: the pages are mapped and the slot is filled. */
    method Enter(i: nat, ptr: u32, size: u32)
      requires Valid() && i < allocations.Length
      modifies pageDir.Repr, allocations
      ensures Valid() && heap.State() == old(heap.State())
      ensures State() == old(State()).(
                slots := old(allocations[..])[i := Allocation(ptr, size)],
                pages := AfterMapTo(old(pageDir.Flat()), ptr, ptr, EndOf(ptr, size), USER_RW))
    {
      var res := pageDir.MapTo(ptr, ptr, AlignAddress(Wrap32(ptr + size)), USER_RW);
      allocations[i] := Allocation(ptr, size);
    }

    /** process_malloc. MallocOutcome says what that is for a process in order. */
    method Malloc(size: u32) returns (ptr: u32)
      requires Valid()
      modifies heap.entries, heap`cells, pageDir.Repr, allocations
      ensures Valid()
      ensures Outcome(heap.State(), State(), ptr) == ProcMalloc(old(heap.State()), old(State()), size)
      ensures ProcOk(old(heap.State()), old(State())) ==>
                MallocOutcome(old(heap.State()), old(State()), size, Outcome(heap.State(), State(), ptr))
    {
      ghost var h, p := heap.State(), State();
      MallocEffects(h, p, size);
      NewRun(h, size);
      ptr := heap.Malloc(size);
      if ptr == 0 {
        return;
      }
      assert pageDir.Flat() == p.pages && allocations[..] == p.slots;
      ptr := Keep(ptr, size);
    }

    /** process_malloc once it has a new run: the run goes into an empty slot or is freed again. */
    method Keep(ptr: u32, size: u32) returns (kept: u32)
      requires Valid() && heap.saddr <= ptr < heap.saddr + BLOCK_SIZE * heap.entries.Length
      requires IsLiveStart(heap.State(), Block(heap.State(), ptr))
      modifies heap.entries, heap`cells, pageDir.Repr, allocations
      ensures Valid() && Terminated(old(heap.entries[..]))
      ensures var h, p := old(heap.State()), old(State());
              match FindSlot(p.slots, 0, 0)
              case None => kept == 0 && heap.State() == AfterFree(h, Block(h, ptr)) && State() == p
              case Some(i) =>
                && kept == ptr && heap.State() == h
                && State() == p.(slots := p.slots[i := Allocation(ptr, size)],
                                 pages := AfterMapTo(p.pages, ptr, ptr, EndOf(ptr, size), USER_RW))
    {
      ghost var p := State();
      FreeSound(heap.State(), Block(heap.State(), ptr));
      var index := FindAllocation(0);
      if index.None? {
        heap.Free(ptr);
        assert pageDir.Flat() == p.pages && allocations[..] == p.slots;
        return 0;
      }
      Enter(index.value, ptr, size);
      return ptr;
    }

    /** Every slot that holds ptr is emptied. */
    method ClearAllocations(ptr: u32)
      modifies allocations
      ensures allocations[..] == ClearSlots(old(allocations[..]), ptr)
    {
      for i := 0 to allocations.Length
        invariant forall j :: 0 <= j < i ==> allocations[j] == ClearSlots(old(allocations[..]), ptr)[j]
        invariant forall j :: i <= j < allocations.Length ==> allocations[j] == old(allocations[j])
      {
        if allocations[i].ptr == ptr {
          allocations[i] := Allocation(0, 0);
        }
      }
    }

    /** The first half of process_free: the pages are unmapped and the slots emptied. The mapping
        is in order, so the early return of the original is never taken. */
    method Leave(i: nat)
      requires Valid() && i < allocations.Length
      requires MappingAccepted(allocations[i].ptr, allocations[i].ptr,
                               EndOf(allocations[i].ptr, allocations[i].size))
      modifies pageDir.Repr, allocations
      ensures Valid() && heap.State() == old(heap.State())
      ensures var pa := old(allocations[i]);
              State() == old(State()).(
                slots := ClearSlots(old(allocations[..]), pa.ptr),
                pages := AfterMapTo(old(pageDir.Flat()), pa.ptr, pa.ptr, EndOf(pa.ptr, pa.size), 0))
    {
      var pa := allocations[i];
      var res := pageDir.MapTo(pa.ptr, pa.ptr, AlignAddress(Wrap32(pa.ptr + pa.size)), 0);
      assert res == 0;
      ClearAllocations(pa.ptr);
    }

    /** process_free of a non-null pointer */
    method Free(ptr: u32)
      requires Valid() && ProcOk(heap.State(), State()) && ptr != 0
      modifies heap.entries, heap`cells, pageDir.Repr, allocations
      ensures Valid()
      ensures Outcome(heap.State(), State(), ptr) == ProcFree(old(heap.State()), old(State()), ptr)
      ensures match FindSlot(old(allocations[..]), ptr, 0)
              case None => heap.State() == old(heap.State()) && State() == old(State())
              case Some(i) =>
                && GivenBack(old(heap.State()), old(State()), i, Outcome(heap.State(), State(), ptr))
                && RunCleared(old(heap.entries[..]), heap.entries[..], (ptr - 0x100_0000) / 4096,
                              BlocksFor(old(allocations[..])[i].size))
    {
      FreeEffect(heap.State(), State(), ptr);
      var index := FindAllocation(ptr);
      if index.None? {
        return;
      }
      SlotGeometry(heap.State(), State(), index.value);
      Release(index.value);
    }

    /** process_free once the slot is found. */
    method Release(i: nat)
      requires Valid() && i < allocations.Length
      requires MappingAccepted(allocations[i].ptr, allocations[i].ptr,
                               EndOf(allocations[i].ptr, allocations[i].size))
      requires heap.saddr <= allocations[i].ptr < heap.saddr + BLOCK_SIZE * heap.entries.Length
      requires IsLiveStart(heap.State(), Block(heap.State(), allocations[i].ptr))
      modifies heap.entries, heap`cells, pageDir.Repr, allocations
      ensures Valid() && Terminated(old(heap.entries[..]))
      ensures var pa, h := old(allocations[i]), old(heap.State());
              && heap.State() == AfterFree(h, Block(h, pa.ptr))
              && State() == old(State()).(
                   slots := ClearSlots(old(allocations[..]), pa.ptr),
                   pages := AfterMapTo(old(pageDir.Flat()), pa.ptr, pa.ptr, EndOf(pa.ptr, pa.size), 0))
    {
      var ptr := allocations[i].ptr;
      FreeSound(heap.State(), Block(heap.State(), ptr));
      Leave(i);
      ghost var p := State();
      heap.Free(ptr);
      assert pageDir.Flat() == p.pages && allocations[..] == p.slots;
    }

    /** process_map_elf: stops at the first header that cannot be mapped. */
    method MapElf(phdrs: seq<Phdr>) returns (res: int)
      requires Valid()
      modifies pageDir.Repr
      ensures Valid() && heap.State() == old(heap.State()) && allocations[..] == old(allocations[..])
      ensures pageDir.Flat() == AfterElf(old(pageDir.Flat()), image.ptr, phdrs)
      ensures res == if AllAccepted(image.ptr, phdrs) then 0 else -EINVARG
      ensures res == 0 && Separate(phdrs) ==> ImageShown(pageDir.Flat(), image.ptr, phdrs)
    {
      ghost var m := pageDir.Flat();
      res := 0;
      for i := 0 to |phdrs|
        invariant Valid() && heap.State() == old(heap.State()) && allocations[..] == old(allocations[..])
        invariant AfterElf(pageDir.Flat(), image.ptr, phdrs[i..]) == AfterElf(old(pageDir.Flat()), image.ptr, phdrs)
        invariant res == 0 && AllAccepted(image.ptr, phdrs[..i])
      {
        ghost var before := pageDir.Flat();
        res := MapSegment(phdrs[i]);
        ElfTurn(before, image.ptr, phdrs, i);
        if res < 0 {
          return;
        }
      }
      assert phdrs[|phdrs|..] == [] && phdrs[..|phdrs|] == phdrs;
      if Separate(phdrs) {
        ImageIsShown(m, image.ptr, phdrs);
      }
    }

    /** The body of the loop of process_map_elf. */
    method MapSegment(phdr: Phdr) returns (res: int)
      requires Valid()
      modifies pageDir.Repr
      ensures Valid() && heap.State() == old(heap.State()) && allocations[..] == old(allocations[..])
      ensures pageDir.Flat() == AfterSegment(old(pageDir.Flat()), image.ptr, phdr)
      ensures res == if SegmentAccepted(image.ptr, phdr) then 0 else -EINVARG
    {
      var phys := PhysAddr(image.ptr, phdr);
      var flags: u32 := IS_PRESENT + ACCESS_FROM_ALL;
      if And(phdr.flags, PF_W) != 0 {
        flags := flags + IS_WRITABLE;
      }
      res := pageDir.MapTo(phdr.vaddr, phys, AlignAddress(Wrap32(phys + phdr.memsz)), flags);
    }

    /** The stack is mapped below its end address. */
    method MapStack() returns (res: int)
      requires Valid() && RunAtAddress(heap.State(), stack, STACK_PAGES)
      modifies pageDir.Repr
      ensures Valid() && heap.State() == old(heap.State()) && allocations[..] == old(allocations[..])
      ensures res == 0 && pageDir.Flat() == WithStack(old(pageDir.Flat()), stack)
    {
      RunGeometry(heap.State(), stack, STACK_PAGES);
      res := pageDir.MapTo(PROGRAM_VIRTUAL_STACK_ADDRESS_END, AlignAddress(stack),
                           AlignAddress(Wrap32(stack + USER_PROGRAM_STACK_SIZE)), USER_RW);
    }

    /** process_map_memory_process, for an ELF image. */
    method MapMemory(phdrs: seq<Phdr>) returns (res: int)
      requires Valid() && RunAtAddress(heap.State(), stack, STACK_PAGES)
      modifies pageDir.Repr
      ensures Valid() && heap.State() == old(heap.State()) && allocations[..] == old(allocations[..])
      ensures res == if AllAccepted(image.ptr, phdrs) then 0 else -EINVARG
      ensures var elf := AfterElf(old(pageDir.Flat()), image.ptr, phdrs);
              pageDir.Flat() == if res == 0 then WithStack(elf, stack) else elf
      ensures res == 0 && Separate(phdrs) ==> ImageShown(pageDir.Flat(), image.ptr, phdrs)
    {
      ghost var m := pageDir.Flat();
      res := MapElf(phdrs);
      if res < 0 {
        return;
      }
      if Separate(phdrs) {
        LoadedImageIsShown(heap.State(), stack, m, image.ptr, phdrs);
      }
      res := MapStack();
    }
  }

  predicate AllAccepted(elfMemory: u32, phdrs: seq<Phdr>) {
    forall i :: 0 <= i < |phdrs| ==> SegmentAccepted(elfMemory, phdrs[i])
  }

  /** One turn of the loop over the headers, on the address space as a value. */
  lemma {:induction false} ElfTurn(before: FlatMap, elfMemory: u32, phdrs: seq<Phdr>, i: nat)
    requires i < |phdrs| && AllAccepted(elfMemory, phdrs[..i])
    ensures SegmentAccepted(elfMemory, phdrs[i]) ==>
              && AllAccepted(elfMemory, phdrs[..i + 1])
              && AfterElf(AfterSegment(before, elfMemory, phdrs[i]), elfMemory, phdrs[i + 1..])
                 == AfterElf(before, elfMemory, phdrs[i..])
    ensures !SegmentAccepted(elfMemory, phdrs[i]) ==>
              && !AllAccepted(elfMemory, phdrs)
              && AfterSegment(before, elfMemory, phdrs[i]) == before == AfterElf(before, elfMemory, phdrs[i..])
  {
    assert phdrs[i..][0] == phdrs[i] && phdrs[i..][1..] == phdrs[i + 1..];
    assert phdrs[..i + 1] == phdrs[..i] + [phdrs[i]];
  }

  /** What heap_malloc returns to process_malloc can be freed again at once. */
  lemma {:induction false} NewRun(h: HeapState, size: u32)
    requires KernelHeap(h)
    ensures KernelHeap(AfterMalloc(h, size))
    ensures Place(h, size).Some? ==>
              var h', b := AfterMalloc(h, size), Place(h, size).value;
              && b < |h.table| && IsLiveStart(h', b)
              && Terminated(h'.table) && KernelHeap(AfterFree(h', b))
              && 0 < Address(h, b) < TWO_TO_THE_32 && Block(h', Address(h, b)) == b
  {
    MallocSound(h, size);
    if Place(h, size).Some? {
      FreeSound(AfterMalloc(h, size), Place(h, size).value);
    }
  }

  lemma {:induction false} FreeEffect(h: HeapState, p: Proc, ptr: u32)
    requires KernelHeap(h) && ProcOk(h, p) && ptr != 0
    ensures FindSlot(p.slots, ptr, 0).Some? ==>
              GivenBack(h, p, FindSlot(p.slots, ptr, 0).value, ProcFree(h, p, ptr))
  {
    if FindSlot(p.slots, ptr, 0).Some? {
      ProcFreeEffect(h, p, ptr, FindSlot(p.slots, ptr, 0).value);
    }
  }

  /** The first blocks that fit go into the first empty slot. Where no blocks fit nothing happens;
      where no slot is empty one block is lost. The process stays in order. */
  ghost predicate MallocOutcome(h: HeapState, p: Proc, size: u32, r: Outcome) {
    && KernelHeap(r.heap) && ProcOk(r.heap, r.proc)
    && match FirstFitFrom(h.table, BlocksFor(size), 0)
       case None => r == Outcome(h, p, 0)
       case Some(b) =>
         match FindSlot(p.slots, 0, 0)
         case None => r.ptr == 0 && r.proc == p && Taken(r.heap.table) == Taken(h.table) + 1
         case Some(i) => Allocated(h, p, size, b, i, r)
  }

  lemma {:induction false} MallocEffects(h: HeapState, p: Proc, size: u32)
    requires KernelHeap(h)
    ensures ProcOk(h, p) ==> MallocOutcome(h, p, size, ProcMalloc(h, p, size))
  {
    if ProcOk(h, p) {
      ProcMallocOk(h, p, size);
      match FirstFitFrom(h.table, BlocksFor(size), 0)
      case None =>
      case Some(b) =>
        match FindSlot(p.slots, 0, 0)
        case None => FullSlotsLoseBlock(h, p, size);
        case Some(i) => ProcMallocEffect(h, p, size, b, i);
    }
  }

  /** A slot in use can be unmapped and freed: process_free never stops half way. */
  lemma {:induction false} SlotGeometry(h: HeapState, p: Proc, i: nat)
    requires KernelHeap(h) && ProcOk(h, p) && i < |p.slots| && p.slots[i].ptr != 0
    ensures var a := p.slots[i];
            && h.base <= a.ptr < h.base + BLOCK_SIZE * |h.table|
            && IsLiveStart(h, Block(h, a.ptr))
            && Terminated(h.table) && KernelHeap(AfterFree(h, Block(h, a.ptr)))
            && MappingAccepted(a.ptr, a.ptr, EndOf(a.ptr, a.size))
  {
    var a := p.slots[i];
    assert SlotOk(h, p.pages, a);
    RunGeometry(h, a.ptr, BlocksFor(a.size));
    RangeOfAllocation(a.ptr, a.size);
    FreeSound(h, Block(h, a.ptr));
  }
}
