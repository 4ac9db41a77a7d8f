/** Runs of the allocator: any sequence of mallocs and of frees of live runs. */
module HeapRuns {
  import opened Machine
  import opened BlockTable

  /** The heap as a value: first address, block table, and the ledger explaining the table. */
  datatype HeapState = HeapState(base: u32, table: seq<Entry>, cells: seq<Cell>)

  ghost predicate Sound(h: HeapState) {
    && 0 < h.base && h.base % BLOCK_SIZE == 0
    && h.base + BLOCK_SIZE * |h.table| <= TWO_TO_THE_32
    && Accounts(h.table, h.cells)
  }

  function Address(h: HeapState, block: nat): int {
    h.base + BLOCK_SIZE * block
  }

  /** The block an allocation of size bytes gets, if there is room. */
  function Place(h: HeapState, size: nat): Option<nat> {
    FirstFit(h.table, BlocksFor(size))
  }

  function AfterMalloc(h: HeapState, size: nat): HeapState
    requires |h.cells| == |h.table|
  {
    var n := BlocksFor(size);
    match Place(h, size)
    case None => h
    case Some(b) => h.(table := MarkTaken(h.table, b, n), cells := Allot(h.cells, b, n))
  }

  predicate IsLiveStart(h: HeapState, b: nat) {
    b < |h.cells| && h.cells[b].Run? && h.cells[b].start == b
  }

  function AfterFree(h: HeapState, b: nat): HeapState
    requires |h.cells| == |h.table| && b < |h.table| && Terminated(h.table)
  {
    h.(table := ClearChain(h.table, b),
       cells := if IsLiveStart(h, b) && 0 < h.cells[b].length && b + h.cells[b].length <= |h.cells|
                then Release(h.cells, b, h.cells[b].length) else h.cells)
  }

  lemma {:induction false} MallocSound(h: HeapState, size: nat)
    requires Sound(h)
    ensures Sound(AfterMalloc(h, size))
    ensures ResiduesUpTo(AfterMalloc(h, size).cells, |h.cells|) == ResiduesUpTo(h.cells, |h.cells|)
    ensures Place(h, size).Some? ==>
              Live(AfterMalloc(h, size).cells, Place(h, size).value, BlocksFor(size))
    ensures Place(h, size).Some? ==>
              forall k :: Place(h, size).value <= k < Place(h, size).value + BlocksFor(size) ==>
                h.cells[k] == Unused
  {
    var n := BlocksFor(size);
    match Place(h, size)
    case None =>
    case Some(b) =>
      MallocAccounts(h.table, h.cells, b, n);
      AllotKeepsResidues(h.cells, b, n, |h.cells|);
  }

  lemma {:induction false} FreeSound(h: HeapState, b: nat)
    requires Sound(h) && IsLiveStart(h, b)
    ensures Terminated(h.table) && Sound(AfterFree(h, b))
    ensures 0 < h.cells[b].length && b + h.cells[b].length <= |h.cells|
    ensures AfterFree(h, b).cells == Release(h.cells, b, h.cells[b].length)
    ensures ResiduesUpTo(AfterFree(h, b).cells, |h.cells|) == ResiduesUpTo(h.cells, |h.cells|) + 1
  {
    var n := h.cells[b].length;
    FreeAccounts(h.table, h.cells, b, n);
    assert RunAt(h.table, h.cells, b, b, n);
    ReleaseAddsResidue(h.cells, b, n, |h.cells|);
  }

  /** Freeing at block b keeps the heap sound exactly when b starts a live run or its entry
      has no successor, in which case nothing happens at all. */
  lemma {:induction false} FreeSoundIff(h: HeapState, b: nat)
    requires Sound(h) && b < |h.table|
    ensures Terminated(h.table)
    ensures Sound(AfterFree(h, b)) <==> IsLiveStart(h, b) || !HasNext(h.table[b])
    ensures !HasNext(h.table[b]) ==> AfterFree(h, b).table == h.table
  {
    FreeKeepsTableIff(h.table, h.cells, b);
    if IsLiveStart(h, b) {
      FreeSound(h, b);
    } else if !HasNext(h.table[b]) {
      assert AfterFree(h, b) == h;
    }
  }

  datatype Op = Malloc(size: u32) | Free(block: nat)

  /** Callers free only what malloc gave them and they have not freed yet. */
  predicate Allowed(h: HeapState, op: Op) {
    op.Malloc? || (IsLiveStart(h, op.block) && |h.cells| == |h.table| && Terminated(h.table))
  }

  function Step(h: HeapState, op: Op): HeapState
    requires |h.cells| == |h.table| && Allowed(h, op)
  {
    match op
    case Malloc(size) => AfterMalloc(h, size)
    case Free(b) => AfterFree(h, b)
  }

  predicate LegalRun(h: HeapState, ops: seq<Op>)
    decreases |ops|
  {
    |h.cells| == |h.table| &&
    (ops == [] || (Allowed(h, ops[0]) && LegalRun(Step(h, ops[0]), ops[1..])))
  }

  function Exec(h: HeapState, ops: seq<Op>): HeapState
    requires LegalRun(h, ops)
    decreases |ops|
  {
    if ops == [] then h else Exec(Step(h, ops[0]), ops[1..])
  }

  function Frees(ops: seq<Op>): nat {
    if ops == [] then 0 else (if ops[0].Free? then 1 else 0) + Frees(ops[1..])
  }

  lemma {:induction false} RunKeepsSound(h: HeapState, ops: seq<Op>)
    requires Sound(h) && LegalRun(h, ops)
    ensures Sound(Exec(h, ops)) && |Exec(h, ops).cells| == |h.cells|
    ensures ResiduesUpTo(Exec(h, ops).cells, |h.cells|) == ResiduesUpTo(h.cells, |h.cells|) + Frees(ops)
    decreases |ops|
  {
    if ops != [] {
      match ops[0] {
        case Malloc(size) => MallocSound(h, size);
        case Free(b) => FreeSound(h, b);
      }
      RunKeepsSound(Step(h, ops[0]), ops[1..]);
    }
  }

  /** A heap as heap_create leaves it. */
  predicate Empty(h: HeapState) {
    && 0 < h.base && h.base % BLOCK_SIZE == 0
    && h.base + BLOCK_SIZE * |h.table| <= TWO_TO_THE_32
    && |h.cells| == |h.table|
    && forall k :: 0 <= k < |h.table| ==> h.table[k] == FREE && h.cells[k] == Unused
  }

  lemma {:induction false} EmptyHasNoResidue(c: seq<Cell>, k: nat)
    requires k <= |c| && forall j :: 0 <= j < k ==> c[j] == Unused
    ensures ResiduesUpTo(c, k) == 0
  {
    if k > 0 {
      EmptyHasNoResidue(c, k - 1);
    }
  }

  /** How many more blocks are taken after an operation: all that malloc asks for, if they fit; and
      all but one of a run that is freed come back. */
  function Gain(h: HeapState, op: Op): int {
    match op
    case Malloc(size) => if FirstFitFrom(h.table, BlocksFor(size), 0).Some? then BlocksFor(size) else 0
    case Free(b) => if b < |h.cells| && h.cells[b].Run? then 1 - h.cells[b].length else 0
  }

  lemma {:induction false} StepTakes(h: HeapState, op: Op)
    requires Sound(h) && (op.Free? ==> IsLiveStart(h, op.block))
    ensures Allowed(h, op) && Taken(Step(h, op).table) == Taken(h.table) + Gain(h, op)
  {
    EntryFacts();
    AccountsTerminated(h.table, h.cells);
    match op
    case Malloc(size) =>
      if Place(h, size).Some? {
        TakenDifference(h.table, AfterMalloc(h, size).table, Place(h, size).value, BlocksFor(size), |h.table|);
      }
    case Free(b) =>
      var n := h.cells[b].length;
      FreeAccounts(h.table, h.cells, b, n);
      assert RunAt(h.table, h.cells, b, b, n);
      assert forall j :: b <= j < b + n ==> h.cells[j] == Run(b, n) && RunAt(h.table, h.cells, j, b, n);
      TakenDifference(AfterFree(h, b).table, h.table, b, n - 1, |h.table|);
  }

  function TotalGain(h: HeapState, ops: seq<Op>): int
    requires LegalRun(h, ops)
    decreases |ops|
  {
    if ops == [] then 0 else Gain(h, ops[0]) + TotalGain(Step(h, ops[0]), ops[1..])
  }

  /** In every run the blocks taken are those that mallocs were granted, less all but one of each
      run that was freed. */
  lemma {:induction false} EveryRunTakes(h: HeapState, ops: seq<Op>)
    requires Sound(h) && LegalRun(h, ops)
    ensures Taken(Exec(h, ops).table) == Taken(h.table) + TotalGain(h, ops)
    decreases |ops|
  {
    if ops != [] {
      match ops[0] {
        case Malloc(size) => MallocSound(h, size);
        case Free(b) => FreeSound(h, b);
      }
      StepTakes(h, ops[0]);
      EveryRunTakes(Step(h, ops[0]), ops[1..]);
    }
  }

  /** Block conservation over every run from an empty heap: the table is always a set of
      chains and free entries, and the taken entries are the live runs plus one block for
      every free that ever happened. */
  lemma {:induction false} EveryRunConserves(h: HeapState, ops: seq<Op>)
    requires Empty(h) && LegalRun(h, ops)
    ensures var r := Exec(h, ops);
            && Accounts(r.table, r.cells)
            && Taken(r.table) == RunLengthsUpTo(r.cells, |r.cells|) + Frees(ops)
  {
    EmptyHasNoResidue(h.cells, |h.cells|);
    RunKeepsSound(h, ops);
    var r := Exec(h, ops);
    Conservation(r.table, r.cells);
  }
}

/** The kernel heap: a table of one byte per 4096-byte block. */
module Heap {
  import opened Machine
  import opened BlockTable
  import opened HeapRuns

  /** The kernel's heap region: 100 MB from 16 MB. */
  const HEAP_ADDRESS := 0x100_0000
  const HEAP_SIZE := 104857600

  class BlockHeap {
    const saddr: u32
    const entries: array<Entry>
    ghost var cells: seq<Cell>

    ghost predicate Geometry() {
      0 < saddr && saddr % BLOCK_SIZE == 0 && saddr + BLOCK_SIZE * entries.Length <= TWO_TO_THE_32
    }

    ghost function State(): HeapState
      reads this, entries
    {
      HeapState(saddr, entries[..], cells)
    }

    ghost predicate Valid()
      reads this, entries
    {
      Sound(State())
    }

    constructor (ptr: u32, table: array<Entry>)
      ensures saddr == ptr && entries == table
      ensures cells == seq(table.Length, _ => Unused)
    {
      saddr, entries := ptr, table;
      cells := seq(table.Length, _ => Unused);
    }

    /** heap_create: refuses misaligned bounds and a table of the wrong length, and otherwise
        clears the table. The size wraps for a reversed region, and a region at 0 is accepted:
        the heap is sound exactly when the region is neither, where end 0 stands for 4 GB. */
    static method Create(ptr: u32, end: u32, table: array<Entry>)
      returns (res: int, heap: BlockHeap?)
      modifies table
      ensures res == if ptr % BLOCK_SIZE == 0 && end % BLOCK_SIZE == 0
                        && BLOCK_SIZE * table.Length == Wrap32(end - ptr) then 0 else -EINVARG
      ensures res != 0 ==> heap == null && table[..] == old(table[..])
      ensures res == 0 ==> heap != null && fresh(heap) && heap.entries == table && heap.saddr == ptr
      ensures res == 0 ==> (heap.Valid() <==> 0 < ptr && (ptr <= end || end == 0))
      ensures res == 0 && heap.Valid() ==> Empty(heap.State())
    {
      heap := null;
      if ptr % BLOCK_SIZE != 0 || end % BLOCK_SIZE != 0 {
        return -EINVARG, null;
      }
      RegionSize(ptr, end);
      if table.Length != Wrap32(end - ptr) / BLOCK_SIZE {
        return -EINVARG, null;
      }
      for i := 0 to table.Length
        invariant forall k :: 0 <= k < i ==> table[k] == FREE
      {
        table[i] := FREE;
      }
      heap := new BlockHeap(ptr, table);
      res := 0;
    }

    function BlockToAddress(block: nat): u32
      requires Geometry() && block < entries.Length
    {
      saddr + block * BLOCK_SIZE
    }

    /** mark_blocks_taken: the first-block flag is written and then overwritten. */
    method MarkBlocksTaken(start: nat, n: nat)
      requires 0 < n && start + n <= entries.Length
      modifies entries
      ensures entries[..] == MarkTaken(old(entries[..]), start, n)
    {
      entries[start] := TAKEN | IS_FIRST;
      for i := start to start + n - 1
        invariant forall k :: 0 <= k < entries.Length && !(start <= k < start + n) ==> entries[k] == old(entries[k])
        invariant forall k :: start <= k < i ==> entries[k] == TAKEN | HAS_NEXT
      {
        entries[i] := TAKEN | HAS_NEXT;
      }
      entries[start + n - 1] := TAKEN;
    }

    /** heap_malloc_blocks: after a taken entry the search resumes behind it, and still finds
        the least block with total free entries, or returns 0 only if there is none. */
    method MallocBlocks(total: nat) returns (ptr: u32)
      requires Geometry()
      modifies entries
      ensures match FirstFit(old(entries[..]), total)
              case None => ptr == 0 && entries[..] == old(entries[..])
              case Some(b) =>
                ptr == saddr + BLOCK_SIZE * b && entries[..] == MarkTaken(old(entries[..]), b, total)
    {
      ghost var t := entries[..];
      var i := 0;
      while i < entries.Length
        invariant 0 <= i <= entries.Length
        invariant entries[..] == t
        invariant total == 0 || forall k :: 0 <= k < i ==> !Fits(t, k, total)
      {
        if !Vacant(entries[i]) {
          assert total == 0 || !Fits(t, i, total);
          i := i + 1;
          continue;
        }
        var j := i;
        ghost var i0 := i;
        while j < entries.Length
          invariant i == i0 <= j <= entries.Length
          invariant entries[..] == t
          invariant forall k :: i <= k < j ==> Vacant(t[k])
          invariant total == 0 || j - i < total
          invariant total == 0 || forall k :: 0 <= k < i ==> !Fits(t, k, total)
        {
          if !Vacant(entries[j]) {
            assert total == 0 || forall k :: i0 <= k <= j ==> !Fits(t, k, total);
            i := j;
            break;
          } else if j - i + 1 == total {
            assert Fits(t, i, total);
            MarkBlocksTaken(i, total);
            return BlockToAddress(i);
          }
          j := j + 1;
        }
        assert total == 0 || forall k :: 0 <= k <= i ==> !Fits(t, k, total);
        i := i + 1;
      }
      return 0;
    }

    /** heap_malloc, for every 32-bit size: the least block with room for the exact number of
        blocks, although the last sizes round up to 0. */
    method Malloc(size: u32) returns (ptr: u32)
      requires Valid()
      modifies entries, `cells
      ensures Valid() && State() == AfterMalloc(old(State()), size)
      ensures match Place(old(State()), size)
              case None => ptr == 0
              case Some(b) => ptr == Address(State(), b)
    {
      MallocSound(State(), size);
      ghost var h := State();
      if size == 0 {
        return 0;
      }
      var tmp := AlignValue(size) / BLOCK_SIZE;
      AlignValueCountsBlocks(size);
      assert FirstFit(h.table, tmp) == Place(h, size);
      ptr := MallocBlocks(tmp);
      cells := AfterMalloc(h, size).cells;
    }

    /** The loop of heap_free: entries are cleared as long as they have a successor. */
    method ClearFrom(b: nat)
      requires b < entries.Length && Terminated(entries[..])
      modifies entries
      ensures entries[..] == ClearChain(old(entries[..]), b)
    {
      ghost var t := entries[..];
      ghost var last := ChainEnd(t, b);
      var i := b;
      while HasNext(entries[i])
        invariant b <= i <= last
        invariant forall k :: 0 <= k < entries.Length ==> entries[k] == if b <= k < i then FREE else t[k]
        decreases last - i
      {
        entries[i] := FREE;
        i := i + 1;
      }
    }

    /** heap_free at any address inside the region. The table stays explained by a ledger
        exactly when the address is in the first block of a live run or in a block without
        a successor. */
    method Free(ptr: u32)
      requires Valid() && saddr <= ptr < saddr + BLOCK_SIZE * entries.Length
      modifies entries, `cells
      ensures Terminated(old(entries[..]))
      ensures State() == AfterFree(old(State()), (ptr - saddr) / BLOCK_SIZE)
      ensures var b := (ptr - saddr) / BLOCK_SIZE;
              Valid() <==> IsLiveStart(old(State()), b) || !HasNext(old(entries[b]))
    {
      var b := (ptr - saddr) / BLOCK_SIZE;
      AccountsTerminated(entries[..], cells);
      FreeSoundIff(State(), b);
      ClearFrom(b);
      cells := AfterFree(old(State()), b).cells;
    }

    /** ksize: 4096 for every entry that free would clear. */
    method Ksize(ptr: u32) returns (ret: u32)
      requires Valid() && (ptr == 0 || saddr <= ptr < saddr + BLOCK_SIZE * entries.Length)
      ensures Terminated(entries[..])
      ensures ptr == 0 ==> ret == 0
      ensures ptr != 0 ==> var b := (ptr - saddr) / BLOCK_SIZE;
                           ret == BLOCK_SIZE * (ChainEnd(entries[..], b) - b)
    {
      AccountsTerminated(entries[..], cells);
      ret := 0;
      if ptr == 0 {
        return;
      }
      var b := (ptr - saddr) / BLOCK_SIZE;
      ghost var last := ChainEnd(entries[..], b);
      var i := b;
      while HasNext(entries[i])
        invariant b <= i <= last && ret == BLOCK_SIZE * (i - b)
        decreases last - i
      {
        ret := ret + BLOCK_SIZE;
        i := i + 1;
      }
    }
  }

  /** The size of an aligned region is a whole number of blocks, also when it wraps. */
  lemma {:induction false} RegionSize(ptr: u32, end: u32)
    requires ptr % BLOCK_SIZE == 0 && end % BLOCK_SIZE == 0
    ensures Wrap32(end - ptr) == BLOCK_SIZE * (Wrap32(end - ptr) / BLOCK_SIZE)
    ensures ptr + Wrap32(end - ptr) == if ptr <= end then end else end + TWO_TO_THE_32
  {
  }

  /** ksize reports one block less than a run holds, and freeing the run gives back exactly
      the reported bytes. */
  lemma {:induction false} KsizeOfRun(h: HeapState, s: nat, n: nat)
    requires Sound(h) && Live(h.cells, s, n)
    ensures Terminated(h.table) && 0 < n && s + n <= |h.table|
    ensures BLOCK_SIZE * (ChainEnd(h.table, s) - s) == BLOCK_SIZE * (n - 1)
    ensures forall k :: 0 <= k < |h.table| ==>
              (AfterFree(h, s).table[k] != h.table[k] <==> s <= k < ChainEnd(h.table, s))
  {
    EntryFacts();
    AccountsTerminated(h.table, h.cells);
    LiveChainEnd(h.table, h.cells, s, n, s);
    assert RunAt(h.table, h.cells, s, s, n);
  }

  /** Freeing a run of one block frees nothing at all. So paging_free_chunk, which frees one
      page after the other, gives back none of a chunk's 1026 blocks. */
  lemma {:induction false} OneBlockStaysTaken(h: HeapState, s: nat)
    requires Sound(h) && Live(h.cells, s, 1)
    ensures s < |h.table| && Terminated(h.table) && AfterFree(h, s).table == h.table
  {
  }
}
