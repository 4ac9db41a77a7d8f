/** Address spaces as flat maps: one entry for each of the 2^20 pages. */
module PageMap {
  import opened Machine
  import opened Bits

  const IS_PRESENT := 1
  const IS_WRITABLE := 2
  const ACCESS_FROM_ALL := 4
  const USER_RO := 5
  const USER_RW := 7

  type FlatMap = m: seq<u32> | |m| == PAGE_COUNT witness seq(PAGE_COUNT, _ => 0)

  predicate Writable(entry: u32) {
    entry / IS_WRITABLE % 2 == 1
  }

  predicate Present(entry: u32) {
    entry % 2 == 1
  }

  lemma {:induction false} FlagBits(entry: nat, page: nat, flags: nat)
    requires entry == PAGE_SIZE * page + flags
    ensures entry % 2 == flags % 2 && entry / 2 % 2 == flags / 2 % 2
  {
    assert entry / 2 == 2048 * page + flags / 2;
  }

  lemma {:induction false} EntryFlags(page: nat, flags: nat)
    requires page < PAGE_COUNT && flags < PAGE_SIZE
    ensures Writable(MakeEntry(page, flags)) <==> flags / 2 % 2 == 1
    ensures Present(MakeEntry(page, flags)) <==> flags % 2 == 1
  {
    AddressPlusFlags(page, flags);
    FlagBits(MakeEntry(page, flags), page, flags);
  }

  /** Every page mapped to the frame with its own number. */
  function Identity(flags: u32): FlatMap {
    seq(PAGE_COUNT, p requires 0 <= p < PAGE_COUNT => MakeEntry(p, flags))
  }

  /** How many pages p lies above v, going round the end of the address space. */
  function PagesAbove(p: nat, v: nat): (d: nat)
    requires p < PAGE_COUNT && v < PAGE_COUNT
    ensures d < PAGE_COUNT && (v + d) % PAGE_COUNT == p
  {
    if p >= v then p - v else p + PAGE_COUNT - v
  }

  /** The map m after count pages from page v have been mapped, in order, to the frames from f. */
  function MapPages(m: FlatMap, v: nat, f: nat, count: nat, flags: u32): FlatMap
    requires v < PAGE_COUNT && f + count <= PAGE_COUNT
  {
    seq(PAGE_COUNT, p requires 0 <= p < PAGE_COUNT =>
      if PagesAbove(p, v) < count then MakeEntry(f + PagesAbove(p, v), flags) else m[p])
  }

  lemma {:induction false} MapNoPages(m: FlatMap, v: nat, f: nat, flags: u32)
    requires v < PAGE_COUNT && f <= PAGE_COUNT
    ensures MapPages(m, v, f, 0, flags) == m
  {
  }

  lemma {:induction false} MapOneMorePage(m: FlatMap, v: nat, f: nat, count: nat, flags: u32)
    requires v < PAGE_COUNT && f + count < PAGE_COUNT
    ensures MapPages(m, v, f, count + 1, flags)
         == MapPages(m, v, f, count, flags)[(v + count) % PAGE_COUNT := MakeEntry(f + count, flags)]
  {
    var q := (v + count) % PAGE_COUNT;
    assert PagesAbove(q, v) == count;
    forall p | 0 <= p < PAGE_COUNT && p != q
      ensures PagesAbove(p, v) != count
    {
    }
  }

  /** Walking up page by page, addresses and page numbers wrap round together. */
  lemma {:induction false} NextPage(addr: u32, i: nat)
    requires addr % PAGE_SIZE == 0
    ensures Wrap32(addr + PAGE_SIZE * i) / PAGE_SIZE == (addr / PAGE_SIZE + i) % PAGE_COUNT
    ensures Wrap32(addr + PAGE_SIZE * i) % PAGE_SIZE == 0
    ensures Wrap32(Wrap32(addr + PAGE_SIZE * i) + PAGE_SIZE) == Wrap32(addr + PAGE_SIZE * (i + 1))
    ensures Wrap32(addr + PAGE_SIZE * (i + 1)) % PAGE_SIZE == 0
  {
    var page := addr / PAGE_SIZE;
    assert addr + PAGE_SIZE * i == PAGE_SIZE * (page + i);
  }

  lemma {:induction false} FrameReached(phys: u32, i: nat)
    requires phys % PAGE_SIZE == 0 && phys + PAGE_SIZE * (i + 1) <= TWO_TO_THE_32
    ensures Wrap32(phys + PAGE_SIZE * i) / PAGE_SIZE == phys / PAGE_SIZE + i < PAGE_COUNT
  {
  }

  /** One turn of paging_map_range: the addresses it has reached, and the map it makes. */
  lemma {:induction false} MapRangeTurn(m: FlatMap, virt: u32, phys: u32, i: nat, flags: u32)
    requires virt % PAGE_SIZE == 0 && phys % PAGE_SIZE == 0
    requires phys + PAGE_SIZE * (i + 1) <= TWO_TO_THE_32
    ensures phys / PAGE_SIZE + i + 1 <= PAGE_COUNT
    ensures var v, ph := Wrap32(virt + PAGE_SIZE * i), Wrap32(phys + PAGE_SIZE * i);
            && v % PAGE_SIZE == 0 && ph % PAGE_SIZE == 0
            && MapPages(m, virt / PAGE_SIZE, phys / PAGE_SIZE, i + 1, flags)
               == MapPages(m, virt / PAGE_SIZE, phys / PAGE_SIZE, i, flags)
                    [v / PAGE_SIZE := MakeEntry(ph / PAGE_SIZE, flags)]
            && Wrap32(v + PAGE_SIZE) == Wrap32(virt + PAGE_SIZE * (i + 1))
            && Wrap32(ph + PAGE_SIZE) == Wrap32(phys + PAGE_SIZE * (i + 1))
            && Wrap32(v + PAGE_SIZE) % PAGE_SIZE == 0 == Wrap32(ph + PAGE_SIZE) % PAGE_SIZE
  {
    NextPage(virt, i);
    NextPage(phys, i);
    FrameReached(phys, i);
    MapOneMorePage(m, virt / PAGE_SIZE, phys / PAGE_SIZE, i, flags);
  }

  lemma {:induction false} FramesFit(phys: u32, count: nat)
    requires phys + PAGE_SIZE * count <= TWO_TO_THE_32
    ensures phys / PAGE_SIZE + count <= PAGE_COUNT
  {
  }

  /** What the memory management unit makes of a virtual address. */
  function Translate(m: FlatMap, virt: u32): int {
    Frame(m[virt / PAGE_SIZE]) + virt % PAGE_SIZE
  }

  /** A frame address is the translation of an aligned address only. */
  lemma {:induction false} FrameIsTranslation(m: FlatMap, virt: u32, page: nat)
    requires page < PAGE_COUNT && (virt % PAGE_SIZE == 0 ==> page == virt / PAGE_SIZE)
    ensures Frame(m[page]) == Translate(m, virt) <==> virt % PAGE_SIZE == 0
  {
  }

  lemma {:induction false} AlignedWord(frame: u32, entry: u32)
    requires frame == entry - entry % PAGE_SIZE
    ensures frame == PAGE_SIZE * (entry / PAGE_SIZE)
  {
  }

  /** paging_map_to's verdict on its arguments. */
  predicate MappingAccepted(virt: u32, phys: u32, physEnd: u32) {
    virt % PAGE_SIZE == 0 && phys % PAGE_SIZE == 0 && physEnd % PAGE_SIZE == 0 && phys <= physEnd
  }

  /** The map after paging_map_to: all of the range, or nothing. */
  function AfterMapTo(m: FlatMap, virt: u32, phys: u32, physEnd: u32, flags: u32): FlatMap {
    if MappingAccepted(virt, phys, physEnd)
    then MapPages(m, virt / PAGE_SIZE, phys / PAGE_SIZE, (physEnd - phys) / PAGE_SIZE, flags)
    else m
  }
}

/** Two-level page tables: a directory of 1024 tables of 1024 entries each. */
module Paging {
  import opened Machine
  import opened Bits
  import opened BlockTable
  import opened HeapRuns
  import opened Heap
  import opened PageMap

  const ENTRIES_PER_TABLE := 1024
  const BYTES_PER_TABLE := 0x40_0000

  /** paging_get_indexes: directory and table index of a page-aligned address. */
  function GetIndexes(virt: u32): (r: Option<(nat, nat)>)
    ensures r.None? <==> virt % PAGE_SIZE != 0
    ensures r.Some? ==> r.value.0 < ENTRIES_PER_TABLE && r.value.1 < ENTRIES_PER_TABLE
  {
    if virt % PAGE_SIZE != 0 then None
    else Some((virt / BYTES_PER_TABLE, virt % BYTES_PER_TABLE / PAGE_SIZE))
  }

  /** The index pairs are in one-to-one correspondence with the page numbers. */
  lemma {:induction false} IndexesOfPage(virt: u32, d: nat, t: nat)
    requires d < ENTRIES_PER_TABLE && t < ENTRIES_PER_TABLE
    ensures GetIndexes(virt) == Some((d, t)) <==> virt == PAGE_SIZE * (ENTRIES_PER_TABLE * d + t)
  {
  }

  class Chunk {
    const directory: array<u32>
    /** Where the directory and this structure lie in memory. */
    const directoryAddress: u32
    const address: u32
    /** The page table found at a physical address. */
    const memory: map<u32, array<u32>>
    ghost const tables: seq<array<u32>>
    ghost const addresses: seq<u32>
    ghost const Repr: set<object>

    ghost predicate Shape() {
      && directory in Repr && directory.Length == ENTRIES_PER_TABLE
      && |tables| == |addresses| == ENTRIES_PER_TABLE
      && (forall i :: 0 <= i < |tables| ==> addresses[i] in memory && memory[addresses[i]] == tables[i])
      && (forall a :: a in memory ==> a in addresses)
      && directoryAddress !in addresses
      && (forall i :: 0 <= i < |tables| ==>
            tables[i] in Repr && tables[i] != directory && tables[i].Length == ENTRIES_PER_TABLE)
      && (forall i, j :: 0 <= i < j < |tables| ==> tables[i] != tables[j])
    }

    /** Masking a directory entry leads to its table. */
    ghost predicate Valid()
      reads Repr
    {
      Shape() && forall i :: 0 <= i < ENTRIES_PER_TABLE ==> Frame(directory[i]) == addresses[i]
    }

    /** The 1026 pages of the heap that the chunk is made of. */
    ghost function Pages(): seq<u32> {
      [directoryAddress] + addresses + [address]
    }

    ghost function Entry(p: nat): u32
      requires Shape() && p < PAGE_COUNT
      reads Repr
    {
      tables[p / ENTRIES_PER_TABLE][p % ENTRIES_PER_TABLE]
    }

    /** The address space this directory describes. */
    ghost function Flat(): FlatMap
      requires Shape()
      reads Repr
    {
      seq(PAGE_COUNT, p requires 0 <= p < PAGE_COUNT && Shape() reads Repr => Entry(p))
    }

    /** The directory and tables that paging_new_chunk has filled in. */
    constructor (directory: array<u32>, directoryAddress: u32, address: u32, memory: map<u32, array<u32>>,
                 ghost tables: seq<array<u32>>, ghost addresses: seq<u32>, ghost flags: u32)
      requires |tables| == ENTRIES_PER_TABLE && Built(directory, memory, tables, addresses, flags)
      requires directoryAddress !in addresses
      ensures this.directory == directory && Repr == {directory} + set t | t in tables
      ensures this.directoryAddress == directoryAddress && this.address == address
      ensures this.addresses == addresses
      ensures Valid() && Flat() == Identity(flags)
    {
      this.directory, this.memory, this.tables, this.addresses := directory, memory, tables, addresses;
      this.directoryAddress, this.address := directoryAddress, address;
      Repr := {directory} + set t | t in tables;
      new;
      forall p | 0 <= p < PAGE_COUNT
        ensures Entry(p) == MakeEntry(p, flags)
      {
        assert IsIdentityTable(tables[p / ENTRIES_PER_TABLE], p / ENTRIES_PER_TABLE, flags);
        assert p == ENTRIES_PER_TABLE * (p / ENTRIES_PER_TABLE) + p % ENTRIES_PER_TABLE;
      }
    }

    /** paging_set is an update of the flat map at one page. */
    method Set(virt: u32, val: u32) returns (res: int)
      requires Valid()
      modifies Repr
      ensures Valid()
      ensures res == if virt % PAGE_SIZE == 0 then 0 else -EINVARG
      ensures Flat() == if res == 0 then old(Flat())[virt / PAGE_SIZE := val] else old(Flat())
      ensures directory[..] == old(directory[..])
    {
      match GetIndexes(virt)
      case None => return -EINVARG;
      case Some(index) =>
        var table := memory[Frame(directory[index.0])];
        ghost var p := virt / PAGE_SIZE;
        assert index.0 == p / ENTRIES_PER_TABLE && index.1 == p % ENTRIES_PER_TABLE;
        table[index.1] := val;
        assert forall i :: 0 <= i < ENTRIES_PER_TABLE ==> directory[i] == old(directory[i]);
        forall q | 0 <= q < PAGE_COUNT
          ensures Entry(q) == if q == p then val else old(Entry(q))
        {
          assert q == ENTRIES_PER_TABLE * (q / ENTRIES_PER_TABLE) + q % ENTRIES_PER_TABLE;
        }
        return 0;
    }

    /** paging_get is a lookup in the flat map; of a misaligned address it returns the entry
        of page 0, because the failure of paging_get_indexes is ignored. */
    method Get(virt: u32) returns (entry: u32)
      requires Valid()
      ensures entry == Flat()[if virt % PAGE_SIZE == 0 then virt / PAGE_SIZE else 0]
    {
      var index := match GetIndexes(virt) case None => (0, 0) case Some(i) => i;
      var table := memory[Frame(directory[index.0])];
      entry := table[index.1];
      assert entry == Entry(if virt % PAGE_SIZE == 0 then virt / PAGE_SIZE else 0);
    }

    /** paging_map */
    method Map(virt: u32, phys: u32, flags: u32) returns (res: int)
      requires Valid()
      modifies Repr
      ensures Valid()
      ensures res == if virt % PAGE_SIZE == 0 && phys % PAGE_SIZE == 0 then 0 else -EINVARG
      ensures Flat() == if res == 0
                        then old(Flat())[virt / PAGE_SIZE := MakeEntry(phys / PAGE_SIZE, flags)]
                        else old(Flat())
    {
      if virt % PAGE_SIZE != 0 || phys % PAGE_SIZE != 0 {
        return -EINVARG;
      }
      AlignedWord(phys, phys);
      res := Set(virt, OrWord(phys, flags));
    }

    /** paging_map_range: count pages in a row, with virtual addresses wrapping at 4 GB; a
        misaligned start fails before anything is written. */
    method MapRange(virt: u32, phys: u32, count: nat, flags: u32) returns (res: int)
      requires Valid() && phys + PAGE_SIZE * count <= TWO_TO_THE_32
      modifies Repr
      ensures Valid()
      ensures res == if count == 0 || (virt % PAGE_SIZE == 0 && phys % PAGE_SIZE == 0) then 0 else -EINVARG
      ensures phys / PAGE_SIZE + count <= PAGE_COUNT
      ensures res == 0 ==>
                Flat() == MapPages(old(Flat()), virt / PAGE_SIZE, phys / PAGE_SIZE, count, flags)
      ensures res != 0 ==> Flat() == old(Flat())
    {
      res := 0;
      var v, ph, i := virt, phys, 0;
      ghost var page, frame := virt / PAGE_SIZE, phys / PAGE_SIZE;
      ghost var m := Flat();
      FramesFit(phys, count);
      MapNoPages(m, page, frame, flags);
      while i < count
        invariant i <= count && Valid() && res == 0
        invariant i == 0 ==> v == virt && ph == phys
        invariant i > 0 ==> virt % PAGE_SIZE == phys % PAGE_SIZE == v % PAGE_SIZE == ph % PAGE_SIZE == 0
        invariant v == Wrap32(virt + PAGE_SIZE * i) && ph == Wrap32(phys + PAGE_SIZE * i)
        invariant Flat() == MapPages(m, page, frame, i, flags)
      {
        res := Map(v, ph, flags);
        if res < 0 {
          return;
        }
        MapRangeTurn(m, virt, phys, i, flags);
        v, ph := Wrap32(v + PAGE_SIZE), Wrap32(ph + PAGE_SIZE);
        i := i + 1;
      }
    }

    /** paging_map_to maps exactly the pages of its range, or, on a misaligned argument or a
        reversed range, changes nothing. */
    method MapTo(virt: u32, phys: u32, physEnd: u32, flags: u32) returns (res: int)
      requires Valid()
      modifies Repr
      ensures Valid()
      ensures res == if MappingAccepted(virt, phys, physEnd) then 0 else -EINVARG
      ensures res == 0 <==> virt % 4096 == phys % 4096 == physEnd % 4096 == 0 && phys <= physEnd
      ensures Flat() == AfterMapTo(old(Flat()), virt, phys, physEnd, flags)
    {
      if virt % PAGE_SIZE != 0 || physEnd % PAGE_SIZE != 0 || phys % PAGE_SIZE != 0 || physEnd < phys {
        return -EINVARG;
      }
      var totalPages := (physEnd - phys) / PAGE_SIZE;
      res := MapRange(virt, phys, totalPages, flags);
    }

    /** paging_get_physical_address, whose rounding to the page returns its argument: the
        answer is the translation exactly when the address is page aligned. */
    method GetPhysicalAddress(virt: u32) returns (phys: u32)
      requires Valid()
      ensures phys == Translate(Flat(), virt) <==> virt % PAGE_SIZE == 0
      ensures virt % PAGE_SIZE != 0 ==> phys == Frame(Flat()[0])
    {
      var page := virt;
      var difference := virt - page;
      var entry := Get(page);
      phys := Wrap32(Frame(entry) + difference);
      FrameIsTranslation(Flat(), virt, if virt % PAGE_SIZE == 0 then virt / PAGE_SIZE else 0);
    }

    /** paging_new_chunk: 1026 blocks from the heap, and every page mapped to itself. */
    static method NewChunk(heap: BlockHeap, flags: nat) returns (chunk: Chunk)
      requires flags < 256
      requires heap.Valid() && Taken(heap.entries[..]) + 1026 <= heap.entries.Length
      modifies heap.entries, heap`cells
      ensures fresh(chunk) && fresh(chunk.Repr)
      ensures chunk.Valid() && chunk.Flat() == Identity(flags)
      ensures heap.Valid() && Taken(heap.entries[..]) == old(Taken(heap.entries[..])) + 1026
      ensures |chunk.Pages()| == 1026 && NewPages(old(heap.cells), heap.cells, heap.saddr, chunk.Pages())
      ensures LivePages(heap.cells, heap.saddr, chunk.Pages())
      ensures forall i :: 0 <= i < ENTRIES_PER_TABLE ==>
                chunk.directory[i] == TableEntry(chunk.addresses[i], flags)
    {
      var directory, directoryAddress, memory;
      ghost var tables, addresses;
      directory, directoryAddress, memory, tables, addresses := BuildDirectory(heap, flags);
      ghost var c := heap.cells;
      var address := NewPage(heap);
      AnotherNewPage(old(heap.cells), c, heap.cells, heap.saddr, [directoryAddress] + addresses, address);
      FirstNotInRest(directoryAddress, addresses);
      chunk := new Chunk(directory, directoryAddress, address, memory, tables, addresses, flags);
    }

    /** paging_free_chunk frees every page of the chunk, and no block of the heap is given back. */
    method FreeChunk(heap: BlockHeap)
      requires Valid() && heap.Valid() && heap !in Repr && heap.entries !in Repr
      requires LivePages(heap.cells, heap.saddr, Pages())
      modifies heap.entries, heap`cells
      ensures heap.Valid() && heap.entries[..] == old(heap.entries[..])
      ensures ResiduesUpTo(heap.cells, |heap.cells|) == old(ResiduesUpTo(heap.cells, |heap.cells|)) + 1026
    {
      ghost var pages := addresses + [directoryAddress, address];
      TablesFirst(heap.cells, heap.saddr, addresses, directoryAddress, address);
      for i := 0 to ENTRIES_PER_TABLE
        invariant heap.Valid() && heap.entries[..] == old(heap.entries[..])
        invariant LivePages(heap.cells, heap.saddr, pages[i..])
        invariant ResiduesUpTo(heap.cells, |heap.cells|) == old(ResiduesUpTo(heap.cells, |heap.cells|)) + i
      {
        var entry := directory[i];
        var table := Frame(entry);
        assert table == pages[i] && pages[i + 1..] == pages[i..][1..];
        FreePage(heap, table, pages[i..]);
      }
      assert pages[ENTRIES_PER_TABLE..] == [directoryAddress, address];
      FreePage(heap, directoryAddress, [directoryAddress, address]);
      FreePage(heap, address, [address]);
    }
  }

  /** A directory entry: the address of a table, with flags that always allow writing. */
  function TableEntry(address: u32, flags: u32): u32 {
    OrWord(OrWord(address, flags), IS_WRITABLE)
  }

  /** A page for the directory and one for each table. */
  method BuildDirectory(heap: BlockHeap, flags: nat)
    returns (directory: array<u32>, directoryAddress: u32, memory: map<u32, array<u32>>,
             ghost tables: seq<array<u32>>, ghost addresses: seq<u32>)
    requires flags < 256
    requires heap.Valid() && Taken(heap.entries[..]) + 1025 <= heap.entries.Length
    modifies heap.entries, heap`cells
    ensures heap.Valid() && Taken(heap.entries[..]) == old(Taken(heap.entries[..])) + 1025
    ensures NewPages(old(heap.cells), heap.cells, heap.saddr, [directoryAddress] + addresses)
    ensures |tables| == ENTRIES_PER_TABLE && Built(directory, memory, tables, addresses, flags)
    ensures fresh(directory) && forall k :: 0 <= k < |tables| ==> fresh(tables[k])
  {
    ghost var c0 := heap.cells;
    directoryAddress := NewPage(heap);
    directory := new u32[ENTRIES_PER_TABLE](_ => 0);
    memory, tables, addresses := FillDirectory(heap, directory, directoryAddress, flags, c0);
  }

  /** The outer loop of paging_new_chunk; c0 is the ledger of the heap before the call. */
  method FillDirectory(heap: BlockHeap, directory: array<u32>, ghost directoryAddress: u32, flags: nat,
                       ghost c0: seq<Cell>)
    returns (memory: map<u32, array<u32>>, ghost tables: seq<array<u32>>, ghost addresses: seq<u32>)
    requires flags < 256 && directory as object != heap.entries && directory.Length == ENTRIES_PER_TABLE
    requires heap.Valid() && Taken(heap.entries[..]) + ENTRIES_PER_TABLE <= heap.entries.Length
    requires NewPages(c0, heap.cells, heap.saddr, [directoryAddress])
    modifies heap.entries, heap`cells, directory
    ensures heap.Valid() && Taken(heap.entries[..]) == old(Taken(heap.entries[..])) + ENTRIES_PER_TABLE
    ensures NewPages(c0, heap.cells, heap.saddr, [directoryAddress] + addresses)
    ensures |tables| == ENTRIES_PER_TABLE && Built(directory, memory, tables, addresses, flags)
    ensures forall k :: 0 <= k < |tables| ==> fresh(tables[k])
  {
    ghost var taken := Taken(heap.entries[..]);
    memory, tables, addresses := map[], [], [];
    ghost var pages := [directoryAddress];
    for i := 0 to ENTRIES_PER_TABLE
      invariant heap.Valid() && NewPages(c0, heap.cells, heap.saddr, pages)
      invariant pages == [directoryAddress] + addresses
      invariant Taken(heap.entries[..]) == taken + i
      invariant |tables| == |addresses| == i && Built(directory, memory, tables, addresses, flags)
      invariant forall k :: 0 <= k < i ==> fresh(tables[k])
    {
      ghost var address;
      memory, tables, address := AllocateTable(heap, directory, memory, tables, addresses, i, flags, c0, pages);
      addresses, pages := addresses + [address], pages + [address];
    }
  }

  /** The body of the outer loop: c0 is the ledger of the heap before, pages what was allocated since. */
  method AllocateTable(heap: BlockHeap, directory: array<u32>, memory: map<u32, array<u32>>,
                       ghost tables: seq<array<u32>>, ghost addresses: seq<u32>, i: nat, flags: nat,
                       ghost c0: seq<Cell>, ghost pages: seq<u32>)
    returns (memory': map<u32, array<u32>>, ghost tables': seq<array<u32>>, ghost address: u32)
    requires i == |tables| < ENTRIES_PER_TABLE && flags < 256
    requires heap.Valid() && Taken(heap.entries[..]) < heap.entries.Length && directory as object != heap.entries
    requires NewPages(c0, heap.cells, heap.saddr, pages) && forall a :: a in addresses ==> a in pages
    requires Built(directory, memory, tables, addresses, flags)
    requires forall k :: 0 <= k < |tables| ==> tables[k] as object != heap.entries
    modifies heap.entries, heap`cells, directory
    ensures heap.Valid() && Taken(heap.entries[..]) == old(Taken(heap.entries[..])) + 1
    ensures NewPages(c0, heap.cells, heap.saddr, pages + [address])
    ensures |tables'| == i + 1 && fresh(tables'[i]) && forall k :: 0 <= k < i ==> tables'[k] == tables[k]
    ensures Built(directory, memory', tables', addresses + [address], flags)
  {
    ghost var c := heap.cells;
    var page := NewPage(heap);
    AnotherNewPage(c0, c, heap.cells, heap.saddr, pages, page);
    assert page !in pages;
    memory', tables' := AddTable(directory, memory, tables, addresses, page, i, flags);
    address := page;
  }

  /** The directory filled with the tables so far: identity tables, reached by masking. */
  ghost predicate Built(directory: array<u32>, memory: map<u32, array<u32>>,
                        tables: seq<array<u32>>, addresses: seq<u32>, flags: u32)
    reads directory, tables
  {
    && |tables| == |addresses| <= ENTRIES_PER_TABLE == directory.Length
    && (forall k :: 0 <= k < |tables| ==>
          && addresses[k] in memory && memory[addresses[k]] == tables[k]
          && Frame(directory[k]) == addresses[k] && directory[k] == TableEntry(addresses[k], flags))
    && (forall a :: a in memory ==> a in addresses)
    && (forall k :: 0 <= k < |tables| ==> tables[k] != directory && IsIdentityTable(tables[k], k, flags))
    && (forall k, l :: 0 <= k < l < |tables| ==> tables[k] != tables[l])
  }

  /** The body of the outer loop of paging_new_chunk, for a table at a new address. */
  method AddTable(directory: array<u32>, memory: map<u32, array<u32>>, ghost tables: seq<array<u32>>,
                  ghost addresses: seq<u32>, address: u32, i: nat, flags: nat)
    returns (memory': map<u32, array<u32>>, ghost tables': seq<array<u32>>)
    requires i == |tables| < ENTRIES_PER_TABLE && flags < 256
    requires Built(directory, memory, tables, addresses, flags)
    requires address !in addresses && address % PAGE_SIZE == 0
    modifies directory
    ensures |tables'| == i + 1 && fresh(tables'[i]) && forall k :: 0 <= k < i ==> tables'[k] == tables[k]
    ensures Built(directory, memory', tables', addresses + [address], flags)
  {
    var offset := BYTES_PER_TABLE * i;
    var entry := IdentityTable(offset, i, flags);
    directory[i] := DirectoryEntry(address, flags);
    memory' := memory[address := entry];
    tables' := tables + [entry];
    ghost var addresses' := addresses + [address];
    forall k | 0 <= k <= i
      ensures addresses'[k] in memory' && memory'[addresses'[k]] == tables'[k]
      ensures Frame(directory[k]) == addresses'[k] && directory[k] == TableEntry(addresses'[k], flags)
      ensures tables'[k] != directory && IsIdentityTable(tables'[k], k, flags)
      ensures k < i ==> tables'[k] == tables[k] && tables'[k] != entry
    {
      assert k < i ==> addresses'[k] == addresses[k] && IsIdentityTable(tables[k], k, flags);
    }
  }

  /** The entry for a table, from which its address can be masked out again. */
  method DirectoryEntry(address: u32, flags: nat) returns (entry: u32)
    requires address % PAGE_SIZE == 0 && flags < 256
    ensures Frame(entry) == address && entry == TableEntry(address, flags)
  {
    entry := OrWord(OrWord(address, flags), IS_WRITABLE);
    TwoFlagsRoundTrip(address / PAGE_SIZE, flags, IS_WRITABLE);
  }

  /** Table i of a fresh directory maps its 1024 pages to themselves. */
  ghost predicate IsIdentityTable(table: array<u32>, i: nat, flags: u32)
    reads table
  {
    && i < ENTRIES_PER_TABLE && table.Length == ENTRIES_PER_TABLE
    && forall j :: 0 <= j < ENTRIES_PER_TABLE ==> table[j] == MakeEntry(ENTRIES_PER_TABLE * i + j, flags)
  }

  /** The inner loop of paging_new_chunk. */
  method IdentityTable(offset: u32, ghost i: nat, flags: u32) returns (entry: array<u32>)
    requires i < ENTRIES_PER_TABLE && offset == BYTES_PER_TABLE * i
    ensures fresh(entry) && IsIdentityTable(entry, i, flags)
  {
    entry := new u32[ENTRIES_PER_TABLE];
    for j := 0 to ENTRIES_PER_TABLE
      invariant forall l :: 0 <= l < j ==> entry[l] == MakeEntry(ENTRIES_PER_TABLE * i + l, flags)
    {
      entry[j] := OrWord(offset + j * PAGE_SIZE, flags);
    }
  }

  /** The addresses are distinct pages, unused in c and live one-block runs in c', and nothing
      that was in use in c has changed. */
  ghost predicate NewPages(c: seq<Cell>, c': seq<Cell>, base: u32, addresses: seq<u32>) {
    && KeepsRuns(c, c')
    && (forall k :: 0 <= k < |addresses| ==> IsNewPage(c, c', base, addresses[k]))
    && (forall k, l :: 0 <= k < l < |addresses| ==> addresses[k] != addresses[l])
  }

  /** Allocations only add to the pages in hand. */
  lemma {:induction false} AnotherNewPage(c0: seq<Cell>, c: seq<Cell>, c': seq<Cell>, base: u32,
                       addresses: seq<u32>, address: u32)
    requires NewPages(c0, c, base, addresses)
    requires KeepsRuns(c, c') && IsNewPage(c, c', base, address)
    ensures NewPages(c0, c', base, addresses + [address])
    ensures NewPages(c0, c', base, addresses)
  {
  }

  /** The first of distinct pages is not among the others. */
  lemma {:induction false} FirstNotInRest(first: u32, rest: seq<u32>)
    requires forall k, l :: 0 <= k < l < |[first] + rest| ==> ([first] + rest)[k] != ([first] + rest)[l]
    ensures first !in rest
  {
    forall k | 0 <= k < |rest|
      ensures rest[k] != first
    {
      assert ([first] + rest)[k + 1] == rest[k] && ([first] + rest)[0] == first;
    }
  }

  /** The addresses are distinct pages of the heap, each a live run of one block. */
  ghost predicate LivePages(c: seq<Cell>, base: u32, pages: seq<u32>) {
    && (forall k :: 0 <= k < |pages| ==> IsLivePage(c, base, pages[k]))
    && (forall k, l :: 0 <= k < l < |pages| ==> pages[k] != pages[l])
  }

  ghost predicate IsLivePage(c: seq<Cell>, base: u32, page: u32) {
    base <= page && page % BLOCK_SIZE == 0 && Live(c, (page - base) / BLOCK_SIZE, 1)
  }

  lemma {:induction false} TablesFirst(c: seq<Cell>, base: u32, tables: seq<u32>, directory: u32, chunk: u32)
    requires LivePages(c, base, [directory] + tables + [chunk])
    ensures LivePages(c, base, tables + [directory, chunk])
  {
    var p, q := [directory] + tables + [chunk], tables + [directory, chunk];
    forall k | 0 <= k < |q|
      ensures q[k] == p[if k < |tables| then k + 1 else if k == |tables| then 0 else k]
    {
    }
  }

  /** kfree of one page of several: it stays taken, and the others stay live. */
  method FreePage(heap: BlockHeap, page: u32, ghost pages: seq<u32>)
    requires heap.Valid() && |pages| > 0 && page == pages[0] && LivePages(heap.cells, heap.saddr, pages)
    modifies heap.entries, heap`cells
    ensures heap.Valid() && heap.entries[..] == old(heap.entries[..])
    ensures LivePages(heap.cells, heap.saddr, pages[1..])
    ensures ResiduesUpTo(heap.cells, |heap.cells|) == old(ResiduesUpTo(heap.cells, |heap.cells|)) + 1
  {
    ghost var h, b := heap.State(), (page - heap.saddr) / BLOCK_SIZE;
    OneBlockStaysTaken(h, b);
    FreeSound(h, b);
    heap.Free(page);
    PagesAfterFree(h, pages, b);
  }

  lemma {:induction false} PagesAfterFree(h: HeapState, pages: seq<u32>, b: nat)
    requires Sound(h) && |pages| > 0 && LivePages(h.cells, h.base, pages)
    requires b == (pages[0] - h.base) / BLOCK_SIZE
    ensures Terminated(h.table) && LivePages(AfterFree(h, b).cells, h.base, pages[1..])
  {
    FreeSound(h, b);
    var c', rest := AfterFree(h, b).cells, pages[1..];
    forall k | 0 <= k < |rest|
      ensures IsLivePage(c', h.base, rest[k])
    {
      assert rest[k] == pages[k + 1] && IsLivePage(h.cells, h.base, pages[0]);
    }
  }

  /** Everything in use in c is still in use, in the same way, in c'. */
  ghost predicate KeepsRuns(c: seq<Cell>, c': seq<Cell>) {
    |c| == |c'| && forall k :: 0 <= k < |c| && c[k] != Unused ==> c'[k] == c[k]
  }

  /** The address is that of a one-block run which was unused in c and is live in c'. */
  ghost predicate IsNewPage(c: seq<Cell>, c': seq<Cell>, base: u32, address: u32) {
    && base <= address && address % BLOCK_SIZE == 0
    && var b := (address - base) / BLOCK_SIZE;
       b < |c| && c[b] == Unused && Live(c', b, 1)
  }

  /** kzalloc of one page, with room for it in the heap. */
  method NewPage(heap: BlockHeap) returns (address: u32)
    requires heap.Valid() && Taken(heap.entries[..]) < heap.entries.Length
    modifies heap.entries, heap`cells
    ensures heap.Valid() && KeepsRuns(old(heap.cells), heap.cells)
    ensures Taken(heap.entries[..]) == old(Taken(heap.entries[..])) + 1
    ensures IsNewPage(old(heap.cells), heap.cells, heap.saddr, address)
  {
    OneBlock(heap.entries[..]);
    MallocSound(heap.State(), PAGE_SIZE);
    assert BlocksFor(PAGE_SIZE) == 1;
    address := heap.Malloc(PAGE_SIZE);
  }
}
