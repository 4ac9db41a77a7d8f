/** copy_string_from_task: a string is copied out of a task's address space, through a scratch
    page of the kernel's, which the code means to map for the task for the time being. */
module UserCopy {
  import opened Machine
  import opened Bits
  import opened BlockTable
  import opened HeapRuns
  import opened Heap
  import opened PageMap
  import opened Paging
  import opened ProcessMemory
  import opened ProcessRuns
  import opened TaskMemory

  // ---------------------------------------------------------------- loaded directories

  /** The kernel's view of memory. */
  const KERNEL_VIEW := View(virt => Wrap32(virt), virt => true)

  lemma {:induction false} KernelShows(task: Chunk, virt: u32)
    requires task.Shape()
    ensures ShownAt(task, false, KERNEL_VIEW, virt)
  {
    EntryRoundTrip(virt / PAGE_SIZE, USER_RW);
    EntryFlags(virt / PAGE_SIZE, USER_RW);
  }

  lemma {:induction false} KernelLoaded(task: Chunk)
    requires task.Shape()
    ensures Loaded(task, false, KERNEL_VIEW)
  {
    forall virt: u32
      ensures ShownAt(task, false, KERNEL_VIEW, virt)
    {
      KernelShows(task, virt);
    }
  }

  lemma {:induction false} TaskShows(task: Chunk, virt: u32)
    requires task.Shape()
    ensures ShownAt(task, true, ViewOf(task.Flat()), virt)
  {
    var m := task.Flat();
    assert Wrap32(virt) == virt && EntryOf(task, true, virt) == m[virt / PAGE_SIZE];
    assert ViewOf(m).phys(virt) == Physical(m, virt) && ViewOf(m).mapped(virt) == Mapped(m, virt);
  }

  lemma {:induction false} TaskLoaded(task: Chunk)
    requires task.Valid()
    ensures Loaded(task, true, ViewOf(task.Flat()))
  {
    forall virt: u32
      ensures ShownAt(task, true, ViewOf(task.Flat()), virt)
    {
      TaskShows(task, virt);
    }
  }

  // ---------------------------------------------------------------- where the stray word goes

  /** A task's way to its page tables. The task structure begins with the address of the chunk
      structure, which holds the address of the directory; both words are read again later. */
  class TaskSpace {
    const tables: Chunk
    /** Where the task structure lies. */
    const address: u32
    /** The first word of the task structure, and that of the chunk structure. */
    var pageDir: u32
    var directoryEntry: u32

    ghost predicate Shape() {
      && this !in tables.Repr && tables.Shape()
      && {tables.address, address} !! TableFrames(tables) && tables.address != address
      && tables.address % PAGE_SIZE == tables.directoryAddress % PAGE_SIZE == 0
    }

    /** task_init, for a task structure and a new chunk in pages of their own. */
    constructor (tables: Chunk, address: u32)
      requires tables.Valid()
      requires {tables.address, address} !! TableFrames(tables) && tables.address != address
      requires tables.address % PAGE_SIZE == tables.directoryAddress % PAGE_SIZE == 0
      ensures this.tables == tables && this.address == address && Valid()
    {
      this.tables, this.address := tables, address;
      pageDir, directoryEntry := tables.address, tables.directoryAddress;
    }

    ghost predicate Valid()
      reads this, tables.Repr
    {
      Shape() && tables.Valid() && pageDir == tables.address && directoryEntry == tables.directoryAddress
    }
  }

  /** The same as a value: the words of the directory, the entries of all tables, the addresses of
      the directory and of the tables, and the two words that lead to the directory, with the
      addresses of the structures they are in. */
  datatype Tables = Tables(directory: seq<u32>, pages: FlatMap, at: u32, frames: seq<u32>,
                           chunk: u32, directoryEntry: u32, task: u32, pageDir: u32)

  ghost function Value(task: TaskSpace): Tables
    requires task.tables.Shape()
    reads task, task.tables.Repr
  {
    var t := task.tables;
    Tables(t.directory[..], t.Flat(), t.directoryAddress, t.addresses,
           t.address, task.directoryEntry, task.address, task.pageDir)
  }

  ghost predicate WellFormed(v: Tables) {
    && |v.directory| == |v.frames| == ENTRIES_PER_TABLE
    && (forall i :: 0 <= i < |v.directory| ==> Frame(v.directory[i]) == v.frames[i])
    && (forall i, j :: 0 <= i < j < |v.frames| ==> v.frames[i] != v.frames[j])
    && v.at !in v.frames && v.chunk !in v.frames && v.task !in v.frames
    && v.at != v.chunk && v.at != v.task && v.chunk != v.task
    && v.directoryEntry == v.at && v.pageDir == v.chunk && v.at % PAGE_SIZE == v.chunk % PAGE_SIZE == 0
  }

  lemma {:induction false} ValueWellFormed(task: TaskSpace)
    requires task.Valid()
    ensures WellFormed(Value(task))
  {
    var t := task.tables;
    forall i, j | 0 <= i < j < ENTRIES_PER_TABLE
      ensures t.addresses[i] != t.addresses[j]
    {
      assert t.tables[i] != t.tables[j];
    }
    forall a | a in t.addresses
      ensures a in TableFrames(t)
    {
      var i :| 0 <= i < |t.addresses| && t.addresses[i] == a;
    }
  }

  /** The low bits of directory entry 0: the flags it was made with, and the accessed flag, which
      the processor sets as soon as it translates an address through the entry. */
  function LowBits(v: Tables): nat
    requires |v.directory| > 0
  {
    v.directory[0] % PAGE_SIZE
  }

  /** The directory of a task is made with these low bits; once used, it has ACCESSED as well. */
  const ACCESSED := 0x20

  lemma {:induction false} TaskDirectoryEntry(address: u32)
    requires address % PAGE_SIZE == 0
    ensures TableEntry(address, USER_RO) % PAGE_SIZE == USER_RW
    ensures OrWord(TableEntry(address, USER_RO), ACCESSED) % PAGE_SIZE == USER_RW + ACCESSED
  {
    var page := address / PAGE_SIZE;
    OrAssociative(PAGE_SIZE * page, USER_RO, IS_WRITABLE);
    AddressPlusFlags(page, USER_RW);
    assert Or(USER_RO, IS_WRITABLE) == USER_RW;
    ModOfSum(TableEntry(address, USER_RO), page, USER_RW);
    OrAssociative(PAGE_SIZE * page, USER_RW, ACCESSED);
    AddressPlusFlags(page, USER_RW + ACCESSED);
    assert Or(USER_RW, ACCESSED) == USER_RW + ACCESSED;
    ModOfSum(OrWord(TableEntry(address, USER_RO), ACCESSED), page, USER_RW + ACCESSED);
  }

  /** The words that make up the stray entry of a page lie in table 0. */
  predicate Aims(v: Tables, page: nat) {
    && |v.directory| == ENTRIES_PER_TABLE && LowBits(v) % 4 == 3
    && page / ENTRIES_PER_TABLE + LowBits(v) / 4 + 1 < ENTRIES_PER_TABLE
  }

  /** copy_string_from_task gives paging_map the directory where it expects a structure that
      points to one. Entry 0, low bits and all, is then taken for the address of the directory:
      the "entry" of a page begins with the last byte of a word of table 0 and goes on with the
      first three of the next, and this is the "table" it leads to. */
  function StrayTable(v: Tables, page: nat): u32
    requires Aims(v, page)
  {
    var k := page / ENTRIES_PER_TABLE + LowBits(v) / 4;
    Frame(v.pages[k] / 0x100_0000 + v.pages[k + 1] % 0x100_0000 * 0x100)
  }

  lemma {:induction false} StrayWord(k: nat, entry: u32, entry': u32)
    requires k + 1 < ENTRIES_PER_TABLE && entry / PAGE_SIZE == k && entry' / PAGE_SIZE == k + 1
    ensures entry / 0x100_0000 + entry' % 0x100_0000 * 0x100
         == PAGE_SIZE * (0x100 * (k + 1) + entry' % PAGE_SIZE / 16) + 0x100 * (entry' % PAGE_SIZE % 16)
  {
  }

  /** While the two pages concerned are mapped to themselves, the stray table lies in the
      megabyte with the number of the second one; its place there depends on the flags. */
  lemma {:induction false} StrayTableOfIdentity(v: Tables, page: nat, k: nat)
    requires Aims(v, page) && k == page / ENTRIES_PER_TABLE + LowBits(v) / 4
    requires v.pages[k] / PAGE_SIZE == k && v.pages[k + 1] / PAGE_SIZE == k + 1
    ensures StrayTable(v, page) == 0x10_0000 * (k + 1) + PAGE_SIZE * (v.pages[k + 1] % PAGE_SIZE / 16)
    ensures 0x10_0000 * (k + 1) <= StrayTable(v, page) < 0x10_0000 * (k + 2)
  {
    var flags := v.pages[k + 1] % PAGE_SIZE;
    StrayWord(k, v.pages[k], v.pages[k + 1]);
    ModOfSum(PAGE_SIZE * (0x100 * (k + 1) + flags / 16) + 0x100 * (flags % 16),
             0x100 * (k + 1) + flags / 16, 0x100 * (flags % 16));
  }

  /** The place of a page's entry in a table. */
  function EntryAddress(table: u32, page: nat): nat {
    table + 4 * (page % ENTRIES_PER_TABLE)
  }

  /** The ordinary case: with the accessed flag set and low memory as it was mapped at first, the
      stray words of scratch pages in the 4 MB from 24 MB on go, one after the other, to the first
      page of the heap. */
  lemma {:induction false} StrayWordHitsHeap(v: Tables, t: nat)
    requires |v.directory| == ENTRIES_PER_TABLE && LowBits(v) == USER_RW + ACCESSED
    requires v.pages == Identity(USER_RO) && t < ENTRIES_PER_TABLE
    ensures Aims(v, 6144 + t) && StrayTable(v, 6144 + t) == HEAP_ADDRESS
    ensures EntryAddress(StrayTable(v, 6144 + t), 6144 + t) == HEAP_ADDRESS + 4 * t
  {
    AddressPlusFlags(15, USER_RO);
    AddressPlusFlags(16, USER_RO);
    StrayTableOfIdentity(v, 6144 + t, 15);
  }

  /** The page whose entry lies at the place of the stray word, if that is in table i. */
  function StrayPage(i: nat, page: nat): (p: nat)
    requires i < ENTRIES_PER_TABLE
    ensures p < PAGE_COUNT
  {
    ENTRIES_PER_TABLE * i + page % ENTRIES_PER_TABLE
  }

  /** The tables after a word has been written to the place of a page's entry in a table, or what
      is taken for one: that can be in the directory itself, in one of its tables, or in one of the
      two words that lead to the directory, or elsewhere. */
  ghost function WordWritten(v: Tables, table: u32, page: nat, entry: u32): Tables
    requires |v.directory| == |v.frames| == ENTRIES_PER_TABLE
  {
    if table == v.at then v.(directory := v.directory[page % ENTRIES_PER_TABLE := entry])
    else if i: nat :| i < ENTRIES_PER_TABLE && v.frames[i] == table
    then v.(pages := v.pages[StrayPage(i, page) := entry])
    else if page % ENTRIES_PER_TABLE == 0 && table == v.chunk then v.(directoryEntry := entry)
    else if page % ENTRIES_PER_TABLE == 0 && table == v.task then v.(pageDir := entry)
    else v
  }

  /** The word misses all of that, or is what is there already. */
  ghost predicate Unhit(v: Tables, table: u32, page: nat, entry: u32)
    requires |v.directory| == |v.frames| == ENTRIES_PER_TABLE
  {
    && (table == v.at ==> v.directory[page % ENTRIES_PER_TABLE] == entry)
    && (forall i :: 0 <= i < ENTRIES_PER_TABLE && v.frames[i] == table ==> v.pages[StrayPage(i, page)] == entry)
    && !HitsPointer(v, table, page)
  }

  /** The word hits one of those that lead to the directory. */
  predicate HitsPointer(v: Tables, table: u32, page: nat) {
    page % ENTRIES_PER_TABLE == 0 && table in {v.chunk, v.task}
  }

  lemma {:induction false} UnhitIff(v: Tables, table: u32, page: nat, entry: u32)
    requires WellFormed(v) && entry % PAGE_SIZE != 0
    ensures WordWritten(v, table, page, entry) == v <==> Unhit(v, table, page, entry)
  {
    var w, t := WordWritten(v, table, page, entry), page % ENTRIES_PER_TABLE;
    if table == v.at {
      assert w.directory[t] == entry;
    } else if i: nat :| i < ENTRIES_PER_TABLE && v.frames[i] == table {
      assert w.pages[StrayPage(i, page)] == entry;
    }
  }

  /** They are like this after the stray word. */
  ghost function AfterStray(v: Tables, page: nat): Tables
    requires Aims(v, page) && page < PAGE_COUNT && |v.frames| == ENTRIES_PER_TABLE
  {
    WordWritten(v, StrayTable(v, page), page, MakeEntry(page, USER_RW))
  }

  /** And after the entry of the scratch page has been put back. */
  ghost function AfterCopy(v: Tables, page: nat): Tables
    requires Aims(v, page) && page < PAGE_COUNT && |v.frames| == ENTRIES_PER_TABLE
  {
    var stray := AfterStray(v, page);
    stray.(pages := stray.pages[page := v.pages[page]])
  }

  /** The stray word misses the directory, its tables and the words that lead to it, or makes no
      difference: it hits the entry that is put back, or a word with that very value. */
  ghost predicate Kept(v: Tables, page: nat)
    requires Aims(v, page) && page < PAGE_COUNT && |v.frames| == ENTRIES_PER_TABLE
  {
    var table, entry := StrayTable(v, page), MakeEntry(page, USER_RW);
    && (table == v.at ==> v.directory[page % ENTRIES_PER_TABLE] == entry)
    && (forall i :: 0 <= i < ENTRIES_PER_TABLE && v.frames[i] == table ==>
          StrayPage(i, page) == page || v.pages[StrayPage(i, page)] == entry)
    && !HitsPointer(v, table, page)
  }

  /** The directory, its tables and the words that lead to it are left as they are exactly then. */
  lemma {:induction false} DirectoryKeptIff(v: Tables, page: nat)
    requires WellFormed(v) && Aims(v, page) && page < PAGE_COUNT
    ensures AfterCopy(v, page) == v <==> Kept(v, page)
  {
    var table, entry, t := StrayTable(v, page), MakeEntry(page, USER_RW), page % ENTRIES_PER_TABLE;
    EntryRoundTrip(page, USER_RW);
    assert v.pages[page := v.pages[page]] == v.pages;
    if table == v.at {
      assert AfterCopy(v, page).directory[t] == entry;
    } else if i: nat :| i < ENTRIES_PER_TABLE && v.frames[i] == table {
      PutBackIff(v.pages, StrayPage(i, page), page, entry);
    }
  }

  lemma {:induction false} PutBackIff(m: FlatMap, p: nat, page: nat, entry: u32)
    requires p < PAGE_COUNT && page < PAGE_COUNT
    ensures m[p := entry][page := m[page]] == m <==> p == page || m[p] == entry
  {
    var r := m[p := entry][page := m[page]];
    assert p != page ==> r[p] == entry;
    assert forall q :: 0 <= q < PAGE_COUNT && q != p ==> r[q] == m[q];
  }

  /** It need not be. Here the scratch page is in the 4 MB from 40 MB on, and table 5 of the task's directory, in
      use, happens to lie at 20 MB: another page of the task then leads to the scratch page. */
  lemma {:induction false} TableHit(task: TaskSpace, t: nat)
    requires task.Valid() && LowBits(Value(task)) == USER_RW + ACCESSED
    requires Value(task).pages[19] == MakeEntry(19, USER_RO) && Value(task).pages[20] == MakeEntry(20, USER_RO)
    requires Frame(task.tables.directory[5]) == 0x140_0000 && t < ENTRIES_PER_TABLE
    requires Value(task).pages[5120 + t] == MakeEntry(5120 + t, USER_RO)
    ensures Aims(Value(task), 10240 + t) && StrayTable(Value(task), 10240 + t) == Frame(task.tables.directory[5])
    ensures AfterCopy(Value(task), 10240 + t).pages[5120 + t]
         == MakeEntry(10240 + t, USER_RW) != Value(task).pages[5120 + t]
  {
    var v := Value(task);
    ValueWellFormed(task);
    AddressPlusFlags(19, USER_RO);
    AddressPlusFlags(20, USER_RO);
    AddressPlusFlags(5120 + t, USER_RO);
    AddressPlusFlags(10240 + t, USER_RW);
    StrayTableOfIdentity(v, 10240 + t, 19);
    assert v.directory[5] == task.tables.directory[5] && v.frames[5] == 0x140_0000;
  }

  /** Here the scratch page is in the 4 MB from 44 MB on and the directory itself at 21 MB: 4 MB of
      the task are then mapped through the scratch page, as if it were a table. */
  lemma {:induction false} DirectoryHit(task: TaskSpace, t: nat)
    requires task.Valid() && LowBits(Value(task)) == USER_RW + ACCESSED
    requires Value(task).pages[20] == MakeEntry(20, USER_RO) && Value(task).pages[21] == MakeEntry(21, USER_RO)
    requires task.tables.directoryAddress == 0x150_0000 && t < ENTRIES_PER_TABLE
    requires 4096 * (11264 + t) !in TableFrames(task.tables)
    ensures Aims(Value(task), 11264 + t) && StrayTable(Value(task), 11264 + t) == task.tables.directoryAddress
    ensures AfterCopy(Value(task), 11264 + t).directory[t] == MakeEntry(11264 + t, USER_RW) != task.tables.directory[t]
  {
    AddressPlusFlags(20, USER_RO);
    AddressPlusFlags(21, USER_RO);
    EntryRoundTrip(11264 + t, USER_RW);
    StrayTableOfIdentity(Value(task), 11264 + t, 20);
    assert Value(task).directory[t] == task.tables.directory[t];
  }

  /** And here the scratch page is at 52 MB and the chunk structure at 23 MB: the address of the
      directory is overwritten with that of the scratch page, before it is read to be loaded. */
  lemma {:induction false} PointerHit(task: TaskSpace)
    requires task.Valid() && LowBits(Value(task)) == USER_RW + ACCESSED
    requires Value(task).pages[22] == MakeEntry(22, USER_RO) && Value(task).pages[23] == MakeEntry(23, USER_RO)
    requires task.tables.address == 0x170_0000
    ensures Aims(Value(task), 13312) && HitsPointer(Value(task), StrayTable(Value(task), 13312), 13312)
    ensures AfterStray(Value(task), 13312).directoryEntry == MakeEntry(13312, USER_RW) != task.tables.directoryAddress
  {
    ValueWellFormed(task);
    AddressPlusFlags(22, USER_RO);
    AddressPlusFlags(23, USER_RO);
    EntryRoundTrip(13312, USER_RW);
    StrayTableOfIdentity(Value(task), 13312, 22);
    assert forall i :: 0 <= i < ENTRIES_PER_TABLE ==> Value(task).frames[i] != 0x170_0000;
  }

  /** The word may also spare the task and hit another: the scratch page is at 56 MB, and table 5
      of the other task at 24 MB. */
  lemma {:induction false} OtherTaskHit(v: Tables, other: Tables)
    requires WellFormed(v) && WellFormed(other) && LowBits(v) == USER_RW + ACCESSED
    requires v.pages[23] == MakeEntry(23, USER_RO) && v.pages[24] == MakeEntry(24, USER_RO)
    requires 0x180_0000 !in v.frames && 0x180_0000 !in {v.at, v.chunk, v.task}
    requires other.frames[5] == 0x180_0000
    ensures Aims(v, 14336) && Kept(v, 14336)
    ensures WordWritten(other, StrayTable(v, 14336), 14336, MakeEntry(14336, USER_RW)).pages[5120]
         == MakeEntry(14336, USER_RW)
  {
    AddressPlusFlags(23, USER_RO);
    AddressPlusFlags(24, USER_RO);
    StrayTableOfIdentity(v, 14336, 23);
  }

  /** A scratch page is safe while its directory index and a quarter of the low bits add up to
      less than 15, and the two pages concerned are mapped to themselves: the stray word then goes
      below the heap, where nothing of this lies. */
  lemma {:induction false} LowScratchIsSafe(v: Tables, tmp: u32, k: nat)
    requires WellFormed(v) && LowBits(v) % 4 == 3 && HEAP_ADDRESS <= tmp
    requires k == tmp / PAGE_SIZE / ENTRIES_PER_TABLE + LowBits(v) / 4 && k < 15
    requires v.pages[k] / PAGE_SIZE == k && v.pages[k + 1] / PAGE_SIZE == k + 1
    requires HEAP_ADDRESS <= v.at && HEAP_ADDRESS <= v.chunk && HEAP_ADDRESS <= v.task
    requires forall i :: 0 <= i < ENTRIES_PER_TABLE ==> HEAP_ADDRESS <= v.frames[i]
    ensures Aims(v, tmp / PAGE_SIZE) && Kept(v, tmp / PAGE_SIZE)
    ensures 0x10_0000 * (k + 1) <= StrayTable(v, tmp / PAGE_SIZE) < HEAP_ADDRESS
  {
    StrayTableOfIdentity(v, tmp / PAGE_SIZE, k);
  }

  // ---------------------------------------------------------------- the stray word is written

  /** What the kernel runs on: its own directory and page tables, the chunk structure that leads
      to them, and its code, data and stack. */
  datatype Kernel = Kernel(tables: set<u32>, chunk: u32, image: set<u32>)

  /** The word hits what the kernel runs on; then nothing more can be said. */
  predicate HitsKernel(kernel: Kernel, table: u32, page: nat) {
    table in kernel.tables + kernel.image || (page % ENTRIES_PER_TABLE == 0 && table == kernel.chunk)
  }

  /** The pages whose loss would change an address space in use. */
  function Protected(task: TaskSpace, kernel: Kernel): set<u32> {
    TableFrames(task.tables) + {task.tables.address, task.address} + kernel.tables + {kernel.chunk}
  }

  /** The reads of paging_set, from the stray directory. */
  method StrayTableOf(task: TaskSpace, virt: u32) returns (table: u32)
    requires task.Valid() && Aims(Value(task), virt / PAGE_SIZE)
    ensures table == StrayTable(Value(task), virt / PAGE_SIZE)
  {
    PageIndexes(virt);
    var t := task.tables;
    var pointer := t.directory[0];
    var k := virt / BYTES_PER_TABLE + pointer % PAGE_SIZE / 4;
    var table0 := t.memory[Frame(pointer)];
    assert table0[k] == t.Entry(k) == t.Flat()[k];
    assert table0[k + 1] == t.Entry(k + 1) == t.Flat()[k + 1];
    table := Frame(table0[k] / 0x100_0000 + table0[k + 1] % 0x100_0000 * 0x100);
  }

  /** paging_map as copy_string_from_task calls it, to map a page to itself: the entry of the
      page stays what it is, and a word goes astray. */
  method MapScratch(ram: Ram, task: TaskSpace, kernel: Kernel, virt: u32) returns (end: CopyEnd, ram': Ram)
    requires task.Valid() && Aims(Value(task), virt / PAGE_SIZE) && virt % PAGE_SIZE == 0
    modifies task, task.tables.Repr
    ensures end == if HitsKernel(kernel, StrayTable(old(Value(task)), virt / PAGE_SIZE), virt / PAGE_SIZE)
                   then Lost else Code(0)
    ensures Value(task) == if end == Lost then old(Value(task)) else AfterStray(old(Value(task)), virt / PAGE_SIZE)
    ensures end.Code? && StrayTable(old(Value(task)), virt / PAGE_SIZE) !in Protected(task, kernel) ==>
              ram' == StrayRam(ram, old(Value(task)), virt / PAGE_SIZE) && task.Valid()
  {
    var table := StrayTableOf(task, virt);
    if HitsKernel(kernel, table, virt / PAGE_SIZE) {
      return Lost, ram;
    }
    var entry := OrWord(virt, USER_RW);
    assert entry == MakeEntry(virt / PAGE_SIZE, USER_RW);
    ram' := WriteStray(ram, task, table, virt / PAGE_SIZE, entry);
    end := Code(0);
  }

  /** The last step of paging_set, in a table that need not be one. */
  method WriteStray(ram: Ram, task: TaskSpace, table: u32, page: nat, entry: u32) returns (ram': Ram)
    requires task.Valid()
    modifies task, task.tables.Repr
    ensures Value(task) == WordWritten(old(Value(task)), table, page, entry)
    ensures table !in TableFrames(task.tables) + {task.tables.address, task.address} ==>
              ram' == StoreWord(ram, EntryAddress(table, page), entry) && task.Valid()
  {
    ram' := ram;
    ValueWellFormed(task);
    if table == task.tables.directoryAddress {
      WriteDirectory(task, page % ENTRIES_PER_TABLE, entry);
    } else if i: nat :| i < ENTRIES_PER_TABLE && Frame(task.tables.directory[i]) == table {
      WriteTable(task, StrayPage(i, page), entry);
    } else if page % ENTRIES_PER_TABLE == 0 && table == task.tables.address {
      task.directoryEntry := entry;
    } else if page % ENTRIES_PER_TABLE == 0 && table == task.address {
      task.pageDir := entry;
    } else {
      ram' := StoreWord(ram, EntryAddress(table, page), entry);
    }
  }

  /** A word of the directory is written; the tables stay as they are. */
  method WriteDirectory(task: TaskSpace, t: nat, entry: u32)
    requires task.Shape() && t < ENTRIES_PER_TABLE
    modifies task.tables.directory
    ensures Value(task) == old(Value(task)).(directory := old(task.tables.directory[..])[t := entry])
  {
    ghost var m := task.tables.Flat();
    task.tables.directory[t] := entry;
    assert forall p :: 0 <= p < PAGE_COUNT ==> task.tables.Entry(p) == old(task.tables.Entry(p));
    assert task.tables.Flat() == m;
  }

  /** A word of a table is written, found by the page whose entry it is. */
  method WriteTable(task: TaskSpace, page: nat, entry: u32)
    requires task.Valid() && page < PAGE_COUNT
    modifies task.tables.Repr
    ensures task.Valid() && Value(task) == old(Value(task)).(pages := old(task.tables.Flat())[page := entry])
  {
    SumModulo(page, 0, 0);
    var res := task.tables.Set(PAGE_SIZE * page, entry);
  }

  /** Other memory after the stray word has been written to it. */
  function StrayRam(ram: Ram, v: Tables, page: nat): Ram
    requires Aims(v, page) && page < PAGE_COUNT
  {
    StoreWord(ram, EntryAddress(StrayTable(v, page), page), MakeEntry(page, USER_RW))
  }

  /** paging_set at the end: the entry of the scratch page is put back. If the directory itself was
      hit, the table found for it may be the scratch page. */
  method PutBack(ram: Ram, task: TaskSpace, virt: u32, val: u32, ghost v: Tables) returns (ram': Ram)
    requires task.Shape() && WellFormed(v) && Aims(v, virt / PAGE_SIZE)
    requires Value(task) == AfterStray(v, virt / PAGE_SIZE) && val == v.pages[virt / PAGE_SIZE]
    requires virt % PAGE_SIZE == 0 && virt !in TableFrames(task.tables)
    modifies task.tables.Repr
    ensures Value(task) == AfterCopy(v, virt / PAGE_SIZE)
    ensures v == AfterStray(v, virt / PAGE_SIZE) ==> ram' == ram
  {
    ram' := ram;
    PageIndexes(virt);
    var d, t := virt / BYTES_PER_TABLE, virt % BYTES_PER_TABLE / PAGE_SIZE;
    var frame := Frame(task.tables.directory[d]);
    EntryRoundTrip(virt / PAGE_SIZE, USER_RW);
    assert task.tables.directory[d] == Value(task).directory[d] && task.tables.addresses == v.frames;
    assert frame == v.frames[d] || frame == virt;
    if frame in task.tables.memory {
      StoreEntry(task, frame, d, t, virt / PAGE_SIZE, val);
    } else {
      ram' := StoreWord(ram, frame + 4 * t, val);
      assert v.pages[virt / PAGE_SIZE := val] == v.pages;
    }
  }

  /** An entry is written in a table, whatever the directory says. */
  method StoreEntry(task: TaskSpace, frame: u32, ghost d: nat, t: nat, ghost page: nat, val: u32)
    requires task.Shape() && page < PAGE_COUNT
    requires d == page / ENTRIES_PER_TABLE && t == page % ENTRIES_PER_TABLE && frame == task.tables.addresses[d]
    modifies task.tables.Repr
    ensures Value(task) == old(Value(task)).(pages := old(task.tables.Flat())[page := val])
  {
    ghost var tables, m := task.tables, task.tables.Flat();
    var table := task.tables.memory[frame];
    table[t] := val;
    forall q | 0 <= q < PAGE_COUNT
      ensures tables.Entry(q) == m[page := val][q]
    {
      assert q == ENTRIES_PER_TABLE * (q / ENTRIES_PER_TABLE) + q % ENTRIES_PER_TABLE;
    }
    assert tables.Flat() == m[page := val];
  }

  // ---------------------------------------------------------------- the whole copy

  /** The text ends up at phys; apart from the scratch page, nothing else changes. */
  ghost predicate TextDelivered(ram: Ram, ram': Ram, text: seq<u8>, tmp: u32, phys: u32, n: nat) {
    && (phys != 0 ==> Holds(ram', phys, text))
    && forall x :: !(tmp <= x <= tmp + n) && !(phys != 0 && phys <= x <= phys + |text|) ==> ram'(x) == ram(x)
  }

  lemma {:induction false} SameText(ram: Ram, ram': Ram, view: View, src: u32, n: nat)
    requires forall i :: 0 <= i < n ==> CharAt(ram', view, src, i) == CharAt(ram, view, src, i)
    ensures Length(ram', view, src, n, 0) == Length(ram, view, src, n, 0)
    ensures Text(ram', view, src, n) == Text(ram, view, src, n)
  {
  }

  lemma {:induction false} KernelChar(ram: Ram, at: u32, i: nat)
    requires at + i < TWO_TO_THE_32
    ensures CharAt(ram, KERNEL_VIEW, at, i) == ram(at + i)
  {
  }

  /** Text that is in memory is what the kernel reads there. */
  lemma {:induction false} HoldsIsText(ram: Ram, at: u32, text: seq<u8>, n: nat)
    requires at != 0 && Holds(ram, at, text) && |text| <= n && 0 !in text
    ensures Text(ram, KERNEL_VIEW, at, n) == text
  {
    forall i | 0 <= i <= |text|
      ensures CharAt(ram, KERNEL_VIEW, at, i) == if i < |text| then text[i] else 0
    {
      KernelChar(ram, at, i);
    }
    LengthIs(ram, KERNEL_VIEW, at, n, 0, |text|);
  }

  /** The scratch page, zeroed and then written, holds the string the task sees. */
  lemma {:induction false} ScratchHoldsText(ram: Ram, ram1: Ram, ram2: Ram, view: View, tables: set<u32>,
                                            tmp: u32, virt: u32, n: nat)
    requires tmp + n < TWO_TO_THE_32 && ram1(tmp) == 0
    requires virt != 0 ==> Apart(view, tables, tmp, virt, n) && Copied(ram1, ram2, view, tmp, virt, n)
    requires virt == 0 ==> ram2 == ram1
    requires forall x :: !(tmp <= x <= tmp + n) ==> ram1(x) == ram(x)
    ensures Holds(ram2, tmp, Text(ram, view, virt, n))
    ensures forall x :: !(tmp <= x <= tmp + n) ==> ram2(x) == ram(x)
  {
    if virt != 0 {
      SameText(ram, ram1, view, virt, n);
    }
  }

  lemma {:induction false} TwoCopies(ram: Ram, ram2: Ram, ram3: Ram, text: seq<u8>, tmp: u32, phys: u32, n: nat)
    requires tmp != 0 && |text| <= n && 0 !in text && Holds(ram2, tmp, text)
    requires forall x :: !(tmp <= x <= tmp + n) ==> ram2(x) == ram(x)
    requires phys != 0 ==> Copied(ram2, ram3, KERNEL_VIEW, phys, tmp, n)
    requires phys == 0 ==> ram3 == ram2
    ensures TextDelivered(ram, ram3, text, tmp, phys, n)
  {
    if phys != 0 {
      HoldsIsText(ram2, tmp, text, n);
    }
  }

  /** The stray word misses all protected pages, what else the kernel runs on, and the scratch
      page. That page has its own frame; no character lies in it or in a protected page, and the
      buffer at phys is apart from both. */
  ghost predicate Clear(v: Tables, protected: set<u32>, kernel: Kernel, tmp: u32, virt: u32, phys: u32, n: nat)
    requires Aims(v, tmp / PAGE_SIZE)
  {
    && tmp + n < TWO_TO_THE_32 && StrayTable(v, tmp / PAGE_SIZE) !in protected + kernel.image + {tmp}
    && (virt != 0 ==> Apart(ViewOf(v.pages), protected, tmp, virt, n))
    && (phys != 0 ==> Apart(KERNEL_VIEW, protected, phys, tmp, n))
  }

  lemma {:induction false} PagesApart(table: u32, tmp: u32, page: nat)
    requires table % PAGE_SIZE == 0 && tmp % PAGE_SIZE == 0 && table != tmp
    ensures EntryAddress(table, page) + 4 <= tmp || tmp + PAGE_SIZE <= EntryAddress(table, page)
  {
  }

  /** The entry written astray and the zeroes of the scratch page do not meet. */
  lemma {:induction false} ScratchZeroed(ram: Ram, v: Tables, tmp: u32, n: nat)
    requires tmp % PAGE_SIZE == 0 && 0 < n < PAGE_SIZE
    requires Aims(v, tmp / PAGE_SIZE) && StrayTable(v, tmp / PAGE_SIZE) != tmp
    ensures var ram1 := StrayRam(ZeroFill(ram, tmp, n), v, tmp / PAGE_SIZE);
            && ram1(tmp) == 0 && (forall x :: tmp <= x < tmp + n ==> ram1(x) == 0)
            && forall x :: !(tmp <= x <= tmp + n) ==> ram1(x) == StrayRam(ram, v, tmp / PAGE_SIZE)(x)
  {
    PagesApart(StrayTable(v, tmp / PAGE_SIZE), tmp, tmp / PAGE_SIZE);
  }

  /** The outcome of the whole copy: a page fault exactly when the scratch page or a page of the
      string is not present; otherwise the string as the task sees it, after the stray word,
      is at phys. */
  ghost predicate StringFetched(ram: Ram, ram': Ram, end: CopyEnd, v: Tables,
                                tmp: u32, virt: u32, phys: u32, n: nat)
    requires Aims(v, tmp / PAGE_SIZE)
  {
    var view, ram0 := ViewOf(v.pages), StrayRam(ram, v, tmp / PAGE_SIZE);
    && end == (if virt == 0 || Touchable(view, tmp, virt, n, Length(ram0, view, virt, n, 0)) then Code(0) else Fault)
    && (end.Code? ==> TextDelivered(ram0, ram', Text(ram0, view, virt, n), tmp, phys, n))
  }

  /** The first copy, out of the task's address space. */
  lemma {:induction false} FirstCopy(ram: Ram, ram1: Ram, ram2: Ram, end: CopyEnd, view: View, tables: set<u32>,
                                     tmp: u32, virt: u32, n: nat)
    requires 0 < tmp && tmp + n < TWO_TO_THE_32 && ram1(tmp) == 0
    requires virt != 0 ==> Apart(view, tables, tmp, virt, n)
    requires forall x :: !(tmp <= x <= tmp + n) ==> ram1(x) == ram(x)
    requires 0 < n && CopyOutcome(ram1, end, ram2, view, tables, tmp, virt, n)
    ensures end == if virt == 0 || Touchable(view, tmp, virt, n, Length(ram, view, virt, n, 0)) then Code(0)
                   else Fault
    ensures end.Code? ==>
              && Holds(ram2, tmp, Text(ram, view, virt, n))
              && forall x :: !(tmp <= x <= tmp + n) ==> ram2(x) == ram(x)
  {
    if virt != 0 {
      SameText(ram, ram1, view, virt, n);
      assert PhysicalAt(view, tmp, 0) == tmp;
      assert !(tmp <= PhysicalAt(view, virt, 0) <= tmp + n);
    }
    if end.Code? {
      ScratchHoldsText(ram, ram1, ram2, view, tables, tmp, virt, n);
    }
  }

  /** The second copy, in the kernel's, does not fail. */
  lemma {:induction false} SecondCopy(ram2: Ram, ram3: Ram, end: CopyEnd, tables: set<u32>,
                                      tmp: u32, phys: u32, n: nat)
    requires 0 < tmp && 0 < n && (phys != 0 ==> Apart(KERNEL_VIEW, tables, phys, tmp, n))
    requires CopyOutcome(ram2, end, ram3, KERNEL_VIEW, tables, phys, tmp, n)
    ensures end == Code(0)
    ensures if phys == 0 then ram3 == ram2 else Copied(ram2, ram3, KERNEL_VIEW, phys, tmp, n)
  {
    if phys != 0 {
      assert PhysicalAt(KERNEL_VIEW, phys, 0) == phys;
      assert !(phys <= PhysicalAt(KERNEL_VIEW, tmp, 0) <= phys + n);
    }
  }

  /** What the two copies achieve together. */
  lemma {:induction false} CopyDelivers(ram: Ram, ram1: Ram, ram2: Ram, ram3: Ram, end: CopyEnd, end': CopyEnd,
                                        v: Tables, tables: set<u32>, kernel: Kernel,
                                        tmp: u32, virt: u32, phys: u32, n: nat)
    requires tmp % PAGE_SIZE == 0 && 0 < tmp && 0 < n < PAGE_SIZE
    requires Aims(v, tmp / PAGE_SIZE) && Clear(v, tables, kernel, tmp, virt, phys, n)
    requires ram1 == StrayRam(ZeroFill(ram, tmp, n), v, tmp / PAGE_SIZE)
    requires CopyOutcome(ram1, end, ram2, ViewOf(v.pages), tables, tmp, virt, n)
    requires end.Code? ==> CopyOutcome(ram2, end', ram3, KERNEL_VIEW, tables, phys, tmp, n)
    ensures StringFetched(ram, ram3, end, v, tmp, virt, phys, n) && (end.Code? ==> end' == Code(0))
  {
    var view, ram0 := ViewOf(v.pages), StrayRam(ram, v, tmp / PAGE_SIZE);
    ScratchZeroed(ram, v, tmp, n);
    FirstCopy(ram0, ram1, ram2, end, view, tables, tmp, virt, n);
    if end.Code? {
      SecondCopy(ram2, ram3, end', tables, tmp, phys, n);
      TwoCopies(ram0, ram2, ram3, Text(ram0, view, virt, n), tmp, phys, n);
    }
  }

  /** The result of a copy through the scratch page tmp. It is lost if the stray word hits what the
      kernel runs on; and if it hits one of the words that lead to the task's directory, since that
      word is then destroyed and something else is loaded. If the copy ends with a status, that is
      0, the kernel's directory is loaded, and the task's is left as it was found if and only if
      the stray word leaves it so; and where everything is clear, the string has been fetched. */
  ghost predicate CopyResult(ram: Ram, ram': Ram, end: CopyEnd, userLoaded: bool, v: Tables, v': Tables,
                             protected: set<u32>, kernel: Kernel, tmp: u32, virt: u32, phys: u32, n: nat)
    requires Aims(v, tmp / PAGE_SIZE) && |v.frames| == ENTRIES_PER_TABLE
  {
    var page, table := tmp / PAGE_SIZE, StrayTable(v, tmp / PAGE_SIZE);
    && (HitsKernel(kernel, table, page) ==> end == Lost)
    && (!HitsKernel(kernel, table, page) && HitsPointer(v, table, page) ==>
          end == Lost && v' == AfterStray(v, page) != v)
    && (end.Code? ==> end.code == 0 && !userLoaded && v' == AfterCopy(v, page) && (v' == v <==> Kept(v, page)))
    && (Clear(v, protected, kernel, tmp, virt, phys, n) ==> StringFetched(ram, ram', end, v, tmp, virt, phys, n))
  }

  /** The end of copy_string_from_task, with the kernel's directory loaded again. */
  method CopyToBuffer(ram: Ram, task: TaskSpace, tables: set<u32>, tmp: u32, phys: u32, n: nat, entry: u32,
                      ghost v: Tables)
    returns (end: CopyEnd, ram': Ram)
    requires task.Shape() && WellFormed(v) && Aims(v, tmp / PAGE_SIZE) && TableFrames(task.tables) <= tables
    requires Value(task) == AfterStray(v, tmp / PAGE_SIZE) && entry == v.pages[tmp / PAGE_SIZE]
    requires tmp % PAGE_SIZE == 0 && tmp !in TableFrames(task.tables)
    modifies task.tables.Repr
    ensures Value(task) == AfterCopy(v, tmp / PAGE_SIZE) && (end.Code? ==> end == Code(0))
    ensures v == AfterStray(v, tmp / PAGE_SIZE) ==>
              CopyOutcome(ram, end, ram', KERNEL_VIEW, tables, phys, tmp, n)
  {
    ram' := PutBack(ram, task, tmp, entry, v);
    KernelLoaded(task.tables);
    end, ram' := StringCopy(ram', task.tables, false, tables, phys, tmp, n, KERNEL_VIEW);
  }

  /** copy_string_from_task once the scratch page is allocated. */
  method CopyThroughScratch(ram: Ram, task: TaskSpace, kernel: Kernel, tmp: u32, virt: u32, phys: u32, n: nat)
    returns (end: CopyEnd, ram': Ram, userLoaded: bool)
    requires task.Valid() && Aims(Value(task), tmp / PAGE_SIZE)
    requires tmp % PAGE_SIZE == 0 && 0 < tmp && 0 < n < PAGE_SIZE && tmp !in TableFrames(task.tables)
    modifies task, task.tables.Repr
    ensures |old(Value(task)).frames| == ENTRIES_PER_TABLE
    ensures CopyResult(ram, ram', end, userLoaded, old(Value(task)), Value(task),
                       Protected(task, kernel), kernel, tmp, virt, phys, n)
  {
    ghost var v := Value(task);
    var tables := Protected(task, kernel);
    ValueWellFormed(task);
    DirectoryKeptIff(v, tmp / PAGE_SIZE);
    StrayPointer(v, tmp / PAGE_SIZE);
    var entry := task.tables.Get(tmp);
    end, ram', userLoaded := CopyIn(ram, task, kernel, tmp, virt, n);
    ghost var ram2, end2 := ram', end;
    if end.Code? {
      userLoaded := false;
      end, ram' := CopyToBuffer(ram', task, tables, tmp, phys, n, entry, v);
    }
    if Clear(v, tables, kernel, tmp, virt, phys, n) {
      CopyDelivers(ram, StrayRam(ZeroFill(ram, tmp, n), v, tmp / PAGE_SIZE), ram2, ram', end2, end,
                   v, tables, kernel, tmp, virt, phys, n);
    }
  }

  /** A word that leads to the directory and is hit is no longer what it was. */
  lemma {:induction false} StrayPointer(v: Tables, page: nat)
    requires WellFormed(v) && Aims(v, page) && page < PAGE_COUNT
    ensures HitsPointer(v, StrayTable(v, page), page) <==>
            AfterStray(v, page).directoryEntry != v.at || AfterStray(v, page).pageDir != v.chunk
  {
    EntryRoundTrip(page, USER_RW);
  }

  /** The first part of it: a zeroed scratch page, the stray word, and the string copied into the
      scratch page with the task's directory loaded, whose address is read again for that. */
  method CopyIn(ram: Ram, task: TaskSpace, kernel: Kernel, tmp: u32, virt: u32, n: nat)
    returns (end: CopyEnd, ram': Ram, userLoaded: bool)
    requires task.Valid() && Aims(Value(task), tmp / PAGE_SIZE) && tmp % PAGE_SIZE == 0
    modifies task, task.tables.Repr
    ensures |old(Value(task)).frames| == ENTRIES_PER_TABLE
    ensures end.Code? ==> end == Code(0)
    ensures var v, page := old(Value(task)), tmp / PAGE_SIZE;
            var table := StrayTable(v, page);
            && (HitsKernel(kernel, table, page) ==> end == Lost)
            && (!HitsKernel(kernel, table, page) ==>
                  Value(task) == AfterStray(v, page) && (HitsPointer(v, table, page) ==> end == Lost))
            && (table !in Protected(task, kernel) + kernel.image ==>
                  && Value(task) == v == AfterStray(v, page)
                  && CopyOutcome(StrayRam(ZeroFill(ram, tmp, n), v, page), end, ram',
                                 ViewOf(v.pages), Protected(task, kernel), tmp, virt, n))
  {
    ghost var v, view := Value(task), ViewOf(task.tables.Flat());
    ValueWellFormed(task);
    StrayPointer(v, tmp / PAGE_SIZE);
    userLoaded := false;
    end, ram' := MapScratch(ZeroFill(ram, tmp, n), task, kernel, tmp);
    if end == Lost {
      return;
    }
    if task.pageDir != task.tables.address || task.directoryEntry != task.tables.directoryAddress {
      return Lost, ram', false;
    }
    if task.Valid() && ViewOf(task.tables.Flat()) == view {
      TaskLoaded(task.tables);
    }
    userLoaded := true;
    end, ram' := StringCopy(ram', task.tables, true, Protected(task, kernel), tmp, virt, n, view);
  }

  /** The scratch page that is allocated for a string of at most max characters. */
  function Scratch(h: HeapState, max: int): Option<u32>
    requires KernelHeap(h)
  {
    if max >= PAGE_SIZE then None
    else
      match Place(h, Wrap32(max))
      case None => None
      case Some(b) => Some(Address(h, b))
  }

  /** There is one exactly when max is positive, less than a page, and a block is free; it is a
      page that nothing else lives in. */
  lemma {:induction false} ScratchPage(h: HeapState, max: int)
    requires KernelHeap(h) && -0x8000_0000 <= max < 0x8000_0000
    ensures Scratch(h, max).Some? <==> 0 < max < PAGE_SIZE && FirstFit(h.table, 1).Some?
    ensures Scratch(h, max).Some? ==>
              && HEAP_ADDRESS <= Scratch(h, max).value < HEAP_ADDRESS + HEAP_SIZE
              && Scratch(h, max).value % PAGE_SIZE == 0 && !IsLivePage(h.cells, h.base, Scratch(h, max).value)
  {
    if max < PAGE_SIZE {
      BlocksOfString(max);
    }
    MallocSound(h, Wrap32(max));
  }

  lemma {:induction false} BlocksOfString(max: int)
    requires -0x8000_0000 <= max < PAGE_SIZE
    ensures 0 < max ==> Wrap32(max) == max && BlocksFor(max) == 1
    ensures max == 0 ==> BlocksFor(Wrap32(max)) == 0
    ensures max < 0 ==> BlocksFor(Wrap32(max)) > HEAP_SIZE / BLOCK_SIZE
  {
    if max < 0 {
      assert Wrap32(max) == max + TWO_TO_THE_32;
    }
  }

  /** Low bits of a directory entry, as paging_new_chunk and the processor write them. */
  predicate TaskBits(v: Tables) {
    |v.directory| == ENTRIES_PER_TABLE && LowBits(v) % 4 == 3 && LowBits(v) < 256
  }

  lemma {:induction false} ScratchAims(v: Tables, tmp: u32)
    requires TaskBits(v) && tmp < HEAP_ADDRESS + HEAP_SIZE
    ensures Aims(v, tmp / PAGE_SIZE)
  {
  }

  lemma {:induction false} ScratchNotTable(tables: Chunk, cells: seq<Cell>, base: u32, tmp: u32)
    requires tables.Shape() && LivePages(cells, base, tables.Pages()) && !IsLivePage(cells, base, tmp)
    ensures tmp !in TableFrames(tables)
  {
    var pages := tables.Pages();
    assert pages[0] == tables.directoryAddress;
    forall i | 0 <= i < |tables.addresses|
      ensures tables.addresses[i] != tmp
    {
      assert pages[i + 1] == tables.addresses[i];
    }
  }

  /** copy_string_from_task */
  method CopyStringFromTask(ram: Ram, heap: BlockHeap, task: TaskSpace, kernel: Kernel, userLoaded: bool,
                            virt: u32, phys: u32, max: int)
    returns (end: CopyEnd, ram': Ram, userLoaded': bool)
    requires KernelHeap(heap.State()) && LivePages(heap.cells, heap.saddr, task.tables.Pages())
    requires task.Valid() && TaskBits(Value(task))
    requires heap !in task.tables.Repr && heap.entries !in task.tables.Repr
    requires -0x8000_0000 <= max < 0x8000_0000
    modifies heap.entries, heap`cells, task, task.tables.Repr
    ensures KernelHeap(heap.State()) && |old(Value(task)).frames| == ENTRIES_PER_TABLE
    ensures match Scratch(old(heap.State()), max)
            case None =>
              && end == Code(if max >= PAGE_SIZE then -EINVARG else -ENOMEM)
              && ram' == ram && userLoaded' == userLoaded
              && heap.State() == old(heap.State()) && Value(task) == old(Value(task))
            case Some(tmp) =>
              && heap.State() == AfterMalloc(old(heap.State()), Wrap32(max))
              && Aims(old(Value(task)), tmp / PAGE_SIZE) && 0 < max
              && CopyResult(ram, ram', end, userLoaded', old(Value(task)), Value(task),
                            Protected(task, kernel), kernel, tmp, virt, phys, max)
  {
    ghost var h := heap.State();
    ScratchPage(h, max);
    MallocSound(h, Wrap32(max));
    if max >= PAGE_SIZE {
      return Code(-EINVARG), ram, userLoaded;
    }
    var tmp := heap.Malloc(Wrap32(max));
    if tmp == 0 {
      return Code(-ENOMEM), ram, userLoaded;
    }
    assert Scratch(h, max) == Some(tmp) && Value(task) == old(Value(task));
    ScratchAims(Value(task), tmp);
    ScratchNotTable(task.tables, h.cells, h.base, tmp);
    end, ram', userLoaded' := CopyThroughScratch(ram, task, kernel, tmp, virt, phys, max);
  }

  // ---------------------------------------------------------------- the copy among other events

  /** A process in order maps the pages of the heap, and so the scratch page, to themselves. */
  lemma {:induction false} ScratchHasOwnFrame(h: HeapState, p: Proc, tmp: u32, i: nat)
    requires KernelHeap(h) && ProcOk(h, p) && HEAP_ADDRESS <= tmp < HEAP_ADDRESS + HEAP_SIZE
    requires tmp % PAGE_SIZE == 0 && i < PAGE_SIZE
    ensures PhysicalAt(ViewOf(p.pages), tmp, i) == tmp + i
  {
    var page := tmp / PAGE_SIZE;
    AddressInPage(tmp, i);
    assert InHeapRegion(h, page) && Wrap32(tmp + i) == tmp + i;
    AlignedWord(Frame(p.pages[page]), p.pages[page]);
  }

  lemma {:induction false} AddressInPage(tmp: u32, i: nat)
    requires tmp % PAGE_SIZE == 0 && i < PAGE_SIZE
    ensures (tmp + i) / PAGE_SIZE == tmp / PAGE_SIZE && (tmp + i) % PAGE_SIZE == i
    ensures tmp == PAGE_SIZE * (tmp / PAGE_SIZE)
  {
  }

  /** The tables of all processes, whose tasks they are. */
  ghost predicate Matches(s: System, vs: seq<Tables>) {
    |vs| == |s.procs| && forall j :: 0 <= j < |vs| ==> WellFormed(vs[j]) && vs[j].pages == s.procs[j].pages
  }

  ghost predicate AllContained(s: System) {
    forall j :: 0 <= j < |s.procs| ==> Contained(s.procs[j])
  }

  /** The tables of all processes after a copy for process pid: the stray word can hit any of them,
      and only the entry of the scratch page in the process's own is put back. */
  ghost function TablesAfter(vs: seq<Tables>, pid: nat, page: nat): seq<Tables>
    requires pid < |vs| && page < PAGE_COUNT && Aims(vs[pid], page)
    requires forall j :: 0 <= j < |vs| ==> WellFormed(vs[j])
  {
    var table, entry := StrayTable(vs[pid], page), MakeEntry(page, USER_RW);
    seq(|vs|, j requires 0 <= j < |vs| && WellFormed(vs[j]) && (j == pid ==> Aims(vs[j], page)) =>
      if j == pid then AfterCopy(vs[j], page) else WordWritten(vs[j], table, page, entry))
  }

  /** The system of processes then, with the scratch page taken from the heap. */
  ghost function SystemAfter(s: System, vs: seq<Tables>, max: int): System
    requires |vs| == |s.procs| && |s.heap.cells| == |s.heap.table|
  {
    System(AfterMalloc(s.heap, Wrap32(max)),
           seq(|vs|, j requires 0 <= j < |vs| => s.procs[j].(pages := vs[j].pages)))
  }

  /** Nothing changes exactly when the word spares the task and all others. */
  lemma {:induction false} AllKeptIff(vs: seq<Tables>, pid: nat, page: nat)
    requires pid < |vs| && page < PAGE_COUNT && Aims(vs[pid], page)
    requires forall j :: 0 <= j < |vs| ==> WellFormed(vs[j])
    ensures TablesAfter(vs, pid, page) == vs
       <==> && Kept(vs[pid], page)
            && forall j :: 0 <= j < |vs| && j != pid ==>
                 Unhit(vs[j], StrayTable(vs[pid], page), page, MakeEntry(page, USER_RW))
  {
    EntryRoundTrip(page, USER_RW);
    forall j | 0 <= j < |vs|
      ensures TablesAfter(vs, pid, page)[j] == vs[j] <==>
              if j == pid then Kept(vs[j], page)
              else Unhit(vs[j], StrayTable(vs[pid], page), page, MakeEntry(page, USER_RW))
    {
      if j == pid {
        DirectoryKeptIff(vs[j], page);
      } else {
        UnhitIff(vs[j], StrayTable(vs[pid], page), page, MakeEntry(page, USER_RW));
      }
    }
  }

  /** A copy that changes no tables is, to all processes, an allocation of the kernel's: it leads
      from a reachable state to a reachable state. */
  lemma {:induction false} CopyIsKernelMalloc(s: System, vs: seq<Tables>, max: int)
    requires Reachable(s) && Ok(s) && Matches(s, vs)
    ensures Reachable(SystemAfter(s, vs, max)) && SystemAfter(s, vs, max).procs == s.procs
  {
    NextReachable(s, KernelMalloc(Wrap32(max)));
    assert SystemAfter(s, vs, max).procs == s.procs;
    assert Next(s, KernelMalloc(Wrap32(max))) == System(AfterMalloc(s.heap, Wrap32(max)), s.procs);
  }

  /** A word in the directory would not lead to a table any more. */
  lemma {:induction false} DirectorySame(v: Tables, table: u32, page: nat, w: Tables)
    requires WellFormed(v) && WellFormed(w) && page < PAGE_COUNT && PAGE_SIZE * page !in v.frames
    requires w.(pages := v.pages) == WordWritten(v, table, page, MakeEntry(page, USER_RW)).(pages := v.pages)
    ensures w.(pages := v.pages) == v
  {
    EntryRoundTrip(page, USER_RW);
    var t := page % ENTRIES_PER_TABLE;
    assert w.frames == v.frames && Frame(w.directory[t]) == v.frames[t];
    assert w.directory[t] != MakeEntry(page, USER_RW);
    assert w.directory == v.directory;
  }

  /** Where a word changes tables that stay well formed, an entry comes to lead to the page. */
  lemma {:induction false} ChangedEntry(v: Tables, table: u32, page: nat, w: Tables) returns (q: nat)
    requires WellFormed(v) && WellFormed(w) && page < PAGE_COUNT && PAGE_SIZE * page !in v.frames && w != v
    requires
      || w == WordWritten(v, table, page, MakeEntry(page, USER_RW))
      || (Aims(v, page) && table == StrayTable(v, page) && w == AfterCopy(v, page))
    ensures q < PAGE_COUNT && w.pages[q] == MakeEntry(page, USER_RW)
  {
    DirectorySame(v, table, page, w);
    assert w.pages != v.pages;
    q :| 0 <= q < PAGE_COUNT && w.pages[q] != v.pages[q];
  }

  lemma {:induction false} NewScratchRun(h: HeapState, max: int)
    requires KernelHeap(h) && -0x8000_0000 <= max < 0x8000_0000 && Scratch(h, max).Some?
    ensures KernelHeap(AfterMalloc(h, Wrap32(max)))
    ensures RunAtAddress(AfterMalloc(h, Wrap32(max)), Scratch(h, max).value, 1)
  {
    ScratchPage(h, max);
    BlocksOfString(max);
    MallocSound(h, Wrap32(max));
  }

  /** No process holds the scratch page. */
  lemma {:induction false} ScratchNotHeld(h: HeapState, p: Proc, max: int, page: nat)
    requires KernelHeap(h) && ProcOk(h, p) && -0x8000_0000 <= max < 0x8000_0000
    requires page < PAGE_COUNT && Scratch(h, max) == Some(PAGE_SIZE * page)
    ensures !HeldFrame(AfterMalloc(h, Wrap32(max)), p, page)
  {
    var h' := AfterMalloc(h, Wrap32(max));
    MallocFrame(h, Wrap32(max), p);
    NewScratchRun(h, max);
    SumModulo(page, 0, 0);
    assert InRun(PAGE_SIZE * page, 1, page);
    if HeldFrame(h', p, page) {
      HeldFrameApart(h', p, page, PAGE_SIZE * page, 1);
    }
  }

  /** So none that writes only to what it holds has an entry that leads there. */
  lemma {:induction false} ScratchNotWritten(h: HeapState, p: Proc, max: int, page: nat, p': Proc, q: nat)
    requires KernelHeap(h) && ProcOk(h, p) && -0x8000_0000 <= max < 0x8000_0000
    requires page < PAGE_COUNT && Scratch(h, max) == Some(PAGE_SIZE * page)
    requires p' == p.(pages := p'.pages) && Contained(p') && ProcOk(AfterMalloc(h, Wrap32(max)), p')
    requires q < PAGE_COUNT
    ensures p'.pages[q] != MakeEntry(page, USER_RW)
  {
    var h' := AfterMalloc(h, Wrap32(max));
    EntryFlags(page, USER_RW);
    EntryPage(page, USER_RW);
    ScratchNotHeld(h, p, max, page);
    assert HeldFrame(h', p', page) ==> HeldFrame(h', p, page);
    if p'.pages[q] == MakeEntry(page, USER_RW) {
      WritablePageIsHeld(h', p', q);
    }
  }

  /** A process that writes only to what it holds does so after a copy, on the heap with the
      scratch page taken, exactly when its entries stay as they were. */
  lemma {:induction false} CopyKeepsOrderIff(h: HeapState, p: Proc, v: Tables, page: nat, max: int)
    requires KernelHeap(h) && ProcOk(h, p) && Contained(p) && WellFormed(v) && v.pages == p.pages && Aims(v, page)
    requires -0x8000_0000 <= max < 0x8000_0000 && page < PAGE_COUNT && Scratch(h, max) == Some(PAGE_SIZE * page)
    ensures var p' := p.(pages := AfterCopy(v, page).pages);
            ProcOk(AfterMalloc(h, Wrap32(max)), p') && Contained(p') <==> p'.pages == p.pages
  {
    var p' := p.(pages := AfterCopy(v, page).pages);
    MallocFrame(h, Wrap32(max), p);
    if p'.pages == p.pages {
      assert p' == p;
    } else if ProcOk(AfterMalloc(h, Wrap32(max)), p') && Contained(p') {
      var q := ChangedPage(v, page);
      ScratchNotWritten(h, p, max, page, p', q);
    }
  }

  lemma {:induction false} ChangedPage(v: Tables, page: nat) returns (q: nat)
    requires Aims(v, page) && page < PAGE_COUNT && |v.frames| == ENTRIES_PER_TABLE
    requires AfterCopy(v, page).pages != v.pages
    ensures q < PAGE_COUNT && AfterCopy(v, page).pages[q] == MakeEntry(page, USER_RW)
  {
    var r := AfterCopy(v, page).pages;
    q :| 0 <= q < PAGE_COUNT && r[q] != v.pages[q];
  }

  /** Where every process writes only to what it holds, that is so after a copy, in a state that
      can be reached, if and only if the stray word spares the task and all others. */
  lemma {:induction false} CopyKeepsSystemIff(s: System, vs: seq<Tables>, pid: nat, page: nat, max: int)
    requires Reachable(s) && Ok(s) && Matches(s, vs) && AllContained(s) && pid < |vs|
    requires page < PAGE_COUNT && Aims(vs[pid], page) && -0x8000_0000 <= max < 0x8000_0000
    requires Scratch(s.heap, max) == Some(PAGE_SIZE * page)
    requires forall j :: 0 <= j < |vs| ==> PAGE_SIZE * page !in vs[j].frames
    ensures var vs' := TablesAfter(vs, pid, page);
            var s' := SystemAfter(s, vs', max);
            Reachable(s') && Matches(s', vs') && AllContained(s')
            <==> && Kept(vs[pid], page)
                 && forall j :: 0 <= j < |vs| && j != pid ==>
                      Unhit(vs[j], StrayTable(vs[pid], page), page, MakeEntry(page, USER_RW))
  {
    var vs' := TablesAfter(vs, pid, page);
    var s' := SystemAfter(s, vs', max);
    AllKeptIff(vs, pid, page);
    if vs' == vs {
      CopyIsKernelMalloc(s, vs, max);
    }
    if Reachable(s') && Matches(s', vs') && AllContained(s') {
      ReachableOk(s');
      forall j | 0 <= j < |vs|
        ensures vs'[j] == vs[j]
      {
        TablesUnchanged(s, vs, pid, page, max, j);
      }
    }
  }

  lemma {:induction false} TablesUnchanged(s: System, vs: seq<Tables>, pid: nat, page: nat, max: int, j: nat)
    requires Ok(s) && Matches(s, vs) && pid < |vs| && j < |vs|
    requires page < PAGE_COUNT && Aims(vs[pid], page) && -0x8000_0000 <= max < 0x8000_0000
    requires Scratch(s.heap, max) == Some(PAGE_SIZE * page) && PAGE_SIZE * page !in vs[j].frames
    requires var v' := TablesAfter(vs, pid, page)[j];
             && WellFormed(v') && Contained(s.procs[j].(pages := v'.pages))
             && ProcOk(AfterMalloc(s.heap, Wrap32(max)), s.procs[j].(pages := v'.pages))
    ensures TablesAfter(vs, pid, page)[j] == vs[j]
  {
    var v' := TablesAfter(vs, pid, page)[j];
    if v' != vs[j] {
      var q := ChangedEntry(vs[j], StrayTable(vs[pid], page), page, v');
      ScratchNotWritten(s.heap, s.procs[j], max, page, s.procs[j].(pages := v'.pages), q);
    }
  }
}
