/** Memory as a program sees it through page tables, and the copying of strings in it. */
module TaskMemory {
  import opened Machine
  import opened Bits
  import opened PageMap
  import opened Paging

  /** Physical memory by address, other than the page tables of the task in question. */
  type Ram = int -> u8

  function Store(ram: Ram, at: u32, byte: u8): Ram {
    (x: int) => if x == at then byte else ram(x)
  }

  function ByteOfWord(word: u32, k: int): u8 {
    if k == 0 then word % 256
    else if k == 1 then word / 0x100 % 256
    else if k == 2 then word / 0x1_0000 % 256
    else word / 0x100_0000
  }

  /** Memory after a word has been written, least significant byte first. */
  function StoreWord(ram: Ram, at: nat, word: u32): Ram {
    (x: int) => if at <= x < at + 4 then ByteOfWord(word, x - at) else ram(x)
  }

  /** The word at an address. */
  function LoadWord(ram: Ram, at: nat): u32 {
    ram(at) + 0x100 * ram(at + 1) + 0x1_0000 * ram(at + 2) + 0x100_0000 * ram(at + 3)
  }

  /** A word lies in memory with its least significant byte first, and is read back as it was
      written; no other byte is touched. */
  lemma {:induction false} WordInMemory(ram: Ram, at: nat, word: u32)
    ensures var ram' := StoreWord(ram, at, word);
            && LoadWord(ram', at) == word
            && ram'(at) == word % 0x100 && ram'(at + 3) == word / 0x100_0000
            && forall x :: !(at <= x < at + 4) ==> ram'(x) == ram(x)
  {
    var ram' := StoreWord(ram, at, word);
    BytesOfWord(word);
    assert ram'(at) == ByteOfWord(word, 0) && ram'(at + 1) == ByteOfWord(word, 1);
    assert ram'(at + 2) == ByteOfWord(word, 2) && ram'(at + 3) == ByteOfWord(word, 3);
  }

  lemma {:induction false} BytesOfWord(word: u32)
    ensures word == word % 0x100 + 0x100 * (word / 0x100 % 0x100) + 0x1_0000 * (word / 0x1_0000 % 0x100)
                    + 0x100_0000 * (word / 0x100_0000)
  {
  }

  /** Memory after n bytes from at on have been zeroed. */
  function ZeroFill(ram: Ram, at: u32, n: int): Ram {
    (x: int) => if at <= x < at + n then 0 else ram(x)
  }

  /** The physical address behind a virtual one. */
  function Physical(m: FlatMap, virt: u32): (phys: u32)
    ensures phys == Translate(m, virt)
  {
    AlignedWord(Frame(m[virt / PAGE_SIZE]), m[virt / PAGE_SIZE]);
    Frame(m[virt / PAGE_SIZE]) + virt % PAGE_SIZE
  }

  predicate Mapped(m: FlatMap, virt: u32) {
    Present(m[virt / PAGE_SIZE])
  }

  /** What a program can tell of an address space: where an address leads, and whether it may
      be used at all. */
  datatype View = View(phys: int -> u32, mapped: int -> bool)

  function ViewOf(m: FlatMap): View {
    View(virt => Physical(m, Wrap32(virt)), virt => Mapped(m, Wrap32(virt)))
  }

  /** Where the address i bytes on from virt leads. */
  function PhysicalAt(view: View, virt: u32, i: nat): u32 {
    view.phys(Wrap32(virt + i))
  }

  predicate MappedAt(view: View, virt: u32, i: nat) {
    view.mapped(Wrap32(virt + i))
  }

  /** The character i places into the string at src. */
  function CharAt(ram: Ram, view: View, src: u32, i: nat): u8 {
    ram(PhysicalAt(view, src, i))
  }

  /** The length of the string at src, from its place i on, cut at n. */
  function Length(ram: Ram, view: View, src: u32, n: nat, i: nat): (k: nat)
    requires i <= n
    ensures i <= k <= n && (k < n ==> CharAt(ram, view, src, k) == 0)
    ensures forall j :: i <= j < k ==> CharAt(ram, view, src, j) != 0
    decreases n - i
  {
    if i == n || CharAt(ram, view, src, i) == 0 then i else Length(ram, view, src, n, i + 1)
  }

  lemma {:induction false} LengthIs(ram: Ram, view: View, src: u32, n: nat, i: nat, k: nat)
    requires i <= k <= n && (k < n ==> CharAt(ram, view, src, k) == 0)
    requires forall j :: i <= j < k ==> CharAt(ram, view, src, j) != 0
    ensures Length(ram, view, src, n, i) == k
  {
  }

  /** The pages that copying k characters and the terminator touches are present. */
  predicate Touchable(view: View, dest: u32, src: u32, n: nat, k: nat)
    requires k <= n
  {
    && (forall i :: 0 <= i <= k ==> MappedAt(view, dest, i))
    && (forall i :: 0 <= i <= k && i < n ==> MappedAt(view, src, i))
  }

  /** The string a task sees at virt, cut at n; nothing is copied from address 0. */
  ghost function Text(ram: Ram, view: View, virt: u32, n: nat): (text: seq<u8>)
    ensures |text| <= n && 0 !in text
  {
    if virt == 0 then []
    else seq(Length(ram, view, virt, n, 0), i requires 0 <= i < Length(ram, view, virt, n, 0) =>
               CharAt(ram, view, virt, i))
  }

  /** The text, terminated, is in memory from at on. */
  ghost predicate Holds(ram: Ram, at: u32, text: seq<u8>) {
    && at + |text| < TWO_TO_THE_32
    && (forall j :: 0 <= j < |text| ==> ram(at + j) == text[j])
    && ram(at + |text|) == 0
  }

  /** The text at src, cut at n, in one memory is at dest in the other; every other byte is the
      same. */
  ghost predicate Copied(ram: Ram, ram': Ram, view: View, dest: u32, src: u32, n: nat) {
    var text := Text(ram, view, src, n);
    Holds(ram', dest, text) && forall x :: !(dest <= x <= dest + |text|) ==> ram'(x) == ram(x)
  }

  /** The n bytes after dest, and dest itself, are mapped to themselves, and no character of
      the string at src lies there; none of them lies in the pages of tables. */
  predicate Apart(view: View, tables: set<u32>, dest: u32, src: u32, n: nat) {
    && dest + n < TWO_TO_THE_32
    && (forall i :: 0 <= i <= n ==>
          PhysicalAt(view, dest, i) == dest + i && Frame(PhysicalAt(view, dest, i)) !in tables)
    && (forall i :: 0 <= i < n ==>
          !(dest <= PhysicalAt(view, src, i) <= dest + n) && Frame(PhysicalAt(view, src, i)) !in tables)
  }

  /** How an attempt to copy ends: with a status, in a page fault, or with a byte written over
      page tables in use, after which nothing more is said. */
  datatype CopyEnd = Code(code: int) | Fault | Lost

  /** A byte stored i bytes on from a virtual address: a supervisor's write, which needs a present
      page but not a writable one. */
  function StoreAt(ram: Ram, view: View, tables: set<u32>, virt: u32, i: nat, byte: u8): (CopyEnd, Ram) {
    if !MappedAt(view, virt, i) then (Fault, ram)
    else if Frame(PhysicalAt(view, virt, i)) in tables then (Lost, ram)
    else (Code(0), Store(ram, PhysicalAt(view, virt, i), byte))
  }

  /** The copy from character i on, a byte at a time, wherever source and destination lie. */
  function CopyFrom(ram: Ram, view: View, tables: set<u32>, dest: u32, src: u32, n: nat, i: nat): (CopyEnd, Ram)
    requires i <= n
    decreases n - i
  {
    if i < n && !MappedAt(view, src, i) then (Fault, ram)
    else if i == n || CharAt(ram, view, src, i) == 0 then StoreAt(ram, view, tables, dest, i, 0)
    else
      var (end, ram') := StoreAt(ram, view, tables, dest, i, CharAt(ram, view, src, i));
      if end.Code? then CopyFrom(ram', view, tables, dest, src, n, i + 1) else (end, ram')
  }

  /** No character of the string lies in page tables. */
  predicate ReadsClear(view: View, tables: set<u32>, src: u32, n: nat) {
    forall i :: 0 <= i < n ==> Frame(PhysicalAt(view, src, i)) !in tables
  }

  // ---------------------------------------------------------------- the memory management unit

  /** The frames of a task's directory and page tables. */
  function TableFrames(task: Chunk): set<u32> {
    task.memory.Keys + {task.directoryAddress}
  }

  /** The entry for an address in the loaded directory: the task's, or else the kernel's, which
      maps every page to itself. */
  ghost function EntryOf(task: Chunk, user: bool, virt: u32): u32
    requires task.Shape()
    reads task.Repr
  {
    if user then task.Flat()[virt / PAGE_SIZE] else MakeEntry(virt / PAGE_SIZE, USER_RW)
  }

  /** What the view shows at an address follows from the entry for it. */
  ghost predicate ShownAt(task: Chunk, user: bool, view: View, virt: u32)
    requires task.Shape()
    reads task.Repr
  {
    && view.phys(virt) == Frame(EntryOf(task, user, virt)) + virt % PAGE_SIZE
    && view.mapped(virt) == Present(EntryOf(task, user, virt))
  }

  /** The view is what the loaded directory shows. */
  ghost predicate Loaded(task: Chunk, user: bool, view: View)
    reads task.Repr
  {
    task.Shape() && (user ==> task.Valid()) && forall virt: u32 :: ShownAt(task, user, view, virt)
  }

  lemma {:induction false} TableLength(task: Chunk, frame: u32)
    requires task.Shape() && frame in task.memory
    ensures task.memory[frame].Length == ENTRIES_PER_TABLE && task.memory[frame] in task.Repr
  {
    var i :| 0 <= i < |task.addresses| && task.addresses[i] == frame;
  }

  /** The word at place t of a page, be it a table, the directory or other memory. */
  method WordOfPage(ram: Ram, task: Chunk, frame: u32, t: nat) returns (word: u32)
    requires task.Shape() && t < ENTRIES_PER_TABLE
    ensures frame in task.memory ==> task.memory[frame].Length == ENTRIES_PER_TABLE && word == task.memory[frame][t]
  {
    if frame in task.memory {
      TableLength(task, frame);
      return task.memory[frame][t];
    }
    if frame == task.directoryAddress {
      return task.directory[t];
    }
    return LoadWord(ram, frame + 4 * t);
  }

  lemma {:induction false} PageIndexes(virt: u32)
    ensures virt / BYTES_PER_TABLE == virt / PAGE_SIZE / ENTRIES_PER_TABLE < ENTRIES_PER_TABLE
    ensures virt % BYTES_PER_TABLE / PAGE_SIZE == virt / PAGE_SIZE % ENTRIES_PER_TABLE
  {
  }

  /** The entry the memory management unit finds for an address. */
  method FindEntry(ram: Ram, task: Chunk, virt: u32) returns (entry: u32)
    requires task.Shape()
    ensures task.Valid() ==> entry == task.Flat()[virt / PAGE_SIZE]
  {
    PageIndexes(virt);
    var frame := Frame(task.directory[virt / BYTES_PER_TABLE]);
    entry := WordOfPage(ram, task, frame, virt % BYTES_PER_TABLE / PAGE_SIZE);
    assert task.Valid() ==> entry == task.Entry(virt / PAGE_SIZE);
  }

  /** What the memory management unit does with an address. */
  method Walk(ram: Ram, task: Chunk, user: bool, virt: u32, ghost view: View) returns (mapped: bool, phys: u32)
    requires task.Shape()
    ensures Loaded(task, user, view) ==> mapped == view.mapped(virt) && phys == view.phys(virt)
  {
    var entry := MakeEntry(virt / PAGE_SIZE, USER_RW);
    if user {
      entry := FindEntry(ram, task, virt);
    }
    assert Loaded(task, user, view) ==> ShownAt(task, user, view, virt);
    AlignedWord(Frame(entry), entry);
    return entry % 2 == 1, Frame(entry) + virt % PAGE_SIZE;
  }

  /** The byte read i bytes on from a virtual address. */
  method LoadByte(ram: Ram, task: Chunk, user: bool, virt: u32, i: nat, ghost view: View)
    returns (fault: bool, byte: u8)
    requires task.Shape()
    ensures Loaded(task, user, view) ==> fault == !MappedAt(view, virt, i)
    ensures Loaded(task, user, view) && Frame(PhysicalAt(view, virt, i)) !in TableFrames(task) ==>
              byte == CharAt(ram, view, virt, i)
  {
    var mapped, phys := Walk(ram, task, user, Wrap32(virt + i), view);
    if Frame(phys) in TableFrames(task) {
      var word := WordOfPage(ram, task, Frame(phys), phys % PAGE_SIZE / 4);
      return !mapped, ByteOfWord(word, phys % 4);
    }
    return !mapped, ram(phys);
  }

  method StoreByte(ram: Ram, task: Chunk, user: bool, tables: set<u32>, virt: u32, i: nat, byte: u8,
                   ghost view: View)
    returns (end: CopyEnd, ram': Ram)
    requires task.Shape()
    ensures end.Code? ==> end == Code(0)
    ensures Loaded(task, user, view) ==> (end, ram') == StoreAt(ram, view, tables, virt, i, byte)
  {
    var mapped, phys := Walk(ram, task, user, Wrap32(virt + i), view);
    if !mapped {
      return Fault, ram;
    }
    if Frame(phys) in tables {
      return Lost, ram;
    }
    return Code(0), Store(ram, phys, byte);
  }

  // ---------------------------------------------------------------- strncpy

  /** What the loop of strncpy has done when it stops after i characters: it has copied the
      whole string, cut at n, or met a page that is not present. */
  ghost predicate CopiedSoFar(ram: Ram, ram': Ram, view: View, dest: u32, src: u32, n: nat, i: nat) {
    && i <= Length(ram, view, src, n, 0)
    && (forall j :: 0 <= j < i ==> MappedAt(view, dest, j) && MappedAt(view, src, j))
    && (forall j :: 0 <= j < i ==> ram'(dest + j) == CharAt(ram, view, src, j))
    && (forall x :: !(dest <= x < dest + i) ==> ram'(x) == ram(x))
  }

  lemma {:induction false} CopiedOneMore(ram: Ram, ram': Ram, view: View, tables: set<u32>, dest: u32,
                                         src: u32, n: nat, i: nat)
    requires Apart(view, tables, dest, src, n) && CopiedSoFar(ram, ram', view, dest, src, n, i) && i < n
    ensures CharAt(ram', view, src, i) == CharAt(ram, view, src, i)
    ensures PhysicalAt(view, dest, i) == dest + i
    ensures CharAt(ram, view, src, i) != 0 && MappedAt(view, src, i) && MappedAt(view, dest, i) ==>
              CopiedSoFar(ram, Store(ram', dest + i, CharAt(ram, view, src, i)), view, dest, src, n, i + 1)
  {
  }

  lemma {:induction false} CopyTerminated(ram: Ram, ram': Ram, view: View, dest: u32, src: u32, n: nat, i: nat)
    requires src != 0 && dest + i < TWO_TO_THE_32
    requires CopiedSoFar(ram, ram', view, dest, src, n, i) && i == Length(ram, view, src, n, 0)
    ensures Copied(ram, Store(ram', dest + i, 0), view, dest, src, n)
  {
  }

  /** The copy goes through exactly when the pages it touches are present, and then the text is at
      the destination. */
  ghost predicate TextCopied(ram: Ram, copy: (CopyEnd, Ram), view: View, dest: u32, src: u32, n: nat) {
    && copy.0 == (if Touchable(view, dest, src, n, Length(ram, view, src, n, 0)) then Code(0) else Fault)
    && (copy.0.Code? ==> Copied(ram, copy.1, view, dest, src, n))
  }

  lemma {:induction false} CopyEndsApart(ram: Ram, now: Ram, view: View, tables: set<u32>, dest: u32, src: u32,
                                         n: nat, i: nat)
    requires src != 0 && Apart(view, tables, dest, src, n)
    requires CopiedSoFar(ram, now, view, dest, src, n, i) && i == Length(ram, view, src, n, 0)
    ensures TextCopied(ram, CopyFrom(now, view, tables, dest, src, n, i), view, dest, src, n)
  {
    assert PhysicalAt(view, dest, i) == dest + i;
    if i < n {
      CopiedOneMore(ram, now, view, tables, dest, src, n, i);
    }
    CopyTerminated(ram, now, view, dest, src, n, i);
  }

  lemma {:induction false} CopyStepApart(ram: Ram, now: Ram, view: View, tables: set<u32>, dest: u32, src: u32,
                                         n: nat, i: nat, next: Ram)
    requires Apart(view, tables, dest, src, n)
    requires CopiedSoFar(ram, now, view, dest, src, n, i) && i < Length(ram, view, src, n, 0)
    requires next == Store(now, dest + i, CharAt(ram, view, src, i))
    ensures CopyFrom(now, view, tables, dest, src, n, i)
         == if MappedAt(view, src, i) && MappedAt(view, dest, i)
            then CopyFrom(next, view, tables, dest, src, n, i + 1) else (Fault, now)
    ensures MappedAt(view, src, i) && MappedAt(view, dest, i) ==>
              CopiedSoFar(ram, next, view, dest, src, n, i + 1)
  {
    CopiedOneMore(ram, now, view, tables, dest, src, n, i);
  }

  /** The copy where source and destination are apart. */
  lemma {:induction false} CopyFromApart(ram: Ram, now: Ram, view: View, tables: set<u32>, dest: u32, src: u32,
                                         n: nat, i: nat)
    requires src != 0 && i <= n
    requires Apart(view, tables, dest, src, n) && CopiedSoFar(ram, now, view, dest, src, n, i)
    ensures TextCopied(ram, CopyFrom(now, view, tables, dest, src, n, i), view, dest, src, n)
    decreases n - i
  {
    if i == Length(ram, view, src, n, 0) {
      CopyEndsApart(ram, now, view, tables, dest, src, n, i);
    } else {
      var next := Store(now, dest + i, CharAt(ram, view, src, i));
      CopyStepApart(ram, now, view, tables, dest, src, n, i, next);
      if MappedAt(view, src, i) && MappedAt(view, dest, i) {
        CopyFromApart(ram, next, view, tables, dest, src, n, i + 1);
      }
    }
  }

  /** The loop of strncpy: all but the terminator. */
  method CopyCharacters(ram: Ram, task: Chunk, user: bool, tables: set<u32>, dest: u32, src: u32, n: nat,
                        ghost view: View)
    returns (end: CopyEnd, i: nat, ram': Ram)
    requires task.Shape() && TableFrames(task) <= tables
    ensures end.Code? ==> end == Code(0)
    ensures i <= n
    ensures Loaded(task, user, view) && ReadsClear(view, tables, src, n) ==>
              CopyFrom(ram, view, tables, dest, src, n, 0)
              == if end.Code? then StoreAt(ram', view, tables, dest, i, 0) else (end, ram')
  {
    i, ram' := 0, ram;
    var fault, c;
    ghost var clear := Loaded(task, user, view) && ReadsClear(view, tables, src, n);
    while i < n
      invariant i <= n
      invariant clear ==>
          CopyFrom(ram, view, tables, dest, src, n, 0) == CopyFrom(ram', view, tables, dest, src, n, i)
    {
      fault, c := LoadByte(ram', task, user, src, i, view);
      if fault {
        return Fault, i, ram';
      }
      if c == 0 {
        return Code(0), i, ram';
      }
      end, ram' := StoreByte(ram', task, user, tables, dest, i, c, view);
      if !end.Code? {
        return;
      }
      i := i + 1;
    }
    end := Code(0);
  }

  /** What strncpy does: nothing for a null pointer or equal pointers; otherwise it copies a byte
      at a time, and where source and destination are apart that makes the text a copy. */
  ghost predicate CopyOutcome(ram: Ram, end: CopyEnd, ram': Ram, view: View, tables: set<u32>,
                              dest: u32, src: u32, n: nat) {
    && (dest == 0 || src == 0 || dest == src ==> end == Code(0) && ram' == ram)
    && (dest != 0 && src != 0 && dest != src && ReadsClear(view, tables, src, n) ==>
          (end, ram') == CopyFrom(ram, view, tables, dest, src, n, 0))
    && (dest != 0 && src != 0 && dest != src && Apart(view, tables, dest, src, n) ==>
          TextCopied(ram, (end, ram'), view, dest, src, n))
  }

  /** strncpy, with the task's or the kernel's directory loaded. */
  method StringCopy(ram: Ram, task: Chunk, user: bool, tables: set<u32>, dest: u32, src: u32, n: nat,
                    ghost view: View)
    returns (end: CopyEnd, ram': Ram)
    requires task.Shape() && TableFrames(task) <= tables
    ensures end.Code? ==> end == Code(0)
    ensures Loaded(task, user, view) ==> CopyOutcome(ram, end, ram', view, tables, dest, src, n)
  {
    if dest == 0 || src == 0 || dest == src {
      return Code(0), ram;
    }
    var i;
    end, i, ram' := CopyCharacters(ram, task, user, tables, dest, src, n, view);
    if end.Code? {
      end, ram' := StoreByte(ram', task, user, tables, dest, i, 0, view);
    }
    if Apart(view, tables, dest, src, n) {
      CopyFromApart(ram, ram, view, tables, dest, src, n, 0);
    }
  }
}
