/** The block table of the heap as a value: what first fit, marking and freeing do to a
    sequence of entries, and the ledger of runs that explains every reachable table.
    Nothing here changes state; the class in Heap.dfy is proved against these functions. */
module BlockTable {
  import opened Machine

  const BLOCK_SIZE := 4096

  type Entry = bv8

  const FREE: Entry := 0x00
  const TAKEN: Entry := 0x01
  const HAS_NEXT: Entry := 0x80
  const IS_FIRST: Entry := 0x40

  /** An entry that first fit may hand out: its low four bits are clear. */
  predicate Vacant(e: Entry) {
    e & 0x0f == 0
  }

  predicate HasNext(e: Entry) {
    e & HAS_NEXT != 0
  }

  /** The low half of an entry says whether it is taken, its top bit whether it has a successor. */
  lemma {:induction false} EntryBits(e: Entry)
    ensures Vacant(e) <==> e << 4 == 0
    ensures HasNext(e) <==> e >= 0x80
  {
  }

  // ---------------------------------------------------------------- sizes

  /** The number of blocks needed for a size: the least n with n * BLOCK_SIZE >= size. */
  function BlocksFor(size: nat): (n: nat)
    ensures n * BLOCK_SIZE >= size
    ensures n > 0 ==> (n - 1) * BLOCK_SIZE < size
  {
    (size + BLOCK_SIZE - 1) / BLOCK_SIZE
  }

  /** Rounding up in 32-bit arithmetic: the last 4095 sizes wrap to 0. */
  function AlignValue(val: u32): u32 {
    if val % BLOCK_SIZE == 0 then val else Wrap32((val / BLOCK_SIZE + 1) * BLOCK_SIZE)
  }

  /** The wrap-around is the only difference from the exact block count. */
  lemma {:induction false} AlignValueCountsBlocks(size: u32)
    ensures AlignValue(size) / BLOCK_SIZE
         == if BlocksFor(size) < PAGE_COUNT then BlocksFor(size) else 0
  {
  }

  // ---------------------------------------------------------------- first fit

  /** n free entries in a row from block i. */
  predicate Fits(t: seq<Entry>, i: nat, n: nat) {
    i + n <= |t| && forall k :: i <= k < i + n ==> Vacant(t[k])
  }

  /** First fit searched from block i upwards: the least block that fits, if any does. */
  function FirstFitFrom(t: seq<Entry>, n: nat, i: nat): (r: Option<nat>)
    ensures r.Some? ==> n > 0 && i <= r.value && Fits(t, r.value, n)
    ensures r.Some? ==> forall j :: i <= j < r.value ==> !Fits(t, j, n)
    ensures r.None? ==> n == 0 || forall j :: i <= j ==> !Fits(t, j, n)
    decreases |t| - i
  {
    if n == 0 || i >= |t| then None
    else if Fits(t, i, n) then Some(i)
    else FirstFitFrom(t, n, i + 1)
  }

  function FirstFit(t: seq<Entry>, n: nat): (r: Option<nat>)
    ensures r.Some? ==> n > 0 && Fits(t, r.value, n) && forall j :: 0 <= j < r.value ==> !Fits(t, j, n)
    ensures r.None? ==> n == 0 || forall j :: 0 <= j ==> !Fits(t, j, n)
  {
    FirstFitFrom(t, n, 0)
  }

  // ---------------------------------------------------------------- marking and freeing

  /** The table after n blocks from start are marked as one chain. */
  function MarkTaken(t: seq<Entry>, start: nat, n: nat): (r: seq<Entry>)
    requires 0 < n && start + n <= |t|
    ensures |r| == |t|
  {
    seq(|t|, k requires 0 <= k < |t| =>
      if start <= k < start + n - 1 then TAKEN | HAS_NEXT
      else if k == start + n - 1 then TAKEN
      else t[k])
  }

  /** No entry claims a successor beyond the table. */
  predicate Terminated(t: seq<Entry>) {
    |t| == 0 || !HasNext(t[|t| - 1])
  }

  /** The block where the chain through block b ends. */
  function ChainEnd(t: seq<Entry>, b: nat): (r: nat)
    requires b < |t| && Terminated(t)
    ensures b <= r < |t| && !HasNext(t[r])
    ensures forall k :: b <= k < r ==> HasNext(t[k])
    decreases |t| - b
  {
    if HasNext(t[b]) then ChainEnd(t, b + 1) else b
  }

  /** The table after `heap_free` at block b: the chain is cleared up to, but without, its
      last block. */
  function ClearChain(t: seq<Entry>, b: nat): (r: seq<Entry>)
    requires b < |t| && Terminated(t)
    ensures |r| == |t|
  {
    var last := ChainEnd(t, b);
    seq(|t|, k requires 0 <= k < |t| => if b <= k < last then FREE else t[k])
  }

  // ---------------------------------------------------------------- the ledger

  /** What a block is: unused, part of a live run, or the tail that freeing left behind. */
  datatype Cell = Unused | Run(start: nat, length: nat) | Residue

  /** Block s starts a live run of n blocks. */
  predicate Live(c: seq<Cell>, s: nat, n: nat) {
    s < |c| && c[s] == Run(s, n)
  }

  /** Block k is part of a live run, whose blocks all agree about it. */
  ghost predicate RunAt(t: seq<Entry>, c: seq<Cell>, k: nat, s: nat, n: nat)
    requires k < |t| == |c|
  {
    && s <= k < s + n <= |t|
    && (forall j :: s <= j < s + n ==> c[j] == Run(s, n))
    && t[k] == if k == s + n - 1 then TAKEN else TAKEN | HAS_NEXT
  }

  /** The ledger c explains the table t, block by block. */
  ghost predicate Accounts(t: seq<Entry>, c: seq<Cell>) {
    && |c| == |t|
    && forall k :: 0 <= k < |t| ==>
         match c[k]
         case Unused => t[k] == FREE
         case Residue => t[k] == TAKEN
         case Run(s, n) => RunAt(t, c, k, s, n)
  }

  /** The ledger after a run of n blocks is handed out at s. */
  function Allot(c: seq<Cell>, s: nat, n: nat): (r: seq<Cell>)
    requires s + n <= |c|
    ensures |r| == |c|
  {
    seq(|c|, k requires 0 <= k < |c| => if s <= k < s + n then Run(s, n) else c[k])
  }

  /** The ledger after the run of n blocks at s is freed. */
  function Release(c: seq<Cell>, s: nat, n: nat): (r: seq<Cell>)
    requires 0 < n && s + n <= |c|
    ensures |r| == |c|
  {
    seq(|c|, k requires 0 <= k < |c| =>
      if s <= k < s + n - 1 then Unused else if k == s + n - 1 then Residue else c[k])
  }

  lemma {:induction false} EntryFacts()
    ensures Vacant(FREE) && !HasNext(FREE)
    ensures !Vacant(TAKEN) && !HasNext(TAKEN)
    ensures !Vacant(TAKEN | HAS_NEXT) && HasNext(TAKEN | HAS_NEXT)
  {
  }

  /** Every entry with a successor has one inside the table, and it is taken. */
  lemma {:induction false} SuccessorTaken(t: seq<Entry>, c: seq<Cell>, k: nat)
    requires Accounts(t, c) && k < |t| && HasNext(t[k])
    ensures k + 1 < |t| && !Vacant(t[k + 1])
  {
  }

  lemma {:induction false} AccountsTerminated(t: seq<Entry>, c: seq<Cell>)
    requires Accounts(t, c)
    ensures Terminated(t)
  {
  }

  /** Different live runs share no block. */
  lemma {:induction false} RunsDisjoint(t: seq<Entry>, c: seq<Cell>, s: nat, n: nat, s': nat, n': nat)
    requires Accounts(t, c) && Live(c, s, n) && Live(c, s', n') && s < s'
    ensures 0 < n && s + n <= s' && s' + n' <= |t|
  {
  }

  /** The chain of a live run ends at its last block. */
  lemma {:induction false} LiveChainEnd(t: seq<Entry>, c: seq<Cell>, s: nat, n: nat, k: nat)
    requires Accounts(t, c) && Live(c, s, n) && Terminated(t)
    requires s <= k < s + n
    ensures s + n <= |t| && ChainEnd(t, k) == s + n - 1
    decreases s + n - k
  {
    EntryFacts();
    assert RunAt(t, c, s, s, n);
    assert c[k] == Run(s, n);
    assert RunAt(t, c, k, s, n);
    if k < s + n - 1 {
      LiveChainEnd(t, c, s, n, k + 1);
    }
  }

  /** Handing out a free run keeps the table accounted for. */
  lemma {:induction false} MallocAccounts(t: seq<Entry>, c: seq<Cell>, s: nat, n: nat)
    requires Accounts(t, c) && 0 < n && Fits(t, s, n)
    ensures Accounts(MarkTaken(t, s, n), Allot(c, s, n))
    ensures forall k :: s <= k < s + n ==> c[k] == Unused
  {
    EntryFacts();
    var t', c' := MarkTaken(t, s, n), Allot(c, s, n);
    forall k | 0 <= k < |t|
      ensures Vacant(t[k]) ==> c[k] == Unused
    {
      if c[k].Run? {
        assert RunAt(t, c, k, c[k].start, c[k].length);
      }
    }
    forall k | 0 <= k < |t| && c'[k].Run?
      ensures RunAt(t', c', k, c'[k].start, c'[k].length)
    {
      if !(s <= k < s + n) {
        var Run(s', n') := c[k];
        assert RunAt(t, c, k, s', n');
        assert forall j :: s' <= j < s' + n' ==> c[j] != Unused && c'[j] == c[j];
      }
    }
  }

  /** Freeing a live run clears its entries but the last, which stays taken as residue,
      touches no other entry, and keeps the table accounted for. */
  lemma {:induction false} FreeAccounts(t: seq<Entry>, c: seq<Cell>, s: nat, n: nat)
    requires Accounts(t, c) && Live(c, s, n)
    ensures Terminated(t) && 0 < n && s + n <= |t|
    ensures Accounts(ClearChain(t, s), Release(c, s, n))
    ensures forall k :: 0 <= k < |t| ==>
              ClearChain(t, s)[k] == if s <= k < s + n - 1 then FREE else t[k]
  {
    EntryFacts();
    AccountsTerminated(t, c);
    assert RunAt(t, c, s, s, n);
    LiveChainEnd(t, c, s, n, s);
    var t', c' := ClearChain(t, s), Release(c, s, n);
    assert c[s + n - 1] == Run(s, n);
    assert RunAt(t, c, s + n - 1, s, n);
    forall k | 0 <= k < |t| && c'[k].Run?
      ensures RunAt(t', c', k, c'[k].start, c'[k].length)
    {
      var Run(s', n') := c[k];
      assert RunAt(t, c, k, s', n');
      assert forall j :: s' <= j < s' + n' ==> c[j] != Run(s, n) && c'[j] == c[j];
    }
  }

  /** Freeing at block b of an accounted table leaves a table that some ledger accounts for
      exactly when b starts a live run or its entry has no successor (and nothing happens):
      a pointer into the middle of a run breaks its chain for good. */
  lemma {:induction false} FreeKeepsTableIff(t: seq<Entry>, c: seq<Cell>, b: nat)
    requires Accounts(t, c) && b < |t|
    ensures Terminated(t)
    ensures (exists c' :: Accounts(ClearChain(t, b), c'))
       <==> !HasNext(t[b]) || (c[b].Run? && c[b].start == b)
  {
    EntryFacts();
    AccountsTerminated(t, c);
    var t' := ClearChain(t, b);
    if !HasNext(t[b]) {
      assert t' == t;
      assert Accounts(t', c);
    } else {
      var Run(s, n) := c[b];
      assert RunAt(t, c, b, s, n);
      assert c[s] == Run(s, n);
      if s == b {
        FreeAccounts(t, c, s, n);
        assert Accounts(t', Release(c, s, n));
      } else {
        assert c[b - 1] == Run(s, n);
        assert RunAt(t, c, b - 1, s, n);
        assert HasNext(t'[b - 1]) && Vacant(t'[b]);
        forall c' | Accounts(t', c') ensures false {
          SuccessorTaken(t', c', b - 1);
        }
      }
    }
  }

  // ---------------------------------------------------------------- conservation

  /** Taken entries among the first k. */
  function TakenUpTo(t: seq<Entry>, k: nat): nat
    requires k <= |t|
  {
    if k == 0 then 0 else TakenUpTo(t, k - 1) + (if Vacant(t[k - 1]) then 0 else 1)
  }

  function Taken(t: seq<Entry>): nat {
    TakenUpTo(t, |t|)
  }

  /** The lengths of the live runs that start among the first k blocks, added up. */
  function RunLengthsUpTo(c: seq<Cell>, k: nat): nat
    requires k <= |c|
  {
    if k == 0 then 0
    else
      RunLengthsUpTo(c, k - 1) +
      (if c[k - 1].Run? && c[k - 1].start == k - 1 then c[k - 1].length else 0)
  }

  function ResiduesUpTo(c: seq<Cell>, k: nat): nat
    requires k <= |c|
  {
    if k == 0 then 0 else ResiduesUpTo(c, k - 1) + (if c[k - 1].Residue? then 1 else 0)
  }

  /** How far the run around block k - 1 reaches beyond the first k blocks. */
  function Overhang(c: seq<Cell>, k: nat): int
    requires k <= |c|
  {
    if k > 0 && c[k - 1].Run? then c[k - 1].start + c[k - 1].length - k else 0
  }

  lemma {:induction false} ConservationUpTo(t: seq<Entry>, c: seq<Cell>, k: nat)
    requires Accounts(t, c) && k <= |t|
    ensures TakenUpTo(t, k) + Overhang(c, k) == RunLengthsUpTo(c, k) + ResiduesUpTo(c, k)
  {
    if k > 0 {
      EntryFacts();
      ConservationUpTo(t, c, k - 1);
      if c[k - 1].Run? {
        assert RunAt(t, c, k - 1, c[k - 1].start, c[k - 1].length);
      }
      if k > 1 && c[k - 2].Run? {
        assert RunAt(t, c, k - 2, c[k - 2].start, c[k - 2].length);
      }
    }
  }

  /** The taken entries are the live runs plus the residue, nothing else. */
  lemma {:induction false} Conservation(t: seq<Entry>, c: seq<Cell>)
    requires Accounts(t, c)
    ensures Taken(t) == RunLengthsUpTo(c, |c|) + ResiduesUpTo(c, |c|)
  {
    ConservationUpTo(t, c, |t|);
    if |t| > 0 && c[|t| - 1].Run? {
      assert RunAt(t, c, |t| - 1, c[|t| - 1].start, c[|t| - 1].length);
    }
  }

  lemma {:induction false} AllotKeepsResidues(c: seq<Cell>, s: nat, n: nat, k: nat)
    requires s + n <= |c| && k <= |c|
    requires forall j :: s <= j < s + n ==> c[j] == Unused
    ensures ResiduesUpTo(Allot(c, s, n), k) == ResiduesUpTo(c, k)
  {
    if k > 0 {
      AllotKeepsResidues(c, s, n, k - 1);
    }
  }

  lemma {:induction false} ReleaseAddsResidue(c: seq<Cell>, s: nat, n: nat, k: nat)
    requires 0 < n && s + n <= |c| && k <= |c|
    requires forall j :: s <= j < s + n ==> c[j] == Run(s, n)
    ensures ResiduesUpTo(Release(c, s, n), k) == ResiduesUpTo(c, k) + if s + n <= k then 1 else 0
  {
    if k > 0 {
      ReleaseAddsResidue(c, s, n, k - 1);
    }
  }

  /** Where n vacant entries from b on are the difference, so many more are taken. */
  lemma {:induction false} TakenDifference(t: seq<Entry>, t': seq<Entry>, b: nat, n: nat, k: nat)
    requires |t'| == |t| && b + n <= |t| && k <= |t|
    requires forall j :: b <= j < b + n ==> Vacant(t[j]) && !Vacant(t'[j])
    requires forall j :: 0 <= j < |t| && !(b <= j < b + n) ==> t'[j] == t[j]
    ensures TakenUpTo(t', k) == TakenUpTo(t, k) + if k <= b then 0 else if k <= b + n then k - b else n
  {
    if k > 0 {
      TakenDifference(t, t', b, n, k - 1);
    }
  }

  lemma {:induction false} TakenUpdate(t: seq<Entry>, b: nat, k: nat)
    requires b < |t| && k <= |t| && Vacant(t[b])
    ensures TakenUpTo(t[b := TAKEN], k) == TakenUpTo(t, k) + if b < k then 1 else 0
  {
    EntryFacts();
    if k > 0 {
      TakenUpdate(t, b, k - 1);
    }
  }

  /** Allocating any number of blocks and freeing them at once takes exactly one block out of
      the heap for good: the table differs in the last block of the run only. */
  lemma {:induction false} MallocThenFree(t: seq<Entry>, c: seq<Cell>, s: nat, n: nat)
    requires Accounts(t, c) && 0 < n && Fits(t, s, n)
    ensures Terminated(MarkTaken(t, s, n))
    ensures ClearChain(MarkTaken(t, s, n), s) == t[s + n - 1 := TAKEN]
    ensures Taken(ClearChain(MarkTaken(t, s, n), s)) == Taken(t) + 1
  {
    MallocAccounts(t, c, s, n);
    FreeAccounts(MarkTaken(t, s, n), Allot(c, s, n), s, n);
    assert ClearChain(MarkTaken(t, s, n), s) == t[s + n - 1 := TAKEN];
    TakenUpdate(t, s + n - 1, |t|);
  }

  lemma {:induction false} VacancyExists(t: seq<Entry>, k: nat)
    requires k <= |t| && TakenUpTo(t, k) < k
    ensures exists j :: 0 <= j < k && Fits(t, j, 1)
  {
    if Vacant(t[k - 1]) {
      assert Fits(t, k - 1, 1);
    } else {
      VacancyExists(t, k - 1);
    }
  }

  /** While any block is vacant, one block can be had, and one fewer is vacant afterwards. */
  lemma {:induction false} OneBlock(t: seq<Entry>)
    requires Taken(t) < |t|
    ensures FirstFit(t, 1).Some?
    ensures Taken(MarkTaken(t, FirstFit(t, 1).value, 1)) == Taken(t) + 1
  {
    VacancyExists(t, |t|);
    var b := FirstFit(t, 1).value;
    assert MarkTaken(t, b, 1) == t[b := TAKEN];
    TakenUpdate(t, b, |t|);
  }

  // ---------------------------------------------------------------- a repair

  /** REPAIR, not the kernel's code: freeing that clears the last block of the chain too. */
  function ClearWholeChain(t: seq<Entry>, b: nat): (r: seq<Entry>)
    requires b < |t| && Terminated(t)
    ensures |r| == |t|
  {
    var last := ChainEnd(t, b);
    seq(|t|, k requires 0 <= k < |t| => if b <= k <= last then FREE else t[k])
  }

  /** REPAIR: with the last block cleared as well, malloc then free is the identity. */
  lemma {:induction false} RepairedMallocThenFree(t: seq<Entry>, c: seq<Cell>, s: nat, n: nat)
    requires Accounts(t, c) && 0 < n && Fits(t, s, n)
    ensures Terminated(MarkTaken(t, s, n))
    ensures ClearWholeChain(MarkTaken(t, s, n), s) == t
  {
    MallocAccounts(t, c, s, n);
    AccountsTerminated(MarkTaken(t, s, n), Allot(c, s, n));
    LiveChainEnd(MarkTaken(t, s, n), Allot(c, s, n), s, n, s);
    assert forall k :: s <= k < s + n ==> c[k] == Unused;
  }
}
