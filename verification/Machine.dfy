/** The 32-bit machine the kernel runs on: words, wrap-around, pages and status codes. */
module Machine {

  const TWO_TO_THE_32 := 0x1_0000_0000
  const PAGE_SIZE := 4096
  const PAGE_COUNT := 0x10_0000

  type u32 = x: int | 0 <= x < TWO_TO_THE_32

  type u8 = x: int | 0 <= x < 256

  /** Status codes: the kernel returns 0 or the negation of one of these. */
  const EIO := 1
  const EINVARG := 2
  const ENOMEM := 3

  datatype Option<+T> = None | Some(value: T)

  /** Unsigned 32-bit wrap-around. */
  function Wrap32(x: int): u32 {
    x % TWO_TO_THE_32
  }

  /** A 32-bit word read as a signed integer. */
  function Signed(x: u32): int {
    if x < 0x8000_0000 then x else x - TWO_TO_THE_32
  }
}

/** Bitwise `|` and `&` on unbounded naturals, with the two facts about page addresses that
    the paging code depends on: `|` of an aligned address and small flags is their sum, and
    `& 0xfffff000` takes the address back out. */
module Bits {
  import opened Machine

  const FRAME_MASK := 0xffff_f000

  function Or(a: nat, b: nat): nat
    decreases a
  {
    if a == 0 then b
    else if b == 0 then a
    else 2 * Or(a / 2, b / 2) + (if a % 2 == 1 || b % 2 == 1 then 1 else 0)
  }

  function And(a: nat, b: nat): nat
    decreases a
  {
    if a == 0 || b == 0 then 0
    else 2 * And(a / 2, b / 2) + (if a % 2 == 1 && b % 2 == 1 then 1 else 0)
  }

  /** b shifted left by k bits. */
  function ShiftLeft(b: nat, k: nat): nat
    decreases k
  {
    if k == 0 then b else 2 * ShiftLeft(b, k - 1)
  }

  /** a shifted right by k bits. */
  function ShiftRight(a: nat, k: nat): nat
    decreases k
  {
    if k == 0 then a else ShiftRight(a / 2, k - 1)
  }

  /** The number whose k low bits, and no others, are set. */
  function Ones(k: nat): nat {
    if k == 0 then 0 else 2 * Ones(k - 1) + 1
  }

  lemma {:induction false} OrBound(a: nat, b: nat, k: nat)
    requires a <= Ones(k) && b <= Ones(k)
    ensures Or(a, b) <= Ones(k)
    decreases k
  {
    if k > 0 && a != 0 && b != 0 {
      OrBound(a / 2, b / 2, k - 1);
    }
  }

  /** `|` of a number whose k low bits are clear and one that fits in k bits is the sum. */
  lemma {:induction false} OrIsSum(m: nat, b: nat, k: nat)
    requires b <= Ones(k)
    ensures Or(ShiftLeft(m, k), b) == ShiftLeft(m, k) + b
    decreases k
  {
    if k > 0 && b != 0 && ShiftLeft(m, k) != 0 {
      OrIsSum(m, b / 2, k - 1);
    }
  }

  lemma {:induction false} AndOnes(a: nat, k: nat)
    requires a <= Ones(k)
    ensures And(a, Ones(k)) == a
    decreases k
  {
    if k > 0 && a != 0 {
      AndOnes(a / 2, k - 1);
    }
  }

  /** `&` with a number whose k low bits are clear ignores the k low bits. */
  lemma {:induction false} AndShifted(a: nat, m: nat, k: nat)
    ensures And(a, ShiftLeft(m, k)) == ShiftLeft(And(ShiftRight(a, k), m), k)
    decreases k
  {
    if k > 0 {
      AndShifted(a / 2, m, k - 1);
      if a == 0 || ShiftLeft(m, k) == 0 {
        assert And(a / 2, ShiftLeft(m, k - 1)) == 0;
      }
    }
  }

  lemma {:induction false} PageBits(x: nat)
    ensures ShiftLeft(x, 12) == PAGE_SIZE * x
    ensures ShiftRight(x, 12) == x / PAGE_SIZE
    ensures Ones(12) == PAGE_SIZE - 1 && Ones(20) == PAGE_COUNT - 1 && Ones(32) == TWO_TO_THE_32 - 1
  {
    assert ShiftLeft(x, 6) == 64 * x;
    assert ShiftLeft(x, 12) == 64 * ShiftLeft(x, 6);
    var y := x / 64;
    assert ShiftRight(x, 12) == ShiftRight(y, 6);
    assert Ones(4) == 15 && Ones(8) == 255 && Ones(12) == 4095;
    assert Ones(16) == 65535 && Ones(20) == 0xf_ffff && Ones(24) == 0xff_ffff;
    assert Ones(28) == 0xfff_ffff;
  }

  /** The address part of a table entry: `entry & 0xfffff000`. */
  function Frame(entry: u32): (frame: u32)
    ensures frame == entry - entry % PAGE_SIZE
  {
    FrameIsWord(entry);
    And(entry, FRAME_MASK)
  }

  lemma {:induction false} FrameIsWord(entry: u32)
    ensures And(entry, FRAME_MASK) == entry - entry % PAGE_SIZE
  {
    PageBits(PAGE_COUNT - 1);
    PageBits(entry);
    AndShifted(entry, Ones(20), 12);
    AndOnes(entry / PAGE_SIZE, 20);
    PageBits(entry / PAGE_SIZE);
  }

  /** `|` on machine words. */
  function OrWord(a: u32, b: u32): u32 {
    PageBits(0);
    OrBound(a, b, 32);
    Or(a, b)
  }

  lemma {:induction false} OrHalves(a: nat, b: nat)
    ensures Or(a, b) / 2 == Or(a / 2, b / 2)
    ensures Or(a, b) % 2 == if a % 2 == 1 || b % 2 == 1 then 1 else 0
  {
  }

  lemma {:induction false} OrAssociative(a: nat, b: nat, c: nat)
    ensures Or(Or(a, b), c) == Or(a, Or(b, c))
    decreases a
  {
    if a != 0 {
      OrAssociative(a / 2, b / 2, c / 2);
      OrHalves(a, b);
      OrHalves(b, c);
      OrHalves(Or(a, b), c);
      OrHalves(a, Or(b, c));
    }
  }

  /** An entry made of the page number of a frame and flags, as `address | flags`. */
  function MakeEntry(page: nat, flags: u32): u32
    requires page < PAGE_COUNT
  {
    OrWord(PAGE_SIZE * page, flags)
  }

  lemma {:induction false} AddressPlusFlags(page: nat, flags: nat)
    requires page < PAGE_COUNT && flags < PAGE_SIZE
    ensures MakeEntry(page, flags) == PAGE_SIZE * page + flags
  {
    PageBits(page);
    OrIsSum(page, flags, 12);
  }

  lemma {:induction false} ModOfSum(entry: nat, page: nat, flags: nat)
    requires entry == PAGE_SIZE * page + flags && flags < PAGE_SIZE
    ensures entry % PAGE_SIZE == flags && entry / PAGE_SIZE == page
  {
  }

  /** Flags below the page size share the word with the frame address without loss: masking
      gives the address back, and the low bits are the flags. */
  lemma {:induction false} EntryRoundTrip(page: nat, flags: nat)
    requires page < PAGE_COUNT && flags < PAGE_SIZE
    ensures MakeEntry(page, flags) == PAGE_SIZE * page + flags
    ensures MakeEntry(page, flags) % PAGE_SIZE == flags
    ensures Frame(MakeEntry(page, flags)) == PAGE_SIZE * page
  {
    AddressPlusFlags(page, flags);
    ModOfSum(MakeEntry(page, flags), page, flags);
  }

  /** The same for flags or-ed in one after the other, as directory entries are built. */
  lemma {:induction false} TwoFlagsRoundTrip(page: nat, flags: nat, more: nat)
    requires page < PAGE_COUNT && flags < PAGE_SIZE && more < PAGE_SIZE
    ensures Frame(OrWord(MakeEntry(page, flags), more)) == PAGE_SIZE * page
  {
    OrAssociative(PAGE_SIZE * page, flags, more);
    PageBits(0);
    OrBound(flags, more, 12);
    EntryRoundTrip(page, Or(flags, more));
  }
}
