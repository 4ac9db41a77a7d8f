/** A byte stream over a disk that is read one 512-byte sector at a time. */
module Streamer {
  import opened Machine

  const SECTOR_SIZE := 512

  /** The contents of the disk, by position. */
  type Disk = int -> u8

  type Sector = s: seq<u8> | |s| == SECTOR_SIZE witness seq(SECTOR_SIZE, _ => 0)

  /** What disk_read_block returns for a block address. */
  function ReadBlock(d: Disk, lba: int): Sector {
    seq<u8>(SECTOR_SIZE, i => d(SECTOR_SIZE * lba + i))
  }

  /** n bytes of the disk from position pos on. */
  function Bytes(d: Disk, pos: int, n: nat): (r: seq<u8>)
    ensures |r| == n
  {
    seq<u8>(n, i => d(pos + i))
  }

  /** A slice of a sector is what lies on the disk there. */
  lemma {:induction false} WithinSector(d: Disk, pos: int, n: nat)
    requires pos % SECTOR_SIZE + n <= SECTOR_SIZE
    ensures ReadBlock(d, pos / SECTOR_SIZE)[pos % SECTOR_SIZE..pos % SECTOR_SIZE + n] == Bytes(d, pos, n)
  {
  }

  /** The buffer s with the bytes b written over it from index at on. */
  function Splice(s: seq<u8>, at: nat, b: seq<u8>): (r: seq<u8>)
    requires at + |b| <= |s|
    ensures |r| == |s|
  {
    s[..at] + b + s[at + |b|..]
  }

  lemma {:induction false} SpliceTwice(s: seq<u8>, at: nat, a: seq<u8>, b: seq<u8>)
    requires at + |a| + |b| <= |s|
    ensures Splice(Splice(s, at, a), at + |a|, b) == Splice(s, at, a + b)
  {
  }

  /** Positions at which reading stays inside the sector buffer. */
  predicate Readable(pos: int) {
    pos >= 0 || pos % SECTOR_SIZE == 0
  }

  /** How many bytes a read of total bytes at pos delivers. */
  function Delivered(pos: int, total: nat): (k: nat)
    ensures k <= total
  {
    var offset := pos % SECTOR_SIZE;
    if total > SECTOR_SIZE then total - offset
    else if offset + total > SECTOR_SIZE then SECTOR_SIZE - offset
    else total
  }

  /** A read delivers everything it was asked for exactly when it starts on a sector boundary
      or stays inside one sector. */
  lemma {:induction false} DeliversAllIff(pos: int, total: nat)
    ensures Delivered(pos, total) == total
       <==> pos % SECTOR_SIZE == 0 || pos % SECTOR_SIZE + total <= SECTOR_SIZE
  {
  }

  /** Where a read ends: a short one at the end of its bytes or of the sector it starts in,
      whichever comes first; a long one where it would have ended from the start of the sector. */
  lemma {:induction false} DeliversUpTo(pos: int, total: nat)
    ensures total <= SECTOR_SIZE ==>
              pos + Delivered(pos, total) == if pos + total <= SECTOR_SIZE * (pos / SECTOR_SIZE + 1) then pos + total
                                             else SECTOR_SIZE * (pos / SECTOR_SIZE + 1)
    ensures total > SECTOR_SIZE ==> pos + Delivered(pos, total) == SECTOR_SIZE * (pos / SECTOR_SIZE) + total
  {
  }

  /** The buffer after a read, byte by byte: those that were delivered come from the disk, and all
      others are as they were. */
  lemma {:induction false} DeliveredBytes(d: Disk, pos: int, total: nat, s: seq<u8>, at: nat, s': seq<u8>)
    requires at + total <= |s| && s' == Splice(s, at, Bytes(d, pos, Delivered(pos, total)))
    ensures |s'| == |s|
    ensures forall k :: 0 <= k < |s| ==>
              s'[k] == if at <= k < at + Delivered(pos, total) then d(pos + (k - at)) else s[k]
  {
  }

  /** A long read is the rest of the current sector followed by an aligned read of all but
      512 bytes. */
  lemma {:induction false} LongRead(d: Disk, pos: int, total: nat)
    requires total > SECTOR_SIZE
    ensures var first, rest := SECTOR_SIZE - pos % SECTOR_SIZE, total - SECTOR_SIZE;
            && (pos + first) % SECTOR_SIZE == 0
            && Delivered(pos + first, rest) == rest
            && Delivered(pos, total) == first + rest
            && Bytes(d, pos, first) + Bytes(d, pos + first, rest) == Bytes(d, pos, first + rest)
  {
  }

  /** The buffer after a long read, put together from its two parts. */
  lemma {:induction false} LongReadBuffer(d: Disk, pos: int, total: nat, first: nat, rest: nat, out: seq<u8>, at: nat)
    requires total > SECTOR_SIZE && at + total <= |out|
    requires first == SECTOR_SIZE - pos % SECTOR_SIZE && rest == total - SECTOR_SIZE
    ensures Readable(pos + first)
    ensures first + Delivered(pos + first, rest) == Delivered(pos, total)
    ensures Splice(Splice(out, at, Bytes(d, pos, first)),
                   at + first, Bytes(d, pos + first, Delivered(pos + first, rest)))
         == Splice(out, at, Bytes(d, pos, Delivered(pos, total)))
  {
  }

  /** The copy loop of disk_stream_read. */
  method CopyOut(buf: Sector, offset: nat, n: nat, out: array<u8>, at: nat)
    requires offset + n <= SECTOR_SIZE && at + n <= out.Length
    modifies out
    ensures out[..] == Splice(old(out[..]), at, buf[offset..offset + n])
  {
    for i := 0 to n
      invariant forall k :: 0 <= k < out.Length ==>
                  out[k] == if at <= k < at + i then buf[offset + (k - at)] else old(out[k])
    {
      out[at + i] := buf[offset + i];
    }
  }

  /** disk_read_block and copying n bytes of the block out. */
  method CopyFromSector(d: Disk, pos: int, n: nat, out: array<u8>, at: nat)
    requires Readable(pos) && pos % SECTOR_SIZE + n <= SECTOR_SIZE && at + n <= out.Length
    modifies out
    ensures out[..] == Splice(old(out[..]), at, Bytes(d, pos, n))
  {
    WithinSector(d, pos, n);
    CopyOut(ReadBlock(d, pos / SECTOR_SIZE), pos % SECTOR_SIZE, n, out, at);
  }

  class DiskStream {
    const disk: Disk
    var pos: int

    constructor (disk: Disk)
      ensures this.disk == disk && pos == 0
    {
      this.disk, pos := disk, 0;
    }

    /** disk_stream_seek */
    method Seek(pos: int)
      modifies this
      ensures this.pos == pos
    {
      this.pos := pos;
    }

    /** disk_stream_read: consecutive bytes of the disk, as many as Delivered says. An unaligned
        read that crosses a sector comes back short, although it reports success. */
    method Read(out: array<u8>, at: nat, total: nat) returns (res: int)
      requires Readable(pos) && at + total <= out.Length
      modifies this, out
      ensures res == 0
      ensures pos == old(pos) + Delivered(old(pos), total)
      ensures out[..] == Splice(old(out[..]), at, Bytes(disk, old(pos), Delivered(old(pos), total)))
      decreases total
    {
      ghost var pos0, out0 := pos, out[..];
      var offset := pos % SECTOR_SIZE;
      var totalToRead := if total > SECTOR_SIZE then SECTOR_SIZE else total;
      var overflow := offset + totalToRead >= SECTOR_SIZE;
      if overflow {
        totalToRead := totalToRead - (offset + totalToRead - SECTOR_SIZE);
      }
      CopyFromSector(disk, pos, totalToRead, out, at);
      pos := pos + totalToRead;
      res := 0;
      if total > SECTOR_SIZE {
        var rest := total - SECTOR_SIZE;
        LongReadBuffer(disk, pos0, total, totalToRead, rest, out0, at);
        res := Read(out, at + totalToRead, rest);
      } else {
        assert totalToRead == Delivered(pos0, total);
      }
    }
  }
}
