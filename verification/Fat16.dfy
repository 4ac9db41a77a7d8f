/** A FAT16 volume as a value: the cluster chain, what a file contains, and what the recursive
    reader does to its output buffer. */
module ClusterChain {
  import opened Machine
  import opened Streamer

  const FAT_ENTRY_SIZE := 2

  /** The parts of the boot sector and root directory that file reads depend on. */
  datatype VolumeData = VolumeData(disk: Disk, reservedSectors: nat, sectorsPerCluster: nat, rootEnd: u32)

  type Volume = v: VolumeData | v.reservedSectors < 0x1_0000 && 0 < v.sectorsPerCluster < 256
    witness VolumeData(_ => 0, 0, 1, 0)

  function ClusterSize(v: Volume): (size: nat)
    ensures size > 0 && size % SECTOR_SIZE == 0
  {
    v.sectorsPerCluster * SECTOR_SIZE
  }

  // ---------------------------------------------------------------- the chain

  /** Where fat16_get_fat_entry looks: the start of the table times, not plus, the offset. */
  function FatEntryPos(v: Volume, cluster: int): int {
    Signed(Wrap32(v.reservedSectors * SECTOR_SIZE * Wrap32(cluster * FAT_ENTRY_SIZE)))
  }

  /** The table entry of a cluster, as fat16_get_fat_entry returns it. */
  function Next(v: Volume, cluster: int): (entry: nat)
    ensures entry < 0x1_0000
  {
    v.disk(FatEntryPos(v, cluster)) + 256 * v.disk(FatEntryPos(v, cluster) + 1)
  }

  /** The entry is the two bytes at the product of the position of the table and of the offset in
      it, low byte first, as long as the product is a positive signed word. */
  lemma {:induction false} EntryBytes(v: Volume, cluster: nat)
    requires SECTOR_SIZE * v.reservedSectors * (2 * cluster) < 0x8000_0000
    ensures var place := 512 * v.reservedSectors * (2 * cluster);
            FatEntryPos(v, cluster) == place && Next(v, cluster) == v.disk(place) + 256 * v.disk(place + 1)
  {
    ProductInRange(SECTOR_SIZE * v.reservedSectors, 2 * cluster);
  }

  lemma {:induction false} ProductInRange(a: nat, b: nat)
    requires a * b < 0x8000_0000
    ensures a > 0 ==> b < TWO_TO_THE_32
    ensures a == 0 ==> a * Wrap32(b) == 0
  {
    if a > 0 {
      assert a * b >= b;
    }
  }

  /** That is the place of the entry, which is a sum, for no table and no cluster but one: there is
      no reserved sector, and the cluster is 0. */
  lemma {:induction false} EntryInPlaceIff(v: Volume, cluster: nat)
    requires SECTOR_SIZE * v.reservedSectors * (2 * cluster) < 0x8000_0000
    ensures FatEntryPos(v, cluster) == 512 * v.reservedSectors + 2 * cluster
       <==> v.reservedSectors == 0 && cluster == 0
  {
    EntryBytes(v, cluster);
    ProductIsSum(SECTOR_SIZE * v.reservedSectors, 2 * cluster);
  }

  lemma {:induction false} ProductIsSum(a: nat, b: nat)
    requires a == 0 || a > 2
    requires b != 1
    ensures a * b == a + b <==> a == 0 && b == 0
  {
    if a == 0 {
      assert a * b == 0;
    } else if b == 0 {
      assert a * b == 0;
    } else {
      TimesAtLeast(a, b, 2);
      TimesAtLeast(b, a, 3);
    }
  }

  lemma {:induction false} TimesAtLeast(a: nat, b: nat, c: nat)
    requires b >= c
    ensures a * b >= a * c && a * b == b * a
  {
    assert a * b == a * c + a * (b - c);
  }

  /** Entries at which a walk along the chain gives up. */
  predicate IsStop(entry: int) {
    entry in {0xFF8, 0xFFF, 0xFF7, 0xFF0, 0xFF6, 0}
  }

  /** They are 0 and five 12-bit values; no marker of a 16-bit table is among them. */
  lemma {:induction false} StopMarkers(entry: int)
    ensures IsStop(entry) ==> 0 <= entry < 0x1000
    ensures 0 < entry < 0xFF0 || 0xFF0 < entry < 0xFF6 || 0xFF7 < entry < 0xFF8 || 0xFF8 < entry < 0xFFF
            ==> !IsStop(entry)
    ensures entry in {0, 0xFF0, 0xFF6, 0xFF7, 0xFF8, 0xFFF} ==> IsStop(entry)
    ensures entry >= 0xFFF0 ==> !IsStop(entry)
  {
  }

  /** The cluster n hops along the chain, unless a stop marker is met on the way. */
  function Walk(v: Volume, cluster: nat, n: nat): (r: Option<nat>)
    decreases n
  {
    if n == 0 then Some(cluster)
    else if IsStop(Next(v, cluster)) then None
    else Walk(v, Next(v, cluster), n - 1)
  }

  lemma {:induction false} WalkSnoc(v: Volume, cluster: nat, n: nat)
    ensures Walk(v, cluster, 0) == Some(cluster)
    ensures Walk(v, cluster, n + 1)
         == match Walk(v, cluster, n)
            case None => None
            case Some(c) => if IsStop(Next(v, c)) then None else Some(Next(v, c))
    decreases n
  {
    if n > 0 && !IsStop(Next(v, cluster)) {
      WalkSnoc(v, Next(v, cluster), n - 1);
    }
  }

  /** A longer walk passes through every shorter one. */
  lemma {:induction false} WalkPrefix(v: Volume, cluster: nat, m: nat, n: nat)
    requires m <= n && Walk(v, cluster, n).Some?
    ensures Walk(v, cluster, m).Some?
    decreases m
  {
    if m > 0 {
      WalkPrefix(v, Next(v, cluster), m - 1, n - 1);
    }
  }

  // ---------------------------------------------------------------- contents

  /** Position on the disk of a byte offset in a cluster, as the reader computes it. */
  function StartPos(v: Volume, cluster: nat, offset: int): int {
    Signed(Wrap32(Wrap32(v.rootEnd + (cluster - 2) * v.sectorsPerCluster) * SECTOR_SIZE + offset))
  }

  /** The data area begins with cluster 2, at the end of the root directory, and each cluster takes
      its sectors from there on. */
  lemma {:induction false} ClusterPlace(v: Volume, cluster: nat, offset: int)
    ensures var place := 512 * (v.rootEnd + (cluster - 2) * v.sectorsPerCluster) + offset;
            -0x8000_0000 <= place < 0x8000_0000 ==> StartPos(v, cluster, offset) == place
    ensures v.rootEnd < 0x40_0000 ==> StartPos(v, 2, 0) == 512 * v.rootEnd
  {
    var sector := v.rootEnd + (cluster - 2) * v.sectorsPerCluster;
    SectorPlace(sector, offset);
    assert (2 - 2) * v.sectorsPerCluster == 0;
    SectorPlace(v.rootEnd, 0);
  }

  lemma {:induction false} SectorPlace(sector: int, offset: int)
    ensures var place := SECTOR_SIZE * sector + offset;
            -0x8000_0000 <= place < 0x8000_0000 ==> Signed(Wrap32(Wrap32(sector) * SECTOR_SIZE + offset)) == place
  {
    var q, r := sector / TWO_TO_THE_32, sector % TWO_TO_THE_32;
    assert r * SECTOR_SIZE + offset == SECTOR_SIZE * sector + offset - TWO_TO_THE_32 * (SECTOR_SIZE * q);
    WrapMinus(SECTOR_SIZE * sector + offset, SECTOR_SIZE * q);
  }

  lemma {:induction false} WrapMinus(x: int, q: int)
    ensures Wrap32(x - TWO_TO_THE_32 * q) == Wrap32(x)
  {
  }

  function ClusterBytes(v: Volume, cluster: nat): seq<u8> {
    Bytes(v.disk, StartPos(v, cluster, 0), ClusterSize(v))
  }

  /** The first n clusters of the chain from a cluster, put together. */
  function Content(v: Volume, cluster: nat, n: nat): seq<u8>
    decreases n
  {
    if n == 0 then [] else ClusterBytes(v, cluster) + Content(v, Next(v, cluster), n - 1)
  }

  lemma {:induction false} ContentLength(v: Volume, cluster: nat, n: nat, size: nat)
    requires size == ClusterSize(v)
    ensures |Content(v, cluster, n)| == n * size
    decreases n
  {
    if n > 0 {
      ContentLength(v, Next(v, cluster), n - 1, size);
      assert n * size == (n - 1) * size + size;
    }
  }

  /** The contents after k clusters continue with the cluster the walk has reached. */
  lemma {:induction false} ContentSplit(v: Volume, cluster: nat, k: nat, m: nat)
    requires Walk(v, cluster, k).Some?
    ensures Content(v, cluster, k + m) == Content(v, cluster, k) + Content(v, Walk(v, cluster, k).value, m)
    decreases k
  {
    if k > 0 {
      ContentSplit(v, Next(v, cluster), k - 1, m);
    }
  }

  // ---------------------------------------------------------------- the reader

  /** Clusters touched by a cluster-aligned read of total bytes; even an empty read looks up one. */
  function ClustersFor(v: Volume, total: nat): (n: nat)
    ensures n > 0
    decreases total
  {
    if total <= ClusterSize(v) then 1 else 1 + ClustersFor(v, total - ClusterSize(v))
  }

  lemma {:induction false} ContentCoversRead(v: Volume, cluster: nat, total: nat)
    ensures total <= |Content(v, cluster, ClustersFor(v, total))|
    decreases total
  {
    if total <= ClusterSize(v) {
      assert Content(v, cluster, 1) == ClusterBytes(v, cluster) + Content(v, Next(v, cluster), 0);
    } else {
      ContentCoversRead(v, Next(v, cluster), total - ClusterSize(v));
    }
  }

  /** A buffer after one step of the reader has filled it from a cluster: with fewer bytes than
      it holds if the step starts inside a sector and crosses its end. */
  function ReadChunk(v: Volume, cluster: nat, offset: nat, buf: seq<u8>): (r: seq<u8>)
    ensures |r| == |buf|
  {
    var pos := StartPos(v, cluster, offset);
    Splice(buf, 0, Bytes(v.disk, pos, Delivered(pos, |buf|)))
  }

  /** fat16_read_internal_from_stream from byte offset of the k-th cluster, for any offset: its
      status and the buffer it leaves. Each step walks the chain from the start and reads at
      most one cluster's worth of bytes. */
  function ReadRun(v: Volume, start: nat, k: nat, offset: nat, buf: seq<u8>): (r: (int, seq<u8>))
    ensures |r.1| == |buf|
    decreases |buf|
  {
    var size := ClusterSize(v);
    match Walk(v, start, k)
    case None => (-EIO, buf)
    case Some(c) =>
      if |buf| <= size then (0, ReadChunk(v, c, offset, buf))
      else
        var rest := ReadRun(v, start, k + 1, offset, buf[size..]);
        (rest.0, ReadChunk(v, c, offset, buf[..size]) + rest.1)
  }

  /** The cluster of the file that a byte offset falls in, counted one cluster at a time. */
  function ClusterIndex(offset: nat, size: nat): nat
    requires size > 0
    decreases offset
  {
    if offset < size then 0 else 1 + ClusterIndex(offset - size, size)
  }

  /** The place in its cluster of a byte offset. */
  function WithinCluster(offset: nat, size: nat): (r: nat)
    requires size > 0
    ensures r < size
    decreases offset
  {
    if offset < size then offset else WithinCluster(offset - size, size)
  }

  lemma {:induction false} DivisionCountsClusters(offset: nat, size: nat)
    requires size > 0
    ensures offset / size == ClusterIndex(offset, size) && offset % size == WithinCluster(offset, size)
    decreases offset
  {
    if offset < size {
      QuotientUnique(offset, size, 0, offset);
    } else {
      DivisionCountsClusters(offset - size, size);
      var q, r := (offset - size) / size, (offset - size) % size;
      assert offset == (q + 1) * size + r;
      QuotientUnique(offset, size, q + 1, r);
    }
  }

  lemma {:induction false} QuotientUnique(a: nat, size: nat, q: nat, r: nat)
    requires size > 0 && a == q * size + r && r < size
    ensures a / size == q && a % size == r
  {
    var q', r' := a / size, a % size;
    assert q' * size + r' == q * size + r;
    assert (q' - q) * size == r - r';
    assert q' - q >= 1 ==> (q' - q) * size >= size;
    assert q - q' >= 1 ==> (q - q') * size >= size;
  }

  lemma {:induction false} AlignedStart(v: Volume, c: nat)
    ensures StartPos(v, c, 0) % SECTOR_SIZE == 0
  {
    var w := Wrap32(v.rootEnd + (c - 2) * v.sectorsPerCluster);
    WrapAligned(w);
  }

  lemma {:induction false} WrapAligned(w: u32)
    ensures Signed(Wrap32(w * SECTOR_SIZE)) % SECTOR_SIZE == 0
  {
  }

  /** A step from a cluster boundary delivers the cluster, as far as the buffer goes. */
  lemma {:induction false} AlignedChunk(v: Volume, c: nat, buf: seq<u8>)
    requires |buf| <= ClusterSize(v)
    ensures ReadChunk(v, c, 0, buf) == ClusterBytes(v, c)[..|buf|]
    ensures |buf| == ClusterSize(v) ==> ReadChunk(v, c, 0, buf) == ClusterBytes(v, c)
  {
    AlignedStart(v, c);
    DeliversAllIff(StartPos(v, c, 0), |buf|);
    assert ClusterBytes(v, c)[..ClusterSize(v)] == ClusterBytes(v, c);
  }

  lemma {:induction false} ContentHead(v: Volume, c: nat, n: nat, len: nat)
    requires 0 < n && len <= |Content(v, c, n)|
    ensures len <= ClusterSize(v) ==> Content(v, c, n)[..len] == ClusterBytes(v, c)[..len]
    ensures len > ClusterSize(v) ==>
              Content(v, c, n)[..len]
              == ClusterBytes(v, c) + Content(v, Next(v, c), n - 1)[..len - ClusterSize(v)]
  {
    var tail := Content(v, Next(v, c), n - 1);
    assert Content(v, c, n) == ClusterBytes(v, c) + tail;
  }

  /** From a cluster boundary the recursion delivers the contents of the file from there on. */
  lemma {:induction false} AlignedRun(v: Volume, start: nat, k: nat, c: nat, buf: seq<u8>, n: nat)
    requires Walk(v, start, k) == Some(c)
    requires n == ClustersFor(v, |buf|) && Walk(v, start, k + n - 1).Some?
    ensures |buf| <= |Content(v, c, n)|
    ensures ReadRun(v, start, k, 0, buf).0 == 0
    ensures ReadRun(v, start, k, 0, buf).1 == Content(v, c, n)[..|buf|]
    decreases |buf|
  {
    ContentCoversRead(v, c, |buf|);
    ContentHead(v, c, n, |buf|);
    var size := ClusterSize(v);
    if |buf| <= size {
      AlignedChunk(v, c, buf);
    } else {
      WalkPrefix(v, start, k + 1, k + n - 1);
      WalkSnoc(v, start, k);
      AlignedRun(v, start, k + 1, Next(v, c), buf[size..], n - 1);
      AlignedChunk(v, c, buf[..size]);
    }
  }

  /** A stop marker on the way to any cluster the read needs fails the read. */
  lemma {:induction false} StoppedRun(v: Volume, start: nat, k: nat, offset: nat, buf: seq<u8>, n: nat)
    requires n == ClustersFor(v, |buf|)
    ensures ReadRun(v, start, k, offset, buf).0 == if Walk(v, start, k + n - 1).Some? then 0 else -EIO
    decreases |buf|
  {
    if Walk(v, start, k + n - 1).Some? {
      WalkPrefix(v, start, k, k + n - 1);
    }
    if |buf| > ClusterSize(v) {
      StoppedRun(v, start, k + 1, offset, buf[ClusterSize(v)..], n - 1);
    }
  }

  lemma {:induction false} SliceOfTail(a: seq<u8>, b: seq<u8>, n: nat)
    requires n <= |b|
    ensures (a + b)[|a|..|a| + n] == b[..n]
  {
  }

  /** Reading a whole number of clusters and then some more is the same as reading it all. */
  lemma {:induction false} ReadRunAppend(v: Volume, start: nat, k: nat, within: nat, a: seq<u8>, b: seq<u8>,
                                         size: nat, ra: (int, seq<u8>), rb: (int, seq<u8>))
    requires size == ClusterSize(v) && a != [] && b != [] && WithinCluster(|a|, size) == 0
    requires ra == ReadRun(v, start, k, within, a)
    requires rb == ReadRun(v, start, k + ClusterIndex(|a|, size), within, b)
    ensures ReadRun(v, start, k, within, a + b).0 == if ra.0 == 0 then rb.0 else -EIO
    ensures ReadRun(v, start, k, within, a + b).1 == ra.1 + if ra.0 == 0 then rb.1 else b
    decreases |a|
  {
    assert |a| >= size;
    assert (a + b)[..size] == a[..size] && (a + b)[size..] == a[size..] + b;
    match Walk(v, start, k)
    case None =>
    case Some(c) =>
      ReadRunHead(v, start, k, c, within, a + b, size);
      if |a| == size {
        assert a[size..] + b == b && a[..size] == a;
      } else {
        var ra' := ReadRun(v, start, k + 1, within, a[size..]);
        ReadRunHead(v, start, k, c, within, a, size);
        ReadRunAppend(v, start, k + 1, within, a[size..], b, size, ra', rb);
        JoinThree(ReadChunk(v, c, within, a[..size]), ra'.1, if ra.0 == 0 then rb.1 else b);
      }
  }

  lemma {:induction false} ReadRunHead(v: Volume, start: nat, k: nat, c: nat, within: nat, buf: seq<u8>, size: nat)
    requires size == ClusterSize(v) < |buf| && Walk(v, start, k) == Some(c)
    ensures var rest := ReadRun(v, start, k + 1, within, buf[size..]);
            && ReadRun(v, start, k, within, buf).0 == rest.0
            && ReadRun(v, start, k, within, buf).1 == ReadChunk(v, c, within, buf[..size]) + rest.1
  {
  }

  lemma {:induction false} JoinThree(a: seq<u8>, b: seq<u8>, c: seq<u8>)
    ensures a + (b + c) == a + b + c
  {
  }

  lemma {:induction false} ClusterIndexAdds(a: nat, b: nat, size: nat)
    requires size > 0 && WithinCluster(a, size) == 0
    ensures ClusterIndex(a + b, size) == ClusterIndex(a, size) + ClusterIndex(b, size)
    ensures WithinCluster(a + b, size) == WithinCluster(b, size)
    decreases a
  {
    if a >= size {
      ClusterIndexAdds(a - size, b, size);
    }
  }

  lemma {:induction false} ClusterIndexProduct(offset: nat, size: nat)
    requires size > 0 && WithinCluster(offset, size) == 0
    ensures offset == ClusterIndex(offset, size) * size
    decreases offset
  {
    if offset >= size {
      ClusterIndexProduct(offset - size, size);
    }
  }

  lemma {:induction false} SliceInContent(v: Volume, start: nat, pos: nat, total: nat, k: nat, n: nat)
    requires pos == k * ClusterSize(v) && n == ClustersFor(v, total)
    requires Walk(v, start, k).Some?
    ensures pos + total <= |Content(v, start, k + n)|
  {
    ContentLength(v, start, k, ClusterSize(v));
    ContentSplit(v, start, k, n);
    ContentCoversRead(v, Walk(v, start, k).value, total);
  }

  /** The total bytes of a file from a cluster boundary on: a slice of its clusters put together,
      if no stop marker comes before the last cluster needed. */
  function FileSlice(v: Volume, start: nat, pos: nat, total: nat): (r: Option<seq<u8>>)
    requires WithinCluster(pos, ClusterSize(v)) == 0
    ensures r.Some? ==> |r.value| == total
  {
    var k, n := ClusterIndex(pos, ClusterSize(v)), ClustersFor(v, total);
    if Walk(v, start, k + n - 1).None? then None
    else
      WalkPrefix(v, start, k, k + n - 1);
      ClusterIndexProduct(pos, ClusterSize(v));
      SliceInContent(v, start, pos, total, k, n);
      Some(Content(v, start, k + n)[pos..pos + total])
  }

  /** The read law. From an offset on a cluster boundary, the reader fills its buffer with
      exactly the slice of the file's contents it was asked for, or fails if there is none. */
  lemma {:induction false} ReadIsSlice(v: Volume, start: nat, pos: nat, buf: seq<u8>, k: nat, slice: Option<seq<u8>>)
    requires WithinCluster(pos, ClusterSize(v)) == 0 && k == ClusterIndex(pos, ClusterSize(v))
    requires slice == FileSlice(v, start, pos, |buf|)
    ensures match slice
            case None => ReadRun(v, start, k, 0, buf).0 == -EIO
            case Some(bytes) => ReadRun(v, start, k, 0, buf) == (0, bytes)
  {
    var n := ClustersFor(v, |buf|);
    StoppedRun(v, start, k, 0, buf, n);
    if slice.Some? {
      WalkPrefix(v, start, k, k + n - 1);
      var c := Walk(v, start, k).value;
      ClusterIndexProduct(pos, ClusterSize(v));
      AlignedRun(v, start, k, c, buf, n);
      ContentLength(v, start, k, ClusterSize(v));
      ContentSplit(v, start, k, n);
      SliceOfTail(Content(v, start, k), Content(v, c, n), |buf|);
    }
  }

  // ---------------------------------------------------------------- bytes on the disk

  /** b is the byte at a position of the file that starts in a cluster: it lies in the cluster that
      the chain leads to, if that is below 2 GB. */
  ghost predicate IsFileByte(v: Volume, start: nat, pos: nat, b: u8) {
    var within := WithinCluster(pos, ClusterSize(v));
    match Walk(v, start, ClusterIndex(pos, ClusterSize(v)))
    case None => false
    case Some(c) =>
      var place := 512 * (v.rootEnd + (c - 2) * v.sectorsPerCluster);
      0 <= place && place + within < 0x8000_0000 ==> b == v.disk(place + within)
  }

  ghost predicate AreFileBytes(v: Volume, start: nat, pos: nat, bytes: seq<u8>) {
    forall j {:trigger bytes[j]} :: 0 <= j < |bytes| ==> IsFileByte(v, start, pos + j, bytes[j])
  }

  lemma {:induction false} ContentByte(v: Volume, start: nat, n: nat, pos: nat, size: nat)
    requires size == ClusterSize(v) && n > 0 && Walk(v, start, n - 1).Some? && pos < |Content(v, start, n)|
    ensures Walk(v, start, ClusterIndex(pos, size)).Some?
    ensures Content(v, start, n)[pos]
         == v.disk(StartPos(v, Walk(v, start, ClusterIndex(pos, size)).value, 0) + WithinCluster(pos, size))
    decreases n
  {
    var next := Content(v, Next(v, start), n - 1);
    assert Content(v, start, n) == ClusterBytes(v, start) + next;
    if pos < size {
      assert Content(v, start, n)[pos] == ClusterBytes(v, start)[pos];
    } else {
      ContentByte(v, Next(v, start), n - 1, pos - size, size);
      assert Content(v, start, n)[pos] == next[pos - size];
    }
  }

  /** Every byte of a slice of a file is where the file system has put it. */
  lemma {:induction false} SliceByte(v: Volume, start: nat, pos: nat, total: nat, slice: Option<seq<u8>>, j: nat)
    requires WithinCluster(pos, ClusterSize(v)) == 0 && slice == FileSlice(v, start, pos, total)
    requires slice.Some? && j < total
    ensures IsFileByte(v, start, pos + j, slice.value[j])
  {
    var size, k, n := ClusterSize(v), ClusterIndex(pos, ClusterSize(v)), ClustersFor(v, total);
    WalkPrefix(v, start, k, k + n - 1);
    ClusterIndexProduct(pos, size);
    SliceInContent(v, start, pos, total, k, n);
    ContentByte(v, start, k + n, pos + j, size);
    ClusterPlace(v, Walk(v, start, ClusterIndex(pos + j, size)).value, 0);
  }

  lemma {:induction false} SliceBytes(v: Volume, start: nat, pos: nat, total: nat, slice: Option<seq<u8>>)
    requires WithinCluster(pos, ClusterSize(v)) == 0 && slice == FileSlice(v, start, pos, total)
    ensures slice.Some? ==> AreFileBytes(v, start, pos, slice.value)
  {
    if slice.Some? {
      forall j | 0 <= j < total
        ensures IsFileByte(v, start, pos + j, slice.value[j])
      {
        SliceByte(v, start, pos, total, slice, j);
      }
    }
  }

  /** A step of the reader, from any offset, brings bytes of the cluster from that offset on. */
  lemma {:induction false} ChunkBytes(v: Volume, c: nat, offset: nat, buf: seq<u8>, place: nat)
    requires place == 512 * (v.rootEnd + (c - 2) * v.sectorsPerCluster) + offset < 0x8000_0000
    ensures forall j :: 0 <= j < |buf| ==>
              ReadChunk(v, c, offset, buf)[j] == if j < Delivered(place, |buf|) then v.disk(place + j) else buf[j]
  {
    ClusterPlace(v, c, offset);
  }

  // ---------------------------------------------------------------- items

  /** The bytes of n items of a size. */
  function ItemBytes(size: nat, n: nat): nat {
    if n == 0 then 0 else size + ItemBytes(size, n - 1)
  }

  function Join(a: Option<seq<u8>>, b: Option<seq<u8>>): Option<seq<u8>> {
    if a.None? || b.None? then None else Some(a.value + b.value)
  }

  lemma {:induction false} JoinEmpty(a: Option<seq<u8>>)
    ensures Join(a, Some([])) == a == Join(Some([]), a)
  {
    if a.Some? {
      assert a.value + [] == a.value == [] + a.value;
    }
  }

  /** Items of a size can be read one after the other from cluster boundaries: all but the last
      are whole clusters. */
  predicate OnBoundaries(v: Volume, pos: nat, size: nat, n: nat) {
    && (n > 0 ==> WithinCluster(pos, ClusterSize(v)) == 0)
    && (n > 1 ==> WithinCluster(size, ClusterSize(v)) == 0)
  }

  lemma {:induction false} NextOnBoundary(v: Volume, pos: nat, size: nat, n: nat)
    requires n > 0 && OnBoundaries(v, pos, size, n)
    ensures OnBoundaries(v, pos + size, size, n - 1)
  {
    ClusterIndexAdds(pos, size, ClusterSize(v));
  }

  /** The slices of n items in a row, put together, if all of them can be read. */
  function ItemSlices(v: Volume, start: nat, pos: nat, size: nat, n: nat): (r: Option<seq<u8>>)
    requires OnBoundaries(v, pos, size, n)
    ensures r.Some? ==> |r.value| == ItemBytes(size, n)
    decreases n
  {
    if n == 0 then Some([])
    else
      NextOnBoundary(v, pos, size, n);
      Join(FileSlice(v, start, pos, size), ItemSlices(v, start, pos + size, size, n - 1))
  }

  /** A slice is what the reader makes of any buffer of its length. */
  lemma {:induction false} SliceOfRun(v: Volume, start: nat, pos: nat, buf: seq<u8>, k: nat, run: (int, seq<u8>))
    requires WithinCluster(pos, ClusterSize(v)) == 0 && k == ClusterIndex(pos, ClusterSize(v))
    requires run == ReadRun(v, start, k, 0, buf)
    ensures FileSlice(v, start, pos, |buf|) == if run.0 == 0 then Some(run.1) else None
  {
    ReadIsSlice(v, start, pos, buf, k, FileSlice(v, start, pos, |buf|));
  }

  /** A slice of whole clusters followed by another slice is one slice. */
  lemma {:induction false} SlicesJoin(v: Volume, start: nat, pos: nat, a: nat, b: nat, size: nat)
    requires size == ClusterSize(v)
    requires WithinCluster(pos, size) == 0 && WithinCluster(a, size) == 0 && a > 0 && b > 0
    ensures WithinCluster(pos + a, size) == 0
    ensures FileSlice(v, start, pos, a + b) == Join(FileSlice(v, start, pos, a), FileSlice(v, start, pos + a, b))
  {
    ClusterIndexAdds(pos, a, size);
    var k, k' := ClusterIndex(pos, size), ClusterIndex(pos + a, size);
    var bufA: seq<u8>, bufB: seq<u8> := seq(a, _ => 0), seq(b, _ => 0);
    var ra, rb := ReadRun(v, start, k, 0, bufA), ReadRun(v, start, k', 0, bufB);
    var run := ReadRun(v, start, k, 0, bufA + bufB);
    ReadRunAppend(v, start, k, 0, bufA, bufB, size, ra, rb);
    SliceOfRun(v, start, pos, bufA, k, ra);
    SliceOfRun(v, start, pos + a, bufB, k', rb);
    SliceOfRun(v, start, pos, bufA + bufB, k, run);
  }

  /** Reading items of whole clusters is reading one slice of all their bytes. */
  lemma {:induction false} ItemsAreOneSlice(v: Volume, start: nat, pos: nat, size: nat, n: nat)
    requires n > 0 && size > 0 && OnBoundaries(v, pos, size, n)
    ensures ItemSlices(v, start, pos, size, n) == FileSlice(v, start, pos, ItemBytes(size, n))
    decreases n
  {
    NextOnBoundary(v, pos, size, n);
    var first, rest := FileSlice(v, start, pos, size), ItemSlices(v, start, pos + size, size, n - 1);
    assert ItemSlices(v, start, pos, size, n) == Join(first, rest);
    if n == 1 {
      assert rest == Some([]) && ItemBytes(size, 1) == size;
      JoinEmpty(first);
    } else {
      var b := ItemBytes(size, n - 1);
      ItemsAreOneSlice(v, start, pos + size, size, n - 1);
      SlicesJoin(v, start, pos, size, b, ClusterSize(v));
    }
  }

  /** So every byte of the items is where the file system has put it. */
  lemma {:induction false} ItemsBytes(v: Volume, start: nat, pos: nat, size: nat, n: nat, items: Option<seq<u8>>)
    requires OnBoundaries(v, pos, size, n) && items == ItemSlices(v, start, pos, size, n)
    ensures items.Some? ==> AreFileBytes(v, start, pos, items.value)
  {
    if n > 0 && size > 0 {
      ItemsAreOneSlice(v, start, pos, size, n);
      SliceBytes(v, start, pos, ItemBytes(size, n), items);
    } else {
      NoItemBytes(size, n);
    }
  }

  lemma {:induction false} NoItemBytes(size: nat, n: nat)
    requires size == 0 || n == 0
    ensures ItemBytes(size, n) == 0
  {
    if n > 0 {
      NoItemBytes(size, n - 1);
    }
  }

  /** Of the items, those already read are got; n more, in rest, come from pos on and fit in room
      bytes. */
  ghost predicate ItemsLeft(v: Volume, start: nat, items: Option<seq<u8>>, got: seq<u8>, rest: Option<seq<u8>>,
                            pos: nat, size: nat, n: nat, room: int) {
    && OnBoundaries(v, pos, size, n) && rest == ItemSlices(v, start, pos, size, n)
    && items == Join(Some(got), rest) && ItemBytes(size, n) <= room
  }

  /** One more item: what is left of the items moves up, unless the item cannot be read. */
  lemma {:induction false} ItemsTurn(v: Volume, start: nat, items: Option<seq<u8>>, got: seq<u8>,
                                     rest: Option<seq<u8>>, pos: nat, size: nat, n: nat, room: int,
                                     slice: Option<seq<u8>>)
    returns (rest': Option<seq<u8>>)
    requires n > 0 && ItemsLeft(v, start, items, got, rest, pos, size, n, room)
    requires slice == FileSlice(v, start, pos, size)
    ensures WithinCluster(pos, ClusterSize(v)) == 0 && size <= room
    ensures if slice.None? then items == None
            else ItemsLeft(v, start, items, got + slice.value, rest', pos + size, size, n - 1, room - size)
  {
    NextOnBoundary(v, pos, size, n);
    rest' := ItemSlices(v, start, pos + size, size, n - 1);
    assert rest == Join(slice, rest') && ItemBytes(size, n) == size + ItemBytes(size, n - 1);
    if slice.Some? && rest'.Some? {
      JoinThree(got, slice.value, rest'.value);
    }
  }

  // ---------------------------------------------------------------- reads inside one cluster

  /** The cluster lies where signed 32-bit positions do not overflow. */
  predicate BelowTwoGigabytes(v: Volume, c: nat) {
    0 <= StartPos(v, c, 0) && StartPos(v, c, 0) + ClusterSize(v) <= 0x8000_0000
  }

  lemma {:induction false} OffsetPos(v: Volume, c: nat, offset: nat)
    requires BelowTwoGigabytes(v, c) && offset < ClusterSize(v)
    ensures StartPos(v, c, offset) == StartPos(v, c, 0) + offset
    ensures StartPos(v, c, offset) % SECTOR_SIZE == offset % SECTOR_SIZE
  {
    AlignedStart(v, c);
    var base := Wrap32(v.rootEnd + (c - 2) * v.sectorsPerCluster) * SECTOR_SIZE;
    WrapSum(base, offset);
    SameRemainder(StartPos(v, c, 0), offset);
  }

  lemma {:induction false} WrapSum(base: nat, offset: nat)
    requires Wrap32(base) + offset < TWO_TO_THE_32
    ensures Wrap32(base + offset) == Wrap32(base) + offset
  {
  }

  lemma {:induction false} SameRemainder(pos: nat, offset: nat)
    requires pos % SECTOR_SIZE == 0
    ensures (pos + offset) % SECTOR_SIZE == offset % SECTOR_SIZE
  {
  }

  lemma {:induction false} BytesSlice(d: Disk, pos: int, n: nat, a: nat, len: nat)
    requires a + len <= n
    ensures Bytes(d, pos, n)[a..a + len] == Bytes(d, pos + a, len)
  {
  }

  lemma {:induction false} FullChunk(v: Volume, c: nat, offset: nat, buf: seq<u8>)
    requires Delivered(StartPos(v, c, offset), |buf|) == |buf|
    ensures ReadChunk(v, c, offset, buf) == Bytes(v.disk, StartPos(v, c, offset), |buf|)
  {
  }

  /** A short read leaves the last byte of the buffer as it was. */
  lemma {:induction false} ShortChunk(v: Volume, c: nat, offset: nat, buf: seq<u8>)
    requires Delivered(StartPos(v, c, offset), |buf|) < |buf|
    ensures ReadChunk(v, c, offset, buf)[|buf| - 1] == buf[|buf| - 1]
  {
  }

  /** A read inside one cluster fills its buffer correctly, whatever the buffer held, exactly
      when it starts on a sector boundary or stays inside one sector. */
  lemma {:induction false} InsideClusterExactIff(v: Volume, start: nat, k: nat, c: nat, offset: nat, total: nat)
    requires Walk(v, start, k) == Some(c) && BelowTwoGigabytes(v, c)
    requires offset < ClusterSize(v) && offset + total <= ClusterSize(v)
    ensures (forall buf: seq<u8> :: |buf| == total ==>
               ReadRun(v, start, k, offset, buf).1 == ClusterBytes(v, c)[offset..offset + total])
       <==> offset % SECTOR_SIZE == 0 || offset % SECTOR_SIZE + total <= SECTOR_SIZE
  {
    OffsetPos(v, c, offset);
    var pos, right := StartPos(v, c, offset), ClusterBytes(v, c)[offset..offset + total];
    DeliversAllIff(pos, total);
    BytesSlice(v.disk, StartPos(v, c, 0), ClusterSize(v), offset, total);
    if Delivered(pos, total) == total {
      forall buf: seq<u8> | |buf| == total
        ensures ReadRun(v, start, k, offset, buf).1 == right
      {
        FullChunk(v, c, offset, buf);
      }
    } else {
      var wrong: u8 := if right[total - 1] == 0 then 1 else 0;
      var buf: seq<u8> := seq(total, _ => wrong);
      ShortChunk(v, c, offset, buf);
      assert ReadRun(v, start, k, offset, buf).1[total - 1] != right[total - 1];
    }
  }

  // ---------------------------------------------------------------- files laid out in sequence

  /** Each of the n clusters from c on, but the last, leads to the cluster with the next number. */
  predicate InSequence(v: Volume, c: nat, n: nat)
    decreases n
  {
    n <= 1 || (Next(v, c) == c + 1 && !IsStop(c + 1) && InSequence(v, c + 1, n - 1))
  }

  /** And they all lie where signed 32-bit positions do not overflow. */
  predicate LowInSequence(v: Volume, c: nat, n: nat) {
    InSequence(v, c, n) && 0 <= StartPos(v, c, 0) && StartPos(v, c, 0) + ItemBytes(ClusterSize(v), n) <= 0x8000_0000
  }

  lemma {:induction false} WrapTimesSector(a: int)
    ensures Wrap32(Wrap32(a) * SECTOR_SIZE) == Wrap32(a * SECTOR_SIZE)
  {
    var q := a / TWO_TO_THE_32;
    assert a * SECTOR_SIZE == Wrap32(a) * SECTOR_SIZE + TWO_TO_THE_32 * (SECTOR_SIZE * q);
    WrapMultiple(Wrap32(a) * SECTOR_SIZE, SECTOR_SIZE * q);
  }

  lemma {:induction false} WrapMultiple(a: int, k: int)
    ensures Wrap32(a + TWO_TO_THE_32 * k) == Wrap32(a)
  {
  }

  /** Clusters with successive numbers lie side by side. */
  lemma {:induction false} NextStart(v: Volume, c: nat)
    requires BelowTwoGigabytes(v, c) && StartPos(v, c, 0) + ClusterSize(v) < 0x8000_0000
    ensures StartPos(v, c + 1, 0) == StartPos(v, c, 0) + ClusterSize(v)
  {
    var a := v.rootEnd + (c - 2) * v.sectorsPerCluster;
    var b := v.rootEnd + (c + 1 - 2) * v.sectorsPerCluster;
    assert b == a + v.sectorsPerCluster;
    WrapTimesSector(a);
    WrapTimesSector(b);
    assert b * SECTOR_SIZE == a * SECTOR_SIZE + ClusterSize(v);
    WrapStep(a * SECTOR_SIZE, ClusterSize(v));
  }

  lemma {:induction false} WrapStep(a: int, size: nat)
    requires Wrap32(a) + size < 0x8000_0000
    ensures Wrap32(a + size) == Wrap32(a) + size
  {
    WrapMultiple(Wrap32(a) + size, a / TWO_TO_THE_32);
  }

  lemma {:induction false} SequenceTail(v: Volume, c: nat, n: nat)
    requires n > 1 && LowInSequence(v, c, n)
    ensures BelowTwoGigabytes(v, c) && LowInSequence(v, c + 1, n - 1)
    ensures StartPos(v, c + 1, 0) == StartPos(v, c, 0) + ClusterSize(v)
  {
    assert ItemBytes(ClusterSize(v), n - 1) == ClusterSize(v) + ItemBytes(ClusterSize(v), n - 2);
    NextStart(v, c);
  }

  /** The contents of clusters in sequence are one stretch of the disk. */
  lemma {:induction false} ContentInSequence(v: Volume, c: nat, n: nat)
    requires n > 0 && LowInSequence(v, c, n)
    ensures Content(v, c, n) == Bytes(v.disk, StartPos(v, c, 0), ItemBytes(ClusterSize(v), n))
    decreases n
  {
    if n == 1 {
      assert ItemBytes(ClusterSize(v), 1) == ClusterSize(v) && Content(v, Next(v, c), 0) == [];
    } else {
      SequenceTail(v, c, n);
      ContentInSequence(v, c + 1, n - 1);
      BytesAdjacent(v.disk, StartPos(v, c, 0), ClusterSize(v), ItemBytes(ClusterSize(v), n - 1));
    }
  }

  lemma {:induction false} BytesAdjacent(d: Disk, pos: int, m: nat, n: nat)
    ensures Bytes(d, pos, m) + Bytes(d, pos + m, n) == Bytes(d, pos, m + n)
  {
  }

  /** So is what the reader makes of them, from any sector of the first. */
  lemma {:induction false} RunInSequence(v: Volume, start: nat, k: nat, c: nat, within: nat, buf: seq<u8>, n: nat)
    requires Walk(v, start, k) == Some(c) && n > 0 && LowInSequence(v, c, n)
    requires within < ClusterSize(v) && within % SECTOR_SIZE == 0
    requires within + |buf| <= ItemBytes(ClusterSize(v), n)
    ensures ReadRun(v, start, k, within, buf) == (0, Bytes(v.disk, StartPos(v, c, 0) + within, |buf|))
    decreases |buf|
  {
    var size := ClusterSize(v);
    assert ItemBytes(size, n) == size + ItemBytes(size, n - 1) && ItemBytes(size, 0) == 0;
    if |buf| <= size {
      WholeChunk(v, c, within, buf, n);
    } else {
      SequenceTail(v, c, n);
      WalkSnoc(v, start, k);
      WholeChunk(v, c, within, buf[..size], n);
      RunInSequence(v, start, k + 1, c + 1, within, buf[size..], n - 1);
      StepInSequence(v, start, k, c, within, buf, StartPos(v, c, 0) + within, size);
    }
  }

  lemma {:induction false} StepInSequence(v: Volume, start: nat, k: nat, c: nat, within: nat, buf: seq<u8>,
                                          pos: int, size: nat)
    requires Walk(v, start, k) == Some(c) && size == ClusterSize(v) < |buf|
    requires ReadChunk(v, c, within, buf[..size]) == Bytes(v.disk, pos, size)
    requires ReadRun(v, start, k + 1, within, buf[size..]) == (0, Bytes(v.disk, pos + size, |buf| - size))
    ensures ReadRun(v, start, k, within, buf) == (0, Bytes(v.disk, pos, |buf|))
  {
    ReadRunHead(v, start, k, c, within, buf, size);
    BytesAdjacent(v.disk, pos, size, |buf| - size);
  }

  /** One step of the reader from a sector boundary delivers all that it is asked for. */
  lemma {:induction false} WholeChunk(v: Volume, c: nat, within: nat, buf: seq<u8>, n: nat)
    requires n > 0 && LowInSequence(v, c, n) && within < ClusterSize(v) && within % SECTOR_SIZE == 0
    ensures ReadChunk(v, c, within, buf) == Bytes(v.disk, StartPos(v, c, 0) + within, |buf|)
  {
    assert ItemBytes(ClusterSize(v), n) == ClusterSize(v) + ItemBytes(ClusterSize(v), n - 1);
    OffsetPos(v, c, within);
    DeliversAllIff(StartPos(v, c, within), |buf|);
    FullChunk(v, c, within, buf);
  }

  /** A read from any sector of a file is exact, across clusters too, when each hop it needs goes
      to the cluster with the next number: each step then reads on into that cluster. */
  lemma {:induction false} SequentialReadIsSlice(v: Volume, start: nat, k: nat, c: nat, within: nat,
                                                 buf: seq<u8>, n: nat)
    requires Walk(v, start, k) == Some(c) && n > 0 && LowInSequence(v, c, n)
    requires within < ClusterSize(v) && within % SECTOR_SIZE == 0
    requires within + |buf| <= ItemBytes(ClusterSize(v), n)
    ensures |Content(v, c, n)| == ItemBytes(ClusterSize(v), n)
    ensures ReadRun(v, start, k, within, buf) == (0, Content(v, c, n)[within..within + |buf|])
  {
    RunInSequence(v, start, k, c, within, buf, n);
    ContentInSequence(v, c, n);
    BytesSlice(v.disk, StartPos(v, c, 0), ItemBytes(ClusterSize(v), n), within, |buf|);
  }
}

/** The FAT16 reader over its disk streams. */
module Fat16 {
  import opened Machine
  import opened Streamer
  import opened ClusterChain

  const DIRECTORY_ITEM_SIZE := 32
  const DELETED := 0xE5

  class FileSystem {
    const volume: Volume
    const clusterReadStream: DiskStream
    const fatReadStream: DiskStream
    const directoryStream: DiskStream

    ghost predicate Valid() {
      && clusterReadStream.disk == volume.disk && fatReadStream.disk == volume.disk
      && directoryStream.disk == volume.disk
      && clusterReadStream != fatReadStream
    }

    constructor (volume: Volume)
      ensures Valid() && this.volume == volume
      ensures fresh(clusterReadStream) && fresh(fatReadStream) && fresh(directoryStream)
    {
      this.volume := volume;
      clusterReadStream := new DiskStream(volume.disk);
      fatReadStream := new DiskStream(volume.disk);
      directoryStream := new DiskStream(volume.disk);
    }

    /** fat16_get_fat_entry */
    method GetFatEntry(cluster: nat) returns (entry: int)
      requires Valid()
      modifies fatReadStream
      ensures entry == Next(volume, cluster)
      ensures var place := 512 * volume.reservedSectors * (2 * cluster);
              place < 0x8000_0000 ==> entry == volume.disk(place) + 256 * volume.disk(place + 1)
    {
      if SECTOR_SIZE * volume.reservedSectors * (2 * cluster) < 0x8000_0000 {
        EntryBytes(volume, cluster);
      }
      fatReadStream.Seek(FatEntryPos(volume, cluster));
      EntryAligned(volume, cluster);
      var result := new u8[FAT_ENTRY_SIZE](_ => 0);
      var res := fatReadStream.Read(result, 0, FAT_ENTRY_SIZE);
      assert result[..] == Bytes(volume.disk, FatEntryPos(volume, cluster), 2);
      assert result[0] == result[..][0] && result[1] == result[..][1];
      var low: int, high: int := result[0], result[1];
      entry := low + 256 * high;
    }

    /** The loop of fat16_get_cluster_for_offset. */
    method FollowChain(startingCluster: nat, clusterAhead: nat) returns (res: int)
      requires Valid()
      modifies fatReadStream
      ensures res == match Walk(volume, startingCluster, clusterAhead)
                     case None => -EIO
                     case Some(c) => c
    {
      var clusterToUse: nat := startingCluster;
      for i := 0 to clusterAhead
        invariant Walk(volume, startingCluster, clusterAhead)
               == Walk(volume, clusterToUse, clusterAhead - i)
      {
        var entry := GetFatEntry(clusterToUse);
        if entry == 0xFF8 || entry == 0xFFF {
          return -EIO;
        }
        if entry == 0xFF7 {
          return -EIO;
        }
        if entry == 0xFF0 || entry == 0xFF6 {
          return -EIO;
        }
        if entry == 0 {
          return -EIO;
        }
        clusterToUse := entry;
      }
      res := clusterToUse;
    }

    /** fat16_get_cluster_for_offset: the cluster that holds a byte offset of the file. */
    method GetClusterForOffset(startingCluster: nat, offset: nat) returns (res: int)
      requires Valid()
      modifies fatReadStream
      ensures res == match Walk(volume, startingCluster, ClusterIndex(offset, ClusterSize(volume)))
                     case None => -EIO
                     case Some(c) => c
    {
      var clusterAhead, _ := Divide(offset, ClusterSize(volume));
      res := FollowChain(startingCluster, clusterAhead);
    }

    /** One step of the reader: seek to the offset in the cluster and read into buf, which is the
        part of out from index at on. */
    method ReadStep(cluster: nat, offset: nat, out: array<u8>, at: nat, n: nat, ghost buf: seq<u8>)
      requires Valid() && at + n <= out.Length && buf == out[at..at + n]
      requires Readable(StartPos(volume, cluster, offset))
      modifies clusterReadStream, out
      ensures out[..] == Splice(old(out[..]), at, ReadChunk(volume, cluster, offset, buf))
    {
      clusterReadStream.Seek(StartPos(volume, cluster, offset));
      var res := clusterReadStream.Read(out, at, n);
      ghost var pos := StartPos(volume, cluster, offset);
      SplicePart(old(out[..]), at, n, Bytes(volume.disk, pos, Delivered(pos, n)));
    }

    /** One step of fat16_read_internal_from_stream: find the cluster, then read up to one cluster
        into buf, which is the part of out from index at on. */
    method FirstStep(startingCluster: nat, offset: nat, n: nat, out: array<u8>, at: nat,
                     ghost k: nat, ghost within: nat, ghost buf: seq<u8>)
      returns (res: int)
      requires Valid() && at + n <= out.Length && startingCluster < 0x1_0000 && buf == out[at..at + n]
      requires k == ClusterIndex(offset, ClusterSize(volume))
      requires within == WithinCluster(offset, ClusterSize(volume)) && PositionsReadable(volume, within)
      modifies clusterReadStream, fatReadStream, out
      ensures match Walk(volume, startingCluster, k)
              case None => res == -EIO && out[..] == old(out[..])
              case Some(c) => res == 0 && out[..] == Splice(old(out[..]), at, ReadChunk(volume, c, within, buf))
    {
      var sizeOfCluster := ClusterSize(volume);
      res := GetClusterForOffset(startingCluster, offset);
      if res < 0 {
        return;
      }
      WalkInRange(volume, startingCluster, k);
      var _, offsetFromCluster := Divide(offset, sizeOfCluster);
      ReadStep(res, offsetFromCluster, out, at, n, buf);
      res := 0;
    }

    /** fat16_read_internal_from_stream, for any offset; k and within are the cluster of the file
        that the offset falls in and its place there, buf is the part of out to be filled, and
        run is what the reader makes of it. */
    method ReadInternal(startingCluster: nat, offset: nat, total: nat, out: array<u8>, at: nat,
                        ghost k: nat, ghost within: nat, ghost buf: seq<u8>, ghost run: (int, seq<u8>))
      returns (res: int)
      requires Valid() && at + total <= out.Length && startingCluster < 0x1_0000
      requires k == ClusterIndex(offset, ClusterSize(volume))
      requires within == WithinCluster(offset, ClusterSize(volume)) && PositionsReadable(volume, within)
      requires buf == out[at..at + total] && run == ReadRun(volume, startingCluster, k, within, buf)
      modifies clusterReadStream, fatReadStream, out
      ensures res == run.0 && out[..] == Splice(old(out[..]), at, run.1)
      decreases total
    {
      ghost var out0 := out[..];
      var sizeOfCluster := ClusterSize(volume);
      var totalToRead := if total > sizeOfCluster then sizeOfCluster else total;
      ghost var part := out[at..at + totalToRead];
      res := FirstStep(startingCluster, offset, totalToRead, out, at, k, within, part);
      if res != 0 {
        SplicePart(out0, at, total, []);
        return;
      }
      ghost var c := Walk(volume, startingCluster, k).value;
      if total > totalToRead {
        var at', total' := at + totalToRead, total - totalToRead;
        ghost var buf', run' := ReadRunStep(volume, startingCluster, k, within, out0, at, buf,
                                            c, totalToRead, out[..], at', total', run);
        res := ReadInternal(startingCluster, offset + totalToRead, total', out, at', k + 1, within, buf', run');
      } else {
        assert part == buf;
      }
    }

    /** fat16_read_internal. From an offset on a cluster boundary: the slice of the file's contents
        it was asked for, or -EIO if a stop marker comes before the last cluster needed. */
    method ReadFile(startingCluster: nat, offset: nat, total: nat, out: array<u8>, at: nat)
      returns (res: int)
      requires Valid() && at + total <= out.Length && startingCluster < 0x1_0000
      requires WithinCluster(offset, ClusterSize(volume)) == 0
      modifies clusterReadStream, fatReadStream, out
      ensures match FileSlice(volume, startingCluster, offset, total)
              case Some(bytes) => res == 0 && out[..] == Splice(old(out[..]), at, bytes)
              case None =>
                res == -EIO && out[..at] == old(out[..at]) && out[at + total..] == old(out[at + total..])
      ensures res == 0 ==> AreFileBytes(volume, startingCluster, offset, out[at..at + total])
    {
      ghost var k, buf := ClusterIndex(offset, ClusterSize(volume)), out[at..at + total];
      ghost var run := ReadRun(volume, startingCluster, k, 0, buf);
      ClusterStartsReadable(volume);
      ReadIsSlice(volume, startingCluster, offset, buf, k, FileSlice(volume, startingCluster, offset, total));
      ghost var slice := FileSlice(volume, startingCluster, offset, total);
      SliceBytes(volume, startingCluster, offset, total, slice);
      res := ReadInternal(startingCluster, offset, total, out, at, k, 0, buf, run);
      assert slice.Some? ==> out[at..at + total] == slice.value;
    }

    /** One item of fat16_read: buf is what out was before the first item, got what has been read. */
    method ReadItem(firstCluster: nat, offset: nat, size: nat, out: array<u8>, done: nat,
                    ghost buf: seq<u8>, ghost got: seq<u8>, ghost slice: Option<seq<u8>>)
      returns (res: int)
      requires Valid() && firstCluster < 0x1_0000 && done + size <= out.Length
      requires WithinCluster(offset, ClusterSize(volume)) == 0
      requires slice == FileSlice(volume, firstCluster, offset, size)
      requires |buf| == out.Length && |got| == done && out[..] == Splice(buf, 0, got)
      modifies clusterReadStream, fatReadStream, out
      ensures match slice
              case Some(bytes) => res == 0 && out[..] == Splice(buf, 0, got + bytes)
              case None => res == -EIO
    {
      res := ReadFile(firstCluster, offset, size, out, done);
      if slice.Some? {
        SpliceTwice(buf, 0, got, slice.value);
      }
    }

    /** fat16_read: nmemb items in a row, each from a cluster boundary. Its result is nmemb, or -EIO
        as soon as an item cannot be read. */
    method Read(firstCluster: nat, pos: nat, size: nat, nmemb: nat, out: array<u8>) returns (res: int)
      requires Valid() && firstCluster < 0x1_0000 && ItemBytes(size, nmemb) <= out.Length
      requires OnBoundaries(volume, pos, size, nmemb)
      modifies clusterReadStream, fatReadStream, out
      ensures match ItemSlices(volume, firstCluster, pos, size, nmemb)
              case Some(bytes) => res == nmemb && out[..] == Splice(old(out[..]), 0, bytes)
              case None => res == -EIO
      ensures res >= 0 ==> AreFileBytes(volume, firstCluster, pos, out[..ItemBytes(size, nmemb)])
    {
      ghost var buf, items := out[..], ItemSlices(volume, firstCluster, pos, size, nmemb);
      ghost var got: seq<u8>, rest := [], items;
      JoinEmpty(items);
      var offset: nat, done: nat := pos, 0;
      for i := 0 to nmemb
        invariant |got| == done <= out.Length && out[..] == Splice(buf, 0, got)
        invariant ItemsLeft(volume, firstCluster, items, got, rest, offset, size, nmemb - i, out.Length - done)
      {
        ghost var slice := FileSlice(volume, firstCluster, offset, size);
        rest := ItemsTurn(volume, firstCluster, items, got, rest, offset, size, nmemb - i, out.Length - done, slice);
        res := ReadItem(firstCluster, offset, size, out, done, buf, got, slice);
        if res < 0 {
          return;
        }
        got := got + slice.value;
        offset, done := offset + size, done + size;
      }
      JoinEmpty(Some(got));
      ItemsBytes(volume, firstCluster, pos, size, nmemb, items);
      assert out[..ItemBytes(size, nmemb)] == got;
      res := nmemb;
    }

    /** One directory slot is read, with its mark first. */
    method ReadSlot(item: array<u8>, ghost directoryStartSector: nat, ghost slot: nat)
      requires Valid() && item.Length == DIRECTORY_ITEM_SIZE
      requires directoryStream.pos == SECTOR_SIZE * directoryStartSector + DIRECTORY_ITEM_SIZE * slot
      modifies directoryStream, item
      ensures item[0] == SlotMark(volume.disk, SECTOR_SIZE * directoryStartSector, slot)
      ensures directoryStream.pos == old(directoryStream.pos) + DIRECTORY_ITEM_SIZE
    {
      SlotReadWhole(directoryStartSector, slot);
      ghost var pos := directoryStream.pos;
      var status := directoryStream.Read(item, 0, DIRECTORY_ITEM_SIZE);
      assert item[..] == Bytes(volume.disk, pos, DIRECTORY_ITEM_SIZE);
      assert item[0] == item[..][0];
    }

    /** fat16_get_total_items_for_directory, for a directory whose slot number end is its first
        empty one: the number of slots before it that do not hold a deleted file. */
    method GetTotalItems(directoryStartSector: nat, ghost end: nat) returns (res: int)
      requires Valid() && SECTOR_SIZE * directoryStartSector < 0x8000_0000
      requires SlotMark(volume.disk, SECTOR_SIZE * directoryStartSector, end) == 0
      requires forall j: nat :: j < end ==> SlotMark(volume.disk, SECTOR_SIZE * directoryStartSector, j) != 0
      modifies directoryStream
      ensures res == LiveSlots(volume.disk, SECTOR_SIZE * directoryStartSector, end)
      ensures res == end - multiset(Marks(volume.disk, 512 * directoryStartSector, end))[0xE5]
    {
      LiveSlotsCount(volume.disk, SECTOR_SIZE * directoryStartSector, end);
      var start := SECTOR_SIZE * directoryStartSector;
      directoryStream.Seek(start);
      var item := new u8[DIRECTORY_ITEM_SIZE](_ => 0);
      var i := 0;
      ghost var j: nat := 0;
      while true
        invariant j <= end && directoryStream.pos == start + DIRECTORY_ITEM_SIZE * j
        invariant i == LiveSlots(volume.disk, start, j)
        decreases end - j
      {
        ReadSlot(item, directoryStartSector, j);
        if item[0] == 0 {
          return i;
        }
        j := j + 1;
        if item[0] == DELETED {
          continue;
        }
        i := i + 1;
      }
    }
  }

  /** The first byte of a directory slot: 0 if the slot and all after it are unused. */
  function SlotMark(d: Disk, start: nat, slot: nat): u8 {
    d(start + DIRECTORY_ITEM_SIZE * slot)
  }

  function LiveSlots(d: Disk, start: nat, n: nat): nat {
    if n == 0 then 0
    else LiveSlots(d, start, n - 1) + (if SlotMark(d, start, n - 1) == DELETED then 0 else 1)
  }

  /** The first bytes of n slots, which are 32 bytes long. */
  function Marks(d: Disk, start: nat, n: nat): seq<u8> {
    seq<u8>(n, j => d(start + 32 * j))
  }

  /** All slots count but those marked as deleted. */
  lemma {:induction false} LiveSlotsCount(d: Disk, start: nat, n: nat)
    ensures LiveSlots(d, start, n) == n - multiset(Marks(d, start, n))[0xE5]
  {
    if n > 0 {
      LiveSlotsCount(d, start, n - 1);
      assert Marks(d, start, n) == Marks(d, start, n - 1) + [d(start + 32 * (n - 1))];
    }
  }

  /** Slots do not straddle sectors, so each is read whole. */
  lemma {:induction false} SlotReadWhole(sector: nat, slot: nat)
    ensures Delivered(SECTOR_SIZE * sector + DIRECTORY_ITEM_SIZE * slot, DIRECTORY_ITEM_SIZE) == DIRECTORY_ITEM_SIZE
  {
  }

  /** C division of an offset by the cluster size. */
  method Divide(offset: nat, size: nat) returns (q: nat, r: nat)
    requires size > 0
    ensures q == ClusterIndex(offset, size) && r == WithinCluster(offset, size)
  {
    DivisionCountsClusters(offset, size);
    q, r := offset / size, offset % size;
  }

  /** Every position the reader seeks to, at this offset in a cluster, can be read from. */
  ghost predicate PositionsReadable(v: Volume, within: nat) {
    forall c: nat :: c < 0x1_0000 ==> Readable(StartPos(v, c, within))
  }

  /** Reads that start on cluster boundaries are never out of reach. */
  lemma {:induction false} ClusterStartsReadable(v: Volume)
    ensures PositionsReadable(v, 0)
  {
    forall c: nat
      ensures StartPos(v, c, 0) % SECTOR_SIZE == 0
    {
      AlignedStart(v, c);
    }
  }

  lemma {:induction false} WalkInRange(v: Volume, cluster: nat, n: nat)
    requires cluster < 0x1_0000
    ensures Walk(v, cluster, n).Some? ==> Walk(v, cluster, n).value < 0x1_0000
    decreases n
  {
    if n > 0 {
      WalkInRange(v, Next(v, cluster), n - 1);
    }
  }

  /** Writing into a part of a buffer, seen from the part and from the whole. */
  lemma {:induction false} SplicePart(s: seq<u8>, at: nat, n: nat, b: seq<u8>)
    requires |b| <= n && at + n <= |s|
    ensures Splice(s, at, b) == Splice(s, at, Splice(s[at..at + n], 0, b))
    ensures Splice(s, at, s[at..at + n]) == s
  {
  }

  /** The buffer after one step and the recursive call, put together. */
  lemma {:induction false} ReadRunStep(v: Volume, start: nat, k: nat, within: nat, out: seq<u8>, at: nat, buf: seq<u8>,
                    c: nat, size: nat, out': seq<u8>, at': nat, total': nat, run: (int, seq<u8>))
    returns (buf': seq<u8>, run': (int, seq<u8>))
    requires size == ClusterSize(v) < |buf| && at + |buf| <= |out| && buf == out[at..at + |buf|]
    requires at' == at + size && total' == |buf| - size
    requires Walk(v, start, k) == Some(c) && run == ReadRun(v, start, k, within, buf)
    requires out' == Splice(out, at, ReadChunk(v, c, within, out[at..at + size]))
    ensures |buf'| == total' == |run'.1|
    ensures buf' == out'[at'..at' + total']
    ensures run' == ReadRun(v, start, k + 1, within, buf')
    ensures run.0 == run'.0
    ensures Splice(out', at', run'.1) == Splice(out, at, run.1)
  {
    buf' := buf[size..];
    run' := ReadRun(v, start, k + 1, within, buf');
    assert buf[..size] == out[at..at + size];
    SpliceTwice(out, at, ReadChunk(v, c, within, buf[..size]), run'.1);
  }

  /** The table starts on a sector boundary, so a product with its position stays on one. */
  lemma {:induction false} EntryAligned(v: Volume, cluster: nat)
    ensures FatEntryPos(v, cluster) % SECTOR_SIZE == 0
  {
    var w := Wrap32(cluster * FAT_ENTRY_SIZE);
    ProductAligned(v.reservedSectors, w);
  }

  lemma {:induction false} ProductAligned(sectors: nat, w: nat)
    ensures Signed(Wrap32(sectors * SECTOR_SIZE * w)) % SECTOR_SIZE == 0
  {
    assert sectors * SECTOR_SIZE * w == sectors * w * SECTOR_SIZE;
    MultipleAligned(sectors * w);
  }

  lemma {:induction false} MultipleAligned(n: nat)
    ensures Signed(Wrap32(n * SECTOR_SIZE)) % SECTOR_SIZE == 0
  {
  }
}
