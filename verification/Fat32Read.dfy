/** josh_fat32_read_file, against the reference that a file is the concatenation of the
    clusters of its chain. */
module Fat32Read {
  import opened Words
  import opened Bits
  import opened Block
  import opened Fat32

  const ATTR_DIRECTORY := 0x10

  predicate IsDirectory(f: File) { f.attributes / 16 % 2 == 1 }

  ghost predicate OnDisk(d: Disk, fs: Fs)
  {
    Mounted(fs) && fs.partitionLba + fs.partitionSectors <= |d.sectors|
  }

  function ClusterBytes(fs: Fs): (r: nat) { 512 * fs.sectorsPerCluster }

  /** The data of one cluster. */
  ghost function ClusterData(d: Disk, fs: Fs, c: u32): (r: seq<u8>)
    requires OnDisk(d, fs) && ClusterValid(fs, c)
    ensures |r| == ClusterBytes(fs)
  {
    ClusterPlace(fs, c);
    SectorRun(d, ClusterStart(fs, c), fs.sectorsPerCluster)
  }

  /** A cluster chain as a function of the position in it. */
  type Chain = nat -> Option<u32>

  /** The chain that the FAT gives from first. */
  ghost function ChainOf(d: Disk, fs: Fs, first: u32): (ch: Chain) { i => Nth(d, fs, first, i) }

  /** The chain has at least n clusters, all of them valid. */
  ghost predicate ChainOk(fs: Fs, ch: Chain, n: nat)
  {
    forall i :: 0 <= i < n ==> ch(i).Some? && ClusterValid(fs, ch(i).value)
  }

  /** The concatenation of the first n clusters of the chain. */
  ghost function Content(d: Disk, fs: Fs, ch: Chain, n: nat): (r: seq<u8>)
    requires OnDisk(d, fs) && ChainOk(fs, ch, n)
    ensures |r| == n * ClusterBytes(fs)
  {
    if n == 0 then []
    else
      Distribute(n - 1, ClusterBytes(fs));
      Content(d, fs, ch, n - 1) + ClusterData(d, fs, ch(n - 1).value)
  }

  lemma {:induction false} ContentGrows(d: Disk, fs: Fs, ch: Chain, m: nat, n: nat)
    requires OnDisk(d, fs) && ChainOk(fs, ch, n) && m <= n
    ensures Content(d, fs, ch, m) <= Content(d, fs, ch, n)
  {
    if m < n {
      ContentGrows(d, fs, ch, m, n - 1);
    }
  }

  // ----- one cluster -----

  predicate SectorReadable(d: Disk, base: nat, p: nat) { base + p / 512 !in d.broken }

  ghost predicate BytesReadable(d: Disk, base: nat, o: nat, n: nat)
  {
    forall p :: o <= p < o + n ==> SectorReadable(d, base, p)
  }

  lemma ReadableSector(d: Disk, base: nat, s: nat, b: nat, take: nat)
    requires b + take <= 512
    ensures base + s !in d.broken ==> BytesReadable(d, base, 512 * s + b, take)
    ensures base + s in d.broken && take > 0 ==> !SectorReadable(d, base, 512 * s + b)
  {
    forall p | 512 * s + b <= p < 512 * s + b + take
      ensures p / 512 == s
    {
      DivUnique(p, 512, s, p - 512 * s);
    }
    if take > 0 {
      DivUnique(512 * s + b, 512, s, b);
    }
  }

  method CopySlice(buffer: array<u8>, at: nat, source: seq<u8>, from: nat, n: nat)
    requires at + n <= buffer.Length && from + n <= |source|
    modifies buffer
    ensures buffer[..] == old(buffer[..at]) + source[from..from + n] + old(buffer[at + n..])
  {
    for i := 0 to n
      invariant forall k :: 0 <= k < buffer.Length ==>
                  buffer[k] == if at <= k < at + i then source[from + (k - at)] else old(buffer[k])
    {
      buffer[at + i] := source[from + i];
    }
    SliceInPlace(old(buffer[..]), buffer[..], at, source[from..from + n]);
  }

  lemma SliceInPlace(before: seq<u8>, after: seq<u8>, at: nat, slice: seq<u8>)
    requires |after| == |before| && at + |slice| <= |before|
    requires forall k :: 0 <= k < |after| ==> after[k] == if at <= k < at + |slice| then slice[k - at] else before[k]
    ensures after == before[..at] + slice + before[at + |slice|..]
  {
  }

  /** Reads sector s of a run and copies part of it. */
  method CopySector(d: Disk, base: nat, n: nat, s: nat, b: nat, take: nat, buffer: array<u8>, at: nat,
                    ghost run: seq<u8>)
    returns (ok: bool)
    requires base + n <= |d.sectors| && run == SectorRun(d, base, n)
    requires s < n && b + take <= 512 && 0 < take && at + take <= buffer.Length
    modifies buffer
    ensures ok ==> BytesReadable(d, base, 512 * s + b, take)
    ensures !ok ==> !SectorReadable(d, base, 512 * s + b)
    ensures ok ==> buffer[..] == old(buffer[..at]) + run[512 * s + b..512 * s + b + take] + old(buffer[at + take..])
  {
    ReadableSector(d, base, s, b, take);
    var sector := ReadBlock(d, base + s);
    if sector.None? {
      return false;
    }
    SectorSlice(d, base, n, s, b, take);
    CopySlice(buffer, at, sector.value, b, take);
    ok := true;
  }

  /** The bytes a run of n sectors can still give from byte o on, up to the request. */
  function Take(n: nat, o: nat, remaining: nat): (r: nat)
    requires o <= 512 * n
  {
    if remaining < 512 * n - o then remaining else 512 * n - o
  }

  /** The first k bytes from byte o of the run are readable and stand in the buffer at at. */
  ghost predicate Copied(d: Disk, base: nat, run: seq<u8>, o: nat, k: nat, buffer: seq<u8>, start: seq<u8>, at: nat)
  {
    && at + k <= |start| && o + k <= |run| && BytesReadable(d, base, o, k)
    && buffer == start[..at] + run[o..o + k] + start[at + k..]
  }

  lemma CopiedNothing(d: Disk, base: nat, run: seq<u8>, o: nat, buffer: seq<u8>, at: nat)
    requires at <= |buffer| && o <= |run|
    ensures Copied(d, base, run, o, 0, buffer, buffer, at)
  {
    assert run[o..o] == [];
  }

  /** One sector of the sector loop. */
  method CopyStep(d: Disk, base: nat, n: nat, s: nat, b: nat, take: nat, buffer: array<u8>, at: nat,
                  ghost run: seq<u8>, ghost o: nat, k: nat, ghost start: seq<u8>) returns (ok: bool)
    requires base + n <= |d.sectors| && run == SectorRun(d, base, n) && |run| == 512 * n
    requires s < n && b + take <= 512 && 0 < take && at + k + take <= buffer.Length == |start|
    requires o + k == 512 * s + b && Copied(d, base, run, o, k, buffer[..], start, at)
    modifies buffer
    ensures ok ==> Copied(d, base, run, o, k + take, buffer[..], start, at)
    ensures !ok ==> forall total :: k < total ==> !BytesReadable(d, base, o, total)
  {
    ghost var before := buffer[..];
    ok := CopySector(d, base, n, s, b, take, buffer, at + k, run);
    if ok {
      Append(start, before, buffer[..], run, o, at, k, take);
      ReadableMore(d, base, o, k, take);
    } else {
      forall total | k < total
        ensures !BytesReadable(d, base, o, total)
      {
        NotReadable(d, base, o, k, total);
      }
    }
  }

  lemma SectorOf(o: nat, n: nat)
    requires o < 512 * n
    ensures o / 512 < n && o == 512 * (o / 512) + o % 512
  {
  }

  /** The sector loop of josh_fat32_read_file within one cluster: copies from byte o of a
      run of n sectors to the end of the run or of the request, whichever is first. */
  method CopyRun(d: Disk, base: nat, n: nat, o: nat, buffer: array<u8>, at: nat, remaining: nat, ghost run: seq<u8>)
    returns (copied: Option<nat>)
    requires base + n <= |d.sectors| && run == SectorRun(d, base, n) && |run| == 512 * n
    requires o < 512 * n && 0 < remaining && at + remaining <= buffer.Length
    modifies buffer
    ensures copied.None? ==> !BytesReadable(d, base, o, Take(n, o, remaining))
    ensures copied.Some? ==>
              copied.value == Take(n, o, remaining)
              && Copied(d, base, run, o, copied.value, buffer[..], old(buffer[..]), at)
  {
    var s: nat, b: nat, k: nat := o / 512, o % 512, 0;
    SectorOf(o, n);
    CopiedNothing(d, base, run, o, buffer[..], at);
    while s < n && k < remaining
      invariant k <= remaining && o + k <= 512 * n && s <= n
      invariant k < remaining ==> b < 512 && o + k == 512 * s + b
      invariant Copied(d, base, run, o, k, buffer[..], old(buffer[..]), at)
      decreases n - s
    {
      var take := if 512 - b > remaining - k then remaining - k else 512 - b;
      var ok := CopyStep(d, base, n, s, b, take, buffer, at, run, o, k, old(buffer[..]));
      if !ok {
        return None;
      }
      k := k + take;
      b := 0;
      s := s + 1;
    }
    copied := Some(k);
  }

  lemma NotReadable(d: Disk, base: nat, o: nat, k: nat, total: nat)
    requires k < total && !SectorReadable(d, base, o + k)
    ensures !BytesReadable(d, base, o, total)
  {
  }

  lemma ReadableMore(d: Disk, base: nat, o: nat, k: nat, take: nat)
    requires BytesReadable(d, base, o, k) && BytesReadable(d, base, o + k, take)
    ensures BytesReadable(d, base, o, k + take)
  {
  }

  lemma Append(start: seq<u8>, before: seq<u8>, after: seq<u8>, run: seq<u8>, o: nat, at: nat, k: nat, take: nat)
    requires at + k + take <= |start| && o + k + take <= |run|
    requires before == start[..at] + run[o..o + k] + start[at + k..]
    requires after == before[..at + k] + run[o + k..o + k + take] + before[at + k + take..]
    ensures after == start[..at] + run[o..o + k + take] + start[at + k + take..]
  {
    assert before[..at + k] == start[..at] + run[o..o + k];
    assert before[at + k + take..] == start[at + k + take..];
    assert run[o..o + k] + run[o + k..o + k + take] == run[o..o + k + take];
  }

  // ----- a whole request -----

  function Quotient(p: nat, m: nat): (r: nat)
    requires m > 0
    ensures r == p / m
  {
    QuotientBelow(p, m);
    p / m
  }

  /** The sector that holds byte p of the file can be read. */
  ghost predicate ByteReadable(d: Disk, fs: Fs, ch: Chain, p: nat)
    requires Mounted(fs)
  {
    var c := ch(Quotient(p, ClusterBytes(fs)));
    c.Some? && ClusterStart(fs, c.value) >= 0 && SectorReadable(d, ClusterStart(fs, c.value), p % ClusterBytes(fs))
  }

  /** How many clusters a request that ends before byte e of the file touches or skips. */
  function ClustersUpTo(fs: Fs, e: nat): (r: nat)
    requires fs.sectorsPerCluster > 0 && e > 0
  {
    Quotient(e - 1, ClusterBytes(fs)) + 1
  }

  /** When a read of n > 0 bytes at offset succeeds: the chain is long enough, within the
      cycle guard, and every sector holding a requested byte can be read. */
  ghost predicate Served(d: Disk, fs: Fs, ch: Chain, offset: nat, n: nat)
    requires Mounted(fs) && n > 0
  {
    LongEnough(fs, ch, offset, n) && forall p :: offset <= p < offset + n ==> ByteReadable(d, fs, ch, p)
  }

  ghost predicate LongEnough(fs: Fs, ch: Chain, offset: nat, n: nat)
    requires Mounted(fs) && n > 0
  {
    ChainOk(fs, ch, ClustersUpTo(fs, offset + n)) && ClustersUpTo(fs, offset + n) <= fs.clusterCount + 1
  }

  ghost predicate VolumeReadable(d: Disk, fs: Fs)
  {
    forall k: nat :: fs.partitionLba <= k < fs.partitionLba + fs.partitionSectors ==> k !in d.broken
  }

  /** A requested byte of cluster idx cannot be read. */
  ghost predicate Unreadable(d: Disk, fs: Fs, ch: Chain, offset: nat, n: nat, idx: nat)
    requires Mounted(fs)
  {
    exists p :: offset <= p < offset + n && Quotient(p, ClusterBytes(fs)) == idx && !ByteReadable(d, fs, ch, p)
  }

  /** What stops a request at cluster idx of its chain. Before the first cluster with a
      requested byte, only that the FAT does not lead on, which counts as corrupt whatever
      the reason; from there on the guard, an invalid cluster, an unreadable sector with
      requested bytes, and, if more clusters are needed, what the FAT says. */
  ghost function Obstacle(d: Disk, fs: Fs, ch: Chain, offset: nat, n: nat, idx: nat): (e: Option<FatStatus>)
    requires Mounted(fs) && n > 0
  {
    if idx < Quotient(offset, ClusterBytes(fs)) then if ch(idx + 1).None? then Some(FatCorrupt) else None
    else if idx > fs.clusterCount || ch(idx).None? || !ClusterValid(fs, ch(idx).value) then Some(FatCorrupt)
    else if Unreadable(d, fs, ch, offset, n, idx) then Some(FatIoError)
    else if idx + 1 == ClustersUpTo(fs, offset + n) then None
    else
      var next := NextCluster(d, fs, ch(idx).value);
      if next.Err? then Some(next.error) else if next.value >= EOC_MIN then Some(FatCorrupt) else None
  }

  /** Cluster idx stops the request with status e. Corrupt then means that the chain is too
      short, invalid or beyond the guard, an I/O error that a sector of the volume cannot be
      read. */
  ghost predicate Blocked(d: Disk, fs: Fs, ch: Chain, offset: nat, n: nat, idx: nat, e: FatStatus)
    requires Mounted(fs) && n > 0
  {
    && !Served(d, fs, ch, offset, n) && idx < ClustersUpTo(fs, offset + n)
       && Obstacle(d, fs, ch, offset, n, idx) == Some(e)
    && ((e == FatCorrupt && !LongEnough(fs, ch, offset, n)) || (e == FatIoError && !VolumeReadable(d, fs)))
  }

  /** A request fails with the status of the first obstacle on its way. */
  ghost predicate Fails(d: Disk, fs: Fs, ch: Chain, offset: nat, n: nat, e: FatStatus)
    requires Mounted(fs) && n > 0
  {
    exists idx :: Blocked(d, fs, ch, offset, n, idx, e) && Clear(d, fs, ch, offset, n, idx)
  }

  ghost predicate Clear(d: Disk, fs: Fs, ch: Chain, offset: nat, n: nat, idx: nat)
    requires Mounted(fs) && n > 0
  {
    forall j :: 0 <= j < idx ==> Obstacle(d, fs, ch, offset, n, j) == None
  }

  /** A cluster that the copying has come to is not one that is skipped. */
  lemma BeyondSkip(offset: nat, k: nat, idx: nat, o: nat, m: nat)
    requires o < m && offset + k == idx * m + o
    ensures Quotient(offset, m) <= idx && (k == 0 ==> Quotient(offset, m) == idx)
  {
    QuotientBelow(offset, m);
    if idx < Quotient(offset, m) {
      MulLess(m, idx, offset / m);
    }
    if k == 0 {
      InCluster(idx, m, o);
    }
  }

  lemma FatUnreadable(d: Disk, fs: Fs, c: u32)
    requires OnDisk(d, fs) && NextCluster(d, fs, c).Err?
    ensures NextCluster(d, fs, c).error == FatCorrupt
            || (NextCluster(d, fs, c).error == FatIoError && !VolumeReadable(d, fs))
  {
    var q := c * 4 / 512;
    if q < fs.sectorsPerFat {
      FatSectorInside(fs, q);
      if ReadBlock(d, fs.partitionLba + fs.fatLba + q).None? {
        assert fs.partitionLba + fs.fatLba + q in d.broken;
      }
    }
  }

  lemma DataUnreadable(d: Disk, fs: Fs, c: u32, o: nat, take: nat)
    requires OnDisk(d, fs) && ClusterValid(fs, c) && ClusterStart(fs, c) >= 0 && o + take <= ClusterBytes(fs)
    requires !BytesReadable(d, ClusterStart(fs, c), o, take)
    ensures !VolumeReadable(d, fs)
  {
    ClusterPlace(fs, c);
    var p: nat :| o <= p < o + take && !SectorReadable(d, ClusterStart(fs, c), p);
    assert p / 512 < fs.sectorsPerCluster;
    var k: nat := ClusterStart(fs, c) + p / 512;
    assert k in d.broken;
  }

  lemma InCluster(idx: nat, m: nat, t: nat)
    requires t < m
    ensures idx * m >= 0 && (idx * m + t) / m == idx && (idx * m + t) % m == t
  {
    Distribute(idx, m);
    assert m * idx == idx * m;
    DivUnique(idx * m + t, m, idx, t);
  }

  /** Readability of part of cluster idx, in file positions. */
  lemma ReadableInFile(d: Disk, fs: Fs, ch: Chain, idx: nat, o: nat, take: nat)
    requires OnDisk(d, fs) && ch(idx).Some? && ClusterValid(fs, ch(idx).value)
    requires o + take <= ClusterBytes(fs)
    ensures idx * ClusterBytes(fs) >= 0 && ClusterStart(fs, ch(idx).value) >= 0
    ensures BytesReadable(d, ClusterStart(fs, ch(idx).value), o, take)
       <==> forall p ::
         idx * ClusterBytes(fs) + o <= p < idx * ClusterBytes(fs) + o + take ==> ByteReadable(d, fs, ch, p)
  {
    var m := ClusterBytes(fs);
    var base := idx * m;
    ClusterPlace(fs, ch(idx).value);
    Distribute(idx, m);
    var start := ClusterStart(fs, ch(idx).value);
    forall t | o <= t < o + take
      ensures ByteReadable(d, fs, ch, base + t) <==> SectorReadable(d, start, t)
    {
      InCluster(idx, m, t);
    }
    if forall p :: base + o <= p < base + o + take ==> ByteReadable(d, fs, ch, p) {
      forall t | o <= t < o + take
        ensures SectorReadable(d, start, t)
      {
        assert ByteReadable(d, fs, ch, base + t);
      }
    }
    if BytesReadable(d, start, o, take) {
      forall p | base + o <= p < base + o + take
        ensures ByteReadable(d, fs, ch, p)
      {
        assert SectorReadable(d, start, p - base);
      }
    }
  }

  /** A request still unfinished at byte idx * m + o needs cluster idx. */
  lemma NeedsCluster(fs: Fs, e: nat, idx: nat)
    requires fs.sectorsPerCluster > 0 && 0 < e && idx * ClusterBytes(fs) < e
    ensures idx < ClustersUpTo(fs, e)
  {
    var m := ClusterBytes(fs);
    if (e - 1) / m < idx {
      assert e - 1 == m * ((e - 1) / m) + (e - 1) % m;
      MulLess(m, (e - 1) / m, idx);
    }
  }

  lemma MulLess(m: nat, a: int, b: int)
    requires m > 0 && a < b
    ensures m * a + m <= b * m
  {
    assert m * (b - a - 1) >= 0;
  }

  /** A request that ends inside cluster idx uses exactly the clusters up to it. */
  lemma LastCluster(fs: Fs, e: nat, idx: nat)
    requires fs.sectorsPerCluster > 0 && idx * ClusterBytes(fs) < e <= idx * ClusterBytes(fs) + ClusterBytes(fs)
    requires 0 < e
    ensures ClustersUpTo(fs, e) == idx + 1
  {
    var m := ClusterBytes(fs);
    InCluster(idx, m, e - 1 - idx * m);
  }

  /** Bytes produced after the clusters before idx and part of cluster idx. */
  lemma ContentRound(d: Disk, fs: Fs, ch: Chain, idx: nat, offset: nat, k: nat, o: nat, take: nat)
    requires OnDisk(d, fs) && ChainOk(fs, ch, idx + 1)
    requires offset + k == idx * ClusterBytes(fs) + o && o + take <= ClusterBytes(fs)
    requires k > 0 ==> o == 0
    ensures var c := ch(idx).value;
            k > 0 ==> Content(d, fs, ch, idx)[offset..offset + k] + ClusterData(d, fs, c)[o..o + take]
                      == Content(d, fs, ch, idx + 1)[offset..offset + k + take]
    ensures k == 0 ==> ClusterData(d, fs, ch(idx).value)[o..o + take]
                       == Content(d, fs, ch, idx + 1)[offset..offset + take]
  {
    assert ch(idx).Some?;
    var a, b := Content(d, fs, ch, idx), ClusterData(d, fs, ch(idx).value);
    assert Content(d, fs, ch, idx + 1) == a + b;
    Distribute(idx, ClusterBytes(fs));
  }

  // ----- josh_fat32_read_file -----

  /** The bytes in hand when the clusters before idx have been used up. */
  ghost predicate Partial(d: Disk, fs: Fs, ch: Chain, offset: nat, idx: nat, k: nat, buffer: seq<u8>, start: seq<u8>)
    requires OnDisk(d, fs) && ChainOk(fs, ch, idx)
  {
    && k <= |start|
    && (k == 0 ==> buffer == start)
    && (k > 0 ==>
          offset + k <= |Content(d, fs, ch, idx)| && buffer == Content(d, fs, ch, idx)[offset..offset + k] + start[k..])
    && (forall p :: offset <= p < offset + k ==> ByteReadable(d, fs, ch, p))
  }

  /** The outcome of a request for n bytes. */
  ghost predicate Delivered(d: Disk, fs: Fs, ch: Chain, offset: nat, n: nat, buffer: seq<u8>, start: seq<u8>)
    requires OnDisk(d, fs) && n > 0
  {
    && Served(d, fs, ch, offset, n)
    && offset + n <= |Content(d, fs, ch, ClustersUpTo(fs, offset + n))|
    && n <= |start|
    && buffer == Content(d, fs, ch, ClustersUpTo(fs, offset + n))[offset..offset + n] + start[n..]
  }

  /** How many bytes a round that starts at byte o of a cluster copies. */
  function RoundTake(fs: Fs, o: nat, k: nat, length: nat): (r: nat)
    requires o <= ClusterBytes(fs) && k <= length
  {
    if length - k < ClusterBytes(fs) - o then length - k else ClusterBytes(fs) - o
  }

  /** The copying half of a round of the cluster loop, for cluster idx of the chain. */
  method CopyCluster(d: Disk, fs: Fs, ghost ch: Chain, offset: nat, idx: nat, cluster: u32, o: nat, k: nat,
                     buffer: array<u8>, length: nat, ghost start: seq<u8>) returns (r: Result<nat, FatStatus>)
    requires OnDisk(d, fs) && ChainOk(fs, ch, idx) && ch(idx) == Some(cluster)
    requires o < ClusterBytes(fs) && offset + k == idx * ClusterBytes(fs) + o && (k > 0 ==> o == 0)
    requires k < length <= buffer.Length == |start| && Partial(d, fs, ch, offset, idx, k, buffer[..], start)
    modifies buffer
    ensures r.Err? ==> Blocked(d, fs, ch, offset, length, idx, r.error)
    ensures r.Ok? ==> ClusterValid(fs, cluster) && ChainOk(fs, ch, idx + 1) && idx <= fs.clusterCount
    ensures r.Ok? ==> r.value == RoundTake(fs, o, k, length)
    ensures r.Ok? ==> Partial(d, fs, ch, offset, idx + 1, k + r.value, buffer[..], start)
  {
    NeedsCluster(fs, offset + length, idx);
    BeyondSkip(offset, k, idx, o, ClusterBytes(fs));
    if idx > fs.clusterCount {
      ChainBlocks(d, fs, ch, offset, length, idx);
      return Err(FatCorrupt);
    }
    var lba := ClusterLba(fs, cluster);
    if lba.Err? {
      InvalidCluster(fs, cluster);
      ChainBlocks(d, fs, ch, offset, length, idx);
      return Err(lba.error);
    }
    ClusterPlace(fs, cluster);
    var copied := CopySectors(d, fs, ch, offset, idx, cluster, lba.value, o, k, buffer, length, start);
    if copied.None? {
      SectorBlocks(d, fs, ch, offset, length, idx);
      return Err(FatIoError);
    }
    r := Ok(copied.value);
  }

  lemma ChainBlocks(d: Disk, fs: Fs, ch: Chain, offset: nat, n: nat, idx: nat)
    requires Mounted(fs) && n > 0 && Quotient(offset, ClusterBytes(fs)) <= idx < ClustersUpTo(fs, offset + n)
    requires idx > fs.clusterCount || (ch(idx).Some? && !ClusterValid(fs, ch(idx).value))
    ensures Blocked(d, fs, ch, offset, n, idx, FatCorrupt)
  {
  }

  /** More clusters are needed, and the FAT does not lead on. */
  lemma FatBlocks(d: Disk, fs: Fs, ch: Chain, offset: nat, n: nat, idx: nat, cluster: u32)
    requires OnDisk(d, fs) && n > 0 && Quotient(offset, ClusterBytes(fs)) <= idx
             && idx + 1 < ClustersUpTo(fs, offset + n)
    requires idx <= fs.clusterCount && ch(idx) == Some(cluster) && ClusterValid(fs, cluster)
             && ch(idx + 1) == Follow(d, fs, cluster) == None
    requires !Unreadable(d, fs, ch, offset, n, idx)
    ensures var next := NextCluster(d, fs, cluster);
            Blocked(d, fs, ch, offset, n, idx, if next.Err? then next.error else FatCorrupt)
  {
    BrokenChain(fs, ch, idx + 1);
    if NextCluster(d, fs, cluster).Err? {
      FatUnreadable(d, fs, cluster);
    }
  }

  lemma SectorBlocks(d: Disk, fs: Fs, ch: Chain, offset: nat, n: nat, idx: nat)
    requires Mounted(fs) && n > 0 && Quotient(offset, ClusterBytes(fs)) <= idx < ClustersUpTo(fs, offset + n)
    requires idx <= fs.clusterCount && ch(idx).Some? && ClusterValid(fs, ch(idx).value)
    requires !VolumeReadable(d, fs) && Unreadable(d, fs, ch, offset, n, idx)
    ensures Blocked(d, fs, ch, offset, n, idx, FatIoError)
  {
  }

  /** The sectors of a valid cluster. */
  method CopySectors(d: Disk, fs: Fs, ghost ch: Chain, ghost offset: nat, ghost idx: nat, ghost cluster: u32, lba: nat,
                     o: nat, k: nat,
                     buffer: array<u8>, length: nat, ghost start: seq<u8>) returns (copied: Option<nat>)
    requires OnDisk(d, fs) && ChainOk(fs, ch, idx + 1) && ch(idx) == Some(cluster) && lba == ClusterStart(fs, cluster)
    requires o < ClusterBytes(fs) && offset + k == idx * ClusterBytes(fs) + o && (k > 0 ==> o == 0)
    requires k < length <= buffer.Length == |start| && Partial(d, fs, ch, offset, idx, k, buffer[..], start)
    modifies buffer
    ensures copied.None? ==> !VolumeReadable(d, fs) && Unreadable(d, fs, ch, offset, length, idx)
    ensures copied.Some? ==> copied.value == RoundTake(fs, o, k, length)
    ensures copied.Some? ==> Partial(d, fs, ch, offset, idx + 1, k + copied.value, buffer[..], start)
  {
    ClusterPlace(fs, cluster);
    ghost var before := buffer[..];
    copied := CopyRun(d, lba, fs.sectorsPerCluster, o, buffer, k, length - k, ClusterData(d, fs, cluster));
    RunCopied(d, fs, ch, offset, idx, cluster, o, k, length, copied, before, buffer[..], start);
  }

  /** What the sector loop's outcome means for the request. */
  lemma RunCopied(d: Disk, fs: Fs, ch: Chain, offset: nat, idx: nat, cluster: u32, o: nat, k: nat, length: nat,
                  copied: Option<nat>,
                  before: seq<u8>, after: seq<u8>, start: seq<u8>)
    requires OnDisk(d, fs) && ChainOk(fs, ch, idx + 1) && ch(idx) == Some(cluster) && ClusterStart(fs, cluster) >= 0
    requires o < ClusterBytes(fs) && offset + k == idx * ClusterBytes(fs) + o && (k > 0 ==> o == 0)
    requires k < length <= |before| == |start| && Partial(d, fs, ch, offset, idx, k, before, start)
    requires copied.None? ==> !BytesReadable(d, ClusterStart(fs, cluster), o, Take(fs.sectorsPerCluster, o, length - k))
    requires copied.Some? ==> copied.value == Take(fs.sectorsPerCluster, o, length - k)
                              && Copied(d, ClusterStart(fs, cluster), ClusterData(d, fs, cluster), o, copied.value,
                                        after, before, k)
    ensures copied.None? ==> !VolumeReadable(d, fs) && Unreadable(d, fs, ch, offset, length, idx)
    ensures copied.Some? ==> copied.value == RoundTake(fs, o, k, length)
    ensures copied.Some? ==> Partial(d, fs, ch, offset, idx + 1, k + copied.value, after, start)
  {
    var take := RoundTake(fs, o, k, length);
    if copied.Some? {
      CopiedIsPartial(d, fs, ch, offset, idx, cluster, o, k, take, before, after, start);
    } else {
      DataUnreadable(d, fs, cluster, o, take);
      UnreadableInFile(d, fs, ch, offset, idx, cluster, o, k, take);
    }
  }

  lemma CopiedIsPartial(d: Disk, fs: Fs, ch: Chain, offset: nat, idx: nat, cluster: u32, o: nat, k: nat, take: nat,
                        before: seq<u8>, after: seq<u8>, start: seq<u8>)
    requires OnDisk(d, fs) && ChainOk(fs, ch, idx + 1) && ch(idx) == Some(cluster) && ClusterStart(fs, cluster) >= 0
    requires offset + k == idx * ClusterBytes(fs) + o && o + take <= ClusterBytes(fs) && (k > 0 ==> o == 0)
    requires k + take <= |start| == |before| && Partial(d, fs, ch, offset, idx, k, before, start)
    requires Copied(d, ClusterStart(fs, cluster), ClusterData(d, fs, cluster), o, take, after, before, k)
    ensures Partial(d, fs, ch, offset, idx + 1, k + take, after, start)
  {
    ReadableInFile(d, fs, ch, idx, o, take);
    PartialExtend(d, fs, ch, offset, idx, o, k, take, before, after, start);
  }

  lemma UnreadableInFile(d: Disk, fs: Fs, ch: Chain, offset: nat, idx: nat, cluster: u32, o: nat, k: nat, take: nat)
    requires OnDisk(d, fs) && ch(idx) == Some(cluster) && ClusterValid(fs, cluster) && ClusterStart(fs, cluster) >= 0
    requires offset + k == idx * ClusterBytes(fs) + o && o + take <= ClusterBytes(fs)
    requires !BytesReadable(d, ClusterStart(fs, cluster), o, take)
    ensures exists p :: offset + k <= p < offset + k + take && Quotient(p, ClusterBytes(fs)) == idx
              && !ByteReadable(d, fs, ch, p)
  {
    ReadableInFile(d, fs, ch, idx, o, take);
    var p :| offset + k <= p < offset + k + take && !ByteReadable(d, fs, ch, p);
    InCluster(idx, ClusterBytes(fs), p - idx * ClusterBytes(fs));
  }

  lemma PartialExtend(d: Disk, fs: Fs, ch: Chain, offset: nat, idx: nat, o: nat, k: nat, take: nat, before: seq<u8>,
                      after: seq<u8>, start: seq<u8>)
    requires OnDisk(d, fs) && ChainOk(fs, ch, idx + 1) && Partial(d, fs, ch, offset, idx, k, before, start)
    requires offset + k == idx * ClusterBytes(fs) + o && o + take <= ClusterBytes(fs) && (k > 0 ==> o == 0)
    requires k + take <= |start| == |before|
    requires after == before[..k] + ClusterData(d, fs, ch(idx).value)[o..o + take] + before[k + take..]
    requires forall p :: offset + k <= p < offset + k + take ==> ByteReadable(d, fs, ch, p)
    ensures Partial(d, fs, ch, offset, idx + 1, k + take, after, start)
  {
    Distribute(idx, ClusterBytes(fs));
    ContentRound(d, fs, ch, idx, offset, k, o, take);
    assert before[k + take..] == start[k + take..];
    if k > 0 {
      assert before[..k] == Content(d, fs, ch, idx)[offset..offset + k];
    } else {
      assert before[..k] == [];
      if take == 0 {
        assert after == before;
      }
    }
  }

  lemma InvalidCluster(fs: Fs, cluster: u32)
    requires Mounted(fs) && ClusterLba(fs, cluster).Err?
    ensures ClusterLba(fs, cluster).error == FatCorrupt && !ClusterValid(fs, cluster)
  {
    if ClusterValid(fs, cluster) {
      ClusterPlace(fs, cluster);
    }
  }

  lemma ChainStart(d: Disk, fs: Fs, first: u32)
    ensures ChainOf(d, fs, first)(0) == Some(first)
  {
  }

  lemma ChainNext(d: Disk, fs: Fs, first: u32, idx: nat, cluster: u32)
    requires ChainOf(d, fs, first)(idx) == Some(cluster)
    ensures ChainOf(d, fs, first)(idx + 1) == Follow(d, fs, cluster)
    ensures Follow(d, fs, cluster).Some? ==> ClusterValid(fs, cluster)
  {
  }

  lemma BrokenChain(fs: Fs, ch: Chain, idx: nat)
    requires ch(idx).None? || !ClusterValid(fs, ch(idx).value)
    ensures forall n :: n > idx ==> !ChainOk(fs, ch, n)
  {
  }

  /** The skip loop: follows the chain to cluster n, any failure being corruption. */
  method SkipClusters(d: Disk, fs: Fs, first: u32, n: nat) returns (cluster: Option<u32>)
    ensures cluster.Some? ==> ChainOf(d, fs, first)(n) == cluster && ChainOk(fs, ChainOf(d, fs, first), n)
    ensures cluster.None? ==>
              exists i {:trigger ChainOk(fs, ChainOf(d, fs, first), i)} ::
                0 <= i < n && ChainOf(d, fs, first)(i + 1) == None
                                                                       && ChainOk(fs, ChainOf(d, fs, first), i)
                                                                          && ChainOf(d, fs, first)(i).Some?
  {
    var c := first;
    ChainStart(d, fs, first);
    ghost var ch := ChainOf(d, fs, first);
    for i := 0 to n
      invariant ch(i) == Some(c) && ChainOk(fs, ch, i)
    {
      ChainNext(d, fs, first, i, c);
      var next := Follow(d, fs, c);
      if next.None? {
        assert ch(i + 1) == None;
        return None;
      }
      c := next.value;
    }
    cluster := Some(c);
  }

  /** What follows the copy: done, or on to the next cluster of the chain. */
  lemma RoundEnd(d: Disk, fs: Fs, ch: Chain, offset: nat, idx: nat, o: nat, k: nat, take: nat, length: nat,
                 buffer: seq<u8>, start: seq<u8>)
    requires OnDisk(d, fs) && ChainOk(fs, ch, idx + 1) && idx <= fs.clusterCount
    requires o < ClusterBytes(fs) && offset + k == idx * ClusterBytes(fs) + o
    requires k < length <= |start| && take == RoundTake(fs, o, k, length)
    requires Partial(d, fs, ch, offset, idx + 1, k + take, buffer, start)
    ensures k + take == length ==> Delivered(d, fs, ch, offset, length, buffer, start)
    ensures k + take < length ==>
              offset + (k + take) == (idx + 1) * ClusterBytes(fs) && idx + 1 < ClustersUpTo(fs, offset + length)
  {
    Distribute(idx, ClusterBytes(fs));
    if k + take == length {
      LastCluster(fs, offset + length, idx);
    } else {
      NeedsCluster(fs, offset + length, idx + 1);
    }
  }

  /** After a round that did not finish, every requested byte of its cluster was readable. */
  lemma RoundReadable(d: Disk, fs: Fs, ch: Chain, offset: nat, idx: nat, o: nat, k: nat, take: nat, length: nat,
                      buffer: seq<u8>, start: seq<u8>)
    requires OnDisk(d, fs) && ChainOk(fs, ch, idx + 1) && offset + (k + take) == (idx + 1) * ClusterBytes(fs)
    requires Partial(d, fs, ch, offset, idx + 1, k + take, buffer, start)
    ensures !Unreadable(d, fs, ch, offset, length, idx)
  {
    forall p | offset <= p < offset + length && Quotient(p, ClusterBytes(fs)) == idx
      ensures ByteReadable(d, fs, ch, p)
    {
      RoundUp(p, ClusterBytes(fs));
    }
  }

  /** State of the cluster loop: idx clusters are behind, k bytes are in the buffer, and
      the next byte is byte o of cluster idx. */
  ghost predicate Reading(d: Disk, fs: Fs, ch: Chain, offset: nat, idx: nat, cluster: u32, o: nat, k: nat,
                          buffer: seq<u8>, start: seq<u8>)
  {
    && OnDisk(d, fs) && ChainOk(fs, ch, idx) && ch(idx) == Some(cluster)
    && o < ClusterBytes(fs) && offset + k == idx * ClusterBytes(fs) + o
       && (k > 0 ==> o == 0 && idx <= fs.clusterCount + 1)
    && Partial(d, fs, ch, offset, idx, k, buffer, start)
  }

  datatype Round = Failed(status: FatStatus) | Done | More(cluster: u32, copied: nat)

  /** One round of the cluster loop. */
  method ReadRound(d: Disk, fs: Fs, ghost ch: Chain, offset: nat, idx: nat, cluster: u32, o: nat, k: nat,
                   buffer: array<u8>, length: nat, ghost start: seq<u8>) returns (r: Round)
    requires Reading(d, fs, ch, offset, idx, cluster, o, k, buffer[..], start) && k < length <= buffer.Length == |start|
    requires ch(idx + 1) == Follow(d, fs, cluster)
    modifies buffer
    ensures r.Failed? ==> Blocked(d, fs, ch, offset, length, idx, r.status)
    ensures r.Done? ==> Delivered(d, fs, ch, offset, length, buffer[..], start)
    ensures r.More? ==> 0 < r.copied < length - k
                        && Reading(d, fs, ch, offset, idx + 1, r.cluster, 0, k + r.copied, buffer[..], start)
  {
    var copied := CopyCluster(d, fs, ch, offset, idx, cluster, o, k, buffer, length, start);
    if copied.Err? {
      return Failed(copied.error);
    }
    RoundEnd(d, fs, ch, offset, idx, o, k, copied.value, length, buffer[..], start);
    if k + copied.value == length {
      return Done;
    }
    BeyondSkip(offset, k, idx, o, ClusterBytes(fs));
    RoundReadable(d, fs, ch, offset, idx, o, k, copied.value, length, buffer[..], start);
    var next := Advance(d, fs, ch, offset, length, idx, cluster);
    r := if next.Err? then Failed(next.error) else More(next.value, copied.value);
  }

  /** On to the next cluster, when more are needed. */
  method Advance(d: Disk, fs: Fs, ghost ch: Chain, ghost offset: nat, ghost n: nat, ghost idx: nat, cluster: u32)
    returns (next: Result<u32, FatStatus>)
    requires OnDisk(d, fs) && n > 0 && Quotient(offset, ClusterBytes(fs)) <= idx
             && idx + 1 < ClustersUpTo(fs, offset + n)
    requires idx <= fs.clusterCount && ch(idx) == Some(cluster) && ClusterValid(fs, cluster)
             && ch(idx + 1) == Follow(d, fs, cluster)
    requires !Unreadable(d, fs, ch, offset, n, idx)
    ensures next.Err? ==> Blocked(d, fs, ch, offset, n, idx, next.error)
    ensures next.Ok? ==> ch(idx + 1) == Some(next.value)
  {
    next := NextCluster(d, fs, cluster);
    if next.Err? || next.value >= EOC_MIN {
      FatBlocks(d, fs, ch, offset, n, idx, cluster);
      next := Err(if next.Err? then next.error else FatCorrupt);
    }
  }

  // The loop itself only passes its invariant and goals on, so it holds them as function
  // values; Goals says what they stand for.

  type LoopInv = (nat, u32, nat, nat, seq<u8>) -> bool

  datatype Request = Request(d: Disk, fs: Fs, ch: Chain, offset: nat, length: nat, start: seq<u8>)

  ghost predicate Asks(q: Request) { OnDisk(q.d, q.fs) && 0 < q.length <= |q.start| }

  ghost predicate Goals(q: Request, inv: LoopInv, done: seq<u8> -> bool, fails: FatStatus -> bool)
    requires Asks(q)
  {
    && (forall idx: nat, c: u32, o: nat, k: nat,
        b: seq<u8> {:trigger Reading(q.d, q.fs, q.ch, q.offset, idx, c, o, k, b, q.start)} ::
          inv(idx, c, o, k, b) == Reading(q.d, q.fs, q.ch, q.offset, idx, c, o, k, b, q.start))
    && (forall b: seq<u8> {:trigger Delivered(q.d, q.fs, q.ch, q.offset, q.length, b, q.start)} ::
          done(b) == Delivered(q.d, q.fs, q.ch, q.offset, q.length, b, q.start))
    && (forall e: FatStatus {:trigger Fails(q.d, q.fs, q.ch, q.offset, q.length, e)} ::
          fails(e) == Fails(q.d, q.fs, q.ch, q.offset, q.length, e))
  }

  /** A round, on the chain that the FAT gives. */
  method ReadOnChain(ghost q: Request, ghost first: u32, d: Disk, fs: Fs, offset: nat, idx: nat, cluster: u32, o: nat,
                     k: nat,
                     buffer: array<u8>, length: nat, ghost inv: LoopInv, ghost done: seq<u8> -> bool,
                     ghost fails: FatStatus -> bool)
    returns (r: Round)
    requires Asks(q) && Goals(q, inv, done, fails) && q.ch == ChainOf(d, fs, first)
    requires q.d == d && q.fs == fs && q.offset == offset && q.length == length && |q.start| == buffer.Length
    requires inv(idx, cluster, o, k, buffer[..]) && k < length
    modifies buffer
    ensures r.Failed? ==> fails(r.status)
    ensures r.Done? ==> done(buffer[..])
    ensures r.More? ==> 0 < r.copied < length - k && inv(idx + 1, r.cluster, 0, k + r.copied, buffer[..])
  {
    assert Reading(d, fs, q.ch, offset, idx, cluster, o, k, buffer[..], q.start);
    ChainNext(d, fs, first, idx, cluster);
    ClearSoFar(d, fs, first, q.ch, offset, length, idx, cluster, o, k, buffer[..], q.start);
    r := ReadRound(d, fs, q.ch, offset, idx, cluster, o, k, buffer, length, q.start);
    assert r.Failed? ==> Fails(d, fs, q.ch, offset, length, r.status);
  }

  /** The clusters behind the loop were no obstacle. */
  lemma ClearSoFar(d: Disk, fs: Fs, first: u32, ch: Chain, offset: nat, length: nat, idx: nat, cluster: u32, o: nat,
                   k: nat,
                   buffer: seq<u8>, start: seq<u8>)
    requires Reading(d, fs, ch, offset, idx, cluster, o, k, buffer, start) && ch == ChainOf(d, fs, first) && length > 0
    ensures Clear(d, fs, ch, offset, length, idx)
  {
    BeyondSkip(offset, k, idx, o, ClusterBytes(fs));
    forall j | 0 <= j < idx
      ensures Obstacle(d, fs, ch, offset, length, j) == None
    {
      ClearAt(d, fs, first, ch, offset, length, idx, cluster, o, k, buffer, start, j);
    }
  }

  lemma ClearAt(d: Disk, fs: Fs, first: u32, ch: Chain, offset: nat, length: nat, idx: nat, cluster: u32, o: nat,
                k: nat,
                buffer: seq<u8>, start: seq<u8>, j: nat)
    requires Reading(d, fs, ch, offset, idx, cluster, o, k, buffer, start) && ch == ChainOf(d, fs, first) && length > 0
    requires j < idx && Quotient(offset, ClusterBytes(fs)) <= idx
             && (k == 0 ==> Quotient(offset, ClusterBytes(fs)) == idx)
    ensures Obstacle(d, fs, ch, offset, length, j) == None
  {
    assert ch(j).Some? && ch(j + 1).Some?;
    ChainNext(d, fs, first, j, ch(j).value);
    BehindReadable(d, fs, ch, offset, length, idx, o, k, j);
  }

  lemma BehindReadable(d: Disk, fs: Fs, ch: Chain, offset: nat, length: nat, idx: nat, o: nat, k: nat, j: nat)
    requires Mounted(fs) && j < idx && offset + k == idx * ClusterBytes(fs) + o
    requires forall p :: offset <= p < offset + k ==> ByteReadable(d, fs, ch, p)
    ensures !Unreadable(d, fs, ch, offset, length, j)
  {
    forall p | offset <= p < offset + length && Quotient(p, ClusterBytes(fs)) == j
      ensures ByteReadable(d, fs, ch, p)
    {
      RoundUp(p, ClusterBytes(fs));
      MulMonotone(j + 1, idx, ClusterBytes(fs));
    }
  }

  lemma ReadingStarts(d: Disk, fs: Fs, ch: Chain, offset: nat, skip: nat, cluster: u32, buffer: seq<u8>)
    requires OnDisk(d, fs) && ChainOk(fs, ch, skip) && ch(skip) == Some(cluster) && skip == offset / ClusterBytes(fs)
    ensures Reading(d, fs, ch, offset, skip, cluster, offset % ClusterBytes(fs), 0, buffer, buffer)
  {
    assert offset == ClusterBytes(fs) * (offset / ClusterBytes(fs)) + offset % ClusterBytes(fs);
  }

  /** The cluster loop of josh_fat32_read_file. */
  method ReadLoop(ghost q: Request, ghost first: u32, d: Disk, fs: Fs, start: u32, skip: nat, offset: nat,
                  buffer: array<u8>, length: nat,
                  ghost inv: LoopInv, ghost done: seq<u8> -> bool, ghost fails: FatStatus -> bool)
    returns (status: Option<FatStatus>)
    requires Asks(q) && Goals(q, inv, done, fails) && q.ch == ChainOf(d, fs, first)
    requires q.d == d && q.fs == fs && q.offset == offset && q.length == length && |q.start| == buffer.Length
    requires inv(skip, start, offset % ClusterBytes(fs), 0, buffer[..])
    modifies buffer
    ensures status.Some? ==> fails(status.value)
    ensures status.None? ==> done(buffer[..])
  {
    var idx: nat, cluster: u32, o: nat, k: nat := skip, start, offset % ClusterBytes(fs), 0;
    while true
      invariant k < length && inv(idx, cluster, o, k, buffer[..])
      decreases length - k
    {
      var round := ReadOnChain(q, first, d, fs, offset, idx, cluster, o, k, buffer, length, inv, done, fails);
      match round
      case Failed(e) => return Some(e);
      case Done => return None;
      case More(next, copied) => idx, cluster, o, k := idx + 1, next, 0, k + copied;
    }
  }

  /** The loop, for a request that starts at cluster skip of the chain. */
  method ReadClusters(d: Disk, fs: Fs, ghost first: u32, ghost ch: Chain, start: u32, skip: nat, offset: nat,
                      buffer: array<u8>, length: nat)
    returns (status: Option<FatStatus>)
    requires OnDisk(d, fs) && 0 < length <= buffer.Length && ch == ChainOf(d, fs, first)
    requires ChainOk(fs, ch, skip) && ch(skip) == Some(start) && skip == offset / ClusterBytes(fs)
    modifies buffer
    ensures status.Some? ==> Fails(d, fs, ch, offset, length, status.value)
    ensures status.None? ==> Delivered(d, fs, ch, offset, length, buffer[..], old(buffer[..]))
  {
    ghost var was := buffer[..];
    ghost var q := Request(d, fs, ch, offset, length, was);
    ghost var inv: LoopInv := (idx: nat, c: u32, o: nat, k: nat, b: seq<u8>) => Reading(d, fs, ch, offset, idx, c, o, k,
                                                                                        b, was);
    ghost var done: seq<u8> -> bool := (b: seq<u8>) => Delivered(d, fs, ch, offset, length, b, was);
    ghost var fails: FatStatus -> bool := (e: FatStatus) => Fails(d, fs, ch, offset, length, e);
    ReadingStarts(d, fs, ch, offset, skip, start, was);
    status := ReadLoop(q, first, d, fs, start, skip, offset, buffer, length, inv, done, fails);
    assert status.None? ==> done(buffer[..]);
    assert status.Some? ==> fails(status.value);
  }

  // A request is cut to the end of the file first.
  function Available(f: File, offset: u32, length: u32): (r: nat)
    requires offset <= f.size
  {
    if length > f.size - offset then f.size - offset else length
  }

  /** josh_fat32_read_file. Success delivers exactly the requested bytes of the chain's
      concatenation and leaves the rest of the buffer alone, and it happens exactly when
      the request can be served. */
  method ReadFile(d: Disk, fs: Fs, f: File, offset: u32, buffer: array<u8>, length: u32)
    returns (status: Option<FatStatus>, bytesRead: u32)
    requires OnDisk(d, fs) && length <= buffer.Length
    modifies buffer
    ensures status.None? <==> !IsDirectory(f) && offset <= f.size
                              && (Available(f, offset, length) > 0 ==>
                                    Served(d, fs, ChainOf(d, fs, f.firstCluster), offset, Available(f, offset, length)))
    ensures IsDirectory(f) ==> status == Some(NotDirectory)
    ensures !IsDirectory(f) && offset > f.size ==> status == Some(BadPath)
    ensures status.Some? && !IsDirectory(f) && offset <= f.size ==>
              Available(f, offset, length) > 0
              && Fails(d, fs, ChainOf(d, fs, f.firstCluster), offset, Available(f, offset, length), status.value)
    ensures bytesRead == if status.None? then Available(f, offset, length) else 0
    ensures status.None? ==> bytesRead <= length && offset + bytesRead <= f.size
                             && (bytesRead == length || offset + bytesRead == f.size)
    ensures status.None? && bytesRead > 0 ==>
              Delivered(d, fs, ChainOf(d, fs, f.firstCluster), offset, bytesRead, buffer[..], old(buffer[..]))
    ensures status.None? && bytesRead == 0 ==> buffer[..] == old(buffer[..])
  {
    bytesRead := 0;
    if IsDirectory(f) {
      return Some(NotDirectory), 0;
    }
    if offset > f.size {
      return Some(BadPath), 0;
    }
    var n := Available(f, offset, length);
    if n == 0 {
      return None, 0;
    }
    ghost var ch := ChainOf(d, fs, f.firstCluster);
    ChainStart(d, fs, f.firstCluster);
    var skip := Quotient(offset, ClusterBytes(fs));
    SkipNeeded(fs, offset, n);
    if !ClusterValid(fs, f.firstCluster) {
      ChainNext(d, fs, f.firstCluster, 0, f.firstCluster);
      BrokenChain(fs, ch, 0);
      assert Blocked(d, fs, ch, offset, n, 0, FatCorrupt);
      return Some(FatCorrupt), 0;
    }
    var cluster := SkipClusters(d, fs, f.firstCluster, skip);
    if cluster.None? {
      SkipFails(d, fs, ch, offset, n, skip);
      return Some(FatCorrupt), 0;
    }
    status := ReadClusters(d, fs, f.firstCluster, ch, cluster.value, skip, offset, buffer, n);
    bytesRead := if status.None? then n else 0;
  }

  lemma SkipFails(d: Disk, fs: Fs, ch: Chain, offset: nat, n: nat, skip: nat)
    requires Mounted(fs) && n > 0 && skip == Quotient(offset, ClusterBytes(fs)) < ClustersUpTo(fs, offset + n)
    requires exists i :: 0 <= i < skip && ch(i + 1) == None && ChainOk(fs, ch, i) && ch(i).Some?
    ensures Fails(d, fs, ch, offset, n, FatCorrupt)
  {
    var i :| 0 <= i < skip && ch(i + 1) == None && ChainOk(fs, ch, i) && ch(i).Some?;
    BrokenChain(fs, ch, i + 1);
    assert Blocked(d, fs, ch, offset, n, i, FatCorrupt);
    assert Clear(d, fs, ch, offset, n, i);
  }

  lemma SkipNeeded(fs: Fs, offset: nat, n: nat)
    requires fs.sectorsPerCluster > 0 && n > 0
    ensures offset / ClusterBytes(fs) < ClustersUpTo(fs, offset + n)
  {
    var m := ClusterBytes(fs);
    assert offset == m * (offset / m) + offset % m;
    assert m * (offset / m) == offset / m * m;
    QuotientBelow(offset, m);
    NeedsCluster(fs, offset + n, offset / m);
  }

  /** On a chain that ends, the guard of josh_fat32_read_file never fires: a request gets
      through the chain exactly when the chain has that many clusters. */
  lemma GuardNeverFires(d: Disk, fs: Fs, first: u32, n: nat, offset: nat, k: nat)
    requires Mounted(fs) && Terminates(d, fs, first, n) && k > 0
    ensures LongEnough(fs, ChainOf(d, fs, first), offset, k) <==> ClustersUpTo(fs, offset + k) <= n
  {
    var ch := ChainOf(d, fs, first);
    TerminatingIsShort(d, fs, first, n);
    forall i | 0 <= i < n
      ensures ch(i).Some? && ClusterValid(fs, ch(i).value)
    {
      TerminatingIsValid(d, fs, first, n, i);
    }
    NthNext(d, fs, first, n - 1);
    BrokenChain(fs, ch, n);
  }

  // ----- reading in pieces -----

  /** The bytes a served request delivers. */
  ghost function Bytes(d: Disk, fs: Fs, ch: Chain, offset: nat, n: nat): (r: seq<u8>)
    requires OnDisk(d, fs) && n > 0 && Served(d, fs, ch, offset, n)
    ensures |r| == n
  {
    RequestFits(fs, offset + n);
    Content(d, fs, ch, ClustersUpTo(fs, offset + n))[offset..offset + n]
  }

  lemma RequestFits(fs: Fs, e: nat)
    requires fs.sectorsPerCluster > 0 && e > 0
    ensures e <= ClustersUpTo(fs, e) * ClusterBytes(fs)
  {
    RoundUp(e - 1, ClusterBytes(fs));
  }

  lemma RoundUp(a: nat, m: nat)
    requires m > 0
    ensures a < (Quotient(a, m) + 1) * m
  {
    assert a == m * (a / m) + a % m;
    Distribute(Quotient(a, m), m);
  }

  lemma ClustersMonotone(fs: Fs, e: nat, e': nat)
    requires fs.sectorsPerCluster > 0 && 0 < e <= e'
    ensures ClustersUpTo(fs, e) <= ClustersUpTo(fs, e')
  {
    var m := ClusterBytes(fs);
    QuotientBelow(e - 1, m);
    assert m * ((e - 1) / m) == (e - 1) / m * m;
    NeedsCluster(fs, e', (e - 1) / m);
  }

  /** Reading [a, c) succeeds exactly when reading [a, b) and [b, c) both do, and then
      yields the two pieces one after the other. */
  lemma ReadsCompose(d: Disk, fs: Fs, ch: Chain, a: nat, b: nat, c: nat)
    requires OnDisk(d, fs) && a < b < c
    ensures Served(d, fs, ch, a, c - a) <==> Served(d, fs, ch, a, b - a) && Served(d, fs, ch, b, c - b)
    ensures Served(d, fs, ch, a, c - a) ==>
              Bytes(d, fs, ch, a, c - a) == Bytes(d, fs, ch, a, b - a) + Bytes(d, fs, ch, b, c - b)
  {
    ClustersMonotone(fs, b, c);
    if Served(d, fs, ch, a, c - a) {
      var p, q := ClustersUpTo(fs, b), ClustersUpTo(fs, c);
      ContentGrows(d, fs, ch, p, q);
      RequestFits(fs, b);
      RequestFits(fs, c);
      var x, y := Content(d, fs, ch, p), Content(d, fs, ch, q);
      assert x[a..b] == y[a..b];
      assert y[a..c] == y[a..b] + y[b..c];
    }
  }
}
