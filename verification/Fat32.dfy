/** FAT32: mounting, cluster geometry and chains. */
module Fat32 {
  import opened Words
  import opened Bits
  import opened Block
  import opened Partition
  import opened Chains

  const MIN_CLUSTERS := 65525
  const EOC_MIN := 0x0FFF_FFF8
  const BAD_CLUSTER := 0x0FFF_FFF7
  const CLUSTER_MASK := 0x0FFF_FFFF

  datatype FatStatus = FatIoError | NotFat32 | FatCorrupt | FatUnsupported | NotFound | NotDirectory | BadPath

  datatype Fs = Fs(partitionLba: u64, partitionSectors: u64, fatLba: u32, dataLba: u32, sectorsPerFat: u32,
                   clusterCount: u32, rootCluster: u32, sectorsPerCluster: u8, fatCount: u8)

  datatype File = File(firstCluster: u32, size: u32, attributes: u8)

  predicate PowerOfTwoU8(v: u8) { v != 0 && And(v, v - 1) == 0 }

  // ----- mount -----

  /** The BIOS parameter block fields josh_fat32_mount reads. */
  datatype Bpb = Bpb(bytesPerSector: u16, sectorsPerCluster: u8, reserved: u16, fatCount: u8, rootEntries: u16,
                     total16: u16, fat16: u16, total32: u32, fat32: u32, rootCluster: u32)

  function ParseBpb(b: Sector): (r: Bpb)
  {
    Bpb(Le16(b, 11), b[13], Le16(b, 14), b[16], Le16(b, 17), Le16(b, 19), Le16(b, 22), Le32(b, 32), Le32(b, 36),
        Le32(b, 44))
  }

  /** The checks on the parameter block, in order; on success the mounted geometry. */
  function CheckBpb(b: Bpb, first: u64, count: u64): (r: Result<Fs, FatStatus>)
  {
    if b.bytesPerSector != 512 then Err(FatUnsupported)
    else if !PowerOfTwoU8(b.sectorsPerCluster) || b.sectorsPerCluster > 128 then Err(FatCorrupt)
    else if b.reserved == 0 || b.fatCount == 0 || b.fatCount > 2 || b.rootEntries != 0 || b.fat16 != 0 || b.fat32 == 0
    then Err(NotFat32)
    else
      var total: u32 := if b.total16 != 0 then b.total16 else b.total32;
      if total == 0 || total > count then Err(FatCorrupt)
      else
        var fatArea: nat := if b.fatCount == 1 then b.fat32 else 2 * b.fat32;
        if b.reserved + fatArea >= total then Err(FatCorrupt)
        else
          var dataSectors := total - b.reserved - fatArea;
          var clusters := dataSectors / b.sectorsPerCluster;
          QuotientBelow(dataSectors, b.sectorsPerCluster);
          if clusters < MIN_CLUSTERS then Err(NotFat32)
          else if b.rootCluster < 2 || b.rootCluster >= Wrap32(clusters + 2) then Err(FatCorrupt)
          else Ok(Fs(first, total, b.reserved, b.reserved + fatArea, b.fat32, clusters, b.rootCluster,
                     b.sectorsPerCluster, b.fatCount))
  }

  lemma QuotientBelow(a: nat, d: nat)
    requires d > 0
    ensures 0 <= a / d <= a && d * (a / d) <= a
  {
    assert a == d * (a / d) + a % d;
    Grows(d, a / d);
  }

  lemma Grows(d: int, q: int)
    requires d > 0
    ensures q >= 0 ==> d * q >= q
    ensures q < 0 ==> d * q < 0
  {
  }

  /** josh_fat32_mount. */
  function Mount(d: Disk, p: Partition): (r: Result<Fs, FatStatus>)
  {
    if p.count == 0 then Err(NotFat32)
    else if p.first >= |d.sectors| || p.count > |d.sectors| - p.first then Err(FatCorrupt)
    else
      match ReadBlock(d, p.first)
      case None => Err(FatIoError)
      case Some(b) => if b[510] != 0x55 || b[511] != 0xAA then Err(NotFat32) else CheckBpb(ParseBpb(b), p.first,
                                                                                           p.count)
  }

  /** What every mounted file system satisfies: FATs and data clusters are laid out one
      after the other inside the partition, and the cluster arithmetic cannot overflow. */
  ghost predicate Mounted(fs: Fs)
  {
    && 1 <= fs.sectorsPerCluster <= 128
    && 1 <= fs.fatLba && fs.fatLba + fs.sectorsPerFat <= fs.dataLba
    && fs.dataLba + fs.sectorsPerCluster * fs.clusterCount <= fs.partitionSectors < TWO_32
    && fs.clusterCount >= MIN_CLUSTERS && fs.clusterCount + 2 < TWO_32
    && 2 <= fs.rootCluster < fs.clusterCount + 2
  }

  lemma CheckBpbLayout(b: Bpb, first: u64, count: u64)
    requires CheckBpb(b, first, count).Ok?
    ensures var fs := CheckBpb(b, first, count).value;
            Mounted(fs) && fs.partitionLba == first && fs.partitionSectors <= count
  {
    var total: u32 := if b.total16 != 0 then b.total16 else b.total32;
    var fatArea: nat := if b.fatCount == 1 then b.fat32 else 2 * b.fat32;
    DataFits(total, b.reserved + fatArea, b.sectorsPerCluster);
    WrapSmall((total - (b.reserved + fatArea)) / b.sectorsPerCluster + 2);
  }

  lemma ValidRange(fs: Fs, c: u32)
    requires Mounted(fs) && ClusterValid(fs, c)
    ensures 2 <= c < fs.clusterCount + 2
  {
    WrapSmall(fs.clusterCount + 2);
  }

  lemma DataFits(total: nat, before: nat, spc: nat)
    requires before <= total && spc > 0
    ensures before + spc * ((total - before) / spc) <= total && (total - before) / spc <= total - before
  {
    QuotientBelow(total - before, spc);
  }

  lemma MountLayout(d: Disk, p: Partition)
    requires Mount(d, p).Ok?
    ensures Mounted(Mount(d, p).value) && Mount(d, p).value.partitionLba == p.first
    ensures Mount(d, p).value.partitionSectors <= p.count && p.first + p.count <= |d.sectors|
  {
    CheckBpbLayout(ParseBpb(ReadBlock(d, p.first).value), p.first, p.count);
  }

  // ----- geometry -----

  predicate ClusterValid(fs: Fs, c: u32) { 2 <= c < Wrap32(fs.clusterCount + 2) }

  function ClusterLba(fs: Fs, c: u32): (r: Result<nat, FatStatus>)
  {
    if !ClusterValid(fs, c) then Err(FatCorrupt)
    else
      var relative := fs.dataLba + (c - 2) * fs.sectorsPerCluster;
      if relative < 0 || relative >= fs.partitionSectors || fs.sectorsPerCluster > fs.partitionSectors - relative
      then Err(FatCorrupt)
      else Ok(fs.partitionLba + relative)
  }

  /** First sector of a cluster. */
  function ClusterStart(fs: Fs, c: u32): (r: int) { fs.partitionLba + fs.dataLba + (c - 2) * fs.sectorsPerCluster }

  /** On a mounted file system every valid cluster lies inside the partition and behind
      the FATs, and distinct clusters do not share a sector. */
  lemma ClusterPlace(fs: Fs, c: u32)
    requires Mounted(fs) && ClusterValid(fs, c)
    ensures ClusterLba(fs, c) == Ok(ClusterStart(fs, c))
    ensures fs.partitionLba + fs.fatLba + fs.sectorsPerFat <= ClusterStart(fs, c)
    ensures ClusterStart(fs, c) + fs.sectorsPerCluster <= fs.partitionLba + fs.partitionSectors
  {
    ClusterBounds(c - 2, fs.clusterCount, fs.sectorsPerCluster);
  }

  lemma ClusterBounds(k: nat, n: nat, spc: nat)
    requires k < n
    ensures 0 <= k * spc && k * spc + spc <= spc * n
  {
    MulMonotone(k + 1, n, spc);
    Distribute(k, spc);
  }

  lemma ClustersDisjoint(fs: Fs, c: u32, c': u32)
    requires Mounted(fs) && ClusterValid(fs, c) && ClusterValid(fs, c') && c < c'
    ensures ClusterStart(fs, c) + fs.sectorsPerCluster <= ClusterStart(fs, c')
  {
    ClusterBounds(c - 2, c' - 2, fs.sectorsPerCluster);
  }

  // ----- the FAT -----

  lemma FatSectorInside(fs: Fs, q: nat)
    requires Mounted(fs) && q < fs.sectorsPerFat
    ensures fs.fatLba + q < fs.partitionSectors
  {
    MulMonotone(0, fs.clusterCount, fs.sectorsPerCluster);
  }

  /** next_cluster: the masked FAT entry, where 0, 1 and the bad mark are errors. */
  function NextCluster(d: Disk, fs: Fs, c: u32): (r: Result<u32, FatStatus>)
  {
    if !ClusterValid(fs, c) then Err(FatCorrupt)
    else if c * 4 / 512 >= fs.sectorsPerFat || c * 4 % 512 > 508 then Err(FatCorrupt)
    else
      match ReadBlock(d, fs.partitionLba + fs.fatLba + c * 4 / 512)
      case None => Err(FatIoError)
      case Some(s) =>
        var v := Le32(s, c * 4 % 512) % 0x1000_0000;
        if v == BAD_CLUSTER || v == 0 || v == 1 then Err(FatCorrupt) else Ok(v)
  }

  lemma MaskIsRemainder(x: u32)
    ensures And(x, CLUSTER_MASK) == x % 0x1000_0000
  {
    assert Pow2(28) == 0x1000_0000 by {
      Pow2Values();
      Pow2Add(28, 4);
      assert Pow2(4) == 16;
    }
    AndLow(x, 28);
  }

  /** The next data cluster of a chain, none at its end or on an error. */
  function Follow(d: Disk, fs: Fs, c: u32): (r: Option<u32>)
  {
    var next := NextCluster(d, fs, c);
    if next.Ok? && next.value < EOC_MIN then Some(next.value) else None
  }

  function Step(d: Disk, fs: Fs): (r: Successor) { c => Follow(d, fs, c) }

  /** The n-th cluster of the chain that starts at first, if the chain gets that far. */
  function Nth(d: Disk, fs: Fs, first: u32, n: nat): (r: Option<u32>) { Iter(Step(d, fs), first, n) }

  predicate AtEnd(d: Disk, fs: Fs, c: u32)
  {
    NextCluster(d, fs, c).Ok? && NextCluster(d, fs, c).value >= EOC_MIN
  }

  /** The chain from first has exactly n clusters and ends in an end-of-chain mark. */
  ghost predicate Terminates(d: Disk, fs: Fs, first: u32, n: nat)
  {
    n > 0 && Nth(d, fs, first, n - 1).Some? && AtEnd(d, fs, Nth(d, fs, first, n - 1).value)
  }

  lemma FollowedIsValid(d: Disk, fs: Fs, c: u32)
    requires Follow(d, fs, c).Some? || AtEnd(d, fs, c)
    ensures ClusterValid(fs, c)
  {
  }

  lemma NthNext(d: Disk, fs: Fs, first: u32, i: nat)
    requires Nth(d, fs, first, i).Some?
    ensures Nth(d, fs, first, i + 1) == Follow(d, fs, Nth(d, fs, first, i).value)
  {
  }

  lemma NthPrefix(d: Disk, fs: Fs, first: u32, i: nat, n: nat)
    requires i <= n && Nth(d, fs, first, n).Some?
    ensures Nth(d, fs, first, i).Some?
  {
    IterPrefix(Step(d, fs), first, i, n);
  }

  /** Every cluster of a terminating chain is valid. */
  lemma TerminatingIsValid(d: Disk, fs: Fs, first: u32, n: nat, i: nat)
    requires Terminates(d, fs, first, n) && i < n
    ensures Nth(d, fs, first, i).Some? && ClusterValid(fs, Nth(d, fs, first, i).value)
  {
    NthPrefix(d, fs, first, i, n - 1);
    if i < n - 1 {
      NthPrefix(d, fs, first, i + 1, n - 1);
      NthNext(d, fs, first, i);
    }
    FollowedIsValid(d, fs, Nth(d, fs, first, i).value);
  }

  /** Pigeonhole: a chain that ends never has more clusters than the volume. */
  lemma TerminatingIsShort(d: Disk, fs: Fs, first: u32, n: nat)
    requires Mounted(fs) && Terminates(d, fs, first, n)
    ensures n <= fs.clusterCount
  {
    EndsThere(d, fs, first, n);
    PointsValid(d, fs, first, n, Step(d, fs));
    EndingIsShort(Step(d, fs), first, n, 2, fs.clusterCount + 2);
  }

  lemma EndsThere(d: Disk, fs: Fs, first: u32, n: nat)
    requires Terminates(d, fs, first, n)
    ensures EndsAfter(Step(d, fs), first, n)
  {
    NthNext(d, fs, first, n - 1);
  }

  lemma PointsValid(d: Disk, fs: Fs, first: u32, n: nat, step: Successor)
    requires Mounted(fs) && Terminates(d, fs, first, n) && step == Step(d, fs)
    ensures forall i :: 0 <= i < n && Iter(step, first, i).Some? ==>
              2 <= Iter(step, first, i).value < fs.clusterCount + 2
  {
    forall i | 0 <= i < n && Iter(step, first, i).Some?
      ensures 2 <= Iter(step, first, i).value < fs.clusterCount + 2
    {
      TerminatingIsValid(d, fs, first, n, i);
      ValidRange(fs, Nth(d, fs, first, i).value);
    }
  }
}
