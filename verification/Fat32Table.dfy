/** The file allocation table as the specification describes it: one array of words, one per
    cluster, behind the reserved sectors. */
module Fat32Table {
  import opened Words
  import opened Bits
  import opened Block
  import opened Partition
  import opened Chains
  import opened Fat32
  import opened Fat32Read

  /** The FAT as one byte string. */
  ghost function FatBytes(d: Disk, fs: Fs): (t: seq<u8>)
    requires OnDisk(d, fs)
    ensures |t| == 512 * fs.sectorsPerFat
  {
    FatInside(fs);
    SectorRun(d, fs.partitionLba + fs.fatLba, fs.sectorsPerFat)
  }

  lemma FatInside(fs: Fs)
    requires Mounted(fs)
    ensures fs.fatLba + fs.sectorsPerFat <= fs.partitionSectors
  {
    MulMonotone(0, fs.clusterCount, fs.sectorsPerCluster);
  }

  /** The table has a word for the cluster. */
  predicate HasWord(fs: Fs, c: u32) { 4 * c + 4 <= 512 * fs.sectorsPerFat }

  /** The word of a cluster, without its four reserved high bits. */
  ghost function FatWord(d: Disk, fs: Fs, c: u32): (w: u32)
    requires OnDisk(d, fs) && HasWord(fs, c)
  {
    Le32(FatBytes(d, fs), 4 * c) % 0x1000_0000
  }

  ghost predicate FatReadable(d: Disk, fs: Fs)
  {
    AllReadable(d, fs.partitionLba + fs.fatLba, fs.sectorsPerFat)
  }

  /** A word that leads nowhere: free, reserved or bad. */
  predicate NoCluster(w: u32) { w == 0 || w == 1 || w == 0x0FFF_FFF7 }

  lemma WordSector(c: nat)
    ensures 4 * c == 512 * (4 * c / 512) + 4 * c % 512 && 4 * c % 512 <= 508
  {
    var q, o := c / 128, c % 128;
    DivUnique(4 * c, 512, q, 4 * o);
  }

  /** Four bytes inside one sector are the same bytes of the run of sectors. */
  lemma WordInRun(d: Disk, lba: nat, n: nat, at: nat, q: nat, o: nat)
    requires lba + n <= |d.sectors| && at == 512 * q + o && o + 4 <= 512 && q < n
    ensures Le32(SectorRun(d, lba, n), at) == Le32(d.sectors[lba + q], o)
  {
    SectorSlice(d, lba, n, q, o, 4);
    var x, y := d.sectors[lba + q], SectorRun(d, lba, n);
    assert x[o..o + 4] == y[at..at + 4];
    assert x[o] == x[o..o + 4][0] && x[o + 1] == x[o..o + 4][1] && x[o + 2] == x[o..o + 4][2]
           && x[o + 3] == x[o..o + 4][3];
    assert y[at] == y[at..at + 4][0] && y[at + 1] == y[at..at + 4][1] && y[at + 2] == y[at..at + 4][2]
           && y[at + 3] == y[at..at + 4][3];
  }

  lemma HasWordMeans(fs: Fs, c: u32)
    ensures HasWord(fs, c) <==> c * 4 / 512 < fs.sectorsPerFat
  {
    WordSector(c);
  }

  /** next_cluster answers with the cluster's word of the table, and with an error exactly
      when the table has no such word, its sector cannot be read, or it leads nowhere. */
  lemma NextIsWord(d: Disk, fs: Fs, c: u32)
    requires OnDisk(d, fs) && ClusterValid(fs, c)
    ensures NextCluster(d, fs, c) ==
            if !HasWord(fs, c) then Err(FatCorrupt)
            else if fs.partitionLba + fs.fatLba + 4 * c / 512 in d.broken then Err(FatIoError)
            else if NoCluster(FatWord(d, fs, c)) then Err(FatCorrupt)
            else Ok(FatWord(d, fs, c))
  {
    WordSector(c);
    HasWordMeans(fs, c);
    if HasWord(fs, c) {
      FatInside(fs);
      WordInRun(d, fs.partitionLba + fs.fatLba, fs.sectorsPerFat, 4 * c, 4 * c / 512, 4 * c % 512);
    }
  }

  /** A list of clusters that the words of the table link up, the last one marked as the end
      of the chain. */
  ghost predicate Linked(d: Disk, fs: Fs, cs: seq<u32>)
    requires OnDisk(d, fs)
  {
    && cs != [] && (forall i :: 0 <= i < |cs| ==> ClusterValid(fs, cs[i]) && HasWord(fs, cs[i]))
    && (forall i :: 0 < i < |cs| ==> FatWord(d, fs, cs[i - 1]) == cs[i] < 0x0FFF_FFF7)
    && FatWord(d, fs, cs[|cs| - 1]) >= 0x0FFF_FFF8
  }

  lemma LinkedStep(d: Disk, fs: Fs, cs: seq<u32>, i: nat)
    requires OnDisk(d, fs) && FatReadable(d, fs) && Linked(d, fs, cs) && i < |cs|
    ensures if i + 1 < |cs| then Follow(d, fs, cs[i]) == Some(cs[i + 1]) else AtEnd(d, fs, cs[i])
  {
    NextIsWord(d, fs, cs[i]);
    WordReadable(d, fs, cs[i]);
    if i + 1 < |cs| {
      assert ClusterValid(fs, cs[i + 1]);
    }
  }

  lemma WordReadable(d: Disk, fs: Fs, c: u32)
    requires FatReadable(d, fs) && HasWord(fs, c)
    ensures fs.partitionLba + fs.fatLba + 4 * c / 512 !in d.broken
  {
    HasWordMeans(fs, c);
  }

  /** The chain of a linked list is the list: it visits the clusters in order and ends. */
  lemma {:induction false} LinkedIsChain(d: Disk, fs: Fs, cs: seq<u32>, i: nat)
    requires OnDisk(d, fs) && FatReadable(d, fs) && Linked(d, fs, cs) && i < |cs|
    ensures Nth(d, fs, cs[0], i) == Some(cs[i])
  {
    if i > 0 {
      LinkedIsChain(d, fs, cs, i - 1);
      LinkedStep(d, fs, cs, i - 1);
      NthNext(d, fs, cs[0], i - 1);
    }
  }

  /** A chain that ends is such a list: its clusters in order. */
  lemma ChainIsLinked(d: Disk, fs: Fs, first: u32, n: nat) returns (cs: seq<u32>)
    requires OnDisk(d, fs) && FatReadable(d, fs) && Terminates(d, fs, first, n)
    ensures |cs| == n && cs[0] == first && Linked(d, fs, cs)
  {
    forall i | 0 <= i < n
      ensures Nth(d, fs, first, i).Some? && ClusterValid(fs, Nth(d, fs, first, i).value)
    {
      TerminatingIsValid(d, fs, first, n, i);
    }
    cs := seq(n, i requires 0 <= i < n => Nth(d, fs, first, i).value);
    forall i | 0 <= i < n
      ensures HasWord(fs, cs[i])
    {
      ChainStep(d, fs, first, n, i);
    }
    forall i | 0 < i < n
      ensures FatWord(d, fs, cs[i - 1]) == cs[i] < 0x0FFF_FFF7
    {
      ChainStep(d, fs, first, n, i - 1);
    }
    ChainStep(d, fs, first, n, n - 1);
  }

  lemma ChainStep(d: Disk, fs: Fs, first: u32, n: nat, i: nat)
    requires OnDisk(d, fs) && Terminates(d, fs, first, n) && i < n
    ensures Nth(d, fs, first, i).Some? && HasWord(fs, Nth(d, fs, first, i).value)
    ensures var w := FatWord(d, fs, Nth(d, fs, first, i).value);
            if i + 1 < n then Nth(d, fs, first, i + 1) == Some(w) && w < 0x0FFF_FFF7 else w >= 0x0FFF_FFF8
  {
    TerminatingIsValid(d, fs, first, n, i);
    var c := Nth(d, fs, first, i).value;
    NextIsWord(d, fs, c);
    if i + 1 < n {
      TerminatingIsValid(d, fs, first, n, i + 1);
      NthNext(d, fs, first, i);
    }
  }

  /** A chain of the reader ends after n clusters exactly when the words of the table link n
      clusters up to an end mark; and it then visits just those. */
  lemma ChainMeaning(d: Disk, fs: Fs, cs: seq<u32>)
    requires OnDisk(d, fs) && FatReadable(d, fs) && cs != []
    ensures Linked(d, fs, cs)
       <==> Terminates(d, fs, cs[0], |cs|) && forall i :: 0 <= i < |cs| ==> Nth(d, fs, cs[0], i) == Some(cs[i])
  {
    if Linked(d, fs, cs) {
      forall i | 0 <= i < |cs|
        ensures Nth(d, fs, cs[0], i) == Some(cs[i])
      {
        LinkedIsChain(d, fs, cs, i);
      }
      LinkedStep(d, fs, cs, |cs| - 1);
    }
    if Terminates(d, fs, cs[0], |cs|) && forall i :: 0 <= i < |cs| ==> Nth(d, fs, cs[0], i) == Some(cs[i]) {
      var l := ChainIsLinked(d, fs, cs[0], |cs|);
      forall i | 0 <= i < |cs|
        ensures l[i] == cs[i]
      {
        LinkedIsChain(d, fs, l, i);
      }
      assert l == cs;
    }
  }

  // ----- where the parts of a volume lie -----

  function TotalSectors(b: Bpb): (n: u32) { if b.total16 != 0 then b.total16 else b.total32 }

  /** The first sector of the data area: behind the reserved sectors and all FATs. */
  function FirstDataSector(b: Bpb): (n: nat)
  {
    Distribute(b.fatCount, b.fat32);
    b.reserved + b.fatCount * b.fat32
  }

  /** The volumes that are mounted: sectors of 512 bytes, a power-of-two cluster size up to
      128 sectors, one or two FATs, none of the FAT16 fields in use, the areas inside the
      volume and the volume inside the partition, at least 65525 clusters, and a root
      directory that is one of them. */
  ghost predicate GoodVolume(b: Bpb, count: u64)
  {
    && b.bytesPerSector == 512 && IsPow2(b.sectorsPerCluster) && b.sectorsPerCluster <= 128
    && b.reserved > 0 && 1 <= b.fatCount <= 2 && b.rootEntries == 0 && b.fat16 == 0 && b.fat32 > 0
    && FirstDataSector(b) < TotalSectors(b) <= count
    && 65525 <= (TotalSectors(b) - FirstDataSector(b)) / b.sectorsPerCluster
    && 2 <= b.rootCluster < (TotalSectors(b) - FirstDataSector(b)) / b.sectorsPerCluster + 2
  }

  lemma FatArea(b: Bpb)
    requires 1 <= b.fatCount <= 2
    ensures FirstDataSector(b) == b.reserved + if b.fatCount == 1 then b.fat32 else 2 * b.fat32
  {
  }

  lemma SmallPower(v: u8)
    ensures PowerOfTwoU8(v) <==> IsPow2(v)
  {
    if v > 0 {
      PowerOfTwoTest(v);
    }
  }

  /** Mounting accepts exactly the good volumes, and places the parts where the specification
      does: the first FAT behind the reserved sectors, cluster 2 behind the last FAT. */
  lemma MountMeaning(b: Bpb, first: u64, count: u64)
    ensures CheckBpb(b, first, count).Ok? <==> GoodVolume(b, count)
    ensures CheckBpb(b, first, count).Ok? ==>
              var fs := CheckBpb(b, first, count).value;
              && fs.partitionLba == first && fs.partitionSectors == TotalSectors(b)
              && fs.fatLba == b.reserved && fs.sectorsPerFat == b.fat32 && fs.dataLba == FirstDataSector(b)
              && fs.sectorsPerCluster == b.sectorsPerCluster && fs.rootCluster == b.rootCluster
              && fs.clusterCount == (TotalSectors(b) - FirstDataSector(b)) / b.sectorsPerCluster
  {
    SmallPower(b.sectorsPerCluster);
    if 1 <= b.fatCount <= 2 {
      FatArea(b);
      if b.sectorsPerCluster > 0 && FirstDataSector(b) < TotalSectors(b) {
        QuotientBelow(TotalSectors(b) - FirstDataSector(b), b.sectorsPerCluster);
        WrapSmall((TotalSectors(b) - FirstDataSector(b)) / b.sectorsPerCluster + 2);
      }
    }
  }

  /** A partition is mounted exactly when it lies on the disk, its first sector can be read and
      ends with the signature 0x55 0xAA, and its parameter block describes a good volume. */
  lemma MountedIff(d: Disk, p: Partition)
    ensures Mount(d, p).Ok?
       <==> && p.count > 0 && p.first + p.count <= |d.sectors| && p.first !in d.broken
            && d.sectors[p.first][510] == 0x55 && d.sectors[p.first][511] == 0xAA
            && GoodVolume(ParseBpb(d.sectors[p.first]), p.count)
  {
    if p.first < |d.sectors| {
      MountMeaning(ParseBpb(d.sectors[p.first]), p.first, p.count);
    }
  }

  /** Clusters follow one another from the start of the data area on, cluster 2 first. */
  lemma ClustersTile(fs: Fs, c: u32)
    ensures ClusterStart(fs, 2) == fs.partitionLba + fs.dataLba
    ensures c < TWO_32 - 1 ==> ClusterStart(fs, c + 1) == ClusterStart(fs, c) + fs.sectorsPerCluster
  {
    assert c + 1 - 2 == c - 2 + 1;
    assert (c - 2 + 1) * fs.sectorsPerCluster == (c - 2) * fs.sectorsPerCluster + fs.sectorsPerCluster;
  }

  /** Byte k of the i-th cluster of a linked list is byte i * cluster size + k of its file, and
      stands in the sector that the specification computes for it. */
  lemma FileByte(d: Disk, fs: Fs, cs: seq<u32>, i: nat, k: nat)
    requires OnDisk(d, fs) && FatReadable(d, fs) && Linked(d, fs, cs) && i < |cs| && k < ClusterBytes(fs)
    ensures ChainOk(fs, ChainOf(d, fs, cs[0]), i + 1)
    ensures 0 <= i * ClusterBytes(fs) + k < (i + 1) * ClusterBytes(fs)
    ensures 0 <= fs.partitionLba + fs.dataLba + (cs[i] - 2) * fs.sectorsPerCluster + k / 512 < |d.sectors|
    ensures Content(d, fs, ChainOf(d, fs, cs[0]), i + 1)[i * ClusterBytes(fs) + k]
         == d.sectors[fs.partitionLba + fs.dataLba + (cs[i] - 2) * fs.sectorsPerCluster + k / 512][k % 512]
  {
    var ch := ChainOf(d, fs, cs[0]);
    forall j | 0 <= j < i + 1
      ensures ch(j) == Some(cs[j])
    {
      LinkedIsChain(d, fs, cs, j);
    }
    Distribute(i, ClusterBytes(fs));
    ClusterPlace(fs, cs[i]);
    SectorRunAt(d, ClusterStart(fs, cs[i]), fs.sectorsPerCluster, k);
  }
}
