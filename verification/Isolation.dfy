/** Health writes never change a file: everything the reader computes after finding the
    partition depends only on sectors of that partition. */
module Isolation {
  import opened Words
  import opened Block
  import opened Partition
  import opened Chains
  import opened Fat32
  import opened Fat32Read
  import opened Fat32Dir
  import opened Fat32Path

  /** Both disks hold the mounted partition, with the same sectors. */
  ghost predicate SameVolume(d: Disk, d': Disk, fs: Fs)
  {
    OnDisk(d, fs) && Agree(d, d', fs.partitionLba, fs.partitionSectors)
  }

  lemma SameRead(d: Disk, d': Disk, first: nat, count: nat, lba: nat)
    requires Agree(d, d', first, count) && first <= lba < first + count
    ensures ReadBlock(d, lba) == ReadBlock(d', lba)
  {
    assert SameAt(d, d', lba);
  }

  // ----- the FAT -----

  lemma SameNext(d: Disk, d': Disk, fs: Fs, c: u32)
    requires SameVolume(d, d', fs)
    ensures NextCluster(d, fs, c) == NextCluster(d', fs, c)
  {
    var q := c * 4 / 512;
    if q < fs.sectorsPerFat {
      FatSectorInside(fs, q);
      SameRead(d, d', fs.partitionLba, fs.partitionSectors, fs.partitionLba + fs.fatLba + q);
    }
  }

  lemma {:induction false} SameIter(step: Successor, step': Successor, first: u32, n: nat)
    requires forall c: u32 :: step(c) == step'(c)
    ensures Iter(step, first, n) == Iter(step', first, n)
  {
    if n > 0 {
      SameIter(step, step', first, n - 1);
    }
  }

  lemma SameChain(d: Disk, d': Disk, fs: Fs, first: u32, n: nat)
    requires SameVolume(d, d', fs)
    ensures ChainOf(d, fs, first)(n) == ChainOf(d', fs, first)(n)
  {
    forall c: u32
      ensures Step(d, fs)(c) == Step(d', fs)(c)
    {
      SameNext(d, d', fs, c);
    }
    SameIter(Step(d, fs), Step(d', fs), first, n);
  }

  // ----- file data -----

  ghost predicate SameEverywhere(ch: Chain, ch': Chain) { forall i: nat :: ch(i) == ch'(i) }

  lemma {:induction false} SameRun(d: Disk, d': Disk, first: nat, count: nat, lba: nat, n: nat)
    requires Agree(d, d', first, count) && first <= lba && lba + n <= first + count && lba + n <= |d.sectors|
    ensures SectorRun(d, lba, n) == SectorRun(d', lba, n)
  {
    if n > 0 {
      SameRun(d, d', first, count, lba, n - 1);
      assert SameAt(d, d', lba + n - 1);
    }
  }

  lemma SameCluster(d: Disk, d': Disk, fs: Fs, c: u32)
    requires SameVolume(d, d', fs) && ClusterValid(fs, c)
    ensures OnDisk(d', fs) && ClusterData(d, fs, c) == ClusterData(d', fs, c)
  {
    ClusterPlace(fs, c);
    SameRun(d, d', fs.partitionLba, fs.partitionSectors, ClusterStart(fs, c), fs.sectorsPerCluster);
  }

  lemma {:induction false} SameContent(d: Disk, d': Disk, fs: Fs, ch: Chain, ch': Chain, n: nat)
    requires SameVolume(d, d', fs) && ChainOk(fs, ch, n) && SameEverywhere(ch, ch')
    ensures OnDisk(d', fs) && ChainOk(fs, ch', n)
    ensures Content(d, fs, ch, n) == Content(d', fs, ch', n)
  {
    if n > 0 {
      SameContent(d, d', fs, ch, ch', n - 1);
      SameCluster(d, d', fs, ch(n - 1).value);
    }
  }

  lemma SameReadable(d: Disk, d': Disk, fs: Fs, ch: Chain, ch': Chain, p: nat)
    requires SameVolume(d, d', fs) && SameEverywhere(ch, ch')
    requires ch(Quotient(p, ClusterBytes(fs))).Some? && ClusterValid(fs, ch(Quotient(p, ClusterBytes(fs))).value)
    ensures ByteReadable(d, fs, ch, p) <==> ByteReadable(d', fs, ch', p)
  {
    var c := ch(Quotient(p, ClusterBytes(fs))).value;
    ClusterPlace(fs, c);
    var k := ClusterStart(fs, c) + p % ClusterBytes(fs) / 512;
    assert p % ClusterBytes(fs) / 512 < fs.sectorsPerCluster;
    assert SameAt(d, d', k);
  }

  lemma SameServed(d: Disk, d': Disk, fs: Fs, ch: Chain, ch': Chain, offset: nat, n: nat)
    requires SameVolume(d, d', fs) && n > 0 && SameEverywhere(ch, ch')
    ensures Served(d, fs, ch, offset, n) ==> Served(d', fs, ch', offset, n)
  {
    if Served(d, fs, ch, offset, n) {
      forall p | offset <= p < offset + n
        ensures ByteReadable(d', fs, ch', p)
      {
        var m := ClusterBytes(fs);
        QuotientBelow(p, m);
        assert m * (p / m) == p / m * m;
        NeedsCluster(fs, offset + n, Quotient(p, m));
        SameReadable(d, d', fs, ch, ch', p);
      }
    }
  }

  // ----- directories -----

  lemma {:induction false} SameList(d: Disk, d': Disk, first: nat, count: nat, lba: nat, n: nat)
    requires Agree(d, d', first, count) && first <= lba && lba + n <= first + count
    ensures SectorList(d, lba, n) == SectorList(d', lba, n)
  {
    if n > 0 {
      SameList(d, d', first, count, lba, n - 1);
      SameRead(d, d', first, count, lba + n - 1);
    }
  }

  lemma SameVisit(d: Disk, d': Disk, fs: Fs, look: Look, c: u32)
    requires SameVolume(d, d', fs)
    ensures VisitCluster(d, fs, look, c) == VisitCluster(d', fs, look, c)
  {
    if ClusterValid(fs, c) {
      ClusterPlace(fs, c);
      SameList(d, d', fs.partitionLba, fs.partitionSectors, ClusterStart(fs, c), fs.sectorsPerCluster);
      SameNext(d, d', fs, c);
    }
  }

  lemma {:induction false} SameSearch(visit: Visitor, visit': Visitor, c: u32, fuel: nat)
    requires forall x: u32 :: visit(x) == visit'(x)
    ensures Search(visit, c, fuel) == Search(visit', c, fuel)
    decreases fuel
  {
    if fuel > 0 && visit(c).GoTo? {
      SameSearch(visit, visit', visit(c).next, fuel - 1);
    }
  }

  lemma SameLookup(d: Disk, d': Disk, fs: Fs, directory: u32, name: seq<u8>)
    requires SameVolume(d, d', fs) && |name| == 11
    ensures Lookup(d, fs, directory, name) == Lookup(d', fs, directory, name)
  {
    var look := LookFor(name);
    SameAnswer(d, d', fs, directory, look, VisitorOf(d, fs, look), VisitorOf(d', fs, look));
  }

  lemma SameAnswer(d: Disk, d': Disk, fs: Fs, directory: u32, look: Look, visit: Visitor, visit': Visitor)
    requires SameVolume(d, d', fs) && Describes(visit, d, fs, look) && Describes(visit', d', fs, look)
    ensures Search(visit, directory, fs.clusterCount + 1) == Search(visit', directory, fs.clusterCount + 1)
  {
    SameVisits(d, d', fs, look, visit, visit');
    SameSearch(visit, visit', directory, fs.clusterCount + 1);
  }

  lemma SameVisits(d: Disk, d': Disk, fs: Fs, look: Look, visit: Visitor, visit': Visitor)
    requires SameVolume(d, d', fs) && Describes(visit, d, fs, look) && Describes(visit', d', fs, look)
    ensures forall x: u32 :: visit(x) == visit'(x)
  {
    forall x: u32
      ensures visit(x) == visit'(x)
    {
      SameVisit(d, d', fs, look, x);
    }
  }

  lemma {:induction false} SameResolve(fs: Fs, find: Finder, find': Finder, directory: u32, l: seq<seq<u8>>)
    requires l != [] && forall c: u32, name: seq<u8> :: find(c, name) == find'(c, name)
    ensures Resolve(fs, find, directory, l) == Resolve(fs, find', directory, l)
    decreases |l|
  {
    var found := Find(find, directory, l[0]);
    if found.Ok? && |l| > 1 && AsDirectory(fs, found.value).Ok? {
      SameResolve(fs, find, find', AsDirectory(fs, found.value).value, l[1..]);
    }
  }

  lemma SameOpen(d: Disk, d': Disk, fs: Fs, path: seq<u8>)
    requires SameVolume(d, d', fs)
    ensures Open(fs, FinderOf(d, fs), path) == Open(fs, FinderOf(d', fs), path)
  {
    var find, find' := FinderOf(d, fs), FinderOf(d', fs);
    forall c: u32, name: seq<u8>
      ensures find(c, name) == find'(c, name)
    {
      if |name| == 11 {
        SameLookup(d, d', fs, c, name);
      }
    }
    if Components(path) != [] {
      SameResolve(fs, find, find', fs.rootCluster, Components(path));
    }
  }

  // ----- the whole reader -----

  lemma {:induction false} SameScan(d: Disk, d': Disk, first: u64, count: u64)
    requires Unallocated(d, first, count) && ChangedOnlyIn(d, d', first, count)
    ensures ReadBlock(d', 0) == ReadBlock(d, 0) && BootVerdict(d') == BootVerdict(d) && Unallocated(d', first, count)
  {
    ApartWhenNoOverlap(first, count, 0, 1);
    assert SameAt(d, d', 0);
    var mbr := ReadBlock(d, 0).value;
    assert forall j :: 0 <= j < 4 ==> EntryClear(EntryAt(mbr, j), |d.sectors|, first, count);
    NoGpt(mbr, |d.sectors|, 0, None);
  }

  /** Clear of a partition, a change leaves the partition as it was. */
  lemma ClearAgrees(d: Disk, d': Disk, first: nat, count: nat, lba: nat, n: nat)
    requires ChangedOnlyIn(d, d', first, count) && (first + count <= lba || lba + n <= first)
    ensures Agree(d, d', lba, n)
  {
  }

  /** The bytes [offset, offset + n) of the file that a path names on the boot partition,
      if the reader delivers them. */
  ghost function FileBytes(d: Disk, path: seq<u8>, offset: nat, n: nat): (r: Option<seq<u8>>)
    requires n > 0
  {
    var p := BootVerdict(d);
    if p.Err? then None
    else
      var fs := Mount(d, p.value);
      if fs.Err? then None
      else
        MountLayout(d, p.value);
        VolumeBytes(d, fs.value, path, offset, n)
  }

  ghost function VolumeBytes(d: Disk, fs: Fs, path: seq<u8>, offset: nat, n: nat): (r: Option<seq<u8>>)
    requires OnDisk(d, fs) && n > 0
  {
    var f := Open(fs, FinderOf(d, fs), path);
    if f.Err? || IsDirectory(f.value) || offset + n > f.value.size then None
    else if !Served(d, fs, ChainOf(d, fs, f.value.firstCluster), offset, n) then None
    else Some(Bytes(d, fs, ChainOf(d, fs, f.value.firstCluster), offset, n))
  }

  lemma SameVolumeBytes(d: Disk, d': Disk, fs: Fs, path: seq<u8>, offset: nat, n: nat)
    requires SameVolume(d, d', fs) && OnDisk(d', fs) && n > 0
    ensures VolumeBytes(d, fs, path, offset, n) == VolumeBytes(d', fs, path, offset, n)
  {
    SameOpen(d, d', fs, path);
    var f := Open(fs, FinderOf(d, fs), path);
    if f.Ok? {
      SameBytes(d, d', fs, f.value.firstCluster, offset, n);
    }
  }

  /** Reading from any chain of the volume. */
  lemma SameBytes(d: Disk, d': Disk, fs: Fs, first: u32, offset: nat, n: nat)
    requires SameVolume(d, d', fs) && OnDisk(d', fs) && n > 0
    ensures Served(d, fs, ChainOf(d, fs, first), offset, n) <==> Served(d', fs, ChainOf(d', fs, first), offset, n)
    ensures Served(d, fs, ChainOf(d, fs, first), offset, n) ==>
              Bytes(d, fs, ChainOf(d, fs, first), offset, n) == Bytes(d', fs, ChainOf(d', fs, first), offset, n)
  {
    SameChains(d, d', fs, first, ChainOf(d, fs, first), ChainOf(d', fs, first));
    SameBytesOf(d, d', fs, ChainOf(d, fs, first), ChainOf(d', fs, first), offset, n);
  }

  lemma SameChains(d: Disk, d': Disk, fs: Fs, first: u32, ch: Chain, ch': Chain)
    requires SameVolume(d, d', fs) && ch == ChainOf(d, fs, first) && ch' == ChainOf(d', fs, first)
    ensures SameEverywhere(ch, ch')
  {
    forall i: nat
      ensures ch(i) == ch'(i)
    {
      SameChain(d, d', fs, first, i);
    }
  }

  lemma Symmetric(d: Disk, d': Disk, fs: Fs)
    requires SameVolume(d, d', fs)
    ensures SameVolume(d', d, fs)
  {
    forall k | fs.partitionLba <= k < fs.partitionLba + fs.partitionSectors
      ensures SameAt(d', d, k)
    {
      assert SameAt(d, d', k);
    }
  }

  lemma SameBytesOf(d: Disk, d': Disk, fs: Fs, ch: Chain, ch': Chain, offset: nat, n: nat)
    requires SameVolume(d, d', fs) && OnDisk(d', fs) && n > 0 && SameEverywhere(ch, ch')
    ensures Served(d, fs, ch, offset, n) <==> Served(d', fs, ch', offset, n)
    ensures Served(d, fs, ch, offset, n) ==> Bytes(d, fs, ch, offset, n) == Bytes(d', fs, ch', offset, n)
  {
    SameServed(d, d', fs, ch, ch', offset, n);
    Symmetric(d, d', fs);
    SameServed(d', d, fs, ch', ch, offset, n);
    if Served(d, fs, ch, offset, n) {
      SameContent(d, d', fs, ch, ch', ClustersUpTo(fs, offset + n));
    }
  }

  lemma SameMount(d: Disk, d': Disk, p: Partition)
    requires |d.sectors| == |d'.sectors| && (p.count > 0 ==> SameAt(d, d', p.first))
    ensures Mount(d, p) == Mount(d', p)
  {
  }

  /** Writes to a range the layout test accepted change neither the partition found, nor
      the mounted geometry, nor the result of any path lookup or read. */
  lemma WritesAreInvisible(d: Disk, d': Disk, first: u64, count: u64, path: seq<u8>, offset: nat, n: nat)
    requires Unallocated(d, first, count) && ChangedOnlyIn(d, d', first, count) && n > 0
    ensures BootVerdict(d') == BootVerdict(d) && Unallocated(d', first, count)
    ensures BootVerdict(d).Ok? ==> Mount(d', BootVerdict(d).value) == Mount(d, BootVerdict(d).value)
    ensures BootVerdict(d).Ok? && Mount(d, BootVerdict(d).value).Ok? ==>
              var fs := Mount(d, BootVerdict(d).value).value;
              Open(fs, FinderOf(d', fs), path) == Open(fs, FinderOf(d, fs), path)
    ensures FileBytes(d', path, offset, n) == FileBytes(d, path, offset, n)
  {
    SameScan(d, d', first, count);
    if BootVerdict(d).Ok? {
      var p := BootVerdict(d).value;
      UnallocatedIsClear(d, first, count);
      ClearAgrees(d, d', first, count, p.first, p.count);
      SameMount(d, d', p);
      if Mount(d, p).Ok? {
        MountLayout(d, p);
        SameOpen(d, d', Mount(d, p).value, path);
        SameVolumeBytes(d, d', Mount(d, p).value, path, offset, n);
      }
    }
  }
}
