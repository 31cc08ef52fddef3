/** Directory entries and directory search. Where a proof does not depend on what a
    sector contains, the scan of a sector is passed around as a function value. */
module Fat32Dir {
  import opened Words
  import opened Block
  import opened Chains
  import opened Fat32
  import opened Fat32Read

  const ATTR_LFN := 0x0F

  // ----- directory entries -----

  /** What a directory entry does to a search: nothing, end it, or answer it. */
  datatype Scan = Continue | Stop(answer: Result<File, FatStatus>)

  function EntryFile(e: seq<u8>): (f: File)
    requires |e| == 32
  {
    var low: int, high: int := Le16(e, 26), Le16(e, 20);
    File(high * 0x1_0000 + low, Le32(e, 28), e[11])
  }

  predicate Skipped(e: seq<u8>, name: seq<u8>)
    requires |e| == 32 && |name| == 11
  {
    e[0] == 0xE5 || e[11] == ATTR_LFN || e[11] / 8 % 2 == 1 || e[..11] != name
  }

  function ScanEntry(e: seq<u8>, name: seq<u8>): (r: Scan)
    requires |e| == 32 && |name| == 11
  {
    if e[0] == 0 then Stop(Err(NotFound))
    else if Skipped(e, name) then Continue
    else if EntryFile(e).firstCluster < 2 && EntryFile(e).size != 0 then Stop(Err(FatCorrupt))
    else Stop(Ok(EntryFile(e)))
  }

  function EntryOf(s: Sector, k: nat): (e: seq<u8>)
    requires k < 16
    ensures |e| == 32
  {
    s[32 * k..32 * k + 32]
  }

  /** The entries of one sector from index k on. */
  function ScanSector(s: Sector, name: seq<u8>, k: nat): (r: Scan)
    requires k <= 16 && |name| == 11
    decreases 16 - k
  {
    if k == 16 then Continue
    else
      var here := ScanEntry(EntryOf(s, k), name);
      if here.Stop? then here else ScanSector(s, name, k + 1)
  }

  /** The scan of one sector for one name, as a function of the sector. */
  type Look = Sector -> Scan

  function LookFor(name: seq<u8>): (look: Look)
    requires |name| == 11
  {
    (s: Sector) => ScanSector(s, name, 0)
  }

  ghost predicate Looks(look: Look, name: seq<u8>)
    requires |name| == 11
  {
    forall s: Sector {:trigger ScanSector(s, name, 0)} :: look(s) == ScanSector(s, name, 0)
  }

  /** A linear scan of sectors, some of which cannot be read. */
  function ScanSectors(l: seq<Option<Sector>>, look: Look): (r: Scan)
  {
    if l == [] then Continue
    else if l[0].None? then Stop(Err(FatIoError))
    else if look(l[0].value).Stop? then look(l[0].value)
    else ScanSectors(l[1..], look)
  }

  lemma {:induction false} ScanConcat(a: seq<Option<Sector>>, b: seq<Option<Sector>>, look: Look)
    ensures ScanSectors(a + b, look) == if ScanSectors(a, look).Stop? then ScanSectors(a, look) else ScanSectors(b,
                                                                                                                 look)
  {
    if a == [] {
      assert a + b == b;
    } else {
      assert (a + b)[0] == a[0] && (a + b)[1..] == a[1..] + b;
      ScanConcat(a[1..], b, look);
    }
  }

  // ----- the reference: first decisive entry -----

  /** Entry number i of the list, entry i % 16 of sector i / 16, is read and passed over. */
  ghost predicate Passes(l: seq<Option<Sector>>, name: seq<u8>, i: nat)
    requires |name| == 11 && i < 16 * |l|
  {
    l[i / 16].Some? && ScanEntry(EntryOf(l[i / 16].value, i % 16), name) == Continue
  }

  /** The scan answers r because of entry i: every entry before it was passed over, and
      entry i is unreadable, the terminator, or the named file. */
  ghost predicate DecidedAt(l: seq<Option<Sector>>, name: seq<u8>, i: nat, r: Result<File, FatStatus>)
    requires |name| == 11
  {
    && i < 16 * |l| && (forall j :: 0 <= j < i ==> Passes(l, name, j))
    && if l[i / 16].None? then r == Err(FatIoError) && i % 16 == 0
       else ScanEntry(EntryOf(l[i / 16].value, i % 16), name) == Stop(r)
  }

  lemma {:induction false} SectorMeaning(s: Sector, name: seq<u8>, k: nat)
    requires k <= 16 && |name| == 11
    ensures ScanSector(s, name, k) == Continue
       <==> forall j :: k <= j < 16 ==> ScanEntry(EntryOf(s, j), name) == Continue
    ensures ScanSector(s, name, k).Stop? ==>
              exists j :: k <= j < 16 && ScanEntry(EntryOf(s, j), name) == ScanSector(s, name, k)
                          && forall i :: k <= i < j ==> ScanEntry(EntryOf(s, i), name) == Continue
    decreases 16 - k
  {
    if k < 16 {
      SectorMeaning(s, name, k + 1);
      if ScanEntry(EntryOf(s, k), name) == Continue && ScanSector(s, name, k + 1).Stop? {
        var j :| k + 1 <= j < 16 && ScanEntry(EntryOf(s, j), name) == ScanSector(s, name, k + 1)
                 && forall i :: k + 1 <= i < j ==> ScanEntry(EntryOf(s, i), name) == Continue;
        assert k <= j < 16;
      }
    }
  }

  /** A linear scan passes over everything, or is decided by the first entry it cannot
      pass over. */
  lemma {:induction false} ScanMeaning(l: seq<Option<Sector>>, name: seq<u8>, look: Look)
    requires |name| == 11 && Looks(look, name)
    ensures ScanSectors(l, look) == Continue ==> forall i :: 0 <= i < 16 * |l| ==> Passes(l, name, i)
    ensures ScanSectors(l, look).Stop? ==>
              exists i :: 0 <= i < 16 * |l| && DecidedAt(l, name, i, ScanSectors(l, look).answer)
  {
    if l != [] {
      if l[0].None? {
        assert DecidedAt(l, name, 0, Err(FatIoError));
      } else {
        assert look(l[0].value) == ScanSector(l[0].value, name, 0);
        if look(l[0].value).Stop? {
          DecidedHere(l, name);
        } else {
          ScanMeaning(l[1..], name, look);
          SectorMeaning(l[0].value, name, 0);
          PassFirst(l, name);
          DecidedLater(l, name, ScanSectors(l[1..], look));
        }
      }
    }
  }

  lemma DecidedHere(l: seq<Option<Sector>>, name: seq<u8>)
    requires |name| == 11 && l != [] && l[0].Some? && ScanSector(l[0].value, name, 0).Stop?
    ensures exists i :: 0 <= i < 16 * |l| && DecidedAt(l, name, i, ScanSector(l[0].value, name, 0).answer)
  {
    var here := ScanSector(l[0].value, name, 0);
    SectorMeaning(l[0].value, name, 0);
    var j :| 0 <= j < 16 && ScanEntry(EntryOf(l[0].value, j), name) == here
             && forall i :: 0 <= i < j ==> ScanEntry(EntryOf(l[0].value, i), name) == Continue;
    assert j / 16 == 0 && j % 16 == j;
    forall i | 0 <= i < j
      ensures Passes(l, name, i)
    {
      assert i / 16 == 0 && i % 16 == i;
    }
    assert DecidedAt(l, name, j, here.answer);
  }

  lemma DecidedLater(l: seq<Option<Sector>>, name: seq<u8>, rest: Scan)
    requires |name| == 11 && l != [] && forall i :: 0 <= i < 16 ==> Passes(l, name, i)
    requires rest == Continue ==> forall i :: 0 <= i < 16 * |l[1..]| ==> Passes(l[1..], name, i)
    requires rest.Stop? ==> exists i :: 0 <= i < 16 * |l[1..]| && DecidedAt(l[1..], name, i, rest.answer)
    ensures rest == Continue ==> forall i :: 0 <= i < 16 * |l| ==> Passes(l, name, i)
    ensures rest.Stop? ==> exists i :: 0 <= i < 16 * |l| && DecidedAt(l, name, i, rest.answer)
  {
    if rest.Stop? {
      var i :| 0 <= i < 16 * |l[1..]| && DecidedAt(l[1..], name, i, rest.answer);
      DecidedShift(l, name, i, rest.answer);
    } else {
      forall i | 0 <= i < 16 * |l|
        ensures Passes(l, name, i)
      {
        if i >= 16 {
          PassShift(l, name, i - 16);
        }
      }
    }
  }

  lemma PassFirst(l: seq<Option<Sector>>, name: seq<u8>)
    requires |name| == 11 && l != [] && l[0].Some?
    requires forall j :: 0 <= j < 16 ==> ScanEntry(EntryOf(l[0].value, j), name) == Continue
    ensures forall i :: 0 <= i < 16 ==> Passes(l, name, i)
  {
  }

  lemma PassShift(l: seq<Option<Sector>>, name: seq<u8>, i: nat)
    requires |name| == 11 && l != [] && i < 16 * |l[1..]|
    ensures Passes(l, name, i + 16) <==> Passes(l[1..], name, i)
    ensures (i + 16) / 16 == i / 16 + 1 && (i + 16) % 16 == i % 16
  {
  }

  lemma DecidedShift(l: seq<Option<Sector>>, name: seq<u8>, i: nat, r: Result<File, FatStatus>)
    requires |name| == 11 && l != [] && i < 16 * |l[1..]| && DecidedAt(l[1..], name, i, r)
    requires forall j :: 0 <= j < 16 ==> Passes(l, name, j)
    ensures DecidedAt(l, name, i + 16, r)
  {
    PassShift(l, name, i);
    forall j | 0 <= j < i + 16
      ensures Passes(l, name, j)
    {
      if j >= 16 {
        PassShift(l, name, j - 16);
      }
    }
  }

  // ----- visiting clusters -----

  /** What visiting one cluster of a directory leads to. */
  datatype Visit = Answer(answer: Result<File, FatStatus>) | EndOfChain | GoTo(next: u32)

  type Visitor = u32 -> Visit

  /** The search from a cluster on, with fuel clusters left to visit. */
  function Search(visit: Visitor, cluster: u32, fuel: nat): (r: Result<File, FatStatus>)
    decreases fuel
  {
    if fuel == 0 then Err(FatCorrupt)
    else
      match visit(cluster)
      case Answer(r) => r
      case EndOfChain => Err(NotFound)
      case GoTo(next) => Search(visit, next, fuel - 1)
  }

  function SectorList(d: Disk, base: nat, n: nat): (l: seq<Option<Sector>>)
    ensures |l| == n
  {
    if n == 0 then [] else SectorList(d, base, n - 1) + [ReadBlock(d, base + n - 1)]
  }

  /** One round of the cluster loop of find_in_directory. */
  function VisitCluster(d: Disk, fs: Fs, look: Look, c: u32): (r: Visit)
  {
    match ClusterLba(fs, c)
    case Err(e) => Answer(Err(e))
    case Ok(lba) =>
      match ScanSectors(SectorList(d, lba, fs.sectorsPerCluster), look)
      case Stop(a) => Answer(a)
      case Continue =>
        match NextCluster(d, fs, c)
        case Err(e) => Answer(Err(e))
        case Ok(next) => if next >= EOC_MIN then EndOfChain else GoTo(next)
  }

  function VisitorOf(d: Disk, fs: Fs, look: Look): (v: Visitor) { (c: u32) => VisitCluster(d, fs, look, c) }

  /** visit is the visitor of this directory search. */
  ghost predicate Describes(visit: Visitor, d: Disk, fs: Fs, look: Look)
  {
    forall c: u32 {:trigger VisitCluster(d, fs, look, c)} :: visit(c) == VisitCluster(d, fs, look, c)
  }

  /** What find_in_directory computes. */
  function Lookup(d: Disk, fs: Fs, directory: u32, name: seq<u8>): (r: Result<File, FatStatus>)
    requires |name| == 11
  {
    Search(VisitorOf(d, fs, LookFor(name)), directory, fs.clusterCount + 1)
  }

  // ----- find_in_directory -----

  /** The entry loop within one sector. */
  method ScanEntries(s: Sector, name: seq<u8>) returns (r: Scan)
    requires |name| == 11
    ensures r == ScanSector(s, name, 0)
  {
    for k := 0 to 16
      invariant ScanSector(s, name, 0) == ScanSector(s, name, k)
    {
      var entry := EntryOf(s, k);
      if entry[0] == 0 {
        return Stop(Err(NotFound));
      }
      if entry[0] == 0xE5 || entry[11] == ATTR_LFN || entry[11] / 8 % 2 == 1 || entry[..11] != name {
        continue;
      }
      var f := EntryFile(entry);
      if f.firstCluster < 2 && f.size != 0 {
        return Stop(Err(FatCorrupt));
      }
      return Stop(Ok(f));
    }
    r := Continue;
  }

  method ScanOne(s: Sector, name: seq<u8>, ghost look: Look) returns (r: Scan)
    requires |name| == 11 && Looks(look, name)
    ensures r == look(s)
  {
    r := ScanEntries(s, name);
  }

  /** The sector loop within one cluster. */
  method ScanCluster(d: Disk, base: nat, n: nat, name: seq<u8>, ghost look: Look) returns (r: Scan)
    requires |name| == 11 && Looks(look, name)
    ensures r == ScanSectors(SectorList(d, base, n), look)
  {
    for i := 0 to n
      invariant ScanSectors(SectorList(d, base, i), look) == Continue
    {
      var sector := ReadBlock(d, base + i);
      ListStep(d, base, i, n, look);
      if sector.None? {
        return Stop(Err(FatIoError));
      }
      var here := ScanOne(sector.value, name, look);
      if here.Stop? {
        return here;
      }
    }
    r := Continue;
  }

  /** After i sectors passed over, sector i decides or is passed over too. */
  lemma ListStep(d: Disk, base: nat, i: nat, n: nat, look: Look)
    requires i < n && ScanSectors(SectorList(d, base, i), look) == Continue
    ensures var s := ReadBlock(d, base + i);
            && (s.None? ==> ScanSectors(SectorList(d, base, n), look) == Stop(Err(FatIoError)))
            && (s.Some? && look(s.value).Stop? ==> ScanSectors(SectorList(d, base, n), look) == look(s.value))
            && (s.Some? && look(s.value) == Continue ==> ScanSectors(SectorList(d, base, i + 1), look) == Continue)
  {
    var s := ReadBlock(d, base + i);
    var one: seq<Option<Sector>> := [s];
    ScanConcat(SectorList(d, base, i), one, look);
    assert one[1..] == [];
    var upTo := ScanSectors(SectorList(d, base, i + 1), look);
    assert upTo == ScanSectors(one, look);
    if upTo.Stop? {
      ListPrefix(d, base, i + 1, n, look);
    }
  }

  lemma {:induction false} ListPrefix(d: Disk, base: nat, m: nat, n: nat, look: Look)
    requires m <= n && ScanSectors(SectorList(d, base, m), look).Stop?
    ensures ScanSectors(SectorList(d, base, n), look) == ScanSectors(SectorList(d, base, m), look)
  {
    if m < n {
      ListPrefix(d, base, m, n - 1, look);
      ScanConcat(SectorList(d, base, n - 1), [ReadBlock(d, base + n - 1)], look);
    }
  }

  /** One round of find_in_directory's cluster loop. */
  method VisitOnce(d: Disk, fs: Fs, cluster: u32, name: seq<u8>, ghost look: Look, ghost visit: Visitor)
    returns (v: Visit)
    requires |name| == 11 && Looks(look, name) && Describes(visit, d, fs, look)
    ensures v == visit(cluster)
  {
    assert visit(cluster) == VisitCluster(d, fs, look, cluster);
    var lba := ClusterLba(fs, cluster);
    if lba.Err? {
      return Answer(Err(lba.error));
    }
    var scan := ScanCluster(d, lba.value, fs.sectorsPerCluster, name, look);
    if scan.Stop? {
      return Answer(scan.answer);
    }
    var next := NextCluster(d, fs, cluster);
    if next.Err? {
      return Answer(Err(next.error));
    }
    if next.value >= EOC_MIN {
      return EndOfChain;
    }
    v := GoTo(next.value);
  }

  /** find_in_directory. */
  method FindInDirectory(d: Disk, fs: Fs, directory: u32, name: seq<u8>) returns (r: Result<File, FatStatus>)
    requires |name| == 11
    ensures r == Lookup(d, fs, directory, name)
  {
    r := SearchClusters(d, fs, directory, name, LookFor(name), VisitorOf(d, fs, LookFor(name)));
  }

  /** The cluster loop of find_in_directory, with its cycle guard. */
  method SearchClusters(d: Disk, fs: Fs, directory: u32, name: seq<u8>, ghost look: Look, ghost visit: Visitor)
    returns (r: Result<File, FatStatus>)
    requires |name| == 11 && Looks(look, name) && Describes(visit, d, fs, look)
    ensures r == Search(visit, directory, fs.clusterCount + 1)
  {
    var cluster: u32 := directory;
    for visited := 0 to fs.clusterCount + 1
      invariant Search(visit, directory, fs.clusterCount + 1) == Search(visit, cluster, fs.clusterCount + 1 - visited)
    {
      var v := VisitOnce(d, fs, cluster, name, look, visit);
      match v
      case Answer(a) => return a;
      case EndOfChain => return Err(NotFound);
      case GoTo(next) => cluster := next;
    }
    r := Err(FatCorrupt);
  }

  // ----- the search follows the chain -----

  ghost function ClusterSectors(d: Disk, fs: Fs, c: u32): (l: seq<Option<Sector>>)
    requires Mounted(fs) && ClusterValid(fs, c)
  {
    ClusterPlace(fs, c);
    SectorList(d, ClusterStart(fs, c), fs.sectorsPerCluster)
  }

  /** The sectors of clusters i to n - 1 of a chain, one after the other. */
  ghost function ChainSectors(d: Disk, fs: Fs, ch: Chain, i: nat, n: nat): (l: seq<Option<Sector>>)
    requires Mounted(fs) && ChainOk(fs, ch, n) && i <= n
    decreases n - i
  {
    if i == n then [] else ClusterSectors(d, fs, ch(i).value) + ChainSectors(d, fs, ch, i + 1, n)
  }

  function Finish(s: Scan): (r: Result<File, FatStatus>)
  {
    match s
    case Continue => Err(NotFound)
    case Stop(a) => a
  }

  /** What a visit does, given what the cluster's own scan says and what comes next. */
  function VisitAfter(scan: Scan, next: Option<u32>): (r: Visit)
  {
    match scan
    case Stop(a) => Answer(a)
    case Continue => if next.Some? then GoTo(next.value) else EndOfChain
  }

  lemma VisitValid(d: Disk, fs: Fs, c: u32, look: Look, visit: Visitor, next: Option<u32>)
    requires Mounted(fs) && ClusterValid(fs, c) && Describes(visit, d, fs, look)
    requires if next.Some? then Follow(d, fs, c) == next else AtEnd(d, fs, c)
    ensures visit(c) == VisitAfter(ScanSectors(ClusterSectors(d, fs, c), look), next)
  {
    assert visit(c) == VisitCluster(d, fs, look, c);
    ClusterPlace(fs, c);
  }

  type Scanner = u32 -> Scan

  /** Position k of the chain behaves as a directory of n clusters should. */
  ghost predicate Regular(visit: Visitor, scan: Scanner, ch: Chain, n: nat, k: nat)
  {
    && ch(k).Some? && (k + 1 < n ==> ch(k + 1).Some?)
    && visit(ch(k).value) == VisitAfter(scan(ch(k).value), if k + 1 < n then ch(k + 1) else None)
  }

  /** Scanning clusters i to n - 1 of a chain in turn. */
  ghost function ScanChain(scan: Scanner, ch: Chain, i: nat, n: nat): (r: Scan)
    requires i <= n && forall k :: 0 <= k < n ==> ch(k).Some?
    decreases n - i
  {
    if i == n then Continue
    else if scan(ch(i).value).Stop? then scan(ch(i).value)
    else ScanChain(scan, ch, i + 1, n)
  }

  /** A search whose visits run along a chain answers like a scan of the whole chain. */
  lemma {:induction false} SearchAlong(scan: Scanner, ch: Chain, visit: Visitor, i: nat, n: nat, fuel: nat)
    requires i < n <= i + fuel && (forall k :: 0 <= k < n ==> Regular(visit, scan, ch, n, k))
    requires forall k :: 0 <= k < n ==> ch(k).Some?
    ensures Search(visit, ch(i).value, fuel) == Finish(ScanChain(scan, ch, i, n))
    decreases n - i
  {
    assert Regular(visit, scan, ch, n, i);
    if i + 1 < n {
      SearchAlong(scan, ch, visit, i + 1, n, fuel - 1);
    }
  }

  /** scan is the scan of the clusters of this file system. */
  ghost predicate Scans(scan: Scanner, d: Disk, fs: Fs, look: Look)
    requires Mounted(fs)
  {
    forall c: u32 {:trigger ClusterSectors(d, fs, c)} ::
      ClusterValid(fs, c) ==> scan(c) == ScanSectors(ClusterSectors(d, fs, c), look)
  }

  lemma {:induction false} ScanChainIsLinear(d: Disk, fs: Fs, scan: Scanner, ch: Chain, i: nat, n: nat, look: Look)
    requires Mounted(fs) && ChainOk(fs, ch, n) && i <= n && Scans(scan, d, fs, look)
    ensures ScanChain(scan, ch, i, n) == ScanSectors(ChainSectors(d, fs, ch, i, n), look)
    decreases n - i
  {
    if i < n {
      ScanChainIsLinear(d, fs, scan, ch, i + 1, n, look);
      ScanConcat(ClusterSectors(d, fs, ch(i).value), ChainSectors(d, fs, ch, i + 1, n), look);
    }
  }

  ghost function ScannerOf(d: Disk, fs: Fs, look: Look): (scan: Scanner)
    requires Mounted(fs)
    ensures Scans(scan, d, fs, look)
  {
    (c: u32) => if ClusterValid(fs, c) then ScanSectors(ClusterSectors(d, fs, c), look) else Continue
  }

  lemma ChainIsRegular(d: Disk, fs: Fs, first: u32, n: nat, look: Look, visit: Visitor, scan: Scanner, k: nat)
    requires Mounted(fs) && Terminates(d, fs, first, n) && k < n && Describes(visit, d, fs, look)
             && Scans(scan, d, fs, look)
    ensures Regular(visit, scan, ChainOf(d, fs, first), n, k)
    ensures ClusterValid(fs, ChainOf(d, fs, first)(k).value)
  {
    TerminatingIsValid(d, fs, first, n, k);
    var c := ChainOf(d, fs, first)(k).value;
    ChainNext(d, fs, first, k, c);
    if k + 1 < n {
      TerminatingIsValid(d, fs, first, n, k + 1);
      VisitValid(d, fs, c, look, visit, ChainOf(d, fs, first)(k + 1));
    } else {
      VisitValid(d, fs, c, look, visit, None);
    }
  }

  lemma AllRegular(d: Disk, fs: Fs, first: u32, n: nat, look: Look, visit: Visitor, scan: Scanner, ch: Chain)
    requires Mounted(fs) && Terminates(d, fs, first, n) && Describes(visit, d, fs, look) && Scans(scan, d, fs, look)
    requires ch == ChainOf(d, fs, first)
    ensures ChainOk(fs, ch, n) && ch(0) == Some(first)
    ensures forall k :: 0 <= k < n ==> Regular(visit, scan, ch, n, k)
  {
    ChainStart(d, fs, first);
    forall k | 0 <= k < n
      ensures Regular(visit, scan, ch, n, k) && ch(k).Some? && ClusterValid(fs, ch(k).value)
    {
      ChainIsRegular(d, fs, first, n, look, visit, scan, k);
    }
  }

  lemma LinearSearch(d: Disk, fs: Fs, directory: u32, n: nat, look: Look, visit: Visitor, scan: Scanner, ch: Chain)
    requires Mounted(fs) && 0 < n <= fs.clusterCount && ChainOk(fs, ch, n) && ch(0) == Some(directory)
    requires Scans(scan, d, fs, look) && forall k :: 0 <= k < n ==> Regular(visit, scan, ch, n, k)
    ensures Search(visit, directory, fs.clusterCount + 1) == Finish(ScanSectors(ChainSectors(d, fs, ch, 0, n), look))
  {
    SearchAlong(scan, ch, visit, 0, n, fs.clusterCount + 1);
    ScanChainIsLinear(d, fs, scan, ch, 0, n, look);
  }

  lemma LinearLookup(d: Disk, fs: Fs, directory: u32, n: nat, look: Look, visit: Visitor, scan: Scanner, ch: Chain)
    requires Mounted(fs) && Terminates(d, fs, directory, n) && n <= fs.clusterCount && ch == ChainOf(d, fs, directory)
    requires Describes(visit, d, fs, look) && Scans(scan, d, fs, look)
    ensures ChainOk(fs, ch, n)
    ensures Search(visit, directory, fs.clusterCount + 1) == Finish(ScanSectors(ChainSectors(d, fs, ch, 0, n), look))
  {
    AllRegular(d, fs, directory, n, look, visit, scan, ch);
    LinearSearch(d, fs, directory, n, look, visit, scan, ch);
  }

  /** On a directory whose chain ends, the cycle guard never fires and the search is a
      linear scan of all its entries. */
  lemma SearchIsLinear(d: Disk, fs: Fs, directory: u32, n: nat, name: seq<u8>)
    requires |name| == 11 && Mounted(fs) && Terminates(d, fs, directory, n)
    ensures n <= fs.clusterCount && ChainOk(fs, ChainOf(d, fs, directory), n)
    ensures Lookup(d, fs, directory, name) == Finish(ScanSectors(ChainSectors(d, fs, ChainOf(d, fs, directory), 0, n),
                                                                 LookFor(name)))
  {
    var look := LookFor(name);
    TerminatingIsShort(d, fs, directory, n);
    LinearLookup(d, fs, directory, n, look, VisitorOf(d, fs, look), ScannerOf(d, fs, look), ChainOf(d, fs, directory));
  }

  // ----- any other chain -----

  function TrailStep(visit: Visitor): (s: Successor)
  {
    (c: u32) => if visit(c).GoTo? then Some(visit(c).next) else None
  }

  /** Whatever the chain does, the search ends: at the n-th visited cluster with that
      visit's answer, or by exhausting the cycle guard, which is an error. */
  lemma {:induction false} SearchDecided(visit: Visitor, first: u32, fuel: nat)
    ensures var r := Search(visit, first, fuel);
            r == Err(FatCorrupt) || exists n :: 0 <= n < fuel && DecidedBy(visit, first, n, r)
    decreases fuel
  {
    if fuel > 0 {
      assert Iter(TrailStep(visit), first, 0) == Some(first);
      match visit(first)
      case Answer(a) => assert DecidedBy(visit, first, 0, a);
      case EndOfChain => assert DecidedBy(visit, first, 0, Err(NotFound));
      case GoTo(next) =>
        SearchDecided(visit, next, fuel - 1);
        var r := Search(visit, next, fuel - 1);
        if n :| 0 <= n < fuel - 1 && DecidedBy(visit, next, n, r) {
          assert Iter(TrailStep(visit), first, 1) == Some(next);
          IterShift(TrailStep(visit), first, 1, n);
          assert DecidedBy(visit, first, n + 1, r);
        }
    }
  }

  /** The n-th cluster visited answers r, all before it having passed the search on. */
  ghost predicate DecidedBy(visit: Visitor, first: u32, n: nat, r: Result<File, FatStatus>)
  {
    var c := Iter(TrailStep(visit), first, n);
    c.Some? && match visit(c.value)
               case Answer(a) => r == a
               case EndOfChain => r == Err(NotFound)
               case GoTo(_) => false
  }

  /** r was decided by cluster c: by an entry in it, or by the end-of-chain mark on it. */
  ghost predicate Decisive(d: Disk, fs: Fs, c: u32, look: Look, r: Result<File, FatStatus>)
    requires Mounted(fs)
  {
    ClusterValid(fs, c)
    && (ScanSectors(ClusterSectors(d, fs, c), look) == Stop(r)
        || (ScanSectors(ClusterSectors(d, fs, c), look) == Continue && AtEnd(d, fs, c) && r == Err(NotFound)))
  }

  /** A hit or a miss is reported only because a cluster within the guard holds the
      decisive entry or carries the end-of-chain mark; anything else is an error. */
  lemma AnswersAreDecided(d: Disk, fs: Fs, directory: u32, name: seq<u8>)
    requires |name| == 11 && Mounted(fs)
    requires Lookup(d, fs, directory, name).Ok? || Lookup(d, fs, directory, name) == Err(NotFound)
    ensures exists n, c :: 0 <= n <= fs.clusterCount
              && Iter(TrailStep(VisitorOf(d, fs, LookFor(name))), directory, n) == Some(c)
                           && Decisive(d, fs, c, LookFor(name), Lookup(d, fs, directory, name))
  {
    var n, c := DecidingCluster(d, fs, directory, LookFor(name), VisitorOf(d, fs, LookFor(name)));
  }

  lemma DecidingCluster(d: Disk, fs: Fs, directory: u32, look: Look, visit: Visitor) returns (n: nat, c: u32)
    requires Mounted(fs) && Describes(visit, d, fs, look)
    requires var r := Search(visit, directory, fs.clusterCount + 1); r.Ok? || r == Err(NotFound)
    ensures n <= fs.clusterCount && Iter(TrailStep(visit), directory, n) == Some(c)
    ensures Decisive(d, fs, c, look, Search(visit, directory, fs.clusterCount + 1))
  {
    var r := Search(visit, directory, fs.clusterCount + 1);
    SearchDecided(visit, directory, fs.clusterCount + 1);
    n :| 0 <= n < fs.clusterCount + 1 && DecidedBy(visit, directory, n, r);
    c := Iter(TrailStep(visit), directory, n).value;
    VisitReports(d, fs, look, visit, c);
  }

  lemma VisitReports(d: Disk, fs: Fs, look: Look, visit: Visitor, c: u32)
    requires Mounted(fs) && Describes(visit, d, fs, look)
    ensures var v := visit(c);
            && (v.Answer? && (v.answer.Ok? || v.answer == Err(NotFound)) ==> Decisive(d, fs, c, look, v.answer))
            && (v.EndOfChain? ==> Decisive(d, fs, c, look, Err(NotFound)))
  {
    assert visit(c) == VisitCluster(d, fs, look, c);
    if ClusterValid(fs, c) {
      ClusterPlace(fs, c);
    }
  }
}
