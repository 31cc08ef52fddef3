/** Partition discovery: MBR entries, and the GPT behind a protective MBR. */
module Partition {
  import opened Words
  import opened Block
  import opened Crc32
  import opened Bits

  datatype Status = NoTable | NoUsablePartition | IoError | Corrupt | Unsupported

  datatype Scheme = Mbr(mbrType: u8) | Gpt(typeGuid: seq<u8>, uniqueGuid: seq<u8>)

  datatype Partition = Partition(scheme: Scheme, first: u64, count: u64)

  predicate RangeValid(size: nat, first: nat, count: nat)
  {
    count != 0 && first < size && count <= size - first
  }

  // ----- GPT -----

  datatype GptHeader = GptHeader(size: u32, crc: u32, current: u64, firstUsable: u64, lastUsable: u64,
                                 entriesLba: u64, entryCount: u32, entrySize: u32, entriesCrc: u32)

  function ParseHeader(h: Sector): (r: GptHeader)
  {
    GptHeader(Le32(h, 12), Le32(h, 16), Le64(h, 24), Le64(h, 40), Le64(h, 48), Le64(h, 72), Le32(h, 80), Le32(h, 84),
              Le32(h, 88))
  }

  /** The header checks of parse_gpt, in order. */
  function HeaderError(h: Sector, size: nat): (r: Option<Status>)
  {
    var g := ParseHeader(h);
    if h[..8] != ['E' as int, 'F' as int, 'I' as int, ' ' as int, 'P' as int, 'A' as int, 'R' as int, 'T' as int]
    then Some(Corrupt)
    else if g.size < 92 || g.size > 512 then Some(Corrupt)
    else if g.current != 1 || g.firstUsable > g.lastUsable || g.lastUsable >= size then Some(Corrupt)
    else if g.entryCount == 0 || g.entryCount > 4096 || g.entrySize < 128 || g.entrySize > 512 || 512 % g.entrySize != 0
    then Some(Unsupported)
    else if Crc(h[..16] + [0, 0, 0, 0] + h[20..g.size]) != g.crc then Some(Corrupt)
    else None
  }

  function EntryBytes(g: GptHeader): (r: nat)
  {
    Distribute(g.entryCount, g.entrySize);
    g.entryCount * g.entrySize
  }

  function EntrySectors(g: GptHeader): (r: nat) { (EntryBytes(g) + 511) / 512 }

  /** The partition entry array as one byte string. */
  function EntryArray(d: Disk, g: GptHeader): (r: seq<u8>)
    requires g.entriesLba + EntrySectors(g) <= |d.sectors|
    ensures |r| == EntryBytes(g)
  {
    SectorRun(d, g.entriesLba, EntrySectors(g))[..EntryBytes(g)]
  }

  predicate Unused(entry: seq<u8>)
    requires |entry| >= 16
  {
    forall k :: 0 <= k < 16 ==> entry[k] == 0
  }

  /** Entry i of the array. */
  function Entry(table: seq<u8>, size: u32, i: nat): (r: seq<u8>)
    requires (i + 1) * size <= |table|
    ensures |r| == size
  {
    Distribute(i, size);
    table[i * size..i * size + size]
  }

  /** What parse_gpt makes of a used entry. */
  function EntryVerdict(entry: seq<u8>, g: GptHeader): (r: Result<Partition, Status>)
    requires |entry| >= 128
  {
    var first, last := Le64(entry, 32), Le64(entry, 40);
    if first > last || first < g.firstUsable || last > g.lastUsable then Err(Corrupt)
    else Ok(Partition(Gpt(entry[..16], entry[16..32]), first, Wrap64(last - first + 1)))
  }

  /** The first used entry at or after index i decides. */
  function FirstUsed(table: seq<u8>, g: GptHeader, i: nat): (r: Result<Partition, Status>)
    requires |table| == EntryBytes(g) && 128 <= g.entrySize && i <= g.entryCount
    decreases g.entryCount - i
  {
    if i == g.entryCount then Err(NoUsablePartition)
    else
      MulMonotone(i + 1, g.entryCount, g.entrySize);
      var e := Entry(table, g.entrySize, i);
      if Unused(e) then FirstUsed(table, g, i + 1) else EntryVerdict(e, g)
  }

  /** parse_gpt after its header checks, on the whole entry array at once. */
  function EntriesVerdict(d: Disk, g: GptHeader): (r: Result<Partition, Status>)
    requires 128 <= g.entrySize
  {
    if !RangeValid(|d.sectors|, g.entriesLba, EntrySectors(g)) then Err(Corrupt)
    else if !AllReadable(d, g.entriesLba, EntrySectors(g)) then Err(IoError)
    else if Crc(EntryArray(d, g)) != g.entriesCrc then Err(Corrupt)
    else FirstUsed(EntryArray(d, g), g, 0)
  }

  function GptVerdict(d: Disk): (r: Result<Partition, Status>)
  {
    match ReadBlock(d, 1)
    case None => Err(IoError)
    case Some(h) =>
      var e := HeaderError(h, |d.sectors|);
      if e.Some? then Err(e.value) else EntriesVerdict(d, ParseHeader(h))
  }

  // ----- parse_gpt sector by sector -----

  /** Entry sizes that divide a sector. */
  lemma EntrySizes(size: nat)
    requires 128 <= size <= 512 && 512 % size == 0
    ensures size == 128 || size == 256 || size == 512
  {
    var q := 512 / size;
    assert 512 == size * q;
    if q >= 5 {
      MulAtLeast5(size, q);
    }
  }

  lemma MulAtLeast5(size: nat, q: nat)
    requires size >= 128 && q >= 5
    ensures size * q >= 640
  {
    assert (size - 128) * q >= 0;
  }

  /** Each entry lies wholly in one sector, at byte i * size of the array. */
  lemma EntryPlace(i: nat, size: nat)
    requires size == 128 || size == 256 || size == 512
    ensures 512 / size > 0
    ensures var per := 512 / size;
            i * size == 512 * (i / per) + i % per * size && i % per * size + size <= 512
  {
    if size == 128 {
      assert 512 / size == 4;
    } else if size == 256 {
      assert 512 / size == 2;
    } else {
      assert 512 / size == 1;
    }
  }

  /** Where entry i lies: its byte in the array, its sector and its byte there. */
  lemma EntrySpot(g: GptHeader, i: nat, q: nat, o: nat)
    requires i < g.entryCount && (g.entrySize == 128 || g.entrySize == 256 || g.entrySize == 512)
    requires i * g.entrySize == 512 * q + o && o + g.entrySize <= 512
    ensures (i + 1) * g.entrySize <= EntryBytes(g) && 512 * q + o + g.entrySize <= EntryBytes(g) && q < EntrySectors(g)
  {
    MulMonotone(i + 1, g.entryCount, g.entrySize);
    Distribute(i, g.entrySize);
    SectorsCover(EntryBytes(g), q);
  }

  lemma SectorsCover(bytes: nat, q: nat)
    requires 512 * q < bytes
    ensures q < (bytes + 511) / 512
  {
  }

  lemma EntryInSector(d: Disk, g: GptHeader, i: nat)
    requires g.entriesLba + EntrySectors(g) <= |d.sectors| && i < g.entryCount
    requires g.entrySize == 128 || g.entrySize == 256 || g.entrySize == 512
    ensures (i + 1) * g.entrySize <= EntryBytes(g)
    ensures var per := 512 / g.entrySize;
            per > 0 && i / per < EntrySectors(g) && i % per * g.entrySize + g.entrySize <= 512
            && Entry(EntryArray(d, g), g.entrySize, i)
               == d.sectors[g.entriesLba + i / per][i % per * g.entrySize..i % per * g.entrySize + g.entrySize]
  {
    var size := g.entrySize;
    EntryPlace(i, size);
    var per := 512 / size;
    EntryIs(d, g, i, i / per, i % per * size);
  }

  lemma EntryIs(d: Disk, g: GptHeader, i: nat, q: nat, o: nat)
    requires g.entriesLba + EntrySectors(g) <= |d.sectors| && i < g.entryCount
    requires g.entrySize == 128 || g.entrySize == 256 || g.entrySize == 512
    requires i * g.entrySize == 512 * q + o && o + g.entrySize <= 512
    ensures (i + 1) * g.entrySize <= EntryBytes(g) && q < EntrySectors(g)
    ensures Entry(EntryArray(d, g), g.entrySize, i) == d.sectors[g.entriesLba + q][o..o + g.entrySize]
  {
    EntrySpot(g, i, q, o);
    var n, size := EntrySectors(g), g.entrySize;
    SectorSlice(d, g.entriesLba, n, q, o, size);
    SliceOfPrefix(SectorRun(d, g.entriesLba, n), EntryBytes(g), 512 * q + o, 512 * q + o + size);
  }

  /** The first bytes of a run of i sectors, no more than asked for. */
  ghost function RunPrefix(d: Disk, lba: nat, i: nat, bytes: nat): (r: seq<u8>)
    requires lba + i <= |d.sectors|
  {
    SectorRun(d, lba, i)[..if bytes < 512 * i then bytes else 512 * i]
  }

  lemma PrefixGrows(d: Disk, lba: nat, i: nat, bytes: nat, chunk: nat)
    requires lba + i + 1 <= |d.sectors| && 512 * i <= bytes
    requires chunk == if bytes - 512 * i > 512 then 512 else bytes - 512 * i
    ensures RunPrefix(d, lba, i + 1, bytes) == RunPrefix(d, lba, i, bytes) + d.sectors[lba + i][..chunk]
  {
  }

  /** One more chunk of the entry array. */
  lemma CrcChunk(d: Disk, lba: nat, i: nat, bytes: nat, chunk: nat)
    requires lba + i + 1 <= |d.sectors| && 512 * i <= bytes
    requires chunk == if bytes - 512 * i > 512 then 512 else bytes - 512 * i
    ensures ALL_ONES - Fold(ALL_ONES - Crc(RunPrefix(d, lba, i, bytes)), d.sectors[lba + i][..chunk])
         == Crc(RunPrefix(d, lba, i + 1, bytes))
  {
    PrefixGrows(d, lba, i, bytes, chunk);
    ResumedChecksum(RunPrefix(d, lba, i, bytes), d.sectors[lba + i][..chunk]);
  }

  /** The CRC loop: sector by sector, resuming from the finished checksum each time. */
  method EntriesCrc(d: Disk, g: GptHeader) returns (crc: Option<u32>)
    requires g.entriesLba + EntrySectors(g) <= |d.sectors|
    ensures crc == if AllReadable(d, g.entriesLba, EntrySectors(g)) then Some(Crc(EntryArray(d, g))) else None
  {
    crc := RunCrc(d, g.entriesLba, EntryBytes(g), EntrySectors(g));
  }

  method CrcRound(ghost d: Disk, ghost lba: nat, ghost i: nat, ghost bytes: nat, sector: Sector, running: u32,
                  remaining: nat)
    returns (crc: u32, left: nat)
    requires lba + i + 1 <= |d.sectors| && sector == d.sectors[lba + i] && bytes == 512 * i + remaining
    requires running == Crc(RunPrefix(d, lba, i, bytes))
    ensures crc == Crc(RunPrefix(d, lba, i + 1, bytes)) && left == if remaining > 512 then remaining - 512 else 0
  {
    var chunk := if remaining > 512 then 512 else remaining;
    CrcChunk(d, lba, i, bytes, chunk);
    crc := UpdateCrc(running, sector[..chunk]);
    left := remaining - chunk;
  }

  method RunCrc(d: Disk, lba: nat, bytes: nat, n: nat) returns (crc: Option<u32>)
    requires lba + n <= |d.sectors| && 512 * (n - 1) < bytes <= 512 * n
    ensures crc == if AllReadable(d, lba, n) then Some(Crc(SectorRun(d, lba, n)[..bytes])) else None
  {
    var running: u32, remaining := 0, bytes;
    EmptyCrc();
    assert RunPrefix(d, lba, 0, bytes) == [];
    for i := 0 to n
      invariant remaining == (if i < n then bytes - 512 * i else 0) && AllReadable(d, lba, i)
      invariant running == Crc(RunPrefix(d, lba, i, bytes))
    {
      var sector := ReadBlock(d, lba + i);
      if sector.None? {
        return None;
      }
      running, remaining := CrcRound(d, lba, i, bytes, sector.value, running, remaining);
    }
    crc := Some(running);
  }

  lemma EmptyCrc()
    ensures Crc([]) == 0
  {
  }

  /** parse_gpt. */
  method ParseGpt(d: Disk) returns (r: Result<Partition, Status>)
    ensures r == GptVerdict(d)
  {
    var block := ReadBlock(d, 1);
    if block.None? {
      return Err(IoError);
    }
    var e := HeaderError(block.value, |d.sectors|);
    if e.Some? {
      return Err(e.value);
    }
    HeaderSizes(block.value, |d.sectors|);
    r := ParseEntries(d, ParseHeader(block.value));
  }

  lemma HeaderSizes(h: Sector, size: nat)
    requires HeaderError(h, size) == None
    ensures var g := ParseHeader(h);
            g.entryCount > 0 && g.lastUsable < size && (g.entrySize == 128 || g.entrySize == 256 || g.entrySize == 512)
  {
    EntrySizes(ParseHeader(h).entrySize);
  }

  /** parse_gpt after its header checks. */
  method ParseEntries(d: Disk, g: GptHeader) returns (r: Result<Partition, Status>)
    requires g.entryCount > 0 && (g.entrySize == 128 || g.entrySize == 256 || g.entrySize == 512)
    ensures r == EntriesVerdict(d, g)
  {
    if !RangeValid(|d.sectors|, g.entriesLba, EntrySectors(g)) {
      return Err(Corrupt);
    }
    var crc := EntriesCrc(d, g);
    if crc.None? {
      return Err(IoError);
    }
    if crc.value != g.entriesCrc {
      return Err(Corrupt);
    }
    r := FindEntry(d, g);
  }

  /** The entry loop of parse_gpt, one sector read per entry. */
  method FindEntry(d: Disk, g: GptHeader) returns (r: Result<Partition, Status>)
    requires g.entrySize == 128 || g.entrySize == 256 || g.entrySize == 512
    requires AllReadable(d, g.entriesLba, EntrySectors(g))
    ensures r == FirstUsed(EntryArray(d, g), g, 0)
  {
    ghost var table := EntryArray(d, g);
    for i := 0 to g.entryCount
      invariant FirstUsed(table, g, 0) == FirstUsed(table, g, i)
    {
      var entry := ReadEntry(d, g, i);
      if entry.None? {
        return Err(IoError);
      }
      if Unused(entry.value) {
        continue;
      }
      return EntryVerdict(entry.value, g);
    }
    r := Err(NoUsablePartition);
  }

  /** Reads entry i from the sector that holds it. */
  method ReadEntry(d: Disk, g: GptHeader, i: nat) returns (entry: Option<seq<u8>>)
    requires g.entrySize == 128 || g.entrySize == 256 || g.entrySize == 512
    requires AllReadable(d, g.entriesLba, EntrySectors(g)) && i < g.entryCount
    ensures (i + 1) * g.entrySize <= EntryBytes(g)
    ensures entry == Some(Entry(EntryArray(d, g), g.entrySize, i))
  {
    EntryInSector(d, g, i);
    var per := 512 / g.entrySize;
    var offset := i % per * g.entrySize;
    var sector := ReadBlock(d, g.entriesLba + i / per);
    if sector.None? {
      return None;
    }
    entry := Some(sector.value[offset..offset + g.entrySize]);
  }

  /** An accepted GPT partition is the first entry in use of a table whose one-shot CRC
      matches, and lies inside the usable range and the device. */
  lemma GptFirstUsed(d: Disk)
    requires GptVerdict(d).Ok?
    ensures ReadBlock(d, 1).Some? && HeaderSound(ReadBlock(d, 1).value)
    ensures GptSound(d, ParseHeader(ReadBlock(d, 1).value), GptVerdict(d).value)
  {
    var h := ReadBlock(d, 1).value;
    HeaderSizes(h, |d.sectors|);
    EntriesSound(d, ParseHeader(h));
  }

  /** The sector starts with the signature "EFI PART", says that it is sector 1, and its CRC is
      that of the header with a zero CRC field. */
  ghost predicate HeaderSound(h: Sector)
  {
    var n := Le32(h, 12);
    && h[..8] == [0x45, 0x46, 0x49, 0x20, 0x50, 0x41, 0x52, 0x54] && Le64(h, 24) == 1
    && 92 <= n <= 512 && Crc(h[..16] + [0, 0, 0, 0] + h[20..n]) == Le32(h, 16)
  }

  ghost predicate GptSound(d: Disk, g: GptHeader, p: Partition)
  {
    && 128 <= g.entrySize && g.entriesLba + EntrySectors(g) <= |d.sectors|
    && Crc(EntryArray(d, g)) == g.entriesCrc
    && g.firstUsable <= p.first && p.count > 0 && p.first + p.count - 1 <= g.lastUsable
    && p.first + p.count <= |d.sectors|
    && exists i :: 0 <= i < g.entryCount && FirstUsedAt(EntryArray(d, g), g, i, p)
  }

  lemma EntriesSound(d: Disk, g: GptHeader)
    requires 128 <= g.entrySize && g.lastUsable < |d.sectors| && EntriesVerdict(d, g).Ok?
    ensures GptSound(d, g, EntriesVerdict(d, g).value)
  {
    FirstUsedMeaning(EntryArray(d, g), g, 0);
  }

  /** Entry i is in use, all before it are not, and p describes it. */
  ghost predicate FirstUsedAt(table: seq<u8>, g: GptHeader, i: nat, p: Partition)
    requires |table| == EntryBytes(g) && 128 <= g.entrySize
  {
    && i < g.entryCount
    && (MulMonotone(i + 1, g.entryCount, g.entrySize); var e := Entry(table, g.entrySize, i);
        !Unused(e) && p.scheme == Gpt(e[..16], e[16..32]) && p.first == Le64(e, 32)
        && p.count == Le64(e, 40) - Le64(e, 32) + 1)
    && forall k :: 0 <= k < i ==> UnusedAt(table, g, k)
  }

  ghost predicate UnusedAt(table: seq<u8>, g: GptHeader, k: nat)
    requires |table| == EntryBytes(g) && 128 <= g.entrySize && k < g.entryCount
  {
    MulMonotone(k + 1, g.entryCount, g.entrySize);
    Unused(Entry(table, g.entrySize, k))
  }

  /** What an accepted entry says. */
  lemma AcceptedEntry(entry: seq<u8>, g: GptHeader)
    requires |entry| >= 128 && g.lastUsable < TWO_64 - 1 && EntryVerdict(entry, g).Ok?
    ensures var p := EntryVerdict(entry, g).value;
            && g.firstUsable <= p.first && p.count > 0 && p.first + p.count - 1 <= g.lastUsable
            && p.scheme == Gpt(entry[..16], entry[16..32]) && p.first == Le64(entry, 32)
               && p.count == Le64(entry, 40) - Le64(entry, 32) + 1
  {
    WrapSmall64(Le64(entry, 40) - Le64(entry, 32) + 1);
  }

  lemma {:induction false} FirstUsedMeaning(table: seq<u8>, g: GptHeader, i: nat)
    requires |table| == EntryBytes(g) && 128 <= g.entrySize && i <= g.entryCount && g.lastUsable < TWO_64 - 1
    requires forall k :: 0 <= k < i ==> UnusedAt(table, g, k)
    requires FirstUsed(table, g, i).Ok?
    ensures var p := FirstUsed(table, g, i).value;
            && g.firstUsable <= p.first && p.count > 0 && p.first + p.count - 1 <= g.lastUsable
            && exists j :: 0 <= j < g.entryCount && FirstUsedAt(table, g, j, p)
    decreases g.entryCount - i
  {
    MulMonotone(i + 1, g.entryCount, g.entrySize);
    var e := Entry(table, g.entrySize, i);
    if Unused(e) {
      assert UnusedAt(table, g, i);
      FirstUsedMeaning(table, g, i + 1);
    } else {
      AcceptedEntry(e, g);
      assert FirstUsedAt(table, g, i, FirstUsed(table, g, i).value);
    }
  }

  // ----- MBR -----

  datatype MbrEntry = MbrEntry(status: u8, ptype: u8, first: u32, count: u32)

  function EntryAt(mbr: Sector, i: nat): (r: MbrEntry)
    requires i < 4
  {
    var at := 446 + 16 * i;
    MbrEntry(mbr[at], mbr[at + 4], Le32(mbr, at + 8), Le32(mbr, at + 12))
  }

  predicate Signed(mbr: Sector) { mbr[510] == 0x55 && mbr[511] == 0xAA }

  predicate Used(e: MbrEntry) { e.ptype != 0 && e.count != 0 }

  predicate StatusOk(e: MbrEntry) { e.status == 0x00 || e.status == 0x80 }

  function ToPartition(e: MbrEntry): (p: Partition) { Partition(Mbr(e.ptype), e.first, e.count) }

  /** What ends the scan of the MBR entries. */
  datatype ScanEnd = Bad | ProtectiveGpt | Chosen(entry: MbrEntry) | NoEntry

  /** The scan from entry i on, where fallback is the first used entry so far. */
  function MbrScan(mbr: Sector, size: nat, i: nat, fallback: Option<MbrEntry>): (r: ScanEnd)
    requires i <= 4
    decreases 4 - i
  {
    if i == 4 then if fallback.Some? then Chosen(fallback.value) else NoEntry
    else
      var e := EntryAt(mbr, i);
      if !StatusOk(e) then Bad
      else if !Used(e) then MbrScan(mbr, size, i + 1, fallback)
      else if e.ptype == 0xEE then ProtectiveGpt
      else if !RangeValid(size, e.first, e.count) then Bad
      else if e.status == 0x80 then Chosen(e)
      else MbrScan(mbr, size, i + 1, if fallback.Some? then fallback else Some(e))
  }

  function BootVerdict(d: Disk): (r: Result<Partition, Status>)
  {
    if |d.sectors| < 2 then Err(NoTable)
    else
      match ReadBlock(d, 0)
      case None => Err(IoError)
      case Some(mbr) =>
        if !Signed(mbr) then Err(NoTable)
        else
          match MbrScan(mbr, |d.sectors|, 0, None)
          case Bad => Err(Corrupt)
          case ProtectiveGpt => GptVerdict(d)
          case Chosen(e) => Ok(ToPartition(e))
          case NoEntry => Err(NoUsablePartition)
  }

  /** josh_partition_find_boot. */
  method FindBoot(d: Disk) returns (r: Result<Partition, Status>)
    ensures r == BootVerdict(d)
  {
    if |d.sectors| < 2 {
      return Err(NoTable);
    }
    var block := ReadBlock(d, 0);
    if block.None? {
      return Err(IoError);
    }
    var mbr := block.value;
    if mbr[510] != 0x55 || mbr[511] != 0xAA {
      return Err(NoTable);
    }
    var end := ScanEntries(mbr, |d.sectors|);
    match end
    case Bad => r := Err(Corrupt);
    case ProtectiveGpt => r := ParseGpt(d);
    case NoEntry => r := Err(NoUsablePartition);
    case Chosen(e) => r := Ok(Partition(Mbr(e.ptype), e.first, e.count));
  }

  /** The entry loop of josh_partition_find_boot. */
  method ScanEntries(mbr: Sector, size: nat) returns (end: ScanEnd)
    ensures end == MbrScan(mbr, size, 0, None)
  {
    var fallback: Option<MbrEntry> := None;
    for i := 0 to 4
      invariant MbrScan(mbr, size, 0, None) == MbrScan(mbr, size, i, fallback)
    {
      var e := EntryAt(mbr, i);
      if e.status != 0x00 && e.status != 0x80 {
        return Bad;
      }
      if e.ptype == 0 || e.count == 0 {
        continue;
      }
      if e.ptype == 0xEE {
        return ProtectiveGpt;
      }
      if !RangeValid(size, e.first, e.count) {
        return Bad;
      }
      if fallback.None? {
        fallback := Some(e);
      }
      if e.status == 0x80 {
        return Chosen(e);
      }
    }
    end := if fallback.Some? then Chosen(fallback.value) else NoEntry;
  }

  predicate Active(e: MbrEntry) { Used(e) && e.status == 0x80 }

  /** Entry k is what the scan must choose: the first active used entry, or, when no used
      entry is active, the first used one. */
  ghost predicate IsChoice(mbr: Sector, k: nat)
  {
    && k < 4 && Used(EntryAt(mbr, k))
    && if Active(EntryAt(mbr, k))
       then forall j :: 0 <= j < k ==> !Active(EntryAt(mbr, j))
       else (forall j :: 0 <= j < 4 ==> !Active(EntryAt(mbr, j))) && (forall j :: 0 <= j < k ==> !Used(EntryAt(mbr, j)))
  }

  /** An entry the scan can pass without stopping in an error or at a GPT. */
  predicate Clean(e: MbrEntry, size: nat)
  {
    StatusOk(e) && (Used(e) ==> e.ptype != 0xEE && RangeValid(size, e.first, e.count))
  }

  /** How far the scan looks when it chooses entry k. */
  function Horizon(mbr: Sector, k: nat): (r: nat)
    requires k < 4
  {
    if Active(EntryAt(mbr, k)) then k + 1 else 4
  }

  /** The scan chooses exactly the first active entry, or without one the first used
      entry, provided everything it looks at on the way is clean. */
  lemma ChoiceMeaning(mbr: Sector, size: nat, e: MbrEntry)
    ensures MbrScan(mbr, size, 0, None) == Chosen(e)
       <==> exists k :: 0 <= k < 4 && IsChoice(mbr, k) && EntryAt(mbr, k) == e
                        && forall j :: 0 <= j < Horizon(mbr, k) ==> Clean(EntryAt(mbr, j), size)
  {
    ScanFrom(mbr, size, 0, None, 0, e);
  }

  /** State of the scan before entry i: clean so far, nothing active, and first is the
      index of the fallback (or i when there is none). */
  ghost predicate SoFar(mbr: Sector, size: nat, i: nat, fallback: Option<MbrEntry>, first: nat)
    requires i <= 4
  {
    && first <= i
    && (forall j :: 0 <= j < i ==> Clean(EntryAt(mbr, j), size) && !Active(EntryAt(mbr, j)))
    && (forall j :: 0 <= j < first ==> !Used(EntryAt(mbr, j)))
    && (if first < i then Used(EntryAt(mbr, first)) && fallback == Some(EntryAt(mbr, first)) else fallback == None)
  }

  lemma {:induction false} ScanFrom(mbr: Sector, size: nat, i: nat, fallback: Option<MbrEntry>, first: nat, e: MbrEntry)
    requires i <= 4 && SoFar(mbr, size, i, fallback, first)
    ensures MbrScan(mbr, size, i, fallback) == Chosen(e)
       <==> exists k :: 0 <= k < 4 && IsChoice(mbr, k) && EntryAt(mbr, k) == e
                        && forall j :: 0 <= j < Horizon(mbr, k) ==> Clean(EntryAt(mbr, j), size)
    decreases 4 - i
  {
    if i == 4 {
      if first < 4 {
        assert IsChoice(mbr, first);
      }
    } else {
      var x := EntryAt(mbr, i);
      if Clean(x, size) && !Active(x) {
        var f := if fallback.None? && Used(x) then Some(x) else fallback;
        ScanFrom(mbr, size, i + 1, f, if first < i || Used(x) then first else i + 1, e);
      } else if Clean(x, size) {
        assert IsChoice(mbr, i) && Horizon(mbr, i) == i + 1;
      } else {
        forall k | 0 <= k < 4 && IsChoice(mbr, k)
          ensures Horizon(mbr, k) > i
        {
        }
      }
    }
  }

  // ----- keeping health sectors off the partitions -----

  predicate RangesOverlap(aFirst: u64, aCount: u64, bFirst: u64, bCount: u64)
  {
    if aCount == 0 || bCount == 0 then false
    else
      var aLast, bLast := Wrap64(aFirst + aCount - 1), Wrap64(bFirst + bCount - 1);
      aLast < aFirst || bLast < bFirst || !(aLast < bFirst || bLast < aFirst)
  }

  predicate Within(x: int, first: int, count: int) { first <= x < first + count }

  /** For ranges that fit the address space, the test is exact. */
  lemma OverlapMeaning(aFirst: u64, aCount: u64, bFirst: u64, bCount: u64)
    requires aFirst + aCount <= TWO_64 && bFirst + bCount <= TWO_64
    ensures RangesOverlap(aFirst, aCount, bFirst, bCount)
       <==> exists x :: Within(x, aFirst, aCount) && Within(x, bFirst, bCount)
  {
    var x := if aFirst < bFirst then bFirst else aFirst;
    if aCount > 0 && bCount > 0 {
      assert Wrap64(aFirst + aCount - 1) == aFirst + aCount - 1;
      assert Wrap64(bFirst + bCount - 1) == bFirst + bCount - 1;
      if RangesOverlap(aFirst, aCount, bFirst, bCount) {
        assert Within(x, aFirst, aCount) && Within(x, bFirst, bCount);
      }
    }
  }

  lemma ApartWhenNoOverlap(aFirst: u64, aCount: u64, bFirst: u64, bCount: u64)
    requires aFirst + aCount <= TWO_64 && bFirst + bCount <= TWO_64 && aCount > 0 && bCount > 0
    requires !RangesOverlap(aFirst, aCount, bFirst, bCount)
    ensures aFirst + aCount <= bFirst || bFirst + bCount <= aFirst
  {
    OverlapMeaning(aFirst, aCount, bFirst, bCount);
    var x := if aFirst < bFirst then bFirst else aFirst;
    assert !(Within(x, aFirst, aCount) && Within(x, bFirst, bCount));
  }

  /** josh_partition_range_is_unallocated. */
  method RangeIsUnallocated(d: Disk, first: u64, count: u64) returns (free: bool)
    ensures free <==> Unallocated(d, first, count)
  {
    if !RangeValid(|d.sectors|, first, count) || RangesOverlap(first, count, 0, 1) {
      return false;
    }
    var block := ReadBlock(d, 0);
    if block.None? || !Signed(block.value) {
      return false;
    }
    for i := 0 to 4
      invariant forall j :: 0 <= j < i ==> EntryClear(EntryAt(block.value, j), |d.sectors|, first, count)
    {
      var e := EntryAt(block.value, i);
      if e.status != 0x00 && e.status != 0x80 {
        return false;
      }
      if e.ptype == 0 || e.count == 0 {
        continue;
      }
      if e.ptype == 0xEE {
        return false;
      }
      if !RangeValid(|d.sectors|, e.first, e.count) {
        return false;
      }
      if RangesOverlap(first, count, e.first, e.count) {
        return false;
      }
    }
    return true;
  }

  /** The entry is clean and, if used, keeps clear of the range. */
  predicate EntryClear(e: MbrEntry, size: nat, first: u64, count: u64)
  {
    Clean(e, size) && (Used(e) ==> !RangesOverlap(first, count, e.first, e.count))
  }

  predicate Unallocated(d: Disk, first: u64, count: u64)
  {
    && RangeValid(|d.sectors|, first, count)
    && !RangesOverlap(first, count, 0, 1)
    && ReadBlock(d, 0).Some? && Signed(ReadBlock(d, 0).value)
    && forall j :: 0 <= j < 4 ==> EntryClear(EntryAt(ReadBlock(d, 0).value, j), |d.sectors|, first, count)
  }

  /** A range the test accepts is disjoint from sector 0 and from the boot partition,
      which is then an MBR partition inside the device. */
  lemma UnallocatedIsClear(d: Disk, first: u64, count: u64)
    requires Unallocated(d, first, count) && BootVerdict(d).Ok?
    ensures first > 0 && first + count <= |d.sectors|
    ensures var p := BootVerdict(d).value;
            p.scheme.Mbr? && p.first + p.count <= |d.sectors|
            && (first + count <= p.first || p.first + p.count <= first)
  {
    var mbr := ReadBlock(d, 0).value;
    var end := MbrScan(mbr, |d.sectors|, 0, None);
    ApartWhenNoOverlap(first, count, 0, 1);
    assert forall j :: 0 <= j < 4 ==> EntryClear(EntryAt(mbr, j), |d.sectors|, first, count);
    NoGpt(mbr, |d.sectors|, 0, None);
    ChosenIsClear(mbr, |d.sectors|, end.entry, first, count);
  }

  lemma ChosenIsClear(mbr: Sector, size: nat, e: MbrEntry, first: u64, count: u64)
    requires size < TWO_64 && RangeValid(size, first, count)
    requires MbrScan(mbr, size, 0, None) == Chosen(e)
    requires forall j :: 0 <= j < 4 ==> EntryClear(EntryAt(mbr, j), size, first, count)
    ensures RangeValid(size, e.first, e.count)
    ensures first + count <= e.first || e.first + e.count <= first
  {
    ChoiceMeaning(mbr, size, e);
    var k :| 0 <= k < 4 && IsChoice(mbr, k) && EntryAt(mbr, k) == e;
    assert EntryClear(EntryAt(mbr, k), size, first, count);
    ApartWhenNoOverlap(first, count, e.first, e.count);
  }

  lemma {:induction false} NoGpt(mbr: Sector, size: nat, i: nat, fallback: Option<MbrEntry>)
    requires i <= 4 && forall j :: 0 <= j < 4 ==> Clean(EntryAt(mbr, j), size)
    ensures MbrScan(mbr, size, i, fallback) != ProtectiveGpt
    decreases 4 - i
  {
    if i < 4 {
      var x := EntryAt(mbr, i);
      assert Clean(x, size);
      NoGpt(mbr, size, i + 1, fallback);
      NoGpt(mbr, size, i + 1, if fallback.Some? then fallback else Some(x));
    }
  }
}
