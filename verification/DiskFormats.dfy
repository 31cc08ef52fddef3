/** The on-disk structures as their standards lay them out, written field by field, and what
    the parsers make of them. */
module DiskFormats {
  import opened Words
  import opened Layouts
  import opened Block
  import opened Crc32
  import opened Partition
  import opened Fat32
  import opened Fat32Dir

  type Bytes3 = s: seq<u8> | |s| == 3 witness [0, 0, 0]

  // ----- the master boot record -----

  /** A partition entry: status, first sector as CHS, type, last sector as CHS, first sector
      and sector count. */
  datatype RawEntry = RawEntry(status: u8, chsFirst: Bytes3, ptype: u8, chsLast: Bytes3, first: u32, count: u32)

  function MbrEntryBytes(e: RawEntry): (s: seq<u8>)
    ensures |s| == 16
  {
    [e.status] + e.chsFirst + [e.ptype] + e.chsLast + Put32(e.first) + Put32(e.count)
  }

  /** Boot code, four entries and the signature. */
  function MbrSector(code: seq<u8>, e: seq<RawEntry>): (s: Sector)
    requires |code| == 446 && |e| == 4
  {
    MbrFront(code, e, 4) + [0x55, 0xAA]
  }

  /** Reading an entry that stands after some bytes. */
  lemma RawEntryAt(s: seq<u8>, q: seq<u8>, e: RawEntry)
    requires q + MbrEntryBytes(e) <= s
    ensures q <= s && |q| + 16 <= |s|
    ensures s[|q|] == e.status && s[|q| + 4] == e.ptype && Le32(s, |q| + 8) == e.first && Le32(s, |q| + 12) == e.count
  {
    var p1 := q + [e.status];
    var p2 := p1 + e.chsFirst;
    var p3 := p2 + [e.ptype];
    var p4 := p3 + e.chsLast;
    var p5 := p4 + Put32(e.first);
    assert q + MbrEntryBytes(e) == p5 + Put32(e.count);
    Word32At(s, p5, e.count);
    Word32At(s, p4, e.first);
    Before(p3, e.chsLast, s);
    ByteAt(s, p2, e.ptype);
    Before(p1, e.chsFirst, s);
    ByteAt(s, q, e.status);
  }

  lemma EntryFrom(s: Sector, q: seq<u8>, e: RawEntry, i: nat)
    requires i < 4 && |q| == 446 + 16 * i && q + MbrEntryBytes(e) <= s
    ensures q <= s && EntryAt(s, i) == MbrEntry(e.status, e.ptype, e.first, e.count)
  {
    RawEntryAt(s, q, e);
  }

  /** The bytes in front of entry i. */
  function MbrFront(code: seq<u8>, e: seq<RawEntry>, i: nat): (q: seq<u8>)
    requires |code| == 446 && i <= |e|
    ensures |q| == 446 + 16 * i
  {
    if i == 0 then code else MbrFront(code, e, i - 1) + MbrEntryBytes(e[i - 1])
  }

  lemma {:induction false} FrontGrows(code: seq<u8>, e: seq<RawEntry>, i: nat, n: nat)
    requires |code| == 446 && i <= n <= |e|
    ensures MbrFront(code, e, i) <= MbrFront(code, e, n)
  {
    if i < n {
      FrontGrows(code, e, i, n - 1);
    }
  }

  /** The parser reads the entries of a master boot record as they were written. */
  lemma MbrReads(code: seq<u8>, e: seq<RawEntry>, i: nat)
    requires |code| == 446 && |e| == 4 && i < 4
    ensures Signed(MbrSector(code, e))
    ensures EntryAt(MbrSector(code, e), i) == MbrEntry(e[i].status, e[i].ptype, e[i].first, e[i].count)
  {
    FrontGrows(code, e, i + 1, 4);
    EntryFrom(MbrSector(code, e), MbrFront(code, e, i), e[i], i);
  }

  predicate InUse(e: RawEntry) { e.ptype != 0 && e.count != 0 }

  predicate IsActive(e: RawEntry) { InUse(e) && e.status == 0x80 }

  /** A status of 0 or 0x80 and, in use, a partition of another type than 0xEE inside the disk. */
  predicate SoundEntry(e: RawEntry, size: nat)
  {
    (e.status == 0 || e.status == 0x80) && (InUse(e) ==> e.ptype != 0xEE && e.first + e.count <= size)
  }

  /** Entry k is the first active one, or without an active one the first in use; all entries up
      to it, or all four in the second case, are sound. */
  ghost predicate BootEntry(e: seq<RawEntry>, size: nat, k: nat)
    requires |e| == 4
  {
    && k < 4 && InUse(e[k])
    && if e[k].status == 0x80
       then (forall j :: 0 <= j < k ==> !IsActive(e[j])) && (forall j :: 0 <= j <= k ==> SoundEntry(e[j], size))
       else (forall j :: 0 <= j < 4 ==> !IsActive(e[j]) && SoundEntry(e[j], size)) && (forall j :: 0 <= j < k ==> !InUse(e[j]))
  }

  /** On a disk with such a master boot record that entry is the boot partition. */
  lemma BootEntryIsFound(d: Disk, code: seq<u8>, e: seq<RawEntry>, k: nat)
    requires |code| == 446 && |e| == 4 && |d.sectors| >= 2 && ReadBlock(d, 0) == Some(MbrSector(code, e))
    requires BootEntry(e, |d.sectors|, k)
    ensures BootVerdict(d) == Ok(Partition(Mbr(e[k].ptype), e[k].first, e[k].count))
  {
    var mbr, size := MbrSector(code, e), |d.sectors|;
    forall j | 0 <= j < 4
      ensures EntryAt(mbr, j) == MbrEntry(e[j].status, e[j].ptype, e[j].first, e[j].count)
      ensures Used(EntryAt(mbr, j)) == InUse(e[j]) && Active(EntryAt(mbr, j)) == IsActive(e[j])
      ensures SoundEntry(e[j], size) ==> Clean(EntryAt(mbr, j), size)
    {
      MbrReads(code, e, j);
    }
    MbrReads(code, e, k);
    assert IsChoice(mbr, k);
    ChoiceMeaning(mbr, size, EntryAt(mbr, k));
  }

  /** Without the signature 0x55 0xAA at the end of sector 0 there is no boot partition. */
  lemma UnsignedIsRefused(d: Disk)
    requires BootVerdict(d).Ok?
    ensures |d.sectors| >= 2 && 0 !in d.broken && d.sectors[0][510] == 0x55 && d.sectors[0][511] == 0xAA
  {
  }

  /** A protective entry that no active entry precedes sends the search to the GPT. */
  lemma ProtectiveIsGpt(d: Disk, code: seq<u8>, e: seq<RawEntry>, k: nat)
    requires |code| == 446 && |e| == 4 && |d.sectors| >= 2 && ReadBlock(d, 0) == Some(MbrSector(code, e))
    requires k < 4 && InUse(e[k]) && e[k].ptype == 0xEE && (e[k].status == 0 || e[k].status == 0x80)
    requires forall j :: 0 <= j < k ==> SoundEntry(e[j], |d.sectors|) && !IsActive(e[j])
    ensures BootVerdict(d) == GptVerdict(d)
  {
    var mbr := MbrSector(code, e);
    forall j | 0 <= j < 4
      ensures EntryAt(mbr, j) == MbrEntry(e[j].status, e[j].ptype, e[j].first, e[j].count)
    {
      MbrReads(code, e, j);
    }
    MbrReads(code, e, k);
    ScanReaches(mbr, |d.sectors|, e, 0, None, k);
  }

  lemma {:induction false} ScanReaches(mbr: Sector, size: nat, e: seq<RawEntry>, i: nat, fallback: Option<MbrEntry>,
                                       k: nat)
    requires |e| == 4 && i <= k < 4
    requires forall j :: 0 <= j < 4 ==> EntryAt(mbr, j) == MbrEntry(e[j].status, e[j].ptype, e[j].first, e[j].count)
    requires InUse(e[k]) && e[k].ptype == 0xEE && (e[k].status == 0 || e[k].status == 0x80)
    requires forall j :: i <= j < k ==> SoundEntry(e[j], size) && !IsActive(e[j])
    ensures MbrScan(mbr, size, i, fallback) == ProtectiveGpt
    decreases k - i
  {
    if i < k {
      var x := EntryAt(mbr, i);
      ScanReaches(mbr, size, e, i + 1, if Used(x) && fallback.None? then Some(x) else fallback, k);
    }
  }

  // ----- the FAT32 boot sector -----

  /** The fields between the parameter block fields that the mount reads. */
  datatype BpbRest = BpbRest(jump: Bytes3, oem: seq<u8>, media: u8, perTrack: u16, heads: u16, hidden: u32,
                             extFlags: u16, version: u16, tail: seq<u8>)

  /** A boot sector in the order of the FAT specification: jump, OEM name, bytes per sector,
      sectors per cluster, reserved sectors, number of FATs, root entries, 16-bit total,
      media, 16-bit FAT size, track and head geometry, hidden sectors, 32-bit total, 32-bit
      FAT size, flags, version, root cluster; the signature ends it. */
  function BootSector(b: Bpb, r: BpbRest): (s: Sector)
    requires |r.oem| == 8 && |r.tail| == 462
  {
    r.jump + r.oem + Put16(b.bytesPerSector) + [b.sectorsPerCluster] + Put16(b.reserved) + [b.fatCount]
    + Put16(b.rootEntries) + Put16(b.total16) + [r.media] + Put16(b.fat16) + Put16(r.perTrack) + Put16(r.heads)
    + Put32(r.hidden) + Put32(b.total32) + Put32(b.fat32) + Put16(r.extFlags) + Put16(r.version)
    + Put32(b.rootCluster) + r.tail + [0x55, 0xAA]
  }

  /** The first half of the boot sector. */
  lemma BpbLow(s: seq<u8>, b: Bpb, r: BpbRest)
    requires |r.oem| == 8
    requires r.jump + r.oem + Put16(b.bytesPerSector) + [b.sectorsPerCluster] + Put16(b.reserved) + [b.fatCount]
             + Put16(b.rootEntries) + Put16(b.total16) + [r.media] + Put16(b.fat16) <= s
    ensures |s| >= 24
    ensures Le16(s, 11) == b.bytesPerSector && s[13] == b.sectorsPerCluster && Le16(s, 14) == b.reserved
    ensures s[16] == b.fatCount && Le16(s, 17) == b.rootEntries && Le16(s, 19) == b.total16 && Le16(s, 22) == b.fat16
  {
    var p1 := r.jump + r.oem;
    var p2 := p1 + Put16(b.bytesPerSector);
    var p3 := p2 + [b.sectorsPerCluster];
    var p4 := p3 + Put16(b.reserved);
    var p5 := p4 + [b.fatCount];
    var p6 := p5 + Put16(b.rootEntries);
    var p7 := p6 + Put16(b.total16);
    var p8 := p7 + [r.media];
    Word16At(s, p8, b.fat16);
    Before(p7, [r.media], s);
    Word16At(s, p6, b.total16);
    Word16At(s, p5, b.rootEntries);
    ByteAt(s, p4, b.fatCount);
    Word16At(s, p3, b.reserved);
    ByteAt(s, p2, b.sectorsPerCluster);
    Word16At(s, p1, b.bytesPerSector);
  }

  /** The second half, after the 24 bytes in q. */
  lemma BpbHigh(s: seq<u8>, q: seq<u8>, b: Bpb, r: BpbRest)
    requires |q| == 24
    requires q + Put16(r.perTrack) + Put16(r.heads) + Put32(r.hidden) + Put32(b.total32) + Put32(b.fat32)
             + Put16(r.extFlags) + Put16(r.version) + Put32(b.rootCluster) <= s
    ensures q <= s && |s| >= 48
    ensures Le32(s, 32) == b.total32 && Le32(s, 36) == b.fat32 && Le32(s, 44) == b.rootCluster
  {
    var p1 := q + Put16(r.perTrack);
    var p2 := p1 + Put16(r.heads);
    var p3 := p2 + Put32(r.hidden);
    var p4 := p3 + Put32(b.total32);
    var p5 := p4 + Put32(b.fat32);
    var p6 := p5 + Put16(r.extFlags);
    var p7 := p6 + Put16(r.version);
    Word32At(s, p7, b.rootCluster);
    Before(p6, Put16(r.version), s);
    Before(p5, Put16(r.extFlags), s);
    Word32At(s, p4, b.fat32);
    Word32At(s, p3, b.total32);
    Before(p2, Put32(r.hidden), s);
    Before(p1, Put16(r.heads), s);
    Before(q, Put16(r.perTrack), s);
  }

  /** The mount reads the parameter block as it was written. */
  lemma BpbReads(b: Bpb, r: BpbRest)
    requires |r.oem| == 8 && |r.tail| == 462
    ensures var s := BootSector(b, r); ParseBpb(s) == b && s[510] == 0x55 && s[511] == 0xAA
  {
    var s := BootSector(b, r);
    var q := r.jump + r.oem + Put16(b.bytesPerSector) + [b.sectorsPerCluster] + Put16(b.reserved) + [b.fatCount]
             + Put16(b.rootEntries) + Put16(b.total16) + [r.media] + Put16(b.fat16);
    var p := q + Put16(r.perTrack) + Put16(r.heads) + Put32(r.hidden) + Put32(b.total32) + Put32(b.fat32)
             + Put16(r.extFlags) + Put16(r.version) + Put32(b.rootCluster);
    assert |q| == 24 && |p| == 48;
    assert s == p + r.tail + [0x55, 0xAA];
    assert p <= s;
    BpbHigh(s, q, b, r);
    BpbLow(s, b, r);
  }

  // ----- directory entries -----

  /** The times of a directory entry, which the reader ignores. */
  datatype Times = Times(reserved: u8, tenths: u8, createTime: u16, createDate: u16, accessDate: u16,
                         writeTime: u16, writeDate: u16)

  /** A directory entry in the order of the FAT specification: name, attributes, a reserved
      byte, creation time and date, access date, high half of the first cluster, write time
      and date, low half of the first cluster, size. */
  function DirEntry(name: seq<u8>, f: File, t: Times): (e: seq<u8>)
    requires |name| == 11
    ensures |e| == 32
  {
    name + [f.attributes] + [t.reserved] + [t.tenths] + Put16(t.createTime) + Put16(t.createDate)
    + Put16(t.accessDate) + Put16(f.firstCluster / 0x1_0000) + Put16(t.writeTime) + Put16(t.writeDate)
    + Put16(f.firstCluster % 0x1_0000) + Put32(f.size)
  }

  /** The reader takes a directory entry as it was written. */
  lemma DirEntryReads(name: seq<u8>, f: File, t: Times)
    requires |name| == 11
    ensures var e := DirEntry(name, f, t); EntryFile(e) == f && e[..11] == name && e[11] == f.attributes
  {
    var e := DirEntry(name, f, t);
    var p1 := name + [f.attributes];
    var p2 := p1 + [t.reserved] + [t.tenths] + Put16(t.createTime) + Put16(t.createDate);
    var p3 := p2 + Put16(t.accessDate);
    var p4 := p3 + Put16(f.firstCluster / 0x1_0000);
    var p5 := p4 + Put16(t.writeTime) + Put16(t.writeDate);
    var p6 := p5 + Put16(f.firstCluster % 0x1_0000);
    assert e == p6 + Put32(f.size);
    Word32At(e, p6, f.size);
    Word16At(e, p5, f.firstCluster % 0x1_0000);
    assert p4 <= p5;
    Word16At(e, p3, f.firstCluster / 0x1_0000);
    assert p1 <= p2 <= p3;
    ByteAt(e, name, f.attributes);
    FieldAt(e, [], name);
  }

  /** A live entry of the name that is looked for is found, with the file it describes. */
  lemma LiveEntryFound(name: seq<u8>, f: File, t: Times)
    requires |name| == 11 && name[0] != 0 && name[0] != 0xE5 && f.attributes != 0x0F && f.attributes / 8 % 2 == 0
    ensures ScanEntry(DirEntry(name, f, t), name) ==
            if f.size > 0 && f.firstCluster < 2 then Stop(Err(FatCorrupt)) else Stop(Ok(f))
  {
    DirEntryReads(name, f, t);
  }

  /** Deleted entries, parts of long names, volume labels and other names are passed over;
      an entry that starts with zero ends the directory. */
  lemma OtherEntriesPassed(written: seq<u8>, f: File, t: Times, name: seq<u8>)
    requires |written| == |name| == 11
    ensures written[0] == 0 ==> ScanEntry(DirEntry(written, f, t), name) == Stop(Err(NotFound))
    ensures written[0] == 0xE5
            || (written[0] != 0 && (f.attributes == 0x0F || f.attributes / 8 % 2 == 1 || written != name))
            ==> ScanEntry(DirEntry(written, f, t), name) == Continue
  {
    DirEntryReads(written, f, t);
    assert DirEntry(written, f, t)[0] == DirEntry(written, f, t)[..11][0];
  }

  // ----- the GUID partition table -----

  /** The fields of a GPT header that the parser does not use. */
  datatype GptRest = GptRest(revision: u32, reserved: u32, backup: u64, diskGuid: seq<u8>, tail: seq<u8>)

  /** A GPT header in the order of the UEFI specification: signature, revision, header size,
      header CRC, reserved, own sector, backup sector, first and last usable sector, disk
      GUID, first sector of the entry array, number and size of entries, CRC of the array. */
  function GptSector(g: GptHeader, r: GptRest): (s: Sector)
    requires |r.diskGuid| == 16 && |r.tail| == 420
  {
    GptFront(g, r) + Put64(g.current) + Put64(r.backup) + Put64(g.firstUsable) + Put64(g.lastUsable) + r.diskGuid
    + Put64(g.entriesLba) + Put32(g.entryCount) + Put32(g.entrySize) + Put32(g.entriesCrc) + r.tail
  }

  const EFI_PART: seq<u8> := [0x45, 0x46, 0x49, 0x20, 0x50, 0x41, 0x52, 0x54]

  function GptFront(g: GptHeader, r: GptRest): (s: seq<u8>)
    ensures |s| == 24
  {
    EFI_PART + Put32(r.revision) + Put32(g.size) + Put32(g.crc) + Put32(r.reserved)
  }

  lemma GptFrontReads(s: seq<u8>, g: GptHeader, r: GptRest)
    requires GptFront(g, r) <= s
    ensures |s| >= 24 && s[..8] == EFI_PART && Le32(s, 12) == g.size && Le32(s, 16) == g.crc
  {
    var p1 := EFI_PART + Put32(r.revision);
    var p2 := p1 + Put32(g.size);
    var p3 := p2 + Put32(g.crc);
    Before(p3, Put32(r.reserved), s);
    Word32At(s, p2, g.crc);
    Word32At(s, p1, g.size);
    Before(EFI_PART, Put32(r.revision), s);
    FieldAt(s, [], EFI_PART);
  }

  lemma GptBackReads(s: seq<u8>, q: seq<u8>, g: GptHeader, r: GptRest)
    requires |q| == 24 && |r.diskGuid| == 16
    requires q + Put64(g.current) + Put64(r.backup) + Put64(g.firstUsable) + Put64(g.lastUsable) + r.diskGuid
             + Put64(g.entriesLba) + Put32(g.entryCount) + Put32(g.entrySize) + Put32(g.entriesCrc) <= s
    ensures q <= s && |s| >= 92
    ensures Le64(s, 24) == g.current && Le64(s, 40) == g.firstUsable && Le64(s, 48) == g.lastUsable
    ensures Le64(s, 72) == g.entriesLba
    ensures Le32(s, 80) == g.entryCount && Le32(s, 84) == g.entrySize && Le32(s, 88) == g.entriesCrc
  {
    var p1 := q + Put64(g.current);
    var p2 := p1 + Put64(r.backup);
    var p3 := p2 + Put64(g.firstUsable);
    var p4 := p3 + Put64(g.lastUsable);
    var p5 := p4 + r.diskGuid;
    var p6 := p5 + Put64(g.entriesLba);
    var p7 := p6 + Put32(g.entryCount);
    var p8 := p7 + Put32(g.entrySize);
    Word32At(s, p8, g.entriesCrc);
    Word32At(s, p7, g.entrySize);
    Word32At(s, p6, g.entryCount);
    Word64At(s, p5, g.entriesLba);
    Before(p4, r.diskGuid, s);
    Word64At(s, p3, g.lastUsable);
    Word64At(s, p2, g.firstUsable);
    Before(p1, Put64(r.backup), s);
    Word64At(s, q, g.current);
  }

  /** The parser reads a GPT header as it was written. */
  lemma GptReads(g: GptHeader, r: GptRest)
    requires |r.diskGuid| == 16 && |r.tail| == 420
    ensures ParseHeader(GptSector(g, r)) == g && GptSector(g, r)[..8] == EFI_PART
  {
    var s, q := GptSector(g, r), GptFront(g, r);
    var p := q + Put64(g.current) + Put64(r.backup) + Put64(g.firstUsable) + Put64(g.lastUsable) + r.diskGuid
             + Put64(g.entriesLba) + Put32(g.entryCount) + Put32(g.entrySize) + Put32(g.entriesCrc);
    assert s == p + r.tail && p <= s;
    GptBackReads(s, q, g, r);
    GptFrontReads(s, g, r);
  }

  /** A GPT entry: type GUID, unique GUID, first and last sector, attributes and name. */
  function GptEntry(typeGuid: seq<u8>, uniqueGuid: seq<u8>, first: u64, last: u64, rest: seq<u8>): (e: seq<u8>)
  {
    typeGuid + uniqueGuid + Put64(first) + Put64(last) + rest
  }

  /** An entry of a used type inside the usable range is the partition from its first to its
      last sector. */
  lemma GptEntryReads(typeGuid: seq<u8>, uniqueGuid: seq<u8>, first: u64, last: u64, rest: seq<u8>, g: GptHeader)
    requires |typeGuid| == 16 && |uniqueGuid| == 16 && |rest| >= 80
    requires g.firstUsable <= first <= last <= g.lastUsable < TWO_64 - 1
    ensures var e := GptEntry(typeGuid, uniqueGuid, first, last, rest);
            (Unused(e) <==> forall k :: 0 <= k < 16 ==> typeGuid[k] == 0)
            && EntryVerdict(e, g) == Ok(Partition(Gpt(typeGuid, uniqueGuid), first, last - first + 1))
  {
    var e := GptEntry(typeGuid, uniqueGuid, first, last, rest);
    var p1 := typeGuid + uniqueGuid;
    var p2 := p1 + Put64(first);
    var p3 := p2 + Put64(last);
    assert e == p3 + rest && p3 <= e;
    Word64At(e, p2, last);
    Word64At(e, p1, first);
    FieldAt(e, typeGuid, uniqueGuid);
    FieldAt(e, [], typeGuid);
    assert forall k :: 0 <= k < 16 ==> e[k] == e[..16][k];
    WrapSmall64(last - first + 1);
  }

  /** The header checks of a GPT written with its own CRC computed over a zero CRC field. */
  lemma GptHeaderAccepted(g: GptHeader, r: GptRest, size: nat)
    requires |r.diskGuid| == 16 && |r.tail| == 420 && 92 <= g.size <= 512
    requires g.crc == Crc(GptSector(g.(crc := 0), r)[..g.size])
    requires g.current == 1 && g.firstUsable <= g.lastUsable < size
    requires 0 < g.entryCount <= 4096 && (g.entrySize == 128 || g.entrySize == 256 || g.entrySize == 512)
    ensures HeaderError(GptSector(g, r), size) == None
  {
    var s, z := GptSector(g, r), GptSector(g.(crc := 0), r);
    GptReads(g, r);
    ZeroedCrc(g, r);
  }

  lemma ZeroedCrc(g: GptHeader, r: GptRest)
    requires |r.diskGuid| == 16 && |r.tail| == 420 && 92 <= g.size <= 512
    ensures GptSector(g, r)[..16] + [0, 0, 0, 0] + GptSector(g, r)[20..g.size] == GptSector(g.(crc := 0), r)[..g.size]
  {
    var front := EFI_PART + Put32(r.revision) + Put32(g.size);
    var back := Put32(r.reserved) + Put64(g.current) + Put64(r.backup) + Put64(g.firstUsable) + Put64(g.lastUsable)
                + r.diskGuid + Put64(g.entriesLba) + Put32(g.entryCount) + Put32(g.entrySize) + Put32(g.entriesCrc) + r.tail;
    assert GptSector(g, r) == front + Put32(g.crc) + back;
    assert GptSector(g.(crc := 0), r) == front + Put32(0) + back;
    FieldReplaced(front, Put32(g.crc), back, g.size);
  }

  lemma FieldReplaced(front: seq<u8>, field: seq<u8>, back: seq<u8>, n: nat)
    requires |front| == 16 && |field| == 4 && 20 <= n <= 20 + |back|
    ensures (front + field + back)[..16] + [0, 0, 0, 0] + (front + field + back)[20..n] == (front + Put32(0) + back)[..n]
  {
  }
}
