/** The 512-byte block device. A disk is its sectors and the set of those that fail to read. */
module Block {
  import opened Words
  import opened Bits

  const BOUNCE_SECTORS := 64

  type Sector = s: seq<u8> | |s| == 512 witness seq(512, i => 0)

  datatype RawDisk = RawDisk(sectors: seq<Sector>, broken: set<nat>)

  /** The sector count is a 64-bit number. */
  type Disk = d: RawDisk | |d.sectors| < 0x1_0000_0000_0000_0000 witness RawDisk([], {})

  /** josh_block_read of one sector. */
  function ReadBlock(d: Disk, lba: nat): (r: Option<Sector>)
  {
    if lba < |d.sectors| && lba !in d.broken then Some(d.sectors[lba]) else None
  }

  /** The bytes of n consecutive sectors. */
  function SectorRun(d: Disk, lba: nat, n: nat): (r: seq<u8>)
    requires lba + n <= |d.sectors|
    ensures |r| == 512 * n
  {
    if n == 0 then [] else SectorRun(d, lba, n - 1) + d.sectors[lba + n - 1]
  }

  predicate AllReadable(d: Disk, lba: nat, n: nat)
  {
    lba + n <= |d.sectors| && forall k :: lba <= k < lba + n ==> k !in d.broken
  }

  /** josh_block_read of several sectors. */
  function ReadRange(d: Disk, lba: nat, n: nat): (r: Option<seq<u8>>)
  {
    if AllReadable(d, lba, n) then Some(SectorRun(d, lba, n)) else None
  }

  lemma {:induction false} SectorRunAt(d: Disk, lba: nat, n: nat, p: nat)
    requires lba + n <= |d.sectors| && p < 512 * n
    ensures SectorRun(d, lba, n)[p] == d.sectors[lba + p / 512][p % 512]
  {
    if p < 512 * (n - 1) {
      SectorRunAt(d, lba, n - 1, p);
    } else {
      assert p / 512 == n - 1;
    }
  }

  /** Part of one sector is a slice of the run of sectors. */
  lemma SectorSlice(d: Disk, base: nat, n: nat, s: nat, b: nat, take: nat)
    requires base + n <= |d.sectors| && s < n && b + take <= 512
    ensures d.sectors[base + s][b..b + take] == SectorRun(d, base, n)[512 * s + b..512 * s + b + take]
  {
    var run := SectorRun(d, base, n);
    var x, y := d.sectors[base + s][b..b + take], run[512 * s + b..512 * s + b + take];
    forall k | 0 <= k < take
      ensures x[k] == y[k]
    {
      SectorRunAt(d, base, n, 512 * s + b + k);
      DivUnique(512 * s + b + k, 512, s, b + k);
    }
  }

  lemma {:induction false} SectorRunSplit(d: Disk, lba: nat, m: nat, n: nat)
    requires lba + m + n <= |d.sectors|
    ensures SectorRun(d, lba, m + n) == SectorRun(d, lba, m) + SectorRun(d, lba + m, n)
  {
    if n > 0 {
      SectorRunSplit(d, lba, m, n - 1);
    } else {
      assert SectorRun(d, lba, m) + [] == SectorRun(d, lba, m);
    }
  }

  /** bios_block_read_bounced: chunks of 64 sectors through a bounce buffer read the same
      bytes as one transfer, and fail exactly when one transfer would. */
  method ReadBounced(d: Disk, lba: nat, count: nat) returns (r: Option<seq<u8>>)
    ensures r == if count == 0 then None else ReadRange(d, lba, count)
  {
    if count == 0 {
      return None;
    }
    var out: seq<u8> := [];
    var done := 0;
    while done < count
      invariant done <= count
      invariant done > 0 ==> AllReadable(d, lba, done)
      invariant done == 0 ==> out == []
      invariant done > 0 ==> out == SectorRun(d, lba, done)
    {
      var chunk := if count - done > BOUNCE_SECTORS then BOUNCE_SECTORS else count - done;
      var bounce := ReadRange(d, lba + done, chunk);
      if bounce.None? {
        return None;
      }
      SectorRunSplit(d, lba, done, chunk);
      out := out + bounce.value;
      done := done + chunk;
    }
    r := Some(out);
  }

  // ----- disks that agree on a range of sectors -----

  /** Sector k holds the same data and fails in the same way. */
  ghost predicate SameAt(d: Disk, d': Disk, k: nat)
    requires |d.sectors| == |d'.sectors|
  {
    k < |d.sectors| ==> d.sectors[k] == d'.sectors[k] && (k in d.broken <==> k in d'.broken)
  }

  /** Same size, and the same sectors in the range. */
  ghost predicate Agree(d: Disk, d': Disk, first: nat, count: nat)
  {
    |d.sectors| == |d'.sectors| && forall k :: first <= k < first + count ==> SameAt(d, d', k)
  }

  /** d' is d after any number of writes, whole or torn, to sectors of the range only. */
  ghost predicate ChangedOnlyIn(d: Disk, d': Disk, first: nat, count: nat)
  {
    |d.sectors| == |d'.sectors| && forall k :: 0 <= k < first || first + count <= k ==> SameAt(d, d', k)
  }
}
