/** Boots of the BIOS loader one after the other on a disk: each starts from the record that
    the one before has left in the health sectors. */
module BootRuns {
  import opened Words
  import opened Block
  import opened Partition
  import opened Fat32
  import opened Fat32Read
  import opened Fat32Path
  import opened Isolation
  import opened KernelFile
  import opened Health
  import opened HealthStore
  import opened BootSlots
  import opened BiosBoot
  import BiosLoader
  import Trials

  // ----- boots, wherever they start from -----

  /** What a boot starts from: slot paths, record, and which kernels load. */
  datatype Power = Power(paths: Paths, start: Record, loads: Loader)

  function BootOf(p: Power): (s: Selection)
    requires Valid(p.start)
  {
    Boot(p.paths, p.loads, p.start)
  }

  /** The next boot starts from the record that this one left. Other kernels may load. */
  ghost predicate Follows(p: Power, p': Power)
    requires Valid(p.start)
  {
    p'.paths == p.paths && p'.start == BootOf(p).record
  }

  ghost predicate Chained(ps: seq<Power>)
  {
    && (forall i :: 0 <= i < |ps| ==> Valid(ps[i].start))
    && forall i :: 0 < i < |ps| ==> Follows(ps[i - 1], ps[i])
  }

  /** How many of the boots load the candidate. */
  ghost function EntriesOf(ps: seq<Power>, candidate: u32): (n: nat)
    requires forall i :: 0 <= i < |ps| ==> Valid(ps[i].start)
  {
    if ps == [] then 0 else Trials.Count(BootOf(ps[0]).loaded, candidate) + EntriesOf(ps[1..], candidate)
  }

  ghost function LoadersOf(ps: seq<Power>): (boots: seq<Loader>)
    ensures |boots| == |ps|
  {
    if ps == [] then [] else [ps[0].loads] + LoadersOf(ps[1..])
  }

  lemma {:induction false} ChainIsBoots(ps: seq<Power>, candidate: u32)
    requires Chained(ps) && ps != []
    ensures EntriesOf(ps, candidate) == Trials.Entries(ps[0].paths, LoadersOf(ps), ps[0].start, candidate)
    decreases |ps|
  {
    var p, rest, boots := ps[0], ps[1..], LoadersOf(ps);
    assert boots[0] == p.loads && boots[1..] == LoadersOf(rest);
    Trials.BootIsValid(p.paths, p.loads, p.start);
    if rest != [] {
      assert Follows(ps[0], ps[1]);
      assert forall i :: 0 < i < |rest| ==> rest[i - 1] == ps[i] && rest[i] == ps[i + 1];
      ChainIsBoots(rest, candidate);
    }
  }

  // ----- boots from a disk -----

  /** What a boot from disk d starts from. */
  ghost function PowerOn(d: Disk): (p: Option<Power>)
    ensures p.Some? <==> Bootable(d).Some?
    ensures p.Some? ==> Valid(p.value.start) && p.value.start == StartRecord(d) && p.value.paths == Bootable(d).value.1
  {
    if Bootable(d).None? then None
    else
      VolumeIsOnDisk(d);
      LoadedIsValid(if Unallocated(d, LBA_A, 2) then Newest(CopiesOn(d)) else None);
      var (fs, paths) := Bootable(d).value;
      Some(Power(paths, StartRecord(d), LoadsOn(d, fs, paths)))
  }

  ghost predicate Continues(d: Disk, d': Disk)
  {
    PowerOn(d).Some? && PowerOn(d').Some? && Follows(PowerOn(d).value, PowerOn(d').value)
  }

  /** load_kernel_file on a reliable disk with an accepted layout and a stored record: the
      next boot from that disk continues this one. */
  method BootOnce(driver: HealthDriver, buffer: array<u8>, medium: Medium)
    returns (imageBytes: Option<nat>, loaded: Option<u32>)
    requires buffer.Length == BiosLoader.KERNEL_IMAGE_BYTES && PowerOn(driver.disk).Some?
    requires Unallocated(driver.disk, LBA_A, 2) && Newest(CopiesOn(driver.disk)).Some?
    requires Tidy(medium, driver.disk) && Reliable(medium, driver.disk)
    modifies driver, buffer
    ensures loaded == BootOf(PowerOn(old(driver.disk)).value).loaded && Continues(old(driver.disk), driver.disk)
    ensures Bootable(driver.disk) == Bootable(old(driver.disk))
  {
    ghost var d := driver.disk;
    var tried, health;
    imageBytes, loaded, tried, health := LoadKernelFile(driver, buffer, medium);
    NextStart(d, driver.disk, health.View());
  }

  /** A record left in the health sectors is the one the next boot starts from, with the same
      volume and configuration. */
  lemma NextStart(d: Disk, d': Disk, r: Record)
    requires Bootable(d).Some? && Unallocated(d, LBA_A, 2) && Since(d, true, d') && Newest(CopiesOn(d')) == Some(r)
    ensures StartRecord(d') == r && Bootable(d') == Bootable(d)
  {
    SameBootable(d, d');
  }

  lemma SameBootable(d: Disk, d': Disk)
    requires Bootable(d).Some? && Unallocated(d, LBA_A, 2) && Since(d, true, d')
    ensures Unallocated(d', LBA_A, 2) && Bootable(d') == Bootable(d)
  {
    WritesAreInvisible(d, d', LBA_A, 2, CONFIG_PATH, 0, 1);
    HealthWritesKeepKernels(d, d', []);
    SameConfig(d, d', VolumeOf(d).value);
  }

  lemma SameConfig(d: Disk, d': Disk, fs: Fs)
    requires VolumeOf(d) == Some(fs) && Unallocated(d, LBA_A, 2) && Since(d, true, d')
    requires OnDisk(d, fs) && OnDisk(d', fs)
    ensures ConfigAt(d', fs) == ConfigAt(d, fs)
  {
    var p := BootVerdict(d).value;
    UnallocatedIsClear(d, LBA_A, 2);
    ClearAgrees(d, d', LBA_A, 2, p.first, p.count);
    MountLayout(d, p);
    SameOpen(d, d', fs, CONFIG_PATH);
    var f := Open(fs, FinderOf(d, fs), CONFIG_PATH);
    if f.Ok? && f.value.size > 0 {
      SameVolumeBytes(d, d', fs, CONFIG_PATH, 0, f.value.size);
    }
  }

  // ----- whole runs -----

  /** Disks at power on, one per boot. */
  ghost predicate IsRun(disks: seq<Disk>)
  {
    && disks != [] && (forall i :: 0 <= i < |disks| ==> PowerOn(disks[i]).Some?)
    && forall i :: 0 < i < |disks| ==> Continues(disks[i - 1], disks[i])
  }

  ghost function PowersOn(disks: seq<Disk>): (ps: seq<Power>)
    requires IsRun(disks)
    ensures |ps| == |disks| && forall i :: 0 <= i < |ps| ==> PowerOn(disks[i]) == Some(ps[i])
  {
    seq(|disks|, i requires 0 <= i < |disks| => PowerOn(disks[i]).value)
  }

  lemma RunIsChained(disks: seq<Disk>)
    requires IsRun(disks)
    ensures Chained(PowersOn(disks))
  {
    var ps := PowersOn(disks);
    forall i | 0 < i < |ps|
      ensures Follows(ps[i - 1], ps[i])
    {
      assert Continues(disks[i - 1], disks[i]);
    }
  }

  /** Over every run of boots from disks, a slot made pending before the first is loaded at
      most 3 times, outside the one re-entrant configuration. */
  lemma PendingIsBounded(disks: seq<Disk>, r: Record, candidate: u32)
    requires IsRun(disks) && Begun(r, candidate) == Some(PowerOn(disks[0]).value.start)
    requires !Trials.Reentrant(PowerOn(disks[0]).value.paths, candidate, r.lastGoodSlot)
    ensures Chained(PowersOn(disks)) && EntriesOf(PowersOn(disks), candidate) <= 3
  {
    var ps := PowersOn(disks);
    RunIsChained(disks);
    ChainIsBoots(ps, candidate);
    Trials.BootsAreBounded(ps[0].paths, candidate, r, LoadersOf(ps));
  }
}
