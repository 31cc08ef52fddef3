/** load_kernel_file of the BIOS loader: from the disk to the kernel in the staging buffer,
    with health writes to the same disk in between. */
module BiosBoot {
  import opened Words
  import opened Block
  import opened Partition
  import opened Fat32
  import opened Fat32Read
  import opened Fat32Path
  import opened Isolation
  import opened KernelFile
  import opened Health
  import opened HealthStore
  import opened BootSlots
  import Config
  import ConfigText
  import ConfigKeys
  import ConfigLayout
  import BiosLoader

  // ----- writing the health record -----

  /** How the disk takes the n-th write of a boot. */
  type Medium = (nat, Disk, nat, Sector) -> WriteOutcome

  ghost predicate Lawful(medium: Medium)
  {
    forall t: nat, d: Disk, lba: nat, data: Sector :: Plausible(d, lba, data, medium(t, d, lba, data))
  }

  /** Every write completes, and the health sectors can be read. */
  ghost predicate Reliable(medium: Medium, d: Disk)
  {
    && LBA_A !in d.broken && LBA_B !in d.broken
    && forall t: nat, d': Disk, lba: nat, data: Sector :: medium(t, d', lba, data) == WriteOutcome(true, data)
  }

  lemma ChangedTwice(d: Disk, d': Disk, d'': Disk)
    requires ChangedOnlyIn(d, d', LBA_A, 2) && ChangedOnlyIn(d', d'', LBA_A, 2)
    ensures ChangedOnlyIn(d, d'', LBA_A, 2)
  {
    forall k: nat | k < LBA_A || LBA_A + 2 <= k
      ensures SameAt(d, d'', k)
    {
      assert SameAt(d, d', k) && SameAt(d', d'', k);
    }
  }

  /** d' is d after health writes, or d itself where writing is off. */
  ghost predicate Since(d: Disk, on: bool, d': Disk) { ChangedOnlyIn(d, d', LBA_A, 2) && (!on ==> d' == d) }

  /** The stored copies are as every run leaves them, with room for the updates of one boot,
      and the medium does not forge copies. */
  ghost predicate Tidy(medium: Medium, d: Disk)
  {
    && Lawful(medium)
    && (Newest(CopiesOn(d)).Some? ==> Placed(CopiesOn(d)) && Newest(CopiesOn(d)).value.generation < TWO_64 - 4)
  }

  /** What persisting does to the disk and to the enabled flag, whatever the writes do: other
      sectors stay, nothing is written while disabled, a reliable disk stays enabled, and in
      a tidy boot a newest copy in its place stays in its place. */
  ghost predicate Kept(medium: Medium, tidy: bool, d: Disk, on: bool, d': Disk, on': bool)
  {
    && Since(d, on, d') && (!on ==> !on')
    && (on && Reliable(medium, d) ==> on' && Reliable(medium, d'))
    && (tidy && Placed(CopiesOn(d)) ==> Placed(CopiesOn(d')))
  }

  lemma KeptTwice(medium: Medium, tidy: bool, d: Disk, on: bool, d': Disk, on': bool, d'': Disk, on'': bool)
    requires Kept(medium, tidy, d, on, d', on') && Kept(medium, tidy, d', on', d'', on'')
    ensures Kept(medium, tidy, d, on, d'', on'')
  {
    ChangedTwice(d, d', d'');
  }

  /** The driver holds a valid record r; in a tidy boot in step with the disk, with room for
      that many more updates. */
  ghost predicate Steady(driver: HealthDriver, medium: Medium, tidy: bool, r: Record, room: nat)
    reads driver
  {
    && Valid(r) && (driver.enabled ==> LBA_B < |driver.disk.sectors|)
    && (tidy ==> Lawful(medium) && driver.InStep(r) && r.generation + room < TWO_64)
  }

  /** Persists the record in memory after an update. */
  method PersistUpdate(driver: HealthDriver, health: HealthRecord, ghost before: Record, t: nat, medium: Medium,
                       ghost tidy: bool, ghost room: nat)
    requires Steady(driver, medium, tidy, before, room + 1) && Advances(before, health.View())
    modifies driver
    ensures Steady(driver, medium, tidy, health.View(), room)
    ensures Kept(medium, tidy, old(driver.disk), old(driver.enabled), driver.disk, driver.enabled)
  {
    var r := health.View();
    var outcome := medium(t, driver.disk, HomeLba(r), Image(r));
    if tidy {
      GenerationNext(before.generation);
      assert driver.Orderly(before, r, outcome);
    }
    var ok := driver.Persist(before, r, outcome);
  }

  /** Selects a fallback slot and persists the record; d0 and on0 are disk and flag as the
      loop found them. */
  method FallBackTo(driver: HealthDriver, health: HealthRecord, slot: u32, t: nat, medium: Medium,
                    ghost tidy: bool, ghost room: nat, ghost d0: Disk, ghost on0: bool)
    returns (ok: bool)
    requires Steady(driver, medium, tidy, health.View(), room + 1)
             && Kept(medium, tidy, d0, on0, driver.disk, driver.enabled)
    modifies driver, health
    ensures ok <==> FellBack(old(health.View()), slot, FAILURE_KERNEL_FILE).Some?
    ensures health.View() ==
            if ok then FellBack(old(health.View()), slot, FAILURE_KERNEL_FILE).value else old(health.View())
    ensures Steady(driver, medium, tidy, health.View(), room)
            && Kept(medium, tidy, d0, on0, driver.disk, driver.enabled)
  {
    ghost var before, disk, on := health.View(), driver.disk, driver.enabled;
    FellBackIsValid(before, slot, FAILURE_KERNEL_FILE);
    ok := health.SelectFallback(slot, FAILURE_KERNEL_FILE);
    if ok {
      PersistUpdate(driver, health, before, t, medium, tidy, room);
      KeptTwice(medium, tidy, d0, on0, disk, on, driver.disk, driver.enabled);
    }
  }

  /** Prepares the attempt and persists the record before any kernel is read. */
  method BiosPrepare(driver: HealthDriver, health: HealthRecord, medium: Medium, ghost tidy: bool, ghost room: nat)
    returns (slot: u32)
    requires Steady(driver, medium, tidy, health.View(), room + 1)
    modifies driver, health
    ensures health.View() == Prepared(old(health.View()), MAX_ATTEMPTS)
            && slot == PreparedSlot(old(health.View()), MAX_ATTEMPTS)
    ensures SlotValid(slot) && Steady(driver, medium, tidy, health.View(), room)
    ensures Kept(medium, tidy, old(driver.disk), old(driver.enabled), driver.disk, driver.enabled)
  {
    ghost var before := health.View();
    PreparedIsValid(before, MAX_ATTEMPTS);
    var generation := health.generation;
    slot := health.PrepareAttempt(MAX_ATTEMPTS);
    if health.generation != generation {
      PersistUpdate(driver, health, before, 3, medium, tidy, room);
    }
  }

  /** The record to start from. */
  method BiosStart(driver: HealthDriver, layoutSafe: bool, ghost medium: Medium) returns (health: HealthRecord)
    requires layoutSafe ==> LBA_B < |driver.disk.sectors|
    modifies driver
    ensures fresh(health) && driver.disk == old(driver.disk)
    ensures Steady(driver, medium, Tidy(medium, driver.disk), health.View(), 4)
    ensures health.View() == Loaded(if layoutSafe then Newest(CopiesOn(driver.disk)) else None)
    ensures driver.enabled <==> layoutSafe && Newest(CopiesOn(driver.disk)).Some?
  {
    DefaultIsValid();
    if layoutSafe {
      health := driver.Load();
    } else {
      health := new HealthRecord(DefaultRecord());
      driver.enabled := false;
    }
  }

  // ----- reading kernels while health is written -----

  /** The volume of the boot partition, if it is found and mounts. */
  function VolumeOf(d: Disk): (fs: Option<Fs>)
  {
    var p := BootVerdict(d);
    if p.Err? then None
    else
      var fs := Mount(d, p.value);
      if fs.Err? then None else Some(fs.value)
  }

  lemma VolumeIsOnDisk(d: Disk)
    requires VolumeOf(d).Some?
    ensures OnDisk(d, VolumeOf(d).value)
  {
    MountLayout(d, BootVerdict(d).value);
  }

  /** fs is the volume of d0, and health may be written only where the layout allows it. */
  ghost predicate Settled(d0: Disk, on0: bool, fs: Fs)
  {
    VolumeOf(d0) == Some(fs) && (on0 ==> Unallocated(d0, LBA_A, 2))
  }

  /** The kernels on d0, by slot. */
  type Kernels = u32 -> Option<seq<u8>>

  /** kernels are the kernels of disk d. */
  ghost predicate Shows(d: Disk, fs: Fs, paths: Paths, kernels: Kernels)
  {
    OnDisk(d, fs) && forall slot: u32 {:trigger KernelAt(d, fs, PathFor(paths, slot))} ::
      kernels(slot) == KernelAt(d, fs, PathFor(paths, slot))
  }

  /** Whatever health writes were made since d0, the disk shows the same kernels. */
  ghost predicate Stable(d0: Disk, on0: bool, fs: Fs, paths: Paths, kernels: Kernels)
  {
    forall d: Disk {:trigger Since(d0, on0, d)} :: Since(d0, on0, d) ==> Shows(d, fs, paths, kernels)
  }

  lemma HealthWritesAreStable(d0: Disk, on0: bool, fs: Fs, paths: Paths, kernels: Kernels)
    requires OnDisk(d0, fs) && Settled(d0, on0, fs) && Shows(d0, fs, paths, kernels)
    ensures Stable(d0, on0, fs, paths, kernels)
  {
    forall d: Disk | Since(d0, on0, d)
      ensures Shows(d, fs, paths, kernels)
    {
      if on0 {
        StillShows(d0, d, fs, paths, kernels);
      }
    }
  }

  lemma StillShows(d0: Disk, d: Disk, fs: Fs, paths: Paths, kernels: Kernels)
    requires Settled(d0, true, fs) && ChangedOnlyIn(d0, d, LBA_A, 2) && Shows(d0, fs, paths, kernels)
    ensures Shows(d, fs, paths, kernels)
  {
    HealthWritesKeepKernels(d0, d, []);
    forall slot: u32
      ensures kernels(slot) == KernelAt(d, fs, PathFor(paths, slot))
    {
      HealthWritesKeepKernels(d0, d, PathFor(paths, slot));
    }
  }

  /** A candidate read from the disk as it is now. */
  method ReadSlot(d: Disk, fs: Fs, paths: Paths, slot: u32, buffer: array<u8>, ghost d0: Disk, ghost on0: bool,
                  ghost kernels: Kernels)
    returns (imageBytes: Option<nat>)
    requires Since(d0, on0, d) && Stable(d0, on0, fs, paths, kernels) && buffer.Length == BiosLoader.KERNEL_IMAGE_BYTES
    modifies buffer
    ensures imageBytes.Some? <==> PathFor(paths, slot) != [] && kernels(slot).Some?
    ensures imageBytes.Some? ==> imageBytes.value <= buffer.Length && kernels(slot) == Some(buffer[..imageBytes.value])
  {
    imageBytes := ReadKernelCandidate(d, fs, PathFor(paths, slot), buffer);
  }

  /** The buffer starts with the kernel of the slot that was loaded. */
  ghost predicate Delivers(kernels: Kernels, loaded: Option<u32>, imageBytes: Option<nat>, buffer: seq<u8>)
  {
    && (imageBytes.Some? <==> loaded.Some?)
    && (loaded.Some? ==> imageBytes.value <= |buffer| && kernels(loaded.value) == Some(buffer[..imageBytes.value]))
  }

  /** The two fallback branches of the kernel loop. */
  method NextSlot(driver: HealthDriver, health: HealthRecord, slot: u32, t: nat, paths: Paths, medium: Medium,
                  ghost tidy: bool, ghost room: nat, ghost d0: Disk, ghost on0: bool)
    returns (next: Option<u32>)
    requires Steady(driver, medium, tidy, health.View(), room + 1)
             && Kept(medium, tidy, d0, on0, driver.disk, driver.enabled)
    modifies driver, health
    ensures next.Some? ==> next == Fallback(paths, slot)
                           && FellBack(old(health.View()), next.value, FAILURE_KERNEL_FILE) == Some(health.View())
    ensures next.None? ==> health.View() == old(health.View())
                           && (Fallback(paths, slot).None?
                               || FellBack(health.View(), Fallback(paths, slot).value, FAILURE_KERNEL_FILE).None?)
    ensures Steady(driver, medium, tidy, health.View(), room)
            && Kept(medium, tidy, d0, on0, driver.disk, driver.enabled)
  {
    if slot == CURRENT && paths.previous != [] {
      var ok := FallBackTo(driver, health, PREVIOUS, t, medium, tidy, room, d0, on0);
      return if ok then Some(PREVIOUS) else None;
    }
    if slot != RECOVERY && paths.recovery != [] {
      var ok := FallBackTo(driver, health, RECOVERY, t, medium, tidy, room, d0, on0);
      return if ok then Some(RECOVERY) else None;
    }
    next := None;
  }

  /** One round of the kernel loop: the slot loads, or the loop ends, or it goes on with the
      next slot. */
  method KernelRound(driver: HealthDriver, health: HealthRecord, slot: u32, t: nat, paths: Paths, fs: Fs,
                     buffer: array<u8>, medium: Medium,
                     ghost tidy: bool, ghost room: nat, ghost d0: Disk, ghost on0: bool,
                     ghost kernels: Kernels, ghost loads: Loader, ghost whole: Selection, ghost tried: seq<u32>)
    returns (imageBytes: Option<nat>, next: Option<u32>)
    requires Steady(driver, medium, tidy, health.View(), room + 1)
             && Kept(medium, tidy, d0, on0, driver.disk, driver.enabled)
    requires Stable(d0, on0, fs, paths, kernels) && forall c: u32 :: loads(c) == kernels(c).Some?
    requires buffer.Length == BiosLoader.KERNEL_IMAGE_BYTES
    requires SlotValid(slot) && Remains(whole, tried, Select(paths, loads, health.View(), slot))
    modifies driver, health, buffer
    ensures imageBytes.Some? ==>
              whole == Selection(Some(slot), tried + [slot], health.View())
              && Delivers(kernels, Some(slot), imageBytes, buffer[..])
    ensures imageBytes.None? && next.None? ==> whole == Selection(None, tried + [slot], health.View())
    ensures imageBytes.None? && next.Some? ==>
              slot < next.value && SlotValid(next.value)
              && Remains(whole, tried + [slot], Select(paths, loads, health.View(), next.value))
    ensures Steady(driver, medium, tidy, health.View(), room)
            && Kept(medium, tidy, d0, on0, driver.disk, driver.enabled)
  {
    SelectStep(paths, loads, whole, tried, health.View(), slot);
    imageBytes := ReadSlot(driver.disk, fs, paths, slot, buffer, d0, on0, kernels);
    if imageBytes.Some? {
      return imageBytes, None;
    }
    next := NextSlot(driver, health, slot, t, paths, medium, tidy, room, d0, on0);
  }

  /** The kernel loop: each candidate is read from the disk as the health writes before have
      left it, yet the selection is the one that the kernels on the first disk determine. */
  method KernelLoop(driver: HealthDriver, health: HealthRecord, first: u32, paths: Paths, fs: Fs, buffer: array<u8>,
                    medium: Medium,
                    ghost tidy: bool, ghost d0: Disk, ghost on0: bool, ghost kernels: Kernels, ghost loads: Loader)
    returns (loaded: Option<u32>, tried: seq<u32>, imageBytes: Option<nat>)
    requires SlotValid(first) && Steady(driver, medium, tidy, health.View(), 3)
    requires Kept(medium, tidy, d0, on0, driver.disk, driver.enabled) && Stable(d0, on0, fs, paths, kernels)
    requires buffer.Length == BiosLoader.KERNEL_IMAGE_BYTES && forall c: u32 :: loads(c) == kernels(c).Some?
    modifies driver, health, buffer
    ensures Selection(loaded, tried, health.View()) == Select(paths, loads, old(health.View()), first)
    ensures Delivers(kernels, loaded, imageBytes, buffer[..])
    ensures Steady(driver, medium, tidy, health.View(), 0) && Kept(medium, tidy, d0, on0, driver.disk, driver.enabled)
  {
    ghost var whole := Select(paths, loads, health.View(), first);
    var slot := first;
    tried := [];
    for candidate := 0 to 3
      invariant candidate <= slot && SlotValid(slot)
      invariant Remains(whole, tried, Select(paths, loads, health.View(), slot))
      invariant Steady(driver, medium, tidy, health.View(), 3 - candidate)
                && Kept(medium, tidy, d0, on0, driver.disk, driver.enabled)
    {
      var next;
      imageBytes, next := KernelRound(driver, health, slot, candidate, paths, fs, buffer, medium,
                                      tidy, 2 - candidate, d0, on0, kernels, loads, whole, tried);
      tried := tried + [slot];
      if imageBytes.Some? {
        return Some(slot), tried, imageBytes;
      }
      if next.None? {
        return None, tried, None;
      }
      slot := next.value;
    }
    loaded, imageBytes := None, None;
  }

  /** The attempt and the loop. */
  method TryKernels(driver: HealthDriver, health: HealthRecord, paths: Paths, fs: Fs, buffer: array<u8>, medium: Medium,
                    ghost tidy: bool, ghost kernels: Kernels, ghost loads: Loader)
    returns (loaded: Option<u32>, tried: seq<u32>, imageBytes: Option<nat>)
    requires Steady(driver, medium, tidy, health.View(), 4)
    requires Stable(driver.disk, driver.enabled, fs, paths, kernels)
    requires buffer.Length == BiosLoader.KERNEL_IMAGE_BYTES && forall c: u32 :: loads(c) == kernels(c).Some?
    modifies driver, health, buffer
    ensures Selection(loaded, tried, health.View()) == Boot(paths, loads, old(health.View()))
    ensures Delivers(kernels, loaded, imageBytes, buffer[..])
    ensures Steady(driver, medium, tidy, health.View(), 0)
    ensures Kept(medium, tidy, old(driver.disk), old(driver.enabled), driver.disk, driver.enabled)
  {
    ghost var d0, on0 := driver.disk, driver.enabled;
    var slot := BiosPrepare(driver, health, medium, tidy, 3);
    loaded, tried, imageBytes := KernelLoop(driver, health, slot, paths, fs, buffer, medium, tidy, d0, on0, kernels,
                                            loads);
  }

  // ----- the configuration -----

  /** Bytes as characters of the same codes. */
  function TextOf(b: seq<u8>): (s: string)
    ensures |s| == |b| && forall i :: 0 <= i < |s| ==> s[i] as int == b[i]
  {
    seq(|b|, i requires 0 <= i < |b| => b[i] as char)
  }

  function BytesOf(s: string): (b: seq<u8>)
  {
    seq(|s|, i requires 0 <= i < |s| => if s[i] < 0x80 as char then s[i] as int else 0)
  }

  const CONFIG_PATH: seq<u8> := BytesOf("/boot/josh/boot.cfg")

  function PathsOf(c: Config.Config): (p: Paths)
  {
    Paths(BytesOf(c.kernelPath), BytesOf(c.previousKernelPath), BytesOf(c.recoveryKernelPath))
  }

  /** The configuration on a volume, if it can be read and parsed. */
  ghost function ConfigAt(d: Disk, fs: Fs): (c: Option<Config.Config>)
    requires OnDisk(d, fs)
  {
    var f := Open(fs, FinderOf(d, fs), CONFIG_PATH);
    if f.Err? || f.value.size == 0 || f.value.size > ConfigText.MAX_BYTES then None
    else
      var bytes := VolumeBytes(d, fs, CONFIG_PATH, 0, f.value.size);
      if bytes.None? || ConfigText.Parsed(TextOf(bytes.value)).Err? then None
      else Some(ConfigText.Parsed(TextOf(bytes.value)).value)
  }

  method ReadConfig(d: Disk, fs: Fs) returns (c: Option<Config.Config>)
    requires OnDisk(d, fs)
    ensures c == ConfigAt(d, fs)
  {
    var path := CONFIG_PATH;
    var f := OpenPath(d, fs, path);
    if f.Err? || f.value.size == 0 || f.value.size > ConfigText.MAX_BYTES {
      return None;
    }
    var buffer := new u8[ConfigText.MAX_BYTES](i => 0);
    var ok := ReadWhole(d, fs, path, f.value, buffer);
    if !ok {
      return None;
    }
    var config := new Config.BootConfig();
    var error := ConfigText.Parse(TextOf(buffer[..f.value.size]), config);
    c := if error.Some? then None else Some(config.View());
  }

  // ----- which line of the configuration names which kernel -----

  /** The key of the line that names a slot's kernel. */
  function SlotKey(slot: u32): (key: string)
  {
    if slot == 0 then "kernel" else if slot == 1 then "previous_kernel" else "recovery_kernel"
  }

  predicate Ascii(s: string) { forall i :: 0 <= i < |s| ==> s[i] < 0x80 as char }

  lemma TextOfBytes(s: string)
    requires Ascii(s)
    ensures TextOf(BytesOf(s)) == s
  {
  }

  /** text is what the file /boot/josh/boot.cfg of the volume holds. */
  ghost predicate IsConfigText(d: Disk, fs: Fs, text: string)
    requires OnDisk(d, fs)
  {
    var f := Open(fs, FinderOf(d, fs), CONFIG_PATH);
    && TextOf(CONFIG_PATH) == "/boot/josh/boot.cfg" && f.Ok? && 0 < f.value.size
    && VolumeBytes(d, fs, CONFIG_PATH, 0, f.value.size).Some?
    && text == TextOf(VolumeBytes(d, fs, CONFIG_PATH, 0, f.value.size).value)
  }

  /** Some line of the configuration names, under the key of the slot, a path at which the
      volume holds this kernel. */
  ghost predicate KernelIsConfigured(d: Disk, fs: Fs, slot: u32, kernel: seq<u8>)
    requires OnDisk(d, fs)
  {
    exists text, line, path :: IsConfigText(d, fs, text) && line in ConfigText.Settings(text)
      && ConfigKeys.IsSetting(line, SlotKey(slot), TextOf(path)) && KernelAt(d, fs, path) == Some(kernel)
  }

  lemma SlotPath(text: string, c: Config.Config, slot: u32)
    requires ConfigText.Parsed(text) == Ok(c) && slot <= 2 && PathFor(PathsOf(c), slot) != []
    ensures ConfigKeys.SetTo(ConfigText.Settings(text), SlotKey(slot), TextOf(PathFor(PathsOf(c), slot)))
  {
    ConfigKeys.ParsedFields(text, c);
    ConfigLayout.ParsedIsValid(text, c);
    var m := ConfigText.Settings(text);
    PathText(c.kernelPath);
    PathText(c.previousKernelPath);
    PathText(c.recoveryKernelPath);
    if slot == 1 {
      NonEmptyIsSet(m, "previous_kernel", c.previousKernelPath);
    } else if slot == 2 {
      NonEmptyIsSet(m, "recovery_kernel", c.recoveryKernelPath);
    }
  }

  lemma PathText(path: string)
    ensures path == "" || Config.PathValid(path) ==>
              TextOf(BytesOf(path)) == path && (path != "" <==> BytesOf(path) != [])
  {
    if path == "" || Config.PathValid(path) {
      TextOfBytes(path);
    }
  }

  lemma NonEmptyIsSet(m: multiset<string>, key: string, path: string)
    requires ConfigKeys.OptionallySetTo(m, key, path) && path != ""
    ensures ConfigKeys.SetTo(m, key, path)
  {
  }

  lemma ConfigPathText()
    ensures TextOf(CONFIG_PATH) == "/boot/josh/boot.cfg"
  {
    TextOfBytes("/boot/josh/boot.cfg");
  }

  /** The kernel at a slot's path is the one that the slot's line names. */
  lemma SlotIsConfigured(d: Disk, fs: Fs, c: Config.Config, slot: u32, kernel: seq<u8>)
    requires OnDisk(d, fs) && ConfigAt(d, fs) == Some(c) && slot <= 2
    requires PathFor(PathsOf(c), slot) != [] && KernelAt(d, fs, PathFor(PathsOf(c), slot)) == Some(kernel)
    ensures KernelIsConfigured(d, fs, slot, kernel)
  {
    var f := Open(fs, FinderOf(d, fs), CONFIG_PATH);
    var text := TextOf(VolumeBytes(d, fs, CONFIG_PATH, 0, f.value.size).value);
    ConfigPathText();
    SlotPath(text, c, slot);
    var path := PathFor(PathsOf(c), slot);
    var line :| line in ConfigText.Settings(text) && ConfigKeys.IsSetting(line, SlotKey(slot), TextOf(path));
  }

  // ----- load_kernel_file -----

  ghost function KernelsOn(d: Disk, fs: Fs, paths: Paths): (kernels: Kernels)
    requires OnDisk(d, fs)
  {
    (slot: u32) => KernelAt(d, fs, PathFor(paths, slot))
  }

  ghost function LoadsOn(d: Disk, fs: Fs, paths: Paths): (loads: Loader)
    requires OnDisk(d, fs)
  {
    (slot: u32) => KernelAt(d, fs, PathFor(paths, slot)).Some?
  }

  /** What a disk holds that lets a boot begin: a volume and its configuration. */
  ghost function Bootable(d: Disk): (r: Option<(Fs, Paths)>)
  {
    var fs := VolumeOf(d);
    if fs.None? then None
    else
      VolumeIsOnDisk(d);
      var c := ConfigAt(d, fs.value);
      if c.None? then None else Some((fs.value, PathsOf(c.value)))
  }

  /** The record the boot starts from: the newest copy, where the layout is safe. */
  ghost function StartRecord(d: Disk): (r: Record)
  {
    Loaded(if Unallocated(d, LBA_A, 2) then Newest(CopiesOn(d)) else None)
  }

  /** The selection that the disk as it was at power on determines. */
  ghost predicate BootsAs(d: Disk, fs: Fs, paths: Paths, s: Selection, imageBytes: Option<nat>, buffer: seq<u8>)
  {
    && OnDisk(d, fs) && Valid(StartRecord(d)) && s == Boot(paths, LoadsOn(d, fs, paths), StartRecord(d))
    && Delivers(KernelsOn(d, fs, paths), s.loaded, imageBytes, buffer)
  }

  /** load_kernel_file. Without a volume or a configuration it fails and writes nothing. With
      them it makes the selection that the first disk determines, whatever the health writes
      in between do, and on success the buffer starts with the kernel of the loaded slot.
      Only health sectors are written, and only where the layout allows it. */
  method LoadKernelFile(driver: HealthDriver, buffer: array<u8>, medium: Medium)
    returns (imageBytes: Option<nat>, loaded: Option<u32>, tried: seq<u32>, health: HealthRecord?)
    requires buffer.Length == BiosLoader.KERNEL_IMAGE_BYTES
    modifies driver, buffer
    ensures health != null <==> Bootable(old(driver.disk)).Some?
    ensures health == null ==> imageBytes == None && driver.disk == old(driver.disk)
    ensures health != null ==>
              var (fs, paths) := Bootable(old(driver.disk)).value;
              fresh(health)
              && BootsAs(old(driver.disk), fs, paths, Selection(loaded, tried, health.View()), imageBytes, buffer[..])
    ensures health != null && loaded.Some? ==>
              imageBytes.Some? && imageBytes.value <= buffer.Length
              && KernelNamed(old(driver.disk), loaded.value, buffer[..imageBytes.value])
    ensures Since(old(driver.disk), Unallocated(old(driver.disk), LBA_A, 2), driver.disk)
    ensures Tidy(medium, old(driver.disk)) && Placed(CopiesOn(old(driver.disk))) ==> Placed(CopiesOn(driver.disk))
    ensures health != null && Unallocated(old(driver.disk), LBA_A, 2) && Newest(CopiesOn(old(driver.disk))).Some?
            && Tidy(medium, old(driver.disk)) && Reliable(medium, old(driver.disk)) ==>
              Newest(CopiesOn(driver.disk)) == Some(health.View())
  {
    imageBytes, loaded, tried, health := None, None, [], null;
    var safe, volume := FindVolume(driver.disk);
    if volume.None? {
      return;
    }
    VolumeIsOnDisk(driver.disk);
    var config := ReadConfig(driver.disk, volume.value);
    if config.None? {
      return;
    }
    loaded, tried, imageBytes, health := BootConfigured(driver, safe, config.value, volume.value, buffer, medium);
  }

  /** The boot partition, the layout test and the mount. */
  method FindVolume(d: Disk) returns (safe: bool, volume: Option<Fs>)
    ensures volume == VolumeOf(d) && (volume.Some? ==> (safe <==> Unallocated(d, LBA_A, 2)))
  {
    safe, volume := false, None;
    var partition := FindBoot(d);
    if partition.Err? {
      return;
    }
    safe := RangeIsUnallocated(d, LBA_A, 2);
    var mounted := Mount(d, partition.value);
    volume := if mounted.Err? then None else Some(mounted.value);
  }

  /** The boot with a configuration: what is loaded is what the configuration names. */
  method BootConfigured(driver: HealthDriver, safe: bool, config: Config.Config, fs: Fs, buffer: array<u8>,
                        medium: Medium)
    returns (loaded: Option<u32>, tried: seq<u32>, imageBytes: Option<nat>, health: HealthRecord)
    requires buffer.Length == BiosLoader.KERNEL_IMAGE_BYTES
    requires VolumeOf(driver.disk) == Some(fs) && OnDisk(driver.disk, fs) && ConfigAt(driver.disk, fs) == Some(config)
    requires safe <==> Unallocated(driver.disk, LBA_A, 2)
    modifies driver, buffer
    ensures fresh(health)
    ensures BootsAs(old(driver.disk), fs, PathsOf(config), Selection(loaded, tried, health.View()), imageBytes,
                    buffer[..])
    ensures loaded.Some? ==> imageBytes.Some? && imageBytes.value <= buffer.Length
                             && KernelNamed(old(driver.disk), loaded.value, buffer[..imageBytes.value])
    ensures Since(old(driver.disk), safe, driver.disk)
    ensures Tidy(medium, old(driver.disk)) && Placed(CopiesOn(old(driver.disk))) ==> Placed(CopiesOn(driver.disk))
    ensures safe && Newest(CopiesOn(old(driver.disk))).Some? && Tidy(medium, old(driver.disk))
            && Reliable(medium, old(driver.disk)) ==>
              Newest(CopiesOn(driver.disk)) == Some(health.View())
  {
    ghost var d := driver.disk;
    loaded, tried, imageBytes, health := BootFrom(driver, safe, PathsOf(config), fs, buffer, medium);
    if loaded.Some? {
      LoadedIsNamed(d, fs, config, Selection(loaded, tried, health.View()), imageBytes, buffer[..]);
    }
  }

  /** The volume of the disk has a configuration that names this kernel for the slot. */
  ghost predicate KernelNamed(d: Disk, slot: u32, kernel: seq<u8>)
  {
    VolumeOf(d).Some? && (VolumeIsOnDisk(d); KernelIsConfigured(d, VolumeOf(d).value, slot, kernel))
  }

  lemma LoadedIsNamed(d: Disk, fs: Fs, c: Config.Config, s: Selection, imageBytes: Option<nat>, buffer: seq<u8>)
    requires VolumeOf(d) == Some(fs) && OnDisk(d, fs) && ConfigAt(d, fs) == Some(c) && s.loaded.Some?
    requires BootsAs(d, fs, PathsOf(c), s, imageBytes, buffer)
    ensures imageBytes.Some? && imageBytes.value <= |buffer|
            && KernelNamed(d, s.loaded.value, buffer[..imageBytes.value])
  {
    LoadedHasPath(PathsOf(c), LoadsOn(d, fs, PathsOf(c)), StartRecord(d));
    SlotIsConfigured(d, fs, c, s.loaded.value, buffer[..imageBytes.value]);
  }

  lemma LoadedHasPath(paths: Paths, loads: Loader, r: Record)
    requires Valid(r) && Boot(paths, loads, r).loaded.Some?
    ensures var slot := Boot(paths, loads, r).loaded.value; slot <= 2 && PathFor(paths, slot) != []
  {
    BootMeaning(paths, loads, r);
  }

  /** The part of load_kernel_file that follows the configuration. */
  method BootFrom(driver: HealthDriver, safe: bool, paths: Paths, fs: Fs, buffer: array<u8>, medium: Medium)
    returns (loaded: Option<u32>, tried: seq<u32>, imageBytes: Option<nat>, health: HealthRecord)
    requires buffer.Length == BiosLoader.KERNEL_IMAGE_BYTES
    requires VolumeOf(driver.disk) == Some(fs) && OnDisk(driver.disk, fs)
             && (safe <==> Unallocated(driver.disk, LBA_A, 2))
    modifies driver, buffer
    ensures fresh(health)
    ensures BootsAs(old(driver.disk), fs, paths, Selection(loaded, tried, health.View()), imageBytes, buffer[..])
    ensures Since(old(driver.disk), safe, driver.disk)
    ensures Tidy(medium, old(driver.disk)) && Placed(CopiesOn(old(driver.disk))) ==> Placed(CopiesOn(driver.disk))
    ensures safe && Newest(CopiesOn(old(driver.disk))).Some? && Tidy(medium, old(driver.disk))
            && Reliable(medium, old(driver.disk)) ==>
              Newest(CopiesOn(driver.disk)) == Some(health.View())
  {
    ghost var d := driver.disk;
    health := BiosStart(driver, safe, medium);
    HealthWritesAreStable(d, driver.enabled, fs, paths, KernelsOn(d, fs, paths));
    loaded, tried, imageBytes := TryKernels(driver, health, paths, fs, buffer, medium, Tidy(medium, d),
                                            KernelsOn(d, fs, paths), LoadsOn(d, fs, paths));
  }
}
