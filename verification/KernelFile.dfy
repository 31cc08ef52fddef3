/** read_kernel_candidate: a kernel is what the boot partition holds at its path, provided it
    is a valid image; and health writes cannot change which kernels load. */
module KernelFile {
  import opened Words
  import opened Block
  import opened Partition
  import opened Fat32
  import opened Fat32Read
  import opened Fat32Path
  import opened Isolation
  import opened Elf64
  import opened BiosLoader
  import opened HealthStore

  /** The image at a path, if the candidate is accepted. */
  ghost function KernelAt(d: Disk, fs: Fs, path: seq<u8>): (r: Option<seq<u8>>)
    requires OnDisk(d, fs)
  {
    var f := Open(fs, FinderOf(d, fs), path);
    if path == [] || f.Err? || f.value.size == 0 || f.value.size > KERNEL_IMAGE_BYTES then None
    else
      var bytes := VolumeBytes(d, fs, path, 0, f.value.size);
      if bytes.None? || !IsImage(bytes.value) || Verdict(bytes.value).Err? then None else bytes
  }

  predicate IsImage(b: seq<u8>) { |b| < TWO_64 }

  /** A kernel is the whole content of a file of 1 byte to 4 MiB that is a well-formed image. */
  lemma KernelMeaning(d: Disk, fs: Fs, path: seq<u8>, k: seq<u8>)
    requires OnDisk(d, fs)
    ensures KernelAt(d, fs, path) == Some(k)
       <==> && path != [] && Open(fs, FinderOf(d, fs), path).Ok?
            && 0 < Open(fs, FinderOf(d, fs), path).value.size <= 0x40_0000
            && VolumeBytes(d, fs, path, 0, Open(fs, FinderOf(d, fs), path).value.size) == Some(k)
            && |k| < TWO_64 && WellFormed(k)
  {
    if |k| < TWO_64 {
      VerdictMeaning(k);
    }
  }

  /** read_kernel_candidate, into a buffer of the staging area's size. */
  method ReadKernelCandidate(d: Disk, fs: Fs, path: seq<u8>, buffer: array<u8>) returns (imageBytes: Option<nat>)
    requires OnDisk(d, fs) && buffer.Length == KERNEL_IMAGE_BYTES
    modifies buffer
    ensures imageBytes.Some? <==> KernelAt(d, fs, path).Some?
    ensures imageBytes.Some? ==>
              imageBytes.value <= buffer.Length && buffer[..imageBytes.value] == KernelAt(d, fs, path).value
  {
    if path == [] {
      return None;
    }
    var f := OpenPath(d, fs, path);
    if f.Err? || f.value.size == 0 || f.value.size > KERNEL_IMAGE_BYTES {
      return None;
    }
    var ok := ReadWhole(d, fs, path, f.value, buffer);
    if !ok {
      return None;
    }
    var verdict := Validate(buffer[..f.value.size]);
    imageBytes := if verdict.Err? then None else Some(f.value.size);
  }

  /** Reads all of an opened file. */
  method ReadWhole(d: Disk, fs: Fs, ghost path: seq<u8>, f: File, buffer: array<u8>) returns (ok: bool)
    requires OnDisk(d, fs) && Open(fs, FinderOf(d, fs), path) == Ok(f) && 0 < f.size <= buffer.Length
    modifies buffer
    ensures ok <==> VolumeBytes(d, fs, path, 0, f.size).Some?
    ensures ok ==> VolumeBytes(d, fs, path, 0, f.size) == Some(buffer[..f.size])
  {
    var status, bytesRead := ReadFile(d, fs, f, 0, buffer, f.size);
    ok := status.None? && bytesRead == f.size;
    if ok {
      DeliveredPrefix(d, fs, ChainOf(d, fs, f.firstCluster), f.size, buffer[..], old(buffer[..]));
    }
  }

  lemma DeliveredPrefix(d: Disk, fs: Fs, ch: Chain, n: nat, buffer: seq<u8>, start: seq<u8>)
    requires OnDisk(d, fs) && 0 < n <= |buffer| && Delivered(d, fs, ch, 0, n, buffer, start)
    ensures Served(d, fs, ch, 0, n) && buffer[..n] == Bytes(d, fs, ch, 0, n)
  {
    RequestFits(fs, n);
  }

  /** Changing the health sectors of a disk whose layout was accepted changes neither the
      mounted partition nor any kernel on it. */
  lemma HealthWritesKeepKernels(d: Disk, d': Disk, path: seq<u8>)
    requires Unallocated(d, LBA_A, 2) && ChangedOnlyIn(d, d', LBA_A, 2)
    requires BootVerdict(d).Ok? && Mount(d, BootVerdict(d).value).Ok?
    ensures BootVerdict(d') == BootVerdict(d) && Mount(d', BootVerdict(d).value) == Mount(d, BootVerdict(d).value)
    ensures var fs := Mount(d, BootVerdict(d).value).value;
            OnDisk(d, fs) && OnDisk(d', fs) && KernelAt(d', fs, path) == KernelAt(d, fs, path)
  {
    WritesAreInvisible(d, d', LBA_A, 2, path, 0, 1);
    var p := BootVerdict(d).value;
    UnallocatedIsClear(d, LBA_A, 2);
    ClearAgrees(d, d', LBA_A, 2, p.first, p.count);
    MountLayout(d, p);
    SameKernel(d, d', Mount(d, p).value, path);
  }

  lemma SameKernel(d: Disk, d': Disk, fs: Fs, path: seq<u8>)
    requires SameVolume(d, d', fs) && OnDisk(d', fs)
    ensures KernelAt(d', fs, path) == KernelAt(d, fs, path)
  {
    SameOpen(d, d', fs, path);
    var f := Open(fs, FinderOf(d, fs), path);
    if f.Ok? && f.value.size > 0 {
      SameVolumeBytes(d, d', fs, path, 0, f.value.size);
    }
  }
}
