/** load_elf of the UEFI loader, and the end-to-end claim: a page walk over the tables,
    followed by a read of the loaded pages, sees the ELF image. */
module UefiLoader {
  import opened Words
  import opened Elf64
  import opened Paging
  import opened UefiPaging
  import opened UefiTables

  datatype LoadError = LoadFailed | Unsupported | BadBufferSize | AllocationFailed

  /** The size and placement checks load_elf makes on a valid image. */
  predicate Acceptable(s: Summary)
  {
    s.virtualMin >= KERNEL_VIRT_FLOOR && s.virtualMin < s.virtualMax <= s.virtualMin + MAX_KERNEL_BYTES
  }

  /** The pages hold the segments from address low on, with zeros in every gap. */
  ghost predicate Holds(mem: seq<u8>, image: Image, l: seq<Phdr>, low: u64)
  {
    forall k :: 0 <= k < |mem| ==> mem[k] == ImageByte(image, l, low + k, 0)
  }

  method CopyInto(mem: array<u8>, at: nat, image: Image, from: nat, n: nat)
    requires at + n <= mem.Length && from + n <= |image|
    modifies mem
    ensures forall k :: 0 <= k < mem.Length ==>
              mem[k] == if at <= k < at + n then image[from + (k - at)] else old(mem[k])
  {
    for i := 0 to n
      invariant forall k :: 0 <= k < mem.Length ==>
                  mem[k] == if at <= k < at + i then image[from + (k - at)] else old(mem[k])
    {
      mem[at + i] := image[from + i];
    }
  }

  /** load_elf. It fails only where listed; the per-segment guards never fire. */
  method LoadElf(image: Image, pagesAt: Option<u64>)
    returns (r: Result<Summary, LoadError>, mem: array<u8>, ghost l: seq<Phdr>)
    ensures fresh(mem)
    ensures Verdict(image).Err? ==> r == Err(LoadFailed)
    ensures Verdict(image).Ok? ==>
              var s := Verdict(image).value;
              r == if s.virtualMin < KERNEL_VIRT_FLOOR then Err(Unsupported)
                   else if !Acceptable(s) then Err(BadBufferSize)
                   else if pagesAt.None? then Err(AllocationFailed)
                   else Ok(s)
    ensures l == Segments(image) && (r.Ok? ==> Loadable(image, l, r.value))
    ensures r.Ok? ==> mem.Length == 4096 * PagesFor(r.value.virtualMax - r.value.virtualMin)
                      && Holds(mem[..], image, l, r.value.virtualMin)
  {
    l := Segments(image);
    mem := new u8[0];
    var verdict := Validate(image);
    if verdict.Err? {
      return Err(LoadFailed), mem, l;
    }
    var sum := verdict.value;
    ValidIsLoadable(image);
    if sum.virtualMin < KERNEL_VIRT_FLOOR || sum.virtualMax <= sum.virtualMin {
      return Err(Unsupported), mem, l;
    }
    var span := sum.virtualMax - sum.virtualMin;
    if span == 0 || span > MAX_KERNEL_BYTES {
      return Err(BadBufferSize), mem, l;
    }
    if pagesAt.None? {
      return Err(AllocationFailed), mem, l;
    }
    mem := new u8[4096 * PagesFor(span)](_ => 0);
    var done := CopySegments(image, sum, mem);
    r := if done then Ok(sum) else Err(LoadFailed);
  }

  /** The copy loop of load_elf. */
  method CopySegments(image: Image, sum: Summary, mem: array<u8>) returns (done: bool)
    requires Verdict(image) == Ok(sum) && Loadable(image, Segments(image), sum)
    requires sum.virtualMax - sum.virtualMin <= mem.Length
    requires forall k :: 0 <= k < mem.Length ==> mem[k] == 0
    modifies mem
    ensures done && Holds(mem[..], image, Segments(image), sum.virtualMin)
  {
    ghost var l := Segments(image);
    for i := 0 to sum.loadCount
      invariant Holds(mem[..], image, l[..i], sum.virtualMin)
    {
      var copied := CopySegment(image, sum, mem, i, l);
      if !copied {
        return false;
      }
    }
    assert l[..|l|] == l;
    done := true;
  }

  /** One round of the copy loop. Copying only the file part is enough, because the rest
      of the segment is still zero. */
  method CopySegment(image: Image, sum: Summary, mem: array<u8>, i: u16, ghost l: seq<Phdr>) returns (done: bool)
    requires Verdict(image) == Ok(sum) && l == Segments(image) && Loadable(image, l, sum) && i < |l|
    requires sum.virtualMax - sum.virtualMin <= mem.Length
    requires Holds(mem[..], image, l[..i], sum.virtualMin)
    modifies mem
    ensures done && Holds(mem[..], image, l[..i + 1], sum.virtualMin)
  {
    var seg := NthSegment(image, i);
    if seg.Err? {
      return false;
    }
    done := CopyLoaded(image, sum.virtualMin, sum.virtualMax, mem, seg.value, i, l);
  }

  /** The guards and the copy, for the segment that was looked up. */
  method CopyLoaded(image: Image, low: u64, high: u64, mem: array<u8>, seg: Segment, ghost i: nat, ghost l: seq<Phdr>)
    returns (done: bool)
    requires i < |l| && seg == ToSegment(l[i]) && PairwiseDisjoint(l) && l[i].filesz <= l[i].memsz
             && l[i].offset + l[i].filesz <= |image|
    requires low <= l[i].vaddr && l[i].vaddr + l[i].memsz <= high && high - low <= mem.Length
    requires Holds(mem[..], image, l[..i], low)
    modifies mem
    ensures done && Holds(mem[..], image, l[..i + 1], low)
  {
    if seg.virtualAddress < low {
      return false;
    }
    var span, off := high - low, seg.virtualAddress - low;
    if off > span || seg.memorySize > span - off {
      return false;
    }
    ghost var before := mem[..];
    CopyInto(mem, off, image, seg.fileOffset, seg.fileSize);
    CopyHolds(before, mem[..], image, l, i, low);
    done := true;
  }

  lemma CopyHolds(before: seq<u8>, after: seq<u8>, image: Image, l: seq<Phdr>, i: nat, low: u64)
    requires i < |l| && PairwiseDisjoint(l) && l[i].filesz <= l[i].memsz && l[i].offset + l[i].filesz <= |image|
    requires low <= l[i].vaddr && Holds(before, image, l[..i], low)
    requires |after| == |before| && forall k :: 0 <= k < |after| ==>
               after[k] == if l[i].vaddr <= low + k < l[i].vaddr + l[i].filesz
                              && 0 <= l[i].offset + (low + k - l[i].vaddr) < |image|
                           then image[l[i].offset + (low + k - l[i].vaddr)] else before[k]
    ensures Holds(after, image, l[..i + 1], low)
  {
    assert l[..i + 1][..i] == l[..i];
    forall k | 0 <= k < |after|
      ensures after[k] == ImageByte(image, l[..i + 1], low + k, 0)
    {
      if Covers(l[i], low + k) {
        EarlierSegmentsMiss(image, l, i, low + k, 0);
      }
    }
  }

  // ----- end to end -----

  /** The byte at a physical address, when it lies in the loaded pages. */
  ghost function ReadPhysical(mem: seq<u8>, kp: u64, t: Translation): (r: Option<u8>)
  {
    match t
    case Fault => None
    case Phys(p) => if kp <= p < kp + |mem| then Some(mem[p - kp]) else None
  }

  /** The byte a kernel address reads, through the tables, from the loaded pages. */
  ghost function ReadVirtual(tables: seq<u64>, base: u64, mem: seq<u8>, kp: u64, v: u64): (r: Option<u8>)
    requires 512 <= |tables|
  {
    ReadPhysical(mem, kp, Walk(tables, base, v))
  }

  /** What the kernel sees at v: the image's byte, and zero between segments. */
  ghost predicate SeesImage(tables: seq<u64>, base: u64, mem: seq<u8>, kp: u64, image: Image, l: seq<Phdr>, v: u64)
    requires 512 <= |tables|
  {
    var b := ReadVirtual(tables, base, mem, kp, v);
    && (forall k :: 0 <= k < |l| && Covers(l[k], v) ==> b == Some(SegmentByte(image, l[k], v)))
    && ((forall k :: 0 <= k < |l| ==> !Covers(l[k], v)) ==> b == Some(0))
  }

  /** The tables show at v the page byte that belongs virtual_min % 4096 bytes further up;
      so the image's byte is seen at v exactly when that byte is inside the pages and the
      same. This is a property of the image alone. */
  ghost predicate LandsRight(image: Image, l: seq<Phdr>, low: u64, high: u64, v: u64)
    requires low <= high
  {
    var u := v + low % 4096;
    u < low + 4096 * PagesFor(high - low) && ImageByte(image, l, u, 0) == ImageByte(image, l, v, 0)
  }

  /** Reading an address of the span through the tables yields the image's byte there (file
      contents, zeros past them, and zeros between segments) exactly when it lands right. */
  lemma VirtualImage(tables: seq<u64>, base: u64, mem: seq<u8>, kp: u64, image: Image, l: seq<Phdr>,
                     low: u64, high: u64, v: u64)
    requires PairwiseDisjoint(l) && KERNEL_VIRT_FLOOR <= low <= v < high
    requires |mem| == 4096 * PagesFor(high - low) && Holds(mem, image, l, low)
    requires 512 <= |tables| && Translates(tables, base, kp, low, PagesFor(high - low))
    ensures SeesImage(tables, base, mem, kp, image, l, v) <==> LandsRight(image, l, low, high, v)
  {
    SeesByte(tables, base, mem, kp, image, l, v);
    ShowsByte(tables, base, mem, kp, image, l, low, high, v);
  }

  lemma ShowsByte(tables: seq<u64>, base: u64, mem: seq<u8>, kp: u64, image: Image, l: seq<Phdr>,
                  low: u64, high: u64, v: u64)
    requires KERNEL_VIRT_FLOOR <= low <= v < high && |mem| == 4096 * PagesFor(high - low) && Holds(mem, image, l, low)
    requires 512 <= |tables| && Translates(tables, base, kp, low, PagesFor(high - low))
    ensures ReadVirtual(tables, base, mem, kp, v) == Some(ImageByte(image, l, v, 0))
       <==> LandsRight(image, l, low, high, v)
  {
    var k := v - low + low % 4096;
    ReadsPages(tables, base, mem, kp, low, high, v, k);
    assert k < |mem| ==> mem[k] == ImageByte(image, l, low + k, 0);
    assert low + k == v + low % 4096;
  }

  lemma SeesByte(tables: seq<u64>, base: u64, mem: seq<u8>, kp: u64, image: Image, l: seq<Phdr>, v: u64)
    requires 512 <= |tables| && PairwiseDisjoint(l)
    ensures SeesImage(tables, base, mem, kp, image, l, v)
       <==> ReadVirtual(tables, base, mem, kp, v) == Some(ImageByte(image, l, v, 0))
  {
    forall k | 0 <= k < |l| && Covers(l[k], v)
      ensures ImageByte(image, l, v, 0) == SegmentByte(image, l[k], v)
    {
      ImageByteOf(image, l, k, v, 0);
    }
    if forall k :: 0 <= k < |l| ==> !Covers(l[k], v) {
      ImageByteGap(image, l, v, 0);
    }
  }

  /** On an aligned image every address lands right. */
  lemma AlignedLandsRight(image: Image, l: seq<Phdr>, low: u64, high: u64, v: u64)
    requires low <= v < high && low % 4096 == 0
    ensures LandsRight(image, l, low, high, v)
  {
    PagesCover(high - low);
  }

  /** The tables turn a kernel address into an offset of the loaded pages. */
  lemma ReadsPages(tables: seq<u64>, base: u64, mem: seq<u8>, kp: u64, low: u64, high: u64, v: u64, k: nat)
    requires KERNEL_VIRT_FLOOR <= low <= v < high && |mem| == 4096 * PagesFor(high - low) && k == v - low + low % 4096
    requires 512 <= |tables| && Translates(tables, base, kp, low, PagesFor(high - low))
    ensures ReadVirtual(tables, base, mem, kp, v) == if k < |mem| then Some(mem[k]) else None
  {
    WalkOffset(tables, base, kp, low, PagesFor(high - low), v, k);
    if k < |mem| {
      ReadOffset(mem, kp, k);
    }
  }

  lemma WalkOffset(tables: seq<u64>, base: u64, kp: u64, low: u64, n: nat, v: u64, k: nat)
    requires KERNEL_VIRT_FLOOR <= low <= v && k == v - low + low % 4096
    requires 512 <= |tables| && Translates(tables, base, kp, low, n)
    ensures Walk(tables, base, v) == if k < 4096 * n then Phys(kp + k) else Fault
  {
    assert Walk(tables, base, v) == Intended(kp, low, n, v);
    IntendedOffset(kp, low, n, v, k);
  }

  lemma IntendedOffset(kp: u64, low: u64, n: nat, v: u64, k: nat)
    requires KERNEL_VIRT_FLOOR <= low <= v && k == v - low + low % 4096
    ensures Intended(kp, low, n, v) == if k < 4096 * n then Phys(kp + k) else Fault
  {
    assert PageFloor(low) == low - low % 4096;
  }

  lemma ReadOffset(mem: seq<u8>, kp: u64, k: nat)
    requires k < |mem|
    ensures ReadPhysical(mem, kp, Phys(kp + k)) == Some(mem[k])
  {
  }

  lemma PagesCover(span: nat)
    ensures span <= 4096 * PagesFor(span)
    ensures span <= MAX_KERNEL_BYTES ==> 4096 * PagesFor(span) <= MAX_KERNEL_BYTES
  {
  }

  /** The two steps efi_main takes for the kernel, with the firmware's allocations as
      inputs. Whenever they succeed, the kernel sees its own image exactly where it lands
      right, so everywhere on an aligned image. */
  method PrepareKernel(image: Image, kernelAt: Option<u64>, poolAt: Option<u64>, stackAt: Option<u64>)
    returns (r: Option<Handoff>, sum: Result<Summary, LoadError>, mem: array<u8>, pool: PagePool?)
    requires kernelAt.Some? ==> kernelAt.value % 4096 == 0
    requires kernelAt.Some? && Verdict(image).Ok? && Acceptable(Verdict(image).value) ==>
               kernelAt.value + 4096 * PagesFor(Verdict(image).value.virtualMax - Verdict(image).value.virtualMin) <= FOUR_GIB
    requires poolAt.Some? ==> poolAt.value % 4096 == 0 && poolAt.value + 4096 * POOL_PAGES <= FOUR_GIB
    requires stackAt.Some? ==> stackAt.value + 4 * 4096 <= FOUR_GIB
    ensures r.Some? <==> sum.Ok? && poolAt.Some? && stackAt.Some?
    ensures sum.Ok? <==> Verdict(image).Ok? && Acceptable(Verdict(image).value) && kernelAt.Some?
    ensures r.Some? ==> pool != null && r.value.root == pool.base && 512 <= pool.mem.Length
    ensures r.Some? ==> Writable(pool.mem[..], pool.base)
    ensures r.Some? ==>
              forall v: u64 :: sum.value.virtualMin <= v < sum.value.virtualMax ==>
                (SeesImage(pool.mem[..], r.value.root, mem[..], kernelAt.value, image, Segments(image), v)
                 <==> LandsRight(image, Segments(image), sum.value.virtualMin, sum.value.virtualMax, v))
    ensures r.Some? && sum.value.virtualMin % 4096 == 0 ==>
              forall v: u64 :: sum.value.virtualMin <= v < sum.value.virtualMax ==>
                SeesImage(pool.mem[..], r.value.root, mem[..], kernelAt.value, image, Segments(image), v)
  {
    ghost var l;
    sum, mem, l := LoadElf(image, kernelAt);
    if sum.Err? {
      return None, sum, mem, null;
    }
    r, pool := MapLoaded(image, sum.value, l, mem, kernelAt.value, poolAt, stackAt);
    if sum.value.virtualMin % 4096 == 0 {
      forall v: u64 | sum.value.virtualMin <= v < sum.value.virtualMax
        ensures LandsRight(image, l, sum.value.virtualMin, sum.value.virtualMax, v)
      {
        AlignedLandsRight(image, l, sum.value.virtualMin, sum.value.virtualMax, v);
      }
    }
  }

  method MapLoaded(image: Image, s: Summary, ghost l: seq<Phdr>, mem: array<u8>, kp: u64, poolAt: Option<u64>,
                   stackAt: Option<u64>)
    returns (r: Option<Handoff>, pool: PagePool?)
    requires Loadable(image, l, s) && Acceptable(s)
    requires kp % 4096 == 0 && kp + 4096 * PagesFor(s.virtualMax - s.virtualMin) <= FOUR_GIB
    requires mem.Length == 4096 * PagesFor(s.virtualMax - s.virtualMin) && Holds(mem[..], image, l, s.virtualMin)
    requires poolAt.Some? ==> poolAt.value % 4096 == 0 && poolAt.value + 4096 * POOL_PAGES <= FOUR_GIB
    requires stackAt.Some? ==> stackAt.value + 4 * 4096 <= FOUR_GIB
    ensures r.Some? <==> poolAt.Some? && stackAt.Some?
    ensures r.Some? ==> pool != null && r.value.root == pool.base && 512 <= pool.mem.Length
    ensures r.Some? ==> Writable(pool.mem[..], pool.base)
    ensures r.Some? ==>
              forall v: u64 :: s.virtualMin <= v < s.virtualMax ==>
                (SeesImage(pool.mem[..], r.value.root, mem[..], kp, image, l, v)
                 <==> LandsRight(image, l, s.virtualMin, s.virtualMax, v))
  {
    r, pool := BuildTables(poolAt, stackAt, kp, s.virtualMin, s.virtualMax);
    if r.Some? {
      forall v: u64 | s.virtualMin <= v < s.virtualMax
        ensures SeesImage(pool.mem[..], pool.base, mem[..], kp, image, l, v)
           <==> LandsRight(image, l, s.virtualMin, s.virtualMax, v)
      {
        VirtualImage(pool.mem[..], pool.base, mem[..], kp, image, l, s.virtualMin, s.virtualMax, v);
      }
    }
  }
}
