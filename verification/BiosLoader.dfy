/** load_elf of the BIOS loader. Source and destination share one memory: the staged image
    is parsed again before every segment, while earlier segments are already in place. */
module BiosLoader {
  import opened Words
  import opened Elf64
  import opened Paging
  import opened BiosTables
  import opened UefiTables

  const KERNEL_IMAGE_ADDR := 0x100_0000
  const KERNEL_IMAGE_BYTES := 0x40_0000
  const KERNEL_PHYS_LIMIT := 0x800_0000

  /** The checks load_elf makes on the summary of a valid image. */
  predicate Acceptable(s: Summary)
  {
    s.virtualMin >= KERNEL_VIRT_BASE && s.virtualMin < s.virtualMax
    && s.virtualMax - KERNEL_VIRT_BASE <= KERNEL_PHYS_LIMIT - KERNEL_PHYS_BASE
  }

  /** Where the segment's first byte goes. */
  function PhysicalOf(p: Phdr): (r: int) { KERNEL_PHYS_BASE + (p.vaddr - KERNEL_VIRT_BASE) }

  function VirtualOf(a: int): (r: int) { KERNEL_VIRT_BASE + (a - KERNEL_PHYS_BASE) }

  /** Whatever the segments place on the staging buffer is what the image has there; so in
      particular when they place nothing on it. */
  ghost predicate StagingAgrees(image: Image, l: seq<Phdr>)
  {
    forall k, a ::
      0 <= k < |l| && KERNEL_IMAGE_ADDR <= a < KERNEL_IMAGE_ADDR + |image| && Covers(l[k], VirtualOf(a)) ==>
      SegmentByte(image, l[k], VirtualOf(a)) == image[a - KERNEL_IMAGE_ADDR]
  }

  /** Memory is the segments laid over what was there before. */
  ghost predicate LaidOver(before: seq<u8>, after: seq<u8>, image: Image, l: seq<Phdr>)
  {
    |after| == |before| && forall a :: 0 <= a < |after| ==> after[a] == ImageByte(image, l, VirtualOf(a), before[a])
  }

  ghost predicate Staged(mem: seq<u8>, image: Image)
  {
    |mem| == KERNEL_PHYS_LIMIT && |image| <= KERNEL_IMAGE_BYTES
    && mem[KERNEL_IMAGE_ADDR..KERNEL_IMAGE_ADDR + |image|] == image
  }

  // ----- moving bytes -----

  /** n bytes copied one by one upwards, where source and destination may overlap. */
  function Ascend(mem: seq<u8>, to: nat, from: nat, n: nat): (r: seq<u8>)
    requires to + n <= |mem| && from + n <= |mem|
    ensures |r| == |mem|
  {
    if n == 0 then mem
    else
      var m := Ascend(mem, to, from, n - 1);
      m[to + (n - 1) := m[from + (n - 1)]]
  }

  /** Byte k of the result: the source byte, or, where the copy has run into its own output,
      a byte it wrote before. */
  lemma {:induction false} AscendAt(mem: seq<u8>, to: nat, from: nat, n: nat, k: nat)
    requires to + n <= |mem| && from + n <= |mem| && k < |mem|
    ensures var r := Ascend(mem, to, from, n);
            r[k] == if !(to <= k < to + n) then mem[k]
                    else if from < to && 2 * to - from <= k then r[k - (to - from)]
                    else mem[k - to + from]
  {
    if n > 0 {
      AscendAt(mem, to, from, n - 1, k);
      AscendAt(mem, to, from, n - 1, from + (n - 1));
    }
  }

  /** The bytes stand at the given place. */
  ghost predicate Stand(r: seq<u8>, to: nat, want: seq<u8>)
    requires to + |want| <= |r|
  {
    forall j :: 0 <= j < |want| ==> r[to + j] == want[j]
  }

  /** What the copy has to read as byte j: the source byte, or, where it has run into its own
      output, the byte it delivered before. */
  ghost predicate Readable(mem: seq<u8>, to: nat, from: nat, want: seq<u8>, j: nat)
    requires from + |want| <= |mem| && j < |want|
  {
    want[j] == if 0 < to - from <= j then want[j - (to - from)] else mem[from + j]
  }

  /** memcopy delivers the wanted bytes exactly when it can read each of them; so it copies
      faithfully exactly when the part of the source it overwrites before reading it equals
      the source to - from bytes earlier. */
  lemma CopyDelivers(mem: seq<u8>, to: nat, from: nat, want: seq<u8>)
    requires to + |want| <= |mem| && from + |want| <= |mem|
    ensures Stand(Ascend(mem, to, from, |want|), to, want)
       <==> forall j :: 0 <= j < |want| ==> Readable(mem, to, from, want, j)
  {
    forall j | 0 <= j < |want|
      ensures Stand(Ascend(mem, to, from, |want|), to, want) ==> Readable(mem, to, from, want, j)
      ensures (forall i :: 0 <= i < |want| ==> Readable(mem, to, from, want, i)) ==>
                Ascend(mem, to, from, |want|)[to + j] == want[j]
    {
      AscendAt(mem, to, from, |want|, to + j);
      if forall i :: 0 <= i < |want| ==> Readable(mem, to, from, want, i) {
        ReadIsDelivered(mem, to, from, want, j);
      }
    }
  }

  lemma {:induction false} ReadIsDelivered(mem: seq<u8>, to: nat, from: nat, want: seq<u8>, j: nat)
    requires to + |want| <= |mem| && from + |want| <= |mem| && j < |want|
    requires forall i :: 0 <= i < |want| ==> Readable(mem, to, from, want, i)
    ensures Ascend(mem, to, from, |want|)[to + j] == want[j]
    decreases j
  {
    AscendAt(mem, to, from, |want|, to + j);
    assert Readable(mem, to, from, want, j);
    if 0 < to - from <= j {
      ReadIsDelivered(mem, to, from, want, j - (to - from));
    }
  }

  /** memcopy within memory. */
  method CopyWithin(mem: array<u8>, to: nat, from: nat, n: nat)
    requires to + n <= mem.Length && from + n <= mem.Length
    modifies mem
    ensures mem[..] == Ascend(old(mem[..]), to, from, n)
  {
    for i := 0 to n
      invariant mem[..] == Ascend(old(mem[..]), to, from, i)
    {
      mem[to + i] := mem[from + i];
    }
  }

  function ZeroOut(mem: seq<u8>, at: nat, n: nat): (r: seq<u8>)
    requires at + n <= |mem|
    ensures |r| == |mem|
  {
    seq(|mem|, k requires 0 <= k < |mem| => if at <= k < at + n then 0 else mem[k])
  }

  method ZeroRange(mem: array<u8>, at: nat, n: nat)
    requires at + n <= mem.Length
    modifies mem
    ensures mem[..] == ZeroOut(old(mem[..]), at, n)
  {
    for i := 0 to n
      invariant forall k :: 0 <= k < mem.Length ==> mem[k] == if at <= k < at + i then 0 else old(mem[k])
    {
      mem[at + i] := 0;
    }
  }

  // ----- the loader, whatever the segments overlap -----

  /** The image as it stands in the staging buffer. */
  function StagedImage(mem: seq<u8>, imageBytes: nat): (image: Image)
    requires |mem| == KERNEL_PHYS_LIMIT && imageBytes <= KERNEL_IMAGE_BYTES
  {
    mem[KERNEL_IMAGE_ADDR..KERNEL_IMAGE_ADDR + imageBytes]
  }

  function PhysicalAt(seg: Segment): (r: int) { KERNEL_PHYS_BASE + (seg.virtualAddress - KERNEL_VIRT_BASE) }

  /** The per-segment guards. */
  predicate Fits(seg: Segment)
  {
    && seg.virtualAddress >= KERNEL_VIRT_BASE
    && PhysicalAt(seg) <= KERNEL_PHYS_LIMIT && seg.memorySize <= KERNEL_PHYS_LIMIT - PhysicalAt(seg)
  }

  /** Copying and clearing one segment. */
  function Place(mem: seq<u8>, seg: Segment): (r: seq<u8>)
    requires |mem| == KERNEL_PHYS_LIMIT && Fits(seg)
    requires seg.fileSize <= seg.memorySize && seg.fileOffset + seg.fileSize <= KERNEL_IMAGE_BYTES
    ensures |r| == |mem|
  {
    ZeroOut(Ascend(mem, PhysicalAt(seg), KERNEL_IMAGE_ADDR + seg.fileOffset, seg.fileSize),
            PhysicalAt(seg) + seg.fileSize, seg.memorySize - seg.fileSize)
  }

  datatype Outcome = Outcome(done: bool, mem: seq<u8>)

  /** One round of load_elf, which parses the staging buffer as the rounds before have left
      it; none if it finds no segment i or the segment does not fit. */
  function Round(mem: seq<u8>, imageBytes: nat, i: nat): (r: Option<seq<u8>>)
    requires |mem| == KERNEL_PHYS_LIMIT && imageBytes <= KERNEL_IMAGE_BYTES
    ensures r.Some? ==> |r.value| == |mem|
  {
    var seg := SegmentAt(StagedImage(mem, imageBytes), i);
    if seg.None? || !Fits(seg.value) then None
    else
      SegmentAtInside(StagedImage(mem, imageBytes), i);
      Some(Place(mem, seg.value))
  }

  // What the rounds achieve together does not depend on how one of them works, so that is
  // passed around as a function value.

  type Step = (seq<u8>, nat) -> Option<seq<u8>>

  function StepOf(imageBytes: nat): (step: Step)
    requires imageBytes <= KERNEL_IMAGE_BYTES
  {
    (mem: seq<u8>, i: nat) => if |mem| == KERNEL_PHYS_LIMIT then Round(mem, imageBytes, i) else None
  }

  /** The rounds from i on, up to the first that fails. */
  function Iterate(step: Step, count: nat, mem: seq<u8>, i: nat): (r: Outcome)
    decreases count - i
  {
    if i >= count then Outcome(true, mem)
    else
      match step(mem, i)
      case None => Outcome(false, mem)
      case Some(mem') => Iterate(step, count, mem', i + 1)
  }

  /** The rounds of load_elf. */
  function Rounds(mem: seq<u8>, imageBytes: nat, count: nat, i: nat): (r: Outcome)
    requires imageBytes <= KERNEL_IMAGE_BYTES
  {
    Iterate(StepOf(imageBytes), count, mem, i)
  }

  predicate Accepted(image: Image) { Verdict(image).Ok? && Acceptable(Verdict(image).value) }

  /** load_elf: nothing is touched unless the staged image is valid and acceptable, and then
      memory is what the rounds make of it, for every image, overlapping its staging buffer
      or not. */
  method LoadElf(mem: array<u8>, imageBytes: nat) returns (r: Option<Summary>)
    requires mem.Length == KERNEL_PHYS_LIMIT && imageBytes <= KERNEL_IMAGE_BYTES
    modifies mem
    ensures var image := StagedImage(old(mem[..]), imageBytes);
            if !Accepted(image) then r == None && mem[..] == old(mem[..])
            else var o := Rounds(old(mem[..]), imageBytes, Verdict(image).value.loadCount, 0);
                 mem[..] == o.mem && r == if o.done then Some(Verdict(image).value) else None
  {
    assert mem[KERNEL_IMAGE_ADDR..KERNEL_IMAGE_ADDR + imageBytes] == StagedImage(mem[..], imageBytes);
    var verdict := Validate(mem[KERNEL_IMAGE_ADDR..KERNEL_IMAGE_ADDR + imageBytes]);
    if verdict.Err? {
      return None;
    }
    var sum := verdict.value;
    if sum.virtualMin < KERNEL_VIRT_BASE || sum.virtualMax <= sum.virtualMin {
      return None;
    }
    if sum.virtualMax - KERNEL_VIRT_BASE > KERNEL_PHYS_LIMIT - KERNEL_PHYS_BASE {
      return None;
    }
    var done := PlaceSegments(mem, imageBytes, sum.loadCount);
    r := if done then Some(sum) else None;
  }

  /** The loop of load_elf. */
  method PlaceSegments(mem: array<u8>, imageBytes: nat, count: u16) returns (done: bool)
    requires mem.Length == KERNEL_PHYS_LIMIT && imageBytes <= KERNEL_IMAGE_BYTES
    modifies mem
    ensures Outcome(done, mem[..]) == Rounds(old(mem[..]), imageBytes, count, 0)
  {
    ghost var whole := Rounds(mem[..], imageBytes, count, 0);
    for i := 0 to count
      invariant whole == Rounds(mem[..], imageBytes, count, i)
    {
      assert mem[KERNEL_IMAGE_ADDR..KERNEL_IMAGE_ADDR + imageBytes] == StagedImage(mem[..], imageBytes);
      var seg := FindSegment(mem[KERNEL_IMAGE_ADDR..KERNEL_IMAGE_ADDR + imageBytes], i);
      if seg.None? || seg.value.virtualAddress < KERNEL_VIRT_BASE {
        return false;
      }
      SegmentAtInside(StagedImage(mem[..], imageBytes), i);
      var placed := PlaceSegment(mem, seg.value);
      if !placed {
        return false;
      }
    }
    done := true;
  }

  /** The guard on the destination, the copy and the clearing for one segment. */
  method PlaceSegment(mem: array<u8>, seg: Segment) returns (done: bool)
    requires mem.Length == KERNEL_PHYS_LIMIT && seg.virtualAddress >= KERNEL_VIRT_BASE
    requires seg.fileSize <= seg.memorySize && seg.fileOffset + seg.fileSize <= KERNEL_IMAGE_BYTES
    modifies mem
    ensures done <==> Fits(seg)
    ensures mem[..] == if done then Place(old(mem[..]), seg) else old(mem[..])
  {
    var physical := KERNEL_PHYS_BASE + (seg.virtualAddress - KERNEL_VIRT_BASE);
    if physical > KERNEL_PHYS_LIMIT || seg.memorySize > KERNEL_PHYS_LIMIT - physical {
      return false;
    }
    CopyWithin(mem, physical, KERNEL_IMAGE_ADDR + seg.fileOffset, seg.fileSize);
    if seg.memorySize > seg.fileSize {
      ZeroRange(mem, physical + seg.fileSize, seg.memorySize - seg.fileSize);
    } else {
      NothingToZero(mem[..], physical + seg.fileSize);
    }
    done := true;
  }

  lemma NothingToZero(mem: seq<u8>, at: nat)
    requires at <= |mem|
    ensures ZeroOut(mem, at, 0) == mem
  {
  }

  // ----- what the rounds achieve -----

  /** What placing one segment does to memory. */
  ghost predicate Placed(before: seq<u8>, after: seq<u8>, image: Image, p: Phdr)
  {
    |after| == |before| && forall a :: 0 <= a < |after| ==>
      after[a] == if Covers(p, VirtualOf(a)) then SegmentByte(image, p, VirtualOf(a)) else before[a]
  }

  /** The segment that a round finds goes where p belongs. */
  predicate SameTarget(seg: Segment, p: Phdr) { seg.virtualAddress == p.vaddr && seg.memorySize == p.memsz }

  /** How far the segment is moved upwards, from the staging buffer to its place. */
  function Shift(seg: Segment): (d: int) { PhysicalAt(seg) - (KERNEL_IMAGE_ADDR + seg.fileOffset) }

  /** Placing seg out of a staging buffer b puts the right byte at offset j of segment p. */
  ghost predicate ByteGood(b: seq<u8>, image: Image, seg: Segment, p: Phdr, j: nat)
    requires seg.fileOffset + seg.fileSize <= |b|
  {
    SegmentByte(image, p, p.vaddr + j) ==
      if j >= seg.fileSize then 0
      else if 0 < Shift(seg) <= j then SegmentByte(image, p, p.vaddr + j - Shift(seg))
      else b[seg.fileOffset + j]
  }

  ghost predicate Yields(b: seq<u8>, image: Image, seg: Segment, p: Phdr)
    requires seg.fileOffset + seg.fileSize <= |b|
  {
    forall j :: 0 <= j < p.memsz ==> ByteGood(b, image, seg, p, j)
  }

  /** The first n bytes of segment p. */
  ghost function Wanted(image: Image, p: Phdr, n: nat): (w: seq<u8>) 
  {
    seq<u8>(n, j requires 0 <= j < n => SegmentByte(image, p, p.vaddr + j))
  }

  lemma PlaceAt(mem: seq<u8>, seg: Segment, a: nat)
    requires |mem| == KERNEL_PHYS_LIMIT && Fits(seg) && a < |mem|
    requires seg.fileSize <= seg.memorySize && seg.fileOffset + seg.fileSize <= KERNEL_IMAGE_BYTES
    ensures var r := Place(mem, seg)[a];
            && (PhysicalAt(seg) <= a < PhysicalAt(seg) + seg.fileSize ==>
                  r == Ascend(mem, PhysicalAt(seg), KERNEL_IMAGE_ADDR + seg.fileOffset, seg.fileSize)[a])
            && (PhysicalAt(seg) + seg.fileSize <= a < PhysicalAt(seg) + seg.memorySize ==> r == 0)
            && (!(PhysicalAt(seg) <= a < PhysicalAt(seg) + seg.memorySize) ==> r == mem[a])
  {
    AscendAt(mem, PhysicalAt(seg), KERNEL_IMAGE_ADDR + seg.fileOffset, seg.fileSize, a);
  }

  /** The file part of the target is right exactly when its bytes are good. */
  lemma FilePart(mem: seq<u8>, image: Image, seg: Segment, p: Phdr)
    requires |mem| == KERNEL_PHYS_LIMIT && Fits(seg) && SameTarget(seg, p) && |image| <= KERNEL_IMAGE_BYTES
    requires seg.fileSize <= seg.memorySize && seg.fileOffset + seg.fileSize <= |image|
    ensures Stand(Ascend(mem, PhysicalAt(seg), KERNEL_IMAGE_ADDR + seg.fileOffset, seg.fileSize), PhysicalAt(seg),
                  Wanted(image, p, seg.fileSize))
       <==> forall j :: 0 <= j < seg.fileSize ==> ByteGood(StagedImage(mem, |image|), image, seg, p, j)
  {
    var to, from, want := PhysicalAt(seg), KERNEL_IMAGE_ADDR + seg.fileOffset, Wanted(image, p, seg.fileSize);
    CopyDelivers(mem, to, from, want);
    forall j | 0 <= j < seg.fileSize
      ensures Readable(mem, to, from, want, j) <==> ByteGood(StagedImage(mem, |image|), image, seg, p, j)
    {
      ReadsGood(mem, image, seg, p, want, j);
    }
  }

  lemma ReadsGood(mem: seq<u8>, image: Image, seg: Segment, p: Phdr, want: seq<u8>, j: nat)
    requires |mem| == KERNEL_PHYS_LIMIT && Fits(seg) && |image| <= KERNEL_IMAGE_BYTES
    requires j < seg.fileSize && seg.fileOffset + seg.fileSize <= |image| && want == Wanted(image, p, seg.fileSize)
    ensures Readable(mem, PhysicalAt(seg), KERNEL_IMAGE_ADDR + seg.fileOffset, want, j)
       <==> ByteGood(StagedImage(mem, |image|), image, seg, p, j)
  {
    assert StagedImage(mem, |image|)[seg.fileOffset + j] == mem[KERNEL_IMAGE_ADDR + seg.fileOffset + j];
  }

  /** One round puts the segment p in place, out of a staging buffer in any state, exactly when
      each byte is good. */
  lemma PlacedIff(mem: seq<u8>, image: Image, seg: Segment, p: Phdr)
    requires |mem| == KERNEL_PHYS_LIMIT && Fits(seg) && SameTarget(seg, p) && |image| <= KERNEL_IMAGE_BYTES
    requires seg.fileSize <= seg.memorySize && seg.fileOffset + seg.fileSize <= |image|
    ensures Placed(mem, Place(mem, seg), image, p) <==> Yields(StagedImage(mem, |image|), image, seg, p)
  {
    FilePart(mem, image, seg, p);
    if Yields(StagedImage(mem, |image|), image, seg, p) {
      YieldsIsPlaced(mem, image, seg, p);
    } else if Placed(mem, Place(mem, seg), image, p) {
      PlacedYields(mem, image, seg, p);
    }
  }

  lemma YieldsIsPlaced(mem: seq<u8>, image: Image, seg: Segment, p: Phdr)
    requires |mem| == KERNEL_PHYS_LIMIT && Fits(seg) && SameTarget(seg, p) && |image| <= KERNEL_IMAGE_BYTES
    requires seg.fileSize <= seg.memorySize && seg.fileOffset + seg.fileSize <= |image|
    requires Yields(StagedImage(mem, |image|), image, seg, p)
    requires Stand(Ascend(mem, PhysicalAt(seg), KERNEL_IMAGE_ADDR + seg.fileOffset, seg.fileSize), PhysicalAt(seg),
                   Wanted(image, p, seg.fileSize))
    ensures Placed(mem, Place(mem, seg), image, p)
  {
    var r := Place(mem, seg);
    forall a | 0 <= a < |r|
      ensures r[a] == if Covers(p, VirtualOf(a)) then SegmentByte(image, p, VirtualOf(a)) else mem[a]
    {
      PlaceAt(mem, seg, a);
      if Covers(p, VirtualOf(a)) {
        YieldedByte(mem, image, seg, p, a - PhysicalAt(seg));
      }
    }
  }

  lemma YieldedByte(mem: seq<u8>, image: Image, seg: Segment, p: Phdr, j: nat)
    requires |mem| == KERNEL_PHYS_LIMIT && Fits(seg) && SameTarget(seg, p) && |image| <= KERNEL_IMAGE_BYTES
             && j < p.memsz
    requires seg.fileSize <= seg.memorySize && seg.fileOffset + seg.fileSize <= |image|
    requires Yields(StagedImage(mem, |image|), image, seg, p)
    requires Stand(Ascend(mem, PhysicalAt(seg), KERNEL_IMAGE_ADDR + seg.fileOffset, seg.fileSize), PhysicalAt(seg),
                   Wanted(image, p, seg.fileSize))
    ensures Place(mem, seg)[PhysicalAt(seg) + j] == SegmentByte(image, p, p.vaddr + j)
  {
    PlaceAt(mem, seg, PhysicalAt(seg) + j);
    if j < seg.fileSize {
      StoodByte(Ascend(mem, PhysicalAt(seg), KERNEL_IMAGE_ADDR + seg.fileOffset, seg.fileSize), PhysicalAt(seg), image,
                p, seg.fileSize, j);
    } else {
      ZeroTail(StagedImage(mem, |image|), image, seg, p, j);
    }
  }

  lemma StoodByte(r: seq<u8>, to: nat, image: Image, p: Phdr, n: nat, j: nat)
    requires to + n <= |r| && j < n && Stand(r, to, Wanted(image, p, n))
    ensures r[to + j] == SegmentByte(image, p, p.vaddr + j)
  {
    assert r[to + j] == Wanted(image, p, n)[j];
  }

  lemma ZeroTail(b: seq<u8>, image: Image, seg: Segment, p: Phdr, j: nat)
    requires seg.fileOffset + seg.fileSize <= |b| && Yields(b, image, seg, p) && seg.fileSize <= j < p.memsz
    ensures SegmentByte(image, p, p.vaddr + j) == 0
  {
    assert ByteGood(b, image, seg, p, j);
  }

  lemma PlacedYields(mem: seq<u8>, image: Image, seg: Segment, p: Phdr)
    requires |mem| == KERNEL_PHYS_LIMIT && Fits(seg) && SameTarget(seg, p) && |image| <= KERNEL_IMAGE_BYTES
    requires seg.fileSize <= seg.memorySize && seg.fileOffset + seg.fileSize <= |image|
    requires Placed(mem, Place(mem, seg), image, p)
    ensures Yields(StagedImage(mem, |image|), image, seg, p)
  {
    var copied := Ascend(mem, PhysicalAt(seg), KERNEL_IMAGE_ADDR + seg.fileOffset, seg.fileSize);
    var want := Wanted(image, p, seg.fileSize);
    forall j | 0 <= j < seg.fileSize
      ensures copied[PhysicalAt(seg) + j] == want[j]
    {
      PlaceAt(mem, seg, PhysicalAt(seg) + j);
      PlacedByte(mem, Place(mem, seg), image, p, j);
    }
    FilePart(mem, image, seg, p);
    forall j | 0 <= j < p.memsz
      ensures ByteGood(StagedImage(mem, |image|), image, seg, p, j)
    {
      if j >= seg.fileSize {
        PlaceAt(mem, seg, PhysicalAt(seg) + j);
        PlacedByte(mem, Place(mem, seg), image, p, j);
      }
    }
  }

  lemma PlacedByte(mem: seq<u8>, mem': seq<u8>, image: Image, p: Phdr, j: nat)
    requires Placed(mem, mem', image, p) && j < p.memsz && 0 <= PhysicalOf(p) && PhysicalOf(p) + j < |mem|
    ensures mem'[PhysicalOf(p) + j] == SegmentByte(image, p, p.vaddr + j)
  {
    assert VirtualOf(PhysicalOf(p) + j) == p.vaddr + j;
  }

  // ----- whole images -----

  /** What the loader may rely on about the segments of an accepted image. */
  ghost predicate Fitting(image: Image, l: seq<Phdr>)
  {
    && |image| <= KERNEL_IMAGE_BYTES && PairwiseDisjoint(l)
    && forall k :: 0 <= k < |l| ==> Fits(ToSegment(l[k]))
  }

  lemma AcceptedFits(image: Image)
    requires Accepted(image) && |image| <= KERNEL_IMAGE_BYTES
    ensures Loadable(image, Segments(image), Verdict(image).value) && Fitting(image, Segments(image))
  {
    ValidIsLoadable(image);
  }

  /** The staging buffer once the segments l are in place. */
  ghost function Overlaid(image: Image, l: seq<Phdr>): (b: Image)
    ensures |b| == |image|
  {
    seq(|image|, k requires 0 <= k < |image| => ImageByte(image, l, VirtualOf(KERNEL_IMAGE_ADDR + k), image[k]))
  }

  /** Round i finds a header for segment p in the staging buffer b, and it yields p's bytes. */
  ghost predicate ReadyFrom(b: Image, image: Image, p: Phdr, i: nat)
  {
    var seg := SegmentAt(b, i);
    seg.Some? && SameTarget(seg.value, p) && (SegmentAtInside(b, i); Yields(b, image, seg.value, p))
  }

  /** Segment i can be put in place once those before it are: the header that its round finds
      in the staging buffer has the right target, and yields the right bytes. This is a
      property of the image alone. */
  ghost predicate Ready(image: Image, l: seq<Phdr>, i: nat)
    requires i < |l|
  {
    ReadyFrom(Overlaid(image, l[..i]), image, l[i], i)
  }

  ghost function ReadyIn(image: Image, l: seq<Phdr>): (ready: nat -> bool) { (i: nat) => i < |l| && Ready(image, l, i) }

  ghost predicate AllReady(image: Image)
  {
    forall i :: 0 <= i < |Segments(image)| ==> Ready(image, Segments(image), i)
  }

  /** Whether a round finds a segment with the right target, as a function of memory. */
  type Aim = (seq<u8>, nat) -> bool

  function AimOf(image: Image, l: seq<Phdr>): (aim: Aim)
    requires |image| <= KERNEL_IMAGE_BYTES
  {
    (mem: seq<u8>, i: nat) => |mem| == KERNEL_PHYS_LIMIT && i < |l| && OnTarget(mem, image, l[i], i)
  }

  /** Round i finds a segment with the target of p. */
  predicate OnTarget(mem: seq<u8>, image: Image, p: Phdr, i: nat)
    requires |mem| == KERNEL_PHYS_LIMIT && |image| <= KERNEL_IMAGE_BYTES
  {
    var seg := SegmentAt(StagedImage(mem, |image|), i);
    seg.Some? && SameTarget(seg.value, p)
  }

  /** Every round from i on finds a segment with the target of its own. */
  ghost predicate EachOnTarget(step: Step, aim: Aim, count: nat, mem: seq<u8>, i: nat)
    decreases count - i
  {
    i < count ==> aim(mem, i) && step(mem, i).Some? && EachOnTarget(step, aim, count, step(mem, i).value, i + 1)
  }

  /** Every round from i on puts its own segment in place. */
  ghost predicate EachInPlace(step: Step, aim: Aim, image: Image, l: seq<Phdr>, mem: seq<u8>, i: nat)
    decreases |l| - i
  {
    i < |l| ==> InPlace(step, aim, image, l, mem, i) && EachInPlace(step, aim, image, l, step(mem, i).value, i + 1)
  }

  ghost predicate InPlace(step: Step, aim: Aim, image: Image, l: seq<Phdr>, mem: seq<u8>, i: nat)
    requires i < |l|
  {
    aim(mem, i) && step(mem, i).Some? && Placed(mem, step(mem, i).value, image, l[i])
  }

  /** A round on target changes only what its segment covers. */
  ghost predicate Aimed(step: Step, aim: Aim, l: seq<Phdr>)
  {
    forall mem: seq<u8>, i: nat {:trigger step(mem, i)} :: i < |l| && aim(mem, i) && step(mem, i).Some? ==>
      |step(mem, i).value| == |mem| && Misses(mem, step(mem, i).value, l[i])
  }

  ghost predicate Misses(mem: seq<u8>, mem': seq<u8>, p: Phdr)
    requires |mem| == |mem'|
  {
    forall a :: 0 <= a < |mem| && !Covers(p, VirtualOf(a)) ==> mem'[a] == mem[a]
  }

  /** A round that follows segments in place puts its own in place exactly when it is ready. */
  ghost predicate Decides(ready: nat -> bool, step: Step, aim: Aim, start: seq<u8>, image: Image, l: seq<Phdr>)
  {
    forall mem: seq<u8>, i: nat {:trigger step(mem, i)} :: i < |l| && LaidOver(start, mem, image, l[..i]) ==>
      (InPlace(step, aim, image, l, mem, i) <==> ready(i))
  }

  lemma OverlayStep(start: seq<u8>, m: seq<u8>, m': seq<u8>, image: Image, l: seq<Phdr>, i: nat)
    requires i < |l| && LaidOver(start, m, image, l[..i]) && Placed(m, m', image, l[i])
    ensures LaidOver(start, m', image, l[..i + 1])
  {
    assert l[..i + 1][..i] == l[..i];
  }

  lemma StagedByte(mem: seq<u8>, image: Image, k: nat)
    requires Staged(mem, image) && k < |image|
    ensures mem[KERNEL_IMAGE_ADDR + k] == image[k]
  {
    assert mem[KERNEL_IMAGE_ADDR + k] == mem[KERNEL_IMAGE_ADDR..KERNEL_IMAGE_ADDR + |image|][k];
  }

  /** What the segments leave in the staging buffer does not depend on the memory around it. */
  lemma StagedOverlaid(start: seq<u8>, mem: seq<u8>, image: Image, l: seq<Phdr>)
    requires Staged(start, image) && LaidOver(start, mem, image, l)
    ensures StagedImage(mem, |image|) == Overlaid(image, l)
  {
    forall k | 0 <= k < |image|
      ensures mem[KERNEL_IMAGE_ADDR + k] == Overlaid(image, l)[k]
    {
      StagedByte(start, image, k);
    }
  }

  lemma ReadyDecides(start: seq<u8>, image: Image, l: seq<Phdr>)
    requires Staged(start, image) && Fitting(image, l)
    ensures Decides(ReadyIn(image, l), StepOf(|image|), AimOf(image, l), start, image, l)
  {
    var step, aim := StepOf(|image|), AimOf(image, l);
    forall mem: seq<u8>, i: nat | i < |l| && LaidOver(start, mem, image, l[..i])
      ensures InPlace(step, aim, image, l, mem, i) <==> Ready(image, l, i)
    {
      InPlaceIff(start, mem, image, l, i);
    }
  }

  lemma InPlaceIff(start: seq<u8>, mem: seq<u8>, image: Image, l: seq<Phdr>, i: nat)
    requires Staged(start, image) && Fitting(image, l) && i < |l| && LaidOver(start, mem, image, l[..i])
    ensures InPlace(StepOf(|image|), AimOf(image, l), image, l, mem, i) <==> Ready(image, l, i)
  {
    StagedOverlaid(start, mem, image, l[..i]);
    RoundIff(mem, image, Overlaid(image, l[..i]), l[i], i);
  }

  lemma RoundIff(mem: seq<u8>, image: Image, b: Image, p: Phdr, i: nat)
    requires |mem| == KERNEL_PHYS_LIMIT && |image| <= KERNEL_IMAGE_BYTES
    requires b == StagedImage(mem, |image|) && Fits(ToSegment(p))
    ensures OnTarget(mem, image, p, i) && Round(mem, |image|, i).Some?
            && Placed(mem, Round(mem, |image|, i).value, image, p)
       <==> ReadyFrom(b, image, p, i)
  {
    var seg := SegmentAt(b, i);
    if seg.Some? && SameTarget(seg.value, p) {
      SegmentAtInside(b, i);
      PlacedIff(mem, image, seg.value, p);
    }
  }

  lemma RoundsAreAimed(image: Image, l: seq<Phdr>)
    requires |image| <= KERNEL_IMAGE_BYTES
    ensures Aimed(StepOf(|image|), AimOf(image, l), l)
  {
    var step, aim := StepOf(|image|), AimOf(image, l);
    forall mem: seq<u8>, i: nat | i < |l| && aim(mem, i) && step(mem, i).Some?
      ensures |step(mem, i).value| == |mem| && Misses(mem, step(mem, i).value, l[i])
    {
      RoundMisses(mem, image, l, i);
    }
  }

  lemma RoundMisses(mem: seq<u8>, image: Image, l: seq<Phdr>, i: nat)
    requires |mem| == KERNEL_PHYS_LIMIT && |image| <= KERNEL_IMAGE_BYTES && i < |l|
    requires OnTarget(mem, image, l[i], i) && Round(mem, |image|, i).Some?
    ensures Misses(mem, Round(mem, |image|, i).value, l[i])
  {
    var b := StagedImage(mem, |image|);
    SegmentAtInside(b, i);
    PlaceMisses(mem, SegmentAt(b, i).value, l[i]);
  }

  lemma PlaceMisses(mem: seq<u8>, seg: Segment, p: Phdr)
    requires |mem| == KERNEL_PHYS_LIMIT && Fits(seg) && SameTarget(seg, p)
    requires seg.fileSize <= seg.memorySize && seg.fileOffset + seg.fileSize <= KERNEL_IMAGE_BYTES
    ensures Misses(mem, Place(mem, seg), p)
  {
    forall a | 0 <= a < |mem| && !Covers(p, VirtualOf(a))
      ensures Place(mem, seg)[a] == mem[a]
    {
      PlaceAt(mem, seg, a);
    }
  }

  lemma {:induction false} EachInPlaceIff(ready: nat -> bool, step: Step, aim: Aim, start: seq<u8>, image: Image,
                                          l: seq<Phdr>,
                                          mem: seq<u8>, i: nat)
    requires Decides(ready, step, aim, start, image, l) && i <= |l| && LaidOver(start, mem, image, l[..i])
    ensures EachInPlace(step, aim, image, l, mem, i) <==> forall j :: i <= j < |l| ==> ready(j)
    decreases |l| - i
  {
    if i < |l| {
      assert InPlace(step, aim, image, l, mem, i) <==> ready(i) by { var next := step(mem, i); }
      if ready(i) {
        OverlayStep(start, mem, step(mem, i).value, image, l, i);
        EachInPlaceIff(ready, step, aim, start, image, l, step(mem, i).value, i + 1);
      }
    }
  }

  /** Segments put in place one by one are all in place at the end. */
  lemma {:induction false} InPlaceIsLaidOver(step: Step, aim: Aim, start: seq<u8>, image: Image, l: seq<Phdr>,
                                             mem: seq<u8>, i: nat)
    requires i <= |l| && LaidOver(start, mem, image, l[..i]) && EachInPlace(step, aim, image, l, mem, i)
    ensures var o := Iterate(step, |l|, mem, i); o.done && LaidOver(start, o.mem, image, l)
    decreases |l| - i
  {
    if i < |l| {
      OverlayStep(start, mem, step(mem, i).value, image, l, i);
      InPlaceIsLaidOver(step, aim, start, image, l, step(mem, i).value, i + 1);
    } else {
      assert l[..i] == l;
    }
  }

  /** Rounds on target change no address outside their segments. */
  lemma {:induction false} RoundsMiss(step: Step, aim: Aim, l: seq<Phdr>, mem: seq<u8>, i: nat, a: nat)
    requires Aimed(step, aim, l) && EachOnTarget(step, aim, |l|, mem, i)
    requires a < |mem| && forall k :: i <= k < |l| ==> !Covers(l[k], VirtualOf(a))
    ensures var o := Iterate(step, |l|, mem, i); o.done && |o.mem| == |mem| && o.mem[a] == mem[a]
    decreases |l| - i
  {
    if i < |l| {
      RoundsMiss(step, aim, l, step(mem, i).value, i + 1, a);
    }
  }

  /** A round on target whose segment is in place at the end has put it there: later rounds
      do not touch it. */
  lemma InPlaceAtLast(step: Step, aim: Aim, start: seq<u8>, image: Image, l: seq<Phdr>, mem: seq<u8>, i: nat)
    requires Aimed(step, aim, l) && EachOnTarget(step, aim, |l|, mem, i) && PairwiseDisjoint(l) && i < |l|
    requires |mem| == |start| && LaidOver(start, Iterate(step, |l|, mem, i).mem, image, l)
    ensures InPlace(step, aim, image, l, mem, i)
  {
    var mem' := step(mem, i).value;
    forall a | 0 <= a < |mem'|
      ensures mem'[a] == if Covers(l[i], VirtualOf(a)) then SegmentByte(image, l[i], VirtualOf(a)) else mem[a]
    {
      if Covers(l[i], VirtualOf(a)) {
        LaterMiss(l, i, a);
        RoundsMiss(step, aim, l, mem', i + 1, a);
        ImageByteOf(image, l, i, VirtualOf(a), start[a]);
      }
    }
  }

  lemma LaterMiss(l: seq<Phdr>, i: nat, a: nat)
    requires PairwiseDisjoint(l) && i < |l| && Covers(l[i], VirtualOf(a))
    ensures forall k :: i < k < |l| ==> !Covers(l[k], VirtualOf(a))
  {
    forall k | i < k < |l|
      ensures !Covers(l[k], VirtualOf(a))
    {
      assert !Overlap(l[i], l[k]);
    }
  }

  lemma {:induction false} LaidOverIsInPlace(step: Step, aim: Aim, start: seq<u8>, image: Image, l: seq<Phdr>,
                                             mem: seq<u8>, i: nat)
    requires Aimed(step, aim, l) && EachOnTarget(step, aim, |l|, mem, i) && PairwiseDisjoint(l) && i <= |l|
    requires |mem| == |start| && LaidOver(start, Iterate(step, |l|, mem, i).mem, image, l)
    ensures EachInPlace(step, aim, image, l, mem, i)
    decreases |l| - i
  {
    if i < |l| {
      InPlaceAtLast(step, aim, start, image, l, mem, i);
      LaidOverIsInPlace(step, aim, start, image, l, step(mem, i).value, i + 1);
    }
  }

  lemma {:induction false} OnTargetIsDone(step: Step, aim: Aim, count: nat, mem: seq<u8>, i: nat)
    requires EachOnTarget(step, aim, count, mem, i)
    ensures Iterate(step, count, mem, i).done
    decreases count - i
  {
    if i < count {
      OnTargetIsDone(step, aim, count, step(mem, i).value, i + 1);
    }
  }

  /** Every round of loading an accepted image puts its own segment in place exactly when all
      segments are ready, and then memory ends as the segments laid over what was there.
      While the rounds stay on target, only so. */
  lemma LoadedIff(mem: seq<u8>, image: Image)
    requires Staged(mem, image) && Accepted(image)
    ensures var l := Segments(image);
            var step, aim, o := StepOf(|image|), AimOf(image, l), Rounds(mem, |image|, Verdict(image).value.loadCount,
                                                                         0);
            && (EachInPlace(step, aim, image, l, mem, 0) <==> AllReady(image))
            && (AllReady(image) ==> o.done && LaidOver(mem, o.mem, image, l))
            && (EachOnTarget(step, aim, |l|, mem, 0) ==>
                  o.done && (LaidOver(mem, o.mem, image, l) <==> AllReady(image)))
  {
    AcceptedFits(image);
    LoadedIffFor(mem, image, Segments(image));
  }

  lemma LoadedIffFor(mem: seq<u8>, image: Image, l: seq<Phdr>)
    requires Staged(mem, image) && Fitting(image, l)
    ensures var step, aim, o := StepOf(|image|), AimOf(image, l), Rounds(mem, |image|, |l|, 0);
            var all := forall i :: 0 <= i < |l| ==> Ready(image, l, i);
            && (EachInPlace(step, aim, image, l, mem, 0) <==> all)
            && (all ==> o.done && LaidOver(mem, o.mem, image, l))
            && (EachOnTarget(step, aim, |l|, mem, 0) ==> o.done && (LaidOver(mem, o.mem, image, l) <==> all))
  {
    ReadyDecides(mem, image, l);
    RoundsAreAimed(image, l);
    var ready := ReadyIn(image, l);
    assert forall i :: 0 <= i < |l| ==> ready(i) == Ready(image, l, i);
    LoadedWhen(ready, StepOf(|image|), AimOf(image, l), mem, image, l);
  }

  lemma LoadedWhen(ready: nat -> bool, step: Step, aim: Aim, start: seq<u8>, image: Image, l: seq<Phdr>)
    requires Decides(ready, step, aim, start, image, l) && Aimed(step, aim, l) && PairwiseDisjoint(l)
    ensures var o := Iterate(step, |l|, start, 0);
            var all := forall i :: 0 <= i < |l| ==> ready(i);
            && (EachInPlace(step, aim, image, l, start, 0) <==> all)
            && (all ==> o.done && LaidOver(start, o.mem, image, l))
            && (EachOnTarget(step, aim, |l|, start, 0) ==> o.done && (LaidOver(start, o.mem, image, l) <==> all))
  {
    EachInPlaceIff(ready, step, aim, start, image, l, start, 0);
    if EachInPlace(step, aim, image, l, start, 0) {
      InPlaceIsLaidOver(step, aim, start, image, l, start, 0);
    }
    if EachOnTarget(step, aim, |l|, start, 0) {
      OnTargetIsDone(step, aim, |l|, start, 0);
      if LaidOver(start, Iterate(step, |l|, start, 0).mem, image, l) {
        LaidOverIsInPlace(step, aim, start, image, l, start, 0);
      }
    }
  }

  // ----- images that leave the staging buffer alone -----

  lemma {:induction false} AgreedByte(image: Image, l: seq<Phdr>, n: nat, k: nat)
    requires StagingAgrees(image, l) && n <= |l| && k < |image|
    ensures ImageByte(image, l[..n], VirtualOf(KERNEL_IMAGE_ADDR + k), image[k]) == image[k]
  {
    if n > 0 {
      assert l[..n][..n - 1] == l[..n - 1];
      var a := KERNEL_IMAGE_ADDR + k;
      assert Covers(l[n - 1], VirtualOf(a)) ==>
               SegmentByte(image, l[n - 1], VirtualOf(a)) == image[a - KERNEL_IMAGE_ADDR];
      AgreedByte(image, l, n - 1, k);
    }
  }

  lemma AgreedOverlay(image: Image, l: seq<Phdr>, n: nat)
    requires StagingAgrees(image, l) && n <= |l|
    ensures Overlaid(image, l[..n]) == image
  {
    forall k | 0 <= k < |image|
      ensures Overlaid(image, l[..n])[k] == image[k]
    {
      AgreedByte(image, l, n, k);
    }
  }

  /** A segment read from the undamaged image is good where it is not moved onto itself, or
      agrees with what it is moved onto. */
  lemma AgreedYields(image: Image, l: seq<Phdr>, i: nat)
    requires StagingAgrees(image, l) && i < |l| && l[i].filesz <= l[i].memsz && l[i].offset + l[i].filesz <= |image|
    ensures Yields(image, image, ToSegment(l[i]), l[i])
  {
    var p, d := l[i], Shift(ToSegment(l[i]));
    forall j | 0 <= j < p.memsz
      ensures ByteGood(image, image, ToSegment(p), p, j)
    {
      if j < p.filesz && 0 < d <= j {
        var a := KERNEL_IMAGE_ADDR + p.offset + j;
        assert VirtualOf(a) == p.vaddr + (j - d);
        assert Covers(p, VirtualOf(a));
        assert SegmentByte(image, p, VirtualOf(a)) == image[a - KERNEL_IMAGE_ADDR];
      }
    }
  }

  lemma AgreedIsReady(image: Image)
    requires Accepted(image) && StagingAgrees(image, Segments(image)) && |image| <= KERNEL_IMAGE_BYTES
    ensures AllReady(image)
  {
    var l := Segments(image);
    AcceptedFits(image);
    forall i | 0 <= i < |l|
      ensures Ready(image, l, i)
    {
      AgreedOverlay(image, l, i);
      ValidSegmentAt(image, i);
      AgreedYields(image, l, i);
    }
  }

  /** All segments are in place, and the image is still staged. */
  ghost predicate LoadedIntact(start: seq<u8>, o: Outcome, image: Image, l: seq<Phdr>)
  {
    o.done && LaidOver(start, o.mem, image, l) && Staged(o.mem, image)
  }

  lemma AgreedIsIntact(start: seq<u8>, mem: seq<u8>, image: Image, l: seq<Phdr>)
    requires Staged(start, image) && LaidOver(start, mem, image, l) && StagingAgrees(image, l)
    ensures Staged(mem, image)
  {
    StagedOverlaid(start, mem, image, l);
    AgreedOverlay(image, l, |l|);
    assert l[..|l|] == l;
  }

  /** The other way round: segments that are in place with the image still staged agree
      with it. */
  lemma IntactAgrees(start: seq<u8>, mem: seq<u8>, image: Image, l: seq<Phdr>)
    requires PairwiseDisjoint(l) && LaidOver(start, mem, image, l) && Staged(mem, image)
    ensures StagingAgrees(image, l)
  {
    forall k, a | 0 <= k < |l| && KERNEL_IMAGE_ADDR <= a < KERNEL_IMAGE_ADDR + |image| && Covers(l[k], VirtualOf(a))
      ensures SegmentByte(image, l[k], VirtualOf(a)) == image[a - KERNEL_IMAGE_ADDR]
    {
      ImageByteOf(image, l, k, VirtualOf(a), start[a]);
      StagedByte(mem, image, a - KERNEL_IMAGE_ADDR);
    }
  }

  /** An accepted image is loaded with every segment in place and its staged copy intact
      exactly when the segments agree with it where they are placed on it. */
  lemma LoadedIntactIff(mem: seq<u8>, image: Image)
    requires Staged(mem, image) && Accepted(image)
    ensures LoadedIntact(mem, Rounds(mem, |image|, Verdict(image).value.loadCount, 0), image, Segments(image))
       <==> StagingAgrees(image, Segments(image))
  {
    var l := Segments(image);
    var o := Rounds(mem, |image|, Verdict(image).value.loadCount, 0);
    AcceptedFits(image);
    if StagingAgrees(image, l) {
      AgreedIsReady(image);
      LoadedIff(mem, image);
      AgreedIsIntact(mem, o.mem, image, l);
    } else if LoadedIntact(mem, o, image, l) {
      IntactAgrees(mem, o.mem, image, l);
    }
  }

  /** An image with one load segment is always loaded; its segment is in place afterwards
      exactly when the copy can read each of its bytes. */
  lemma SingleSegment(mem: seq<u8>, image: Image, l: seq<Phdr>)
    requires Staged(mem, image) && Accepted(image) && l == Segments(image) && |l| == 1
    ensures l[0].offset + l[0].filesz <= |image|
    ensures var o := Rounds(mem, |image|, Verdict(image).value.loadCount, 0);
            o.done && (LaidOver(mem, o.mem, image, l) <==> Yields(image, image, ToSegment(l[0]), l[0]))
  {
    AcceptedFits(image);
    ValidSegmentAt(image, 0);
    FirstOnTarget(mem, image, l);
    FirstReady(image, l);
    LoadedIff(mem, image);
  }

  lemma FirstOnTarget(mem: seq<u8>, image: Image, l: seq<Phdr>)
    requires Staged(mem, image) && |l| == 1 && SegmentAt(image, 0) == Some(ToSegment(l[0])) && Fits(ToSegment(l[0]))
    ensures EachOnTarget(StepOf(|image|), AimOf(image, l), 1, mem, 0)
  {
    assert StagedImage(mem, |image|) == image;
    assert Round(mem, |image|, 0).Some?;
  }

  lemma FirstReady(image: Image, l: seq<Phdr>)
    requires |l| == 1 && SegmentAt(image, 0) == Some(ToSegment(l[0])) && l[0].offset + l[0].filesz <= |image|
    ensures Ready(image, l, 0) <==> Yields(image, image, ToSegment(l[0]), l[0])
  {
    assert Overlaid(image, l[..0]) == image;
  }

  // ----- end to end -----

  /** The byte a kernel address reads through the BIOS tables. */
  ghost function ReadVirtual(tables: seq<u64>, mem: seq<u8>, v: u64): (r: Option<u8>)
    requires 512 <= |tables|
  {
    match Walk(tables, PML4_ADDR, v)
    case Fault => None
    case Phys(p) => if p < |mem| then Some(mem[p]) else None
  }

  /** Every byte of every load segment, read through the tables, is its file byte, or
      zero past the file part. */
  lemma VirtualImage(tables: seq<u64>, before: seq<u8>, mem: seq<u8>, image: Image, l: seq<Phdr>, s: Summary, k: nat,
                     v: u64)
    requires 512 <= |tables| && forall w: u64 :: Walk(tables, PML4_ADDR, w) == BiosTranslation(w)
    requires |mem| == KERNEL_PHYS_LIMIT && LaidOver(before, mem, image, l)
    requires Loadable(image, l, s) && Acceptable(s)
    requires k < |l| && Covers(l[k], v)
    ensures ReadVirtual(tables, mem, v) == Some(SegmentByte(image, l[k], v))
  {
    var a := KERNEL_PHYS_BASE + (v - KERNEL_VIRT_BASE);
    assert s.virtualMin <= v < s.virtualMax;
    assert 0 <= a < KERNEL_PHYS_LIMIT && VirtualOf(a) == v;
    assert BiosTranslation(v) == Phys(a);
    ImageByteOf(image, l, k, v, before[a]);
  }

  /** load_elf followed by build_page_tables. It succeeds only on accepted images, and on
      all whose segments are ready; the kernel then sees its segments. */
  method PrepareKernel(mem: array<u8>, imageBytes: nat, tables: array<u64>)
    returns (r: Option<Summary>, ghost image: Image)
    requires mem.Length == KERNEL_PHYS_LIMIT && imageBytes <= KERNEL_IMAGE_BYTES && tables.Length == 4096
    modifies mem, tables
    ensures image == StagedImage(old(mem[..]), imageBytes)
    ensures r.Some? ==> Accepted(image) && Verdict(image) == Ok(r.value)
    ensures Accepted(image) && AllReady(image) ==> r.Some?
    ensures r.Some? && AllReady(image) ==>
              forall k, v: u64 :: 0 <= k < |Segments(image)| && Covers(Segments(image)[k], v) ==>
                ReadVirtual(tables[..], mem[..], v) == Some(SegmentByte(image, Segments(image)[k], v))
    ensures r.Some? ==> forall w: u64 :: Walk(tables[..], PML4_ADDR, w) == BiosTranslation(w)
    ensures r.Some? ==> Writable(tables[..], PML4_ADDR)
  {
    ghost var before := mem[..];
    r, image := LoadStaged(mem, imageBytes);
    if r.None? {
      return;
    }
    BuildPageTables(tables);
    if AllReady(image) {
      SeesSegments(tables[..], before, mem[..], image, Segments(image), r.value);
    }
  }

  /** load_elf, with what it achieves when the segments are ready. */
  method LoadStaged(mem: array<u8>, imageBytes: nat) returns (r: Option<Summary>, ghost image: Image)
    requires mem.Length == KERNEL_PHYS_LIMIT && imageBytes <= KERNEL_IMAGE_BYTES
    modifies mem
    ensures image == StagedImage(old(mem[..]), imageBytes)
    ensures r.Some? ==> Accepted(image) && Verdict(image) == Ok(r.value) && Loadable(image, Segments(image), r.value)
    ensures Accepted(image) && AllReady(image) ==> r.Some? && LaidOver(old(mem[..]), mem[..], image, Segments(image))
  {
    ghost var before := mem[..];
    image := StagedImage(mem[..], imageBytes);
    r := LoadElf(mem, imageBytes);
    if Accepted(image) {
      ReadyLoad(before, image, Segments(image), Verdict(image).value);
    }
  }

  lemma ReadyLoad(mem: seq<u8>, image: Image, l: seq<Phdr>, s: Summary)
    requires Staged(mem, image) && Verdict(image) == Ok(s) && Acceptable(s) && l == Segments(image)
    ensures Loadable(image, l, s)
    ensures var o := Rounds(mem, |image|, s.loadCount, 0); AllReady(image) ==> o.done && LaidOver(mem, o.mem, image, l)
  {
    AcceptedFits(image);
    LoadedIff(mem, image);
  }

  lemma SeesSegments(tables: seq<u64>, before: seq<u8>, mem: seq<u8>, image: Image, l: seq<Phdr>, s: Summary)
    requires 512 <= |tables| && forall w: u64 :: Walk(tables, PML4_ADDR, w) == BiosTranslation(w)
    requires |mem| == KERNEL_PHYS_LIMIT && LaidOver(before, mem, image, l) && Loadable(image, l, s) && Acceptable(s)
    ensures forall k, v: u64 :: 0 <= k < |l| && Covers(l[k], v) ==>
              ReadVirtual(tables, mem, v) == Some(SegmentByte(image, l[k], v))
  {
    forall k, v: u64 | 0 <= k < |l| && Covers(l[k], v)
      ensures ReadVirtual(tables, mem, v) == Some(SegmentByte(image, l[k], v))
    {
      VirtualImage(tables, before, mem, image, l, s, k, v);
    }
  }
}
