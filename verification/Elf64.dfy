/** ELF64 validation and load-segment enumeration over an untrusted byte image. */
module Elf64 {
  import opened Words
  import opened Bits

  const HEADER_SIZE := 64
  const PHDR_SIZE := 56
  const MAX_PHDRS := 128
  const PT_LOAD := 1
  const ET_EXEC := 2
  const ET_DYN := 3
  const EM_X86_64 := 62

  datatype Status =
    | ErrTruncated | ErrMagic | ErrClass | ErrEndian | ErrVersion | ErrType
    | ErrRelocationModel | ErrMachine | ErrPhdr | ErrSegment | ErrOverlap | ErrEntry

  datatype Summary = Summary(entry: u64, virtualMin: u64, virtualMax: u64, loadCount: u16)

  datatype Phdr = Phdr(ptype: u32, flags: u32, offset: u64, vaddr: u64, filesz: u64, memsz: u64, align: u64)

  datatype Segment = Segment(fileOffset: u64, virtualAddress: u64, fileSize: u64, memorySize: u64,
                             alignment: u64, flags: u32)

  /** An image whose size fits the 64-bit size argument. */
  type Image = s: seq<u8> | |s| < 0x1_0000_0000_0000_0000 witness []

  // ----- pure helpers of the source -----

  predicate AddOverflows(a: u64, b: u64) { TWO_64 - 1 - a < b }

  predicate RangeInside(offset: u64, length: u64, total: u64)
  {
    !AddOverflows(offset, length) && offset + length <= total
  }

  predicate PowerOfTwo(v: u64) { v != 0 && And(v, v - 1) == 0 }

  // ----- header -----

  function Entry(image: Image): (r: u64)
    requires |image| >= HEADER_SIZE
  {
    Le64(image, 24)
  }

  function PhOff(image: Image): (r: u64)
    requires |image| >= HEADER_SIZE
  {
    Le64(image, 32)
  }

  function PhNum(image: Image): (r: u16)
    requires |image| >= HEADER_SIZE
  {
    Le16(image, 56)
  }

  /** header_if_basic_valid: the first failing header check, if any. */
  function HeaderError(image: Image): (r: Option<Status>)
  {
    if |image| < HEADER_SIZE then Some(ErrTruncated)
    else if image[0] != 0x7f || image[1] != 'E' as int || image[2] != 'L' as int || image[3] != 'F' as int
    then Some(ErrMagic)
    else if image[4] != 2 then Some(ErrClass)
    else if image[5] != 1 then Some(ErrEndian)
    else if image[6] != 1 || Le32(image, 20) != 1 then Some(ErrVersion)
    else if Le16(image, 16) == ET_DYN then Some(ErrRelocationModel)
    else if Le16(image, 16) != ET_EXEC then Some(ErrType)
    else if Le16(image, 18) != EM_X86_64 then Some(ErrMachine)
    else if Le16(image, 52) != HEADER_SIZE || Le16(image, 54) != PHDR_SIZE
            || PhNum(image) == 0 || PhNum(image) > MAX_PHDRS then Some(ErrPhdr)
    else if !RangeInside(PhOff(image), PhNum(image) * Le16(image, 54), |image|) then Some(ErrTruncated)
    else None
  }

  /** The header constraints of the gABI for a static x86-64 executable, with a program
      header table that lies inside the file. */
  ghost predicate HeaderOk(image: Image)
  {
    && |image| >= HEADER_SIZE
    && image[..7] == [0x7f, 'E' as int, 'L' as int, 'F' as int, 2, 1, 1]
    && Le16(image, 16) == ET_EXEC
    && Le16(image, 18) == EM_X86_64
    && Le32(image, 20) == 1
    && Le16(image, 52) == HEADER_SIZE
    && Le16(image, 54) == PHDR_SIZE
    && 1 <= PhNum(image) <= MAX_PHDRS
    && PhOff(image) + PHDR_SIZE * PhNum(image) <= |image|
  }

  lemma HeaderErrorMeaning(image: Image)
    ensures HeaderError(image) == None <==> HeaderOk(image)
  {
    if |image| >= HEADER_SIZE {
      var magic: seq<u8> := [0x7f, 'E' as int, 'L' as int, 'F' as int, 2, 1, 1];
      if image[..7] == magic {
        assert image[0] == image[..7][0] && image[1] == image[..7][1] && image[2] == image[..7][2]
            && image[3] == image[..7][3] && image[4] == image[..7][4] && image[5] == image[..7][5]
            && image[6] == image[..7][6];
      }
    }
  }

  // ----- program headers -----

  function PhdrAt(image: Image, i: nat): (p: Phdr)
    requires HeaderError(image) == None && i < PhNum(image)
  {
    var at := PhOff(image) + i * PHDR_SIZE;
    Phdr(Le32(image, at), Le32(image, at + 4), Le64(image, at + 8), Le64(image, at + 16),
         Le64(image, at + 32), Le64(image, at + 40), Le64(image, at + 48))
  }

  function Phdrs(image: Image): (ph: seq<Phdr>)
    requires HeaderError(image) == None
  {
    seq(PhNum(image), i requires 0 <= i < PhNum(image) => PhdrAt(image, i))
  }

  /** validate_load_segment. */
  function SegmentError(p: Phdr, size: u64): (r: Option<Status>)
  {
    if p.filesz > p.memsz then Some(ErrSegment)
    else if !RangeInside(p.offset, p.filesz, size) then Some(ErrTruncated)
    else if p.memsz != 0 && AddOverflows(p.vaddr, p.memsz) then Some(ErrSegment)
    else if p.align > 1 && !PowerOfTwo(p.align) then Some(ErrSegment)
    else if p.align > 1 && And(p.vaddr, p.align - 1) != And(p.offset, p.align - 1) then Some(ErrSegment)
    else None
  }

  /** A well-formed load segment: its file part lies in the file, its memory part in the
      address space, and address and offset agree modulo a power-of-two alignment. */
  ghost predicate SegmentOk(p: Phdr, size: u64)
  {
    && p.filesz <= p.memsz
    && p.offset + p.filesz <= size
    && (p.memsz != 0 ==> p.vaddr + p.memsz < TWO_64)
    && (p.align > 1 ==> IsPow2(p.align) && p.vaddr % p.align == p.offset % p.align)
  }

  lemma SegmentErrorMeaning(p: Phdr, size: u64)
    ensures SegmentError(p, size) == None <==> SegmentOk(p, size)
  {
    if p.align > 1 {
      PowerOfTwoTest(p.align);
      if IsPow2(p.align) {
        var k: nat :| p.align == Pow2(k);
        AndLow(p.vaddr, k);
        AndLow(p.offset, k);
      }
    }
  }

  // ----- the load segments -----

  predicate Loads(p: Phdr) { p.ptype == PT_LOAD && p.memsz != 0 }

  /** The non-empty load segments, in table order. */
  function LoadList(ph: seq<Phdr>): (l: seq<Phdr>)
    ensures |l| <= |ph|
  {
    if ph == [] then []
    else
      var n := |ph| - 1;
      LoadList(ph[..n]) + if Loads(ph[n]) then [ph[n]] else []
  }

  lemma {:induction false} LoadListMembers(ph: seq<Phdr>, p: Phdr)
    ensures p in LoadList(ph) <==> p in ph && Loads(p)
  {
    if ph != [] {
      var n := |ph| - 1;
      LoadListMembers(ph[..n], p);
      assert ph == ph[..n] + [ph[n]];
    }
  }

  predicate Overlap(p: Phdr, q: Phdr) { p.vaddr < q.vaddr + q.memsz && q.vaddr < p.vaddr + p.memsz }

  ghost predicate PairwiseDisjoint(l: seq<Phdr>)
  {
    forall i, j :: 0 <= i < j < |l| ==> !Overlap(l[i], l[j])
  }

  function LowEnd(l: seq<Phdr>): (r: u64)
  {
    if l == [] then TWO_64 - 1
    else
      var n := |l| - 1;
      var r := LowEnd(l[..n]);
      if l[n].vaddr < r then l[n].vaddr else r
  }

  function HighEnd(l: seq<Phdr>): (r: nat)
  {
    if l == [] then 0
    else
      var n := |l| - 1;
      var r := HighEnd(l[..n]);
      var end := l[n].vaddr + l[n].memsz;
      if end > r then end else r
  }

  predicate EntersExecutable(p: Phdr, entry: u64)
  {
    p.flags % 2 == 1 && p.vaddr <= entry < p.vaddr + p.memsz
  }

  /** The bounds are the exact minimum and maximum over the segments. */
  lemma {:induction false} EndsAreExact(l: seq<Phdr>)
    requires l != []
    ensures forall k :: 0 <= k < |l| ==> LowEnd(l) <= l[k].vaddr && l[k].vaddr + l[k].memsz <= HighEnd(l)
    ensures exists k :: 0 <= k < |l| && LowEnd(l) == l[k].vaddr
    ensures exists k :: 0 <= k < |l| && HighEnd(l) == l[k].vaddr + l[k].memsz
  {
    var n := |l| - 1;
    if n == 0 {
      assert l[..n] == [];
    } else {
      EndsAreExact(l[..n]);
      var lo :| 0 <= lo < n && LowEnd(l[..n]) == l[..n][lo].vaddr;
      var hi :| 0 <= hi < n && HighEnd(l[..n]) == l[..n][hi].vaddr + l[..n][hi].memsz;
      assert l[lo] == l[..n][lo] && l[hi] == l[..n][hi];
      forall k | 0 <= k < |l|
        ensures LowEnd(l) <= l[k].vaddr && l[k].vaddr + l[k].memsz <= HighEnd(l)
      {
        if k < n {
          assert l[k] == l[..n][k];
        }
      }
      assert LowEnd(l) == l[lo].vaddr || LowEnd(l) == l[n].vaddr;
      assert HighEnd(l) == l[hi].vaddr + l[hi].memsz || HighEnd(l) == l[n].vaddr + l[n].memsz;
    }
  }

  // ----- validation -----

  /** The error header i raises: malformed, or overlapping an earlier load segment. */
  function StepError(ph: seq<Phdr>, i: nat, size: u64): (r: Option<Status>)
    requires i < |ph|
  {
    if ph[i].ptype != PT_LOAD then None
    else if SegmentError(ph[i], size).Some? then SegmentError(ph[i], size)
    else if ph[i].memsz != 0 && exists j :: 0 <= j < i && Loads(ph[j]) && Overlap(ph[i], ph[j]) then Some(ErrOverlap)
    else None
  }

  /** The first error raised while scanning the headers in order. */
  function ScanError(ph: seq<Phdr>, size: u64): (r: Option<Status>)
  {
    if ph == [] then None
    else
      var before := ScanError(ph[..|ph| - 1], size);
      if before.Some? then before else StepError(ph, |ph| - 1, size)
  }

  /** The verdict on a program header table, with the precedence of the source's codes. */
  function TableVerdict(ph: seq<Phdr>, size: u64, entry: u64): (r: Result<Summary, Status>)
    requires |ph| <= MAX_PHDRS
  {
    var l := LoadList(ph);
    var e := ScanError(ph, size);
    if e.Some? then Err(e.value)
    else if l == [] then Err(ErrSegment)
    else if !exists k :: 0 <= k < |l| && EntersExecutable(l[k], entry) then Err(ErrEntry)
    else ScanBounds(ph, size); Ok(Summary(entry, LowEnd(l), HighEnd(l), |l|))
  }

  function Verdict(image: Image): (r: Result<Summary, Status>)
  {
    var h := HeaderError(image);
    if h.Some? then Err(h.value) else TableVerdict(Phdrs(image), |image|, Entry(image))
  }

  /** What an acceptable image is, stated without reference to any scan. */
  ghost predicate WellFormed(image: Image)
  {
    HeaderOk(image) && (HeaderErrorMeaning(image); TableOk(Phdrs(image), |image|, Entry(image)))
  }

  /** All load segments are valid, the non-empty ones pairwise disjoint, and the entry point
      lies in an executable one. */
  ghost predicate TableOk(ph: seq<Phdr>, size: u64, entry: u64)
  {
    var l := LoadList(ph);
    && AllSegmentsOk(ph, size) && PairwiseDisjoint(l)
    && exists k :: 0 <= k < |l| && EntersExecutable(l[k], entry)
  }

  /** All load segments are valid. */
  ghost predicate AllSegmentsOk(ph: seq<Phdr>, size: u64)
  {
    forall i :: 0 <= i < |ph| && ph[i].ptype == PT_LOAD ==> SegmentOk(ph[i], size)
  }

  lemma AllSegmentsExtend(ph: seq<Phdr>, n: nat, size: u64)
    requires n + 1 == |ph|
    ensures AllSegmentsOk(ph, size)
       <==> AllSegmentsOk(ph[..n], size) && (ph[n].ptype == PT_LOAD ==> SegmentOk(ph[n], size))
  {
    assert ph == ph[..n] + [ph[n]];
  }

  lemma {:induction false} ScanErrorMeaning(ph: seq<Phdr>, size: u64)
    ensures ScanError(ph, size) == None <==> AllSegmentsOk(ph, size) && PairwiseDisjoint(LoadList(ph))
  {
    if ph != [] {
      var n := |ph| - 1;
      ScanErrorMeaning(ph[..n], size);
      StepErrorMeaning(ph, n, size);
      AllSegmentsExtend(ph, n, size);
      LoadListExtend(ph, n);
      if Loads(ph[n]) {
        DisjointExtend(LoadList(ph[..n]), ph[n]);
      }
    }
  }

  lemma LoadListExtend(ph: seq<Phdr>, n: nat)
    requires n + 1 == |ph|
    ensures Loads(ph[n]) ==> LoadList(ph) == LoadList(ph[..n]) + [ph[n]]
    ensures !Loads(ph[n]) ==> LoadList(ph) == LoadList(ph[..n])
  {
    assert LoadList(ph[..n]) + [] == LoadList(ph[..n]);
  }

  lemma StepErrorMeaning(ph: seq<Phdr>, n: nat, size: u64)
    requires n < |ph|
    ensures StepError(ph, n, size) == None
       <==> (ph[n].ptype == PT_LOAD ==> SegmentOk(ph[n], size))
            && (Loads(ph[n]) ==> !exists k :: 0 <= k < |LoadList(ph[..n])| && Overlap(ph[n], LoadList(ph[..n])[k]))
  {
    SegmentErrorMeaning(ph[n], size);
    OverlapInList(ph, n, ph[n]);
  }

  lemma OverlapInList(ph: seq<Phdr>, n: nat, p: Phdr)
    requires n <= |ph|
    ensures (exists j :: 0 <= j < n && Loads(ph[j]) && Overlap(p, ph[j]))
       <==> (exists k :: 0 <= k < |LoadList(ph[..n])| && Overlap(p, LoadList(ph[..n])[k]))
  {
    var l := LoadList(ph[..n]);
    if j :| 0 <= j < n && Loads(ph[j]) && Overlap(p, ph[j]) {
      LoadListMembers(ph[..n], ph[j]);
      assert ph[..n][j] == ph[j];
      assert ph[j] in l;
    }
    if k :| 0 <= k < |l| && Overlap(p, l[k]) {
      LoadListMembers(ph[..n], l[k]);
      assert l[k] in ph[..n];
    }
  }

  lemma DisjointExtend(l: seq<Phdr>, p: Phdr)
    ensures PairwiseDisjoint(l + [p]) <==> PairwiseDisjoint(l) && !exists k :: 0 <= k < |l| && Overlap(p, l[k])
  {
    var m := l + [p];
    if PairwiseDisjoint(m) {
      forall i, j | 0 <= i < j < |l|
        ensures !Overlap(l[i], l[j])
      {
        assert l[i] == m[i] && l[j] == m[j];
      }
      forall k | 0 <= k < |l|
        ensures !Overlap(p, l[k])
      {
        assert l[k] == m[k] && p == m[|l|];
      }
    }
  }

  lemma ScanBounds(ph: seq<Phdr>, size: u64)
    requires ScanError(ph, size) == None
    ensures HighEnd(LoadList(ph)) < TWO_64
  {
    ScanErrorMeaning(ph, size);
    var l := LoadList(ph);
    if l != [] {
      EndsAreExact(l);
      var k :| 0 <= k < |l| && HighEnd(l) == l[k].vaddr + l[k].memsz;
      LoadListMembers(ph, l[k]);
      assert l[k] in ph;
    }
  }

  /** Soundness and completeness: accepted exactly when well formed, and the summary is
      the entry point, the exact bounds and the number of non-empty load segments. */
  lemma VerdictMeaning(image: Image)
    ensures Verdict(image).Ok? <==> WellFormed(image)
    ensures Verdict(image).Ok? ==>
              var l := LoadList(Phdrs(image));
              var s := Verdict(image).value;
              && s.entry == Entry(image)
              && s.loadCount == |l|
              && (forall k :: 0 <= k < |l| ==> s.virtualMin <= l[k].vaddr && l[k].vaddr + l[k].memsz <= s.virtualMax)
              && (exists k :: 0 <= k < |l| && s.virtualMin == l[k].vaddr)
              && (exists k :: 0 <= k < |l| && s.virtualMax == l[k].vaddr + l[k].memsz)
  {
    HeaderErrorMeaning(image);
    if HeaderError(image) == None {
      var l := LoadList(Phdrs(image));
      ScanErrorMeaning(Phdrs(image), |image|);
      if l != [] {
        EndsAreExact(l);
      }
    }
  }

  /** josh_elf64_validate. */
  method Validate(image: Image) returns (r: Result<Summary, Status>)
    ensures r == Verdict(image)
    ensures r.Ok? <==> WellFormed(image)
  {
    VerdictMeaning(image);
    var h := HeaderError(image);
    if h.Some? {
      return Err(h.value);
    }
    r := ScanTable(Phdrs(image), |image|, Entry(image));
  }

  /** What the scan's accumulators hold after the headers in ph. */
  ghost predicate Scanned(ph: seq<Phdr>, size: u64, entry: u64, lo: u64, hi: u64, count: nat, exec: bool)
  {
    && ScanError(ph, size) == None
    && lo == LowEnd(LoadList(ph))
    && hi == HighEnd(LoadList(ph))
    && count == |LoadList(ph)|
    && (exec <==> exists k :: 0 <= k < |LoadList(ph)| && EntersExecutable(LoadList(ph)[k], entry))
  }

  lemma ScanFails(ph: seq<Phdr>, i: nat, size: u64, entry: u64)
    requires i < |ph| <= MAX_PHDRS && ScanError(ph[..i], size) == None && StepError(ph, i, size).Some?
    ensures TableVerdict(ph, size, entry) == Err(StepError(ph, i, size).value)
  {
    StepInPrefix(ph, i, size);
    ScanStops(ph, i + 1, size);
  }

  lemma ScanConcludes(ph: seq<Phdr>, size: u64, entry: u64, lo: u64, hi: u64, count: u16, exec: bool)
    requires |ph| <= MAX_PHDRS && Scanned(ph, size, entry, lo, hi, count, exec)
    ensures TableVerdict(ph, size, entry)
         == if count == 0 then Err(ErrSegment) else if !exec then Err(ErrEntry) else Ok(Summary(entry, lo, hi, count))
  {
  }

  lemma ScannedSkip(ph: seq<Phdr>, n: nat, size: u64, entry: u64, lo: u64, hi: u64, count: nat, exec: bool)
    requires n < |ph| && Scanned(ph[..n], size, entry, lo, hi, count, exec)
    requires StepError(ph, n, size) == None && !Loads(ph[n])
    ensures Scanned(ph[..n + 1], size, entry, lo, hi, count, exec)
  {
    StepInPrefix(ph, n, size);
    assert LoadList(ph[..n + 1]) == LoadList(ph[..n]);
  }

  lemma ScannedLoad(ph: seq<Phdr>, n: nat, size: u64, entry: u64, lo: u64, hi: u64, count: nat, exec: bool)
    requires n < |ph| && Scanned(ph[..n], size, entry, lo, hi, count, exec)
    requires StepError(ph, n, size) == None && Loads(ph[n])
    ensures var p := ph[n];
            var end: u64 := p.vaddr + p.memsz;
            Scanned(ph[..n + 1], size, entry, if p.vaddr < lo then p.vaddr else lo, if end > hi then end else hi,
                    count + 1, exec || EntersExecutable(p, entry))
  {
    var l := LoadList(ph[..n]);
    StepInPrefix(ph, n, size);
    assert LoadList(ph[..n + 1]) == l + [ph[n]];
    assert (l + [ph[n]])[..|l|] == l;
    EntryExtend(l, ph[n], entry);
  }

  lemma StepInPrefix(ph: seq<Phdr>, n: nat, size: u64)
    requires n < |ph|
    ensures StepError(ph[..n + 1], n, size) == StepError(ph, n, size)
    ensures ph[..n + 1][..n] == ph[..n]
    ensures ScanError(ph[..n], size) == None ==> ScanError(ph[..n + 1], size) == StepError(ph, n, size)
  {
    assert forall j :: 0 <= j <= n ==> ph[..n + 1][j] == ph[j];
    assert ph[..n + 1][..n] == ph[..n];
  }

  /** The checks of one round of the scan. */
  method CheckHeader(ph: seq<Phdr>, i: nat, size: u64) returns (e: Option<Status>)
    requires i < |ph|
    ensures e == StepError(ph, i, size)
  {
    if ph[i].ptype != PT_LOAD {
      return None;
    }
    e := SegmentError(ph[i], size);
    if e.None? && ph[i].memsz != 0 {
      var clash := OverlapsEarlier(ph, i);
      if clash {
        return Some(ErrOverlap);
      }
    }
  }

  /** The scan of josh_elf64_validate over the program header table. */
  method ScanTable(ph: seq<Phdr>, size: u64, entry: u64) returns (r: Result<Summary, Status>)
    requires |ph| <= MAX_PHDRS
    ensures r == TableVerdict(ph, size, entry)
  {
    var virtualMin: u64 := TWO_64 - 1;
    var virtualMax: u64 := 0;
    var loadCount: u16 := 0;
    var entryIsExecutable := false;
    for i := 0 to |ph|
      invariant loadCount <= i
      invariant Scanned(ph[..i], size, entry, virtualMin, virtualMax, loadCount, entryIsExecutable)
    {
      var p := ph[i];
      var e := CheckHeader(ph, i, size);
      if e.Some? {
        ScanFails(ph, i, size, entry);
        return Err(e.value);
      }
      if p.ptype != PT_LOAD || p.memsz == 0 {
        ScannedSkip(ph, i, size, entry, virtualMin, virtualMax, loadCount, entryIsExecutable);
        continue;
      }
      ScannedLoad(ph, i, size, entry, virtualMin, virtualMax, loadCount, entryIsExecutable);
      var end: u64 := p.vaddr + p.memsz;
      if p.vaddr < virtualMin { virtualMin := p.vaddr; }
      if end > virtualMax { virtualMax := end; }
      loadCount := loadCount + 1;
      if p.flags % 2 != 0 && entry >= p.vaddr && entry < end {
        entryIsExecutable := true;
      }
    }
    assert ph[..|ph|] == ph;
    ScanConcludes(ph, size, entry, virtualMin, virtualMax, loadCount, entryIsExecutable);
    if loadCount == 0 {
      return Err(ErrSegment);
    }
    if !entryIsExecutable {
      return Err(ErrEntry);
    }
    r := Ok(Summary(entry, virtualMin, virtualMax, loadCount));
  }

  /** The inner loop of josh_elf64_validate. */
  method OverlapsEarlier(ph: seq<Phdr>, i: nat) returns (clash: bool)
    requires i < |ph|
    ensures clash <==> exists j :: 0 <= j < i && Loads(ph[j]) && Overlap(ph[i], ph[j])
  {
    for j := 0 to i
      invariant forall m :: 0 <= m < j && Loads(ph[m]) ==> !Overlap(ph[i], ph[m])
    {
      var q := ph[j];
      if q.ptype != PT_LOAD || q.memsz == 0 {
        continue;
      }
      if ph[i].vaddr < q.vaddr + q.memsz && q.vaddr < ph[i].vaddr + ph[i].memsz {
        return true;
      }
    }
    return false;
  }

  lemma EntryExtend(l: seq<Phdr>, p: Phdr, entry: u64)
    ensures (exists k :: 0 <= k < |l + [p]| && EntersExecutable((l + [p])[k], entry))
       <==> EntersExecutable(p, entry) || exists k :: 0 <= k < |l| && EntersExecutable(l[k], entry)
  {
    var m := l + [p];
    assert m[|l|] == p;
    if k :| 0 <= k < |l| && EntersExecutable(l[k], entry) {
      assert m[k] == l[k];
    }
    if k :| 0 <= k < |m| && EntersExecutable(m[k], entry) {
      assert k == |l| || m[k] == l[k];
    }
  }

  /** The first error found is the error of the whole scan. */
  lemma {:induction false} ScanStops(ph: seq<Phdr>, n: nat, size: u64)
    requires n <= |ph| && ScanError(ph[..n], size).Some?
    ensures ScanError(ph, size) == ScanError(ph[..n], size)
  {
    if n < |ph| {
      var m := |ph| - 1;
      assert ph[..m][..n] == ph[..n];
      ScanStops(ph[..m], n, size);
    } else {
      assert ph[..n] == ph;
    }
  }

  // ----- enumeration -----

  function ToSegment(p: Phdr): (s: Segment)
  {
    Segment(p.offset, p.vaddr, p.filesz, p.memsz, p.align, p.flags)
  }

  /** josh_elf64_load_segment. */
  method LoadSegment(image: Image, index: u16) returns (r: Result<Segment, Status>)
    ensures HeaderError(image).Some? ==> r == Err(HeaderError(image).value)
    ensures HeaderError(image) == None ==> Enumerated(LoadList(Phdrs(image)), |image|, index, r)
  {
    var h := HeaderError(image);
    if h.Some? {
      return Err(h.value);
    }
    r := PickSegment(Phdrs(image), |image|, index);
  }

  /** Success means: the asked-for non-empty load segment exists, and it and all before
      it are well formed. Failure reports the first malformed one, or its absence. */
  ghost predicate Enumerated(l: seq<Phdr>, size: u64, index: u16, r: Result<Segment, Status>)
  {
    && (r.Ok? <==> index < |l| && forall k :: 0 <= k <= index ==> SegmentError(l[k], size) == None)
    && (r.Ok? ==> r.value == ToSegment(l[index]))
    && (r.Err? ==>
          if exists k :: 0 <= k < |l| && k <= index && SegmentError(l[k], size).Some?
          then exists k :: 0 <= k < |l| && k <= index && SegmentError(l[k], size) == Some(r.error)
                           && forall m :: 0 <= m < k ==> SegmentError(l[m], size) == None
          else r.error == ErrSegment)
  }

  /** The scan of josh_elf64_load_segment over the program header table. */
  method PickSegment(ph: seq<Phdr>, size: u64, index: u16) returns (r: Result<Segment, Status>)
    requires |ph| <= MAX_PHDRS
    ensures Enumerated(LoadList(ph), size, index, r)
  {
    ghost var all := LoadList(ph);
    var current: u16 := 0;
    for i := 0 to |ph|
      invariant current == |LoadList(ph[..i])| <= index
      invariant LoadList(ph[..i]) <= all
      invariant forall k :: 0 <= k < current ==> SegmentError(all[k], size) == None
    {
      var p := ph[i];
      assert ph[..i + 1][..i] == ph[..i];
      LoadListPrefix(ph, i + 1);
      if p.ptype != PT_LOAD || p.memsz == 0 {
        continue;
      }
      assert LoadList(ph[..i + 1]) == LoadList(ph[..i]) + [p];
      assert all[current] == p;
      var e := SegmentError(p, size);
      if e.Some? {
        return Err(e.value);
      }
      current := current + 1;
      if current - 1 != index {
        continue;
      }
      return Ok(ToSegment(p));
    }
    assert ph[..|ph|] == ph;
    r := Err(ErrSegment);
  }

  lemma {:induction false} LoadListPrefix(ph: seq<Phdr>, n: nat)
    requires n <= |ph|
    ensures LoadList(ph[..n]) <= LoadList(ph)
  {
    if n < |ph| {
      var m := |ph| - 1;
      assert ph[..m][..n] == ph[..n];
      LoadListPrefix(ph[..m], n);
    } else {
      assert ph[..n] == ph;
    }
  }

  /** After validation, enumeration succeeds exactly below the reported count. */
  lemma EnumerationAgrees(image: Image, index: u16)
    requires WellFormed(image)
    ensures Verdict(image).Ok?
    ensures var l := LoadList(Phdrs(image));
            (index < |l| && forall k :: 0 <= k <= index ==> SegmentError(l[k], |image|) == None)
            <==> index < Verdict(image).value.loadCount
  {
    VerdictMeaning(image);
    LoadedSegmentsOk(image);
  }

  lemma LoadedSegmentsOk(image: Image)
    requires WellFormed(image)
    ensures forall k :: 0 <= k < |LoadList(Phdrs(image))| ==>
              Loads(LoadList(Phdrs(image))[k])
              && SegmentOk(LoadList(Phdrs(image))[k], |image|)
              && SegmentError(LoadList(Phdrs(image))[k], |image|) == None
  {
    ListedSegmentsOk(Phdrs(image), LoadList(Phdrs(image)), |image|);
  }

  lemma ListedSegmentsOk(ph: seq<Phdr>, l: seq<Phdr>, size: u64)
    requires l == LoadList(ph) && AllSegmentsOk(ph, size)
    ensures forall k :: 0 <= k < |l| ==> Loads(l[k]) && SegmentOk(l[k], size) && SegmentError(l[k], size) == None
  {
    forall k | 0 <= k < |l|
      ensures Loads(l[k]) && SegmentOk(l[k], size) && SegmentError(l[k], size) == None
    {
      LoadListMembers(ph, l[k]);
      assert l[k] in ph;
      SegmentErrorMeaning(l[k], size);
    }
  }

  // ----- the meaning of an image -----

  /** The load segments of an image, none if it has no readable table. */
  function Segments(image: Image): (l: seq<Phdr>)
  {
    if HeaderError(image) == None then LoadList(Phdrs(image)) else []
  }

  /** What a loader may rely on about the segments of a valid image. */
  ghost predicate Loadable(image: Image, l: seq<Phdr>, s: Summary)
  {
    && s.loadCount == |l| > 0
    && s.virtualMin < s.virtualMax
    && PairwiseDisjoint(l)
    && forall k :: 0 <= k < |l| ==>
         && l[k].filesz <= l[k].memsz && l[k].offset + l[k].filesz <= |image|
         && s.virtualMin <= l[k].vaddr && l[k].vaddr + l[k].memsz <= s.virtualMax
  }

  lemma ValidIsLoadable(image: Image)
    requires Verdict(image).Ok?
    ensures Loadable(image, Segments(image), Verdict(image).value)
  {
    VerdictMeaning(image);
    LoadedSegmentsOk(image);
    var l := LoadList(Phdrs(image));
    var k :| 0 <= k < |l| && Verdict(image).value.virtualMin == l[k].vaddr;
  }

  /** The entry point of an accepted image lies in a load segment (type 1) that is marked
      executable (flag bit 0). */
  lemma EntryIsExecutable(image: Image)
    requires Verdict(image).Ok?
    ensures exists k :: 0 <= k < |Segments(image)| && Segments(image)[k].ptype == 1 && Segments(image)[k].flags % 2 == 1
                        && Segments(image)[k].vaddr <= Entry(image) < Segments(image)[k].vaddr + Segments(image)[k].memsz
  {
    VerdictMeaning(image);
    LoadedSegmentsOk(image);
    var l := LoadList(Phdrs(image));
    var k :| 0 <= k < |l| && EntersExecutable(l[k], Entry(image));
    assert l == Segments(image) && l[k].ptype == 1;
  }

  /** Enumeration as a loader uses it: after validation, index i yields segment i. */
  method NthSegment(image: Image, i: u16) returns (r: Result<Segment, Status>)
    ensures Verdict(image).Ok? && i < |Segments(image)| ==> r == Ok(ToSegment(Segments(image)[i]))
  {
    r := LoadSegment(image, i);
    if Verdict(image).Ok? && i < |Segments(image)| {
      VerdictMeaning(image);
      LoadedSegmentsOk(image);
    }
  }

  /** The i-th load segment, if it and all before it are valid. */
  function SegmentAt(image: Image, i: nat): (r: Option<Segment>)
  {
    var l := Segments(image);
    if i < |l| && forall k :: 0 <= k <= i ==> SegmentError(l[k], |image|) == None then Some(ToSegment(l[i])) else None
  }

  /** josh_elf64_load_segment, for callers that only ask whether it worked. */
  method FindSegment(image: Image, i: u16) returns (r: Option<Segment>)
    ensures r == SegmentAt(image, i)
  {
    var seg := LoadSegment(image, i);
    r := if seg.Ok? then Some(seg.value) else None;
  }

  lemma SegmentAtInside(image: Image, i: nat)
    requires SegmentAt(image, i).Some?
    ensures var s := SegmentAt(image, i).value; s.fileSize <= s.memorySize && s.fileOffset + s.fileSize <= |image|
  {
    SegmentErrorMeaning(Segments(image)[i], |image|);
  }

  lemma ValidSegmentAt(image: Image, i: nat)
    requires Verdict(image).Ok? && i < |Segments(image)|
    ensures SegmentAt(image, i) == Some(ToSegment(Segments(image)[i]))
  {
    VerdictMeaning(image);
    LoadedSegmentsOk(image);
  }

  predicate Covers(p: Phdr, v: int) { p.vaddr <= v < p.vaddr + p.memsz }

  /** The byte a segment puts at an address it covers: file contents, then zeros. */
  function SegmentByte(image: Image, p: Phdr, v: int): (r: u8)
  {
    var at := p.offset + (v - p.vaddr);
    if 0 <= v - p.vaddr < p.filesz && at < |image| then image[at] else 0
  }

  /** The byte the segments put at v, or gap where none of them covers it. */
  function ImageByte(image: Image, l: seq<Phdr>, v: int, gap: u8): (r: u8)
  {
    if l == [] then gap
    else
      var n := |l| - 1;
      if Covers(l[n], v) then SegmentByte(image, l[n], v) else ImageByte(image, l[..n], v, gap)
  }

  /** Because segments are disjoint, the covering one decides, whatever its position. */
  lemma {:induction false} ImageByteOf(image: Image, l: seq<Phdr>, k: nat, v: int, gap: u8)
    requires PairwiseDisjoint(l) && k < |l| && Covers(l[k], v)
    ensures ImageByte(image, l, v, gap) == SegmentByte(image, l[k], v)
  {
    var n := |l| - 1;
    if k < n {
      assert !Overlap(l[k], l[n]);
      assert l[..n][k] == l[k];
      ImageByteOf(image, l[..n], k, v, gap);
    }
  }

  lemma {:induction false} ImageByteGap(image: Image, l: seq<Phdr>, v: int, gap: u8)
    requires forall k :: 0 <= k < |l| ==> !Covers(l[k], v)
    ensures ImageByte(image, l, v, gap) == gap
  {
    if l != [] {
      ImageByteGap(image, l[..|l| - 1], v, gap);
    }
  }

  /** Addresses of segment i are untouched by the segments before it. */
  lemma EarlierSegmentsMiss(image: Image, l: seq<Phdr>, i: nat, v: int, gap: u8)
    requires PairwiseDisjoint(l) && i < |l| && Covers(l[i], v)
    ensures ImageByte(image, l[..i], v, gap) == gap
  {
    forall k | 0 <= k < i
      ensures !Covers(l[..i][k], v)
    {
      assert !Overlap(l[k], l[i]);
    }
    ImageByteGap(image, l[..i], v, gap);
  }
}
