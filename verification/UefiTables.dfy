/** build_tables of the UEFI loader: identity map of the low 4 GiB in 2 MiB pages, plus
    the kernel in 4 KiB pages, out of one pool. */
module UefiTables {
  import opened Words
  import opened Bits
  import opened Paging
  import opened UefiPaging

  const FOUR_GIB := 0x1_0000_0000

  function PagesFor(n: nat): (r: nat) { (n + 4095) / 4096 }

  /** The page in which an address lies. */
  function PageFloor(v: u64): (r: u64) { v - v % 4096 }

  /** The translation build_tables is for, after the first n kernel pages. */
  function Intended(kp: u64, virtualMin: u64, n: nat, w: u64): (r: Translation)
  {
    var start := PageFloor(virtualMin);
    if w < FOUR_GIB then Phys(w)
    else if start <= w < start + 4096 * n then Phys(kp + (w - start))
    else Fault
  }

  // ----- the identity map -----

  /** Root, one level-3 table and four tables of 2 MiB entries, as laid out by the loop. */
  ghost predicate IdentityEntries(mem: seq<u64>, base: u64)
  {
    && LowEntries(mem, base)
    && (forall k :: 0 <= k < 512 ==> mem[k] == if k == 0 then base + 4096 + 3 else 0)
  }

  ghost predicate LowEntries(mem: seq<u64>, base: u64)
  {
    && |mem| >= 3072
    && (forall k :: 512 <= k < 1024 ==> mem[k] == if k < 516 then base + 4096 * (k - 510) + 3 else 0)
    && (forall k :: 1024 <= k < 3072 ==> mem[k] == HUGE_PAGE_SIZE * (k - 1024) + 0x83)
  }

  const IDENTITY_SHAPE: Shape := Shape([4, 3, 2, 2, 2, 2], [(0, 0), (0, 0), (1, 0), (1, 1), (1, 2), (1, 3)])
  const IDENTITY_HUGE: set<nat> := {2, 3, 4, 5}

  lemma IdentityRoot(mem: seq<u64>, base: u64, i: Index)
    requires Placed(base, |mem|) && IdentityEntries(mem, base)
    ensures if i == 0
            then Present(At(mem, 0, i)) && !Huge(At(mem, 0, i)) && Rw(At(mem, 0, i)) && Link(mem, base, 0, i) == Some(1)
            else !Present(At(mem, 0, i)) && Link(mem, base, 0, i) == None
  {
    assert At(mem, 0, i) == mem[i];
    PointeeOfLink(base, |mem| / 512, 1);
  }

  lemma IdentityUpper(mem: seq<u64>, base: u64, i: Index)
    requires Placed(base, |mem|) && LowEntries(mem, base)
    ensures if i < 4
            then Present(At(mem, 1, i)) && !Huge(At(mem, 1, i)) && Rw(At(mem, 1, i)) && Link(mem, base, 1, i) == Some(2 + i)
            else !Present(At(mem, 1, i)) && Link(mem, base, 1, i) == None
  {
    assert At(mem, 1, i) == mem[512 + i];
    if i < 4 {
      PointeeOfLink(base, |mem| / 512, 2 + i);
    }
  }

  lemma IdentityHuge(mem: seq<u64>, base: u64, g: nat, i: Index)
    requires g < 4 && LowEntries(mem, base)
    ensures var e := At(mem, 2 + g, i);
            Present(e) && Huge(e) && Rw(e) && e / 0x20_0000 % 0x8000_0000 * 0x20_0000 == 0x20_0000 * (512 * g + i)
  {
    var k := 1024 + (512 * g + i);
    assert At(mem, 2 + g, i) == mem[k];
    HugeBits(512 * g + i);
  }

  lemma HugeBits(x: nat)
    requires x < 0x8000_0000
    ensures var e := HUGE_PAGE_SIZE * x + 0x83;
            Present(e) && Huge(e) && Rw(e) && e / 0x20_0000 % 0x8000_0000 * 0x20_0000 == 0x20_0000 * x
  {
    HugeFrame(x);
    HugeFlag(x);
    OddTwice(0x10_0000 * x + 0x41);
    HugeRw(x);
  }

  lemma HugeRw(x: nat)
    ensures (0x20_0000 * x + 0x83) / 2 % 2 == 1
  {
    DivUnique(0x20_0000 * x + 0x83, 2, 0x10_0000 * x + 0x41, 1);
    OddTwice(0x8_0000 * x + 0x20);
  }

  lemma HugeFrame(x: nat)
    ensures (0x20_0000 * x + 0x83) / 0x20_0000 == x
  {
  }

  lemma HugeFlag(x: nat)
    ensures (0x20_0000 * x + 0x83) / PAGE_PS % 2 == 1
  {
    assert (0x20_0000 * x + 0x83) / 0x80 == 0x4000 * x + 1;
    OddTwice(0x2000 * x);
  }

  lemma OddTwice(y: int)
    ensures (2 * y + 1) % 2 == 1
  {
  }

  lemma IdentityTree(mem: seq<u64>, base: u64)
    requires Placed(base, |mem|) && IdentityEntries(mem, base)
    ensures Tree(mem, base, IDENTITY_SHAPE, IDENTITY_HUGE)
  {
    forall t, i | 0 <= t < 6 && 0 <= i < 512
      ensures SlotOk(mem, base, IDENTITY_SHAPE, IDENTITY_HUGE, t, i)
    {
      if t == 0 {
        IdentityRoot(mem, base, i);
      } else if t == 1 {
        IdentityUpper(mem, base, i);
      } else {
        IdentityHuge(mem, base, t - 2, i);
      }
    }
  }

  lemma IdentityWalk(mem: seq<u64>, base: u64, w: u64)
    requires Placed(base, |mem|) && IdentityEntries(mem, base)
    ensures Walk(mem, base, w) == if w < FOUR_GIB then Phys(w) else Fault
  {
    if Canonical(w) {
      SplitMeaning(w);
      IdentityRoot(mem, base, Split(w).i4);
      if Split(w).i4 == 0 {
        LowWalk(mem, base, w);
      }
    }
  }

  lemma LowWalk(mem: seq<u64>, base: u64, w: u64)
    requires Placed(base, |mem|) && LowEntries(mem, base)
    requires Canonical(w) && Split(w).i4 == 0
    ensures Walk3(mem, base, 1, Split(w)) == if w < FOUR_GIB then Phys(w) else Fault
  {
    var v := Split(w);
    SplitMeaning(w);
    LowHalf(w);
    IdentityUpper(mem, base, v.i3);
    if v.i3 < 4 {
      IdentityHuge(mem, base, v.i3, v.i2);
      Recompose(w);
    }
  }

  lemma LowHalf(w: u64)
    requires Canonical(w) && w / 0x80_0000_0000 % 512 == 0
    ensures w < 0x80_0000_0000 && w / 0x4000_0000 % 512 == w / 0x4000_0000
  {
  }

  lemma Recompose(w: u64)
    requires w / 0x4000_0000 < 4
    ensures w == 0x4000_0000 * (w / 0x4000_0000) + 0x20_0000 * (w / 0x20_0000 % 512) + 0x1000 * (w / 0x1000 % 512) + w % 0x1000
  {
    var p := w / 0x1000;
    var q := p / 512;
    assert w / 0x20_0000 == q && w / 0x4000_0000 == q / 512;
    assert w == 0x1000 * p + w % 0x1000 && p == 512 * q + p % 512 && q == 512 * (q / 512) + q % 512;
  }

  /** The first part of build_tables. */
  method BuildIdentity(pool: PagePool)
    requires pool.used == 0 && pool.mem.Length == 512 * POOL_PAGES && Placed(pool.base, 512 * POOL_PAGES)
    modifies pool, pool.mem
    ensures pool.Valid() && pool.used == 6 && pool.shape == IDENTITY_SHAPE && pool.huge == IDENTITY_HUGE
    ensures forall w: u64 :: Walk(pool.mem[..], pool.base, w) == if w < FOUR_GIB then Phys(w) else Fault
  {
    WriteIdentity(pool);
    ghost var m := pool.mem[..];
    IdentityTree(m, pool.base);
    pool.shape := IDENTITY_SHAPE;
    pool.huge := IDENTITY_HUGE;
    forall w: u64
      ensures Walk(m, pool.base, w) == if w < FOUR_GIB then Phys(w) else Fault
    {
      IdentityWalk(m, pool.base, w);
    }
  }

  /** The loop that fills one table with consecutive 2 MiB pages. */
  method FillHuge(mem: array<u64>, t: nat, first: nat)
    requires 512 * t + 512 <= mem.Length && first < 0x1000
    modifies mem
    ensures forall k :: 512 * t <= k < 512 * t + 512 ==> mem[k] == HUGE_PAGE_SIZE * (k - 512 * t + first) + 0x83
    ensures forall k :: 0 <= k < mem.Length && !(512 * t <= k < 512 * t + 512) ==> mem[k] == old(mem[k])
  {
    for i := 0 to 512
      invariant forall k :: 512 * t <= k < 512 * t + i ==> mem[k] == HUGE_PAGE_SIZE * (k - 512 * t + first) + 0x83
      invariant forall k :: 0 <= k < mem.Length && !(512 * t <= k < 512 * t + i) ==> mem[k] == old(mem[k])
    {
      mem[512 * t + i] := HugeEntry((first + i) * HUGE_PAGE_SIZE);
    }
  }

  /** The directory of one more GiB. */
  method IdentityRound(pool: PagePool, g: nat)
    requires g < IDENTITY_GIB && pool.used == 2 + g && pool.mem.Length == 512 * POOL_PAGES
             && Placed(pool.base, 512 * POOL_PAGES)
    modifies pool`used, pool.mem
    ensures pool.used == 3 + g && pool.mem[512 + g] == pool.base + 4096 * (2 + g) + 3
    ensures forall k :: 1024 + 512 * g <= k < 1536 + 512 * g ==> pool.mem[k] == HUGE_PAGE_SIZE * (k - 1024) + 0x83
    ensures forall k :: 0 <= k < 1024 + 512 * g && k != 512 + g ==> pool.mem[k] == old(pool.mem[k])
  {
    var pd := pool.Alloc();
    pool.mem[512 + g] := LinkEntry(pool.base + 4096 * pd.value);
    FillHuge(pool.mem, pd.value, g * 512);
  }

  method WriteIdentity(pool: PagePool)
    requires pool.used == 0 && pool.mem.Length == 512 * POOL_PAGES && Placed(pool.base, 512 * POOL_PAGES)
    modifies pool`used, pool.mem
    ensures pool.used == 6 && IdentityEntries(pool.mem[..], pool.base)
  {
    var mem, base := pool.mem, pool.base;
    var pml4 := pool.Alloc();
    var pdpt := pool.Alloc();
    mem[0] := LinkEntry(base + 4096 * pdpt.value);
    for g := 0 to IDENTITY_GIB
      invariant pool.used == 2 + g
      invariant forall k :: 0 <= k < 512 ==> mem[k] == if k == 0 then base + 4096 + 3 else 0
      invariant forall k :: 512 <= k < 1024 ==> mem[k] == if k < 512 + g then base + 4096 * (k - 510) + 3 else 0
      invariant forall k :: 1024 <= k < 1024 + 512 * g ==> mem[k] == HUGE_PAGE_SIZE * (k - 1024) + 0x83
    {
      IdentityRound(pool, g);
    }
  }

  // ----- the kernel pages -----

  /** Kernel addresses share the last root slot, and there pages are told apart in full. */
  lemma HighSlot(v: u64)
    requires v >= KERNEL_VIRT_FLOOR
    ensures v / 0x80_0000_0000 == 0x1ff_ffff && Split(v).i4 == 511
  {
    TopSlot(v);
    SplitMeaning(v);
  }

  lemma TopSlot(v: u64)
    requires v >= KERNEL_VIRT_FLOOR
    ensures v / 0x80_0000_0000 == 0x1ff_ffff && v / 0x80_0000_0000 % 512 == 511
  {
  }

  lemma HighPage(v: u64, w: u64)
    requires v >= KERNEL_VIRT_FLOOR && Canonical(w)
    ensures SamePage(w, v) <==> w / 4096 == v / 4096
  {
    HighPageNumbers(v / 4096, w / 4096);
  }

  lemma HighPageNumbers(p: nat, q: nat)
    requires 0xf_ffff_fff8_0000 <= p < 0x10_0000_0000_0000
    requires q < 0x8_0000_0000 || 0xf_fff8_0000_0000 <= q < 0x10_0000_0000_0000
    ensures q % 0x10_0000_0000 == p % 0x10_0000_0000 <==> q == p
  {
  }

  /** Tables below the last root slot never hold large pages. */
  lemma NoHugeInKernel(mem: seq<u64>, base: u64, s: Shape, v: Va)
    requires Tree(mem, base, s, IDENTITY_HUGE) && |s.level| >= 6
    requires s.level[..6] == IDENTITY_SHAPE.level && s.parent[..6] == IDENTITY_SHAPE.parent
    requires v.i4 == 511
    ensures !MeetsHuge(mem, base, v)
  {
    var a := Link(mem, base, 0, v.i4);
    if a.Some? {
      assert SlotOk(mem, base, s, IDENTITY_HUGE, 0, v.i4) && SlotOk(mem, base, s, IDENTITY_HUGE, a.value, v.i3);
      assert s.parent[1] == s.parent[..6][1] && forall t :: 2 <= t < 6 ==> s.level[t] == s.level[..6][t] == 2;
      assert a.value != 1 && a.value !in IDENTITY_HUGE;
      var b := Link(mem, base, a.value, v.i3);
      if b.Some? {
        assert SlotOk(mem, base, s, IDENTITY_HUGE, b.value, v.i2);
        assert forall t :: 2 <= t < 6 ==> s.parent[t] == s.parent[..6][t] == (1, t - 2);
        assert b.value !in IDENTITY_HUGE;
      }
    }
  }

  /** A page right after a mapped one lacks a table only when it opens a new 2 MiB or
      1 GiB region. */
  lemma NextMissing(mem: seq<u64>, base: u64, v: u64, v': u64)
    requires 512 <= |mem| && KERNEL_VIRT_FLOOR <= v && v' == v + 4096
    requires Missing(mem, base, Split(v)) == 0
    ensures Missing(mem, base, Split(v')) <= Opened(v, v')
  {
    NextIndices(v, v');
    MissingByPrefix(mem, base, Split(v), Split(v'));
  }

  lemma MissingByPrefix(mem: seq<u64>, base: u64, a: Va, b: Va)
    requires 512 <= |mem| && Missing(mem, base, a) == 0 && a.i4 == b.i4
    ensures Missing(mem, base, b) <= if a.i3 != b.i3 then 2 else if a.i2 != b.i2 then 1 else 0
  {
  }

  lemma IndexMoves(v: u64, v': u64, size: nat)
    requires v <= v' && (size == 0x4000_0000 || size == 0x20_0000)
    ensures v' / size >= v / size && (IndexAt(v, size) != IndexAt(v', size) ==> v' / size > v / size)
  {
    IndexMeaning(v, size);
    IndexMeaning(v', size);
  }

  lemma NextIndices(v: u64, v': u64)
    requires KERNEL_VIRT_FLOOR <= v && v' == v + 4096
    ensures var a, b := Split(v), Split(v');
            && a.i4 == b.i4
            && (a.i3 != b.i3 ==> v' / 0x4000_0000 > v / 0x4000_0000 && v' / 0x20_0000 > v / 0x20_0000)
            && (a.i2 != b.i2 ==> v' / 0x20_0000 > v / 0x20_0000)
            && v' / 0x4000_0000 >= v / 0x4000_0000 && v' / 0x20_0000 >= v / 0x20_0000
  {
    TopIndex(v);
    TopIndex(v');
    IndexMoves(v, v', 0x4000_0000);
    IndexMoves(v, v', 0x20_0000);
    RegionsGrow(v, v');
  }

  lemma TopIndex(v: u64)
    requires v >= KERNEL_VIRT_FLOOR
    ensures Split(v).i4 == 511
  {
    HighSlot(v);
  }

  lemma RegionsGrow(v: u64, v': u64)
    requires v' == v + 4096
    ensures v' / 0x4000_0000 >= v / 0x4000_0000 && v' / 0x20_0000 >= v / 0x20_0000
    ensures v' / 0x4000_0000 > v / 0x4000_0000 ==> v' / 0x20_0000 > v / 0x20_0000
  {
    assert v / 0x20_0000 / 512 == v / 0x4000_0000;
    assert v' / 0x20_0000 / 512 == v' / 0x4000_0000;
  }

  lemma PageCount(virtualMin: u64, virtualMax: u64)
    requires KERNEL_VIRT_FLOOR <= virtualMin < virtualMax <= virtualMin + MAX_KERNEL_BYTES
    ensures 0 < PagesFor(virtualMax - virtualMin)
    ensures 4096 * (PagesFor(virtualMax - virtualMin) - 1) < virtualMax - virtualMin
  {
  }

  /** One more kernel page extends the intended translation by one page. */
  lemma IntendedStep(kp: u64, virtualMin: u64, i: nat, page: u64, ph: u64, w: u64)
    requires kp % 4096 == 0 && ph == kp + 4096 * i && ph + 4096 <= FOUR_GIB
    requires KERNEL_VIRT_FLOOR <= virtualMin && page == virtualMin + 4096 * i
    ensures Intended(kp, virtualMin, i + 1, w) ==
            if Canonical(w) && SamePage(w, page) then Phys(FrameOf(ph) + w % 0x1000) else Intended(kp, virtualMin, i, w)
  {
    PageSteps(kp, i);
    PageSteps(virtualMin, i);
    FrameOfAligned(ph);
    if Canonical(w) {
      HighPage(page, w);
      PageRange(page, w);
    }
  }

  lemma PageSteps(a: nat, i: nat)
    ensures (a + 4096 * i) % 4096 == a % 4096
  {
    DivUnique(a + 4096 * i, 4096, a / 4096 + i, a % 4096);
  }

  lemma PageRange(v: u64, w: u64)
    ensures w / 4096 == v / 4096 <==> PageFloor(v) <= w < PageFloor(v) + 4096
    ensures w / 4096 == v / 4096 ==> w == PageFloor(v) + w % 4096
  {
  }

  lemma FrameOfAligned(a: u64)
    requires a % 4096 == 0 && a < FOUR_GIB
    ensures FrameOf(a) == a
  {
    FrameMask(a);
    assert a / 4096 < 0x100_0000_0000;
  }

  /** The tables in use once the page of v has been mapped, counted by the regions opened. */
  ghost predicate WithinBudget(used: nat, virtualMin: u64, v: u64)
  {
    used <= 9 + (v / 0x4000_0000 - virtualMin / 0x4000_0000) + (v / 0x20_0000 - virtualMin / 0x20_0000)
  }

  /** A span of at most 64 MiB opens at most two 1 GiB and thirty-three 2 MiB regions. */
  lemma BudgetBound(used: nat, virtualMin: u64, v: u64)
    requires WithinBudget(used, virtualMin, v) && virtualMin <= v < virtualMin + MAX_KERNEL_BYTES
    ensures used <= 42
  {
    var a, b := virtualMin / 0x20_0000, v / 0x20_0000;
    assert virtualMin == 0x20_0000 * a + virtualMin % 0x20_0000 && v == 0x20_0000 * b + v % 0x20_0000;
    assert b - a <= 32;
    var c, d := virtualMin / 0x4000_0000, v / 0x4000_0000;
    assert virtualMin == 0x4000_0000 * c + virtualMin % 0x4000_0000 && v == 0x4000_0000 * d + v % 0x4000_0000;
    assert d - c <= 1;
  }

  /** Nothing is missing for the page before, and the tables in use are within its budget. */
  ghost predicate LastLaid(mem: seq<u64>, base: u64, used: nat, virtualMin: u64, page: nat)
    requires 512 <= |mem|
  {
    forall last: u64 {:trigger Split(last)} :: last + 4096 == page ==>
      Missing(mem, base, Split(last)) == 0 && WithinBudget(used, virtualMin, last)
  }

  /** The tables before page is mapped: a tree on top of the identity map, within the
      budget, with nothing missing for the page before. */
  ghost predicate KernelLaid(mem: seq<u64>, base: u64, s: Shape, virtualMin: u64, page: nat)
    requires virtualMin <= page
  {
    && Tree(mem, base, s, IDENTITY_HUGE) && |s.level| >= 6
    && s.level[..6] == IDENTITY_SHAPE.level && s.parent[..6] == IDENTITY_SHAPE.parent
    && (page == virtualMin ==> |s.level| == 6)
    && (page > virtualMin ==> LastLaid(mem, base, |s.level|, virtualMin, page))
  }

  /** Everything the kernel loop of build_tables knows before its round i, for page. */
  ghost predicate KernelMapped(mem: seq<u64>, base: u64, s: Shape, kp: u64, virtualMin: u64, i: nat, page: nat)
    requires virtualMin <= page
  {
    KernelLaid(mem, base, s, virtualMin, page) && Translates(mem, base, kp, virtualMin, i)
  }

  ghost predicate Translates(mem: seq<u64>, base: u64, kp: u64, virtualMin: u64, n: nat)
    requires 512 <= |mem|
  {
    forall w: u64 {:trigger Intended(kp, virtualMin, n, w)} :: Walk(mem, base, w) == Intended(kp, virtualMin, n, w)
  }

  /** No large page is in the way of the next page. */
  lemma NextPageClear(mem: seq<u64>, base: u64, s: Shape, page: u64)
    requires KERNEL_VIRT_FLOOR <= page && Tree(mem, base, s, IDENTITY_HUGE) && |s.level| >= 6
    requires s.level[..6] == IDENTITY_SHAPE.level && s.parent[..6] == IDENTITY_SHAPE.parent
    ensures !MeetsHuge(mem, base, Split(page))
  {
    HighSlot(page);
    NoHugeInKernel(mem, base, s, Split(page));
  }

  /** The pool can supply the tables the next page lacks. */
  lemma NextPageFits(mem: seq<u64>, base: u64, used: nat, virtualMin: u64, last: u64, page: u64)
    requires 512 <= |mem| && KERNEL_VIRT_FLOOR <= virtualMin <= page < virtualMin + MAX_KERNEL_BYTES
             && page == last + 4096
    requires page == virtualMin ==> used == 6
    requires page > virtualMin ==>
               virtualMin <= last && Missing(mem, base, Split(last)) == 0 && WithinBudget(used, virtualMin, last)
    ensures var missing := Missing(mem, base, Split(page));
            WithinBudget(used + missing, virtualMin, page) && used + missing <= 42
  {
    if page > virtualMin {
      NextBudget(mem, base, used, virtualMin, last, page);
    } else {
      FirstBudget(mem, base, page);
    }
  }

  /** The next page can always be mapped. */
  lemma NextPageReady(mem: seq<u64>, base: u64, s: Shape, virtualMin: u64, last: u64, page: u64)
    requires KERNEL_VIRT_FLOOR <= virtualMin <= page < virtualMin + MAX_KERNEL_BYTES && page == last + 4096
    requires KernelLaid(mem, base, s, virtualMin, page) && (page > virtualMin ==> virtualMin <= last)
    ensures !MeetsHuge(mem, base, Split(page))
    ensures var missing := Missing(mem, base, Split(page));
            WithinBudget(|s.level| + missing, virtualMin, page) && |s.level| + missing <= 42
  {
    NextPageClear(mem, base, s, page);
    NextPageFits(mem, base, |s.level|, virtualMin, last, page);
  }

  /** The tables a page adds to the budget. */
  lemma NextBudget(mem: seq<u64>, base: u64, used: nat, virtualMin: u64, v: u64, v': u64)
    requires 512 <= |mem| && KERNEL_VIRT_FLOOR <= v && v' == v + 4096
    requires KERNEL_VIRT_FLOOR <= virtualMin <= v' < virtualMin + MAX_KERNEL_BYTES
    requires Missing(mem, base, Split(v)) == 0 && WithinBudget(used, virtualMin, v)
    ensures var missing := Missing(mem, base, Split(v'));
            WithinBudget(used + missing, virtualMin, v') && used + missing <= 42
  {
    var missing := Missing(mem, base, Split(v'));
    NextMissing(mem, base, v, v');
    BudgetAdds(used, missing, virtualMin, v, v');
    BudgetBound(used + missing, virtualMin, v');
  }

  lemma FirstBudget(mem: seq<u64>, base: u64, v: u64)
    requires 512 <= |mem|
    ensures var missing := Missing(mem, base, Split(v)); WithinBudget(6 + missing, v, v) && 6 + missing <= 42
  {
    BudgetStarts(Missing(mem, base, Split(v)), v);
  }

  /** How many 1 GiB and 2 MiB regions lie between two addresses. */
  function Opened(v: u64, v': u64): (n: int) { (v' / 0x4000_0000 - v / 0x4000_0000) + (v' / 0x20_0000 - v / 0x20_0000) }

  lemma BudgetStarts(missing: nat, v: u64)
    requires missing <= 3
    ensures WithinBudget(6 + missing, v, v)
  {
  }

  lemma BudgetAdds(used: nat, missing: nat, virtualMin: u64, v: u64, v': u64)
    requires WithinBudget(used, virtualMin, v)
    requires missing <= Opened(v, v')
    ensures WithinBudget(used + missing, virtualMin, v')
  {
  }

  /** Mapping a page lays one more page. */
  lemma NextPageLaid(m: seq<u64>, m': seq<u64>, base: u64, s: Shape, s': Shape, virtualMin: u64, page: u64)
    requires virtualMin <= page && KernelLaid(m, base, s, virtualMin, page)
    requires Tree(m', base, s', IDENTITY_HUGE) && |s'.level| >= |s.level|
    requires s'.level[..|s.level|] == s.level && s'.parent[..|s.level|] == s.parent
    requires Missing(m', base, Split(page)) == 0 && WithinBudget(|s'.level|, virtualMin, page)
    ensures KernelLaid(m', base, s', virtualMin, page + 4096)
  {
    assert s'.level[..|s.level|][..6] == s'.level[..6] && s'.parent[..|s.level|][..6] == s'.parent[..6];
  }

  /** Redirecting page i translates one more page. */
  lemma NextPageTranslates(m: seq<u64>, m': seq<u64>, base: u64, kp: u64, virtualMin: u64, i: nat, page: u64, ph: u64)
    requires KERNEL_VIRT_FLOOR <= virtualMin && page == virtualMin + 4096 * i
    requires kp % 4096 == 0 && ph == kp + 4096 * i && ph + 4096 <= FOUR_GIB
    requires 512 <= |m| == |m'| && Translates(m, base, kp, virtualMin, i) && Redirects(m, m', base, page, ph)
    ensures Translates(m', base, kp, virtualMin, i + 1)
  {
    forall w: u64
      ensures Walk(m', base, w) == Intended(kp, virtualMin, i + 1, w)
    {
      assert Walk(m, base, w) == Intended(kp, virtualMin, i, w);
      IntendedStep(kp, virtualMin, i, page, ph, w);
    }
  }

  /** One round of the kernel loop. */
  method MapPage(pool: PagePool, ghost kp: u64, ghost virtualMin: u64, ghost i: nat, page: u64, ph: u64)
    returns (ok: bool)
    requires KERNEL_VIRT_FLOOR <= virtualMin && page == virtualMin + 4096 * i && 4096 * i < MAX_KERNEL_BYTES
    requires kp % 4096 == 0 && ph == kp + 4096 * i && ph + 4096 <= FOUR_GIB
    requires pool.Valid() && pool.mem.Length == 512 * POOL_PAGES && pool.huge == IDENTITY_HUGE
    requires KernelMapped(pool.mem[..], pool.base, pool.shape, kp, virtualMin, i, page)
    modifies pool`used, pool`shape, pool.mem
    ensures pool.Valid() && ok
    ensures KernelMapped(pool.mem[..], pool.base, pool.shape, kp, virtualMin, i + 1, page + 4096)
  {
    ghost var m := pool.mem[..];
    ok := LayPage(pool, virtualMin, page, ph);
    NextPageTranslates(m, pool.mem[..], pool.base, kp, virtualMin, i, page, ph);
  }

  method LayPage(pool: PagePool, ghost virtualMin: u64, page: u64, ph: u64) returns (ok: bool)
    requires KERNEL_VIRT_FLOOR <= virtualMin <= page < virtualMin + MAX_KERNEL_BYTES
             && (page > virtualMin ==> virtualMin <= page - 4096)
    requires pool.Valid() && pool.mem.Length == 512 * POOL_PAGES && pool.huge == IDENTITY_HUGE
    requires KernelLaid(pool.mem[..], pool.base, pool.shape, virtualMin, page)
    modifies pool`used, pool`shape, pool.mem
    ensures pool.Valid() && ok && KernelLaid(pool.mem[..], pool.base, pool.shape, virtualMin, page + 4096)
    ensures Redirects(old(pool.mem[..]), pool.mem[..], pool.base, page, ph)
  {
    ghost var m, s := pool.mem[..], pool.shape;
    NextPageReady(m, pool.base, s, virtualMin, page - 4096, page);
    ok := pool.Map4K(page, ph);
    NextPageLaid(m, pool.mem[..], pool.base, s, pool.shape, virtualMin, page);
  }

  /** The state of the loop after i rounds. */
  ghost predicate MappedAfter(mem: seq<u64>, base: u64, s: Shape, kp: u64, virtualMin: u64, i: nat)
  {
    KernelMapped(mem, base, s, kp, virtualMin, i, virtualMin + 4096 * i)
  }

  // The loop only passes its state on, so it holds it as a function value.

  type PageInv = (seq<u64>, Shape, nat) -> bool

  ghost predicate Means(inv: PageInv, base: u64, kp: u64, virtualMin: u64)
  {
    forall m: seq<u64>, s: Shape, i: nat {:trigger MappedAfter(m, base, s, kp, virtualMin, i)} ::
      inv(m, s, i) == MappedAfter(m, base, s, kp, virtualMin, i)
  }

  method MapRound(pool: PagePool, kp: u64, virtualMin: u64, i: nat, ghost inv: PageInv) returns (ok: bool)
    requires KERNEL_VIRT_FLOOR <= virtualMin && virtualMin + 4096 * i < TWO_64 && 4096 * i < MAX_KERNEL_BYTES
    requires kp % 4096 == 0 && kp + 4096 * i + 4096 <= FOUR_GIB
    requires pool.Valid() && pool.mem.Length == 512 * POOL_PAGES && pool.huge == IDENTITY_HUGE
    requires Means(inv, pool.base, kp, virtualMin) && inv(pool.mem[..], pool.shape, i)
    modifies pool`used, pool`shape, pool.mem
    ensures pool.Valid() && ok && inv(pool.mem[..], pool.shape, i + 1)
  {
    var page, ph := virtualMin + 4096 * i, kp + 4096 * i;
    FromInv(pool.mem[..], pool.base, pool.shape, kp, virtualMin, i, page, inv);
    ok := MapPage(pool, kp, virtualMin, i, page, ph);
    ToInv(pool.mem[..], pool.base, pool.shape, kp, virtualMin, i, page, inv);
  }

  lemma FromInv(mem: seq<u64>, base: u64, s: Shape, kp: u64, virtualMin: u64, i: nat, page: u64, inv: PageInv)
    requires Means(inv, base, kp, virtualMin) && inv(mem, s, i) && page == virtualMin + 4096 * i
    ensures KernelMapped(mem, base, s, kp, virtualMin, i, page)
  {
    assert MappedAfter(mem, base, s, kp, virtualMin, i);
  }

  lemma ToInv(mem: seq<u64>, base: u64, s: Shape, kp: u64, virtualMin: u64, i: nat, page: u64, inv: PageInv)
    requires Means(inv, base, kp, virtualMin) && page == virtualMin + 4096 * i
    requires KernelMapped(mem, base, s, kp, virtualMin, i + 1, page + 4096)
    ensures inv(mem, s, i + 1)
  {
    SamePageAddress(mem, base, s, kp, virtualMin, i, page);
  }

  lemma SamePageAddress(mem: seq<u64>, base: u64, s: Shape, kp: u64, virtualMin: u64, i: nat, page: u64)
    requires page == virtualMin + 4096 * i && KernelMapped(mem, base, s, kp, virtualMin, i + 1, page + 4096)
    ensures MappedAfter(mem, base, s, kp, virtualMin, i + 1)
  {
    assert page + 4096 == virtualMin + 4096 * (i + 1);
  }

  method MapPages(pool: PagePool, kp: u64, virtualMin: u64, pages: nat, ghost inv: PageInv) returns (ok: bool)
    requires KERNEL_VIRT_FLOOR <= virtualMin && virtualMin + 4096 * (pages - 1) < TWO_64
             && 4096 * (pages - 1) < MAX_KERNEL_BYTES
    requires kp % 4096 == 0 && kp + 4096 * pages <= FOUR_GIB
    requires pool.Valid() && pool.mem.Length == 512 * POOL_PAGES && pool.huge == IDENTITY_HUGE
    requires Means(inv, pool.base, kp, virtualMin) && inv(pool.mem[..], pool.shape, 0)
    modifies pool`used, pool`shape, pool.mem
    ensures pool.Valid() && ok && inv(pool.mem[..], pool.shape, pages)
  {
    for i := 0 to pages
      invariant pool.Valid() && inv(pool.mem[..], pool.shape, i)
    {
      var mapped := MapRound(pool, kp, virtualMin, i, inv);
      if !mapped {
        return false;
      }
    }
    ok := true;
  }

  /** The kernel loop of build_tables. For every span the loader accepts it succeeds and
      stays within 42 of the 48 pages. */
  method MapKernel(pool: PagePool, kp: u64, virtualMin: u64, virtualMax: u64) returns (ok: bool)
    requires KERNEL_VIRT_FLOOR <= virtualMin < virtualMax <= virtualMin + MAX_KERNEL_BYTES
    requires pool.Valid() && pool.mem.Length == 512 * POOL_PAGES && pool.huge == IDENTITY_HUGE
    requires MappedAfter(pool.mem[..], pool.base, pool.shape, kp, virtualMin, 0)
    requires kp % 4096 == 0 && kp + 4096 * PagesFor(virtualMax - virtualMin) <= FOUR_GIB
    modifies pool`used, pool`shape, pool.mem
    ensures pool.Valid() && ok && pool.used <= 42
    ensures Translates(pool.mem[..], pool.base, kp, virtualMin, PagesFor(virtualMax - virtualMin))
  {
    var pages := PagesFor(virtualMax - virtualMin);
    PageCount(virtualMin, virtualMax);
    ghost var base := pool.base;
    ghost var inv: PageInv := (m: seq<u64>, s: Shape, i: nat) => MappedAfter(m, base, s, kp, virtualMin, i);
    ok := MapPages(pool, kp, virtualMin, pages, inv);
    assert inv(pool.mem[..], pool.shape, pages);
    AllMapped(pool.mem[..], base, pool.shape, kp, virtualMin, pages);
  }

  lemma LaidBudget(mem: seq<u64>, base: u64, used: nat, virtualMin: u64, last: u64, page: nat)
    requires 512 <= |mem| && LastLaid(mem, base, used, virtualMin, page) && page == last + 4096
    requires virtualMin <= last < virtualMin + MAX_KERNEL_BYTES
    ensures used <= 42
  {
    assert Missing(mem, base, Split(last)) == 0;
    BudgetBound(used, virtualMin, last);
  }

  lemma AllMapped(mem: seq<u64>, base: u64, s: Shape, kp: u64, virtualMin: u64, pages: nat)
    requires 0 < pages && virtualMin + 4096 * (pages - 1) < TWO_64 && 4096 * (pages - 1) < MAX_KERNEL_BYTES
    requires MappedAfter(mem, base, s, kp, virtualMin, pages)
    ensures |s.level| <= 42 && Translates(mem, base, kp, virtualMin, pages)
  {
    LaidBudget(mem, base, |s.level|, virtualMin, virtualMin + 4096 * (pages - 1), virtualMin + 4096 * pages);
  }

  // ----- build_tables -----

  datatype Handoff = Handoff(root: u64, stack: u64)

  /** build_tables. The firmware's answers to the two page allocations are inputs; every
      other step succeeds, and the resulting translation is stated for every address. */
  method BuildTables(poolAt: Option<u64>, stackAt: Option<u64>, kp: u64, virtualMin: u64, virtualMax: u64)
    returns (r: Option<Handoff>, pool: PagePool?)
    requires KERNEL_VIRT_FLOOR <= virtualMin < virtualMax <= virtualMin + MAX_KERNEL_BYTES
    requires kp % 4096 == 0 && kp + 4096 * PagesFor(virtualMax - virtualMin) <= FOUR_GIB
    requires poolAt.Some? ==> poolAt.value % 4096 == 0 && poolAt.value + 4096 * POOL_PAGES <= FOUR_GIB
    requires stackAt.Some? ==> stackAt.value + 4 * 4096 <= FOUR_GIB
    ensures r.Some? <==> poolAt.Some? && stackAt.Some?
    ensures pool != null <==> poolAt.Some?
    ensures pool != null ==>
              && fresh(pool) && pool.Valid() && pool.base == poolAt.value && pool.used <= 42
              && Writable(pool.mem[..], pool.base)
              && Translates(pool.mem[..], pool.base, kp, virtualMin, PagesFor(virtualMax - virtualMin))
    ensures r.Some? ==> r.value == Handoff(poolAt.value, stackAt.value + 4 * 4096 - 16)
  {
    if poolAt.None? {
      return None, null;
    }
    pool := new PagePool(poolAt.value);
    BuildIdentity(pool);
    NothingMapped(pool.mem[..], pool.base, kp, virtualMin);
    var mapped := MapKernel(pool, kp, virtualMin, virtualMax);
    TreeIsWritable(pool.mem[..], pool.base, pool.shape, pool.huge);
    if !mapped || stackAt.None? {
      return None, pool;
    }
    r := Some(Handoff(pool.base, stackAt.value + 4 * 4096 - 16));
  }

  /** Whatever is translated can be written. */
  ghost predicate Writable(mem: seq<u64>, base: u64)
    requires 512 <= |mem|
  {
    forall w: u64 {:trigger CanWrite(mem, base, w)} :: Walk(mem, base, w).Phys? ==> CanWrite(mem, base, w)
  }

  lemma TreeIsWritable(mem: seq<u64>, base: u64, s: Shape, huge: set<nat>)
    requires Tree(mem, base, s, huge)
    ensures Writable(mem, base)
  {
    forall w: u64 | Walk(mem, base, w).Phys?
      ensures CanWrite(mem, base, w)
    {
      TranslatedIsWritable(mem, base, s, huge, w);
    }
  }

  lemma NothingMapped(mem: seq<u64>, base: u64, kp: u64, virtualMin: u64)
    requires Tree(mem, base, IDENTITY_SHAPE, IDENTITY_HUGE)
    requires forall w: u64 :: Walk(mem, base, w) == if w < FOUR_GIB then Phys(w) else Fault
    ensures MappedAfter(mem, base, IDENTITY_SHAPE, kp, virtualMin, 0)
  {
    var s := IDENTITY_SHAPE;
    assert s.level[..6] == s.level && s.parent[..6] == s.parent;
  }

  /** Every address of the kernel span goes to its own offset of the copy exactly when the
      lowest segment address is page aligned; otherwise it goes virtual_min % 4096 bytes too
      high, or faults at the end of the span. */
  lemma KernelTranslationExact(mem: seq<u64>, base: u64, kp: u64, virtualMin: u64, virtualMax: u64)
    requires 512 <= |mem| && KERNEL_VIRT_FLOOR <= virtualMin < virtualMax
    requires Translates(mem, base, kp, virtualMin, PagesFor(virtualMax - virtualMin))
    ensures (forall v: u64 :: virtualMin <= v < virtualMax ==> Walk(mem, base, v) == Phys(kp + (v - virtualMin)))
       <==> virtualMin % 4096 == 0
  {
    var n := PagesFor(virtualMax - virtualMin);
    assert 4096 * n >= virtualMax - virtualMin;
    if virtualMin % 4096 == 0 {
      forall v: u64 | virtualMin <= v < virtualMax
        ensures Walk(mem, base, v) == Phys(kp + (v - virtualMin))
      {
        assert Walk(mem, base, v) == Intended(kp, virtualMin, n, v);
      }
    } else {
      assert n >= 1;
      assert Walk(mem, base, virtualMin) == Intended(kp, virtualMin, n, virtualMin) == Phys(kp + virtualMin % 4096);
    }
  }
}
