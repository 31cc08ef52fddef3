/** build_page_tables of the BIOS loader: eight tables at fixed addresses, 2 MiB pages. */
module BiosTables {
  import opened Words
  import opened Bits
  import opened Paging
  import opened UefiTables

  const PML4_ADDR := 0x5_0000
  const PDPT_LOW_ADDR := 0x5_1000
  const PD_LOW0_ADDR := 0x5_2000
  const PDPT_HIGH_ADDR := 0x5_6000
  const PD_HIGH_ADDR := 0x5_7000
  const KERNEL_VIRT_BASE := 0xffff_ffff_8000_0000
  const KERNEL_PHYS_BASE := 0x20_0000
  const ONE_GIB := 0x4000_0000

  /** The low 4 GiB map to themselves, 1 GiB from the kernel base maps to physical memory
      from 2 MiB on, and nothing else is mapped. */
  function BiosTranslation(w: u64): (r: Translation)
  {
    if w < FOUR_GIB then Phys(w)
    else if KERNEL_VIRT_BASE <= w < KERNEL_VIRT_BASE + ONE_GIB then Phys(KERNEL_PHYS_BASE + (w - KERNEL_VIRT_BASE))
    else Fault
  }

  /** The two upper tables of the kernel window, at entries 3072 and 3584. */
  ghost predicate HighEntries(mem: seq<u64>)
  {
    && |mem| == 4096
    && (forall k :: 0 <= k < 512 ==> mem[k] == if k == 0 then PDPT_LOW_ADDR + 3 else if k == 511 then PDPT_HIGH_ADDR + 3 else 0)
    && (forall k :: 3072 <= k < 3584 ==> mem[k] == if k == 3582 then PD_HIGH_ADDR + 3 else 0)
    && (forall k :: 3584 <= k < 4096 ==> mem[k] == HUGE_PAGE_SIZE * (k - 3583) + 0x83)
  }

  /** build_page_tables, writing the 0x8000 bytes from PML4_ADDR in place. */
  method BuildPageTables(mem: array<u64>)
    requires mem.Length == 4096
    modifies mem
    ensures forall w: u64 :: Walk(mem[..], PML4_ADDR, w) == BiosTranslation(w)
    ensures Writable(mem[..], PML4_ADDR)
  {
    WriteTables(mem);
    TablesWritable(mem[..]);
    forall w: u64
      ensures Walk(mem[..], PML4_ADDR, w) == BiosTranslation(w)
    {
      TablesWalk(mem[..], w);
    }
  }

  /** All entries in use allow writing. */
  lemma EntriesRw(mem: seq<u64>, k: nat)
    requires LowEntries(mem, PML4_ADDR) && HighEntries(mem) && k < 4096
    ensures Present(mem[k]) ==> Rw(mem[k])
  {
    if 512 <= k < 516 {
      LinkRw(PML4_ADDR / 4096 + (k - 510));
    } else if 1024 <= k < 3072 {
      HugeRw(k - 1024);
    } else if 3584 <= k {
      HugeRw(k - 3583);
    }
  }

  lemma LinkRw(x: nat)
    ensures (4096 * x + 3) / 2 % 2 == 1
  {
    DivUnique(4096 * x + 3, 2, 2048 * x + 1, 1);
    OddTwice(1024 * x);
  }

  lemma TablesWritable(mem: seq<u64>)
    requires LowEntries(mem, PML4_ADDR) && HighEntries(mem)
    ensures Writable(mem, PML4_ADDR)
  {
    forall k | 0 <= k < 4096
      ensures Present(mem[k]) ==> Rw(mem[k])
    {
      EntriesRw(mem, k);
    }
    forall w: u64 | Walk(mem, PML4_ADDR, w).Phys?
      ensures CanWrite(mem, PML4_ADDR, w)
    {
      RwIsWritable(mem, PML4_ADDR, w);
    }
  }

  lemma RwIsWritable(mem: seq<u64>, base: u64, w: u64)
    requires 512 <= |mem| && (forall k :: 0 <= k < |mem| && Present(mem[k]) ==> Rw(mem[k])) && Walk(mem, base, w).Phys?
    ensures CanWrite(mem, base, w)
  {
  }

  method WriteTables(mem: array<u64>)
    requires mem.Length == 4096
    modifies mem
    ensures LowEntries(mem[..], PML4_ADDR) && HighEntries(mem[..])
  {
    for i := 0 to 4096
      invariant forall k :: 0 <= k < i ==> mem[k] == 0
    {
      mem[i] := 0;
    }
    mem[0] := LinkEntry(PDPT_LOW_ADDR);
    WriteLow(mem);
    WriteHigh(mem);
  }

  /** The kernel part of build_page_tables. */
  method WriteHigh(mem: array<u64>)
    requires mem.Length == 4096 && LowEntries(mem[..], PML4_ADDR)
    requires forall k :: 0 <= k < 512 ==> mem[k] == if k == 0 then PDPT_LOW_ADDR + 3 else 0
    requires forall k :: 3072 <= k < 4096 ==> mem[k] == 0
    modifies mem
    ensures LowEntries(mem[..], PML4_ADDR) && HighEntries(mem[..])
  {
    ghost var m := mem[..];
    mem[511] := LinkEntry(PDPT_HIGH_ADDR);
    mem[3072 + 510] := LinkEntry(PD_HIGH_ADDR);
    FillHuge(mem, 7, KERNEL_PHYS_BASE / HUGE_PAGE_SIZE);
    LowEntriesKept(m, mem[..]);
  }

  lemma LowEntriesKept(m: seq<u64>, m': seq<u64>)
    requires LowEntries(m, PML4_ADDR) && |m'| == |m| && forall k :: 512 <= k < 3072 ==> m'[k] == m[k]
    ensures LowEntries(m', PML4_ADDR)
  {
  }

  /** The identity part of build_page_tables. */
  method WriteLow(mem: array<u64>)
    requires mem.Length == 4096 && forall k :: 512 <= k < 4096 ==> mem[k] == 0
    modifies mem
    ensures LowEntries(mem[..], PML4_ADDR)
    ensures forall k :: 0 <= k < 512 ==> mem[k] == old(mem[k])
    ensures forall k :: 3072 <= k < 4096 ==> mem[k] == 0
  {
    for gib := 0 to 4
      invariant forall k :: 0 <= k < 512 ==> mem[k] == old(mem[k])
      invariant forall k :: 3072 <= k < 4096 ==> mem[k] == 0
      invariant LowPart(mem[..], gib)
    {
      ghost var m := mem[..];
      mem[512 + gib] := LinkEntry(PD_LOW0_ADDR + gib * 0x1000);
      FillHuge(mem, 2 + gib, gib * 512);
      LowPartGrows(m, mem[..], gib);
    }
  }

  /** The first gib level-2 tables of the identity map, and the links to them. */
  ghost predicate LowPart(mem: seq<u64>, gib: nat)
    requires |mem| == 4096 && gib <= 4
  {
    && (forall k :: 512 <= k < 1024 ==> mem[k] == if k < 512 + gib then PML4_ADDR + 4096 * (k - 510) + 3 else 0)
    && (forall k :: 1024 <= k < 1024 + 512 * gib ==> mem[k] == HUGE_PAGE_SIZE * (k - 1024) + 0x83)
  }

  lemma LowPartGrows(m: seq<u64>, m': seq<u64>, gib: nat)
    requires |m| == |m'| == 4096 && gib < 4 && LowPart(m, gib) && m'[512 + gib] == PD_LOW0_ADDR + gib * 0x1000 + 3
    requires forall k :: 512 * (2 + gib) <= k < 512 * (2 + gib) + 512 ==>
               m'[k] == HUGE_PAGE_SIZE * (k - 512 * (2 + gib) + gib * 512) + 0x83
    requires forall k :: 0 <= k < 4096 && k != 512 + gib && !(512 * (2 + gib) <= k < 512 * (2 + gib) + 512) ==>
               m'[k] == m[k]
    ensures LowPart(m', gib + 1)
  {
  }

  lemma RootSlots(mem: seq<u64>, i: Index)
    requires HighEntries(mem)
    ensures Link(mem, PML4_ADDR, 0, i) == if i == 0 then Some(1) else if i == 511 then Some(6) else None
  {
    assert At(mem, 0, i) == mem[i];
    PointeeOfLink(PML4_ADDR, 8, 1);
    PointeeOfLink(PML4_ADDR, 8, 6);
  }

  lemma HighSlots(mem: seq<u64>, i: Index)
    requires HighEntries(mem)
    ensures !(Present(At(mem, 6, i)) && Huge(At(mem, 6, i)))
    ensures Link(mem, PML4_ADDR, 6, i) == if i == 510 then Some(7) else None
  {
    assert At(mem, 6, i) == mem[3072 + i];
    PointeeOfLink(PML4_ADDR, 8, 7);
  }

  lemma KernelSlots(mem: seq<u64>, i: Index)
    requires HighEntries(mem)
    ensures var e := At(mem, 7, i);
            Present(e) && Huge(e) && e / 0x20_0000 % 0x8000_0000 * 0x20_0000 == 0x20_0000 * (i + 1)
  {
    assert At(mem, 7, i) == mem[3584 + i];
    HugeBits(i + 1);
  }

  lemma TablesWalk(mem: seq<u64>, w: u64)
    requires LowEntries(mem, PML4_ADDR) && HighEntries(mem)
    ensures Walk(mem, PML4_ADDR, w) == BiosTranslation(w)
  {
    if Canonical(w) {
      var v := Split(w);
      SplitMeaning(w);
      RootSlots(mem, v.i4);
      if v.i4 == 0 {
        LowHalf(w);
        LowWalk(mem, PML4_ADDR, w);
      } else if v.i4 == 511 {
        HighWalk(mem, w);
      } else {
        MiddleHalf(w);
      }
    }
  }

  lemma MiddleHalf(w: u64)
    requires w / 0x80_0000_0000 % 512 != 0 && w / 0x80_0000_0000 % 512 != 511
    ensures FOUR_GIB <= w < KERNEL_VIRT_BASE
  {
  }

  lemma HighWalk(mem: seq<u64>, w: u64)
    requires HighEntries(mem) && Canonical(w) && Split(w).i4 == 511
    ensures Walk3(mem, PML4_ADDR, 6, Split(w)) == BiosTranslation(w)
  {
    var v := Split(w);
    SplitMeaning(w);
    TopRegion(w);
    HighSlots(mem, v.i3);
    if v.i3 == 510 {
      KernelSlots(mem, v.i2);
      KernelOffset(w);
    }
  }

  lemma TopRegion(w: u64)
    requires Canonical(w) && w / 0x80_0000_0000 % 512 == 511
    ensures w >= 0xffff_ff80_0000_0000
    ensures w / 0x4000_0000 % 512 == 510 <==> KERNEL_VIRT_BASE <= w < KERNEL_VIRT_BASE + ONE_GIB
  {
    assert w / 0x80_0000_0000 == 0x1ff_ffff;
    assert w / 0x4000_0000 / 512 == w / 0x80_0000_0000;
  }

  lemma KernelOffset(w: u64)
    requires KERNEL_VIRT_BASE <= w < KERNEL_VIRT_BASE + ONE_GIB
    ensures 0x20_0000 * (w / 0x20_0000 % 512) + 0x1000 * (w / 0x1000 % 512) + w % 0x1000 == w - KERNEL_VIRT_BASE
  {
    var p := w / 0x1000;
    var q := p / 512;
    assert w / 0x20_0000 == q;
    assert w == 0x1000 * p + w % 0x1000 && p == 512 * q + p % 512 && q == 512 * (q / 512) + q % 512;
    assert q / 512 == 0x3_ffff_fffe;
  }
}
