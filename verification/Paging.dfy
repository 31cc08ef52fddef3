/** Four-level paging: the hardware walk of section 4.5 of the Intel SDM volume 3A over
    a block of page tables, and the facts that make a table update a map update.
    Tables are numbered from the start of the block; table t occupies entries
    512 * t .. 512 * t + 511 and lies at physical address base + 4096 * t. */
module Paging {
  import opened Words
  import opened Bits

  const PAGE_PRESENT := 0x001
  const PAGE_RW := 0x002
  const PAGE_PS := 0x080
  const ADDRESS_MASK := 0x000f_ffff_ffff_f000
  const HUGE_PAGE_SIZE := 0x20_0000

  // ----- entries -----

  predicate Present(e: u64) { e % 2 == 1 }

  predicate Huge(e: u64) { e / PAGE_PS % 2 == 1 }

  /** The entry allows writing: bit 1. */
  predicate Rw(e: u64) { e / 2 % 2 == 1 }

  /** The physical frame an entry names: bits 12 to 51. */
  function FrameOf(e: u64): (r: nat) { And(e, ADDRESS_MASK) }

  lemma FrameMask(e: u64)
    ensures FrameOf(e) == e / 4096 % 0x100_0000_0000 * 4096
  {
    AndTimes4096(e, 0xff_ffff_ffff);
    Pow2Values();
    AndLow(e / 4096, 40);
  }

  /** address | PAGE_PRESENT | PAGE_RW. */
  function LinkEntry(a: u64): (r: u64)
    requires a % 4096 == 0
    ensures r == a + 3
  {
    PageIsEven(a);
    OrLink(a);
    Or(Or(a, PAGE_PRESENT), PAGE_RW)
  }

  lemma PageIsEven(a: nat)
    requires a % 4096 == 0
    ensures a % 4 == 0 && a == 4096 * (a / 4096)
  {
    DivUnique(a, 4, 1024 * (a / 4096), 0);
  }

  lemma OrOne(a: nat)
    requires a % 2 == 0
    ensures Or(a, 1) == a + 1
  {
    if a > 0 {
      OrZero(a / 2);
    }
  }

  lemma OrLink(a: nat)
    requires a % 4 == 0
    ensures Or(Or(a, PAGE_PRESENT), PAGE_RW) == a + 3
  {
    OrOne(a);
    OrOne(a / 2);
    assert (a + 1) / 2 == a / 2;
  }

  /** address | PAGE_PRESENT | PAGE_RW | PAGE_PS. */
  function HugeEntry(a: u64): (r: u64)
    requires a % HUGE_PAGE_SIZE == 0
    ensures r == a + 0x83
  {
    OrLinkHuge(a);
    Or(Or(Or(a, PAGE_PRESENT), PAGE_RW), PAGE_PS)
  }

  lemma OrLinkHuge(a: u64)
    requires a % HUGE_PAGE_SIZE == 0
    ensures Or(Or(Or(a, PAGE_PRESENT), PAGE_RW), PAGE_PS) == a + 0x83
  {
    assert a == 256 * (a / 256);
    OrLink(a);
    OrHuge(a / 256);
  }

  lemma OrHuge(x: nat)
    ensures Or(256 * x + 3, PAGE_PS) == 256 * x + 0x83
  {
    assert Pow2(6) == 64;
    OrDisjoint(x, 32, 6);
    OrStep(64 * x, 32);
    OrStep(128 * x + 1, 64);
  }

  lemma OrStep(h: nat, y: nat)
    ensures Or(2 * h + 1, 2 * y) == 1 + 2 * Or(h, y)
  {
    DivUnique(2 * h + 1, 2, h, 1);
    DivUnique(2 * y, 2, y, 0);
  }

  // ----- virtual addresses -----

  type Index = i: int | 0 <= i < 512

  /** A virtual address as the walk sees it: four table indices and a page offset. */
  datatype Va = Va(i4: Index, i3: Index, i2: Index, i1: Index, offset: nat)

  function IndexAt(v: u64, unit: nat): (r: Index)
    requires unit > 0
  {
    Pow2Values();
    AndLow(v / unit, 9);
    And(v / unit, 511)
  }

  function Split(v: u64): (r: Va)
  {
    Va(IndexAt(v, 0x80_0000_0000), IndexAt(v, 0x4000_0000), IndexAt(v, 0x20_0000), IndexAt(v, 0x1000), v % 0x1000)
  }

  lemma IndexMeaning(v: u64, unit: nat)
    requires unit > 0
    ensures IndexAt(v, unit) == v / unit % 512
  {
    Pow2Values();
    AndLow(v / unit, 9);
  }

  lemma SplitMeaning(v: u64)
    ensures Split(v) == Va(v / 0x80_0000_0000 % 512, v / 0x4000_0000 % 512, v / 0x20_0000 % 512, v / 0x1000 % 512,
                           v % 0x1000)
  {
    IndexMeaning(v, 0x80_0000_0000);
    IndexMeaning(v, 0x4000_0000);
    IndexMeaning(v, 0x20_0000);
    IndexMeaning(v, 0x1000);
  }

  predicate SameIndices(a: Va, b: Va) { a.i4 == b.i4 && a.i3 == b.i3 && a.i2 == b.i2 && a.i1 == b.i1 }

  /** Bits 63 to 47 are all equal. */
  predicate Canonical(v: u64) { v < 0x8000_0000_0000 || v >= 0xffff_8000_0000_0000 }

  /** w lies in the page that v names, comparing the 48 bits that are translated. */
  predicate SamePage(w: u64, v: u64)
  {
    w / 0x1000 % 0x10_0000_0000 == v / 0x1000 % 0x10_0000_0000
  }

  lemma SamePageByIndices(w: u64, v: u64)
    ensures SamePage(w, v) <==> SameIndices(Split(w), Split(v))
  {
    PageDigits(w);
    PageDigits(v);
    DigitsUnique(Split(w), Split(v));
  }

  lemma DigitsUnique(a: Va, b: Va)
    ensures 0x800_0000 * a.i4 + 0x4_0000 * a.i3 + 0x200 * a.i2 + a.i1
         == 0x800_0000 * b.i4 + 0x4_0000 * b.i3 + 0x200 * b.i2 + b.i1
       <==> SameIndices(a, b)
  {
    var x3, y3 := 512 * a.i4 + a.i3, 512 * b.i4 + b.i3;
    var x2, y2 := 512 * x3 + a.i2, 512 * y3 + b.i2;
    if 512 * x2 + a.i1 == 512 * y2 + b.i1 {
      QuotientUnique(512, x2, a.i1, y2, b.i1);
      QuotientUnique(512, x3, a.i2, y3, b.i2);
      QuotientUnique(512, a.i4, a.i3, b.i4, b.i3);
    }
  }

  lemma PageDigits(v: u64)
    ensures var a := Split(v);
            v / 0x1000 % 0x10_0000_0000 == 0x800_0000 * a.i4 + 0x4_0000 * a.i3 + 0x200 * a.i2 + a.i1
  {
    var p := v / 0x1000;
    SplitMeaning(v);
    assert v / 0x20_0000 == p / 0x200;
    assert v / 0x4000_0000 == p / 0x4_0000;
    assert v / 0x80_0000_0000 == p / 0x800_0000;
    Digits(p);
  }

  lemma Digits(p: nat)
    ensures p % 0x10_0000_0000
         == 0x800_0000 * (p / 0x800_0000 % 0x200) + 0x4_0000 * (p / 0x4_0000 % 0x200) + 0x200 * (p / 0x200 % 0x200) + p % 0x200
  {
    var a := p / 0x200;
    var b := a / 0x200;
    var c := b / 0x200;
    assert b == p / 0x4_0000 && c == p / 0x800_0000 by {
      DivDiv(p, 0x200, 0x200);
      DivDiv(p, 0x4_0000, 0x200);
    }
    var low := 0x800_0000 * (c % 0x200) + 0x4_0000 * (b % 0x200) + 0x200 * (a % 0x200) + p % 0x200;
    assert p == 0x10_0000_0000 * (c / 0x200) + low;
    DivUnique(p, 0x10_0000_0000, c / 0x200, low);
  }

  // ----- the walk -----

  datatype Translation = Fault | Phys(address: nat)

  function At(mem: seq<u64>, t: nat, i: nat): (e: u64)
    requires i < 512 && 512 * t + 512 <= |mem|
  {
    mem[512 * t + i]
  }

  /** The table an entry points to, when it is a link into the block. */
  function Pointee(e: u64, base: u64, count: nat): (r: Option<nat>)
    ensures r.Some? ==> r.value < count
  {
    var a := FrameOf(e);
    if Present(e) && !Huge(e) && base <= a < base + 4096 * count then Some((a - base) / 4096) else None
  }

  function Link(mem: seq<u64>, base: u64, t: nat, i: nat): (r: Option<nat>)
    requires i < 512 && 512 * t + 512 <= |mem|
    ensures r.Some? ==> 512 * r.value + 512 <= |mem|
  {
    Pointee(At(mem, t, i), base, |mem| / 512)
  }

  function Walk1(mem: seq<u64>, t: nat, v: Va): (r: Translation)
    requires 512 * t + 512 <= |mem|
  {
    var e := At(mem, t, v.i1);
    if Present(e) then Phys(FrameOf(e) + v.offset) else Fault
  }

  /** A 2 MiB page: bits 21 to 51 of the entry, then the low 21 bits of the address. */
  function Walk2(mem: seq<u64>, base: u64, t: nat, v: Va): (r: Translation)
    requires 512 * t + 512 <= |mem|
  {
    var e := At(mem, t, v.i2);
    if Present(e) && Huge(e) then Phys(e / 0x20_0000 % 0x8000_0000 * 0x20_0000 + 0x1000 * v.i1 + v.offset)
    else
      match Link(mem, base, t, v.i2)
      case None => Fault
      case Some(u) => Walk1(mem, u, v)
  }

  /** A 1 GiB page: bits 30 to 51 of the entry, then the low 30 bits of the address. */
  function Walk3(mem: seq<u64>, base: u64, t: nat, v: Va): (r: Translation)
    requires 512 * t + 512 <= |mem|
  {
    var e := At(mem, t, v.i3);
    if Present(e) && Huge(e)
    then Phys(e / 0x4000_0000 % 0x40_0000 * 0x4000_0000 + 0x20_0000 * v.i2 + 0x1000 * v.i1 + v.offset)
    else
      match Link(mem, base, t, v.i3)
      case None => Fault
      case Some(u) => Walk2(mem, base, u, v)
  }

  function Walk4(mem: seq<u64>, base: u64, v: Va): (r: Translation)
    requires 512 <= |mem|
  {
    match Link(mem, base, 0, v.i4)
    case None => Fault
    case Some(u) => Walk3(mem, base, u, v)
  }

  /** What the processor does with address v when CR3 names table 0 of the block. */
  function Walk(mem: seq<u64>, base: u64, v: u64): (r: Translation)
    requires 512 <= |mem|
  {
    if Canonical(v) then Walk4(mem, base, Split(v)) else Fault
  }

  // ----- access rights -----

  predicate CanWrite1(mem: seq<u64>, t: nat, v: Va)
    requires 512 * t + 512 <= |mem|
  {
    Rw(At(mem, t, v.i1))
  }

  predicate CanWrite2(mem: seq<u64>, base: u64, t: nat, v: Va)
    requires 512 * t + 512 <= |mem|
  {
    Rw(At(mem, t, v.i2)) && match Link(mem, base, t, v.i2)
                            case None => true
                            case Some(u) => CanWrite1(mem, u, v)
  }

  predicate CanWrite3(mem: seq<u64>, base: u64, t: nat, v: Va)
    requires 512 * t + 512 <= |mem|
  {
    Rw(At(mem, t, v.i3)) && match Link(mem, base, t, v.i3)
                            case None => true
                            case Some(u) => CanWrite2(mem, base, u, v)
  }

  predicate CanWrite4(mem: seq<u64>, base: u64, v: Va)
    requires 512 <= |mem|
  {
    Rw(At(mem, 0, v.i4)) && match Link(mem, base, 0, v.i4)
                            case None => true
                            case Some(u) => CanWrite3(mem, base, u, v)
  }

  /** Every entry on the walk of v allows writing. */
  predicate CanWrite(mem: seq<u64>, base: u64, v: u64)
    requires 512 <= |mem|
  {
    CanWrite4(mem, base, Split(v))
  }

  // ----- shape of a block of tables -----

  /** Level and parent slot of every table in use; table 0 is the root. */
  datatype Shape = Shape(level: seq<nat>, parent: seq<(nat, nat)>)

  /** The block can be addressed by entries. */
  predicate Placed(base: u64, size: nat)
  {
    base % 4096 == 0 && size % 512 == 0 && base + 8 * size <= 0x10_0000_0000_0000
  }

  /** A present entry above the last level is a large page of a table listed in huge, or
      links one level down to a table whose parent slot is this very entry. */
  ghost predicate SlotOk(mem: seq<u64>, base: u64, s: Shape, huge: set<nat>, t: nat, i: Index)
    requires t < |s.level| == |s.parent| && 512 * |s.level| <= |mem|
  {
    && (Present(At(mem, t, i)) ==> Rw(At(mem, t, i)))
    && (s.level[t] > 1 && Present(At(mem, t, i)) ==>
      if Huge(At(mem, t, i)) then t in huge
      else
        var u := Link(mem, base, t, i);
        && u.Some? && 0 < u.value < |s.level|
        && s.level[u.value] == s.level[t] - 1
        && s.parent[u.value] == (t, i))
  }

  /** Whatever the tables of a tree translate, they allow to be written. */
  lemma TranslatedIsWritable(mem: seq<u64>, base: u64, s: Shape, huge: set<nat>, v: u64)
    requires Tree(mem, base, s, huge) && Walk(mem, base, v).Phys?
    ensures CanWrite(mem, base, v)
  {
    var va := Split(v);
    assert SlotOk(mem, base, s, huge, 0, va.i4);
    var a := Link(mem, base, 0, va.i4).value;
    assert SlotOk(mem, base, s, huge, a, va.i3);
    if b :| Link(mem, base, a, va.i3) == Some(b) {
      assert SlotOk(mem, base, s, huge, b, va.i2);
      if c :| Link(mem, base, b, va.i2) == Some(c) {
        assert SlotOk(mem, base, s, huge, c, va.i1);
      }
    }
  }

  /** The tables in use form a tree under table 0: no two links name the same table. */
  ghost predicate Tree(mem: seq<u64>, base: u64, s: Shape, huge: set<nat>)
  {
    && Placed(base, |mem|)
    && |s.level| == |s.parent| >= 1
    && 512 * |s.level| <= |mem|
    && s.level[0] == 4
    && (forall t, i {:trigger SlotOk(mem, base, s, huge, t, i)} ::
          0 <= t < |s.level| && 0 <= i < 512 ==> SlotOk(mem, base, s, huge, t, i))
  }

  lemma LinkBits(x: nat)
    requires x < 0x100_0000_0000
    ensures var e := LinkEntry(4096 * x); Present(e) && !Huge(e) && Rw(e) && FrameOf(e) == 4096 * x
  {
    LinkDigits(x);
    FrameMask(4096 * x + 3);
  }

  lemma LinkDigits(x: nat)
    requires x < 0x100_0000_0000
    ensures (4096 * x + 3) / 4096 == x && x % 0x100_0000_0000 == x
    ensures (4096 * x + 3) / 0x80 % 2 == 0 && (4096 * x + 3) % 2 == 1 && (4096 * x + 3) / 2 % 2 == 1
  {
    DivUnique(4096 * x + 3, 4096, x, 3);
    DivUnique(4096 * x + 3, 0x80, 32 * x, 3);
    DivUnique(4096 * x + 3, 2, 2048 * x + 1, 1);
    DivUnique(32 * x, 2, 16 * x, 0);
    DivUnique(2048 * x + 1, 2, 1024 * x, 1);
  }

  lemma PointeeOfLink(base: u64, count: nat, u: nat)
    requires base % 4096 == 0 && base + 4096 * count <= 0x10_0000_0000_0000 && u < count
    ensures var e := LinkEntry(base + 4096 * u);
            Present(e) && !Huge(e) && Rw(e) && Pointee(e, base, count) == Some(u)
  {
    PageIsEven(base);
    DivUnique(4096 * u, 4096, u, 0);
    LinkBits(base / 4096 + u);
  }

  // ----- linking a fresh, zeroed table changes no translation -----

  /** mem' is mem with table n cleared and slot (t, i) pointing to it. */
  ghost predicate Linked(mem: seq<u64>, mem': seq<u64>, base: u64, t: nat, i: nat, n: nat)
    requires i < 512 && t < n && 512 * n + 512 <= |mem| == |mem'|
  {
    && (forall k :: 0 <= k < 512 ==> At(mem', n, k) == 0)
    && Link(mem', base, t, i) == Some(n) && Present(At(mem', t, i)) && !Huge(At(mem', t, i)) && Rw(At(mem', t, i))
    && (forall t', i' {:trigger At(mem', t', i')} :: 0 <= t' < n && 0 <= i' < 512 && (t', i') != (t, i) ==>
          At(mem', t', i') == At(mem, t', i'))
  }

  lemma LinkKeepsTree(mem: seq<u64>, mem': seq<u64>, base: u64, s: Shape, huge: set<nat>, t: nat, i: nat)
    requires Tree(mem, base, s, huge)
    requires i < 512 && t < |s.level| && 512 * |s.level| + 512 <= |mem| == |mem'|
    requires s.level[t] > 1 && Linked(mem, mem', base, t, i, |s.level|)
    ensures Tree(mem', base, Shape(s.level + [s.level[t] - 1], s.parent + [(t, i)]), huge)
  {
    var n := |s.level|;
    var s' := Shape(s.level + [s.level[t] - 1], s.parent + [(t, i)]);
    forall t', i' | 0 <= t' < n + 1 && 0 <= i' < 512
      ensures SlotOk(mem', base, s', huge, t', i')
    {
      if t' < n && (t', i') != (t, i) {
        assert SlotOk(mem, base, s, huge, t', i');
        assert At(mem', t', i') == At(mem, t', i');
      }
    }
  }

  lemma LinkKeepsWalk1(mem: seq<u64>, mem': seq<u64>, base: u64, s: Shape, huge: set<nat>, t: nat, i: nat, u: nat,
                       v: Va)
    requires Tree(mem, base, s, huge)
    requires i < 512 && t < |s.level| && 512 * |s.level| + 512 <= |mem| == |mem'|
    requires s.level[t] > 1 && Linked(mem, mem', base, t, i, |s.level|)
    requires u < |s.level| && s.level[u] == 1
    ensures Walk1(mem', u, v) == Walk1(mem, u, v)
  {
    assert At(mem', u, v.i1) == At(mem, u, v.i1);
  }

  lemma LinkKeepsWalk2(mem: seq<u64>, mem': seq<u64>, base: u64, s: Shape, huge: set<nat>, t: nat, i: nat, u: nat,
                       v: Va)
    requires Tree(mem, base, s, huge)
    requires i < 512 && t < |s.level| && 512 * |s.level| + 512 <= |mem| == |mem'|
    requires s.level[t] > 1 && !Present(At(mem, t, i)) && Linked(mem, mem', base, t, i, |s.level|)
    requires u < |s.level| && s.level[u] == 2
    ensures Walk2(mem', base, u, v) == Walk2(mem, base, u, v)
  {
    var k := v.i2;
    if (u, k) == (t, i) {
      assert At(mem', |s.level|, v.i1) == 0;
    } else {
      assert At(mem', u, k) == At(mem, u, k);
      assert SlotOk(mem, base, s, huge, u, k);
      if Present(At(mem, u, k)) && !Huge(At(mem, u, k)) {
        LinkKeepsWalk1(mem, mem', base, s, huge, t, i, Link(mem, base, u, k).value, v);
      }
    }
  }

  lemma LinkKeepsWalk3(mem: seq<u64>, mem': seq<u64>, base: u64, s: Shape, huge: set<nat>, t: nat, i: nat, u: nat,
                       v: Va)
    requires Tree(mem, base, s, huge)
    requires i < 512 && t < |s.level| && 512 * |s.level| + 512 <= |mem| == |mem'|
    requires s.level[t] > 1 && !Present(At(mem, t, i)) && Linked(mem, mem', base, t, i, |s.level|)
    requires u < |s.level| && s.level[u] == 3
    ensures Walk3(mem', base, u, v) == Walk3(mem, base, u, v)
  {
    var k := v.i3;
    if (u, k) == (t, i) {
      assert At(mem', |s.level|, v.i2) == 0;
    } else {
      assert At(mem', u, k) == At(mem, u, k);
      assert SlotOk(mem, base, s, huge, u, k);
      if Present(At(mem, u, k)) && !Huge(At(mem, u, k)) {
        LinkKeepsWalk2(mem, mem', base, s, huge, t, i, Link(mem, base, u, k).value, v);
      }
    }
  }

  lemma LinkKeepsWalk4(mem: seq<u64>, mem': seq<u64>, base: u64, s: Shape, huge: set<nat>, t: nat, i: nat, v: Va)
    requires Tree(mem, base, s, huge)
    requires i < 512 && t < |s.level| && 512 * |s.level| + 512 <= |mem| == |mem'|
    requires s.level[t] > 1 && !Present(At(mem, t, i)) && Linked(mem, mem', base, t, i, |s.level|)
    ensures Walk4(mem', base, v) == Walk4(mem, base, v)
  {
    var k := v.i4;
    if (0, k) == (t, i) {
      assert At(mem', |s.level|, v.i3) == 0;
    } else {
      assert At(mem', 0, k) == At(mem, 0, k);
      assert SlotOk(mem, base, s, huge, 0, k);
      if Present(At(mem, 0, k)) && !Huge(At(mem, 0, k)) {
        LinkKeepsWalk3(mem, mem', base, s, huge, t, i, Link(mem, base, 0, k).value, v);
      }
    }
  }

  // ----- writing a leaf entry changes the translation of one page -----

  /** The last-level table that the walk of v reaches. */
  ghost predicate Reaches(mem: seq<u64>, base: u64, v: Va, t: nat)
    requires 512 <= |mem|
  {
    var a := Link(mem, base, 0, v.i4);
    a.Some? && var b := Link(mem, base, a.value, v.i3);
    b.Some? && var c := Link(mem, base, b.value, v.i2);
    c == Some(t)
  }

  /** No link is shared, so reaching the same last-level table means equal upper indices. */
  lemma ReachUnique(mem: seq<u64>, base: u64, s: Shape, huge: set<nat>, v: Va, w: Va, t: nat)
    requires Tree(mem, base, s, huge)
    requires Reaches(mem, base, v, t) && Reaches(mem, base, w, t)
    ensures v.i4 == w.i4 && v.i3 == w.i3 && v.i2 == w.i2
    ensures t < |s.level| && s.level[t] == 1
  {
    var a, a' := Link(mem, base, 0, v.i4).value, Link(mem, base, 0, w.i4).value;
    assert SlotOk(mem, base, s, huge, 0, v.i4) && SlotOk(mem, base, s, huge, 0, w.i4);
    var b, b' := Link(mem, base, a, v.i3).value, Link(mem, base, a', w.i3).value;
    assert SlotOk(mem, base, s, huge, a, v.i3) && SlotOk(mem, base, s, huge, a', w.i3);
    assert SlotOk(mem, base, s, huge, b, v.i2) && SlotOk(mem, base, s, huge, b', w.i2);
  }

  lemma LeafKeepsTree(mem: seq<u64>, base: u64, s: Shape, huge: set<nat>, t: nat, i: nat, e: u64)
    requires Tree(mem, base, s, huge)
    requires i < 512 && t < |s.level| && s.level[t] == 1 && Rw(e)
    ensures Tree(mem[512 * t + i := e], base, s, huge)
  {
    var mem' := mem[512 * t + i := e];
    forall t', i' | 0 <= t' < |s.level| && 0 <= i' < 512
      ensures SlotOk(mem', base, s, huge, t', i')
    {
      assert SlotOk(mem, base, s, huge, t', i');
      if (t', i') != (t, i) {
        assert At(mem', t', i') == At(mem, t', i');
      }
    }
  }

  lemma LeafWrite(mem: seq<u64>, base: u64, s: Shape, huge: set<nat>, v: Va, t: nat, e: u64, w: Va)
    requires Tree(mem, base, s, huge) && Reaches(mem, base, v, t) && Present(e) && Rw(e)
    ensures t < |s.level| && Tree(mem[512 * t + v.i1 := e], base, s, huge)
    ensures var mem' := mem[512 * t + v.i1 := e];
            Walk4(mem', base, w) == if SameIndices(w, v) then Phys(FrameOf(e) + w.offset) else Walk4(mem, base, w)
  {
    ReachUnique(mem, base, s, huge, v, v, t);
    LeafKeepsTree(mem, base, s, huge, t, v.i1, e);
    LeafUpper(mem, s, t, v.i1, e);
    if u: nat :| Reaches(mem, base, w, u) {
      LeafHit(mem, base, s, huge, v, t, e, w, u);
    } else {
      assert SameIndices(w, v) ==> Reaches(mem, base, w, t);
      LeafMiss(mem, mem[512 * t + v.i1 := e], base, s, huge, w);
    }
  }

  lemma LeafHit(mem: seq<u64>, base: u64, s: Shape, huge: set<nat>, v: Va, t: nat, e: u64, w: Va, u: nat)
    requires Tree(mem, base, s, huge) && Reaches(mem, base, v, t) && Present(e)
    requires t < |s.level| && s.level[t] == 1
    requires Reaches(mem, base, w, u)
    ensures var mem' := mem[512 * t + v.i1 := e];
            Walk4(mem', base, w) == if SameIndices(w, v) then Phys(FrameOf(e) + w.offset) else Walk4(mem, base, w)
  {
    LeafUpper(mem, s, t, v.i1, e);
    LeafWalk(mem, mem[512 * t + v.i1 := e], base, s, huge, w, u);
    ReachUnique(mem, base, s, huge, w, w, u);
    if u == t {
      ReachUnique(mem, base, s, huge, v, w, t);
      LeafEntryRead(mem, mem[512 * t + v.i1 := e], t, v.i1, w.i1, e);
    } else {
      SlotsApart(mem, t, v.i1, u, w.i1, e);
      OtherLeaf(mem, base, v, w, t, u);
    }
  }

  lemma OtherLeaf(mem: seq<u64>, base: u64, v: Va, w: Va, t: nat, u: nat)
    requires 512 <= |mem| && Reaches(mem, base, v, t) && Reaches(mem, base, w, u) && t != u
    ensures !SameIndices(w, v)
  {
  }

  lemma LeafUpper(mem: seq<u64>, s: Shape, t: nat, i: Index, e: u64)
    requires 512 * |s.level| <= |mem| && t < |s.level| && s.level[t] == 1
    ensures UpperAgree(mem, mem[512 * t + i := e], s)
  {
    forall t', i' | 0 <= t' < |s.level| && 0 <= i' < 512 && s.level[t'] > 1
      ensures At(mem[512 * t + i := e], t', i') == At(mem, t', i')
    {
      SlotsApart(mem, t, i, t', i', e);
    }
  }

  lemma LeafEntryRead(mem: seq<u64>, mem': seq<u64>, t: nat, i: Index, j: Index, e: u64)
    requires 512 * t + 512 <= |mem| && mem' == mem[512 * t + i := e]
    ensures At(mem', t, j) == if i == j then e else At(mem, t, j)
  {
  }

  lemma SlotsApart(mem: seq<u64>, t: nat, i: Index, u: nat, j: Index, e: u64)
    requires 512 * t + 512 <= |mem| && 512 * u + 512 <= |mem| && t != u
    ensures At(mem[512 * t + i := e], u, j) == At(mem, u, j)
  {
    if 512 * t + i == 512 * u + j {
      QuotientUnique(512, t, i, u, j);
    }
  }

  ghost predicate UpperAgree(mem: seq<u64>, mem': seq<u64>, s: Shape)
    requires |mem| == |mem'| && 512 * |s.level| <= |mem|
  {
    forall t, i {:trigger At(mem', t, i)} ::
      0 <= t < |s.level| && 0 <= i < 512 && s.level[t] > 1 ==> At(mem', t, i) == At(mem, t, i)
  }

  /** A walk that reaches a last-level table is decided by one entry of it. */
  lemma LeafWalk(mem: seq<u64>, mem': seq<u64>, base: u64, s: Shape, huge: set<nat>, w: Va, u: nat)
    requires Tree(mem, base, s, huge) && |mem'| == |mem| && UpperAgree(mem, mem', s)
    requires Reaches(mem, base, w, u)
    ensures Walk4(mem, base, w) == Walk1(mem, u, w) && Walk4(mem', base, w) == Walk1(mem', u, w)
  {
    var a := Link(mem, base, 0, w.i4).value;
    assert SlotOk(mem, base, s, huge, 0, w.i4);
    var b := Link(mem, base, a, w.i3).value;
    assert SlotOk(mem, base, s, huge, a, w.i3);
    assert At(mem', 0, w.i4) == At(mem, 0, w.i4);
    assert At(mem', a, w.i3) == At(mem, a, w.i3);
    assert At(mem', b, w.i2) == At(mem, b, w.i2);
  }

  lemma LeafMiss(mem: seq<u64>, mem': seq<u64>, base: u64, s: Shape, huge: set<nat>, w: Va)
    requires Tree(mem, base, s, huge) && |mem'| == |mem| && UpperAgree(mem, mem', s)
    requires !exists u: nat :: Reaches(mem, base, w, u)
    ensures Walk4(mem', base, w) == Walk4(mem, base, w)
  {
    assert At(mem', 0, w.i4) == At(mem, 0, w.i4);
    var a := Link(mem, base, 0, w.i4);
    if a.Some? {
      assert SlotOk(mem, base, s, huge, 0, w.i4);
      assert At(mem', a.value, w.i3) == At(mem, a.value, w.i3);
      var b := Link(mem, base, a.value, w.i3);
      if b.Some? {
        assert SlotOk(mem, base, s, huge, a.value, w.i3);
        assert At(mem', b.value, w.i2) == At(mem, b.value, w.i2);
        var c := Link(mem, base, b.value, w.i2);
        if c.Some? {
          assert Reaches(mem, base, w, c.value);
        }
      }
    }
  }
}
