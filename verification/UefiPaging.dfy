/** The page-table pool of the UEFI loader: pt_alloc and map4k. */
module UefiPaging {
  import opened Words
  import opened Bits
  import opened Paging

  const POOL_PAGES := 48
  const IDENTITY_GIB := 4
  const KERNEL_VIRT_FLOOR := 0xffff_ffff_8000_0000
  const MAX_KERNEL_BYTES := 0x400_0000

  /** How many tables the walk of v still lacks below table t of level 2, of level 3,
      and below the root. */
  function Missing2(mem: seq<u64>, base: u64, t: nat, v: Va): (r: nat)
    requires 512 * t + 512 <= |mem|
  {
    if Link(mem, base, t, v.i2) == None then 1 else 0
  }

  function Missing3(mem: seq<u64>, base: u64, t: nat, v: Va): (r: nat)
    requires 512 * t + 512 <= |mem|
  {
    match Link(mem, base, t, v.i3)
    case None => 2
    case Some(u) => Missing2(mem, base, u, v)
  }

  function Missing(mem: seq<u64>, base: u64, v: Va): (r: nat)
    requires 512 <= |mem|
    ensures r <= 3
  {
    match Link(mem, base, 0, v.i4)
    case None => 3
    case Some(u) => Missing3(mem, base, u, v)
  }

  predicate HugeAt(mem: seq<u64>, t: nat, i: Index)
    requires 512 * t + 512 <= |mem|
  {
    Present(At(mem, t, i)) && Huge(At(mem, t, i))
  }

  /** The walk of v runs into a large page before the last level. */
  predicate MeetsHuge3(mem: seq<u64>, base: u64, t: nat, v: Va)
    requires 512 * t + 512 <= |mem|
  {
    HugeAt(mem, t, v.i3) || match Link(mem, base, t, v.i3)
                            case None => false
                            case Some(u) => HugeAt(mem, u, v.i2)
  }

  predicate MeetsHuge(mem: seq<u64>, base: u64, v: Va)
    requires 512 <= |mem|
  {
    match Link(mem, base, 0, v.i4)
    case None => false
    case Some(u) => MeetsHuge3(mem, base, u, v)
  }

  ghost predicate Reaches3(mem: seq<u64>, base: u64, t: nat, v: Va, pt: nat)
    requires 512 * t + 512 <= |mem|
  {
    var b := Link(mem, base, t, v.i3);
    b.Some? && Link(mem, base, b.value, v.i2) == Some(pt)
  }

  /** Same translation for every address. */
  ghost predicate SameWalk(m: seq<u64>, m': seq<u64>, base: u64)
    requires 512 <= |m| == |m'|
  {
    forall w: Va :: Walk4(m', base, w) == Walk4(m, base, w)
  }

  /** The entry-by-entry effect of pt_alloc followed by writing the link. */
  lemma LinkedByEntries(m: seq<u64>, m': seq<u64>, base: u64, t: nat, i: Index, n: nat)
    requires Placed(base, |m|) && t < n && 512 * n + 512 <= |m| == |m'|
    requires forall k :: 0 <= k < 512 * n && k != 512 * t + i ==> m'[k] == m[k]
    requires m'[512 * t + i] == LinkEntry(base + 4096 * n)
    requires forall k :: 512 * n <= k < 512 * n + 512 ==> m'[k] == 0
    ensures Linked(m, m', base, t, i, n)
  {
    LinkSlot(m', base, t, i, n);
    forall t', i' | 0 <= t' < n && 0 <= i' < 512 && (t', i') != (t, i)
      ensures At(m', t', i') == At(m, t', i')
    {
      SlotsDiffer(t', i', t, i, n);
    }
  }

  /** Linking a fresh table keeps the tree and every translation. */
  lemma LinkedTable(m: seq<u64>, m': seq<u64>, base: u64, s: Shape, huge: set<nat>, t: nat, i: Index, n: nat)
    requires Tree(m, base, s, huge) && n == |s.level| && t < n && s.level[t] > 1 && 512 * n + 512 <= |m| == |m'|
    requires !Present(At(m, t, i))
    requires forall k :: 0 <= k < 512 * n && k != 512 * t + i ==> m'[k] == m[k]
    requires m'[512 * t + i] == LinkEntry(base + 4096 * n)
    requires forall k :: 512 * n <= k < 512 * n + 512 ==> m'[k] == 0
    ensures Linked(m, m', base, t, i, n) && SameWalk(m, m', base)
    ensures Tree(m', base, Shape(s.level + [s.level[t] - 1], s.parent + [(t, i)]), huge)
  {
    LinkedByEntries(m, m', base, t, i, n);
    LinkKeepsTree(m, m', base, s, huge, t, i);
    forall w: Va
      ensures Walk4(m', base, w) == Walk4(m, base, w)
    {
      LinkKeepsWalk4(m, m', base, s, huge, t, i, w);
    }
  }

  lemma SlotsDiffer(t': nat, i': Index, t: nat, i: Index, n: nat)
    requires t' < n && (t', i') != (t, i)
    ensures 512 * t' + i' < 512 * n && 512 * t' + i' != 512 * t + i
  {
  }

  lemma LinkSlot(m: seq<u64>, base: u64, t: nat, i: Index, n: nat)
    requires Placed(base, |m|) && t < n && 512 * n + 512 <= |m|
    requires m[512 * t + i] == LinkEntry(base + 4096 * n)
    ensures Link(m, base, t, i) == Some(n) && Present(At(m, t, i)) && !Huge(At(m, t, i)) && Rw(At(m, t, i))
  {
    PointeeOfLink(base, |m| / 512, n);
  }

  lemma LeafBits(ph: u64)
    ensures FrameOf(ph) % 4096 == 0 && FrameOf(ph) < 0x10_0000_0000_0000
    ensures Present(LinkEntry(FrameOf(ph))) && Rw(LinkEntry(FrameOf(ph)))
            && FrameOf(LinkEntry(FrameOf(ph))) == FrameOf(ph)
  {
    FrameMask(ph);
    FrameBits(FrameOf(ph), ph / 4096 % 0x100_0000_0000);
  }

  lemma FrameBits(a: u64, x: nat)
    requires a == 4096 * x && x < 0x100_0000_0000
    ensures a % 4096 == 0 && a < 0x10_0000_0000_0000 && Present(LinkEntry(a)) && Rw(LinkEntry(a))
            && FrameOf(LinkEntry(a)) == a
  {
    DivUnique(a, 4096, x, 0);
    LinkBits(x);
  }

  /** (ph & address mask) | PAGE_PRESENT | PAGE_RW. */
  function LeafEntry(ph: u64): (e: u64)
    ensures Present(e) && Rw(e) && FrameOf(e) == FrameOf(ph)
  {
    LeafBits(ph);
    LinkEntry(FrameOf(ph))
  }

  /** The page of v now goes to the frame of ph, and every other address where it went. */
  ghost predicate Redirects(m: seq<u64>, m': seq<u64>, base: u64, v: u64, ph: u64)
    requires 512 <= |m| == |m'|
  {
    forall w: u64 {:trigger Walk(m', base, w)} :: Walk(m', base, w) ==
      if Canonical(w) && SamePage(w, v) then Phys(FrameOf(ph) + w % 0x1000) else Walk(m, base, w)
  }

  lemma LeafRedirects(m0: seq<u64>, m: seq<u64>, m': seq<u64>, base: u64, s: Shape, huge: set<nat>, v: u64, t: nat,
                      ph: u64)
    requires Tree(m, base, s, huge) && Reaches(m, base, Split(v), t)
    requires |m0| == |m| && SameWalk(m0, m, base)
    requires 512 * t + 512 <= |m| && m' == m[512 * t + Split(v).i1 := LeafEntry(ph)]
    ensures Redirects(m0, m', base, v, ph)
  {
    forall w: u64
      ensures Walk(m', base, w) ==
              if Canonical(w) && SamePage(w, v) then Phys(FrameOf(ph) + w % 0x1000) else Walk(m0, base, w)
    {
      LeafTranslatesAt(m0, m, base, s, huge, v, t, ph, w);
    }
  }

  /** After the descent, the leaf entry redirects the page of v and no other. */
  lemma LeafTranslates(m0: seq<u64>, m: seq<u64>, base: u64, s: Shape, huge: set<nat>, v: u64, t: nat, ph: u64)
    requires Tree(m, base, s, huge) && Reaches(m, base, Split(v), t)
    requires |m0| == |m| && SameWalk(m0, m, base)
    ensures t < |s.level|
    ensures var m' := m[512 * t + Split(v).i1 := LeafEntry(ph)];
            Tree(m', base, s, huge) && Missing(m', base, Split(v)) == 0 && Redirects(m0, m', base, v, ph)
  {
    LeafTranslatesAt(m0, m, base, s, huge, v, t, ph, v);
    LeafKeepsPath(m, base, s, huge, Split(v), t, LeafEntry(ph));
    LeafRedirects(m0, m, m[512 * t + Split(v).i1 := LeafEntry(ph)], base, s, huge, v, t, ph);
  }

  lemma LeafTranslatesAt(m0: seq<u64>, m: seq<u64>, base: u64, s: Shape, huge: set<nat>, v: u64, t: nat, ph: u64,
                         w: u64)
    requires Tree(m, base, s, huge) && Reaches(m, base, Split(v), t)
    requires |m0| == |m| && SameWalk(m0, m, base)
    ensures t < |s.level|
    ensures var m' := m[512 * t + Split(v).i1 := LeafEntry(ph)];
            && Tree(m', base, s, huge)
            && Walk(m', base, w) ==
                 if Canonical(w) && SamePage(w, v) then Phys(FrameOf(ph) + w % 0x1000) else Walk(m0, base, w)
  {
    LeafWrite(m, base, s, huge, Split(v), t, LeafEntry(ph), Split(w));
    SamePageByIndices(w, v);
  }

  lemma LeafKeepsPath(m: seq<u64>, base: u64, s: Shape, huge: set<nat>, v: Va, t: nat, e: u64)
    requires Tree(m, base, s, huge) && Reaches(m, base, v, t) && t < |s.level|
    ensures Missing(m[512 * t + v.i1 := e], base, v) == 0
  {
    ReachUnique(m, base, s, huge, v, v, t);
    var m' := m[512 * t + v.i1 := e];
    var a := Link(m, base, 0, v.i4).value;
    var b := Link(m, base, a, v.i3).value;
    assert SlotOk(m, base, s, huge, 0, v.i4) && SlotOk(m, base, s, huge, a, v.i3);
    assert At(m', 0, v.i4) == At(m, 0, v.i4);
    assert At(m', a, v.i3) == At(m, a, v.i3);
    assert At(m', b, v.i2) == At(m, b, v.i2);
  }

  class PagePool {
    const base: u64
    const mem: array<u64>
    var used: nat
    ghost var shape: Shape
    ghost var huge: set<nat>

    ghost predicate Valid()
      reads this, mem
    {
      used == |shape.level| && Tree(mem[..], base, shape, huge) && 0 !in huge
    }

    /** A cleared pool of 48 pages with nothing handed out yet. */
    constructor (base: u64)
      ensures this.base == base && fresh(mem) && mem.Length == 512 * POOL_PAGES && used == 0
      ensures forall k :: 0 <= k < mem.Length ==> mem[k] == 0
    {
      this.base := base;
      this.used := 0;
      this.mem := new u64[512 * POOL_PAGES](_ => 0);
    }

    /** pt_alloc. */
    method Alloc() returns (t: Option<nat>)
      requires 512 * used <= mem.Length && mem.Length % 512 == 0
      modifies this`used, mem
      ensures t == if 512 * old(used) < mem.Length then Some(old(used)) else None
      ensures used == old(used) + if t.Some? then 1 else 0
      ensures 512 * used <= mem.Length
      ensures t.Some? ==> forall k :: 512 * t.value <= k < 512 * t.value + 512 ==> mem[k] == 0
      ensures forall k :: 0 <= k < mem.Length && k < 512 * old(used) ==> mem[k] == old(mem[k])
    {
      if 512 * used >= mem.Length {
        return None;
      }
      var n := used;
      used := used + 1;
      for i := 0 to 512
        invariant used == n + 1
        invariant forall k :: 512 * n <= k < 512 * n + i ==> mem[k] == 0
        invariant forall k :: 0 <= k < 512 * n ==> mem[k] == old(mem[k])
      {
        mem[512 * n + i] := 0;
      }
      t := Some(n);
    }

    /** One level of map4k: follow the entry, or hang a fresh table on it. Large pages
        are refused where the source looks for them. */
    method Descend(t: nat, i: Index, refuseHuge: bool) returns (r: Option<nat>)
      requires Valid() && t < used && shape.level[t] > 1 && (refuseHuge || t !in huge)
      modifies this`used, this`shape, mem
      ensures Valid() && used >= old(used)
      ensures shape.level[..old(used)] == old(shape.level) && shape.parent[..old(used)] == old(shape.parent)
      ensures SameWalk(old(mem[..]), mem[..], base)
      ensures r.Some? ==> Link(mem[..], base, t, i) == r && r.value < used && shape.level[r.value] == shape.level[t] - 1
      ensures old(Link(mem[..], base, t, i)).Some? ==>
                r == old(Link(mem[..], base, t, i)) && used == old(used) && mem[..] == old(mem[..])
      ensures old(Present(At(mem[..], t, i)) && Huge(At(mem[..], t, i))) ==> r == None
      ensures !old(Present(At(mem[..], t, i))) ==> (r.Some? <==> 512 * old(used) < mem.Length)
      ensures !old(Present(At(mem[..], t, i))) && r.Some? ==> used == old(used) + 1 && r == Some(old(used))
      ensures !old(Present(At(mem[..], t, i))) && r.Some? ==> forall k :: 0 <= k < 512 ==> At(mem[..], r.value, k) == 0
      ensures forall t', i' :: 0 <= t' < old(used) && 0 <= i' < 512 && (t', i') != (t, i) ==>
                At(mem[..], t', i') == old(At(mem[..], t', i'))
    {
      ghost var m0 := mem[..];
      var e := mem[512 * t + i];
      assert SlotOk(m0, base, shape, huge, t, i);
      if !Present(e) {
        var page := Alloc();
        if page.None? {
          assert mem[..] == m0;
          return None;
        }
        var n := page.value;
        mem[512 * t + i] := LinkEntry(base + 4096 * n);
        LinkedTable(m0, mem[..], base, shape, huge, t, i, n);
        shape := Shape(shape.level + [shape.level[t] - 1], shape.parent + [(t, i)]);
        return Some(n);
      }
      if refuseHuge && Huge(e) {
        return None;
      }
      r := Some((FrameOf(e) - base) / 4096);
    }

    /** The two lower levels of map4k's descent, from a level-3 table. */
    method DescendTwo(t: nat, va: Va) returns (pt: Option<nat>)
      requires Valid() && t < used && shape.level[t] == 3
      modifies this`used, this`shape, mem
      ensures Valid() && used >= old(used)
      ensures shape.level[..old(used)] == old(shape.level) && shape.parent[..old(used)] == old(shape.parent)
      ensures SameWalk(old(mem[..]), mem[..], base)
      ensures pt.Some? <==> !old(MeetsHuge3(mem[..], base, t, va))
                            && 512 * (old(used) + old(Missing3(mem[..], base, t, va))) <= mem.Length
      ensures pt.Some? ==>
                used == old(used) + old(Missing3(mem[..], base, t, va)) && Reaches3(mem[..], base, t, va, pt.value)
      ensures forall i :: 0 <= i < 512 ==> At(mem[..], 0, i) == old(At(mem[..], 0, i))
    {
      ghost var m0 := mem[..];
      assert SlotOk(m0, base, shape, huge, t, va.i3);
      var pd := Descend(t, va.i3, true);
      ghost var m1 := mem[..];
      if pd.None? {
        return None;
      }
      assert SlotOk(m1, base, shape, huge, pd.value, va.i2);
      pt := Descend(pd.value, va.i2, true);
      if pt.Some? {
        assert Link(mem[..], base, t, va.i3) == pd;
      }
    }

    /** map4k's descent from the root to the last-level table. */
    method DescendAll(va: Va) returns (pt: Option<nat>)
      requires Valid()
      modifies this`used, this`shape, mem
      ensures Valid() && used >= old(used)
      ensures shape.level[..old(used)] == old(shape.level) && shape.parent[..old(used)] == old(shape.parent)
      ensures SameWalk(old(mem[..]), mem[..], base)
      ensures pt.Some? <==> !old(MeetsHuge(mem[..], base, va))
                            && 512 * (old(used) + old(Missing(mem[..], base, va))) <= mem.Length
      ensures pt.Some? ==> used == old(used) + old(Missing(mem[..], base, va)) && Reaches(mem[..], base, va, pt.value)
    {
      ghost var m0 := mem[..];
      assert SlotOk(m0, base, shape, huge, 0, va.i4);
      var pdpt := Descend(0, va.i4, false);
      ghost var m1 := mem[..];
      if pdpt.None? {
        return None;
      }
      if Link(m0, base, 0, va.i4) == None {
        assert At(m1, pdpt.value, va.i3) == 0;
      }
      pt := DescendTwo(pdpt.value, va);
      if pt.Some? {
        assert At(mem[..], 0, va.i4) == At(m1, 0, va.i4);
      }
    }

    /** map4k: on success the translation changes for exactly the page of v. It fails
        exactly when a large page is in the way or the pool cannot supply the missing
        tables, and then no translation changes. */
    method Map4K(v: u64, ph: u64) returns (ok: bool)
      requires Valid()
      modifies this`used, this`shape, mem
      ensures Valid() && used >= old(used)
      ensures shape.level[..old(used)] == old(shape.level) && shape.parent[..old(used)] == old(shape.parent)
      ensures ok <==> !old(MeetsHuge(mem[..], base, Split(v)))
                      && 512 * (old(used) + old(Missing(mem[..], base, Split(v)))) <= mem.Length
      ensures ok ==> used == old(used) + old(Missing(mem[..], base, Split(v))) && Missing(mem[..], base, Split(v)) == 0
      ensures ok ==> Redirects(old(mem[..]), mem[..], base, v, ph)
      ensures !ok ==> SameWalk(old(mem[..]), mem[..], base)
    {
      var va := Split(v);
      ghost var m0 := mem[..];
      var pt := DescendAll(va);
      ghost var m3 := mem[..];
      if pt.None? {
        return false;
      }
      var e := LeafEntry(ph);
      mem[512 * pt.value + va.i1] := e;
      assert mem[..] == m3[512 * pt.value + va.i1 := e];
      LeafTranslates(m0, m3, base, shape, huge, v, pt.value, ph);
      ok := true;
    }
  }
}
