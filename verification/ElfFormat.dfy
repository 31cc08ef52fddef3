/** ELF64 images as the gABI lays them out, written field by field, and what the validator
    reads from them. */
module ElfFormat {
  import opened Words
  import opened Layouts
  import opened Elf64

  /** The header fields that the validator does not use. */
  datatype HeaderRest = HeaderRest(pad: seq<u8>, shoff: u64, flags: u32, sections: seq<u8>)

  const IDENT: seq<u8> := [0x7f, 0x45, 0x4c, 0x46, 2, 1, 1]

  /** Identification, type, machine and version. */
  function HeaderFront(r: HeaderRest): (s: seq<u8>)
    requires |r.pad| == 9
    ensures |s| == 24
  {
    IDENT + r.pad + Put16(2) + Put16(62) + Put32(1)
  }

  /** The header of a static x86-64 executable: then entry point, table offset, section
      offset, flags, header size, size and number of program headers, section fields. */
  function Header(entry: u64, phoff: u64, phnum: u16, r: HeaderRest): (s: seq<u8>)
    requires |r.pad| == 9 && |r.sections| == 6
    ensures |s| == 64
  {
    HeaderFront(r) + Put64(entry) + Put64(phoff) + Put64(r.shoff) + Put32(r.flags) + Put16(64) + Put16(56)
    + Put16(phnum) + r.sections
  }

  /** A program header: type, flags, offset, virtual and physical address, sizes in file and
      memory, alignment. */
  function PhdrBytes(p: Phdr, paddr: u64): (s: seq<u8>)
    ensures |s| == 56
  {
    Put32(p.ptype) + Put32(p.flags) + Put64(p.offset) + Put64(p.vaddr) + Put64(paddr) + Put64(p.filesz)
    + Put64(p.memsz) + Put64(p.align)
  }

  /** A program header table. */
  function Table(ph: seq<Phdr>, paddr: u64): (s: seq<u8>)
    ensures |s| == 56 * |ph|
  {
    if ph == [] then [] else Table(ph[..|ph| - 1], paddr) + PhdrBytes(ph[|ph| - 1], paddr)
  }

  lemma FrontReads(s: seq<u8>, r: HeaderRest)
    requires |r.pad| == 9 && HeaderFront(r) <= s
    ensures |s| >= 24 && s[..7] == IDENT && Le16(s, 16) == 2 && Le16(s, 18) == 62 && Le32(s, 20) == 1
  {
    var p1 := IDENT + r.pad;
    var p2 := p1 + Put16(2);
    var p3 := p2 + Put16(62);
    Word32At(s, p3, 1);
    Word16At(s, p2, 62);
    Word16At(s, p1, 2);
    Before(IDENT, r.pad, s);
    FieldAt(s, [], IDENT);
  }

  lemma BackReads(s: seq<u8>, q: seq<u8>, entry: u64, phoff: u64, phnum: u16, r: HeaderRest)
    requires |q| == 24 && |r.sections| == 6
    requires q + Put64(entry) + Put64(phoff) + Put64(r.shoff) + Put32(r.flags) + Put16(64) + Put16(56) + Put16(phnum) <= s
    ensures q <= s && |s| >= 58 && Le64(s, 24) == entry && Le64(s, 32) == phoff
    ensures Le16(s, 52) == 64 && Le16(s, 54) == 56 && Le16(s, 56) == phnum
  {
    var p1 := q + Put64(entry);
    var p2 := p1 + Put64(phoff);
    var p3 := p2 + Put64(r.shoff);
    var p4 := p3 + Put32(r.flags);
    var p5 := p4 + Put16(64);
    var p6 := p5 + Put16(56);
    Word16At(s, p6, phnum);
    Word16At(s, p5, 56);
    Word16At(s, p4, 64);
    Before(p3, Put32(r.flags), s);
    Before(p2, Put64(r.shoff), s);
    Word64At(s, p1, phoff);
    Word64At(s, q, entry);
  }

  lemma HeaderReads(s: seq<u8>, entry: u64, phoff: u64, phnum: u16, r: HeaderRest)
    requires |r.pad| == 9 && |r.sections| == 6 && Header(entry, phoff, phnum, r) <= s
    ensures |s| >= 64 && s[..7] == IDENT && Le16(s, 16) == 2 && Le16(s, 18) == 62 && Le32(s, 20) == 1
    ensures Le64(s, 24) == entry && Le64(s, 32) == phoff && Le16(s, 52) == 64 && Le16(s, 54) == 56
            && Le16(s, 56) == phnum
  {
    var q := HeaderFront(r);
    var p := q + Put64(entry) + Put64(phoff) + Put64(r.shoff) + Put32(r.flags) + Put16(64) + Put16(56) + Put16(phnum);
    Before(p, r.sections, s);
    BackReads(s, q, entry, phoff, phnum, r);
    FrontReads(s, r);
  }

  /** Reading a program header that stands after some bytes. */
  lemma PhdrReads(s: seq<u8>, q: seq<u8>, p: Phdr, paddr: u64)
    requires q + PhdrBytes(p, paddr) <= s
    ensures q <= s && |q| + 56 <= |s|
    ensures var at := |q|;
            p == Phdr(Le32(s, at), Le32(s, at + 4), Le64(s, at + 8), Le64(s, at + 16), Le64(s, at + 32),
                      Le64(s, at + 40),
                      Le64(s, at + 48))
  {
    var p1 := q + Put32(p.ptype);
    var p2 := p1 + Put32(p.flags);
    var p3 := p2 + Put64(p.offset);
    var p4 := p3 + Put64(p.vaddr);
    var p5 := p4 + Put64(paddr);
    var p6 := p5 + Put64(p.filesz);
    var p7 := p6 + Put64(p.memsz);
    assert q + PhdrBytes(p, paddr) == p7 + Put64(p.align);
    Word64At(s, p7, p.align);
    Word64At(s, p6, p.memsz);
    Word64At(s, p5, p.filesz);
    Before(p4, Put64(paddr), s);
    Word64At(s, p3, p.vaddr);
    Word64At(s, p2, p.offset);
    Word32At(s, p1, p.flags);
    Word32At(s, q, p.ptype);
  }

  lemma {:induction false} TableGrows(ph: seq<Phdr>, paddr: u64, n: nat)
    requires n <= |ph|
    ensures Table(ph[..n], paddr) <= Table(ph, paddr)
  {
    if n < |ph| {
      TableGrows(ph[..|ph| - 1], paddr, n);
      assert ph[..|ph| - 1][..n] == ph[..n];
    } else {
      assert ph[..n] == ph;
    }
  }

  /** An executable with its program headers right behind the header, and anything after. */
  function ElfImage(entry: u64, ph: seq<Phdr>, paddr: u64, r: HeaderRest, rest: seq<u8>): (s: seq<u8>)
    requires |r.pad| == 9 && |r.sections| == 6 && |ph| <= 128
  {
    Header(entry, 64, |ph|, r) + Table(ph, paddr) + rest
  }

  lemma Longer(h: seq<u8>, a: seq<u8>, b: seq<u8>, s: seq<u8>)
    requires a <= b && h + b <= s
    ensures h + a <= s
  {
  }

  lemma PhdrInTable(s: seq<u8>, h: seq<u8>, ph: seq<Phdr>, paddr: u64, i: nat)
    requires i < |ph| && h + Table(ph, paddr) <= s
    ensures h + Table(ph[..i], paddr) + PhdrBytes(ph[i], paddr) <= s
  {
    TableGrows(ph, paddr, i + 1);
    assert ph[..i + 1][..i] == ph[..i];
    Longer(h, Table(ph[..i + 1], paddr), Table(ph, paddr), s);
    Regroup(h, Table(ph[..i], paddr), PhdrBytes(ph[i], paddr));
  }

  lemma TableReads(s: Image, h: seq<u8>, ph: seq<Phdr>, paddr: u64, i: nat)
    requires |h| == 64 && h + Table(ph, paddr) <= s && i < |ph|
    requires HeaderError(s) == None && PhOff(s) == 64 && PhNum(s) == |ph|
    ensures PhdrAt(s, i) == ph[i]
  {
    PhdrInTable(s, h, ph, paddr, i);
    PhdrReads(s, h + Table(ph[..i], paddr), ph[i], paddr);
  }

  /** The validator reads entry point and program headers as they were written. */
  lemma ImageReads(entry: u64, ph: seq<Phdr>, paddr: u64, r: HeaderRest, rest: seq<u8>)
    requires |r.pad| == 9 && |r.sections| == 6 && 0 < |ph| <= 128 && |rest| < 0x1_0000_0000
    ensures var s := ElfImage(entry, ph, paddr, r, rest);
            |s| < TWO_64 && HeaderError(s) == None && Entry(s) == entry && Phdrs(s) == ph
  {
    var s: Image := ElfImage(entry, ph, paddr, r, rest);
    var h := Header(entry, 64, |ph|, r);
    assert h + Table(ph, paddr) <= s && h <= s;
    HeaderReads(s, entry, 64, |ph|, r);
    assert s[0] == s[..7][0] && s[1] == s[..7][1] && s[2] == s[..7][2] && s[3] == s[..7][3] && s[4] == s[..7][4]
           && s[5] == s[..7][5] && s[6] == s[..7][6];
    forall i | 0 <= i < |ph|
      ensures PhdrAt(s, i) == ph[i]
    {
      TableReads(s, h, ph, paddr, i);
    }
  }
}
