/** A small image on which both loaders go wrong: one segment of two bytes, placed one byte
    above its own source in the BIOS staging buffer, at an address that is not page aligned. */
module Witness {
  import opened Words
  import opened Elf64
  import BiosLoader
  import UefiLoader

  const ENTRY := 0xffff_ffff_80e0_0079

  /** Byte i: the ELF header, one program header at 64, and the bytes 1 and 2 at 120. */
  function ByteAt(i: nat): (r: u8)
  {
    match i
    case 0 => 0x7f
    case 1 => 0x45
    case 2 => 0x4c
    case 3 => 0x46
    case 4 => 2
    case 5 => 1
    case 6 => 1
    case 16 => 2
    case 18 => 0x3e
    case 20 => 1
    case 32 => 64
    case 52 => 64
    case 54 => 56
    case 56 => 1
    case 64 => 1
    case 68 => 5
    case 72 => 120
    case 96 => 2
    case 104 => 2
    case 112 => 1
    case 120 => 1
    case 121 => 2
    case _ => if i == 24 || i == 80 then 0x79
              else if i == 26 || i == 82 then 0xe0
              else if i == 27 || i == 83 then 0x80
              else if 28 <= i < 32 || 84 <= i < 88 then 0xff
              else 0
  }

  ghost predicate IsTiny(image: Image)
  {
    |image| == 122 && forall i :: 0 <= i < 122 ==> image[i] == ByteAt(i)
  }

  const SEGMENT: Phdr := Phdr(1, 5, 120, ENTRY, 2, 2, 1)

  lemma HeaderFields(image: Image)
    requires IsTiny(image)
    ensures Le32(image, 20) == 1 && Le16(image, 16) == 2 && Le16(image, 18) == 62
    ensures Le16(image, 52) == 64 && Le16(image, 54) == 56 && Le16(image, 56) == 1
  {
  }

  lemma HeaderAddresses(image: Image)
    requires IsTiny(image)
    ensures Entry(image) == ENTRY && PhOff(image) == 64
  {
    EntryField(image);
    assert Le32(image, 32) == 64 && Le32(image, 36) == 0;
  }

  lemma EntryField(image: Image)
    requires IsTiny(image)
    ensures Le32(image, 24) == 0x80e0_0079 && Le32(image, 28) == 0xffff_ffff
  {
  }

  lemma HeaderIsGood(image: Image)
    requires IsTiny(image)
    ensures HeaderError(image) == None && Entry(image) == ENTRY && PhOff(image) == 64 && PhNum(image) == 1
  {
    HeaderFields(image);
    HeaderAddresses(image);
    MagicIsGood(image);
  }

  lemma MagicIsGood(image: Image)
    requires IsTiny(image)
    ensures image[0] == 0x7f && image[1] == 'E' as int && image[2] == 'L' as int && image[3] == 'F' as int
    ensures image[4] == 2 && image[5] == 1 && image[6] == 1
  {
  }

  lemma PhdrIsSegment(image: Image)
    requires IsTiny(image) && HeaderError(image) == None && PhOff(image) == 64 && PhNum(image) == 1
    ensures PhdrAt(image, 0) == SEGMENT
  {
    assert Le32(image, 64) == 1 && Le32(image, 68) == 5;
    assert Le32(image, 72) == 120 && Le32(image, 76) == 0;
    assert Le32(image, 80) == 0x80e0_0079 && Le32(image, 84) == 0xffff_ffff;
    assert Le32(image, 96) == 2 && Le32(image, 100) == 0 && Le32(image, 104) == 2 && Le32(image, 108) == 0;
    assert Le32(image, 112) == 1 && Le32(image, 116) == 0;
  }

  lemma OneSegment(p: Phdr)
    ensures ScanError([p], 122) == StepError([p], 0, 122)
    ensures LoadList([p]) == (if Loads(p) then [p] else [])
  {
    var l := [p];
    assert l[..0] == [];
  }

  lemma OneBound(p: Phdr)
    ensures LowEnd([p]) == p.vaddr && HighEnd([p]) == p.vaddr + p.memsz
  {
    var l := [p];
    assert l[..0] == [];
  }

  lemma TableIsGood()
    ensures LoadList([SEGMENT]) == [SEGMENT]
            && TableVerdict([SEGMENT], 122, ENTRY) == Ok(Summary(ENTRY, ENTRY, ENTRY + 2, 1))
  {
    OneSegment(SEGMENT);
    OneBound(SEGMENT);
    assert SegmentError(SEGMENT, 122) == None;
    var l := [SEGMENT];
    assert EntersExecutable(l[0], ENTRY);
  }

  lemma VerdictIsGood(image: Image)
    requires IsTiny(image)
    ensures Verdict(image) == Ok(Summary(ENTRY, ENTRY, ENTRY + 2, 1)) && Segments(image) == [SEGMENT]
  {
    HeaderIsGood(image);
    PhdrIsSegment(image);
    assert Phdrs(image) == [SEGMENT];
    TableIsGood();
  }

  /** The BIOS loader accepts the image and reports success, yet its segment is not in place:
      the copy has overwritten the byte 2 with 1 before reading it. */
  lemma BiosLoadsWrong(mem: seq<u8>, image: Image)
    requires IsTiny(image) && BiosLoader.Staged(mem, image)
    ensures BiosLoader.Accepted(image)
    ensures var o := BiosLoader.Rounds(mem, |image|, 1, 0); o.done && !BiosLoader.LaidOver(mem, o.mem, image, [SEGMENT])
  {
    VerdictIsGood(image);
    BiosLoader.SingleSegment(mem, image, [SEGMENT]);
    SecondByteIsBad(image);
  }

  lemma SecondByteIsBad(image: Image)
    requires IsTiny(image)
    ensures !BiosLoader.Yields(image, image, ToSegment(SEGMENT), SEGMENT)
  {
    assert image[120] == 1 && image[121] == 2;
    assert !BiosLoader.ByteGood(image, image, ToSegment(SEGMENT), SEGMENT, 1);
  }

  /** The UEFI loader accepts it too. Its lowest address is not page aligned, and what the
      kernel sees there is not the first byte of the segment. */
  lemma UefiLoadsWrong(image: Image)
    requires IsTiny(image)
    ensures Verdict(image) == Ok(Summary(ENTRY, ENTRY, ENTRY + 2, 1)) && UefiLoader.Acceptable(Verdict(image).value)
    ensures ENTRY % 4096 == 0x79 && !UefiLoader.LandsRight(image, Segments(image), ENTRY, ENTRY + 2, ENTRY)
  {
    VerdictIsGood(image);
    FirstByteIsBad(image);
  }

  lemma FirstByteIsBad(image: Image)
    requires IsTiny(image)
    ensures ENTRY % 4096 == 0x79 && ImageByte(image, [SEGMENT], ENTRY + 0x79, 0) == 0
            && ImageByte(image, [SEGMENT], ENTRY, 0) == 1
  {
    var l := [SEGMENT];
    assert l[..0] == [];
    assert image[120] == 1;
  }

  /** Such an image, staged in memory. */
  lemma Counterexample() returns (mem: seq<u8>, image: Image)
    ensures BiosLoader.Staged(mem, image) && BiosLoader.Accepted(image) && Segments(image) == [SEGMENT]
    ensures var o := BiosLoader.Rounds(mem, |image|, 1, 0);
            o.done && !BiosLoader.LaidOver(mem, o.mem, image, [SEGMENT])
    ensures Verdict(image).Ok? && UefiLoader.Acceptable(Verdict(image).value)
    ensures !UefiLoader.LandsRight(image, [SEGMENT], ENTRY, ENTRY + 2, ENTRY)
  {
    mem, image := TinyStaged();
    VerdictIsGood(image);
    BiosLoadsWrong(mem, image);
    UefiLoadsWrong(image);
  }

  lemma TinyStaged() returns (mem: seq<u8>, image: Image)
    ensures IsTiny(image) && BiosLoader.Staged(mem, image)
  {
    image := seq(122, i requires 0 <= i < 122 => ByteAt(i));
    var at := BiosLoader.KERNEL_IMAGE_ADDR;
    mem := seq(BiosLoader.KERNEL_PHYS_LIMIT, k requires 0 <= k => if at <= k < at + 122 then ByteAt(k - at) else 0);
    assert mem[at..at + 122] == image;
  }
}
