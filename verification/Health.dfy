/** The boot-health record: layout, checksum, and the operations of health.c. */
module Health {
  import opened Words
  import opened Crc32

  const MAGIC: u32 := 0x4842_4A53
  const VERSION: u16 := 1
  const RECORD_SIZE: u16 := 56
  const MAX_ATTEMPTS: u32 := 3

  const CURRENT: u32 := 0
  const PREVIOUS: u32 := 1
  const RECOVERY: u32 := 2

  const FAILURE_NONE: u32 := 0
  const FAILURE_KERNEL_FILE: u32 := 2
  const FAILURE_KERNEL: u32 := 5
  const FAILURE_DESKTOP: u32 := 7

  const ZERO: u32 := 0

  datatype Record = Record(magic: u32, version: u16, size: u16, generation: u64, selectedSlot: u32, lastGoodSlot: u32,
                           pendingGood: u32, attemptCount: u32, lastFailureStage: u32, reserved0: u32,
                           updateGeneration: u64, reserved1: u32, checksum: u32)

  // ----- layout -----

  /** The packed little-endian structure as 14 words, the last one the checksum. */
  function WordsOf(r: Record): (w: seq<u32>)
    ensures |w| == 14
  {
    var version: int, size: int := r.version, r.size;
    [r.magic, version + 0x1_0000 * size, r.generation % TWO_32, r.generation / TWO_32, r.selectedSlot, r.lastGoodSlot,
     r.pendingGood, r.attemptCount, r.lastFailureStage, r.reserved0, r.updateGeneration % TWO_32, r.updateGeneration / TWO_32,
     r.reserved1, r.checksum]
  }

  function Join(low: u32, high: u32): (r: u64)
  {
    var l: int, h: int := low, high;
    l + TWO_32 * h
  }

  function FromWords(w: seq<u32>): (r: Record)
    requires |w| == 14
  {
    Record(w[0], w[1] % 0x1_0000, w[1] / 0x1_0000, Join(w[2], w[3]), w[4], w[5], w[6], w[7], w[8], w[9],
           Join(w[10], w[11]), w[12], w[13])
  }

  function PutAll(w: seq<u32>): (b: seq<u8>)
    ensures |b| == 4 * |w|
  {
    if w == [] then [] else PutAll(w[..|w| - 1]) + Put32(w[|w| - 1])
  }

  function GetAll(b: seq<u8>, n: nat): (w: seq<u32>)
    requires 4 * n <= |b|
    ensures |w| == n
  {
    seq(n, i requires 0 <= i < n => Le32(b, 4 * i))
  }

  function Encode(r: Record): (b: seq<u8>)
    ensures |b| == 56
  {
    PutAll(WordsOf(r))
  }

  function Decode(b: seq<u8>): (r: Record)
    requires |b| >= 56
  {
    FromWords(GetAll(b, 14))
  }

  /** The 52 bytes in front of the checksum. */
  function Body(r: Record): (b: seq<u8>)
    ensures |b| == 52
  {
    PutAll(WordsOf(r)[..13])
  }

  lemma {:induction false} PutAllAt(w: seq<u32>, i: nat)
    requires i < |w|
    ensures PutAll(w)[4 * i..4 * i + 4] == Put32(w[i])
  {
    var n := |w| - 1;
    if i < n {
      PutAllAt(w[..n], i);
      assert PutAll(w)[4 * i..4 * i + 4] == PutAll(w[..n])[4 * i..4 * i + 4];
    }
  }

  lemma WordInPrefix(p: seq<u8>, rest: seq<u8>, at: nat, x: u32)
    requires at + 4 <= |p| && p[at..at + 4] == Put32(x)
    ensures Le32(p + rest, at) == x
  {
    assert (p + rest)[at..at + 4] == p[at..at + 4];
    Le32Put32(p + rest, at, x);
  }

  lemma WordAt(w: seq<u32>, rest: seq<u8>, i: nat)
    requires i < |w|
    ensures Le32(PutAll(w) + rest, 4 * i) == w[i]
  {
    PutAllAt(w, i);
    WordInPrefix(PutAll(w), rest, 4 * i, w[i]);
  }

  lemma GetPut(w: seq<u32>, rest: seq<u8>)
    ensures GetAll(PutAll(w) + rest, |w|) == w
  {
    forall i | 0 <= i < |w|
      ensures GetAll(PutAll(w) + rest, |w|)[i] == w[i]
    {
      WordAt(w, rest, i);
    }
  }

  lemma WordsRoundTrip(r: Record)
    ensures FromWords(WordsOf(r)) == r
  {
    HalvesRoundTrip(r.generation);
    HalvesRoundTrip(r.updateGeneration);
  }

  lemma HalvesRoundTrip(x: u64)
    ensures 0 <= x / TWO_32 < TWO_32 && Join(x % TWO_32, x / TWO_32) == x
  {
  }

  /** A record written to the start of a sector is read back unchanged. */
  lemma DecodeEncode(r: Record, rest: seq<u8>)
    ensures Decode(Encode(r) + rest) == r
  {
    GetPut(WordsOf(r), rest);
    WordsRoundTrip(r);
  }

  lemma WordOfRecord(r: Record, i: nat)
    requires i < 14
    ensures Le32(Encode(r), 4 * i) == WordsOf(r)[i]
  {
    WordAt(WordsOf(r), [], i);
    assert PutAll(WordsOf(r)) + [] == Encode(r);
  }

  /** Where the fields of the packed structure lie. */
  lemma RecordLayout(r: Record)
    ensures var b := Encode(r);
            && Le32(b, 0) == r.magic && Le16(b, 4) == r.version && Le16(b, 6) == r.size && Le64(b, 8) == r.generation
            && Le32(b, 16) == r.selectedSlot && Le32(b, 20) == r.lastGoodSlot && Le32(b, 24) == r.pendingGood
            && Le32(b, 28) == r.attemptCount && Le32(b, 32) == r.lastFailureStage && Le32(b, 36) == r.reserved0
            && Le64(b, 40) == r.updateGeneration && Le32(b, 48) == r.reserved1 && Le32(b, 52) == r.checksum
  {
    WordOfRecord(r, 0);
    HalfWords(r);
    WordOfRecord(r, 2);
    WordOfRecord(r, 3);
    HalvesRoundTrip(r.generation);
    WordOfRecord(r, 4);
    WordOfRecord(r, 5);
    WordOfRecord(r, 6);
    WordOfRecord(r, 7);
    WordOfRecord(r, 8);
    WordOfRecord(r, 9);
    WordOfRecord(r, 10);
    WordOfRecord(r, 11);
    HalvesRoundTrip(r.updateGeneration);
    WordOfRecord(r, 12);
    WordOfRecord(r, 13);
  }

  lemma HalfWords(r: Record)
    ensures Le16(Encode(r), 4) == r.version && Le16(Encode(r), 6) == r.size
  {
    WordOfRecord(r, 1);
    var b := Encode(r);
    TwoHalves(Le16(b, 4), Le16(b, 6), r.version, r.size);
  }

  lemma TwoHalves(a: u16, b: u16, c: u16, d: u16)
    requires a + 0x1_0000 * b as int == c + 0x1_0000 * d as int
    ensures a == c && b == d
  {
  }

  /** The checksum covers the bytes in front of it. */
  lemma ChecksumCovers(r: Record)
    ensures Checksum(r) == Crc(Encode(r)[..52])
  {
    EncodeSplits(r);
    assert Encode(r)[..52] == Body(r);
  }

  // ----- validity -----

  function Checksum(r: Record): (c: u32) { Crc(Body(r)) }

  function Sealed(r: Record): (s: Record) { r.(checksum := Checksum(r)) }

  predicate SlotValid(slot: int) { slot <= RECOVERY }

  predicate FieldsValid(r: Record)
  {
    && r.magic == MAGIC && r.version == VERSION && r.size == RECORD_SIZE
    && SlotValid(r.selectedSlot) && SlotValid(r.lastGoodSlot) && r.pendingGood <= 1
       && r.lastFailureStage <= FAILURE_DESKTOP
  }

  /** josh_boot_health_valid. */
  predicate Valid(r: Record) { FieldsValid(r) && r.checksum == Checksum(r) }

  lemma SealedIsValid(r: Record)
    requires FieldsValid(r)
    ensures Valid(Sealed(r))
  {
    assert WordsOf(Sealed(r))[..13] == WordsOf(r)[..13];
  }

  lemma EncodeSplits(r: Record)
    ensures Encode(r) == Body(r) + Put32(r.checksum)
  {
    var w := WordsOf(r);
    assert w[..|w| - 1] == w[..13];
  }

  /** No two valid records differ only inside four consecutive bytes. */
  lemma BurstInvalidates(r: Record, r': Record, at: nat)
    requires Valid(r) && Encode(r') != Encode(r)
    requires forall i :: 0 <= i < 56 && !(at <= i < at + 4) ==> Encode(r')[i] == Encode(r)[i]
    ensures !Valid(r')
  {
    if Valid(r') {
      EncodeSplits(r);
      EncodeSplits(r');
      ResidueIsConstant(Body(r), Body(r'));
      BurstDetected(Encode(r), Encode(r'), at);
    }
  }

  lemma {:induction false} WordWindow(w: seq<u32>, w': seq<u32>, k: nat, i: nat)
    requires |w| == |w'| && (forall j :: 0 <= j < |w| && j != k ==> w[j] == w'[j])
    requires i < 4 * |w| && !(4 * k <= i < 4 * k + 4)
    ensures PutAll(w)[i] == PutAll(w')[i]
  {
    var q := i / 4;
    PutAllAt(w, q);
    PutAllAt(w', q);
    assert PutAll(w)[i] == PutAll(w)[4 * q..4 * q + 4][i - 4 * q];
    assert PutAll(w')[i] == PutAll(w')[4 * q..4 * q + 4][i - 4 * q];
  }

  /** The two records differ in one word of the layout and agree in all others. */
  ghost predicate OneWordApart(r: Record, r': Record)
  {
    r != r' && exists k :: 0 <= k < 14 && OthersEqual(WordsOf(r), WordsOf(r'), k)
  }

  predicate OthersEqual(w: seq<u32>, w': seq<u32>, k: nat)
  {
    |w| == |w'| && forall j :: 0 <= j < |w| && j != k ==> w[j] == w'[j]
  }

  lemma EncodeInjective(r: Record, r': Record)
    requires Encode(r) == Encode(r')
    ensures r == r'
  {
    DecodeEncode(r, []);
    DecodeEncode(r', []);
    assert Encode(r) + [] == Encode(r') + [];
  }

  /** Changing any one 32-bit word of a valid record, its checksum included, makes it
      invalid. */
  lemma WordChangeInvalidates(r: Record, r': Record)
    requires Valid(r) && OneWordApart(r, r')
    ensures !Valid(r')
  {
    var k :| 0 <= k < 14 && OthersEqual(WordsOf(r), WordsOf(r'), k);
    forall i | 0 <= i < 56 && !(4 * k <= i < 4 * k + 4)
      ensures Encode(r')[i] == Encode(r)[i]
    {
      WordWindow(WordsOf(r), WordsOf(r'), k, i);
    }
    if Encode(r) == Encode(r') {
      EncodeInjective(r, r');
    }
    BurstInvalidates(r, r', 4 * k);
  }

  // ----- records as bytes -----

  lemma WordsOfWords(w: seq<u32>)
    requires |w| == 14
    ensures WordsOf(FromWords(w)) == w
  {
    JoinHalves(w[2], w[3]);
    JoinHalves(w[10], w[11]);
  }

  lemma JoinHalves(low: u32, high: u32)
    ensures Join(low, high) % TWO_32 == low && Join(low, high) / TWO_32 == high
  {
  }

  lemma {:induction false} PutGet(b: seq<u8>, n: nat)
    requires 4 * n <= |b|
    ensures PutAll(GetAll(b, n)) == b[..4 * n]
  {
    if n > 0 {
      PutGet(b, n - 1);
      assert GetAll(b, n)[..n - 1] == GetAll(b, n - 1);
      PutLe32(b, 4 * (n - 1));
    }
  }

  lemma PutLe32(b: seq<u8>, at: nat)
    requires at + 4 <= |b|
    ensures Put32(Le32(b, at)) == b[at..at + 4]
  {
    var x, y := Put32(Le32(b, at)), b[at..at + 4];
    Le32Put32(x, 0, Le32(b, at));
    assert Le32(y, 0) == Le32(b, at) == Le32(x, 0);
    Le32Injective(x, y);
  }

  /** Reading a record and writing it gives the bytes back. */
  lemma EncodeDecode(b: seq<u8>)
    requires |b| >= 56
    ensures Encode(Decode(b)) == b[..56]
  {
    WordsOfWords(GetAll(b, 14));
    PutGet(b, 14);
  }

  /** Which bytes are a valid record: magic, version, size, slots up to 2, a pending flag,
      a failure stage up to 7, and the CRC of the first 52 bytes at byte 52. */
  lemma ValidBytes(b: seq<u8>)
    requires |b| >= 56
    ensures Valid(Decode(b))
       <==> && Le32(b, 0) == 0x4842_4A53 && Le16(b, 4) == 1 && Le16(b, 6) == 56
            && Le32(b, 16) <= 2 && Le32(b, 20) <= 2 && Le32(b, 24) <= 1 && Le32(b, 32) <= 7
            && Le32(b, 52) == Crc(b[..52])
  {
    var r := Decode(b);
    EncodeDecode(b);
    RecordLayout(r);
    ChecksumCovers(r);
    SamePrefix(b, Encode(r));
    assert Encode(r)[..52] == b[..52];
  }

  lemma SamePrefix(b: seq<u8>, c: seq<u8>)
    requires |b| >= 56 && c == b[..56]
    ensures Le32(b, 0) == Le32(c, 0) && Le16(b, 4) == Le16(c, 4) && Le16(b, 6) == Le16(c, 6)
            && Le32(b, 16) == Le32(c, 16)
    ensures Le32(b, 20) == Le32(c, 20) && Le32(b, 24) == Le32(c, 24) && Le32(b, 32) == Le32(c, 32)
            && Le32(b, 52) == Le32(c, 52)
  {
  }

  // ----- the operations on values -----

  function DefaultRecord(): (r: Record)
  {
    Sealed(Record(MAGIC, VERSION, RECORD_SIZE, ZERO, CURRENT, CURRENT, ZERO, ZERO, FAILURE_NONE, ZERO, ZERO, ZERO,
                  ZERO))
  }

  lemma DefaultIsValid()
    ensures Valid(DefaultRecord()) && DefaultRecord().generation == 0
  {
    SealedIsValid(Record(MAGIC, VERSION, RECORD_SIZE, ZERO, CURRENT, CURRENT, ZERO, ZERO, FAILURE_NONE, ZERO, ZERO,
                         ZERO, ZERO));
  }

  function NextGeneration(g: u64): (r: u64) { Wrap64(g + 1) }

  function Begun(r: Record, candidate: u32): (s: Option<Record>)
  {
    if !Valid(r) || !SlotValid(candidate) || candidate == RECOVERY then None
    else
      Some(Sealed(r.(generation := NextGeneration(r.generation), updateGeneration := NextGeneration(r.updateGeneration),
                     selectedSlot := candidate, pendingGood := 1, attemptCount := 0, lastFailureStage := FAILURE_NONE)))
  }

  /** Where a slot that used up its attempts is rolled back to. */
  function RollbackSlot(r: Record): (slot: u32)
  {
    if r.lastGoodSlot != r.selectedSlot then r.lastGoodSlot else RECOVERY
  }

  function Limit(maxAttempts: u32): (r: u32) { if maxAttempts == 0 then MAX_ATTEMPTS else maxAttempts }

  function Prepared(r: Record, maxAttempts: u32): (s: Record)
  {
    if !Valid(r) || r.pendingGood == 0 then r
    else if r.attemptCount >= Limit(maxAttempts) then
      Sealed(r.(generation := NextGeneration(r.generation), selectedSlot := RollbackSlot(r), pendingGood := 0,
                attemptCount := 0,
                lastFailureStage := FAILURE_KERNEL))
    else Sealed(r.(generation := NextGeneration(r.generation), attemptCount := Wrap32(r.attemptCount + 1)))
  }

  function PreparedSlot(r: Record, maxAttempts: u32): (slot: u32)
  {
    if Valid(r) then Prepared(r, maxAttempts).selectedSlot else RECOVERY
  }

  function MarkedGood(r: Record, slot: u32): (s: Option<Record>)
  {
    if !Valid(r) || !SlotValid(slot) then None
    else
      Some(Sealed(r.(generation := NextGeneration(r.generation), selectedSlot := slot, lastGoodSlot := slot,
                     pendingGood := 0,
                     attemptCount := 0, lastFailureStage := FAILURE_NONE)))
  }

  function FailureNoted(r: Record, stage: u32): (s: Record)
  {
    if !Valid(r) || stage > FAILURE_DESKTOP then r
    else Sealed(r.(generation := NextGeneration(r.generation), lastFailureStage := stage))
  }

  function FellBack(r: Record, slot: u32, stage: u32): (s: Option<Record>)
  {
    if !Valid(r) || !SlotValid(slot) || stage > FAILURE_DESKTOP then None
    else
      Some(Sealed(r.(generation := NextGeneration(r.generation), selectedSlot := slot, pendingGood := 0,
                     attemptCount := 0,
                     lastFailureStage := stage)))
  }

  /** One step of the record: a new valid record, one generation on. Only marking a slot
      good changes the last good slot. */
  ghost predicate Advances(r: Record, s: Record) { Valid(s) && s.generation == NextGeneration(r.generation) }

  lemma OperationsAdvance(r: Record, slot: u32, limit: u32, stage: u32)
    requires Valid(r)
    ensures Begun(r, slot).Some? ==>
              Advances(r, Begun(r, slot).value) && Begun(r, slot).value.lastGoodSlot == r.lastGoodSlot
    ensures if r.pendingGood == 0 then Prepared(r, limit) == r else Advances(r, Prepared(r, limit))
    ensures Prepared(r, limit).lastGoodSlot == r.lastGoodSlot
    ensures MarkedGood(r, slot).Some? ==> Advances(r, MarkedGood(r, slot).value)
    ensures FellBack(r, slot, stage).Some? ==>
              Advances(r, FellBack(r, slot, stage).value)
              && FellBack(r, slot, stage).value.lastGoodSlot == r.lastGoodSlot
    ensures stage <= FAILURE_DESKTOP ==>
              Advances(r, FailureNoted(r, stage)) && FailureNoted(r, stage).lastGoodSlot == r.lastGoodSlot
  {
    BegunIsValid(r, slot);
    PreparedIsValid(r, limit);
    MarkedIsValid(r, slot);
    FellBackIsValid(r, slot, stage);
    NotedIsValid(r, stage);
  }

  lemma BegunIsValid(r: Record, slot: u32)
    ensures Begun(r, slot).Some? ==> Valid(Begun(r, slot).value)
  {
    SealedIsValidIf(r.(generation := NextGeneration(r.generation),
                       updateGeneration := NextGeneration(r.updateGeneration),
                       selectedSlot := slot, pendingGood := 1, attemptCount := 0, lastFailureStage := FAILURE_NONE));
  }

  lemma PreparedIsValid(r: Record, limit: u32)
    requires Valid(r)
    ensures Valid(Prepared(r, limit))
  {
    SealedIsValidIf(r.(generation := NextGeneration(r.generation), selectedSlot := RollbackSlot(r), pendingGood := 0,
                       attemptCount := 0,
                       lastFailureStage := FAILURE_KERNEL));
    SealedIsValidIf(r.(generation := NextGeneration(r.generation), attemptCount := Wrap32(r.attemptCount + 1)));
  }

  lemma MarkedIsValid(r: Record, slot: u32)
    ensures MarkedGood(r, slot).Some? ==> Valid(MarkedGood(r, slot).value)
  {
    SealedIsValidIf(r.(generation := NextGeneration(r.generation), selectedSlot := slot, lastGoodSlot := slot,
                       pendingGood := 0,
                       attemptCount := 0, lastFailureStage := FAILURE_NONE));
  }

  lemma FellBackIsValid(r: Record, slot: u32, stage: u32)
    ensures FellBack(r, slot, stage).Some? ==> Valid(FellBack(r, slot, stage).value)
  {
    SealedIsValidIf(r.(generation := NextGeneration(r.generation), selectedSlot := slot, pendingGood := 0,
                       attemptCount := 0,
                       lastFailureStage := stage));
  }

  lemma NotedIsValid(r: Record, stage: u32)
    requires Valid(r)
    ensures Valid(FailureNoted(r, stage))
  {
    SealedIsValidIf(r.(generation := NextGeneration(r.generation), lastFailureStage := stage));
  }

  lemma SealedIsValidIf(r: Record)
    ensures FieldsValid(r) ==> Valid(Sealed(r))
  {
    if FieldsValid(r) {
      SealedIsValid(r);
    }
  }

  /** josh_boot_health_choose: the valid copy of the higher generation, the first on a tie. */
  function Choose(a: Option<Record>, b: Option<Record>): (r: Option<Record>)
  {
    if a.Some? && (b.None? || a.value.generation >= b.value.generation) then a else b
  }

  // ----- the record in place -----

  class HealthRecord {
    var magic: u32
    var version: u16
    var size: u16
    var generation: u64
    var selectedSlot: u32
    var lastGoodSlot: u32
    var pendingGood: u32
    var attemptCount: u32
    var lastFailureStage: u32
    var reserved0: u32
    var updateGeneration: u64
    var reserved1: u32
    var checksum: u32

    /** The value of the record. */
    function View(): (r: Record)
      reads this
    {
      Record(magic, version, size, generation, selectedSlot, lastGoodSlot, pendingGood, attemptCount, lastFailureStage,
             reserved0, updateGeneration, reserved1, checksum)
    }

    constructor (r: Record)
      ensures View() == r
    {
      magic, version, size, generation := r.magic, r.version, r.size, r.generation;
      selectedSlot, lastGoodSlot, pendingGood, attemptCount := r.selectedSlot, r.lastGoodSlot, r.pendingGood, r.attemptCount;
      lastFailureStage, reserved0, updateGeneration, reserved1 := r.lastFailureStage, r.reserved0, r.updateGeneration, r.reserved1;
      checksum := r.checksum;
    }

    /** checksum_for. */
    method ChecksumFor() returns (c: u32)
      ensures c == Checksum(View())
    {
      c := ComputeCrc(Body(View()));
    }

    method Seal()
      modifies this
      ensures View() == Sealed(old(View()))
    {
      var c := ChecksumFor();
      checksum := c;
    }

    method IsValid() returns (ok: bool)
      ensures ok <==> Valid(View())
    {
      if magic != MAGIC || version != VERSION || size != RECORD_SIZE || !SlotValid(selectedSlot) || !SlotValid(lastGoodSlot)
         || pendingGood > 1 || lastFailureStage > FAILURE_DESKTOP {
        return false;
      }
      var c := ChecksumFor();
      ok := checksum == c;
    }

    method SetDefault()
      modifies this
      ensures View() == DefaultRecord()
    {
      magic, version, size, generation := MAGIC, VERSION, RECORD_SIZE, ZERO;
      selectedSlot, lastGoodSlot, pendingGood, attemptCount := CURRENT, CURRENT, ZERO, ZERO;
      lastFailureStage, reserved0, updateGeneration, reserved1, checksum := FAILURE_NONE, ZERO, ZERO, ZERO, ZERO;
      Seal();
    }

    method BeginUpdate(candidate: u32) returns (ok: bool)
      modifies this
      ensures ok <==> Begun(old(View()), candidate).Some?
      ensures View() == if ok then Begun(old(View()), candidate).value else old(View())
    {
      ok := IsValid();
      if !ok || !SlotValid(candidate) || candidate == RECOVERY {
        return false;
      }
      generation := Wrap64(generation + 1);
      updateGeneration := Wrap64(updateGeneration + 1);
      selectedSlot := candidate;
      pendingGood := 1;
      attemptCount := 0;
      lastFailureStage := FAILURE_NONE;
      ghost var r := old(View());
      assert View() == r.(generation := NextGeneration(r.generation),
                          updateGeneration := NextGeneration(r.updateGeneration),
                          selectedSlot := candidate, pendingGood := 1, attemptCount := 0, lastFailureStage := FAILURE_NONE);
      Seal();
    }

    method PrepareAttempt(maxAttempts: u32) returns (slot: u32)
      modifies this
      ensures View() == Prepared(old(View()), maxAttempts)
      ensures slot == PreparedSlot(old(View()), maxAttempts)
    {
      var ok := IsValid();
      if !ok {
        return RECOVERY;
      }
      var limit := if maxAttempts == 0 then MAX_ATTEMPTS else maxAttempts;
      if pendingGood != 0 {
        generation := Wrap64(generation + 1);
        if attemptCount >= limit {
          selectedSlot := if lastGoodSlot != selectedSlot then lastGoodSlot else RECOVERY;
          pendingGood := 0;
          attemptCount := 0;
          lastFailureStage := FAILURE_KERNEL;
        } else {
          attemptCount := Wrap32(attemptCount + 1);
        }
        Seal();
      }
      slot := selectedSlot;
    }

    method MarkGood(slot: u32) returns (ok: bool)
      modifies this
      ensures ok <==> MarkedGood(old(View()), slot).Some?
      ensures View() == if ok then MarkedGood(old(View()), slot).value else old(View())
    {
      ok := IsValid();
      if !ok || !SlotValid(slot) {
        return false;
      }
      generation := Wrap64(generation + 1);
      selectedSlot := slot;
      lastGoodSlot := slot;
      pendingGood := 0;
      attemptCount := 0;
      lastFailureStage := FAILURE_NONE;
      ghost var r := old(View());
      assert View() == r.(generation := NextGeneration(r.generation), selectedSlot := slot, lastGoodSlot := slot,
                          pendingGood := 0,
                          attemptCount := 0, lastFailureStage := FAILURE_NONE);
      Seal();
    }

    method NoteFailure(stage: u32)
      modifies this
      ensures View() == FailureNoted(old(View()), stage)
    {
      var ok := IsValid();
      if !ok || stage > FAILURE_DESKTOP {
        return;
      }
      generation := Wrap64(generation + 1);
      lastFailureStage := stage;
      Seal();
    }

    method SelectFallback(slot: u32, stage: u32) returns (ok: bool)
      modifies this
      ensures ok <==> FellBack(old(View()), slot, stage).Some?
      ensures View() == if ok then FellBack(old(View()), slot, stage).value else old(View())
    {
      ok := IsValid();
      if !ok || !SlotValid(slot) || stage > FAILURE_DESKTOP {
        return false;
      }
      generation := Wrap64(generation + 1);
      selectedSlot := slot;
      pendingGood := 0;
      attemptCount := 0;
      lastFailureStage := stage;
      ghost var r := old(View());
      assert View() == r.(generation := NextGeneration(r.generation), selectedSlot := slot, pendingGood := 0,
                          attemptCount := 0,
                          lastFailureStage := stage);
      Seal();
    }
  }
}
