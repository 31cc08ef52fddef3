/** The two durable copies of the health record, and what crashes and torn writes can do to
    them over any run of boots. */
module HealthStore {
  import opened Words
  import opened Block
  import opened Health

  const LBA_A: nat := 1984
  const LBA_B: nat := 1985

  // ----- sectors and copies -----

  /** The record in a sector, if it is valid. */
  function CopyIn(s: Sector): (r: Option<Record>) { if Valid(Decode(s)) then Some(Decode(s)) else None }

  /** The record read from a sector of the disk, if that works and the record is valid. */
  function CopyAt(d: Disk, lba: nat): (r: Option<Record>)
  {
    match ReadBlock(d, lba)
    case None => None
    case Some(s) => CopyIn(s)
  }

  /** What health_write_copy puts in the sector. */
  function Image(r: Record): (s: Sector) { Encode(r) + seq(456, i => 0) }

  lemma ImageHoldsRecord(r: Record)
    requires Valid(r)
    ensures CopyIn(Image(r)) == Some(r)
  {
    DecodeEncode(r, seq(456, i => 0));
  }

  /** The valid copies, A for even and B for odd generations. */
  datatype Copies = Copies(a: Option<Record>, b: Option<Record>)

  function CopiesOn(d: Disk): (c: Copies) { Copies(CopyAt(d, LBA_A), CopyAt(d, LBA_B)) }

  /** The record the next load picks. */
  function Newest(c: Copies): (r: Option<Record>) { Choose(c.a, c.b) }

  predicate Odd(r: Record) { r.generation % 2 == 1 }

  /** The copy in the sector that r belongs to. */
  function Home(c: Copies, r: Record): (x: Option<Record>) { if Odd(r) then c.b else c.a }

  function Other(c: Copies, r: Record): (x: Option<Record>) { if Odd(r) then c.a else c.b }

  function Put(c: Copies, r: Record, x: Option<Record>): (c': Copies) { if Odd(r) then c.(b := x) else c.(a := x) }

  /** Writing r may leave its sector as it was, invalid, or holding r. */
  ghost predicate Attempted(c: Copies, r: Record, c': Copies)
  {
    c' == c || c' == Put(c, r, None) || c' == Put(c, r, Some(r))
  }

  predicate ChoosesB(c: Copies) { !(c.a.Some? && (c.b.None? || c.a.value.generation >= c.b.value.generation)) }

  /** Some copy is valid, and the newest one sits in the sector of its own parity. */
  ghost predicate Placed(c: Copies)
  {
    Newest(c).Some? && (ChoosesB(c) <==> Odd(Newest(c).value))
  }

  // ----- one write -----

  /** Writing the successor of the newest record, however the write ends, leaves the old
      or the new record to be loaded, and in its place. */
  lemma WriteKeepsPlaced(c: Copies, n: Record, r: Record, c': Copies)
    requires Placed(c) && Newest(c) == Some(n) && n.generation < TWO_64 - 1 && r.generation == n.generation + 1
    requires Attempted(c, r, c')
    ensures Placed(c') && (Newest(c') == Some(n) || Newest(c') == Some(r))
    ensures Home(c', r) == Some(r) ==> Newest(c') == Some(r)
  {
    assert Odd(r) != Odd(n);
  }

  /** Which writes are safe: the write of a record r cannot lose both the newest record n
      and r exactly when r goes to the other sector, or the other copy already is n or r. */
  lemma SafeWrites(c: Copies, n: Record, r: Record)
    requires Placed(c) && Newest(c) == Some(n)
    ensures (forall c' :: Attempted(c, r, c') ==> Newest(c') == Some(n) || Newest(c') == Some(r))
       <==> Odd(r) != Odd(n) || Other(c, r) == Some(n) || Other(c, r) == Some(r)
  {
    if Odd(r) == Odd(n) {
      assert Attempted(c, r, Put(c, r, None));
      assert Newest(Put(c, r, None)) == Other(c, r);
    }
  }

  /** healthctl attempt on a record that is not pending rewrites the newest copy in its own
      sector: torn, that write loses the record unless the other copy repeats it. */
  lemma RewriteInPlace(c: Copies, n: Record)
    requires Placed(c) && Newest(c) == Some(n) && n.pendingGood == 0
    ensures Prepared(n, MAX_ATTEMPTS) == n
    ensures Attempted(c, n, Put(c, n, None)) && Newest(Put(c, n, None)) == Other(c, n)
  {
  }

  /** A completed write is what the next load picks, unless the generation wrapped. */
  lemma CompletedWrite(c: Copies, n: Record, r: Record)
    requires Placed(c) && Newest(c) == Some(n) && Advances(n, r)
    ensures Newest(Put(c, r, Some(r))) == Some(r) <==> n.generation < TWO_64 - 1
  {
    if n.generation < TWO_64 - 1 {
      GenerationNext(n.generation);
      WriteKeepsPlaced(c, n, r, Put(c, r, Some(r)));
    }
  }

  /** Going on after a failed write: the next record belongs to the newest copy's own
      sector, and a second failure can leave no valid copy at all. This holds from every
      state, so disabling writes after a failure is necessary. */
  lemma SecondWriteCanLoseBoth(c: Copies, n: Record, r1: Record, r2: Record)
    requires Placed(c) && Newest(c) == Some(n)
    requires r1.generation == n.generation + 1 && r2.generation == r1.generation + 1
    ensures var c1 := Put(c, r1, None); var c2 := Put(c1, r2, None);
            Attempted(c, r1, c1) && Attempted(c1, r2, c2) && Newest(c2) == None
  {
    assert Odd(r1) != Odd(r2);
  }

  // ----- the driver -----

  /** How a block write ends: its status, and what is then in the sector. */
  datatype WriteOutcome = WriteOutcome(ok: bool, left: Sector)

  function HomeLba(r: Record): (lba: nat) { if Odd(r) then LBA_B else LBA_A }

  /** The assumption about writing data to a sector: the sector is left as it was, or with
      the record that data holds, or with no valid record. */
  ghost predicate Plausible(d: Disk, lba: nat, data: Sector, o: WriteOutcome)
  {
    CopyIn(o.left) == None || CopyIn(o.left) == CopyIn(data) || (lba < |d.sectors| && o.left == d.sectors[lba])
  }

  /** The write completed, and the sector can be read back. */
  predicate Faithful(d: Disk, r: Record, o: WriteOutcome)
  {
    o == WriteOutcome(true, Image(r)) && HomeLba(r) !in d.broken
  }

  class HealthDriver {
    var disk: Disk
    var enabled: bool

    constructor (d: Disk)
      ensures disk == d && !enabled
    {
      disk, enabled := d, false;
    }

    /** health_read_copy. */
    method ReadCopy(lba: nat) returns (r: Option<Record>)
      ensures r == CopyAt(disk, lba)
    {
      var block := ReadBlock(disk, lba);
      if block.None? {
        return None;
      }
      var record := new HealthRecord(Decode(block.value));
      var ok := record.IsValid();
      r := if ok then Some(Decode(block.value)) else None;
    }

    /** The block write, which may fail or be torn. */
    method BlockWrite(lba: nat, data: Sector, outcome: WriteOutcome) returns (ok: bool)
      requires lba < |disk.sectors|
      modifies this
      ensures disk == RawDisk(old(disk).sectors[lba := outcome.left], old(disk).broken) && enabled == old(enabled)
              && ok == outcome.ok
    {
      disk := RawDisk(disk.sectors[lba := outcome.left], disk.broken);
      ok := outcome.ok;
    }

    /** health_write_copy: the write, then a read back that must show the same generation
        and checksum. */
    method WriteCopy(r: Record, outcome: WriteOutcome) returns (ok: bool)
      requires LBA_B < |disk.sectors| && Valid(r)
      modifies this
      ensures enabled == old(enabled) && ChangedOnlyIn(old(disk), disk, LBA_A, 2)
      ensures Plausible(old(disk), HomeLba(r), Image(r), outcome) ==> Attempted(CopiesOn(old(disk)), r, CopiesOn(disk))
      ensures ok ==> Home(CopiesOn(disk), r).Some? && Home(CopiesOn(disk), r).value.generation == r.generation
      ensures outcome.ok && Home(CopiesOn(disk), r) == Some(r) ==> ok
      ensures disk.broken == old(disk).broken
      ensures HomeLba(r) !in disk.broken && outcome.left == Image(r) ==> Home(CopiesOn(disk), r) == Some(r)
      ensures disk.sectors == old(disk).sectors[1984 + r.generation % 2 := outcome.left]
    {
      ghost var before := disk;
      ImageHoldsRecord(r);
      var lba := if r.generation % 2 == 1 then LBA_B else LBA_A;
      ok := BlockWrite(lba, Encode(r) + seq(456, i => 0), outcome);
      SectorWritten(before, disk, r, outcome);
      if ok {
        var verify := ReadCopy(lba);
        ok := verify.Some? && verify.value.generation == r.generation && verify.value.checksum == r.checksum;
      }
    }

    /** health_load. */
    method Load() returns (record: HealthRecord)
      modifies this
      ensures fresh(record) && disk == old(disk)
      ensures enabled <==> Newest(CopiesOn(disk)).Some?
      ensures record.View() == if enabled then Newest(CopiesOn(disk)).value else DefaultRecord()
      ensures Next(System(CopiesOn(disk), Off), PowerOn, System(CopiesOn(disk), Running(record.View(), enabled)))
    {
      enabled := false;
      var a := ReadCopy(LBA_A);
      var b := ReadCopy(LBA_B);
      if a.None? && b.None? {
        record := new HealthRecord(DefaultRecord());
        return;
      }
      record := new HealthRecord(
        if a.Some? && (b.None? || a.value.generation >= b.value.generation) then a.value else b.value);
      enabled := true;
    }

    /** The disk and the record in memory are in step while writes are enabled. */
    ghost predicate InStep(r: Record)
      reads this
    {
      Valid(r) && (enabled ==> LBA_B < |disk.sectors| && Placed(CopiesOn(disk)) && Newest(CopiesOn(disk)) == Some(r))
    }

    /** r is the successor of the record n in memory, and the write leaves its sector as it
        was, with r in it, or without a valid copy. */
    ghost predicate Orderly(n: Record, r: Record, outcome: WriteOutcome)
      reads this
    {
      InStep(n) && Advances(n, r) && n.generation < TWO_64 - 1 && Plausible(disk, HomeLba(r), Image(r), outcome)
    }

    /** health_persist. However the write of a successor ends, the driver stays in step, and
        the next load picks the record from before the call or r, in its place. A reported
        success means r. */
    method Persist(ghost n: Record, r: Record, outcome: WriteOutcome) returns (ok: bool)
      requires Valid(r) && (enabled ==> LBA_B < |disk.sectors|)
      modifies this
      ensures ChangedOnlyIn(old(disk), disk, LBA_A, 2) && disk.broken == old(disk).broken
      ensures ok <==> enabled
      ensures !old(enabled) ==> !ok && disk == old(disk)
      ensures old(enabled) && Faithful(disk, r, outcome) ==> ok
      ensures old(Orderly(n, r, outcome)) ==>
                && InStep(r) && (old(enabled) ==> Placed(CopiesOn(disk)))
                && (Newest(CopiesOn(disk)) == Newest(CopiesOn(old(disk))) || Newest(CopiesOn(disk)) == Some(r))
                && (ok ==> Newest(CopiesOn(disk)) == Some(r))
                && (old(enabled) && outcome.ok && Home(CopiesOn(disk), r) == Some(r) ==> ok)
      ensures old(Orderly(n, r, outcome)) && BootUpdate(n, r) ==>
                PersistStep(System(CopiesOn(old(disk)), Running(n, old(enabled))), r,
                            System(CopiesOn(disk), Running(r, enabled)))
    {
      if !enabled {
        return false;
      }
      ghost var c, orderly := CopiesOn(disk), Orderly(n, r, outcome);
      ok := WriteCopy(r, outcome);
      if orderly {
        GenerationNext(n.generation);
        WriteEnds(c, n, r, CopiesOn(disk), ok);
      }
      enabled := ok;
    }
  }

  lemma SectorWritten(d: Disk, d': Disk, r: Record, o: WriteOutcome)
    requires LBA_B < |d.sectors| && CopyIn(Image(r)) == Some(r)
    requires d' == RawDisk(d.sectors[HomeLba(r) := o.left], d.broken)
    ensures ChangedOnlyIn(d, d', LBA_A, 2)
            && (Plausible(d, HomeLba(r), Image(r), o) ==> Attempted(CopiesOn(d), r, CopiesOn(d')))
    ensures HomeLba(r) !in d.broken && o.left == Image(r) ==> Home(CopiesOn(d'), r) == Some(r)
  {
    assert Other(CopiesOn(d'), r) == Other(CopiesOn(d), r);
    assert Home(CopiesOn(d'), r) == if HomeLba(r) in d.broken then None else CopyIn(o.left);
  }

  /** What the read back can show is r itself: the sector held no copy of that generation. */
  lemma VerifiedIsNew(c: Copies, n: Record, r: Record, c': Copies)
    requires Placed(c) && Newest(c) == Some(n) && r.generation == n.generation + 1 && Attempted(c, r, c')
    requires Home(c', r).Some? && Home(c', r).value.generation == r.generation
    ensures Home(c', r) == Some(r) && Newest(c') == Some(r)
  {
    assert Odd(r) != Odd(n);
  }

  lemma GenerationNext(g: u64)
    requires g < TWO_64 - 1
    ensures NextGeneration(g) == g + 1
  {
  }

  lemma WriteEnds(c: Copies, n: Record, r: Record, c': Copies, ok: bool)
    requires Placed(c) && Newest(c) == Some(n) && n.generation < TWO_64 - 1 && r.generation == n.generation + 1
    requires Attempted(c, r, c') && (ok ==> Home(c', r).Some? && Home(c', r).value.generation == r.generation)
    ensures Placed(c') && (Newest(c') == Some(n) || Newest(c') == Some(r)) && (ok ==> Newest(c') == Some(r))
  {
    WriteKeepsPlaced(c, n, r, c');
    if ok {
      VerifiedIsNew(c, n, r, c');
    }
  }

  // ----- whole runs -----

  /** Off, or booted with a record in memory and writes enabled or not. */
  datatype Mode = Off | Running(memory: Record, enabled: bool)

  datatype System = System(copies: Copies, mode: Mode)

  datatype Event =
    | PowerOn
    | PowerOff
    | Persist(record: Record)
    | CrashInPersist(record: Record)
    | ToolWrite(record: Record)

  /** The updates a boot makes to its record. */
  ghost predicate BootUpdate(m: Record, r: Record)
  {
    (m.pendingGood != 0 && r == Prepared(m, MAX_ATTEMPTS)) || exists slot: u32 ::
      FellBack(m, slot, FAILURE_KERNEL_FILE) == Some(r)
  }

  ghost predicate ToolGood(n: Record, r: Record) { exists slot: u32 :: MarkedGood(n, slot) == Some(r) }

  ghost predicate ToolPending(n: Record, r: Record) { exists slot: u32 :: Begun(n, slot) == Some(r) }

  /** A persist that reports success has read back a copy with r's generation. */
  ghost predicate PersistStep(s: System, r: Record, s': System)
  {
    && s.mode.Running? && BootUpdate(s.mode.memory, r)
    && s'.mode.Running? && s'.mode.memory == r
    && if s.mode.enabled
       then Attempted(s.copies, r, s'.copies)
            && (s'.mode.enabled ==> Home(s'.copies, r).Some? && Home(s'.copies, r).value.generation == r.generation)
       else s'.copies == s.copies && !s'.mode.enabled
  }

  /** One event: power on and load, power off at any time, a boot's update and persist, a
      crash inside that persist, or healthctl good or pending, itself perhaps cut short. */
  ghost predicate Next(s: System, e: Event, s': System)
  {
    match e
    case PowerOn =>
      s.mode.Off? && s'.copies == s.copies
      && s'.mode == (if Newest(s.copies).Some? then Running(Newest(s.copies).value, true) else Running(DefaultRecord(),
                                                                                                       false))
    case PowerOff => s'.copies == s.copies && s'.mode.Off?
    case Persist(r) => PersistStep(s, r, s')
    case CrashInPersist(r) =>
      s.mode.Running? && s.mode.enabled && BootUpdate(s.mode.memory, r) && Attempted(s.copies, r, s'.copies)
      && s'.mode.Off?
    case ToolWrite(r) =>
      s.mode.Off? && Newest(s.copies).Some?
      && (ToolGood(Newest(s.copies).value, r) || ToolPending(Newest(s.copies).value, r))
      && Attempted(s.copies, r, s'.copies) && s'.mode.Off?
  }

  /** After healthctl init: both copies hold the default record, of generation 0. */
  ghost predicate Init(s: System)
  {
    s == System(Copies(Some(DefaultRecord()), Some(DefaultRecord())), Off)
  }

  ghost predicate Inv(s: System)
  {
    && Placed(s.copies) && Valid(Newest(s.copies).value)
    && (s.mode.Running? ==> Valid(s.mode.memory) && (s.mode.enabled ==> Newest(s.copies) == Some(s.mode.memory)))
  }

  /** The generation of the newest record has not run out. */
  ghost predicate InRange(s: System) { Newest(s.copies).Some? ==> Newest(s.copies).value.generation < TWO_64 - 1 }

  /** The record an event writes. */
  function Written(e: Event): (r: Option<Record>)
  {
    match e
    case Persist(r) => Some(r)
    case CrashInPersist(r) => Some(r)
    case ToolWrite(r) => Some(r)
    case _ => None
  }

  lemma InitHolds(s: System)
    requires Init(s)
    ensures Inv(s)
  {
    DefaultIsValid();
  }

  lemma BootUpdateAdvances(m: Record, r: Record)
    requires Valid(m) && BootUpdate(m, r)
    ensures Advances(m, r) && r.lastGoodSlot == m.lastGoodSlot
  {
    if m.pendingGood != 0 && r == Prepared(m, MAX_ATTEMPTS) {
      OperationsAdvance(m, CURRENT, MAX_ATTEMPTS, FAILURE_NONE);
    } else {
      var slot: u32 :| FellBack(m, slot, FAILURE_KERNEL_FILE) == Some(r);
      OperationsAdvance(m, slot, MAX_ATTEMPTS, FAILURE_KERNEL_FILE);
    }
  }

  lemma ToolAdvances(n: Record, r: Record)
    requires Valid(n) && (ToolGood(n, r) || ToolPending(n, r))
    ensures Advances(n, r) && (r.lastGoodSlot == n.lastGoodSlot || ToolGood(n, r))
  {
    if ToolGood(n, r) {
      var slot: u32 :| MarkedGood(n, slot) == Some(r);
      OperationsAdvance(n, slot, MAX_ATTEMPTS, FAILURE_NONE);
    } else {
      var slot: u32 :| Begun(n, slot) == Some(r);
      OperationsAdvance(n, slot, MAX_ATTEMPTS, FAILURE_NONE);
    }
  }

  /** Every event keeps the invariant; the next load then yields the record it would have
      yielded before, or the record being written, one generation on. The last good slot
      changes only when healthctl marks a slot good. */
  lemma StepIsSafe(s: System, e: Event, s': System)
    requires Inv(s) && InRange(s) && Next(s, e, s')
    ensures Inv(s') && (Newest(s'.copies) == Newest(s.copies) || Newest(s'.copies) == Written(e))
    ensures Newest(s'.copies).value.generation == Newest(s.copies).value.generation
            || Newest(s'.copies).value.generation == Newest(s.copies).value.generation + 1
    ensures e.Persist? && s'.mode.enabled ==> Newest(s'.copies) == Some(e.record)
    ensures Newest(s'.copies).value.lastGoodSlot != Newest(s.copies).value.lastGoodSlot ==>
              e.ToolWrite? && ToolGood(Newest(s.copies).value, e.record)
  {
    var n := Newest(s.copies).value;
    GenerationNext(n.generation);
    match e
    case PowerOn =>
    case PowerOff =>
    case Persist(r) =>
      BootUpdateAdvances(s.mode.memory, r);
      if s.mode.enabled {
        WriteEnds(s.copies, n, r, s'.copies, s'.mode.enabled);
      }
    case CrashInPersist(r) =>
      BootUpdateAdvances(s.mode.memory, r);
      WriteKeepsPlaced(s.copies, n, r, s'.copies);
    case ToolWrite(r) =>
      ToolAdvances(n, r);
      WriteKeepsPlaced(s.copies, n, r, s'.copies);
  }

  ghost predicate IsRun(states: seq<System>, events: seq<Event>)
  {
    && |states| == |events| + 1 && Init(states[0])
    && forall i :: 0 <= i < |events| ==> Next(states[i], events[i], states[i + 1])
  }

  /** Over every run of boots, crashes, torn writes and tool calls, the newest valid copy
      sits in the sector of its own parity. */
  lemma {:induction false} RunIsSafe(states: seq<System>, events: seq<Event>, k: nat)
    requires IsRun(states, events) && k < |states| && forall i :: 0 <= i < k ==> InRange(states[i])
    ensures Inv(states[k])
  {
    if k == 0 {
      InitHolds(states[0]);
    } else {
      RunIsSafe(states, events, k - 1);
      StepIsSafe(states[k - 1], events[k - 1], states[k]);
    }
  }

  /** The record is the initial one or one that an event before k wrote. */
  ghost predicate FromRun(events: seq<Event>, k: nat, r: Option<Record>)
    requires k <= |events|
  {
    r == Some(DefaultRecord()) || exists j :: 0 <= j < k && r == Written(events[j])
  }

  /** The record that survives a run is one the run itself wrote, or the initial one. */
  lemma {:induction false} NothingIsInvented(states: seq<System>, events: seq<Event>, k: nat)
    requires IsRun(states, events) && k < |states| && forall i :: 0 <= i < k ==> InRange(states[i])
    ensures FromRun(events, k, Newest(states[k].copies))
  {
    if k > 0 {
      NothingIsInvented(states, events, k - 1);
      RunIsSafe(states, events, k - 1);
      StepIsSafe(states[k - 1], events[k - 1], states[k]);
      assert Newest(states[k].copies) == Newest(states[k - 1].copies)
             || Newest(states[k].copies) == Written(events[k - 1]);
    }
  }

  ghost predicate MarksGood(s: System, e: Event)
  {
    e.ToolWrite? && Newest(s.copies).Some? && ToolGood(Newest(s.copies).value, e.record)
  }

  lemma StepKeepsLastGood(states: seq<System>, events: seq<Event>, k: nat)
    requires IsRun(states, events) && k < |events| && (forall j :: 0 <= j <= k ==> InRange(states[j]))
    requires !MarksGood(states[k], events[k])
    ensures Newest(states[k].copies).Some? && Newest(states[k + 1].copies).Some?
    ensures Newest(states[k + 1].copies).value.lastGoodSlot == Newest(states[k].copies).value.lastGoodSlot
    ensures Newest(states[k + 1].copies).value.generation >= Newest(states[k].copies).value.generation
  {
    RunIsSafe(states, events, k);
    StepIsSafe(states[k], events[k], states[k + 1]);
  }

  /** Without a mark-good in between, the last good slot never changes; the generation
      never goes back. */
  lemma {:induction false} LastGoodIsStable(states: seq<System>, events: seq<Event>, i: nat, k: nat)
    requires IsRun(states, events) && i <= k < |states| && (forall j :: 0 <= j < k ==> InRange(states[j]))
    requires forall j :: i <= j < k ==> !MarksGood(states[j], events[j])
    ensures Newest(states[i].copies).Some? && Newest(states[k].copies).Some?
    ensures Newest(states[k].copies).value.lastGoodSlot == Newest(states[i].copies).value.lastGoodSlot
    ensures Newest(states[k].copies).value.generation >= Newest(states[i].copies).value.generation
  {
    if i < k {
      LastGoodIsStable(states, events, i, k - 1);
      StepKeepsLastGood(states, events, k - 1);
    } else {
      RunIsSafe(states, events, k);
    }
  }
}
