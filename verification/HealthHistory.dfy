/** What the fields of the surviving record say about the run that led to it. */
module HealthHistory {
  import opened Words
  import opened Health
  import opened HealthStore

  /** The event is healthctl good for this slot, and its record is the one that survives. */
  ghost predicate MarkSurvives(s: System, e: Event, s': System, slot: u32)
  {
    && e.ToolWrite? && Newest(s.copies).Some? && MarkedGood(Newest(s.copies).value, slot) == Some(e.record)
    && Newest(s'.copies) == Some(e.record)
  }

  /** The event is healthctl pending for this slot, and its record is the one that survives. */
  ghost predicate PendingSurvives(s: System, e: Event, s': System, slot: u32)
  {
    && e.ToolWrite? && Newest(s.copies).Some? && Begun(Newest(s.copies).value, slot) == Some(e.record)
    && Newest(s'.copies) == Some(e.record)
  }

  /** Right after marking a slot good it is selected and last good, and nothing is pending. */
  lemma RightAfterMark(s: System, e: Event, s': System, slot: u32)
    requires MarkSurvives(s, e, s', slot)
    ensures var r := Newest(s'.copies).value;
            && r.lastGoodSlot == slot && r.selectedSlot == slot && r.pendingGood == 0 && r.attemptCount == 0
            && r.lastFailureStage == 0 && r.updateGeneration == Newest(s.copies).value.updateGeneration
  {
  }

  /** Right after making a slot pending it is selected with no attempt made; recovery cannot be
      made pending. */
  lemma RightAfterPending(s: System, e: Event, s': System, slot: u32)
    requires PendingSurvives(s, e, s', slot)
    ensures var r := Newest(s'.copies).value;
            && slot <= 1 && r.selectedSlot == slot && r.pendingGood == 1 && r.attemptCount == 0
            && r.lastFailureStage == 0 && r.lastGoodSlot == Newest(s.copies).value.lastGoodSlot
            && r.updateGeneration == (Newest(s.copies).value.updateGeneration + 1) % 0x1_0000_0000_0000_0000
  {
  }

  lemma RunStep(states: seq<System>, events: seq<Event>, k: nat)
    requires IsRun(states, events) && k < |events| && forall i :: 0 <= i <= k ==> InRange(states[i])
    ensures Inv(states[k]) && Next(states[k], events[k], states[k + 1]) && Inv(states[k + 1])
  {
    RunIsSafe(states, events, k);
    RunIsSafe(states, events, k + 1);
  }

  lemma RunStart(states: seq<System>, events: seq<Event>)
    requires IsRun(states, events)
    ensures Newest(states[0].copies).Some?
    ensures var r := Newest(states[0].copies).value;
            && r.lastGoodSlot == 0 && r.updateGeneration == 0 && r.generation == 0
            && r.selectedSlot == 0 && r.pendingGood == 0 && r.attemptCount == 0 && r.lastFailureStage == 0
  {
    DefaultIsValid();
  }

  /** An invalid record is left alone and answered with recovery. */
  lemma InvalidGoesToRecovery(r: Record, limit: u32)
    requires !Valid(r)
    ensures Prepared(r, limit) == r && PreparedSlot(r, limit) == 2
  {
  }

  /** Noting a failure stores its stage and changes nothing that a boot decides by. */
  lemma NotingStores(r: Record, stage: u32)
    requires Valid(r) && stage <= 7
    ensures var n := FailureNoted(r, stage);
            && Valid(n) && n.lastFailureStage == stage && n.selectedSlot == r.selectedSlot
            && n.lastGoodSlot == r.lastGoodSlot && n.pendingGood == r.pendingGood && n.attemptCount == r.attemptCount
            && n.updateGeneration == r.updateGeneration
  {
    NotedIsValid(r, stage);
  }

  // ----- the last good slot -----

  /** The slot an event marks good, if its record survives. */
  ghost function Marks(s: System, e: Event, s': System): (slot: Option<u32>)
    ensures slot.Some? ==> MarkSurvives(s, e, s', slot.value)
    ensures slot.None? ==> forall x: u32 :: !MarkSurvives(s, e, s', x)
  {
    if exists x: u32 :: MarkSurvives(s, e, s', x) then
      var x: u32 :| MarkSurvives(s, e, s', x);
      Some(x)
    else None
  }

  /** The slot of the latest mark-good whose record survived. */
  ghost function LastMark(states: seq<System>, events: seq<Event>, k: nat): (slot: Option<u32>)
    requires |states| == |events| + 1 && k <= |events|
  {
    if k == 0 then None
    else
      var slot := Marks(states[k - 1], events[k - 1], states[k]);
      if slot.Some? then slot else LastMark(states, events, k - 1)
  }

  lemma StepOfLastGood(s: System, e: Event, s': System)
    requires Inv(s) && InRange(s) && Next(s, e, s') && Inv(s')
    ensures Newest(s'.copies).value.lastGoodSlot ==
            if Marks(s, e, s').Some? then Marks(s, e, s').value else Newest(s.copies).value.lastGoodSlot
  {
    StepIsSafe(s, e, s');
    if Marks(s, e, s').Some? {
      RightAfterMark(s, e, s', Marks(s, e, s').value);
    } else if Newest(s'.copies).value.lastGoodSlot != Newest(s.copies).value.lastGoodSlot {
      var slot: u32 :| MarkedGood(Newest(s.copies).value, slot) == Some(e.record);
      assert MarkSurvives(s, e, s', slot);
    }
  }

  /** Over every run, the last good slot of the surviving record is the slot of the latest
      mark-good that survived, or current if there was none. */
  lemma {:induction false} LastGoodIsLastMark(states: seq<System>, events: seq<Event>, k: nat)
    requires IsRun(states, events) && k < |states| && forall i :: 0 <= i < k ==> InRange(states[i])
    ensures Newest(states[k].copies).Some?
    ensures Newest(states[k].copies).value.lastGoodSlot ==
            if LastMark(states, events, k).Some? then LastMark(states, events, k).value else 0
  {
    if k == 0 {
      RunStart(states, events);
    } else {
      LastGoodIsLastMark(states, events, k - 1);
      RunStep(states, events, k - 1);
      StepOfLastGood(states[k - 1], events[k - 1], states[k]);
    }
  }

  // ----- counters -----

  /** The event makes some slot pending, and its record survives. */
  ghost predicate MakesPending(s: System, e: Event, s': System) { exists slot: u32 :: PendingSurvives(s, e, s', slot) }

  /** How many updates were made pending, as far as their records survived. */
  ghost function Updates(states: seq<System>, events: seq<Event>, k: nat): (n: nat)
    requires |states| == |events| + 1 && k <= |events|
  {
    if k == 0 then 0
    else Updates(states, events, k - 1) + if MakesPending(states[k - 1], events[k - 1], states[k]) then 1 else 0
  }

  lemma BootKeepsUpdates(m: Record, r: Record)
    requires BootUpdate(m, r)
    ensures r.updateGeneration == m.updateGeneration
  {
  }

  /** How many writes of the run survived. */
  ghost function Writes(states: seq<System>, k: nat): (n: nat)
    requires k < |states|
  {
    if k == 0 then 0
    else Writes(states, k - 1) + if Newest(states[k].copies) != Newest(states[k - 1].copies) then 1 else 0
  }

  /** Over every run, the generation counts the writes that survived. */
  lemma {:induction false} GenerationCounts(states: seq<System>, events: seq<Event>, k: nat)
    requires IsRun(states, events) && k < |states| && forall i :: 0 <= i < k ==> InRange(states[i])
    ensures Newest(states[k].copies).Some? && Newest(states[k].copies).value.generation == Writes(states, k)
  {
    if k == 0 {
      RunStart(states, events);
    } else {
      GenerationCounts(states, events, k - 1);
      RunStep(states, events, k - 1);
      StepOfGeneration(states[k - 1], events[k - 1], states[k]);
    }
  }

  lemma StepOfGeneration(s: System, e: Event, s': System)
    requires Inv(s) && InRange(s) && Next(s, e, s') && Inv(s')
    ensures Newest(s'.copies).value.generation == Newest(s.copies).value.generation
                                                 + if Newest(s'.copies) != Newest(s.copies) then 1 else 0
  {
    StepIsSafe(s, e, s');
    var n := Newest(s.copies).value;
    GenerationNext(n.generation);
    if Newest(s'.copies) != Newest(s.copies) {
      match e
      case Persist(r) => BootUpdateAdvances(s.mode.memory, r);
      case CrashInPersist(r) => BootUpdateAdvances(s.mode.memory, r);
      case ToolWrite(r) => ToolAdvances(n, r);
      case _ =>
    }
  }

  lemma StepOfUpdates(s: System, e: Event, s': System)
    requires Inv(s) && InRange(s) && Next(s, e, s') && Inv(s')
    requires Newest(s.copies).value.updateGeneration < TWO_64 - 1
    ensures Newest(s'.copies).value.updateGeneration ==
            Newest(s.copies).value.updateGeneration + if MakesPending(s, e, s') then 1 else 0
    ensures MakesPending(s, e, s') ==> Newest(s'.copies) != Newest(s.copies)
  {
    StepIsSafe(s, e, s');
    if slot: u32 :| PendingSurvives(s, e, s', slot) {
      RightAfterPending(s, e, s', slot);
      GenerationNext(Newest(s.copies).value.updateGeneration);
    } else if Newest(s'.copies) != Newest(s.copies) {
      match e
      case Persist(r) => BootKeepsUpdates(s.mode.memory, r);
      case CrashInPersist(r) => BootKeepsUpdates(s.mode.memory, r);
      case ToolWrite(r) =>
        if ToolGood(Newest(s.copies).value, r) {
          var slot: u32 :| MarkedGood(Newest(s.copies).value, slot) == Some(r);
        } else {
          var slot: u32 :| Begun(Newest(s.copies).value, slot) == Some(r);
          assert PendingSurvives(s, e, s', slot);
        }
      case _ =>
    }
  }

  /** Over every run, the update generation counts the updates that were made pending. */
  lemma {:induction false} UpdateGenerationCounts(states: seq<System>, events: seq<Event>, k: nat)
    requires IsRun(states, events) && k < |states| && forall i :: 0 <= i < k ==> InRange(states[i])
    ensures Newest(states[k].copies).Some?
    ensures Newest(states[k].copies).value.updateGeneration == Updates(states, events, k) <= Writes(states, k)
  {
    if k == 0 {
      RunStart(states, events);
    } else {
      UpdateGenerationCounts(states, events, k - 1);
      UpdatesStep(states, events, k - 1);
    }
  }

  lemma UpdatesStep(states: seq<System>, events: seq<Event>, k: nat)
    requires IsRun(states, events) && k < |events| && forall i :: 0 <= i <= k ==> InRange(states[i])
    requires Newest(states[k].copies).Some?
    requires Newest(states[k].copies).value.updateGeneration == Updates(states, events, k) <= Writes(states, k)
    ensures Newest(states[k + 1].copies).Some?
    ensures Newest(states[k + 1].copies).value.updateGeneration == Updates(states, events, k + 1) <= Writes(states,
                                                                                                            k + 1)
  {
    GenerationCounts(states, events, k);
    RunStep(states, events, k);
    StepOfUpdates(states[k], events[k], states[k + 1]);
  }
}
