/** How often a slot made pending is entered across reboots, when every persist succeeds:
    the record in memory is then always the one the next boot loads. */
module Trials {
  import opened Words
  import opened Health
  import opened BootSlots

  /** The durable record, the slot whose kernel is being loaded in the current boot, and
      how often the candidate has been entered. */
  datatype Trial = Trial(record: Record, trying: Option<u32>, entries: nat)

  /** A boot prepares its attempt, which persists the counter before any kernel is read. */
  ghost predicate BootStep(s: Trial, s': Trial)
  {
    && s.trying.None? && Valid(s.record)
    && s' == Trial(Prepared(s.record, MAX_ATTEMPTS), Some(PreparedSlot(s.record, MAX_ATTEMPTS)), s.entries)
  }

  /** The kernel of the slot does not load, and there is a slot to fall back to. */
  ghost predicate FallbackStep(paths: Paths, s: Trial, s': Trial)
  {
    && s.trying.Some? && s'.trying.Some? && Fallback(paths, s.trying.value) == s'.trying
    && FellBack(s.record, s'.trying.value, FAILURE_KERNEL_FILE) == Some(s'.record) && s'.entries == s.entries
  }

  /** The kernel of the slot loads and is entered, and the machine later resets. */
  ghost predicate EnterStep(paths: Paths, candidate: u32, s: Trial, s': Trial)
  {
    && s.trying.Some? && PathFor(paths, s.trying.value) != []
    && s' == Trial(s.record, None, if s.trying.value == candidate then s.entries + 1 else s.entries)
  }

  /** The boot fails, or the machine resets before a kernel is entered. */
  ghost predicate ResetStep(s: Trial, s': Trial) { s' == s.(trying := None) }

  ghost predicate Step(paths: Paths, candidate: u32, s: Trial, s': Trial)
  {
    BootStep(s, s') || FallbackStep(paths, s, s') || EnterStep(paths, candidate, s, s') || ResetStep(s, s')
  }

  /** Right after candidate was made pending on a record r. */
  ghost predicate Start(r: Record, candidate: u32, s: Trial)
  {
    Begun(r, candidate) == Some(s.record) && s.trying.None? && s.entries == 0
  }

  ghost predicate IsRun(paths: Paths, candidate: u32, states: seq<Trial>)
  {
    |states| > 0 && forall i :: 0 <= i < |states| - 1 ==> Step(paths, candidate, states[i], states[i + 1])
  }

  /** The one configuration in which a slot that used up its attempts is tried again: the
      previous slot is rolled back to current, from where the fallback leads back to it. */
  predicate Reentrant(paths: Paths, candidate: u32, lastGood: u32)
  {
    candidate == PREVIOUS && lastGood == CURRENT && paths.previous != []
  }

  function Rollback(candidate: u32, lastGood: u32): (slot: u32) { if lastGood != candidate then lastGood else RECOVERY }

  /** While pending, no more entries than attempts; afterwards the candidate is out of
      reach of the fallback chain. */
  ghost predicate Inv(paths: Paths, candidate: u32, lastGood: u32, s: Trial)
  {
    && Valid(s.record) && s.record.lastGoodSlot == lastGood
    && if s.record.pendingGood == 1
       then s.record.selectedSlot == candidate && s.record.attemptCount <= MAX_ATTEMPTS
            && (s.trying.None? ==> s.entries <= s.record.attemptCount)
            && (s.trying.Some? ==> s.trying.value == candidate && s.entries + 1 <= s.record.attemptCount)
       else s.entries <= 3 && (s.trying.Some? ==> s.trying.value == s.record.selectedSlot)
            && candidate !in Chain(paths, s.record.selectedSlot)
  }

  lemma StartHolds(paths: Paths, r: Record, candidate: u32, s: Trial)
    requires Start(r, candidate, s)
    ensures Inv(paths, candidate, r.lastGoodSlot, s)
  {
    BegunIsValid(r, candidate);
  }

  lemma RollbackIsAway(paths: Paths, candidate: u32, lastGood: u32)
    requires candidate < RECOVERY && SlotValid(lastGood) && !Reentrant(paths, candidate, lastGood)
    ensures candidate !in Chain(paths, Rollback(candidate, lastGood))
  {
    if candidate == PREVIOUS && lastGood == CURRENT {
      assert Chain(paths, CURRENT) == if paths.recovery != [] then [CURRENT] + Chain(paths, RECOVERY) else [CURRENT];
    }
  }

  /** What preparing an attempt does, by cases. */
  lemma PreparedCases(r: Record)
    requires Valid(r)
    ensures var p := Prepared(r, MAX_ATTEMPTS);
            && Valid(p) && PreparedSlot(r, MAX_ATTEMPTS) == p.selectedSlot && p.lastGoodSlot == r.lastGoodSlot
            && (r.pendingGood == 0 ==> p == r)
            && (r.pendingGood == 1 && r.attemptCount < MAX_ATTEMPTS ==>
                  p.pendingGood == 1 && p.selectedSlot == r.selectedSlot && p.attemptCount == r.attemptCount + 1)
            && (r.pendingGood == 1 && r.attemptCount >= MAX_ATTEMPTS ==>
                  p.pendingGood == 0 && p.selectedSlot == Rollback(r.selectedSlot, r.lastGoodSlot))
  {
    PreparedIsValid(r, MAX_ATTEMPTS);
    WrapSmall(r.attemptCount + 1);
  }

  lemma BootKeepsInv(paths: Paths, candidate: u32, lastGood: u32, s: Trial, s': Trial)
    requires Inv(paths, candidate, lastGood, s) && candidate < RECOVERY && !Reentrant(paths, candidate, lastGood)
             && BootStep(s, s')
    ensures Inv(paths, candidate, lastGood, s')
  {
    PreparedCases(s.record);
    if s.record.pendingGood == 1 && s.record.attemptCount >= MAX_ATTEMPTS {
      RollbackIsAway(paths, candidate, lastGood);
    }
  }

  lemma FallbackKeepsInv(paths: Paths, candidate: u32, lastGood: u32, s: Trial, s': Trial)
    requires Inv(paths, candidate, lastGood, s) && FallbackStep(paths, s, s')
    ensures Inv(paths, candidate, lastGood, s')
  {
    var slot, next := s.trying.value, s'.trying.value;
    FellBackIsValid(s.record, next, FAILURE_KERNEL_FILE);
    assert Chain(paths, slot) == [slot] + Chain(paths, next);
  }

  lemma {:induction false} RunKeepsInv(paths: Paths, candidate: u32, r: Record, states: seq<Trial>, k: nat)
    requires IsRun(paths, candidate, states) && Start(r, candidate, states[0])
             && !Reentrant(paths, candidate, r.lastGoodSlot)
    requires k < |states|
    ensures Inv(paths, candidate, r.lastGoodSlot, states[k])
  {
    if k == 0 {
      StartHolds(paths, r, candidate, states[0]);
    } else {
      RunKeepsInv(paths, candidate, r, states, k - 1);
      var s, s' := states[k - 1], states[k - 1 + 1];
      assert Step(paths, candidate, s, s');
      if BootStep(s, s') {
        BootKeepsInv(paths, candidate, r.lastGoodSlot, s, s');
      } else if FallbackStep(paths, s, s') {
        FallbackKeepsInv(paths, candidate, r.lastGoodSlot, s, s');
      }
    }
  }

  /** Outside the one re-entrant configuration a pending slot is entered at most 3 times,
      over any number of boots, with any kernels loading or not and resets anywhere. */
  lemma TrialIsBounded(paths: Paths, candidate: u32, r: Record, states: seq<Trial>, k: nat)
    requires IsRun(paths, candidate, states) && Start(r, candidate, states[0])
             && !Reentrant(paths, candidate, r.lastGoodSlot)
    requires k < |states|
    ensures states[k].entries <= 3
  {
    RunKeepsInv(paths, candidate, r, states, k);
  }

  /** Once a pending slot has been entered 3 times, the next boot gives it up for the last
      good slot, or for recovery if that is the slot itself. */
  lemma ThenRolledBack(paths: Paths, candidate: u32, lastGood: u32, s: Trial, s': Trial)
    requires Inv(paths, candidate, lastGood, s) && s.record.pendingGood == 1 && s.entries == 3 && BootStep(s, s')
    ensures s'.trying == Some(Rollback(candidate, lastGood)) && s'.record.selectedSlot == Rollback(candidate, lastGood)
    ensures s'.record.pendingGood == 0 && s'.record.lastGoodSlot == lastGood
  {
  }

  // ----- the loaders take these steps -----

  ghost predicate Reach(paths: Paths, candidate: u32, s: Trial, s': Trial)
  {
    exists states :: IsRun(paths, candidate, states) && states[0] == s && states[|states| - 1] == s'
  }

  lemma ReachSelf(paths: Paths, candidate: u32, s: Trial)
    ensures Reach(paths, candidate, s, s)
  {
    assert IsRun(paths, candidate, [s]);
  }

  lemma ReachStep(paths: Paths, candidate: u32, s: Trial, s': Trial, s'': Trial)
    requires Reach(paths, candidate, s, s') && Step(paths, candidate, s', s'')
    ensures Reach(paths, candidate, s, s'')
  {
    var states :| IsRun(paths, candidate, states) && states[0] == s && states[|states| - 1] == s';
    var more := states + [s''];
    forall i | 0 <= i < |more| - 1
      ensures Step(paths, candidate, more[i], more[i + 1])
    {
      if i < |states| - 1 {
        assert Step(paths, candidate, states[i], states[i + 1]);
      }
    }
    assert IsRun(paths, candidate, more);
  }

  function Count(loaded: Option<u32>, candidate: u32): (n: nat) { if loaded == Some(candidate) then 1 else 0 }

  lemma {:induction false} SelectIsTrial(paths: Paths, loads: Loader, candidate: u32, s0: Trial, s: Trial)
    requires Reach(paths, candidate, s0, s) && Valid(s.record) && s.trying.Some? && SlotValid(s.trying.value)
    ensures var sel := Select(paths, loads, s.record, s.trying.value);
            Reach(paths, candidate, s0, Trial(sel.record, None, s.entries + Count(sel.loaded, candidate)))
    decreases RECOVERY - s.trying.value
  {
    var slot := s.trying.value;
    if Loads(paths, loads, slot) {
      var s' := Trial(s.record, None, s.entries + Count(Some(slot), candidate));
      assert EnterStep(paths, candidate, s, s');
      ReachStep(paths, candidate, s0, s, s');
    } else if Fallback(paths, slot).None? {
      ReachStep(paths, candidate, s0, s, s.(trying := None));
    } else {
      var next := Fallback(paths, slot).value;
      FellBackIsValid(s.record, next, FAILURE_KERNEL_FILE);
      var s' := Trial(FellBack(s.record, next, FAILURE_KERNEL_FILE).value, Some(next), s.entries);
      assert FallbackStep(paths, s, s');
      ReachStep(paths, candidate, s0, s, s');
      SelectIsTrial(paths, loads, candidate, s0, s');
    }
  }

  /** A boot of either loader is such a run, and counts when it loads the candidate. */
  lemma BootIsTrial(paths: Paths, loads: Loader, candidate: u32, s0: Trial, s: Trial)
    requires Reach(paths, candidate, s0, s) && Valid(s.record) && s.trying.None?
    ensures var sel := Boot(paths, loads, s.record);
            Reach(paths, candidate, s0, Trial(sel.record, None, s.entries + Count(sel.loaded, candidate)))
  {
    PreparedCases(s.record);
    var m := Trial(Prepared(s.record, MAX_ATTEMPTS), Some(PreparedSlot(s.record, MAX_ATTEMPTS)), s.entries);
    assert BootStep(s, m);
    ReachStep(paths, candidate, s0, s, m);
    SelectIsTrial(paths, loads, candidate, s0, m);
  }

  lemma {:induction false} SelectReason(paths: Paths, loads: Loader, r: Record, slot: u32)
    requires Valid(r) && SlotValid(slot)
    ensures var s := Select(paths, loads, r, slot);
            if |s.tried| == 1 then s.record == r
            else s.record.lastFailureStage == 2 && s.record.pendingGood == 0 && s.record.attemptCount == 0
    decreases RECOVERY - slot
  {
    if !Loads(paths, loads, slot) && Fallback(paths, slot).Some? {
      var next := Fallback(paths, slot).value;
      FellBackIsValid(r, next, FAILURE_KERNEL_FILE);
      SelectReason(paths, loads, FellBack(r, next, FAILURE_KERNEL_FILE).value, next);
    }
  }

  /** The failure stage a boot leaves: 2 when it had to fall back because a kernel file did not
      load, 5 when it rolled a pending slot back, and otherwise what it was. Both leave
      nothing pending and no attempts counted. */
  lemma BootLeavesReason(paths: Paths, loads: Loader, r: Record)
    requires Valid(r)
    ensures var s := Boot(paths, loads, r);
            var rolledBack := r.pendingGood == 1 && r.attemptCount >= 3;
            && s.record.lastFailureStage == (if |s.tried| > 1 then 2 else if rolledBack then 5 else r.lastFailureStage)
            && (|s.tried| > 1 || rolledBack ==> s.record.pendingGood == 0 && s.record.attemptCount == 0)
  {
    PreparedIsValid(r, MAX_ATTEMPTS);
    var p := Prepared(r, MAX_ATTEMPTS);
    SelectReason(paths, loads, p, p.selectedSlot);
    SelectRecords(paths, loads, p, p.selectedSlot);
  }

  // ----- sequences of boots -----

  lemma BootIsValid(paths: Paths, loads: Loader, r: Record)
    requires Valid(r)
    ensures Valid(Boot(paths, loads, r).record)
  {
    PreparedCases(r);
    SelectRecords(paths, loads, Prepared(r, MAX_ATTEMPTS), PreparedSlot(r, MAX_ATTEMPTS));
  }

  /** How many of a sequence of boots load the candidate, each boot starting from the record
      the one before left, with load outcomes of its own. */
  ghost function Entries(paths: Paths, boots: seq<Loader>, r: Record, candidate: u32): (n: nat)
    requires Valid(r)
  {
    if boots == [] then 0
    else
      BootIsValid(paths, boots[0], r);
      var s := Boot(paths, boots[0], r);
      Count(s.loaded, candidate) + Entries(paths, boots[1..], s.record, candidate)
  }

  /** A boot of a pending slot with attempts left, whose kernel loads. */
  lemma PendingBoot(paths: Paths, loads: Loader, r: Record, candidate: u32)
    requires Valid(r) && r.pendingGood == 1 && r.selectedSlot == candidate && r.attemptCount < 3
    requires PathFor(paths, candidate) != [] && loads(candidate)
    ensures var s := Boot(paths, loads, r);
            && s.loaded == Some(candidate) && s.tried == [candidate] && Valid(s.record) && s.record.pendingGood == 1
            && s.record.selectedSlot == candidate && s.record.attemptCount == r.attemptCount + 1
            && s.record.lastGoodSlot == r.lastGoodSlot
  {
    PreparedCases(r);
  }

  /** The record after some boots. */
  ghost function After(paths: Paths, boots: seq<Loader>, r: Record): (s: Record)
    requires Valid(r)
    ensures Valid(s)
    decreases |boots|
  {
    if boots == [] then r
    else
      BootIsValid(paths, boots[0], r);
      After(paths, boots[1..], Boot(paths, boots[0], r).record)
  }

  lemma {:induction false} TriesLeft(paths: Paths, boots: seq<Loader>, r: Record, candidate: u32)
    requires Valid(r) && r.pendingGood == 1 && r.selectedSlot == candidate && r.attemptCount + |boots| == 3
    requires PathFor(paths, candidate) != [] && forall i :: 0 <= i < |boots| ==> boots[i](candidate)
    ensures Entries(paths, boots, r, candidate) == |boots|
    ensures var s := After(paths, boots, r);
            s.pendingGood == 1 && s.selectedSlot == candidate && s.attemptCount == 3 && s.lastGoodSlot == r.lastGoodSlot
    decreases |boots|
  {
    if boots != [] {
      PendingBoot(paths, boots[0], r, candidate);
      TriesLeft(paths, boots[1..], Boot(paths, boots[0], r).record, candidate);
    }
  }

  /** A slot made pending whose kernel loads is tried three times; the fourth boot gives it up
      and starts with the slot last known good, or with recovery if that is the slot itself. */
  lemma ThreeTries(paths: Paths, boots: seq<Loader>, r: Record, candidate: u32, fourth: Loader)
    requires Begun(r, candidate).Some? && |boots| == 3 && PathFor(paths, candidate) != []
    requires forall i :: 0 <= i < 3 ==> boots[i](candidate)
    ensures Valid(Begun(r, candidate).value) && Entries(paths, boots, Begun(r, candidate).value, candidate) == 3
    ensures var s := Boot(paths, fourth, After(paths, boots, Begun(r, candidate).value));
            && s.tried != [] && s.tried[0] == (if r.lastGoodSlot != candidate then r.lastGoodSlot else 2)
            && s.record.pendingGood == 0 && s.record.lastGoodSlot == r.lastGoodSlot
  {
    BegunIsValid(r, candidate);
    var b := Begun(r, candidate).value;
    TriesLeft(paths, boots, b, candidate);
    var a := After(paths, boots, b);
    PreparedCases(a);
    SelectRecords(paths, fourth, Prepared(a, MAX_ATTEMPTS), PreparedSlot(a, MAX_ATTEMPTS));
    SelectTries(paths, fourth, Good(paths, fourth), Prepared(a, MAX_ATTEMPTS), PreparedSlot(a, MAX_ATTEMPTS));
  }

  /** With a slot marked good before: that is where the fourth boot starts. */
  lemma RolledBackToMarked(paths: Paths, boots: seq<Loader>, r: Record, good: u32, candidate: u32, fourth: Loader)
    requires Valid(r) && good <= 2 && candidate <= 1 && |boots| == 3 && PathFor(paths, candidate) != []
    requires forall i :: 0 <= i < 3 ==> boots[i](candidate)
    ensures MarkedGood(r, good).Some? && Begun(MarkedGood(r, good).value, candidate).Some?
    ensures var b := Begun(MarkedGood(r, good).value, candidate).value;
            Valid(b) && Boot(paths, fourth, After(paths, boots, b)).tried != []
            && Boot(paths, fourth, After(paths, boots, b)).tried[0] == if good != candidate then good else 2
  {
    MarkedIsValid(r, good);
    ThreeTries(paths, boots, MarkedGood(r, good).value, candidate, fourth);
  }

  lemma {:induction false} BootsAreTrials(paths: Paths, boots: seq<Loader>, candidate: u32, s0: Trial, s: Trial)
    requires Reach(paths, candidate, s0, s) && Valid(s.record) && s.trying.None?
    ensures exists s' :: Reach(paths, candidate, s0, s')
              && s'.entries == s.entries + Entries(paths, boots, s.record, candidate)
    decreases |boots|
  {
    if boots != [] {
      var b := Boot(paths, boots[0], s.record);
      BootIsTrial(paths, boots[0], candidate, s0, s);
      BootIsValid(paths, boots[0], s.record);
      BootsAreTrials(paths, boots[1..], candidate, s0, Trial(b.record, None, s.entries + Count(b.loaded, candidate)));
    }
  }

  /** Outside the re-entrant configuration no sequence of boots loads a pending slot more
      than 3 times. */
  lemma BootsAreBounded(paths: Paths, candidate: u32, r: Record, boots: seq<Loader>)
    requires Begun(r, candidate).Some? && !Reentrant(paths, candidate, r.lastGoodSlot)
    ensures Valid(Begun(r, candidate).value) && Entries(paths, boots, Begun(r, candidate).value, candidate) <= 3
  {
    BegunIsValid(r, candidate);
    var s0 := Trial(Begun(r, candidate).value, None, 0);
    ReachSelf(paths, candidate, s0);
    BootsAreTrials(paths, boots, candidate, s0, s0);
    var s' :| Reach(paths, candidate, s0, s') && s'.entries == Entries(paths, boots, s0.record, candidate);
    var states :| IsRun(paths, candidate, states) && states[0] == s0 && states[|states| - 1] == s';
    TrialIsBounded(paths, candidate, r, states, |states| - 1);
  }

  // ----- the exception -----

  /** Only the previous kernel loads. */
  ghost predicate OnlyPrevious(loads: Loader) { forall slot: u32 :: loads(slot) <==> slot == PREVIOUS }

  /** A boot that loads the previous slot and leaves it selected, current being last good:
      by its own attempt, by the fallback after the roll back, or as the selected slot. */
  lemma BootEntersPrevious(paths: Paths, loads: Loader, r: Record)
    requires Valid(r) && r.selectedSlot == PREVIOUS && r.lastGoodSlot == CURRENT && paths.previous != []
             && OnlyPrevious(loads)
    ensures var s := Boot(paths, loads, r);
            s.loaded == Some(PREVIOUS) && Valid(s.record) && s.record.selectedSlot == PREVIOUS
            && s.record.lastGoodSlot == CURRENT
  {
    PreparedCases(r);
    var p := Prepared(r, MAX_ATTEMPTS);
    FellBackIsValid(p, PREVIOUS, FAILURE_KERNEL_FILE);
    SelectRecords(paths, loads, p, p.selectedSlot);
    assert loads(PREVIOUS) && !loads(CURRENT);
  }

  /** In the re-entrant configuration every boot loads the slot that used up its attempts. */
  lemma {:induction false} Unbounded(paths: Paths, boots: seq<Loader>, r: Record)
    requires Valid(r) && r.selectedSlot == PREVIOUS && r.lastGoodSlot == CURRENT && paths.previous != []
    requires forall i :: 0 <= i < |boots| ==> OnlyPrevious(boots[i])
    ensures Entries(paths, boots, r, PREVIOUS) == |boots|
    decreases |boots|
  {
    if boots != [] {
      BootEntersPrevious(paths, boots[0], r);
      Unbounded(paths, boots[1..], Boot(paths, boots[0], r).record);
    }
  }

  lemma PreviousOnly(n: nat) returns (boots: seq<Loader>)
    ensures |boots| == n && forall i :: 0 <= i < n ==> OnlyPrevious(boots[i])
  {
    var loads: Loader := (slot: u32) => slot == PREVIOUS;
    assert OnlyPrevious(loads);
    boots := seq(n, i => loads);
  }

  /** The bound of 3 holds for all sequences of boots exactly outside that configuration. */
  lemma BoundedIff(paths: Paths, candidate: u32, r: Record)
    requires Begun(r, candidate).Some?
    ensures Valid(Begun(r, candidate).value)
    ensures (forall boots: seq<Loader> :: Entries(paths, boots, Begun(r, candidate).value, candidate) <= 3)
       <==> !Reentrant(paths, candidate, r.lastGoodSlot)
  {
    BegunIsValid(r, candidate);
    if Reentrant(paths, candidate, r.lastGoodSlot) {
      var boots := PreviousOnly(4);
      Unbounded(paths, boots, Begun(r, candidate).value);
    } else {
      forall boots: seq<Loader>
        ensures Entries(paths, boots, Begun(r, candidate).value, candidate) <= 3
      {
        BootsAreBounded(paths, candidate, r, boots);
      }
    }
  }

  /** A concrete start: the default record with the previous slot made pending. */
  lemma DefaultIsUnbounded(paths: Paths, n: nat) returns (boots: seq<Loader>)
    requires paths.previous != []
    ensures |boots| == n && Begun(DefaultRecord(), PREVIOUS).Some? && Valid(Begun(DefaultRecord(), PREVIOUS).value)
    ensures Entries(paths, boots, Begun(DefaultRecord(), PREVIOUS).value, PREVIOUS) == n
  {
    DefaultIsValid();
    BegunIsValid(DefaultRecord(), PREVIOUS);
    boots := PreviousOnly(n);
    Unbounded(paths, boots, Begun(DefaultRecord(), PREVIOUS).value);
  }
}
