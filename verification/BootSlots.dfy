/** Choosing a kernel: the slots a boot tries, the health record it leaves, and the UEFI
    loader's loop. */
module BootSlots {
  import opened Words
  import opened Health

  /** The three kernel paths of the configuration; the last two may be empty. */
  datatype Paths = Paths(current: seq<u8>, previous: seq<u8>, recovery: seq<u8>)

  /** kernel_path_for_slot. */
  function PathFor(paths: Paths, slot: u32): (p: seq<u8>)
  {
    if slot == CURRENT then paths.current else if slot == PREVIOUS then paths.previous else paths.recovery
  }

  /** Whether the file at a slot's path is found, read and a valid image. */
  type Loader = u32 -> bool

  predicate Loads(paths: Paths, loads: Loader, slot: u32) { PathFor(paths, slot) != [] && loads(slot) }

  /** The slot to fall back to. */
  function Fallback(paths: Paths, slot: u32): (r: Option<u32>)
  {
    if slot == CURRENT && paths.previous != [] then Some(PREVIOUS)
    else if slot != RECOVERY && paths.recovery != [] then Some(RECOVERY)
    else None
  }

  /** The slots in the order they are tried, from slot on. */
  function Chain(paths: Paths, slot: u32): (l: seq<u32>)
    requires SlotValid(slot)
    ensures 0 < |l| <= 3 - slot && l[0] == slot
    ensures forall i :: 0 <= i < |l| ==> SlotValid(l[i])
    ensures forall i, j :: 0 <= i < j < |l| ==> l[i] < l[j]
    decreases RECOVERY - slot
  {
    match Fallback(paths, slot)
    case None => [slot]
    case Some(next) => [slot] + Chain(paths, next)
  }

  /** The order: the slot itself, then every later slot (current 0, previous 1, recovery 2) that
      has a path, in ascending order. */
  lemma ChainMeaning(paths: Paths, slot: u32, t: u32)
    requires slot <= 2
    ensures t in Chain(paths, slot)
       <==> t == slot || (slot < t && ((t == 1 && paths.previous != []) || (t == 2 && paths.recovery != [])))
  {
    if slot == 0 && paths.previous != [] {
      assert Chain(paths, 0) == [0] + Chain(paths, 1);
    }
    assert Chain(paths, 2) == [2];
    if paths.recovery != [] {
      assert Chain(paths, 1) == [1] + Chain(paths, 2);
    } else {
      assert Chain(paths, 1) == [1];
    }
  }

  // ----- the loop -----

  datatype Selection = Selection(loaded: Option<u32>, tried: seq<u32>, record: Record)

  /** What the loop does from a slot on: the slots tried, and the record as it is left. */
  function Select(paths: Paths, loads: Loader, r: Record, slot: u32): (s: Selection)
    requires SlotValid(slot)
    decreases RECOVERY - slot
  {
    if Loads(paths, loads, slot) then Selection(Some(slot), [slot], r)
    else if Fallback(paths, slot).None? then Selection(None, [slot], r)
    else
      var next := Fallback(paths, slot).value;
      match FellBack(r, next, FAILURE_KERNEL_FILE)
      case None => Selection(None, [slot], r)
      case Some(r') =>
        var rest := Select(paths, loads, r', next);
        rest.(tried := [slot] + rest.tried)
  }

  /** tried is the part of the list up to its first good element, which is loaded; or the
      whole list when it has none. */
  ghost predicate FirstHit(l: seq<u32>, good: Loader, tried: seq<u32>, loaded: Option<u32>)
  {
    && 0 < |tried| <= |l| && tried == l[..|tried|]
    && (forall i :: 0 <= i < |tried| - 1 ==> !good(l[i]))
    && (loaded.Some? ==> loaded.value == l[|tried| - 1] && good(loaded.value))
    && (loaded.None? ==> tried == l && forall i :: 0 <= i < |l| ==> !good(l[i]))
  }

  lemma FirstHitCons(slot: u32, l: seq<u32>, good: Loader, tried: seq<u32>, loaded: Option<u32>)
    requires !good(slot) && FirstHit(l, good, tried, loaded)
    ensures FirstHit([slot] + l, good, [slot] + tried, loaded)
  {
  }

  function Good(paths: Paths, loads: Loader): (good: Loader) { (slot: u32) => Loads(paths, loads, slot) }

  /** The loop tries a prefix of the chain, so no slot twice, and stops at the first one
      that loads; it fails exactly when none of the chain loads. */
  lemma {:induction false} SelectTries(paths: Paths, loads: Loader, good: Loader, r: Record, slot: u32)
    requires Valid(r) && SlotValid(slot) && forall c: u32 :: good(c) == Loads(paths, loads, c)
    ensures var s := Select(paths, loads, r, slot); FirstHit(Chain(paths, slot), good, s.tried, s.loaded)
    decreases RECOVERY - slot
  {
    if !Loads(paths, loads, slot) && Fallback(paths, slot).Some? {
      var next := Fallback(paths, slot).value;
      var r' := FellBack(r, next, FAILURE_KERNEL_FILE).value;
      FellBackIsValid(r, next, FAILURE_KERNEL_FILE);
      SelectTries(paths, loads, good, r', next);
      var rest := Select(paths, loads, r', next);
      FirstHitCons(slot, Chain(paths, next), good, rest.tried, rest.loaded);
    }
  }

  /** The record is left selecting the last slot tried; without a fallback it is unchanged,
      after one it is no longer pending. */
  lemma {:induction false} SelectRecords(paths: Paths, loads: Loader, r: Record, slot: u32)
    requires Valid(r) && r.selectedSlot == slot
    ensures var s := Select(paths, loads, r, slot);
            && s.tried != [] && Valid(s.record) && s.record.lastGoodSlot == r.lastGoodSlot
            && s.record.selectedSlot == s.tried[|s.tried| - 1]
            && (if |s.tried| == 1 then s.record == r else s.record.pendingGood == 0)
    decreases RECOVERY - slot
  {
    if !Loads(paths, loads, slot) && Fallback(paths, slot).Some? {
      var next := Fallback(paths, slot).value;
      var r' := FellBack(r, next, FAILURE_KERNEL_FILE).value;
      FellBackIsValid(r, next, FAILURE_KERNEL_FILE);
      SelectRecords(paths, loads, r', next);
    }
  }

  /** A boot tries the chain from the prepared slot in order and loads the first slot that
      works; it fails exactly when no slot of the chain works. On success the record selects
      the slot that was loaded. */
  lemma BootMeaning(paths: Paths, loads: Loader, r: Record)
    requires Valid(r)
    ensures SlotValid(PreparedSlot(r, MAX_ATTEMPTS))
    ensures FirstHit(Chain(paths, PreparedSlot(r, MAX_ATTEMPTS)), Good(paths, loads), Boot(paths, loads, r).tried,
                     Boot(paths, loads, r).loaded)
    ensures Boot(paths, loads, r).loaded.Some? ==>
              Boot(paths, loads, r).record.selectedSlot == Boot(paths, loads, r).loaded.value
    ensures Boot(paths, loads, r).record.lastGoodSlot == r.lastGoodSlot
  {
    var p := Prepared(r, MAX_ATTEMPTS);
    PreparedIsValid(r, MAX_ATTEMPTS);
    SelectTries(paths, loads, Good(paths, loads), p, p.selectedSlot);
    SelectRecords(paths, loads, p, p.selectedSlot);
  }

  /** What a whole boot does with its record. */
  function Boot(paths: Paths, loads: Loader, r: Record): (s: Selection)
    requires Valid(r)
  {
    PreparedIsValid(r, MAX_ATTEMPTS);
    Select(paths, loads, Prepared(r, MAX_ATTEMPTS), PreparedSlot(r, MAX_ATTEMPTS))
  }

  /** What remains of the loop, after some slots have been tried. */
  ghost predicate Remains(whole: Selection, tried: seq<u32>, rest: Selection)
  {
    whole == rest.(tried := tried + rest.tried)
  }

  lemma SelectStep(paths: Paths, loads: Loader, whole: Selection, tried: seq<u32>, r: Record, slot: u32)
    requires SlotValid(slot) && Remains(whole, tried, Select(paths, loads, r, slot))
    ensures Loads(paths, loads, slot) ==> whole == Selection(Some(slot), tried + [slot], r)
    ensures !Loads(paths, loads, slot) ==>
              var next := Fallback(paths, slot);
              if next.None? || FellBack(r, next.value, FAILURE_KERNEL_FILE).None?
              then whole == Selection(None, tried + [slot], r)
              else Remains(whole, tried + [slot],
                           Select(paths, loads, FellBack(r, next.value, FAILURE_KERNEL_FILE).value, next.value))
  {
    if !Loads(paths, loads, slot) && Fallback(paths, slot).Some? {
      var next := Fallback(paths, slot).value;
      var f := FellBack(r, next, FAILURE_KERNEL_FILE);
      if f.Some? {
        var rest := Select(paths, loads, f.value, next);
        assert tried + ([slot] + rest.tried) == tried + [slot] + rest.tried;
      }
    }
  }

  /** The record a boot starts from. */
  function Loaded(stored: Option<Record>): (r: Record)
  {
    if stored.Some? && Valid(stored.value) then stored.value else DefaultRecord()
  }

  // ----- UEFI -----

  /** The non-volatile variable that holds the record on UEFI. A store either replaces the
      value or fails. */
  class UefiVariable {
    var value: Option<Record>

    constructor (v: Option<Record>)
      ensures value == v
    {
      value := v;
    }

    method Store(r: Record, accepted: bool)
      modifies this
      ensures value == if accepted then Some(r) else old(value)
    {
      if accepted {
        value := Some(r);
      }
    }

    /** uefi_health_load. */
    method Load(accepted: bool) returns (health: HealthRecord)
      modifies this
      ensures fresh(health) && health.View() == Loaded(old(value))
      ensures value == if accepted then Some(health.View()) else old(value)
    {
      if value.Some? {
        health := new HealthRecord(value.value);
        var ok := health.IsValid();
        if ok {
          return;
        }
      }
      health := new HealthRecord(DefaultRecord());
      Store(DefaultRecord(), accepted);
    }
  }

  /** The kernel loop of the UEFI loader. */
  method UefiLoop(variable: UefiVariable, health: HealthRecord, first: u32, paths: Paths, loads: Loader,
                  accepted: nat -> bool)
    returns (loaded: Option<u32>, tried: seq<u32>)
    requires SlotValid(first)
    modifies variable, health
    ensures Selection(loaded, tried, health.View()) == Select(paths, loads, old(health.View()), first)
    ensures (forall t: nat :: accepted(t)) && old(variable.value) == Some(old(health.View())) ==>
              variable.value == Some(health.View())
  {
    ghost var whole := Select(paths, loads, health.View(), first);
    var slot := first;
    tried := [];
    for candidate := 0 to 3
      invariant candidate <= slot && SlotValid(slot)
      invariant Remains(whole, tried, Select(paths, loads, health.View(), slot))
      invariant (forall t: nat :: accepted(t)) && old(variable.value) == Some(old(health.View())) ==>
                  variable.value == Some(health.View())
    {
      SelectStep(paths, loads, whole, tried, health.View(), slot);
      tried := tried + [slot];
      if PathFor(paths, slot) != [] {
        if loads(slot) {
          return Some(slot), tried;
        }
      }
      if slot == CURRENT && paths.previous != [] {
        var ok := health.SelectFallback(PREVIOUS, FAILURE_KERNEL_FILE);
        if !ok {
          return None, tried;
        }
        variable.Store(health.View(), accepted(candidate));
        slot := PREVIOUS;
        continue;
      }
      if slot != RECOVERY && paths.recovery != [] {
        var ok := health.SelectFallback(RECOVERY, FAILURE_KERNEL_FILE);
        if !ok {
          return None, tried;
        }
        variable.Store(health.View(), accepted(candidate));
        slot := RECOVERY;
        continue;
      }
      return None, tried;
    }
    loaded := None;
  }

  lemma LoadedIsValid(stored: Option<Record>)
    ensures Valid(Loaded(stored))
  {
    DefaultIsValid();
  }

  /** Prepares the attempt and stores the record before any kernel is read. */
  method UefiPrepare(variable: UefiVariable, health: HealthRecord, accepted: bool) returns (slot: u32)
    requires Valid(health.View())
    modifies variable, health
    ensures health.View() == Prepared(old(health.View()), MAX_ATTEMPTS)
            && slot == PreparedSlot(old(health.View()), MAX_ATTEMPTS)
    ensures SlotValid(slot)
    ensures accepted && old(variable.value) == Some(old(health.View())) ==> variable.value == Some(health.View())
  {
    PreparedIsValid(health.View(), MAX_ATTEMPTS);
    var generation := health.generation;
    slot := health.PrepareAttempt(MAX_ATTEMPTS);
    if health.generation != generation {
      variable.Store(health.View(), accepted);
    }
  }

  /** load_files of the UEFI loader, from the health record on: the same selection as the
      BIOS loader makes from the same record, and the variable follows the record as long
      as stores are accepted. */
  method UefiBoot(variable: UefiVariable, paths: Paths, loads: Loader, accepted: nat -> bool)
    returns (loaded: Option<u32>, tried: seq<u32>, health: HealthRecord)
    modifies variable
    ensures fresh(health)
    ensures Valid(Loaded(old(variable.value)))
    ensures Selection(loaded, tried, health.View()) == Boot(paths, loads, Loaded(old(variable.value)))
    ensures (forall t: nat :: accepted(t)) ==> variable.value == Some(health.View())
  {
    LoadedIsValid(variable.value);
    health := variable.Load(accepted(4));
    var slot := UefiPrepare(variable, health, accepted(3));
    loaded, tried := UefiLoop(variable, health, slot, paths, loads, accepted);
  }
}
