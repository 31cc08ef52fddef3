/** Safety of the firmware update engine over whole runs. */
module FirmwareRuns {
  import opened Words
  import opened Crc32
  import opened Firmware

  /** The machine, the request whose image is pending, the request whose image is active
      (once one has been activated), and how often the pending image has been selected. */
  datatype World = World(m: Machine, pending: Option<Request>, active: Option<Request>, selections: nat)

  datatype Event = Stage(request: Request, status: Status) | Select(slot: u32, maxAttempts: u32) | Mark(slot: u32)

  predicate HasPending(w: World) { w.m.state.pendingSlot != SLOT_NONE }

  ghost predicate Next(w: World, e: Event, w': World)
    requires Sound(w.m)
  {
    match e
    case Stage(q, status) =>
      && Proper(q) && StageStep(w.m, q, status, w'.m) && w'.active == w.active
      && if status == Staged then w'.pending == Some(q) && w'.selections == 0
         else w'.pending == w.pending && w'.selections == w.selections
    case Select(slot, maxAttempts) =>
      && slot == SelectedSlot(w.m.state, maxAttempts)
      && w' == w.(m := w.m.(state := Selected(w.m.state, maxAttempts)),
                  selections :=
                    if HasPending(w) && slot == w.m.state.pendingSlot then w.selections + 1 else w.selections)
    case Mark(slot) =>
      if CanMark(w.m.state, slot) then w' == w.(m := w.m.(state := Marked(w.m.state)), active := w.pending) else w' == w
  }

  ghost predicate Init(w: World)
  {
    Sound(w.m) && w.m.state == State(0, 0, SLOT_NONE, 0, 0, 0) && w.active == None && w.selections == 0
  }

  // ----- what every run keeps -----

  /** Anything pending is in the slot after the active one, and the attempt counter counts
      its selections; with nothing pending, counter and pending generation are zero. */
  ghost predicate Inv(w: World)
  {
    && Sound(w.m)
    && (HasPending(w) ==> w.m.state.pendingSlot == Target(w.m.state, w.m.slotCount) != w.m.state.activeSlot
                          && w.m.state.pendingAttempts == w.selections)
    && (!HasPending(w) ==> w.m.state.pendingAttempts == 0 && w.m.state.pendingGeneration == 0)
  }

  /** Every step keeps that, never touches the active slot, and changes the state in a
      failed staging call not at all. */
  lemma StepIsSafe(w: World, e: Event, w': World)
    requires Inv(w) && Next(w, e, w')
    ensures Inv(w')
    ensures w'.m.slots[w.m.state.activeSlot] == w.m.slots[w.m.state.activeSlot]
    ensures e.Stage? && e.status != Staged ==> w'.m.state == w.m.state
    ensures w'.m.state.activeSlot != w.m.state.activeSlot ==> e.Mark? && e.slot == w.m.state.pendingSlot
    ensures w'.selections > w.selections ==>
              e.Select? && w.selections < Limit(e.maxAttempts) && w'.selections == w.selections + 1
  {
    TargetIsOther(w.m.state, w.m.slotCount);
    match e
    case Stage(q, status) =>
    case Select(slot, maxAttempts) => WrapSmall(w.m.state.pendingAttempts + 1);
    case Mark(slot) =>
  }

  ghost predicate IsRun(states: seq<World>, events: seq<Event>)
  {
    && |states| == |events| + 1 && Init(states[0])
    && forall i :: 0 <= i < |events| && Sound(states[i].m) ==> Next(states[i], events[i], states[i + 1])
  }

  /** Over every run, pending stays apart from active and its selections are counted. */
  lemma {:induction false} RunIsSafe(states: seq<World>, events: seq<Event>, k: nat)
    requires IsRun(states, events) && k < |states|
    ensures Inv(states[k])
  {
    if k > 0 {
      RunIsSafe(states, events, k - 1);
      StepIsSafe(states[k - 1], events[k - 1], states[k]);
    }
  }

  predicate Allows(e: Event, bound: nat) { e.Select? ==> Limit(e.maxAttempts) <= bound }

  /** Over every run whose calls allow at most bound attempts, each with a limit of its own,
      each staged image is selected at most bound times. */
  lemma {:induction false} SelectionsAreBounded(states: seq<World>, events: seq<Event>, bound: nat, k: nat)
    requires IsRun(states, events) && k < |states| && forall i :: 0 <= i < k ==> Allows(events[i], bound)
    ensures states[k].selections <= bound
  {
    if k > 0 {
      SelectionsAreBounded(states, events, bound, k - 1);
      RunIsSafe(states, events, k - 1);
      StepIsSafe(states[k - 1], events[k - 1], states[k]);
    }
  }

  /** Once the image has been selected as often as a call allows, that call returns to the
      active slot and drops the image. */
  lemma UsedUp(w: World, e: Event, w': World)
    requires Inv(w) && HasPending(w) && e.Select? && w.selections >= Limit(e.maxAttempts) && Next(w, e, w')
    ensures e.slot == w.m.state.activeSlot && !HasPending(w')
  {
  }

  /** A selection answers with the pending slot exactly while fewer selections of it were made
      than the call allows, three by default; it then counts one more. */
  lemma SelectionIsExact(w: World, e: Event, w': World)
    requires Inv(w) && e.Select? && Next(w, e, w')
    ensures var allowed := if e.maxAttempts == 0 then 3 else e.maxAttempts;
            if HasPending(w) && w.selections < allowed
            then e.slot == w.m.state.pendingSlot && HasPending(w') && w'.selections == w.selections + 1
            else e.slot == w.m.state.activeSlot && !HasPending(w') && w'.selections == w.selections
  {
    TargetIsOther(w.m.state, w.m.slotCount);
    WrapSmall(w.m.state.pendingAttempts + 1);
  }

  /** The slot that was active before the latest activation of a run, or the active slot
      itself when an update was staged since. */
  ghost function FormerSlot(states: seq<World>, events: seq<Event>, k: nat): (slot: u32)
    requires |states| == |events| + 1 && k <= |events|
  {
    if k == 0 then 0
    else
      var w, e := states[k - 1], events[k - 1];
      if (e.Stage? && e.status == Staged) || (e.Mark? && HasPending(w) && e.slot == w.m.state.pendingSlot)
      then w.m.state.activeSlot else FormerSlot(states, events, k - 1)
  }

  /** previous_good_slot is that slot, over every run. */
  lemma {:induction false} PreviousIsFormer(states: seq<World>, events: seq<Event>, k: nat)
    requires IsRun(states, events) && k < |states|
    ensures states[k].m.state.previousGoodSlot == FormerSlot(states, events, k)
  {
    if k > 0 {
      PreviousIsFormer(states, events, k - 1);
      RunIsSafe(states, events, k - 1);
      PreviousStep(states[k - 1], events[k - 1], states[k]);
    }
  }

  lemma PreviousStep(w: World, e: Event, w': World)
    requires Inv(w) && Next(w, e, w')
    ensures w'.m.state.previousGoodSlot ==
            if (e.Stage? && e.status == Staged) || (e.Mark? && HasPending(w) && e.slot == w.m.state.pendingSlot)
            then w.m.state.activeSlot else w.m.state.previousGoodSlot
  {
  }

  /** An activation makes the pending slot active and leaves nothing pending. */
  lemma ActivationIsExact(w: World, e: Event, w': World)
    requires Inv(w) && e.Mark? && Next(w, e, w')
    ensures if HasPending(w) && e.slot == w.m.state.pendingSlot
            then w'.m.state.activeSlot == e.slot && !HasPending(w') && w'.active == w.pending else w' == w
  {
  }

  // ----- what is activated was verified -----

  /** The manifest is a proper one, for the board that was asked for. */
  ghost predicate ForBoard(q: Request)
  {
    && q.manifest.magic == 0x5557_464A && q.manifest.version == 1 && q.manifest.headerSize == 56
    && Names(q.manifest.boardId, q.board)
  }

  /** The slot holds, byte for byte, the non-empty image of a request for this board whose
      checksum matched. */
  ghost predicate HoldsImage(slots: seq<seq<u8>>, slot: u32, q: Request)
  {
    && Proper(q) && slot < |slots| && 0 < |Payload(q)| && Crc(Payload(q)) == q.manifest.imageCrc32
    && StartsWith(slots[slot], Payload(q)) && ForBoard(q)
  }

  lemma AcceptedIsForBoard(q: Request, s: State, slotCount: u32, slotSize: u32)
    requires Proper(q) && Precheck(q, s, slotCount, slotSize) == Staged
    ensures ForBoard(q)
  {
    NameOfMeaning(q.manifest.boardId, 0, q.board);
  }

  /** The checks before the flash is touched pass exactly for a non-empty image that fits the
      slot and matches its checksum, under a proper manifest for this board that is newer than
      the active firmware or allowed to be older. */
  lemma AcceptedIff(q: Request, s: State, slotCount: u32, slotSize: u32)
    requires Proper(q)
    ensures Precheck(q, s, slotCount, slotSize) == Staged
       <==> && ForBoard(q) && StateValid(s, slotCount) && 0 < |Payload(q)| <= slotSize
            && (q.allowRollback || q.manifest.generation > s.activeGeneration)
            && Crc(Payload(q)) == q.manifest.imageCrc32
  {
    NameOfMeaning(q.manifest.boardId, 0, q.board);
  }

  /** An update for another board, or with a manifest of another kind, is never staged: the
      call leaves flash and state as they were. */
  lemma ForeignIsRefused(m: Machine, q: Request, status: Status, m': Machine)
    requires Sound(m) && Proper(q) && !ForBoard(q) && StageStep(m, q, status, m')
    ensures status != Staged && m' == m
  {
    if Precheck(q, m.state, m.slotCount, m.slotSize) == Staged {
      AcceptedIsForBoard(q, m.state, m.slotCount, m.slotSize);
    }
  }

  ghost predicate Verified(w: World)
  {
    && (HasPending(w) ==> w.pending.Some? && HoldsImage(w.m.slots, w.m.state.pendingSlot, w.pending.value)
                          && w.m.state.pendingGeneration == w.pending.value.manifest.generation)
    && (w.active.Some? ==> HoldsImage(w.m.slots, w.m.state.activeSlot, w.active.value)
                           && w.m.state.activeGeneration == w.active.value.manifest.generation)
  }

  /** The staging call would be refused before the flash is touched. */
  ghost predicate Refused(w: World, q: Request)
    requires Proper(q)
  {
    Precheck(q, w.m.state, w.m.slotCount, w.m.slotSize) != Staged
  }

  /** What a caller can see to: staging with nothing pending, or in vain. */
  ghost predicate Careful(w: World, e: Event)
  {
    e.Stage? && Proper(e.request) ==> !HasPending(w) || Refused(w, e.request)
  }

  /** A staging call that succeeds. */
  predicate Replaces(e: Event) { e.Stage? && e.status == Staged }

  lemma CarefulKeepsVerified(w: World, e: Event, w': World)
    requires Inv(w) && Verified(w) && e.Stage? && Careful(w, e) && Next(w, e, w')
    ensures Verified(w')
  {
    TargetIsOther(w.m.state, w.m.slotCount);
    if Replaces(e) {
      StagedIsForBoard(w, e, w');
    }
  }

  /** Success replaces whatever was pending by another verified image. */
  lemma ReplacingKeepsVerified(w: World, e: Event, w': World)
    requires Inv(w) && Verified(w) && Replaces(e) && Next(w, e, w')
    ensures Verified(w') && w'.pending == Some(e.request)
  {
    TargetIsOther(w.m.state, w.m.slotCount);
    StagedIsForBoard(w, e, w');
  }

  lemma StagedIsForBoard(w: World, e: Event, w': World)
    requires Sound(w.m) && Replaces(e) && Next(w, e, w')
    ensures ForBoard(e.request)
  {
    if !ForBoard(e.request) {
      ForeignIsRefused(w.m, e.request, e.status, w'.m);
    }
  }

  lemma StepKeepsVerified(w: World, e: Event, w': World)
    requires Inv(w) && Verified(w) && (Careful(w, e) || Replaces(e)) && Next(w, e, w')
    ensures Verified(w')
    ensures e.Mark? && CanMark(w.m.state, e.slot) ==>
              w.pending.Some? && HoldsImage(w'.m.slots, w'.m.state.activeSlot, w.pending.value)
  {
    match e
    case Stage(q, status) =>
      if Replaces(e) {
        ReplacingKeepsVerified(w, e, w');
      } else {
        CarefulKeepsVerified(w, e, w');
      }
    case Select(slot, maxAttempts) =>
    case Mark(slot) =>
  }

  /** In a run whose staging calls are careful or succeed, whatever is pending or active is
      an image that passed the checksum, held byte for byte. */
  lemma {:induction false} OnlyVerifiedImages(states: seq<World>, events: seq<Event>, k: nat)
    requires IsRun(states, events) && k < |states|
    requires forall i :: 0 <= i < k ==> Careful(states[i], events[i]) || Replaces(events[i])
    ensures Verified(states[k])
  {
    if k > 0 {
      OnlyVerifiedImages(states, events, k - 1);
      RunIsSafe(states, events, k - 1);
      StepKeepsVerified(states[k - 1], events[k - 1], states[k]);
    }
  }

  /** The machine after an erase that failed and left other bytes behind. */
  ghost function Damaged(m: Machine, slot: u32): (m': Machine)
    requires slot < |m.slots| && |m.slots[slot]| > 0
  {
    var first: int := m.slots[slot][0];
    var held: seq<u8> := m.slots[slot][0 := (first + 1) % 256];
    m.(slots := m.slots[slot := held])
  }

  lemma DamageLosesImage(w: World, q: Request)
    requires Inv(w) && Verified(w) && HasPending(w) && Proper(q) && !Refused(w, q)
    ensures var slot := w.m.state.pendingSlot;
            && slot < |w.m.slots| && |w.m.slots[slot]| > 0
            && StageStep(w.m, q, EraseFailed, Damaged(w.m, slot))
            && !HoldsImage(Damaged(w.m, slot).slots, slot, w.pending.value)
  {
    var slot := w.m.state.pendingSlot;
    var p := Payload(w.pending.value);
    var x := Damaged(w.m, slot).slots[slot];
    assert w.m.slots[slot][0] == w.m.slots[slot][..|p|][0];
    assert x[..|p|][0] == x[0] != p[0];
  }

  /** Staging again while an image is pending reuses its slot. The pending slot still holds
      the verified image after a failing call, however the flash behaves, exactly when the
      call is refused before the flash is touched. */
  lemma RestagingIsHarmless(w: World, q: Request)
    requires Inv(w) && Verified(w) && HasPending(w) && Proper(q)
    ensures (forall m', status :: status != Staged && StageStep(w.m, q, status, m') ==>
               HoldsImage(m'.slots, w.m.state.pendingSlot, w.pending.value))
       <==> Refused(w, q)
  {
    if !Refused(w, q) {
      DamageLosesImage(w, q);
    }
  }

  /** The damage can be activated: a staging call that fails in the flash, then the mark. */
  lemma DamagedImageActivated(w: World, q: Request) returns (w1: World, w2: World)
    requires Inv(w) && Verified(w) && HasPending(w) && Proper(q) && !Refused(w, q)
    ensures Sound(w1.m) && Next(w, Stage(q, EraseFailed), w1) && Next(w1, Mark(w.m.state.pendingSlot), w2)
    ensures w2.m.state.activeSlot == w.m.state.pendingSlot && w2.active == w.pending
    ensures !HoldsImage(w2.m.slots, w2.m.state.activeSlot, w2.active.value)
  {
    DamageLosesImage(w, q);
    w1 := w.(m := Damaged(w.m, w.m.state.pendingSlot));
    w2 := w1.(m := w1.m.(state := Marked(w1.m.state)), active := w1.pending);
  }

  /** From the initial state: any request that is accepted there can be staged, damaged by
      staging it again, and activated in a slot that does not hold it. */
  lemma DamagedRun(w0: World, q: Request) returns (states: seq<World>, events: seq<Event>)
    requires Init(w0) && Proper(q) && !Refused(w0, q)
    ensures IsRun(states, events) && states[0] == w0 && |events| == 3
    ensures events == [Stage(q, Staged), Stage(q, EraseFailed), Mark(Target(w0.m.state, w0.m.slotCount))]
    ensures var w := states[3]; w.active == Some(q) && !HoldsImage(w.m.slots, w.m.state.activeSlot, q)
  {
    var w1 := StagedOnce(w0, q);
    var w2, w3 := DamagedImageActivated(w1, q);
    states := [w0, w1, w2, w3];
    events := [Stage(q, Staged), Stage(q, EraseFailed), Mark(w1.m.state.pendingSlot)];
    assert IsRun(states, events);
  }

  /** A staging call that the flash carries out. */
  lemma StagedOnce(w: World, q: Request) returns (w': World)
    requires Init(w) && Proper(q) && !Refused(w, q)
    ensures Next(w, Stage(q, Staged), w') && Inv(w') && Verified(w') && HasPending(w') && w'.pending == Some(q)
    ensures w'.m.state.pendingSlot == Target(w.m.state, w.m.slotCount) && !Refused(w', q)
  {
    TargetIsOther(w.m.state, w.m.slotCount);
    var target, p := Target(w.m.state, w.m.slotCount), Payload(q);
    var held := p + w.m.slots[target][|p|..];
    assert held[..|p|] == p;
    var m' := w.m.(slots := w.m.slots[target := held], state := StagedState(w.m.state, target, q.manifest.generation));
    w' := w.(m := m', pending := Some(q), selections := 0);
    StepIsSafe(w, Stage(q, Staged), w');
    StepKeepsVerified(w, Stage(q, Staged), w');
  }

  /** Such requests exist for every flash with room for one byte. */
  lemma SomeRequest(w: World) returns (q: Request)
    requires Init(w) && w.m.slotSize > 0
    ensures Proper(q) && !Refused(w, q)
  {
    var name: seq<u8> := [0x41];
    var board: BoardId := name + seq(31, i => 0);
    var image: seq<u8> := [1];
    q := Request(Manifest(MAGIC, VERSION, HEADER_SIZE, board, 1, 1, Crc(image)), image, name, false);
    assert Payload(q) == image;
    assert board[0] == 0x41 && board[1] == 0 && board[..1] == name;
    assert NameOf(board, 0) == NameOf(board, 1) == Some(name);
  }

  // ----- generations -----

  ghost predicate Ahead(w: World) { HasPending(w) ==> w.m.state.pendingGeneration > w.m.state.activeGeneration }

  predicate NoRollback(e: Event) { e.Stage? ==> !e.request.allowRollback }

  lemma StepKeepsAhead(w: World, e: Event, w': World)
    requires Sound(w.m) && Ahead(w) && NoRollback(e) && Next(w, e, w')
    ensures Ahead(w') && w'.m.state.activeGeneration >= w.m.state.activeGeneration
    ensures e.Mark? && CanMark(w.m.state, e.slot) ==> w'.m.state.activeGeneration > w.m.state.activeGeneration
  {
  }

  lemma {:induction false} RunKeepsAhead(states: seq<World>, events: seq<Event>, k: nat)
    requires IsRun(states, events) && k < |states| && forall i :: 0 <= i < k ==> NoRollback(events[i])
    ensures Ahead(states[k])
  {
    if k > 0 {
      RunKeepsAhead(states, events, k - 1);
      RunIsSafe(states, events, k - 1);
      StepKeepsAhead(states[k - 1], events[k - 1], states[k]);
    }
  }

  /** Without rollback the active generation never decreases over a run, and it strictly
      increases across every activation. */
  lemma {:induction false} GenerationsIncrease(states: seq<World>, events: seq<Event>, i: nat, k: nat)
    requires IsRun(states, events) && i <= k < |states| && forall j :: 0 <= j < k ==> NoRollback(events[j])
    ensures states[k].m.state.activeGeneration >= states[i].m.state.activeGeneration
    ensures (exists j :: i <= j < k && Activates(states[j], events[j])) ==>
              states[k].m.state.activeGeneration > states[i].m.state.activeGeneration
  {
    if i < k {
      GenerationsIncrease(states, events, i, k - 1);
      RunKeepsAhead(states, events, k - 1);
      RunIsSafe(states, events, k - 1);
      StepKeepsAhead(states[k - 1], events[k - 1], states[k]);
    }
  }

  predicate Activates(w: World, e: Event) { e.Mark? && CanMark(w.m.state, e.slot) }
}
