/** The A/B firmware update engine over a flash whose operations may fail or misbehave. */
module Firmware {
  import opened Words
  import opened Crc32
  import opened Bits

  const MAGIC: u32 := 0x5557_464A
  const VERSION: u16 := 1
  const HEADER_SIZE: u16 := 56
  const BOARD_ID_MAX: nat := 31
  const SLOT_NONE: u32 := 0xFFFF_FFFF
  const MAX_ATTEMPTS: u32 := 3
  const VERIFY_CHUNK: nat := 256

  datatype Status =
    | Staged
    | BadManifest
    | WrongBoard
    | RollbackBlocked
    | ImageTooLarge
    | ImageCorrupt
    | EraseFailed
    | WriteFailed
    | VerifyFailed

  type BoardId = b: seq<u8> | |b| == 32 witness seq(32, i => 0)

  datatype Manifest = Manifest(magic: u32, version: u16, headerSize: u16, boardId: BoardId, generation: u64,
                               imageSize: u32, imageCrc32: u32)

  datatype State = State(activeSlot: u32, previousGoodSlot: u32, pendingSlot: u32, pendingAttempts: u32,
                         activeGeneration: u64, pendingGeneration: u64)

  // ----- the manifest -----

  /** name, of 1 to 31 printable characters, stands zero-terminated at the start of b. */
  predicate Names(b: BoardId, name: seq<u8>)
  {
    && 0 < |name| <= BOARD_ID_MAX && b[..|name|] == name && b[|name|] == 0
    && forall i :: 0 <= i < |name| ==> 0x21 <= name[i] <= 0x7E
  }

  /** The identifier up to its terminator, if it has a proper one. */
  function NameOf(b: BoardId, n: nat): (r: Option<seq<u8>>)
    requires n <= 32
    decreases 32 - n
  {
    if n == 32 then None
    else if b[n] == 0 then if n == 0 then None else Some(b[..n])
    else if b[n] < 0x21 || b[n] > 0x7E then None
    else NameOf(b, n + 1)
  }

  lemma {:induction false} NameOfMeaning(b: BoardId, n: nat, name: seq<u8>)
    requires n <= 32 && forall i :: 0 <= i < n ==> 0x21 <= b[i] <= 0x7E
    ensures NameOf(b, n) == Some(name) <==> Names(b, name)
    decreases 32 - n
  {
    if n < 32 && 0x21 <= b[n] <= 0x7E {
      NameOfMeaning(b, n + 1, name);
    } else if Names(b, name) {
      assert forall i :: 0 <= i < |name| ==> name[i] == b[..|name|][i] == b[i];
      assert |name| == n;
    }
  }

  predicate HeaderValid(m: Manifest)
  {
    m.magic == MAGIC && m.version == VERSION && m.headerSize == HEADER_SIZE && m.imageSize != 0
  }

  /** manifest_valid. */
  method ManifestValid(m: Manifest) returns (ok: bool)
    ensures ok <==> HeaderValid(m) && NameOf(m.boardId, 0).Some?
  {
    if m.magic != MAGIC || m.version != VERSION || m.headerSize != HEADER_SIZE || m.imageSize == 0 {
      return false;
    }
    for i := 0 to 32
      invariant NameOf(m.boardId, 0) == NameOf(m.boardId, i)
    {
      var c := m.boardId[i];
      if c == 0 {
        return i != 0;
      }
      if c < 0x21 || c > 0x7E {
        return false;
      }
    }
    return false;
  }

  /** text_equal of a valid board identifier and a string. */
  method TextEqual(b: BoardId, expected: seq<u8>) returns (ok: bool)
    requires NameOf(b, 0).Some? && forall i :: 0 <= i < |expected| ==> expected[i] != 0
    ensures ok <==> NameOf(b, 0) == Some(expected)
  {
    ghost var name := NameOf(b, 0).value;
    NameOfMeaning(b, 0, name);
    assert forall i :: 0 <= i < |name| ==> name[i] == b[..|name|][i] == b[i];
    for i := 0 to 32
      invariant i <= |name| && i <= |expected| && b[..i] == expected[..i]
    {
      var other: u8 := if i < |expected| then expected[i] else 0;
      if b[i] != other {
        assert i < |expected| && i < |name| ==> name[i] != expected[i];
        return false;
      }
      if b[i] == 0 {
        assert expected[..i] == expected;
        return true;
      }
      assert b[..i + 1] == b[..i] + [b[i]] && expected[..i + 1] == expected[..i] + [expected[i]];
    }
    return false;
  }

  // ----- the checks before the flash is touched -----

  predicate StateValid(s: State, slotCount: u32)
  {
    && slotCount >= 2 && s.activeSlot < slotCount && s.previousGoodSlot < slotCount
    && (s.pendingSlot != SLOT_NONE ==> s.pendingSlot < slotCount)
  }

  /** A call to josh_fw_stage_update. */
  datatype Request = Request(manifest: Manifest, image: seq<u8>, board: seq<u8>, allowRollback: bool)

  /** What the caller provides: all the bytes the manifest speaks of, and a C string. */
  ghost predicate Proper(q: Request)
  {
    q.manifest.imageSize <= |q.image| && forall i :: 0 <= i < |q.board| ==> q.board[i] != 0
  }

  function Payload(q: Request): (p: seq<u8>)
    requires q.manifest.imageSize <= |q.image|
  {
    q.image[..q.manifest.imageSize]
  }

  function Precheck(q: Request, s: State, slotCount: u32, slotSize: u32): (r: Status)
    requires q.manifest.imageSize <= |q.image|
  {
    var m := q.manifest;
    if !HeaderValid(m) || NameOf(m.boardId, 0).None? || !StateValid(s, slotCount) then BadManifest
    else if NameOf(m.boardId, 0) != Some(q.board) then WrongBoard
    else if !q.allowRollback && m.generation <= s.activeGeneration then RollbackBlocked
    else if m.imageSize > slotSize then ImageTooLarge
    else if Crc(Payload(q)) != m.imageCrc32 then ImageCorrupt
    else Staged
  }

  function Target(s: State, slotCount: u32): (t: u32)
    requires slotCount > 0
  {
    Wrap32(s.activeSlot + 1) % slotCount
  }

  lemma TargetIsOther(s: State, slotCount: u32)
    requires StateValid(s, slotCount)
    ensures Target(s, slotCount) < slotCount && Target(s, slotCount) != s.activeSlot
    ensures Target(s, slotCount) == if s.activeSlot + 1 == slotCount then 0 else s.activeSlot + 1
  {
    NextSlot(s.activeSlot, slotCount);
  }

  lemma NextSlot(active: u32, count: u32)
    requires active < count
    ensures Wrap32(active + 1) == active + 1
    ensures (active + 1) % count == if active + 1 == count then 0 else active + 1
  {
    if active + 1 == count {
      DivUnique(active + 1, count, 1, 0);
    } else {
      DivUnique(active + 1, count, 0, active + 1);
    }
  }

  // ----- the flash -----

  /** How an erase or write ends: its status, and what the slot then holds. */
  datatype FlashOutcome = FlashOutcome(ok: bool, left: seq<u8>)

  /** How the flash behaves during one call; reads either fail or are truthful. */
  datatype Weather = Weather(erase: FlashOutcome, write: FlashOutcome, readable: nat -> bool)

  class Flash {
    const slotCount: u32
    const slotSize: u32
    var slots: seq<seq<u8>>

    ghost predicate Valid()
      reads this
    {
      |slots| == slotCount && forall i :: 0 <= i < |slots| ==> |slots[i]| == slotSize
    }

    constructor (count: u32, size: u32)
      ensures Valid() && slotCount == count && slotSize == size
    {
      slotCount, slotSize := count, size;
      slots := seq(count, i => seq(size, j => 0xFF));
    }

    /** Erasing and writing touch only their slot, whatever they leave in it. */
    method Change(slot: u32, outcome: FlashOutcome) returns (ok: bool)
      requires Valid() && slot < slotCount && |outcome.left| == slotSize
      modifies this
      ensures Valid() && slots == old(slots)[slot := outcome.left] && ok == outcome.ok
    {
      slots := slots[slot := outcome.left];
      ok := outcome.ok;
    }

    method Read(slot: u32, offset: nat, length: nat, readable: bool) returns (data: Option<seq<u8>>)
      requires Valid() && slot < slotCount && offset + length <= slotSize
      ensures data == if readable then Some(slots[slot][offset..offset + length]) else None
    {
      data := if readable then Some(slots[slot][offset..offset + length]) else None;
    }
  }

  /** All chunks of the read back can be read. */
  ghost predicate AllReadable(readable: nat -> bool, size: nat)
  {
    forall k: nat :: k * VERIFY_CHUNK < size ==> readable(k)
  }

  /** The byte loop over one chunk. */
  method SameChunk(a: seq<u8>, source: seq<u8>, offset: nat) returns (same: bool)
    requires offset + |a| <= |source|
    ensures same <==> a == source[offset..offset + |a|]
  {
    for i := 0 to |a|
      invariant a[..i] == source[offset..offset + i]
    {
      if a[i] != source[offset + i] {
        assert a[i] != source[offset..offset + |a|][i];
        return false;
      }
      assert a[..i + 1] == a[..i] + [a[i]];
      assert source[offset..offset + i + 1] == source[offset..offset + i] + [source[offset + i]];
    }
    assert a[..|a|] == a;
    return true;
  }

  /** The read-back loop: it succeeds exactly when every chunk can be read and the slot
      starts with the image. */
  method VerifySlot(flash: Flash, slot: u32, image: seq<u8>, readable: nat -> bool) returns (ok: bool)
    requires flash.Valid() && slot < flash.slotCount && |image| <= flash.slotSize
    ensures ok <==> AllReadable(readable, |image|) && flash.slots[slot][..|image|] == image
  {
    ghost var held := flash.slots[slot];
    var offset: nat, k: nat := 0, 0;
    while offset < |image|
      invariant offset <= |image| && (offset < |image| ==> offset == VERIFY_CHUNK * k)
      invariant |image| <= VERIFY_CHUNK * k || offset == VERIFY_CHUNK * k
      invariant held[..offset] == image[..offset]
      invariant forall j: nat :: j < k ==> readable(j)
      decreases |image| - offset
    {
      var length := if |image| - offset < VERIFY_CHUNK then |image| - offset else VERIFY_CHUNK;
      var chunk := flash.Read(slot, offset, length, readable(k));
      if chunk.None? {
        return false;
      }
      var same := SameChunk(chunk.value, image, offset);
      ChunkStep(held, image, offset, length);
      if !same {
        return false;
      }
      offset := offset + length;
      k := k + 1;
    }
    assert image[..offset] == image;
    return true;
  }

  lemma ChunkStep(held: seq<u8>, image: seq<u8>, offset: nat, length: nat)
    requires offset + length <= |image| <= |held| && held[..offset] == image[..offset]
    ensures held[offset..offset + length] == image[offset..offset + length] ==>
              held[..offset + length] == image[..offset + length]
    ensures held[offset..offset + length] != image[offset..offset + length] ==> held[..|image|] != image
  {
    var all := held[..|image|];
    var x, y := all[offset..offset + length], held[offset..offset + length];
    assert x == y by {
      forall i | 0 <= i < length
        ensures x[i] == y[i]
      {
        assert all[offset + i] == held[offset + i];
      }
    }
    assert held[..offset + length] == held[..offset] + held[offset..offset + length];
    assert image[..offset + length] == image[..offset] + image[offset..offset + length];
  }

  // ----- the update state -----

  function StagedState(s: State, target: u32, generation: u64): (r: State)
  {
    s.(previousGoodSlot := s.activeSlot, pendingSlot := target, pendingGeneration := generation, pendingAttempts := 0)
  }

  function Limit(maxAttempts: u32): (r: u32) { if maxAttempts == 0 then MAX_ATTEMPTS else maxAttempts }

  function NothingPending(s: State): (r: State)
  {
    s.(pendingSlot := SLOT_NONE, pendingGeneration := 0, pendingAttempts := 0)
  }

  function Selected(s: State, maxAttempts: u32): (r: State)
  {
    if s.pendingSlot == SLOT_NONE then s
    else if s.pendingAttempts >= Limit(maxAttempts) then NothingPending(s)
    else s.(pendingAttempts := Wrap32(s.pendingAttempts + 1))
  }

  /** The slot josh_fw_select_boot_slot answers: the pending one exactly while attempts are left. */
  function SelectedSlot(s: State, maxAttempts: u32): (slot: u32)
  {
    if s.pendingSlot != SLOT_NONE && s.pendingAttempts < Limit(maxAttempts) then s.pendingSlot else s.activeSlot
  }

  predicate CanMark(s: State, slot: u32) { s.pendingSlot != SLOT_NONE && slot == s.pendingSlot }

  function Marked(s: State): (r: State)
  {
    NothingPending(s.(previousGoodSlot := s.activeSlot, activeSlot := s.pendingSlot,
                      activeGeneration := s.pendingGeneration))
  }

  class UpdateState {
    var activeSlot: u32
    var previousGoodSlot: u32
    var pendingSlot: u32
    var pendingAttempts: u32
    var activeGeneration: u64
    var pendingGeneration: u64

    function View(): (s: State)
      reads this
    {
      State(activeSlot, previousGoodSlot, pendingSlot, pendingAttempts, activeGeneration, pendingGeneration)
    }

    /** josh_fw_update_state_default. */
    constructor ()
      ensures View() == State(0, 0, SLOT_NONE, 0, 0, 0)
    {
      activeSlot, previousGoodSlot, pendingSlot, pendingAttempts := 0, 0, SLOT_NONE, 0;
      activeGeneration, pendingGeneration := 0, 0;
    }

    /** josh_fw_select_boot_slot. */
    method SelectBootSlot(maxAttempts: u32) returns (slot: u32)
      modifies this
      ensures View() == Selected(old(View()), maxAttempts) && slot == SelectedSlot(old(View()), maxAttempts)
    {
      var limit := if maxAttempts == 0 then MAX_ATTEMPTS else maxAttempts;
      if pendingSlot == SLOT_NONE {
        return activeSlot;
      }
      if pendingAttempts >= limit {
        pendingSlot := SLOT_NONE;
        pendingGeneration := 0;
        pendingAttempts := 0;
        return activeSlot;
      }
      pendingAttempts := Wrap32(pendingAttempts + 1);
      slot := pendingSlot;
    }

    /** josh_fw_mark_boot_good. */
    method MarkBootGood(slot: u32) returns (ok: bool)
      modifies this
      ensures ok <==> CanMark(old(View()), slot)
      ensures View() == if ok then Marked(old(View())) else old(View())
    {
      if pendingSlot == SLOT_NONE || slot != pendingSlot {
        return false;
      }
      previousGoodSlot := activeSlot;
      activeSlot := pendingSlot;
      activeGeneration := pendingGeneration;
      pendingSlot := SLOT_NONE;
      pendingGeneration := 0;
      pendingAttempts := 0;
      ok := true;
    }
  }

  // ----- staging -----

  /** The machine: update state and flash contents. */
  datatype Machine = Machine(state: State, slots: seq<seq<u8>>, slotCount: u32, slotSize: u32)

  ghost predicate Sound(m: Machine)
  {
    && StateValid(m.state, m.slotCount)
    && |m.slots| == m.slotCount && forall i :: 0 <= i < |m.slots| ==> |m.slots[i]| == m.slotSize
  }

  /** Slot content starts with the image. */
  predicate StartsWith(content: seq<u8>, image: seq<u8>) { |image| <= |content| && content[..|image|] == image }

  /** The staging call, with what it answers. A failed check leaves everything as it was;
      past the checks only the target slot may change, and the state changes only on
      success, which means that the target starts with the image, read back. */
  ghost predicate StageStep(m: Machine, q: Request, status: Status, m': Machine)
    requires Sound(m) && Proper(q)
  {
    var check := Precheck(q, m.state, m.slotCount, m.slotSize);
    var target := Target(m.state, m.slotCount);
    if check != Staged then status == check && m' == m
    else
      && m'.slotCount == m.slotCount && m'.slotSize == m.slotSize && |m'.slots| == |m.slots|
      && (forall i :: 0 <= i < |m.slots| && i != target ==> m'.slots[i] == m.slots[i])
      && |m'.slots[target]| == m.slotSize
      && if status == Staged
         then m'.state == StagedState(m.state, target, q.manifest.generation)
         && StartsWith(m'.slots[target], Payload(q))
         else m'.state == m.state && (status == EraseFailed || status == WriteFailed || status == VerifyFailed)
  }

  /** What the status must be, given how the flash behaves. */
  ghost function FlashVerdict(q: Request, w: Weather): (status: Status)
    requires Proper(q)
  {
    if !w.erase.ok then EraseFailed
    else if !w.write.ok then WriteFailed
    else if AllReadable(w.readable, |Payload(q)|) && StartsWith(w.write.left, Payload(q)) then Staged
    else VerifyFailed
  }

  function MachineOf(state: State, slots: seq<seq<u8>>, flash: Flash): (m: Machine)
  {
    Machine(state, slots, flash.slotCount, flash.slotSize)
  }

  /** josh_fw_stage_update. */
  method StageUpdate(q: Request, flash: Flash, state: UpdateState, w: Weather) returns (status: Status)
    requires flash.Valid() && Proper(q)
    requires |w.erase.left| == flash.slotSize && |w.write.left| == flash.slotSize
    modifies flash, state
    ensures flash.Valid()
    ensures status == var check := Precheck(q, old(state.View()), flash.slotCount, flash.slotSize);
                      if check != Staged then check else FlashVerdict(q, w)
    ensures if StateValid(old(state.View()), flash.slotCount)
            then StageStep(MachineOf(old(state.View()), old(flash.slots), flash), q, status,
                           MachineOf(state.View(), flash.slots, flash))
            else state.View() == old(state.View()) && flash.slots == old(flash.slots)
  {
    var ok := CheckRequest(q, flash, state);
    if ok != Staged {
      return ok;
    }
    TargetIsOther(state.View(), flash.slotCount);
    var target := Wrap32(state.activeSlot + 1) % flash.slotCount;
    if target == state.activeSlot {
      return BadManifest;
    }
    var erased := flash.Change(target, w.erase);
    if !erased {
      return EraseFailed;
    }
    var written := flash.Change(target, w.write);
    if !written {
      return WriteFailed;
    }
    var verified := VerifySlot(flash, target, Payload(q), w.readable);
    if !verified {
      return VerifyFailed;
    }
    state.previousGoodSlot := state.activeSlot;
    state.pendingSlot := target;
    state.pendingGeneration := q.manifest.generation;
    state.pendingAttempts := 0;
    status := Staged;
  }

  method CheckRequest(q: Request, flash: Flash, state: UpdateState) returns (status: Status)
    requires Proper(q)
    ensures status == Precheck(q, state.View(), flash.slotCount, flash.slotSize)
  {
    var valid := ManifestValid(q.manifest);
    if !valid || !StateValid(state.View(), flash.slotCount) {
      return BadManifest;
    }
    var same := TextEqual(q.manifest.boardId, q.board);
    if !same {
      return WrongBoard;
    }
    if !q.allowRollback && q.manifest.generation <= state.activeGeneration {
      return RollbackBlocked;
    }
    if q.manifest.imageSize > flash.slotSize {
      return ImageTooLarge;
    }
    var crc := ComputeCrc(Payload(q));
    status := if crc != q.manifest.imageCrc32 then ImageCorrupt else Staged;
  }
}
