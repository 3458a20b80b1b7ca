// The global data of core/psa_crypto_slot_management.c and the operations on
// it, statement by statement. Each is proved to be the section of the protocol
// that it implements.
module KeyStore {
  import opened Bytes
  import opened Options
  import opened KeyTypes
  import opened KeyRecord
  import opened KeySlots
  import opened KeySections

  class GlobalData {
    var slices: seq<seq<Slot>>
    var firstFree: seq<nat>
    var storage: map<KeyId, seq<byte>>

    ghost function State(): Store
      reads this
    {
      Store(slices, firstFree, storage)
    }

    /** psa_initialize_key_slots, over whatever storage holds. */
    constructor (cacheCount: nat, storage: map<KeyId, seq<byte>>)
      ensures Shape(State())
      ensures forall s: nat :: s < VOLATILE_SLICES ==> slices[s] == [] && firstFree[s] == 0
      ensures slices[CACHE_SLICE] == seq(cacheCount, _ => ZERO_SLOT) && this.storage == storage
    {
      slices := seq(VOLATILE_SLICES, _ => []) + [seq(cacheCount, _ => ZERO_SLOT)];
      firstFree := seq(VOLATILE_SLICES, _ => 0);
      this.storage := storage;
    }

    /** An assignment through a pointer to a slot. */
    method SetSlot(r: Ref, slot: Slot)
      requires InStore(State(), r)
      modifies this`slices
      ensures State() == Put(old(State()), r, slot)
    {
      slices := slices[r.slice := slices[r.slice][r.index := slot]];
    }

    /** psa_free_key_slot */
    method FreeKeySlot(sliceIndex: nat, r: Ref) returns (status: PsaStatus)
      requires Shape(State()) && InStore(State(), r)
      modifies this
      ensures (status, State()) == KeySections.FreeKeySlot(old(State()), sliceIndex, r)
    {
      if sliceIndex == CACHE_SLICE {
        return Success;
      }
      if sliceIndex >= VOLATILE_SLICES {
        return CorruptionDetected;
      }
      if r.slice != sliceIndex {
        return CorruptionDetected;
      }
      var length := |slices[sliceIndex]|;
      var next := firstFree[sliceIndex];
      if next >= length {
        next := length;
      }
      firstFree := firstFree[sliceIndex := r.index];
      SetSlot(r, slices[r.slice][r.index].(word := next - r.index - 1));
      return Success;
    }

    /** psa_wipe_key_slot */
    method WipeKeySlot(r: Ref) returns (status: PsaStatus)
      requires Shape(State()) && InStore(State(), r)
      modifies this
      ensures (status, State()) == Wipe(old(State()), r)
    {
      status := Success;
      var slot := slices[r.slice][r.index];
      match slot.state {
        case Full => if slot.word != 1 { status := CorruptionDetected; }
        case PendingDeletion => if slot.word != 1 { status := CorruptionDetected; }
        case Filling => if slot.word != 0 { status := CorruptionDetected; }
        case Empty => status := CorruptionDetected;
      }
      var sliceIndex := slot.sliceIndex;
      SetSlot(r, ZERO_SLOT);
      if status == Success {
        status := FreeKeySlot(sliceIndex, r);
      }
    }

    /** psa_allocate_volatile_key_slot */
    method AllocateVolatileKeySlot(allocates: bool) returns (status: PsaStatus, r: Option<Ref>)
      requires Shape(State())
      modifies this
      ensures Outcome(status, r, State()) == AllocateVolatile(old(State()), allocates)
    {
      var s := 0;
      while s < VOLATILE_SLICES && firstFree[s] == FREE_SLOT_INDEX_NONE
        invariant 0 <= s <= VOLATILE_SLICES
        invariant FirstSliceWithRoom(firstFree, s) == FirstSliceWithRoom(firstFree, 0)
      {
        s := s + 1;
      }
      if s == VOLATILE_SLICES {
        return InsufficientMemory, None;
      }
      if slices[s] == [] {
        if !allocates {
          return InsufficientMemory, None;
        }
        slices := slices[s := seq(SliceLength(s), _ => ZERO_SLOT)];
      }
      ghost var st1 := State();
      assert st1 == WithSlice(old(State()), s);
      var i := firstFree[s];
      if i >= |slices[s]| {
        return CorruptionDetected, None;
      }
      var ref := Ref(s, i);
      firstFree := firstFree[s := NextFree(slices[s], i)];
      SetSlot(ref, slices[s][i].(word := 0));
      if slices[s][i].state != Empty {
        return CorruptionDetected, None;
      }
      SetSlot(ref, slices[s][i].(state := Filling));
      SetSlot(ref, slices[s][i].(sliceIndex := s));
      PutTwice(st1, ref, At(st1, ref).(word := 0), At(st1, ref).(word := 0, state := Filling));
      PutTwice(st1, ref, At(st1, ref).(word := 0, state := Filling), At(st1, ref).(word := 0, state := Filling, sliceIndex := s));
      return Success, Some(ref);
    }

    /** psa_reserve_free_key_slot. One pass looks for an empty cache entry and
        remembers the first one that could be evicted instead. */
    method ReserveFreeKeySlot(volatile: bool, allocates: bool) returns (status: PsaStatus, r: Option<Ref>)
      requires Shape(State())
      modifies this
      ensures Outcome(status, r, State()) == Reserve(old(State()), volatile, allocates)
    {
      if volatile {
        status, r := AllocateVolatileKeySlot(allocates);
        return;
      }
      var cache := slices[CACHE_SLICE];
      var selected: Option<nat>, unused: Option<nat> := None, None;
      var i := 0;
      while i < |cache| && selected.None?
        invariant 0 <= i <= |cache|
        invariant selected.None? ==> FirstSlot(cache, IsEmpty, i) == FirstSlot(cache, IsEmpty, 0)
        invariant selected.Some? ==> selected.value < |cache| && FirstSlot(cache, IsEmpty, 0) == selected.value
        invariant unused.None? ==> FirstSlot(cache, IsEvictable, i) == FirstSlot(cache, IsEvictable, 0)
        invariant unused.Some? ==> unused.value < |cache| && FirstSlot(cache, IsEvictable, 0) == unused.value
        decreases |cache| - i, if selected.None? then 1 else 0
      {
        if cache[i].state == Empty {
          selected := Some(i);
        } else {
          if unused.None? && IsEvictable(cache[i]) {
            unused := Some(i);
          }
          i := i + 1;
        }
      }
      if selected.None? && unused.Some? {
        selected := unused;
        var victim := Ref(CACHE_SLICE, unused.value);
        var (_, registered) := RegisterRead(cache[unused.value]);
        SetSlot(victim, registered);
        status := WipeKeySlot(victim);
        if status != Success {
          return status, None;
        }
      }
      if selected.Some? {
        var claimed := Ref(CACHE_SLICE, selected.value);
        var (transition, slot) := Transition(slices[CACHE_SLICE][selected.value], Empty, Filling);
        if transition != Success {
          return transition, None;
        }
        SetSlot(claimed, slot.(sliceIndex := CACHE_SLICE));
        return Success, Some(claimed);
      }
      return InsufficientMemory, None;
    }

    /** psa_get_and_lock_key_slot_in_memory */
    method GetAndLockKeySlotInMemory(id: KeyId) returns (status: PsaStatus, r: Option<Ref>)
      requires Shape(State())
      modifies this
      ensures Outcome(status, r, State()) == LockInMemory(old(State()), id)
    {
      r := None;
      if IsVolatileId(id) {
        var ref := VolatileRef(Store(slices, firstFree, storage), id);
        if ref.Some? && slices[ref.value.slice][ref.value.index].state == Full
           && slices[ref.value.slice][ref.value.index].attr.id == id {
          r := ref;
        }
      } else if IsUserId(id) || IsBuiltinId(id) {
        var cache := slices[CACHE_SLICE];
        ghost var test := (slot: Slot) => IsFullWith(slot, id);
        var i := 0;
        while i < |cache| && !(cache[i].state == Full && cache[i].attr.id == id)
          invariant 0 <= i <= |cache|
          invariant FirstSlot(cache, test, i) == FirstSlot(cache, test, 0)
        {
          i := i + 1;
        }
        if i < |cache| {
          r := Some(Ref(CACHE_SLICE, i));
        }
      } else {
        return InvalidHandle, None;
      }
      if r.None? {
        return DoesNotExist, None;
      }
      var (registered, slot) := RegisterRead(slices[r.value.slice][r.value.index]);
      if registered != Success {
        return registered, None;
      }
      SetSlot(r.value, slot);
      status := Success;
    }

    /** psa_get_and_lock_key_slot */
    method GetAndLockKeySlot(id: KeyId, env: LoadEnv) returns (status: PsaStatus, r: Option<Ref>)
      requires Shape(State())
      modifies this
      ensures Outcome(status, r, State()) == GetAndLock(old(State()), id, env)
    {
      status, r := GetAndLockKeySlotInMemory(id);
      if status != DoesNotExist {
        return;
      }
      status, r := ReserveFreeKeySlot(false, true);
      if status != Success {
        return;
      }
      var ref := r.value;
      ghost var st1 := State();
      SetSlot(ref, slices[ref.slice][ref.index].(attr := NO_ATTRIBUTES.(id := id, lifetime := LIFETIME_PERSISTENT)));
      var (loaded, parsed) := LoadRecord(Store(slices, firstFree, storage), id, env);
      if loaded != Success {
        ghost var dummy := At(State(), ref);
        var _ := WipeKeySlot(ref);
        WipeAfterPut(st1, ref, dummy);
        return if loaded == DoesNotExist then InvalidHandle else loaded, None;
      }
      ghost var a := At(State(), ref);
      SetSlot(ref, slices[ref.slice][ref.index].(attr := ExtendAttributes(parsed.value.attr), material := parsed.value.data));
      PutTwice(st1, ref, a, At(State(), ref));
      ghost var b := At(State(), ref);
      var (_, full) := Transition(slices[ref.slice][ref.index], Filling, Full);
      var (registered, locked) := RegisterRead(full);
      SetSlot(ref, locked);
      PutTwice(st1, ref, b, locked);
      status := registered;
      r := if registered == Success then Some(ref) else None;
    }

    /** psa_unregister_read */
    method UnregisterRead(r: Ref) returns (status: PsaStatus)
      requires Shape(State()) && InStore(State(), r)
      modifies this
      ensures (status, State()) == Unregister(old(State()), r)
    {
      var slot := slices[r.slice][r.index];
      if slot.state != Full && slot.state != PendingDeletion {
        return CorruptionDetected;
      }
      if slot.state == PendingDeletion && slot.word == 1 {
        status := WipeKeySlot(r);
        return;
      }
      if slot.word > 0 {
        SetSlot(r, slot.(word := slot.word - 1));
        return Success;
      }
      return CorruptionDetected;
    }

    /** psa_purge_key */
    method PurgeKey(id: KeyId) returns (status: PsaStatus)
      requires Shape(State())
      modifies this
      ensures (status, State()) == Purge(old(State()), id)
    {
      var r;
      status, r := GetAndLockKeySlotInMemory(id);
      if status != Success {
        return;
      }
      var slot := slices[r.value.slice][r.value.index];
      if !IsVolatileLifetime(slot.attr.lifetime) && slot.word == 1 {
        status := WipeKeySlot(r.value);
      } else {
        status := UnregisterRead(r.value);
      }
    }

    /** The second locked section of psa_destroy_key. */
    method DestroyLockedKey(r: Ref, env: RemoveEnv) returns (status: PsaStatus)
      requires Shape(State()) && InStore(State(), r)
      modifies this
      ensures (status, State()) == DestroyLocked(old(State()), r, env)
    {
      var slot := slices[r.slice][r.index];
      if slot.state == PendingDeletion {
        status := UnregisterRead(r);
        return if status == Success then InvalidHandle else status;
      }
      var (overall, marked) := Transition(slot, Full, PendingDeletion);
      SetSlot(r, marked);
      if overall == Success {
        if IsReadOnlyLifetime(slot.attr.lifetime) {
          overall := NotPermitted;
        } else if !IsVolatileLifetime(slot.attr.lifetime) {
          var (removed, kept) := RemoveRecord(storage, slot.attr.id, env);
          storage := kept;
          overall := removed;
        }
      }
      status := UnregisterRead(r);
      if status == Success {
        status := overall;
      }
    }

    /** psa_finish_key_creation */
    method FinishKeyCreation(r: Ref, env: SaveEnv) returns (status: PsaStatus)
      requires Shape(State()) && InStore(State(), r)
      modifies this
      ensures (status, State()) == FinishCreation(old(State()), r, env)
    {
      status := Success;
      var slot := slices[r.slice][r.index];
      if !IsVolatileLifetime(slot.attr.lifetime) {
        var (saved, kept) := SaveRecord(storage, slot.attr, slot.material, env);
        status, storage := saved, kept;
      }
      if status == Success {
        var (transition, full) := Transition(slot, Filling, Full);
        status := transition;
        SetSlot(r, full);
      }
    }

    /** psa_wipe_all_key_slots, which must not run beside any other thread: every
        slice is freed, whatever the states of its slots. */
    method WipeAllKeySlots()
      requires Shape(State())
      modifies this
      ensures Shape(State()) && storage == old(storage)
      ensures forall s :: 0 <= s < SLICE_COUNT ==> slices[s] == []
      ensures forall s :: 0 <= s < VOLATILE_SLICES ==> firstFree[s] == 0
    {
      var s := 0;
      while s < SLICE_COUNT
        invariant 0 <= s <= SLICE_COUNT && Shape(State()) && storage == old(storage)
        invariant forall z :: 0 <= z < s ==> slices[z] == []
      {
        var i := 0;
        while i < |slices[s]|
          invariant Shape(State()) && 0 <= i <= |slices[s]| && storage == old(storage)
          invariant forall z :: 0 <= z < s ==> slices[z] == []
        {
          if slices[s][i].state != Empty {
            SetSlot(Ref(s, i), slices[s][i].(word := 1, state := PendingDeletion));
            var _ := WipeKeySlot(Ref(s, i));
          }
          i := i + 1;
        }
        slices := slices[s := []];
        s := s + 1;
      }
      firstFree := seq(VOLATILE_SLICES, _ => 0);
    }
  }

  lemma PutTwice(st: Store, r: Ref, a: Slot, b: Slot)
    requires InStore(st, r)
    ensures Put(Put(st, r, a), r, b) == Put(st, r, b)
  {
    assert st.slices[r.slice][r.index := a][r.index := b] == st.slices[r.slice][r.index := b];
    assert Put(Put(st, r, a), r, b).slices == Put(st, r, b).slices;
  }

  /** Wiping depends only on the state, counter and slice of what it wipes. */
  lemma WipeAfterPut(st: Store, r: Ref, slot: Slot)
    requires Shape(st) && InStore(st, r)
    requires slot.state == At(st, r).state && slot.word == At(st, r).word && slot.sliceIndex == At(st, r).sliceIndex
    ensures Wipe(Put(st, r, slot), r) == Wipe(st, r)
  {
    PutTwice(st, r, slot, ZERO_SLOT);
  }
}
