// The mutex-protected sections of the key store, as functions from the store
// before to the store after. Everything between a lock and the matching unlock
// is one function; failures of storage and memory are arguments.
module KeySections {
  import opened Bytes
  import opened Options
  import opened KeyTypes
  import opened KeyRecord
  import opened KeySlots

  /** What a section returns: a status, the slot it hands out, and the store. */
  datatype Outcome = Outcome(status: PsaStatus, ref: Option<Ref>, store: Store)

  /** The two stores have slots in the same places. */
  ghost predicate SameSlots(st: Store, st': Store)
    requires Shape(st)
  {
    && Shape(st')
    && forall q: Ref :: InStore(st', q) <==> InStore(st, q)
  }

  // ------------------------------------------------------------- slot states

  /** psa_key_slot_state_transition */
  function Transition(slot: Slot, expected: SlotState, next: SlotState): (PsaStatus, Slot) {
    if slot.state != expected then (CorruptionDetected, slot) else (Success, slot.(state := next))
  }

  /** psa_register_read */
  function RegisterRead(slot: Slot): (PsaStatus, Slot) {
    if slot.state != Full || slot.word >= SIZE_MAX then (CorruptionDetected, slot)
    else (Success, slot.(word := slot.word + 1))
  }

  // ------------------------------------------------------ allocate and free

  /** psa_free_key_slot, given the slice index read from the slot before it
      was zeroed. A slot of another slice is outside the bounds that the
      pointer is compared with. */
  function FreeKeySlot(st: Store, sliceIndex: nat, r: Ref): (o: (PsaStatus, Store))
    requires Shape(st) && InStore(st, r)
    ensures SameSlots(st, o.1)
  {
    if sliceIndex == CACHE_SLICE then (Success, st)
    else if sliceIndex >= VOLATILE_SLICES then (CorruptionDetected, st)
    else if r.slice != sliceIndex then (CorruptionDetected, st)
    else
      var length := |st.slices[sliceIndex]|;
      var next := if st.firstFree[sliceIndex] >= length then length else st.firstFree[sliceIndex];
      var linked := At(st, r).(word := next - r.index - 1);
      (Success, Put(st, r, linked).(firstFree := st.firstFree[sliceIndex := r.index]))
  }

  /** psa_wipe_key_slot */
  function Wipe(st: Store, r: Ref): (o: (PsaStatus, Store))
    requires Shape(st) && InStore(st, r)
    ensures SameSlots(st, o.1)
  {
    var slot := At(st, r);
    var status :=
      match slot.state
      case Full => if slot.word != 1 then CorruptionDetected else Success
      case PendingDeletion => if slot.word != 1 then CorruptionDetected else Success
      case Filling => if slot.word != 0 then CorruptionDetected else Success
      case Empty => CorruptionDetected;
    var zeroed := Put(st, r, ZERO_SLOT);
    if status == Success then FreeKeySlot(zeroed, slot.sliceIndex, r) else (status, zeroed)
  }

  /** The first slice with a free slot, if any. */
  function FirstSliceWithRoom(firstFree: seq<nat>, from: nat): (s: nat)
    requires from <= |firstFree|
    ensures from <= s <= |firstFree|
    ensures s < |firstFree| ==> firstFree[s] != FREE_SLOT_INDEX_NONE
    ensures forall i :: from <= i < s ==> firstFree[i] == FREE_SLOT_INDEX_NONE
    decreases |firstFree| - from
  {
    if from == |firstFree| || firstFree[from] != FREE_SLOT_INDEX_NONE then from
    else FirstSliceWithRoom(firstFree, from + 1)
  }

  /** The store once the given slice is allocated. */
  function WithSlice(st: Store, s: nat): (st': Store)
    requires Shape(st) && s < VOLATILE_SLICES
    ensures Shape(st') && |st'.slices[s]| == SliceLength(s)
  {
    if st.slices[s] == [] then st.(slices := st.slices[s := seq(SliceLength(s), _ => ZERO_SLOT)]) else st
  }

  /** psa_allocate_volatile_key_slot. The identifier handed out is the one that
      encodes the slot. */
  function AllocateVolatile(st: Store, allocates: bool): (o: Outcome)
    requires Shape(st)
    ensures o.status == Success ==> o.ref.Some?
  {
    var s := FirstSliceWithRoom(st.firstFree, 0);
    if s == VOLATILE_SLICES then Outcome(InsufficientMemory, None, st)
    else if st.slices[s] == [] && !allocates then Outcome(InsufficientMemory, None, st)
    else
      var st1 := WithSlice(st, s);
      var i := st1.firstFree[s];
      if i >= |st1.slices[s]| then Outcome(CorruptionDetected, None, st1)
      else
        var r := Ref(s, i);
        var st2 := st1.(firstFree := st1.firstFree[s := NextFree(st1.slices[s], i)]);
        var (status, slot) := Transition(At(st2, r).(word := 0), Empty, Filling);
        if status != Success then Outcome(status, None, Put(st2, r, slot))
        else Outcome(Success, Some(r), Put(st2, r, slot.(sliceIndex := s)))
  }

  /** The first index from `from` at which a slot satisfies the test. */
  function FirstSlot(slice: seq<Slot>, test: Slot -> bool, from: nat): (i: nat)
    requires from <= |slice|
    ensures from <= i <= |slice|
    ensures i < |slice| ==> test(slice[i])
    ensures forall k :: from <= k < i ==> !test(slice[k])
    decreases |slice| - from
  {
    if from == |slice| || test(slice[from]) then from else FirstSlot(slice, test, from + 1)
  }

  predicate IsEmpty(slot: Slot) {
    slot.state == Empty
  }

  /** A cached key that may be evicted: loaded, unread and not volatile. */
  predicate IsEvictable(slot: Slot) {
    slot.state == Full && slot.word <= 0 && !IsVolatileLifetime(slot.attr.lifetime)
  }

  /** psa_reserve_free_key_slot for the cache slice: an empty entry if there is
      one, otherwise the first that can be evicted. */
  function ReserveCache(st: Store): (o: Outcome)
    requires Shape(st)
    ensures SameSlots(st, o.store)
    ensures o.status == Success ==> o.ref.Some? && InStore(o.store, o.ref.value)
  {
    var cache := st.slices[CACHE_SLICE];
    var empty := FirstSlot(cache, IsEmpty, 0);
    if empty < |cache| then Claim(st, Ref(CACHE_SLICE, empty))
    else
      var victim := FirstSlot(cache, IsEvictable, 0);
      if victim < |cache| then
        var r := Ref(CACHE_SLICE, victim);
        var (status, st1) := Wipe(Put(st, r, RegisterRead(At(st, r)).1), r);
        if status != Success then Outcome(status, None, st1) else Claim(st1, r)
      else Outcome(InsufficientMemory, None, st)
  }

  function Claim(st: Store, r: Ref): (o: Outcome)
    requires Shape(st) && InStore(st, r)
    ensures SameSlots(st, o.store)
    ensures o.status == Success ==> o.ref == Some(r)
  {
    var (status, slot) := Transition(At(st, r), Empty, Filling);
    if status != Success then Outcome(status, None, st)
    else Outcome(Success, Some(r), Put(st, r, slot.(sliceIndex := CACHE_SLICE)))
  }

  // ----------------------------------------------------------------- lookup

  /** get_volatile_key_slot */
  function VolatileRef(st: Store, id: KeyId): (r: Option<Ref>)
    requires Shape(st)
    ensures r.Some? ==> InStore(st, r.value) && r.value == Ref(SliceOfId(id), SlotOfId(id)) && r.value.slice < VOLATILE_SLICES
  {
    var s, i := SliceOfId(id), SlotOfId(id);
    if s >= VOLATILE_SLICES then None
    else if i >= SliceLength(s) then None
    else if st.slices[s] == [] then None
    else Some(Ref(s, i))
  }

  predicate IsFullWith(slot: Slot, id: KeyId) {
    slot.state == Full && slot.attr.id == id
  }

  /** The search of psa_get_and_lock_key_slot_in_memory. */
  function FindInMemory(st: Store, id: KeyId): (r: Option<Ref>)
    requires Shape(st)
    ensures r.Some? ==> InStore(st, r.value) && IsFullWith(At(st, r.value), id)
  {
    if IsVolatileId(id) then
      var r := VolatileRef(st, id);
      if r.Some? && IsFullWith(At(st, r.value), id) then r else None
    else if IsUserId(id) || IsBuiltinId(id) then
      var cache := st.slices[CACHE_SLICE];
      var i := FirstSlot(cache, (slot: Slot) => IsFullWith(slot, id), 0);
      if i < |cache| then Some(Ref(CACHE_SLICE, i)) else None
    else None
  }

  /** psa_get_and_lock_key_slot_in_memory */
  function LockInMemory(st: Store, id: KeyId): (o: Outcome)
    requires Shape(st)
    ensures SameSlots(st, o.store)
    ensures o.status == Success ==> o.ref.Some? && InStore(o.store, o.ref.value)
  {
    if !IsVolatileId(id) && !IsUserId(id) && !IsBuiltinId(id) then Outcome(InvalidHandle, None, st)
    else
      var r := FindInMemory(st, id);
      if r.None? then Outcome(DoesNotExist, None, st)
      else
        var (status, slot) := RegisterRead(At(st, r.value));
        if status != Success then Outcome(status, None, st)
        else Outcome(Success, r, Put(st, r.value, slot))
  }

  /** Whether storage can be read and memory allocated during a load. */
  datatype LoadEnv = LoadEnv(readable: bool, allocates: bool)

  /** psa_load_persistent_key_into_slot: the record of a user key. */
  function LoadRecord(st: Store, id: KeyId, env: LoadEnv): (PsaStatus, Option<Parsed>) {
    if !IsUserId(id) then (DoesNotExist, None)
    else if id !in st.storage then (DoesNotExist, None)
    else if !env.readable then (StorageFailure, None)
    else if !env.allocates then (InsufficientMemory, None)
    else
      var parsed := Parse(st.storage[id], id);
      if parsed.None? then (DataInvalid, None)
      else if parsed.value.data == [] then (StorageFailure, None)
      else (Success, parsed)
  }

  /** The part of psa_get_and_lock_key_slot that follows a failed search: claim
      a cache entry and fill it from storage. It is reached for volatile and
      built-in identifiers too, and then only finds that there is no record. */
  function LoadAndLock(st: Store, id: KeyId, env: LoadEnv): (o: Outcome)
    requires Shape(st)
    ensures SameSlots(st, o.store)
    ensures o.status == Success ==> o.ref.Some? && InStore(o.store, o.ref.value)
  {
    var reserved := ReserveCache(st);
    if reserved.status != Success then reserved
    else
      var r, st1 := reserved.ref.value, reserved.store;
      var (status, parsed) := LoadRecord(st1, id, env);
      if status != Success then
        Outcome(if status == DoesNotExist then InvalidHandle else status, None, Wipe(st1, r).1)
      else
        var filled := At(st1, r).(attr := ExtendAttributes(parsed.value.attr), material := parsed.value.data);
        var (status2, locked) := RegisterRead(Transition(filled, Filling, Full).1);
        Outcome(status2, if status2 == Success then Some(r) else None, Put(st1, r, locked))
  }

  /** psa_get_and_lock_key_slot */
  function GetAndLock(st: Store, id: KeyId, env: LoadEnv): (o: Outcome)
    requires Shape(st)
    ensures SameSlots(st, o.store)
    ensures o.status == Success ==> o.ref.Some? && InStore(o.store, o.ref.value)
  {
    var found := LockInMemory(st, id);
    if found.status != DoesNotExist then found else LoadAndLock(found.store, id, env)
  }

  // -------------------------------------------------- release, purge, destroy

  /** psa_unregister_read */
  function Unregister(st: Store, r: Ref): (PsaStatus, Store)
    requires Shape(st) && InStore(st, r)
  {
    var slot := At(st, r);
    if slot.state != Full && slot.state != PendingDeletion then (CorruptionDetected, st)
    else if slot.state == PendingDeletion && slot.word == 1 then Wipe(st, r)
    else if slot.word > 0 then (Success, Put(st, r, slot.(word := slot.word - 1)))
    else (CorruptionDetected, st)
  }

  /** psa_purge_key */
  function Purge(st: Store, id: KeyId): (PsaStatus, Store)
    requires Shape(st)
  {
    var found := LockInMemory(st, id);
    if found.status != Success then (found.status, found.store)
    else
      var r, slot := found.ref.value, At(found.store, found.ref.value);
      if !IsVolatileLifetime(slot.attr.lifetime) && slot.word == 1 then Wipe(found.store, r)
      else Unregister(found.store, r)
  }

  /** Whether the record can be removed, and its absence confirmed afterwards. */
  datatype RemoveEnv = RemoveEnv(removes: bool, confirms: bool)

  /** psa_destroy_persistent_key */
  function RemoveRecord(storage: map<KeyId, seq<byte>>, id: KeyId, env: RemoveEnv): (PsaStatus, map<KeyId, seq<byte>>) {
    if id !in storage then (Success, storage)
    else if !env.removes then (DataInvalid, storage)
    else (if env.confirms then Success else DataInvalid, storage - {id})
  }

  /** The second section of psa_destroy_key, on a slot that the first section
      (GetAndLock) registered to read. */
  function DestroyLocked(st: Store, r: Ref, env: RemoveEnv): (PsaStatus, Store)
    requires Shape(st) && InStore(st, r)
  {
    var slot := At(st, r);
    if slot.state == PendingDeletion then
      var (status, st1) := Unregister(st, r);
      (if status == Success then InvalidHandle else status, st1)
    else
      var (status, marked) := Transition(slot, Full, PendingDeletion);
      var st1 := Put(st, r, marked);
      var (overall, st2) :=
        if status != Success then (status, st1)
        else if IsReadOnlyLifetime(slot.attr.lifetime) then (NotPermitted, st1)
        else if IsVolatileLifetime(slot.attr.lifetime) then (Success, st1)
        else
          var (removed, storage) := RemoveRecord(st1.storage, slot.attr.id, env);
          (removed, st1.(storage := storage));
      var (unregistered, st3) := Unregister(st2, r);
      (if unregistered != Success then unregistered else overall, st3)
  }

  // --------------------------------------------------------------- creation

  /** psa_reserve_free_key_slot, the mutex-protected part of
      psa_start_key_creation. */
  function Reserve(st: Store, volatile: bool, allocates: bool): (o: Outcome)
    requires Shape(st)
  {
    if volatile then AllocateVolatile(st, allocates) else ReserveCache(st)
  }

  /** What may go wrong while a record is saved. */
  datatype SaveEnv = SaveEnv(allocates: bool, infoReadable: bool, sets: bool, confirms: bool, removes: bool)

  /** psa_save_persistent_key and psa_crypto_storage_store */
  function SaveRecord(storage: map<KeyId, seq<byte>>, a: Attributes, data: seq<byte>, env: SaveEnv):
      (PsaStatus, map<KeyId, seq<byte>>)
  {
    if data == [] then (InvalidArgument, storage)
    else if |data| > MAX_STORAGE_SIZE then (InsufficientStorage, storage)
    else if !env.allocates then (InsufficientMemory, storage)
    else if a.id in storage || !env.infoReadable then (AlreadyExists, storage)
    else if !env.sets then (DataInvalid, storage)
    else
      var written := storage[a.id := Format(data, a)];
      if env.confirms then (Success, written)
      else (StorageFailure, if env.removes then storage else written)
  }

  /** psa_finish_key_creation */
  function FinishCreation(st: Store, r: Ref, env: SaveEnv): (PsaStatus, Store)
    requires Shape(st) && InStore(st, r)
  {
    var slot := At(st, r);
    var (saved, storage) :=
      if IsVolatileLifetime(slot.attr.lifetime) then (Success, st.storage)
      else SaveRecord(st.storage, slot.attr, slot.material, env);
    var st1 := st.(storage := storage);
    if saved != Success then (saved, st1)
    else
      var (status, full) := Transition(slot, Filling, Full);
      (status, Put(st1, r, full))
  }
}
