// The key store under any interleaving: threads that look up, release, create,
// destroy and purge keys, each mutex-protected section one atomic step. The
// invariant, and that every step of every thread keeps it.
module KeyProtocol {
  import opened Bytes
  import opened Options
  import opened KeyTypes
  import opened KeyRecord
  import opened KeySlots
  import opened KeySections

  type Tid = nat

  /** The thread that is creating a key in a slot, the attributes it asked for
      (with the identifier that will be the key's), and whether it has written
      them to the slot yet. */
  datatype Filler = Filler(tid: Tid, attr: Attributes, written: bool)

  /** The store, which threads are registered to read which slot (a thread may
      be registered several times), and who is filling which slot. */
  datatype Sys = Sys(store: Store, holds: map<Ref, multiset<Tid>>, fills: map<Ref, Filler>)

  function Holders(sys: Sys, r: Ref): multiset<Tid> {
    if r in sys.holds then sys.holds[r] else multiset{}
  }

  // -------------------------------------------------------------- invariant

  /** A key that may be in persistent storage. */
  predicate IsStorable(a: Attributes) {
    IsUserId(a.id) && !IsVolatileLifetime(a.lifetime) && !IsReadOnlyLifetime(a.lifetime)
  }

  /** Storage holds only records that this library wrote. */
  ghost predicate StorageOk(storage: map<KeyId, seq<byte>>) {
    forall id :: id in storage ==>
      var p := Parse(storage[id], id);
      p.Some? && p.value.data != [] && IsStorable(p.value.attr)
  }

  /** A loaded key agrees with its record, up to implied usage flags. */
  ghost predicate Agrees(slot: Slot, storage: map<KeyId, seq<byte>>) {
    && IsStorable(slot.attr)
    && slot.attr.id in storage
    && var p := Parse(storage[slot.attr.id], slot.attr.id);
    && p.Some?
    && slot.material == p.value.data
    && (slot.attr == p.value.attr || slot.attr == ExtendAttributes(p.value.attr))
  }

  /** The identifier and lifetime that belong in a slot. */
  predicate Belongs(r: Ref, a: Attributes) {
    if r.slice < VOLATILE_SLICES
    then r.index < SLOT_LIMIT && a.id == VolatileId(r.slice, r.index) && IsVolatileLifetime(a.lifetime)
    else IsStorable(a)
  }

  ghost predicate SlotOk(sys: Sys, r: Ref)
    requires InStore(sys.store, r)
  {
    var slot, holders := At(sys.store, r), Holders(sys, r);
    match slot.state
    case Empty =>
      holders == multiset{} && r !in sys.fills && (r.slice >= VOLATILE_SLICES ==> slot.word == 0)
    case Filling =>
      && holders == multiset{} && slot.word == 0 && slot.sliceIndex == r.slice
      && r in sys.fills && Belongs(r, sys.fills[r].attr)
      && (sys.fills[r].written ==>
            && Representable(slot.attr)
            && slot.attr.id == sys.fills[r].attr.id
            && slot.attr.lifetime == sys.fills[r].attr.lifetime)
    case Full =>
      && r !in sys.fills && slot.word == |holders| && slot.sliceIndex == r.slice
      && Belongs(r, slot.attr)
      && (r.slice >= VOLATILE_SLICES ==> Agrees(slot, sys.store.storage))
    case PendingDeletion =>
      && r !in sys.fills && slot.word == |holders| && 0 < |holders| && slot.sliceIndex == r.slice
  }

  /** No two loaded keys of the cache have the same identifier. */
  ghost predicate UniqueInCache(st: Store)
    requires Shape(st)
  {
    forall q: Ref, r: Ref :: InStore(st, q) && InStore(st, r) && q != r
      && q.slice == r.slice == CACHE_SLICE && At(st, q).state == At(st, r).state == Full
      ==> At(st, q).attr.id != At(st, r).attr.id
  }

  /** Threads hold and fill only slots that exist. */
  ghost predicate RefsInStore(sys: Sys) {
    && (forall r: Ref :: r in sys.holds ==> InStore(sys.store, r))
    && (forall r: Ref :: r in sys.fills ==> InStore(sys.store, r))
  }

  ghost predicate Inv(sys: Sys) {
    && Shape(sys.store)
    && FreeListsOk(sys.store)
    && StorageOk(sys.store.storage)
    && UniqueInCache(sys.store)
    && (forall r: Ref :: InStore(sys.store, r) ==> SlotOk(sys, r))
    && RefsInStore(sys)
  }

  /** The store at initialization: no volatile slice, an empty cache. */
  ghost predicate Initial(sys: Sys) {
    && Shape(sys.store)
    && (forall s: nat :: s < VOLATILE_SLICES ==> sys.store.slices[s] == [] && sys.store.firstFree[s] == 0)
    && (forall i: nat :: i < |sys.store.slices[CACHE_SLICE]| ==> sys.store.slices[CACHE_SLICE][i] == ZERO_SLOT)
    && StorageOk(sys.store.storage)
    && sys.holds == map[] && sys.fills == map[]
  }

  lemma InitialInv(sys: Sys)
    requires Initial(sys)
    ensures Inv(sys)
  {
    forall r: Ref | InStore(sys.store, r)
      ensures SlotOk(sys, r)
    {
      assert r.slice == CACHE_SLICE;
      assert At(sys.store, r) == ZERO_SLOT;
    }
    forall q: Ref | InStore(sys.store, q)
      ensures At(sys.store, q).state == Empty
    {
      assert q.slice == CACHE_SLICE;
    }
  }

  // ------------------------------------------------------------------ steps

  /** A mutex-protected section (or, for Fill, an unprotected write by the
      owner of a slot being filled) that a thread may perform. */
  datatype Action =
    | Lookup(id: KeyId, loadEnv: LoadEnv)
    | Release(ref: Ref)
    | Destroy(ref: Ref, removeEnv: RemoveEnv)
    | PurgeKey(id: KeyId)
    | Start(attr: Attributes, allocates: bool)
    | Fill(ref: Ref, attr: Attributes, material: seq<byte>)
    | Finish(ref: Ref, saveEnv: SaveEnv)
    | Abort(ref: Ref)

  /** psa_validate_key_attributes, as far as identifiers and lifetimes go. */
  predicate ValidRequest(a: Attributes) {
    && Representable(a)
    && if IsVolatileLifetime(a.lifetime) then a.id == 0 else IsStorable(a)
  }

  /** A thread releases or destroys only what it registered to read, and writes,
      finishes or aborts only what it is creating. */
  predicate Enabled(sys: Sys, t: Tid, a: Action) {
    match a
    case Lookup(_, _) => true
    case PurgeKey(_) => true
    case Release(r) => t in Holders(sys, r)
    case Destroy(r, _) => t in Holders(sys, r)
    case Start(attr, _) => ValidRequest(attr)
    case Fill(r, attr, _) =>
      && r in sys.fills && sys.fills[r].tid == t
      && Representable(attr) && attr.id == sys.fills[r].attr.id && attr.lifetime == sys.fills[r].attr.lifetime
    case Finish(r, _) => r in sys.fills && sys.fills[r].tid == t && sys.fills[r].written
    case Abort(r) => r in sys.fills && sys.fills[r].tid == t
  }

  function AddHold(sys: Sys, r: Ref, t: Tid): Sys {
    sys.(holds := sys.holds[r := Holders(sys, r) + multiset{t}])
  }

  function DropHold(sys: Sys, r: Ref, t: Tid): Sys {
    sys.(holds := sys.holds[r := Holders(sys, r) - multiset{t}])
  }

  /** The attributes that a key created in a slot will have: a volatile key gets
      the identifier of its slot. */
  function CreatedAttributes(r: Ref, a: Attributes): Attributes {
    if IsVolatileLifetime(a.lifetime) && r.slice < VOLATILE_SLICES && r.index < SLOT_LIMIT
    then a.(id := VolatileId(r.slice, r.index)) else a
  }

  /** The status a section returns and the system after it. */
  datatype Result = Result(status: PsaStatus, sys: Sys)

  function LookupStep(sys: Sys, t: Tid, id: KeyId, env: LoadEnv): Result
    requires Shape(sys.store)
  {
    var o := GetAndLock(sys.store, id, env);
    var sys1 := sys.(store := o.store);
    Result(o.status, if o.status == Success then AddHold(sys1, o.ref.value, t) else sys1)
  }

  function ReleaseStep(sys: Sys, t: Tid, r: Ref): Result
    requires Shape(sys.store) && InStore(sys.store, r)
  {
    var (status, st) := Unregister(sys.store, r);
    Result(status, DropHold(sys.(store := st), r, t))
  }

  function DestroyStep(sys: Sys, t: Tid, r: Ref, env: RemoveEnv): Result
    requires Shape(sys.store) && InStore(sys.store, r)
  {
    var (status, st) := DestroyLocked(sys.store, r, env);
    Result(status, DropHold(sys.(store := st), r, t))
  }

  function PurgeStep(sys: Sys, id: KeyId): Result
    requires Shape(sys.store)
  {
    var (status, st) := Purge(sys.store, id);
    Result(status, sys.(store := st))
  }

  function StartStep(sys: Sys, t: Tid, attr: Attributes, allocates: bool): Result
    requires Shape(sys.store)
  {
    var o := Reserve(sys.store, IsVolatileLifetime(attr.lifetime), allocates);
    var sys1 := sys.(store := o.store);
    Result(o.status,
           if o.status == Success
           then sys1.(fills := sys1.fills[o.ref.value := Filler(t, CreatedAttributes(o.ref.value, attr), false)])
           else sys1)
  }

  function FillStep(sys: Sys, r: Ref, attr: Attributes, material: seq<byte>): Result
    requires Shape(sys.store) && InStore(sys.store, r) && r in sys.fills
  {
    var slot := At(sys.store, r).(attr := attr, material := material);
    Result(Success, sys.(store := Put(sys.store, r, slot), fills := sys.fills[r := sys.fills[r].(written := true)]))
  }

  function FinishStep(sys: Sys, r: Ref, env: SaveEnv): Result
    requires Shape(sys.store) && InStore(sys.store, r)
  {
    var (status, st) := FinishCreation(sys.store, r, env);
    Result(status, sys.(store := st, fills := if status == Success then sys.fills - {r} else sys.fills))
  }

  function AbortStep(sys: Sys, r: Ref): Result
    requires Shape(sys.store) && InStore(sys.store, r)
  {
    var (status, st) := Wipe(sys.store, r);
    Result(status, sys.(store := st, fills := sys.fills - {r}))
  }

  /** The effect of a step. */
  function Perform(sys: Sys, t: Tid, a: Action): Result
    requires Shape(sys.store) && RefsInStore(sys) && Enabled(sys, t, a)
  {
    match a
    case Lookup(id, env) => LookupStep(sys, t, id, env)
    case Release(r) => ReleaseStep(sys, t, r)
    case Destroy(r, env) => DestroyStep(sys, t, r, env)
    case PurgeKey(id) => PurgeStep(sys, id)
    case Start(attr, allocates) => StartStep(sys, t, attr, allocates)
    case Fill(r, attr, material) => FillStep(sys, r, attr, material)
    case Finish(r, env) => FinishStep(sys, r, env)
    case Abort(r) => AbortStep(sys, r)
  }

  // ------------------------------------------- changing one slot at a time

  /** Everything but slot r, its holders and its filler, and the storage, is
      the same. */
  ghost predicate SameElsewhere(sys: Sys, sys': Sys, r: Ref)
    requires Shape(sys.store)
  {
    && SameSlots(sys.store, sys'.store)
    && InStore(sys.store, r)
    && (forall q: Ref :: InStore(sys.store, q) && q != r ==>
          && At(sys'.store, q) == At(sys.store, q)
          && Holders(sys', q) == Holders(sys, q)
          && (q in sys'.fills <==> q in sys.fills)
          && (q in sys.fills ==> sys'.fills[q] == sys.fills[q]))
    && (forall q: Ref :: q in sys'.holds ==> InStore(sys'.store, q))
    && (forall q: Ref :: q in sys'.fills ==> InStore(sys'.store, q))
  }

  /** Records of keys loaded in slots other than r are as before. */
  ghost predicate StorageKept(sys: Sys, sys': Sys, r: Ref)
    requires Shape(sys.store)
  {
    forall q: Ref :: InStore(sys.store, q) && q != r && q.slice == CACHE_SLICE && At(sys.store, q).state == Full ==>
      var id := At(sys.store, q).attr.id;
      id in sys.store.storage && id in sys'.store.storage && sys'.store.storage[id] == sys.store.storage[id]
  }

  ghost predicate UniqueAt(st: Store, r: Ref)
    requires Shape(st) && InStore(st, r)
  {
    r.slice == CACHE_SLICE && At(st, r).state == Full ==>
      forall q: Ref :: InStore(st, q) && q != r && q.slice == CACHE_SLICE && At(st, q).state == Full ==>
        At(st, q).attr.id != At(st, r).attr.id
  }

  lemma OneSlotKeepsInv(sys: Sys, sys': Sys, r: Ref)
    requires Inv(sys) && SameElsewhere(sys, sys', r) && StorageKept(sys, sys', r)
    requires FreeListsOk(sys'.store) && StorageOk(sys'.store.storage)
    requires SlotOk(sys', r) && UniqueAt(sys'.store, r)
    ensures Inv(sys')
  {
    forall q: Ref | InStore(sys'.store, q)
      ensures SlotOk(sys', q)
    {
      if q != r {
        assert InStore(sys.store, q) && SlotOk(sys, q);
        assert q.slice <= CACHE_SLICE;
      }
    }
    forall p: Ref, q: Ref | InStore(sys'.store, p) && InStore(sys'.store, q) && p != q
      && p.slice == q.slice == CACHE_SLICE && At(sys'.store, p).state == At(sys'.store, q).state == Full
      ensures At(sys'.store, p).attr.id != At(sys'.store, q).attr.id
    {
      if p != r && q != r {
        assert InStore(sys.store, p) && InStore(sys.store, q);
      }
    }
  }

  // ----------------------------------------------- what the sections change

  /** Only slot r differs, and storage is the same. */
  ghost predicate OnlySlot(st: Store, st': Store, r: Ref)
    requires Shape(st)
  {
    && SameSlots(st, st') && InStore(st, r)
    && st'.storage == st.storage
    && (forall q: Ref :: InStore(st, q) && q != r ==> At(st', q) == At(st, q))
  }

  lemma PutKeepsFreeLists(st: Store, r: Ref, slot: Slot)
    requires Shape(st) && FreeListsOk(st) && InStore(st, r)
    requires r.slice < VOLATILE_SLICES ==> At(st, r).state != Empty && slot.state != Empty
    ensures FreeListsOk(Put(st, r, slot))
  {
    forall s: nat | s < VOLATILE_SLICES
      ensures FreeListOk(Put(st, r, slot).slices[s], st.firstFree[s])
    {
      assert FreeListOk(st.slices[s], st.firstFree[s]);
      if s == r.slice {
        var list: seq<nat> :| IsFreeList(st.slices[s], st.firstFree[s], list);
        KeepFreeList(st.slices[s], st.firstFree[s], list, r.index, slot);
      }
    }
  }

  /** Wiping an occupied slot, as its last reader or its filler, succeeds,
      empties the slot and puts it on the free list of its slice. */
  lemma WipeEffect(st: Store, r: Ref)
    requires Shape(st) && FreeListsOk(st) && InStore(st, r)
    requires var slot := At(st, r);
             && slot.state != Empty && slot.sliceIndex == r.slice
             && slot.word == if slot.state == Filling then 0 else 1
    ensures Wipe(st, r).0 == Success
    ensures var st' := Wipe(st, r).1;
            && OnlySlot(st, st', r) && FreeListsOk(st')
            && At(st', r).state == Empty
            && (r.slice == CACHE_SLICE ==> At(st', r) == ZERO_SLOT)
  {
    if r.slice < VOLATILE_SLICES {
      var st' := Wipe(st, r).1;
      var s := r.slice;
      SliceLengthBound(s);
      var slice, head := st.slices[s], st.firstFree[s];
      assert FreeListOk(slice, head);
      var list: seq<nat> :| IsFreeList(slice, head, list);
      PushFreeList(slice, head, list, r.index, At(st', r));
      assert st'.slices[s] == slice[r.index := At(st', r)];
      assert IsFreeList(st'.slices[s], st'.firstFree[s], [r.index] + list);
      forall z: nat | z < VOLATILE_SLICES
        ensures FreeListOk(st'.slices[z], st'.firstFree[z])
      {
        assert FreeListOk(st.slices[z], st.firstFree[z]);
      }
    }
  }

  /** A store in which slot r has one reader less, or is empty if the last
      reader left a slot that awaits deletion. */
  ghost predicate OneReaderLess(st: Store, st': Store, r: Ref)
    requires Shape(st)
  {
    && SameSlots(st, st') && InStore(st, r) && FreeListsOk(st')
    && (forall q: Ref :: InStore(st, q) && q != r ==> At(st', q) == At(st, q))
    && var (slot, slot') := (At(st, r), At(st', r));
    && (slot'.state == Empty || slot'.state == Full || slot'.state == PendingDeletion)
    && (slot'.state == Empty ==> slot.word == 1 && (r.slice == CACHE_SLICE ==> slot' == ZERO_SLOT))
    && (slot'.state == Full ==> slot.state == Full)
    && (slot'.state == PendingDeletion ==> slot.word > 1)
    && (slot'.state != Empty ==> slot' == slot.(state := slot'.state, word := slot.word - 1))
  }

  /** Wiping zeroes a slot whatever its state, and reports one that has readers
      besides the caller, or none that is the caller, or is empty already. */
  lemma WipeReports(st: Store, r: Ref)
    requires Shape(st) && InStore(st, r) && At(st, r).sliceIndex == r.slice <= CACHE_SLICE
    ensures var (slot, status, st') := (At(st, r), Wipe(st, r).0, Wipe(st, r).1);
            && (status == Success <==>
                  ((slot.state == Full || slot.state == PendingDeletion) && slot.word == 1)
                  || (slot.state == Filling && slot.word == 0))
            && (status == Success || status == CorruptionDetected)
            && At(st', r).(word := 0) == ZERO_SLOT
  {
  }

  /** Unregistering from a slot that has a reader always succeeds. */
  lemma UnregisterEffect(st: Store, r: Ref)
    requires Shape(st) && FreeListsOk(st) && InStore(st, r)
    requires var slot := At(st, r);
             (slot.state == Full || slot.state == PendingDeletion) && slot.word > 0 && slot.sliceIndex == r.slice
    ensures Unregister(st, r).0 == Success
    ensures var (slot, st') := (At(st, r), Unregister(st, r).1);
            && OnlySlot(st, st', r) && OneReaderLess(st, st', r)
            && At(st', r).state == if slot.state == PendingDeletion && slot.word == 1 then Empty else slot.state
  {
    var slot := At(st, r);
    if slot.state == PendingDeletion && slot.word == 1 {
      WipeEffect(st, r);
    } else {
      PutKeepsFreeLists(st, r, slot.(word := slot.word - 1));
    }
  }

  /** A slot with a holder is loaded or awaits deletion. */
  lemma HeldSlot(sys: Sys, t: Tid, r: Ref)
    requires Inv(sys) && t in Holders(sys, r)
    ensures InStore(sys.store, r)
    ensures var slot := At(sys.store, r);
            && (slot.state == Full || slot.state == PendingDeletion)
            && slot.word == |Holders(sys, r)| > 0 && slot.sliceIndex == r.slice
    ensures |Holders(sys, r) - multiset{t}| == |Holders(sys, r)| - 1
  {
    assert SlotOk(sys, r);
  }

  lemma DropKeepsInv(sys: Sys, t: Tid, r: Ref, st': Store)
    requires Inv(sys) && t in Holders(sys, r) && OneReaderLess(sys.store, st', r)
    requires StorageOk(st'.storage) && StorageKept(sys, sys.(store := st'), r)
    requires At(st', r).state == Full ==> st'.storage == sys.store.storage
    ensures var sys' := DropHold(sys.(store := st'), r, t);
            Inv(sys') && SameElsewhere(sys, sys', r)
  {
    HeldSlot(sys, t, r);
    assert SlotOk(sys, r);
    var sys' := DropHold(sys.(store := st'), r, t);
    assert Holders(sys', r) == Holders(sys, r) - multiset{t};
    assert SlotOk(sys', r);
    OneSlotKeepsInv(sys, sys', r);
  }

  lemma ReleaseKeepsInv(sys: Sys, t: Tid, r: Ref)
    requires Inv(sys) && t in Holders(sys, r)
    ensures InStore(sys.store, r)
    ensures var o := ReleaseStep(sys, t, r);
            && o.status == Success && Inv(o.sys) && SameElsewhere(sys, o.sys, r)
            && o.sys.store.storage == sys.store.storage
  {
    HeldSlot(sys, t, r);
    UnregisterEffect(sys.store, r);
    StorageStays(sys, sys.(store := Unregister(sys.store, r).1), r);
    DropKeepsInv(sys, t, r, Unregister(sys.store, r).1);
  }

  lemma StorageStays(sys: Sys, sys': Sys, r: Ref)
    requires Inv(sys) && sys'.store.storage == sys.store.storage
    ensures StorageKept(sys, sys', r)
  {
    forall q: Ref | InStore(sys.store, q) && q != r && q.slice == CACHE_SLICE && At(sys.store, q).state == Full
      ensures At(sys.store, q).attr.id in sys.store.storage
    {
      assert SlotOk(sys, q);
    }
  }

  lemma MarkKeepsFreeLists(st: Store, r: Ref, slot: Slot, storage: map<KeyId, seq<byte>>)
    requires Shape(st) && FreeListsOk(st) && InStore(st, r)
    requires At(st, r).state != Empty && slot.state != Empty
    ensures FreeListsOk(Put(st, r, slot).(storage := storage))
  {
    PutKeepsFreeLists(st, r, slot);
    var st1, st2 := Put(st, r, slot), Put(st, r, slot).(storage := storage);
    forall s: nat | s < VOLATILE_SLICES
      ensures FreeListOk(st2.slices[s], st2.firstFree[s])
    {
      assert FreeListOk(st1.slices[s], st1.firstFree[s]);
    }
  }

  /** The storage after DestroyLocked. */
  function StorageAfterDestroy(st: Store, r: Ref, env: RemoveEnv): map<KeyId, seq<byte>>
    requires InStore(st, r)
  {
    var slot := At(st, r);
    if slot.state == Full && !IsVolatileLifetime(slot.attr.lifetime) && !IsReadOnlyLifetime(slot.attr.lifetime)
    then RemoveRecord(st.storage, slot.attr.id, env).1
    else st.storage
  }

  lemma DestroyEffect(st: Store, r: Ref, env: RemoveEnv)
    requires Shape(st) && FreeListsOk(st) && InStore(st, r)
    requires var slot := At(st, r);
             (slot.state == Full || slot.state == PendingDeletion) && slot.word > 0 && slot.sliceIndex == r.slice
    ensures var (slot, status, st') := (At(st, r), DestroyLocked(st, r, env).0, DestroyLocked(st, r, env).1);
            && OneReaderLess(st, st', r)
            && At(st', r).state == (if slot.word == 1 then Empty else PendingDeletion)
            && st'.storage == StorageAfterDestroy(st, r, env)
            && (slot.state == PendingDeletion ==> status == InvalidHandle)
            && (slot.state == Full ==>
                  status == if IsReadOnlyLifetime(slot.attr.lifetime) then NotPermitted
                            else if IsVolatileLifetime(slot.attr.lifetime) then Success
                            else RemoveRecord(st.storage, slot.attr.id, env).0)
  {
    var slot := At(st, r);
    if slot.state == PendingDeletion {
      UnregisterEffect(st, r);
    } else {
      var marked := slot.(state := PendingDeletion);
      MarkKeepsFreeLists(st, r, marked, StorageAfterDestroy(st, r, env));
      UnregisterEffect(Put(st, r, marked).(storage := StorageAfterDestroy(st, r, env)), r);
      assert Put(st, r, marked).(storage := st.storage) == Put(st, r, marked);
    }
  }

  /** Removing a record leaves those of the keys loaded in other slots. */
  lemma DestroyStorage(sys: Sys, r: Ref, env: RemoveEnv, st': Store)
    requires Inv(sys) && InStore(sys.store, r) && st'.storage == StorageAfterDestroy(sys.store, r, env)
    ensures StorageOk(st'.storage) && StorageKept(sys, sys.(store := st'), r)
  {
    assert SlotOk(sys, r);
    forall q: Ref | InStore(sys.store, q) && q != r && q.slice == CACHE_SLICE && At(sys.store, q).state == Full
      ensures var id := At(sys.store, q).attr.id;
              id in sys.store.storage && id in st'.storage && st'.storage[id] == sys.store.storage[id]
    {
      assert SlotOk(sys, q);
    }
  }

  lemma DestroyKeepsInv(sys: Sys, t: Tid, r: Ref, env: RemoveEnv)
    requires Inv(sys) && t in Holders(sys, r)
    ensures InStore(sys.store, r)
    ensures var o := DestroyStep(sys, t, r, env);
            && o.status in {Success, InvalidHandle, DataInvalid}
            && Inv(o.sys) && SameElsewhere(sys, o.sys, r)
            && o.sys.store.storage == StorageAfterDestroy(sys.store, r, env)
  {
    HeldSlot(sys, t, r);
    assert At(sys.store, r).state == Full ==> Belongs(r, At(sys.store, r).attr) by { assert SlotOk(sys, r); }
    DestroyEffect(sys.store, r, env);
    var st' := DestroyLocked(sys.store, r, env).1;
    DestroyStorage(sys, r, env, st');
    DropKeepsInv(sys, t, r, st');
  }

  // --------------------------------------------------------------- creation

  lemma FillingSlot(sys: Sys, r: Ref)
    requires Inv(sys) && r in sys.fills
    ensures InStore(sys.store, r)
    ensures At(sys.store, r).state == Filling && At(sys.store, r).sliceIndex == r.slice
    ensures At(sys.store, r).word == 0 && Holders(sys, r) == multiset{}
  {
    assert SlotOk(sys, r);
  }

  lemma AbortKeepsInv(sys: Sys, r: Ref)
    requires Inv(sys) && r in sys.fills
    ensures InStore(sys.store, r)
    ensures var o := AbortStep(sys, r);
            && o.status == Success && Inv(o.sys) && SameElsewhere(sys, o.sys, r)
            && o.sys.store.storage == sys.store.storage && At(o.sys.store, r).state == Empty
  {
    FillingSlot(sys, r);
    WipeEffect(sys.store, r);
    var sys' := AbortStep(sys, r).sys;
    StorageStays(sys, sys', r);
    OneSlotKeepsInv(sys, sys', r);
  }

  lemma FillKeepsInv(sys: Sys, r: Ref, attr: Attributes, material: seq<byte>)
    requires Inv(sys) && r in sys.fills
    requires Representable(attr) && attr.id == sys.fills[r].attr.id && attr.lifetime == sys.fills[r].attr.lifetime
    ensures InStore(sys.store, r)
    ensures var o := FillStep(sys, r, attr, material);
            && o.status == Success && Inv(o.sys) && SameElsewhere(sys, o.sys, r)
            && o.sys.store.storage == sys.store.storage && At(o.sys.store, r).state == Filling
  {
    FillingSlot(sys, r);
    assert SlotOk(sys, r);
    var sys' := FillStep(sys, r, attr, material).sys;
    PutKeepsFreeLists(sys.store, r, At(sys'.store, r));
    StorageStays(sys, sys', r);
    OneSlotKeepsInv(sys, sys', r);
  }

  /** The storage after FinishCreation. */
  function StorageAfterFinish(st: Store, r: Ref, env: SaveEnv): map<KeyId, seq<byte>>
    requires InStore(st, r)
  {
    var slot := At(st, r);
    if IsVolatileLifetime(slot.attr.lifetime) then st.storage
    else SaveRecord(st.storage, slot.attr, slot.material, env).1
  }

  /** Saving a record adds at most the record of a key that had none. */
  lemma SaveEffect(storage: map<KeyId, seq<byte>>, a: Attributes, data: seq<byte>, env: SaveEnv)
    requires StorageOk(storage) && IsStorable(a) && Representable(a)
    ensures var (status, storage') := SaveRecord(storage, a, data, env);
            && StorageOk(storage')
            && status != CorruptionDetected
            && (storage' == storage || (a.id !in storage && storage' == storage[a.id := Format(data, a)]))
            && (status == Success ==>
                  a.id !in storage && a.id in storage' && Parse(storage'[a.id], a.id) == Some(Parsed(a, data)))
  {
    if data != [] && |data| <= MAX_STORAGE_SIZE {
      ParseFormat(data, a, a.id, []);
      assert Format(data, a) + [] == Format(data, a);
      assert a.(id := a.id) == a;
    }
  }

  lemma PutSame(st: Store, r: Ref)
    requires InStore(st, r)
    ensures Put(st, r, At(st, r)) == st
  {
    assert st.slices[r.slice][r.index := At(st, r)] == st.slices[r.slice];
    assert Put(st, r, At(st, r)).slices == st.slices;
  }

  lemma FinishEffect(st: Store, r: Ref, env: SaveEnv)
    requires Shape(st) && FreeListsOk(st) && InStore(st, r) && At(st, r).state == Filling
    ensures var (slot, status, st') := (At(st, r), FinishCreation(st, r, env).0, FinishCreation(st, r, env).1);
            && SameSlots(st, st') && FreeListsOk(st')
            && (forall q: Ref :: InStore(st, q) && q != r ==> At(st', q) == At(st, q))
            && At(st', r) == (if status == Success then slot.(state := Full) else slot)
            && st'.storage == StorageAfterFinish(st, r, env)
            && status == if IsVolatileLifetime(slot.attr.lifetime) then Success
                         else SaveRecord(st.storage, slot.attr, slot.material, env).0
  {
    var slot := At(st, r);
    var status := if IsVolatileLifetime(slot.attr.lifetime) then Success
                  else SaveRecord(st.storage, slot.attr, slot.material, env).0;
    var kept := if status == Success then slot.(state := Full) else slot;
    MarkKeepsFreeLists(st, r, kept, StorageAfterFinish(st, r, env));
    PutSame(st, r);
  }

  /** The record that finishing adds is of no key loaded in another slot. */
  lemma FinishStorage(sys: Sys, r: Ref, env: SaveEnv, st': Store)
    requires Inv(sys) && r in sys.fills && sys.fills[r].written && InStore(sys.store, r)
    requires st'.storage == StorageAfterFinish(sys.store, r, env)
    ensures StorageOk(st'.storage) && StorageKept(sys, sys.(store := st'), r)
    ensures FinishCreation(sys.store, r, env).0 != CorruptionDetected
    ensures r.slice == CACHE_SLICE && FinishCreation(sys.store, r, env).0 == Success ==>
              && Agrees(At(sys.store, r), st'.storage)
              && forall q: Ref :: InStore(sys.store, q) && q.slice == CACHE_SLICE && At(sys.store, q).state == Full ==>
                   At(sys.store, q).attr.id != At(sys.store, r).attr.id
  {
    assert SlotOk(sys, r);
    var slot := At(sys.store, r);
    if !IsVolatileLifetime(slot.attr.lifetime) {
      SaveEffect(sys.store.storage, slot.attr, slot.material, env);
    }
    forall q: Ref | InStore(sys.store, q) && q != r && q.slice == CACHE_SLICE && At(sys.store, q).state == Full
      ensures At(sys.store, q).attr.id in sys.store.storage
    {
      assert SlotOk(sys, q);
    }
  }

  lemma FinishKeepsInv(sys: Sys, r: Ref, env: SaveEnv)
    requires Inv(sys) && r in sys.fills && sys.fills[r].written
    ensures InStore(sys.store, r)
    ensures var o := FinishStep(sys, r, env);
            && o.status != CorruptionDetected && Inv(o.sys) && SameElsewhere(sys, o.sys, r)
            && o.sys.store.storage == StorageAfterFinish(sys.store, r, env)
            && At(o.sys.store, r) == if o.status == Success then At(sys.store, r).(state := Full) else At(sys.store, r)
  {
    FillingSlot(sys, r);
    FinishEffect(sys.store, r, env);
    var st' := FinishCreation(sys.store, r, env).1;
    FinishStorage(sys, r, env, st');
    var sys' := FinishStep(sys, r, env).sys;
    assert SlotOk(sys', r) by { assert SlotOk(sys, r); }
    OneSlotKeepsInv(sys, sys', r);
  }
}
