// The steps that hand out slots: reserving a slot for a new key, looking a key
// up (which may evict another and load it from storage) and purging. Each of
// them keeps the invariant.
module KeyLookup {
  import opened Bytes
  import opened Options
  import opened KeyTypes
  import opened KeyRecord
  import opened KeySlots
  import opened KeySections
  import opened KeyProtocol

  // ------------------------------------------------- reserving a cache entry

  /** Whether the cache has an entry to give: an empty one or one to evict. */
  ghost predicate CacheHasRoom(st: Store)
    requires Shape(st)
  {
    exists i: nat :: i < |st.slices[CACHE_SLICE]|
      && (IsEmpty(st.slices[CACHE_SLICE][i]) || IsEvictable(st.slices[CACHE_SLICE][i]))
  }

  /** The facts about single slots that reserving relies on. */
  ghost predicate SlotsSane(st: Store)
    requires Shape(st)
  {
    forall r: Ref :: InStore(st, r) ==>
      && (At(st, r).state == Empty && r.slice == CACHE_SLICE ==> At(st, r).word == 0)
      && (At(st, r).state == Full ==> At(st, r).sliceIndex == r.slice && At(st, r).word >= 0)
  }

  lemma InvSlotsSane(sys: Sys)
    requires Inv(sys)
    ensures SlotsSane(sys.store)
  {
    forall r: Ref | InStore(sys.store, r)
      ensures At(sys.store, r).state == Empty && r.slice == CACHE_SLICE ==> At(sys.store, r).word == 0
      ensures At(sys.store, r).state == Full ==> At(sys.store, r).sliceIndex == r.slice && At(sys.store, r).word >= 0
    {
      assert SlotOk(sys, r);
    }
  }

  /** A slot freshly claimed in the cache. */
  predicate IsClaimed(slot: Slot) {
    slot.state == Filling && slot.word == 0 && slot.sliceIndex == CACHE_SLICE
  }

  lemma ClaimEffect(st: Store, r: Ref)
    requires Shape(st) && FreeListsOk(st) && InStore(st, r) && r.slice == CACHE_SLICE
    requires At(st, r).state == Empty && At(st, r).word == 0
    ensures var o := Claim(st, r);
            && o.status == Success && o.ref == Some(r) && OnlySlot(st, o.store, r) && FreeListsOk(o.store)
            && IsClaimed(At(o.store, r))
  {
    PutKeepsFreeLists(st, r, At(st, r).(state := Filling, sliceIndex := CACHE_SLICE));
  }

  /** Evicting an unread key empties its entry. */
  lemma EvictEffect(st: Store, r: Ref)
    requires Shape(st) && FreeListsOk(st) && SlotsSane(st) && InStore(st, r) && r.slice == CACHE_SLICE
    requires IsEvictable(At(st, r))
    ensures var o := Wipe(Put(st, r, RegisterRead(At(st, r)).1), r);
            && o.0 == Success && OnlySlot(st, o.1, r) && FreeListsOk(o.1) && At(o.1, r) == ZERO_SLOT
  {
    var registered := RegisterRead(At(st, r)).1;
    PutKeepsFreeLists(st, r, registered);
    WipeEffect(Put(st, r, registered), r);
  }

  /** Reserving a cache entry takes an empty one or evicts an unread key, and
      fails, changing nothing, exactly when there is neither. */
  lemma ReserveCacheEffect(st: Store)
    requires Shape(st) && FreeListsOk(st) && SlotsSane(st)
    ensures var o := ReserveCache(st);
            && o.status == (if CacheHasRoom(st) then Success else InsufficientMemory)
            && (o.status != Success ==> o.store == st)
            && (o.status == Success ==>
                  var r := o.ref.value;
                  && r.slice == CACHE_SLICE && OnlySlot(st, o.store, r) && FreeListsOk(o.store)
                  && (IsEmpty(At(st, r)) || IsEvictable(At(st, r)))
                  && IsClaimed(At(o.store, r)))
  {
    var cache := st.slices[CACHE_SLICE];
    var empty := FirstSlot(cache, IsEmpty, 0);
    var victim := FirstSlot(cache, IsEvictable, 0);
    if empty < |cache| {
      ClaimEffect(st, Ref(CACHE_SLICE, empty));
    } else if victim < |cache| {
      var r := Ref(CACHE_SLICE, victim);
      EvictEffect(st, r);
      ClaimEffect(Wipe(Put(st, r, RegisterRead(At(st, r)).1), r).1, r);
    }
  }

  // ---------------------------------------------- allocating a volatile slot

  /** Allocating a slice adds empty slots and changes no other. */
  lemma WithSliceSlots(st: Store, s: nat)
    requires Shape(st) && s < VOLATILE_SLICES
    ensures var st1 := WithSlice(st, s);
            && st1.slices[s] != [] && st1.storage == st.storage && st1.firstFree == st.firstFree
            && (forall q: Ref :: InStore(st, q) ==> InStore(st1, q) && At(st1, q) == At(st, q))
            && (forall q: Ref :: InStore(st1, q) && !InStore(st, q) ==> q.slice == s && At(st1, q) == ZERO_SLOT)
  {
  }

  lemma WithSliceFreeLists(st: Store, s: nat)
    requires Shape(st) && FreeListsOk(st) && s < VOLATILE_SLICES
    ensures FreeListsOk(WithSlice(st, s))
  {
    var st1 := WithSlice(st, s);
    FreshSliceList(SliceLength(s));
    forall z: nat | z < VOLATILE_SLICES
      ensures FreeListOk(st1.slices[z], st1.firstFree[z])
    {
      assert FreeListOk(st.slices[z], st.firstFree[z]);
    }
  }

  lemma WithSliceEffect(sys: Sys, s: nat)
    requires Inv(sys) && s < VOLATILE_SLICES
    ensures Inv(sys.(store := WithSlice(sys.store, s)))
  {
    var st, st1 := sys.store, WithSlice(sys.store, s);
    var sys1 := sys.(store := st1);
    WithSliceSlots(st, s);
    WithSliceFreeLists(st, s);
    forall q: Ref | InStore(st1, q)
      ensures SlotOk(sys1, q)
    {
      if InStore(st, q) {
        assert SlotOk(sys, q);
      }
    }
    forall p: Ref, q: Ref | InStore(st1, p) && InStore(st1, q) && p != q
      && p.slice == q.slice == CACHE_SLICE && At(st1, p).state == At(st1, q).state == Full
      ensures At(st1, p).attr.id != At(st1, q).attr.id
    {
      assert InStore(st, p) && InStore(st, q);
    }
  }

  lemma TakeHead(st: Store, s: nat)
    requires Shape(st) && FreeListsOk(st) && s < VOLATILE_SLICES
    requires st.slices[s] != [] && st.firstFree[s] != FREE_SLOT_INDEX_NONE
    ensures var i := st.firstFree[s];
            && i < |st.slices[s]| && i < SLOT_LIMIT && st.slices[s][i].state == Empty
            && var st' := Put(st, Ref(s, i), st.slices[s][i].(word := 0, state := Filling, sliceIndex := s))
                          .(firstFree := st.firstFree[s := NextFree(st.slices[s], i)]);
            Shape(st') && FreeListsOk(st')
  {
    var slice, i := st.slices[s], st.firstFree[s];
    SliceLengthBound(s);
    assert FreeListOk(slice, i);
    var list: seq<nat> :| IsFreeList(slice, i, list);
    assert list != [] && list[0] == i && i in list;
    var slot := slice[i].(word := 0, state := Filling, sliceIndex := s);
    PopFreeList(slice, list, slot);
    var st' := Put(st, Ref(s, i), slot).(firstFree := st.firstFree[s := NextFree(slice, i)]);
    assert st'.slices[s] == slice[i := slot];
    forall z: nat | z < VOLATILE_SLICES
      ensures FreeListOk(st'.slices[z], st'.firstFree[z])
    {
      assert FreeListOk(st.slices[z], st.firstFree[z]);
      if z == s {
        assert IsFreeList(st'.slices[z], st'.firstFree[z], list[1..]);
      }
    }
  }

  /** Allocation hands out a slot that was empty, never one in use, and fails
      only when every slice is full or a new one cannot be allocated. */
  lemma AllocateEffect(sys: Sys, allocates: bool)
    requires Inv(sys)
    ensures var o := AllocateVolatile(sys.store, allocates);
            && (o.status == Success || o.status == InsufficientMemory)
            && (o.status == InsufficientMemory ==>
                  && o.store == sys.store
                  && (!allocates || forall s: nat :: s < VOLATILE_SLICES ==> sys.store.firstFree[s] == FREE_SLOT_INDEX_NONE))
            && (o.status == Success ==>
                  var r := o.ref.value;
                  && r.slice < VOLATILE_SLICES && r.index < SLOT_LIMIT
                  && Shape(o.store) && FreeListsOk(o.store) && o.store.storage == sys.store.storage
                  && var grown := sys.(store := WithSlice(sys.store, r.slice));
                  && Inv(grown) && OnlySlot(grown.store, o.store, r)
                  && At(grown.store, r).state == Empty
                  && At(o.store, r).state == Filling && At(o.store, r).word == 0 && At(o.store, r).sliceIndex == r.slice)
  {
    var st := sys.store;
    var s := FirstSliceWithRoom(st.firstFree, 0);
    if s < VOLATILE_SLICES && (st.slices[s] != [] || allocates) {
      WithSliceSlots(st, s);
      WithSliceEffect(sys, s);
      TakeHead(WithSlice(st, s), s);
    }
  }

  /** Some slot of a slice is empty. */
  ghost predicate HasEmpty(slice: seq<Slot>) {
    exists i: nat :: i < |slice| && slice[i].state == Empty
  }

  /** Behind slices that are all allocated there is one with an empty slot or, if
      memory can be had, one to be allocated. */
  ghost predicate VolatileRoom(st: Store, allocates: bool)
    requires Shape(st)
  {
    exists s: nat :: s < VOLATILE_SLICES && (HasEmpty(st.slices[s]) || (allocates && st.slices[s] == []))
      && forall z: nat :: z < s ==> st.slices[z] != []
  }

  lemma HeadTellsRoom(slice: seq<Slot>, head: nat)
    requires FreeListOk(slice, head) && |slice| <= SLOT_LIMIT
    ensures head != FREE_SLOT_INDEX_NONE <==> slice == [] || HasEmpty(slice)
  {
    if slice != [] {
      var list: seq<nat> :| IsFreeList(slice, head, list);
      if list != [] {
        assert list[0] in list;
      }
      if HasEmpty(slice) {
        var i: nat :| i < |slice| && slice[i].state == Empty;
        assert i in list;
      }
    }
  }

  /** Allocation succeeds exactly when there is room. */
  lemma AllocateExactly(sys: Sys, allocates: bool)
    requires Inv(sys)
    ensures AllocateVolatile(sys.store, allocates).status == Success <==> VolatileRoom(sys.store, allocates)
  {
    var st := sys.store;
    AllocateEffect(sys, allocates);
    var s := FirstSliceWithRoom(st.firstFree, 0);
    forall z: nat | z < VOLATILE_SLICES
      ensures st.firstFree[z] != FREE_SLOT_INDEX_NONE <==> st.slices[z] == [] || HasEmpty(st.slices[z])
    {
      SliceLengthBound(z);
      HeadTellsRoom(st.slices[z], st.firstFree[z]);
    }
    hide Inv, HasEmpty, SliceLength;
  }

  /** In the cache and out of it, what may be evicted is exactly a loaded key of
      the cache that no thread is registered to read. */
  lemma EvictableExactly(sys: Sys, r: Ref)
    requires Inv(sys) && InStore(sys.store, r)
    ensures IsEvictable(At(sys.store, r)) <==>
            r.slice == CACHE_SLICE && At(sys.store, r).state == Full && Holders(sys, r) == multiset{}
  {
    assert SlotOk(sys, r);
    assert |Holders(sys, r)| == 0 <==> Holders(sys, r) == multiset{};
  }

  /** An entry of the cache that is empty or a loaded key that nobody reads. */
  ghost predicate IsRoom(sys: Sys, r: Ref) {
    && r.slice == CACHE_SLICE && InStore(sys.store, r)
    && (At(sys.store, r).state == Empty || (At(sys.store, r).state == Full && Holders(sys, r) == multiset{}))
  }

  ghost predicate HasRoom(sys: Sys) {
    exists r: Ref :: IsRoom(sys, r)
  }

  lemma RoomExactly(sys: Sys)
    requires Inv(sys)
    ensures CacheHasRoom(sys.store) <==> HasRoom(sys)
  {
    if CacheHasRoom(sys.store) {
      var i: nat :| i < |sys.store.slices[CACHE_SLICE]|
        && (IsEmpty(sys.store.slices[CACHE_SLICE][i]) || IsEvictable(sys.store.slices[CACHE_SLICE][i]));
      assert At(sys.store, Ref(CACHE_SLICE, i)) == sys.store.slices[CACHE_SLICE][i];
      EvictableExactly(sys, Ref(CACHE_SLICE, i));
      assert IsRoom(sys, Ref(CACHE_SLICE, i));
    }
    if HasRoom(sys) {
      var r: Ref :| IsRoom(sys, r);
      EvictableExactly(sys, r);
      assert At(sys.store, r) == sys.store.slices[CACHE_SLICE][r.index];
    }
  }

  /** A creation is started exactly when there is a slot for it. */
  lemma StartExactly(sys: Sys, t: Tid, attr: Attributes, allocates: bool)
    requires Inv(sys) && ValidRequest(attr)
    ensures StartStep(sys, t, attr, allocates).status == Success <==>
            if IsVolatileLifetime(attr.lifetime) then VolatileRoom(sys.store, allocates) else HasRoom(sys)
  {
    AllocateExactly(sys, allocates);
    InvSlotsSane(sys);
    ReserveCacheEffect(sys.store);
    RoomExactly(sys);
    hide Inv, HasRoom, VolatileRoom, CacheHasRoom, AllocateVolatile, ReserveCache;
  }

  /** Slots other than r are as before, apart from new empty ones. */
  ghost predicate StartedElsewhere(sys: Sys, sys': Sys, r: Ref) {
    forall q: Ref :: InStore(sys.store, q) && q != r ==>
      && InStore(sys'.store, q)
      && At(sys'.store, q) == At(sys.store, q)
      && Holders(sys', q) == Holders(sys, q)
      && (q in sys'.fills <==> q in sys.fills)
      && (q in sys.fills ==> sys'.fills[q] == sys.fills[q])
  }

  /** A step has given a thread a slot to fill that nobody was using. */
  ghost predicate Started(sys: Sys, sys': Sys, t: Tid, r: Ref)
    requires Shape(sys.store)
  {
    && InStore(sys'.store, r) && At(sys'.store, r).state == Filling
    && r in sys'.fills && sys'.fills[r].tid == t
    && (InStore(sys.store, r) ==> IsEmpty(At(sys.store, r)) || IsEvictable(At(sys.store, r)))
    && StartedElsewhere(sys, sys', r)
    && sys'.store.storage == sys.store.storage
  }

  /** Giving an empty or unread slot to a thread to fill keeps the invariant. */
  lemma ClaimKeepsInv(sys: Sys, st': Store, r: Ref, filler: Filler)
    requires Inv(sys) && OnlySlot(sys.store, st', r) && FreeListsOk(st')
    requires At(st', r).state == Filling && At(st', r).word == 0 && At(st', r).sliceIndex == r.slice
    requires IsEmpty(At(sys.store, r)) || IsEvictable(At(sys.store, r))
    requires !filler.written && Belongs(r, filler.attr)
    ensures var sys' := sys.(store := st', fills := sys.fills[r := filler]);
            Inv(sys') && SameElsewhere(sys, sys', r)
  {
    var sys' := sys.(store := st', fills := sys.fills[r := filler]);
    assert SlotOk(sys, r);
    StorageStays(sys, sys', r);
    assert SlotOk(sys', r);
    OneSlotKeepsInv(sys, sys', r);
  }

  lemma ElsewhereGrown(sys: Sys, grown: Store, sys': Sys, r: Ref)
    requires Shape(grown) && SameElsewhere(sys.(store := grown), sys', r)
    requires forall q: Ref :: InStore(sys.store, q) ==> InStore(grown, q) && At(grown, q) == At(sys.store, q)
    ensures StartedElsewhere(sys, sys', r)
  {
    var sys1 := sys.(store := grown);
    forall q: Ref | InStore(sys.store, q) && q != r
      ensures InStore(sys'.store, q) && At(sys'.store, q) == At(sys.store, q) && Holders(sys', q) == Holders(sys, q)
      ensures (q in sys'.fills <==> q in sys.fills) && (q in sys.fills ==> sys'.fills[q] == sys.fills[q])
    {
      assert Holders(sys1, q) == Holders(sys, q);
    }
  }

  /** A claimed slot starts a key, whether or not its slice was allocated first. */
  lemma ClaimStarts(sys: Sys, grown: Store, st': Store, r: Ref, t: Tid, attr: Attributes)
    requires Inv(sys) && Inv(sys.(store := grown)) && grown.storage == sys.store.storage
    requires forall q: Ref :: InStore(sys.store, q) ==> InStore(grown, q) && At(grown, q) == At(sys.store, q)
    requires OnlySlot(grown, st', r) && FreeListsOk(st')
    requires At(st', r).state == Filling && At(st', r).word == 0 && At(st', r).sliceIndex == r.slice
    requires IsEmpty(At(grown, r)) || IsEvictable(At(grown, r))
    requires Belongs(r, attr)
    ensures var sys' := sys.(store := st', fills := sys.fills[r := Filler(t, attr, false)]);
            Inv(sys') && Started(sys, sys', t, r)
  {
    ClaimKeepsInv(sys.(store := grown), st', r, Filler(t, attr, false));
    ElsewhereGrown(sys, grown, sys.(store := st', fills := sys.fills[r := Filler(t, attr, false)]), r);
    assert Shape(sys.store);
    hide Inv, FreeListsOk, Belongs, SameElsewhere, StartedElsewhere, OnlySlot;
  }

  lemma StartVolatileKeepsInv(sys: Sys, t: Tid, attr: Attributes, allocates: bool)
    requires Inv(sys) && ValidRequest(attr) && IsVolatileLifetime(attr.lifetime)
    ensures var o := StartStep(sys, t, attr, allocates);
            && (o.status == Success || o.status == InsufficientMemory)
            && Inv(o.sys)
            && (o.status != Success ==> o.sys == sys)
            && (o.status == Success ==> Started(sys, o.sys, t, AllocateVolatile(sys.store, allocates).ref.value))
  {
    AllocateEffect(sys, allocates);
    assert Shape(sys.store);
    var o := AllocateVolatile(sys.store, allocates);
    if o.status == Success {
      var r := o.ref.value;
      WithSliceSlots(sys.store, r.slice);
      ClaimStarts(sys, WithSlice(sys.store, r.slice), o.store, r, t, CreatedAttributes(r, attr));
    }
    hide Inv, AllocateVolatile, Started, WithSlice, OnlySlot, FreeListsOk;
  }

  lemma StartCachedKeepsInv(sys: Sys, t: Tid, attr: Attributes, allocates: bool)
    requires Inv(sys) && ValidRequest(attr) && !IsVolatileLifetime(attr.lifetime)
    ensures var o := StartStep(sys, t, attr, allocates);
            && (o.status == Success || o.status == InsufficientMemory)
            && Inv(o.sys)
            && (o.status != Success ==> o.sys == sys)
            && (o.status == Success ==> Started(sys, o.sys, t, ReserveCache(sys.store).ref.value))
  {
    InvSlotsSane(sys);
    ReserveCacheEffect(sys.store);
    assert Shape(sys.store);
    var o := ReserveCache(sys.store);
    if o.status == Success {
      ClaimStarts(sys, sys.store, o.store, o.ref.value, t, attr);
    }
    hide Inv, ReserveCache, Started, OnlySlot, FreeListsOk;
  }

  /** Starting to create a key gives the thread a slot nobody else uses, or
      changes nothing for lack of one. */
  lemma StartKeepsInv(sys: Sys, t: Tid, attr: Attributes, allocates: bool)
    requires Inv(sys) && ValidRequest(attr)
    ensures var o := StartStep(sys, t, attr, allocates);
            && (o.status == Success || o.status == InsufficientMemory)
            && Inv(o.sys)
            && (o.status != Success ==> o.sys == sys)
            && (o.status == Success ==>
                  Started(sys, o.sys, t, Reserve(sys.store, IsVolatileLifetime(attr.lifetime), allocates).ref.value))
  {
    if IsVolatileLifetime(attr.lifetime) {
      StartVolatileKeepsInv(sys, t, attr, allocates);
    } else {
      StartCachedKeepsInv(sys, t, attr, allocates);
    }
  }

  // ----------------------------------------------------------------- lookup

  /** Fewer readers than a counter can count. */
  ghost predicate ReadersBounded(sys: Sys) {
    forall r: Ref :: |Holders(sys, r)| < SIZE_MAX
  }

  /** The search finds exactly the loaded key with the identifier. */
  lemma FindExactly(sys: Sys, id: KeyId, r: Ref)
    requires Inv(sys) && InStore(sys.store, r)
    ensures IsFullWith(At(sys.store, r), id) <==> FindInMemory(sys.store, id) == Some(r)
  {
    if IsFullWith(At(sys.store, r), id) {
      assert SlotOk(sys, r);
      if r.slice < VOLATILE_SLICES {
        IdRoundTrip(r.slice, r.index);
      } else {
        assert r.slice == CACHE_SLICE;
        var cache := sys.store.slices[CACHE_SLICE];
        assert cache[r.index] == At(sys.store, r);
        var i := FirstSlot(cache, (slot: Slot) => IsFullWith(slot, id), 0);
        assert At(sys.store, Ref(CACHE_SLICE, i)) == cache[i];
      }
    }
  }

  /** A loaded key with one more reader is still in order, */
  lemma RegisteredSlotOk(sys: Sys, t: Tid, r: Ref, slot: Slot)
    requires Shape(sys.store) && InStore(sys.store, r) && SlotOk(sys, r) && At(sys.store, r).state == Full
    requires slot == At(sys.store, r).(word := At(sys.store, r).word + 1)
    ensures var sys' := AddHold(sys.(store := Put(sys.store, r, slot)), r, t);
            && SameSlots(sys.store, sys'.store) && At(sys'.store, r) == slot && SlotOk(sys', r)
  {
    var sys' := AddHold(sys.(store := Put(sys.store, r, slot)), r, t);
    assert Holders(sys', r) == Holders(sys, r) + multiset{t};
  }

  /** nothing else changes, */
  lemma RegisteredElsewhere(sys: Sys, t: Tid, r: Ref, slot: Slot)
    requires Shape(sys.store) && InStore(sys.store, r) && RefsInStore(sys)
    ensures SameElsewhere(sys, AddHold(sys.(store := Put(sys.store, r, slot)), r, t), r)
  {
    var sys' := AddHold(sys.(store := Put(sys.store, r, slot)), r, t);
    assert SameSlots(sys.store, sys'.store);
    forall q: Ref | InStore(sys.store, q) && q != r
      ensures At(sys'.store, q) == At(sys.store, q) && Holders(sys', q) == Holders(sys, q)
    {
    }
  }

  /** and no other key shares its identifier. */
  lemma RegisteredUnique(st: Store, r: Ref, slot: Slot)
    requires Shape(st) && InStore(st, r) && At(st, r).state == Full && UniqueInCache(st)
    requires slot.attr == At(st, r).attr
    ensures UniqueAt(Put(st, r, slot), r)
  {
  }

  /** Registering one more reader on a loaded key. */
  lemma RegisterKeepsInv(sys: Sys, t: Tid, r: Ref)
    requires Inv(sys) && InStore(sys.store, r) && At(sys.store, r).state == Full
    requires |Holders(sys, r)| < SIZE_MAX
    ensures var (status, slot) := RegisterRead(At(sys.store, r));
            var sys' := AddHold(sys.(store := Put(sys.store, r, slot)), r, t);
            && status == Success && Inv(sys') && SameElsewhere(sys, sys', r)
            && Holders(sys', r) == Holders(sys, r) + multiset{t}
            && slot == At(sys.store, r).(word := At(sys.store, r).word + 1)
            && FreeListsOk(Put(sys.store, r, slot))
  {
    assert SlotOk(sys, r);
    var slot := RegisterRead(At(sys.store, r)).1;
    var sys' := AddHold(sys.(store := Put(sys.store, r, slot)), r, t);
    PutKeepsFreeLists(sys.store, r, slot);
    StorageStays(sys, sys', r);
    RegisteredSlotOk(sys, t, r, slot);
    RegisteredElsewhere(sys, t, r, slot);
    RegisteredUnique(sys.store, r, slot);
    OneSlotKeepsInv(sys, sys', r);
    hide FreeListsOk, StorageKept, SameElsewhere, UniqueAt, UniqueInCache, SlotOk;
  }

  /** The key a load puts in a claimed entry, with its first reader. */
  function LoadedSlot(id: KeyId, p: Parsed): Slot {
    Slot(Full, CACHE_SLICE, 1, ExtendAttributes(p.attr), p.data)
  }

  /** What LoadAndLock does: nothing if the cache has no room; otherwise it
      takes an entry and either empties it again or leaves the key in it. */
  lemma LoadAndLockEffect(st: Store, id: KeyId, env: LoadEnv)
    requires Shape(st) && FreeListsOk(st) && SlotsSane(st)
    ensures var (o, load) := (LoadAndLock(st, id, env), LoadRecord(st, id, env));
            if !CacheHasRoom(st) then o == Outcome(InsufficientMemory, None, st)
            else
              var r := ReserveCache(st).ref.value;
              && r.slice == CACHE_SLICE && OnlySlot(st, o.store, r) && FreeListsOk(o.store)
              && (IsEmpty(At(st, r)) || IsEvictable(At(st, r)))
              && (if load.0 == Success
                  then o.status == Success && o.ref == Some(r) && load.1.Some? && At(o.store, r) == LoadedSlot(id, load.1.value)
                  else o.status == (if load.0 == DoesNotExist then InvalidHandle else load.0) && At(o.store, r) == ZERO_SLOT)
  {
    ReserveCacheEffect(st);
    if CacheHasRoom(st) {
      var reserved := ReserveCache(st);
      var r, st1 := reserved.ref.value, reserved.store;
      var (status, parsed) := LoadRecord(st1, id, env);
      if status != Success {
        WipeEffect(st1, r);
      } else {
        PutKeepsFreeLists(st1, r, LoadedSlot(id, parsed.value));
      }
    }
  }

  /** Emptying an unused entry keeps the invariant. */
  lemma EmptiedKeepsInv(sys: Sys, st': Store, r: Ref)
    requires Inv(sys) && OnlySlot(sys.store, st', r) && FreeListsOk(st') && r.slice == CACHE_SLICE
    requires IsEmpty(At(sys.store, r)) || IsEvictable(At(sys.store, r))
    requires At(st', r) == ZERO_SLOT
    ensures Inv(sys.(store := st')) && SameElsewhere(sys, sys.(store := st'), r)
  {
    var sys' := sys.(store := st');
    assert SlotOk(sys, r);
    StorageStays(sys, sys', r);
    assert SlotOk(sys', r);
    OneSlotKeepsInv(sys, sys', r);
  }

  /** So does loading into it a stored key that no other slot holds. */
  lemma LoadedKeepsInv(sys: Sys, t: Tid, st': Store, r: Ref, id: KeyId, p: Parsed)
    requires Inv(sys) && OnlySlot(sys.store, st', r) && FreeListsOk(st') && r.slice == CACHE_SLICE
    requires IsEmpty(At(sys.store, r)) || IsEvictable(At(sys.store, r))
    requires id in sys.store.storage && Parse(sys.store.storage[id], id) == Some(p) && p.attr.id == id
    requires FindInMemory(sys.store, id).None?
    requires At(st', r) == LoadedSlot(id, p)
    ensures var sys' := AddHold(sys.(store := st'), r, t);
            Inv(sys') && SameElsewhere(sys, sys', r)
  {
    var sys' := AddHold(sys.(store := st'), r, t);
    assert SlotOk(sys, r);
    StorageStays(sys, sys', r);
    forall q: Ref | InStore(sys.store, q) && q != r && q.slice == CACHE_SLICE && At(sys.store, q).state == Full
      ensures At(sys.store, q).attr.id != id
    {
      FindExactly(sys, id, q);
    }
    assert Holders(sys', r) == multiset{t};
    assert SlotOk(sys', r);
    OneSlotKeepsInv(sys, sys', r);
    hide Inv, SlotOk;
  }

  /** Loading a key that is not in memory keeps the invariant. */
  lemma LoadKeepsInv(sys: Sys, t: Tid, id: KeyId, env: LoadEnv)
    requires Inv(sys) && FindInMemory(sys.store, id).None?
    ensures var o := LoadAndLock(sys.store, id, env);
            var sys' := if o.status == Success then AddHold(sys.(store := o.store), o.ref.value, t) else sys.(store := o.store);
            && o.status in {Success, InvalidHandle, InsufficientMemory, StorageFailure}
            && Inv(sys')
            && (CacheHasRoom(sys.store) ==>
                  var r := ReserveCache(sys.store).ref.value;
                  && InStore(sys.store, r) && (IsEmpty(At(sys.store, r)) || IsEvictable(At(sys.store, r)))
                  && SameElsewhere(sys, sys', r))
            && (!CacheHasRoom(sys.store) ==> sys' == sys)
            && sys'.store.storage == sys.store.storage
  {
    InvSlotsSane(sys);
    LoadAndLockEffect(sys.store, id, env);
    if CacheHasRoom(sys.store) {
      var o := LoadAndLock(sys.store, id, env);
      var r := ReserveCache(sys.store).ref.value;
      if o.status == Success {
        LoadedKeepsInv(sys, t, o.store, r, id, LoadRecord(sys.store, id, env).1.value);
      } else {
        EmptiedKeepsInv(sys, o.store, r);
      }
    }
  }

  /** At most slot r has changed: a reader was added, or it was unused before. */
  ghost predicate LookedUp(sys: Sys, sys': Sys, t: Tid, r: Ref)
    requires Shape(sys.store)
  {
    sys' == sys
    || (InStore(sys.store, r) && SameElsewhere(sys, sys', r)
        && (IsEmpty(At(sys.store, r)) || IsEvictable(At(sys.store, r))
            || (&& At(sys.store, r).state == Full
                && At(sys'.store, r) == At(sys.store, r).(word := At(sys.store, r).word + 1)
                && Holders(sys', r) == Holders(sys, r) + multiset{t})))
  }

  /** The slot a lookup may change. */
  function TouchedByLookup(st: Store, id: KeyId): Ref
    requires Shape(st)
  {
    if FindInMemory(st, id).Some? then FindInMemory(st, id).value
    else if ReserveCache(st).status == Success then ReserveCache(st).ref.value
    else Ref(0, 0)
  }

  lemma LookupLoadedKeepsInv(sys: Sys, t: Tid, id: KeyId, env: LoadEnv)
    requires Inv(sys) && ReadersBounded(sys)
    requires FindInMemory(sys.store, id).Some?
    ensures var (o, r) := (LookupStep(sys, t, id, env), FindInMemory(sys.store, id).value);
            && o.status == Success && Inv(o.sys) && LookedUp(sys, o.sys, t, r)
            && o.sys.store.storage == sys.store.storage
            && GetAndLock(sys.store, id, env).ref == Some(r)
  {
    var r := FindInMemory(sys.store, id).value;
    assert IsVolatileId(id) || IsUserId(id) || IsBuiltinId(id);
    RegisterKeepsInv(sys, t, r);
    var slot := RegisterRead(At(sys.store, r)).1;
    assert LookupStep(sys, t, id, env) == Result(Success, AddHold(sys.(store := Put(sys.store, r, slot)), r, t));
  }

  /** Looking a key up keeps the invariant, and with fewer readers than the
      counter can count never reports corruption. */
  lemma LookupKeepsInv(sys: Sys, t: Tid, id: KeyId, env: LoadEnv)
    requires Inv(sys) && ReadersBounded(sys)
    ensures var o := LookupStep(sys, t, id, env);
            && o.status in {Success, InvalidHandle, InsufficientMemory, StorageFailure}
            && Inv(o.sys) && LookedUp(sys, o.sys, t, TouchedByLookup(sys.store, id))
            && o.sys.store.storage == sys.store.storage
  {
    if FindInMemory(sys.store, id).Some? {
      LookupLoadedKeepsInv(sys, t, id, env);
    } else if IsVolatileId(id) || IsUserId(id) || IsBuiltinId(id) {
      LoadKeepsInv(sys, t, id, env);
      InvSlotsSane(sys);
      ReserveCacheEffect(sys.store);
    }
  }

  // ------------------------------------------------------------------ purge

  /** Locking a loaded key only counts one more reader. */
  lemma LockLoaded(st: Store, id: KeyId, r: Ref)
    requires Shape(st) && FindInMemory(st, id) == Some(r)
    requires RegisterRead(At(st, r)).0 == Success
    ensures LockInMemory(st, id) == Outcome(Success, Some(r), Put(st, r, RegisterRead(At(st, r)).1))
  {
    hide Put;
  }

  lemma OnlySlotAfterPut(st: Store, r: Ref, slot: Slot, st': Store)
    requires Shape(st) && InStore(st, r)
    ensures Shape(Put(st, r, slot)) && OnlySlot(Put(st, r, slot), st', r) ==> OnlySlot(st, st', r)
  {
  }

  /** Purging a loaded key wipes it if this thread is its only reader now, and
      takes the registration back otherwise. */
  lemma PurgeIs(st: Store, id: KeyId, r: Ref)
    requires Shape(st) && FindInMemory(st, id) == Some(r)
    requires At(st, r).word >= 0 && RegisterRead(At(st, r)) == (Success, At(st, r).(word := At(st, r).word + 1))
    ensures var st1 := Put(st, r, At(st, r).(word := At(st, r).word + 1));
            Purge(st, id) == if IsEvictable(At(st, r)) then Wipe(st1, r) else Unregister(st1, r)
  {
    LockLoaded(st, id, r);
    hide LockInMemory, RegisterRead, Wipe, Unregister;
  }

  /** What is left of a purge after the search has registered a reader. */
  ghost predicate PurgedSlot(st: Store, st': Store, r: Ref)
    requires Shape(st)
  {
    && OnlySlot(st, st', r) && FreeListsOk(st')
    && if IsEvictable(At(st, r)) then At(st', r) == ZERO_SLOT else At(st', r) == At(st, r)
  }

  lemma WipeRegistered(st: Store, r: Ref)
    requires Shape(st) && FreeListsOk(st) && InStore(st, r) && r.slice == CACHE_SLICE
    requires IsEvictable(At(st, r)) && At(st, r).word == 0 && At(st, r).sliceIndex == r.slice
    ensures var st1 := Put(st, r, At(st, r).(word := At(st, r).word + 1));
            Wipe(st1, r).0 == Success && PurgedSlot(st, Wipe(st1, r).1, r)
  {
    var slot := At(st, r).(word := At(st, r).word + 1);
    PutKeepsFreeLists(st, r, slot);
    WipeEffect(Put(st, r, slot), r);
    OnlySlotAfterPut(st, r, slot, Wipe(Put(st, r, slot), r).1);
    hide Wipe, OnlySlot, FreeListsOk;
  }

  lemma ReleaseRegistered(st: Store, r: Ref)
    requires Shape(st) && FreeListsOk(st) && InStore(st, r) && !IsEvictable(At(st, r))
    requires At(st, r).state == Full && At(st, r).word >= 0 && At(st, r).sliceIndex == r.slice
    ensures var st1 := Put(st, r, At(st, r).(word := At(st, r).word + 1));
            Unregister(st1, r).0 == Success && PurgedSlot(st, Unregister(st1, r).1, r)
  {
    var slot := At(st, r).(word := At(st, r).word + 1);
    PutKeepsFreeLists(st, r, slot);
    UnregisterEffect(Put(st, r, slot), r);
    OnlySlotAfterPut(st, r, slot, Unregister(Put(st, r, slot), r).1);
    hide Unregister, OnlySlot, FreeListsOk;
  }

  /** What is known of a loaded key that a search has found. */
  lemma FoundSlot(sys: Sys, id: KeyId, r: Ref)
    requires Inv(sys) && ReadersBounded(sys) && FindInMemory(sys.store, id) == Some(r)
    ensures Shape(sys.store) && FreeListsOk(sys.store) && InStore(sys.store, r)
    ensures var slot := At(sys.store, r);
            && slot.state == Full && slot.word >= 0 && slot.sliceIndex == r.slice
            && RegisterRead(slot) == (Success, slot.(word := slot.word + 1))
            && (IsEvictable(slot) ==> r.slice == CACHE_SLICE && slot.word == 0)
  {
    assert SlotOk(sys, r);
    assert |Holders(sys, r)| < SIZE_MAX;
  }

  lemma PurgeLoaded(sys: Sys, id: KeyId, r: Ref)
    requires Inv(sys) && ReadersBounded(sys) && FindInMemory(sys.store, id) == Some(r)
    ensures Purge(sys.store, id).0 == Success && PurgedSlot(sys.store, Purge(sys.store, id).1, r)
  {
    FoundSlot(sys, id, r);
    hide Inv;
    PurgeIs(sys.store, id, r);
    if IsEvictable(At(sys.store, r)) {
      WipeRegistered(sys.store, r);
    } else {
      ReleaseRegistered(sys.store, r);
    }
    hide Purge, PurgedSlot, Wipe, Unregister;
  }

  /** Purging a key that only the purging thread has registered empties its
      cache entry; otherwise the registration is undone. */
  lemma PurgeEffect(sys: Sys, id: KeyId)
    requires Inv(sys) && ReadersBounded(sys)
    ensures var (status, st') := (Purge(sys.store, id).0, Purge(sys.store, id).1);
            && status in {Success, InvalidHandle, DoesNotExist}
            && (status != Success ==> st' == sys.store)
            && (status == Success ==>
                  && FindInMemory(sys.store, id).Some?
                  && PurgedSlot(sys.store, st', FindInMemory(sys.store, id).value))
  {
    if FindInMemory(sys.store, id).Some? {
      PurgeLoaded(sys, id, FindInMemory(sys.store, id).value);
    }
  }

  lemma PurgeKeepsInv(sys: Sys, id: KeyId)
    requires Inv(sys) && ReadersBounded(sys)
    ensures var o := PurgeStep(sys, id);
            && o.status in {Success, InvalidHandle, DoesNotExist}
            && Inv(o.sys) && o.sys.store.storage == sys.store.storage
            && (o.status != Success ==> o.sys == sys)
            && (o.status == Success ==>
                  && FindInMemory(sys.store, id).Some?
                  && var r := FindInMemory(sys.store, id).value;
                  && SameElsewhere(sys, o.sys, r)
                  && if IsEvictable(At(sys.store, r)) then At(o.sys.store, r) == ZERO_SLOT
                     else At(o.sys.store, r) == At(sys.store, r))
  {
    PurgeEffect(sys, id);
    var o := PurgeStep(sys, id);
    if o.status == Success {
      var r := FindInMemory(sys.store, id).value;
      assert SlotOk(sys, r);
      if IsEvictable(At(sys.store, r)) {
        EmptiedKeepsInv(sys, o.sys.store, r);
      } else {
        StorageStays(sys, o.sys, r);
        assert SlotOk(o.sys, r);
        OneSlotKeepsInv(sys, o.sys, r);
      }
    }
  }
}
