// What holds over every run of the key store, however the threads interleave:
// the invariant, the unreachability of corruption errors, the stability of
// keys in use, and the plain map from identifiers to keys that the cache and
// the storage together implement.
module KeyRuns {
  import opened Bytes
  import opened Options
  import opened KeyTypes
  import opened KeyRecord
  import opened KeySlots
  import opened KeySections
  import opened KeyProtocol
  import opened KeyLookup

  /** One step of one thread. Reader counts are assumed not to overflow. */
  ghost predicate Step(sys: Sys, t: Tid, a: Action, o: Result) {
    && Shape(sys.store) && RefsInStore(sys) && ReadersBounded(sys)
    && Enabled(sys, t, a)
    && o == Perform(sys, t, a)
  }

  /** The slot that an action names or that its section selects. */
  function Touched(sys: Sys, a: Action): Ref
    requires Shape(sys.store)
  {
    match a
    case Lookup(id, _) => TouchedByLookup(sys.store, id)
    case PurgeKey(id) => if FindInMemory(sys.store, id).Some? then FindInMemory(sys.store, id).value else Ref(0, 0)
    case Start(attr, allocates) =>
      var o := Reserve(sys.store, IsVolatileLifetime(attr.lifetime), allocates);
      if o.status == Success then o.ref.value else Ref(0, 0)
    case Release(r) => r
    case Destroy(r, _) => r
    case Fill(r, _, _) => r
    case Finish(r, _) => r
    case Abort(r) => r
  }

  lemma SameIsElsewhere(sys: Sys, sys': Sys, r: Ref)
    requires Shape(sys.store) && (sys' == sys || SameElsewhere(sys, sys', r))
    ensures StartedElsewhere(sys, sys', r)
  {
  }

  /** Every step of every thread keeps the invariant and none of them ends in
      one of the branches that report corruption. */
  lemma StepKeepsInv(sys: Sys, t: Tid, a: Action, o: Result)
    requires Inv(sys) && Step(sys, t, a, o)
    ensures Inv(o.sys)
    ensures o.status != CorruptionDetected
    ensures StartedElsewhere(sys, o.sys, Touched(sys, a))
  {
    hide SameElsewhere, StartedElsewhere;
    if !a.Start? && (o.sys == sys || SameElsewhere(sys, o.sys, Touched(sys, a))) {
      SameIsElsewhere(sys, o.sys, Touched(sys, a));
    }
    match a
    case Lookup(id, env) => LookupKeepsInv(sys, t, id, env);
    case Release(r) => ReleaseKeepsInv(sys, t, r);
    case Destroy(r, env) => DestroyKeepsInv(sys, t, r, env);
    case PurgeKey(id) => PurgeKeepsInv(sys, id);
    case Start(attr, allocates) =>
      StartKeepsInv(sys, t, attr, allocates);
      if o.sys == sys {
        SameIsElsewhere(sys, sys, Touched(sys, a));
      }
    case Fill(r, attr, material) => FillKeepsInv(sys, r, attr, material);
    case Finish(r, env) => FinishKeepsInv(sys, r, env);
    case Abort(r) => AbortKeepsInv(sys, r);
  }

  // ------------------------------------------------------ keys in use

  predicate SameKey(a: Slot, b: Slot) {
    a.attr == b.attr && a.material == b.material
  }

  lemma NoHolders(sys: Sys, r: Ref)
    requires Inv(sys) && InStore(sys.store, r)
    requires At(sys.store, r).state == Filling || IsEmpty(At(sys.store, r)) || IsEvictable(At(sys.store, r))
    ensures Holders(sys, r) == multiset{}
  {
    assert SlotOk(sys, r);
  }

  /** A step that takes a hold away leaves the key to the remaining holders. */
  lemma HeldAfterDrop(sys: Sys, t: Tid, r: Ref, st': Store, u: Tid)
    requires Inv(sys) && t in Holders(sys, r) && OneReaderLess(sys.store, st', r)
    requires u in Holders(sys, r) - multiset{t}
    ensures InStore(st', r) && At(st', r).state != Empty && At(st', r).state != Filling
    ensures SameKey(At(st', r), At(sys.store, r))
  {
    HeldSlot(sys, t, r);
  }

  /** So do releasing and destroying it. */
  lemma DropKeepsHeldKey(sys: Sys, t: Tid, a: Action, o: Result, u: Tid, r: Ref)
    requires Inv(sys) && Step(sys, t, a, o) && Inv(o.sys)
    requires u in Holders(sys, r) && u in Holders(o.sys, r)
    requires a.Release? || a.Destroy?
    requires Touched(sys, a) == r
    ensures InStore(sys.store, r) && InStore(o.sys.store, r)
    ensures SameKey(At(o.sys.store, r), At(sys.store, r))
    ensures At(sys.store, r).state == PendingDeletion ==> At(o.sys.store, r).state == PendingDeletion
  {
    HeldSlot(sys, u, r);
    HeldSlot(sys, t, r);
    if a.Release? {
      UnregisterEffect(sys.store, r);
    } else {
      DestroyEffect(sys.store, r, a.removeEnv);
    }
    HeldAfterDrop(sys, t, r, o.sys.store, u);
    hide Inv;
  }

  /** Lookup, purge and start leave alone a slot that somebody reads. */
  lemma CacheKeepsHeldKey(sys: Sys, t: Tid, a: Action, o: Result, u: Tid, r: Ref)
    requires Inv(sys) && Step(sys, t, a, o) && InStore(sys.store, r)
    requires u in Holders(sys, r)
    requires a.Lookup? || a.PurgeKey? || a.Start?
    requires Touched(sys, a) == r && InStore(o.sys.store, r)
    ensures SameKey(At(o.sys.store, r), At(sys.store, r)) && At(o.sys.store, r).state == At(sys.store, r).state
  {
    hide SlotOk, FreeListsOk, StorageOk, UniqueInCache;
    if IsEvictable(At(sys.store, r)) || IsEmpty(At(sys.store, r)) {
      NoHolders(sys, r);
    }
    match a
    case Lookup(id, env) => LookupKeepsInv(sys, t, id, env);
    case PurgeKey(id) => PurgeKeepsInv(sys, id);
    case Start(attr, allocates) => StartKeepsInv(sys, t, attr, allocates);
  }

  /** The remaining actions concern slots that nobody reads yet. */
  lemma FillTouchesFilling(sys: Sys, t: Tid, a: Action, o: Result)
    requires Inv(sys) && Step(sys, t, a, o) && (a.Fill? || a.Finish? || a.Abort?)
    ensures Holders(sys, Touched(sys, a)) == multiset{}
  {
    FillingSlot(sys, Touched(sys, a));
  }

  /** As long as a thread is registered to read a slot, no step of any thread
      wipes the slot, reassigns it or changes the key in it: at most the key is
      marked for deletion. */
  lemma StepKeepsHeldKey(sys: Sys, t: Tid, a: Action, o: Result, u: Tid, r: Ref)
    requires Inv(sys) && Step(sys, t, a, o)
    requires u in Holders(sys, r) && u in Holders(o.sys, r)
    ensures InStore(sys.store, r) && InStore(o.sys.store, r)
    ensures SameKey(At(o.sys.store, r), At(sys.store, r))
    ensures At(o.sys.store, r).state == Full || At(o.sys.store, r).state == PendingDeletion
    ensures At(sys.store, r).state == PendingDeletion ==> At(o.sys.store, r).state == PendingDeletion
  {
    StepKeepsInv(sys, t, a, o);
    HeldSlot(sys, u, r);
    HeldSlot(o.sys, u, r);
    if Touched(sys, a) == r {
      if a.Release? || a.Destroy? {
        DropKeepsHeldKey(sys, t, a, o, u, r);
      } else if a.Lookup? || a.PurgeKey? || a.Start? {
        CacheKeepsHeldKey(sys, t, a, o, u, r);
      } else {
        FillTouchesFilling(sys, t, a, o);
      }
    }
    hide Inv, Step, Touched;
  }

  /** A slot being filled is left alone by every other thread. */
  lemma StepKeepsFilling(sys: Sys, t: Tid, a: Action, o: Result, r: Ref)
    requires Inv(sys) && Step(sys, t, a, o)
    requires r in sys.fills && sys.fills[r].tid != t
    ensures InStore(sys.store, r) && InStore(o.sys.store, r)
    ensures At(o.sys.store, r) == At(sys.store, r)
    ensures r in o.sys.fills && o.sys.fills[r] == sys.fills[r]
  {
    StepKeepsInv(sys, t, a, o);
    FillingSlot(sys, r);
    if Touched(sys, a) == r {
      match a
      case Release(_) => HeldSlot(sys, t, r);
      case Destroy(_, _) => HeldSlot(sys, t, r);
      case Lookup(id, env) => LookupKeepsInv(sys, t, id, env);
      case PurgeKey(id) => PurgeKeepsInv(sys, id);
      case Start(attr, allocates) => StartKeepsInv(sys, t, attr, allocates);
      case _ =>
    }
  }

  // ------------------------------------------------------ the map of keys

  datatype Entry = Entry(attr: Attributes, material: seq<byte>)

  /** The key in a volatile slot, once it is complete and until it is destroyed. */
  function VolatileKey(st: Store, r: Ref): Option<Entry> {
    if InStore(st, r) && At(st, r).state == Full then Some(Entry(At(st, r).attr, At(st, r).material)) else None
  }

  /** The plain map that the key store implements: a volatile key is in the slot
      that its identifier encodes, a persistent one in storage. */
  function View(st: Store, id: KeyId): Option<Entry> {
    if IsVolatileId(id) then
      var key := VolatileKey(st, Ref(SliceOfId(id), SlotOfId(id)));
      if SliceOfId(id) < VOLATILE_SLICES && key.Some? && key.value.attr.id == id then key else None
    else if id in st.storage then
      var p := Parse(st.storage[id], id);
      if p.Some? then Some(Entry(p.value.attr, p.value.data)) else None
    else None
  }

  /** A slot shows an entry, up to implied usage flags. */
  predicate Shows(slot: Slot, e: Entry) {
    slot.material == e.material && (slot.attr == e.attr || slot.attr == ExtendAttributes(e.attr))
  }

  /** In terms of the flags one by one: a slot shows the material and all the
      attributes of an entry but its usage, every usage flag of the entry, and
      otherwise only flags that these imply. */
  ghost predicate ShowsFlags(slot: Slot, e: Entry) {
    && slot.material == e.material
    && slot.attr == e.attr.(policy := e.attr.policy.(usage := slot.attr.policy.usage))
    && (forall b: nat {:trigger Pow2(b)} :: HasFlag(e.attr.policy.usage, Pow2(b)) ==> HasFlag(slot.attr.policy.usage, Pow2(b)))
    && (forall b: nat {:trigger Pow2(b)} :: HasFlag(slot.attr.policy.usage, Pow2(b)) ==>
          HasFlag(e.attr.policy.usage, Pow2(b)) || Implied(e.attr.policy.usage, b))
  }

  /** The slot shows all the implied flags too. */
  ghost predicate ShowsImplied(slot: Slot, e: Entry) {
    forall b: nat {:trigger Pow2(b)} :: Implied(e.attr.policy.usage, b) ==> HasFlag(slot.attr.policy.usage, Pow2(b))
  }

  lemma ShownFlags(slot: Slot, e: Entry)
    requires Shows(slot, e)
    ensures ShowsFlags(slot, e)
    ensures slot.attr == ExtendAttributes(e.attr) ==> ShowsImplied(slot, e)
  {
    forall b: nat
      ensures HasFlag(ExtendUsage(e.attr.policy.usage), Pow2(b))
          <==> HasFlag(e.attr.policy.usage, Pow2(b)) || Implied(e.attr.policy.usage, b)
    {
      ExtendUsageBits(e.attr.policy.usage, b);
    }
    hide HasFlag, Pow2, ExtendUsage, Implied;
  }

  /** A loaded key is the key of its identifier in the map. */
  lemma LoadedKeyInView(sys: Sys, r: Ref)
    requires Inv(sys) && InStore(sys.store, r) && At(sys.store, r).state == Full
    ensures var e := View(sys.store, At(sys.store, r).attr.id);
            e.Some? && Shows(At(sys.store, r), e.value)
  {
    assert SlotOk(sys, r);
    if r.slice < VOLATILE_SLICES {
      IdRoundTrip(r.slice, r.index);
    }
  }

  /** What a lookup returns is the entry of the map. */
  ghost predicate ReturnsView(sys: Sys, t: Tid, id: KeyId, env: LoadEnv)
    requires Shape(sys.store)
  {
    var (o, ref, e) := (LookupStep(sys, t, id, env), GetAndLock(sys.store, id, env).ref, View(sys.store, id));
    && (o.status == Success ==>
          && e.Some? && ref.Some? && InStore(o.sys.store, ref.value)
          && At(o.sys.store, ref.value).state == Full && At(o.sys.store, ref.value).attr.id == id
          && Shows(At(o.sys.store, ref.value), e.value)
          && (FindInMemory(sys.store, id).None? ==> At(o.sys.store, ref.value).attr == ExtendAttributes(e.value.attr))
          && t in Holders(o.sys, ref.value))
    && (o.status == InvalidHandle ==> e == None)
    && (o.status == Success <==>
          e.Some? && (FindInMemory(sys.store, id).Some? || (HasRoom(sys) && env.readable && env.allocates)))
  }

  lemma LoadedLookupReturnsView(sys: Sys, t: Tid, id: KeyId, env: LoadEnv)
    requires Inv(sys) && ReadersBounded(sys) && FindInMemory(sys.store, id).Some?
    ensures ReturnsView(sys, t, id, env)
  {
    var found := FindInMemory(sys.store, id);
    LookupKeepsInv(sys, t, id, env);
    LookupLoadedKeepsInv(sys, t, id, env);
    LoadedKeyInView(sys, found.value);
    RegisterKeepsInv(sys, t, found.value);
  }

  /** Without a loaded key, a lookup goes on to load one unless the identifier is
      in no range. */
  lemma FreshIs(st: Store, id: KeyId, env: LoadEnv)
    requires Shape(st) && FindInMemory(st, id).None?
    ensures GetAndLock(st, id, env)
         == if IsVolatileId(id) || IsUserId(id) || IsBuiltinId(id) then LoadAndLock(st, id, env)
            else Outcome(InvalidHandle, None, st)
  {
    hide LoadAndLock;
  }

  /** Loading an identifier that is not in memory reads its entry of the map. */
  lemma LoadReadsView(sys: Sys, id: KeyId, env: LoadEnv)
    requires Inv(sys) && FindInMemory(sys.store, id).None?
    ensures var (load, e) := (LoadRecord(sys.store, id, env), View(sys.store, id));
            && (load.0 == DoesNotExist ==> e == None)
            && load.0 != InvalidHandle
            && (load.0 == Success ==> load.1.Some? && e == Some(Entry(load.1.value.attr, load.1.value.data)))
            && (e.Some? ==> (load.0 == Success <==> env.readable && env.allocates))
            && (e.Some? ==> IsUserId(id))
  {
    if IsVolatileId(id) {
      assert VolatileRef(sys.store, id).None? || !IsFullWith(At(sys.store, VolatileRef(sys.store, id).value), id);
      assert View(sys.store, id) == None;
    }
  }

  lemma FreshLookupReturnsView(sys: Sys, t: Tid, id: KeyId, env: LoadEnv)
    requires Inv(sys) && ReadersBounded(sys) && FindInMemory(sys.store, id).None?
    ensures ReturnsView(sys, t, id, env)
  {
    InvSlotsSane(sys);
    LoadReadsView(sys, id, env);
    LoadAndLockEffect(sys.store, id, env);
    FreshIs(sys.store, id, env);
    RoomExactly(sys);
    hide GetAndLock, LoadAndLock, ReserveCache, CacheHasRoom, HasRoom, LoadRecord, View, Inv;
  }

  /** Lookup returns the entry of the map or fails: for want of the key, of
      room, or of the means to read it. */
  lemma LookupReturnsView(sys: Sys, t: Tid, id: KeyId, env: LoadEnv)
    requires Inv(sys) && ReadersBounded(sys)
    ensures ReturnsView(sys, t, id, env)
  {
    hide ReturnsView;
    if FindInMemory(sys.store, id).Some? {
      LoadedLookupReturnsView(sys, t, id, env);
    } else {
      FreshLookupReturnsView(sys, t, id, env);
    }
  }

  /** With as many readers as a counter can count, a lookup of the key reports
      corruption and changes nothing. */
  lemma TooManyReaders(sys: Sys, t: Tid, id: KeyId, env: LoadEnv)
    requires Inv(sys) && FindInMemory(sys.store, id).Some?
    requires |Holders(sys, FindInMemory(sys.store, id).value)| >= SIZE_MAX
    ensures LookupStep(sys, t, id, env) == Result(CorruptionDetected, sys)
  {
    var r := FindInMemory(sys.store, id).value;
    assert SlotOk(sys, r);
    hide Inv, LoadAndLock;
  }

  /** What the key found shows: the entry, with no usage flag more than those that
      its own flags imply, and with all of these if it has just been loaded. */
  lemma LookupShowsFlags(sys: Sys, t: Tid, id: KeyId, env: LoadEnv)
    requires Inv(sys) && ReadersBounded(sys) && LookupStep(sys, t, id, env).status == Success
    ensures var (st', ref, e) := (LookupStep(sys, t, id, env).sys.store, GetAndLock(sys.store, id, env).ref, View(sys.store, id));
            && e.Some? && ref.Some? && InStore(st', ref.value)
            && ShowsFlags(At(st', ref.value), e.value)
            && (FindInMemory(sys.store, id).None? ==> ShowsImplied(At(st', ref.value), e.value))
  {
    LookupReturnsView(sys, t, id, env);
    var (st', ref) := (LookupStep(sys, t, id, env).sys.store, GetAndLock(sys.store, id, env).ref);
    ShownFlags(At(st', ref.value), View(sys.store, id).value);
    hide Inv, LookupStep, GetAndLock, ShowsFlags, ShowsImplied;
  }

  /** No entry of the map differs, apart from the given identifiers. */
  ghost predicate SameView(st: Store, st': Store, except: set<KeyId>) {
    forall id: KeyId :: id !in except ==> View(st', id) == View(st, id)
  }

  lemma SameViewFrom(st: Store, st': Store, r: Ref)
    requires Shape(st) && Shape(st') && st'.storage == st.storage
    requires forall q: Ref :: q.slice < VOLATILE_SLICES && q != r ==> VolatileKey(st', q) == VolatileKey(st, q)
    requires r.slice < VOLATILE_SLICES ==> VolatileKey(st', r) == VolatileKey(st, r)
    ensures SameView(st, st', {})
  {
  }

  /** A volatile key that comes or goes concerns one entry of the map. */
  lemma VolatileChange(st: Store, st': Store, r: Ref)
    requires st'.storage == st.storage && r.slice < VOLATILE_SLICES && r.index < SLOT_LIMIT
    requires forall q: Ref :: q != r ==> VolatileKey(st', q) == VolatileKey(st, q)
    requires VolatileKey(st, r).Some? ==> VolatileKey(st, r).value.attr.id == VolatileId(r.slice, r.index)
    requires VolatileKey(st', r).Some? ==> VolatileKey(st', r).value.attr.id == VolatileId(r.slice, r.index)
    ensures var id := VolatileId(r.slice, r.index);
            SameView(st, st', {id}) && View(st, id) == VolatileKey(st, r) && View(st', id) == VolatileKey(st', r)
  {
    IdRoundTrip(r.slice, r.index);
  }

  /** A record that comes or goes concerns one entry of the map. */
  lemma SameViewExcept(st: Store, st': Store, id: KeyId)
    requires forall q: Ref :: q.slice < VOLATILE_SLICES ==> VolatileKey(st', q) == VolatileKey(st, q)
    requires forall k: KeyId :: k != id ==> (k in st.storage <==> k in st'.storage)
    requires forall k: KeyId :: k != id && k in st.storage ==> st'.storage[k] == st.storage[k]
    ensures SameView(st, st', {id})
  {
  }

  lemma ElsewhereSameKeys(sys: Sys, sys': Sys, r: Ref)
    requires Inv(sys) && SameElsewhere(sys, sys', r)
    ensures forall q: Ref :: q != r ==> VolatileKey(sys'.store, q) == VolatileKey(sys.store, q)
  {
  }

  /** A change to one slot that neither completes nor destroys a volatile key
      is invisible in the map. */
  lemma OneSlotSameView(sys: Sys, sys': Sys, r: Ref)
    requires Inv(sys) && Shape(sys'.store) && SameElsewhere(sys, sys', r) && sys'.store.storage == sys.store.storage
    requires r.slice == CACHE_SLICE
             || (At(sys.store, r).state != Full && At(sys'.store, r).state != Full)
             || (At(sys.store, r).state == At(sys'.store, r).state == Full && SameKey(At(sys'.store, r), At(sys.store, r)))
    ensures SameView(sys.store, sys'.store, {})
  {
    SameViewFrom(sys.store, sys'.store, r);
  }

  lemma LookupKeepsView(sys: Sys, t: Tid, id: KeyId, env: LoadEnv)
    requires Inv(sys) && ReadersBounded(sys)
    ensures SameView(sys.store, LookupStep(sys, t, id, env).sys.store, {})
  {
    LookupKeepsInv(sys, t, id, env);
    var sys' := LookupStep(sys, t, id, env).sys;
    if FindInMemory(sys.store, id).Some? {
      LookupLoadedKeepsInv(sys, t, id, env);
    } else {
      InvSlotsSane(sys);
      ReserveCacheEffect(sys.store);
    }
    if sys' != sys {
      OneSlotSameView(sys, sys', TouchedByLookup(sys.store, id));
    }
    hide Inv, SlotOk, FreeListsOk;
  }

  lemma ReleaseKeepsView(sys: Sys, t: Tid, r: Ref)
    requires Inv(sys) && t in Holders(sys, r)
    ensures InStore(sys.store, r)
    ensures SameView(sys.store, ReleaseStep(sys, t, r).sys.store, {})
  {
    ReleaseKeepsInv(sys, t, r);
    HeldSlot(sys, t, r);
    UnregisterEffect(sys.store, r);
    OneSlotSameView(sys, ReleaseStep(sys, t, r).sys, r);
  }

  lemma PurgeKeepsView(sys: Sys, id: KeyId)
    requires Inv(sys) && ReadersBounded(sys)
    ensures SameView(sys.store, PurgeStep(sys, id).sys.store, {})
  {
    PurgeKeepsInv(sys, id);
    var o := PurgeStep(sys, id);
    if o.status == Success {
      var r := FindInMemory(sys.store, id).value;
      assert SlotOk(sys, r);
      OneSlotSameView(sys, o.sys, r);
    }
  }

  lemma FillingKeepsView(sys: Sys, r: Ref, sys': Sys)
    requires Inv(sys) && r in sys.fills
    requires Shape(sys'.store) && SameElsewhere(sys, sys', r) && sys'.store.storage == sys.store.storage
    requires At(sys'.store, r).state != Full
    ensures SameView(sys.store, sys'.store, {})
  {
    FillingSlot(sys, r);
    OneSlotSameView(sys, sys', r);
  }

  lemma StartKeepsView(sys: Sys, t: Tid, attr: Attributes, allocates: bool)
    requires Inv(sys) && ValidRequest(attr)
    ensures SameView(sys.store, StartStep(sys, t, attr, allocates).sys.store, {})
  {
    StartKeepsInv(sys, t, attr, allocates);
    var o := StartStep(sys, t, attr, allocates);
    if o.status == Success {
      var r := Reserve(sys.store, IsVolatileLifetime(attr.lifetime), allocates).ref.value;
      if IsVolatileLifetime(attr.lifetime) {
        AllocateEffect(sys, allocates);
        WithSliceSlots(sys.store, r.slice);
        SameViewFrom(sys.store, o.sys.store, r);
      } else {
        InvSlotsSane(sys);
        ReserveCacheEffect(sys.store);
        SameViewFrom(sys.store, o.sys.store, r);
      }
    }
    hide Inv, Started, SameView, AllocateVolatile, ReserveCache;
  }

  /** Looking up, evicting, reloading, purging, releasing, and the beginning,
      filling and abandoning of a creation never change the map. */
  lemma StepKeepsView(sys: Sys, t: Tid, a: Action, o: Result)
    requires Inv(sys) && Step(sys, t, a, o)
    requires !a.Finish? && !a.Destroy?
    ensures SameView(sys.store, o.sys.store, {})
  {
    match a
    case Lookup(id, env) => LookupKeepsView(sys, t, id, env);
    case Release(r) => ReleaseKeepsView(sys, t, r);
    case PurgeKey(id) => PurgeKeepsView(sys, id);
    case Start(attr, allocates) => StartKeepsView(sys, t, attr, allocates);
    case Fill(r, attr, material) =>
      FillKeepsInv(sys, r, attr, material);
      FillingKeepsView(sys, r, o.sys);
    case Abort(r) =>
      AbortKeepsInv(sys, r);
      FillingKeepsView(sys, r, o.sys);
  }

  /** Finishing the creation of a volatile key adds exactly that key. */
  lemma FinishVolatileView(sys: Sys, r: Ref, env: SaveEnv)
    requires Inv(sys) && r in sys.fills && sys.fills[r].written && r.slice < VOLATILE_SLICES
    ensures InStore(sys.store, r)
    ensures var (o, slot) := (FinishStep(sys, r, env), At(sys.store, r));
            && o.status == Success
            && View(sys.store, slot.attr.id) == None
            && View(o.sys.store, slot.attr.id) == Some(Entry(slot.attr, slot.material))
            && SameView(sys.store, o.sys.store, {slot.attr.id})
  {
    FinishKeepsInv(sys, r, env);
    assert SlotOk(sys, r);
    ElsewhereSameKeys(sys, FinishStep(sys, r, env).sys, r);
    VolatileChange(sys.store, FinishStep(sys, r, env).sys.store, r);
  }

  /** Material of a size that storage takes, and everything works while it is saved. */
  predicate CanSave(material: seq<byte>, env: SaveEnv) {
    0 < |material| <= MAX_STORAGE_SIZE && env.allocates && env.infoReadable && env.sets && env.confirms
  }

  lemma FinishPersistentView(sys: Sys, r: Ref, env: SaveEnv)
    requires Inv(sys) && r in sys.fills && sys.fills[r].written && r.slice >= VOLATILE_SLICES
    ensures InStore(sys.store, r)
    ensures var (o, slot) := (FinishStep(sys, r, env), At(sys.store, r));
            && (o.status == Success ==>
                  && View(sys.store, slot.attr.id) == None
                  && View(o.sys.store, slot.attr.id) == Some(Entry(slot.attr, slot.material)))
            && (o.status == Success <==> View(sys.store, slot.attr.id) == None && CanSave(slot.material, env))
            && (o.status != Success && (env.confirms || env.removes) ==> SameView(sys.store, o.sys.store, {}))
            && SameView(sys.store, o.sys.store, {slot.attr.id})
  {
    FinishKeepsInv(sys, r, env);
    assert InStore(sys.store, r) && SlotOk(sys, r);
    var (slot, sys') := (At(sys.store, r), FinishStep(sys, r, env).sys);
    assert IsStorable(slot.attr) && Representable(slot.attr);
    SaveEffect(sys.store.storage, slot.attr, slot.material, env);
    ElsewhereSameKeys(sys, sys', r);
    SameViewExcept(sys.store, sys'.store, slot.attr.id);
    if sys'.store.storage == sys.store.storage {
      SameViewFrom(sys.store, sys'.store, r);
    }
  }

  /** Finishing a creation adds exactly the new key, under an identifier that
      had none. A failed one changes nothing, unless a record was written that
      could neither be confirmed nor removed again. */
  lemma FinishAddsKey(sys: Sys, r: Ref, env: SaveEnv)
    requires Inv(sys) && r in sys.fills && sys.fills[r].written
    ensures InStore(sys.store, r)
    ensures var (o, slot) := (FinishStep(sys, r, env), At(sys.store, r));
            && SameView(sys.store, o.sys.store, {slot.attr.id})
            && (o.status == Success ==>
                  && View(sys.store, slot.attr.id) == None
                  && View(o.sys.store, slot.attr.id) == Some(Entry(slot.attr, slot.material)))
            && (o.status == Success <==>
                  r.slice < VOLATILE_SLICES || (View(sys.store, slot.attr.id) == None && CanSave(slot.material, env)))
            && (o.status != Success && (env.confirms || env.removes) ==> SameView(sys.store, o.sys.store, {}))
  {
    if r.slice < VOLATILE_SLICES {
      FinishVolatileView(sys, r, env);
    } else {
      FinishPersistentView(sys, r, env);
    }
  }

  lemma DestroyVolatileView(sys: Sys, t: Tid, r: Ref, env: RemoveEnv)
    requires Inv(sys) && t in Holders(sys, r) && r.slice < VOLATILE_SLICES
    requires InStore(sys.store, r) && At(sys.store, r).state == Full
    ensures var (o, id) := (DestroyStep(sys, t, r, env), At(sys.store, r).attr.id);
            o.status == Success && View(o.sys.store, id) == None && SameView(sys.store, o.sys.store, {id})
  {
    HeldSlot(sys, t, r);
    DestroyKeepsInv(sys, t, r, env);
    assert SlotOk(sys, r);
    DestroyEffect(sys.store, r, env);
    ElsewhereSameKeys(sys, DestroyStep(sys, t, r, env).sys, r);
    VolatileChange(sys.store, DestroyStep(sys, t, r, env).sys.store, r);
    hide Inv, SameView, SameElsewhere;
  }

  lemma DestroyPersistentView(sys: Sys, t: Tid, r: Ref, env: RemoveEnv)
    requires Inv(sys) && t in Holders(sys, r) && r.slice >= VOLATILE_SLICES
    requires InStore(sys.store, r) && At(sys.store, r).state == Full
    ensures var (o, id) := (DestroyStep(sys, t, r, env), At(sys.store, r).attr.id);
            && o.status == (if env.removes && env.confirms then Success else DataInvalid)
            && (o.status == Success ==> View(o.sys.store, id) == None)
            && (!env.removes ==> SameView(sys.store, o.sys.store, {}))
            && SameView(sys.store, o.sys.store, {id})
  {
    HeldSlot(sys, t, r);
    DestroyKeepsInv(sys, t, r, env);
    assert SlotOk(sys, r);
    DestroyEffect(sys.store, r, env);
    var sys' := DestroyStep(sys, t, r, env).sys;
    ElsewhereSameKeys(sys, sys', r);
    SameViewExcept(sys.store, sys'.store, At(sys.store, r).attr.id);
    if !env.removes {
      SameViewFrom(sys.store, sys'.store, r);
    }
    hide Inv, SameView, SameElsewhere, OneReaderLess;
  }

  lemma DestroyMarkedView(sys: Sys, t: Tid, r: Ref, env: RemoveEnv)
    requires Inv(sys) && t in Holders(sys, r)
    requires InStore(sys.store, r) && At(sys.store, r).state == PendingDeletion
    ensures var o := DestroyStep(sys, t, r, env);
            o.status == InvalidHandle && SameView(sys.store, o.sys.store, {})
  {
    HeldSlot(sys, t, r);
    DestroyKeepsInv(sys, t, r, env);
    DestroyEffect(sys.store, r, env);
    OneSlotSameView(sys, DestroyStep(sys, t, r, env).sys, r);
  }

  /** Destroying a key removes exactly that key from the map; other threads may
      go on reading their slot. It fails without effect if another thread has
      destroyed the key first, and may fail if the record cannot be removed. */
  lemma DestroyRemovesKey(sys: Sys, t: Tid, r: Ref, env: RemoveEnv)
    requires Inv(sys) && t in Holders(sys, r)
    ensures InStore(sys.store, r)
    ensures var (o, slot) := (DestroyStep(sys, t, r, env), At(sys.store, r));
            && (slot.state == PendingDeletion <==> o.status == InvalidHandle)
            && (o.status == InvalidHandle ==> SameView(sys.store, o.sys.store, {}))
            && (slot.state == Full ==>
                  && View(sys.store, slot.attr.id).Some?
                  && SameView(sys.store, o.sys.store, {slot.attr.id})
                  && (o.status == Success <==> r.slice < VOLATILE_SLICES || (env.removes && env.confirms))
                  && (o.status == Success ==> View(o.sys.store, slot.attr.id) == None)
                  && (o.status != Success && !env.removes ==> SameView(sys.store, o.sys.store, {})))
  {
    HeldSlot(sys, t, r);
    if At(sys.store, r).state == PendingDeletion {
      DestroyMarkedView(sys, t, r, env);
    } else {
      LoadedKeyInView(sys, r);
      if r.slice < VOLATILE_SLICES {
        DestroyVolatileView(sys, t, r, env);
      } else {
        DestroyPersistentView(sys, t, r, env);
      }
    }
  }

  // ------------------------------------------------------------------- runs

  datatype Event = Event(tid: Tid, action: Action, status: PsaStatus)

  ghost predicate StepAt(states: seq<Sys>, events: seq<Event>, i: nat)
    requires |states| == |events| + 1 && i < |events|
  {
    Step(states[i], events[i].tid, events[i].action, Result(events[i].status, states[i + 1]))
  }

  /** A finite run: any interleaving of sections of any number of threads. */
  ghost predicate Run(states: seq<Sys>, events: seq<Event>) {
    && |states| == |events| + 1
    && Initial(states[0])
    && forall i: nat :: i < |events| ==> StepAt(states, events, i)
  }

  lemma {:induction false} RunInv(states: seq<Sys>, events: seq<Event>, n: nat)
    requires Run(states, events) && n < |states|
    ensures Inv(states[n])
  {
    hide Inv, Step;
    if n == 0 {
      InitialInv(states[0]);
    } else {
      RunInv(states, events, n - 1);
      assert StepAt(states, events, n - 1);
      StepKeepsInv(states[n - 1], events[n - 1].tid, events[n - 1].action, Result(events[n - 1].status, states[n]));
    }
  }

  /** No run ever reports corruption. */
  lemma RunNeverCorrupt(states: seq<Sys>, events: seq<Event>, n: nat)
    requires Run(states, events) && n < |events|
    ensures events[n].status != CorruptionDetected
  {
    RunInv(states, events, n);
    assert StepAt(states, events, n);
    StepKeepsInv(states[n], events[n].tid, events[n].action, Result(events[n].status, states[n + 1]));
  }

  /** At every moment of every run the reader count of a slot is the number of
      its holders, a slot awaiting deletion has a holder, and the free list of
      every slice holds exactly its empty slots, each once. */
  lemma RunCounts(states: seq<Sys>, events: seq<Event>, n: nat, r: Ref)
    requires Run(states, events) && n < |states|
    requires Shape(states[n].store) && InStore(states[n].store, r)
    ensures var (slot, holders) := (At(states[n].store, r), Holders(states[n], r));
            && (slot.state == Full || slot.state == PendingDeletion ==> slot.word == |holders|)
            && (slot.state == PendingDeletion ==> |holders| > 0)
            && (slot.state == Empty || slot.state == Filling ==> holders == multiset{})
            && (slot.state == Filling <==> r in states[n].fills)
            && (r.slice < VOLATILE_SLICES ==>
                  var (slice, head) := (states[n].store.slices[r.slice], states[n].store.firstFree[r.slice]);
                  IsFreeList(slice, head, Walk(slice, head, |slice|)))
  {
    RunInv(states, events, n);
    var sys := states[n];
    assert SlotOk(sys, r);
    if r.slice < VOLATILE_SLICES {
      SliceLengthBound(r.slice);
      assert FreeListOk(sys.store.slices[r.slice], sys.store.firstFree[r.slice]);
      FreeListWalk(sys.store.slices[r.slice], sys.store.firstFree[r.slice]);
    }
  }

  lemma EventKeepsHeldKey(states: seq<Sys>, events: seq<Event>, k: nat, u: Tid, r: Ref)
    requires Run(states, events) && k < |events|
    requires u in Holders(states[k], r) && u in Holders(states[k + 1], r)
    ensures InStore(states[k].store, r) && InStore(states[k + 1].store, r)
    ensures SameKey(At(states[k + 1].store, r), At(states[k].store, r))
  {
    RunInv(states, events, k);
    assert StepAt(states, events, k);
    StepKeepsHeldKey(states[k], events[k].tid, events[k].action, Result(events[k].status, states[k + 1]), u, r);
  }

  lemma HeldInRun(states: seq<Sys>, events: seq<Event>, k: nat, u: Tid, r: Ref)
    requires Run(states, events) && k < |states| && u in Holders(states[k], r)
    ensures InStore(states[k].store, r)
  {
    RunInv(states, events, k);
    HeldSlot(states[k], u, r);
  }

  /** For as long as a thread stays registered to read a slot, the key in the
      slot does not change, whatever all the other threads do. */
  lemma {:induction false} RunKeepsHeldKey(states: seq<Sys>, events: seq<Event>, i: nat, j: nat, u: Tid, r: Ref)
    requires Run(states, events) && i <= j < |states|
    requires forall k :: i <= k <= j ==> u in Holders(states[k], r)
    ensures InStore(states[i].store, r) && InStore(states[j].store, r)
    ensures SameKey(At(states[j].store, r), At(states[i].store, r))
    decreases j - i
  {
    HeldInRun(states, events, j, u, r);
    if i < j {
      RunKeepsHeldKey(states, events, i, j - 1, u, r);
      EventKeepsHeldKey(states, events, j - 1, u, r);
    }
  }

  /** Two volatile keys that exist at the same time have different identifiers,
      each of which decodes to the slot of its key. */
  lemma RunVolatileIds(states: seq<Sys>, events: seq<Event>, n: nat, q: Ref, r: Ref)
    requires Run(states, events) && n < |states|
    requires q.slice < VOLATILE_SLICES && r.slice < VOLATILE_SLICES
    requires VolatileKey(states[n].store, q).Some? && VolatileKey(states[n].store, r).Some?
    ensures Ref(SliceOfId(At(states[n].store, r).attr.id), SlotOfId(At(states[n].store, r).attr.id)) == r
    ensures At(states[n].store, q).attr.id == At(states[n].store, r).attr.id <==> q == r
  {
    RunInv(states, events, n);
    assert SlotOk(states[n], q) && SlotOk(states[n], r);
    IdRoundTrip(q.slice, q.index);
    IdRoundTrip(r.slice, r.index);
  }

  /** At every moment of every run a loaded key is the map's entry for its
      identifier, and no other slot holds a loaded key of that identifier. */
  lemma RunLoadedKeys(states: seq<Sys>, events: seq<Event>, n: nat, q: Ref, r: Ref)
    requires Run(states, events) && n < |states|
    requires var st := states[n].store;
             Shape(st) && InStore(st, q) && InStore(st, r) && At(st, q).state == At(st, r).state == Full
    ensures var st := states[n].store;
            && View(st, At(st, r).attr.id).Some?
            && Shows(At(st, r), View(st, At(st, r).attr.id).value)
            && ShowsFlags(At(st, r), View(st, At(st, r).attr.id).value)
            && (At(st, q).attr.id == At(st, r).attr.id <==> q == r)
  {
    RunInv(states, events, n);
    LoadedKeyInView(states[n], r);
    FindExactly(states[n], At(states[n].store, r).attr.id, q);
    FindExactly(states[n], At(states[n].store, r).attr.id, r);
    ShownFlags(At(states[n].store, r), View(states[n].store, At(states[n].store, r).attr.id).value);
    hide ShowsFlags, Inv, View;
  }

  /** An action that finishes the creation of a key, or destroys it. */
  predicate ConcernsEntry(sys: Sys, a: Action, id: KeyId) {
    (a.Finish? || a.Destroy?) && InStore(sys.store, a.ref) && At(sys.store, a.ref).attr.id == id
  }

  lemma EventKeepsEntry(states: seq<Sys>, events: seq<Event>, k: nat, id: KeyId)
    requires Run(states, events) && k < |events| && !ConcernsEntry(states[k], events[k].action, id)
    ensures View(states[k + 1].store, id) == View(states[k].store, id)
  {
    RunInv(states, events, k);
    assert StepAt(states, events, k);
    var (sys, e) := (states[k], events[k]);
    if e.action.Finish? {
      FinishAddsKey(sys, e.action.ref, e.action.saveEnv);
    } else if e.action.Destroy? {
      DestroyRemovesKey(sys, e.tid, e.action.ref, e.action.removeEnv);
    } else {
      StepKeepsView(sys, e.tid, e.action, Result(e.status, states[k + 1]));
    }
  }

  /** Over any stretch of a run the entry of an identifier changes only if its
      creation is finished or it is destroyed in that stretch: evictions,
      reloads, purges and failed operations never change what the map holds. */
  lemma {:induction false} RunKeepsEntry(states: seq<Sys>, events: seq<Event>, i: nat, j: nat, id: KeyId)
    requires Run(states, events) && i <= j < |states|
    requires forall k :: i <= k < j ==> !ConcernsEntry(states[k], events[k].action, id)
    ensures View(states[j].store, id) == View(states[i].store, id)
    decreases j - i
  {
    if i < j {
      RunKeepsEntry(states, events, i, j - 1, id);
      EventKeepsEntry(states, events, j - 1, id);
    }
  }
}
