// The slots of the dynamic key store: slices of exponentially growing length,
// the free list threaded through each of them, and the identifiers that name
// the slots of volatile keys.
module KeySlots {
  import opened Bytes
  import opened KeyTypes
  import opened Options

  const VOLATILE_SLICES: nat := 22
  const CACHE_SLICE: nat := VOLATILE_SLICES
  const SLICE_COUNT: nat := VOLATILE_SLICES + 1
  const BASE_LENGTH: nat := 16
  const SLOT_LIMIT: nat := 0x200_0000
  const SIZE_MAX: nat := 0xFFFF_FFFF_FFFF_FFFF
  const FREE_SLOT_INDEX_NONE: nat := SIZE_MAX

  datatype SlotState = Empty | Filling | Full | PendingDeletion

  /** psa_key_slot_t. `word` is the union of the free list link of an empty
      slot and the reader count of an occupied one. */
  datatype Slot = Slot(state: SlotState, sliceIndex: nat, word: int, attr: Attributes, material: seq<byte>)

  const ZERO_SLOT: Slot := Slot(Empty, 0, 0, NO_ATTRIBUTES, [])

  /** The slices (empty until allocated), the free list heads of the volatile
      ones, and the records in persistent storage. */
  datatype Store = Store(slices: seq<seq<Slot>>, firstFree: seq<nat>, storage: map<KeyId, seq<byte>>)

  /** A pointer to a slot. */
  datatype Ref = Ref(slice: nat, index: nat)

  function SliceLength(slice: nat): (n: nat)
    ensures n >= BASE_LENGTH
  {
    BASE_LENGTH * Pow2(slice)
  }

  /** The largest slice exactly fills the slot index field of an identifier. */
  lemma {:induction false} SliceLengthBound(slice: nat)
    requires slice < VOLATILE_SLICES
    ensures SliceLength(slice) <= SLOT_LIMIT
    decreases VOLATILE_SLICES - slice
  {
    if slice + 1 < VOLATILE_SLICES {
      SliceLengthBound(slice + 1);
    } else {
      assert Pow2(7) == 128 && Pow2(14) == 128 * Pow2(7) && Pow2(21) == 128 * Pow2(14);
    }
  }

  /** Each slice is twice as long as the one before, and the longest has a slot for
      every value of the slot index field. */
  lemma SlicesDouble(slice: nat)
    ensures SliceLength(0) == BASE_LENGTH && SliceLength(slice + 1) == 2 * SliceLength(slice)
    ensures SliceLength(VOLATILE_SLICES - 1) == SLOT_LIMIT
  {
    assert Pow2(7) == 128 && Pow2(14) == 128 * Pow2(7) && Pow2(21) == 128 * Pow2(14);
  }

  // ------------------------------------------------- volatile identifiers

  lemma IdFieldsDisjoint(slice: nat, index: nat)
    requires slice < VOLATILE_SLICES && index < SLOT_LIMIT
    ensures BitOr(BitOr(VENDOR_MIN, slice * SLOT_LIMIT), index) == VENDOR_MIN + slice * SLOT_LIMIT + index
  {
    assert Pow2(5) == 32 && Pow2(10) == 32 * Pow2(5) && Pow2(15) == 32 * Pow2(10) && Pow2(20) == 32 * Pow2(15);
    assert Pow2(25) == 32 * Pow2(20) && Pow2(30) == 32 * Pow2(25);
    BitOrDisjoint(1, slice * SLOT_LIMIT, 30);
    BitOrDisjoint(32 + slice, index, 25);
  }

  /** volatile_key_id_of_index. The three fields do not overlap, so their bitwise
      or is their sum. */
  function VolatileId(slice: nat, index: nat): (id: KeyId)
    requires slice < VOLATILE_SLICES && index < SLOT_LIMIT
    ensures id == VENDOR_MIN + slice * SLOT_LIMIT + index
  {
    IdFieldsDisjoint(slice, index);
    BitOr(BitOr(VENDOR_MIN, slice * SLOT_LIMIT), index)
  }

  /** slice_index_of_volatile_key_id */
  function SliceOfId(id: KeyId): nat {
    id / SLOT_LIMIT % 32
  }

  /** slot_index_of_volatile_key_id */
  function SlotOfId(id: KeyId): nat {
    id % SLOT_LIMIT
  }

  lemma IdRoundTrip(slice: nat, index: nat)
    requires slice < VOLATILE_SLICES && index < SLOT_LIMIT
    ensures var id := VolatileId(slice, index);
            IsVolatileId(id) && SliceOfId(id) == slice && SlotOfId(id) == index
  {
    var id := VolatileId(slice, index);
    assert id / SLOT_LIMIT == 32 + slice;
  }

  // --------------------------------------------------------- slot access

  predicate Shape(st: Store) {
    && |st.slices| == SLICE_COUNT
    && |st.firstFree| == VOLATILE_SLICES
    && forall s: nat :: s < VOLATILE_SLICES ==> |st.slices[s]| == 0 || |st.slices[s]| == SliceLength(s)
  }

  predicate InStore(st: Store, r: Ref) {
    r.slice < |st.slices| && r.index < |st.slices[r.slice]|
  }

  function At(st: Store, r: Ref): Slot
    requires InStore(st, r)
  {
    st.slices[r.slice][r.index]
  }

  function Put(st: Store, r: Ref, slot: Slot): (st': Store)
    requires InStore(st, r)
    ensures |st'.slices| == |st.slices| && st'.firstFree == st.firstFree && st'.storage == st.storage
    ensures forall s: nat :: s < |st.slices| ==> |st'.slices[s]| == |st.slices[s]|
    ensures forall q: Ref :: InStore(st', q) <==> InStore(st, q)
    ensures forall q: Ref :: InStore(st, q) ==> At(st', q) == if q == r then slot else At(st, q)
  {
    st.(slices := st.slices[r.slice := st.slices[r.slice][r.index := slot]])
  }

  // ------------------------------------------------------------ free lists

  /** The index that follows an empty slot in the free list: a link of 0 means
      the next slot, so that zeroed memory is a list of all the slots. An index
      outside the slice, on either side once it is a size_t, ends the list. */
  function NextFree(slice: seq<Slot>, i: nat): nat
    requires i < |slice|
  {
    var next := i + 1 + slice[i].word;
    if 0 <= next < |slice| then next else FREE_SLOT_INDEX_NONE
  }

  ghost predicate NoDuplicates(list: seq<nat>) {
    forall j, k :: 0 <= j < k < |list| ==> list[j] != list[k]
  }

  /** The list holds exactly the indices of the empty slots, each once. */
  ghost predicate ListsEmpties(slice: seq<Slot>, list: seq<nat>) {
    && NoDuplicates(list)
    && (forall i: nat :: i in list <==> i < |slice| && slice[i].state == Empty)
  }

  function HeadOf(list: seq<nat>): nat {
    if list == [] then FREE_SLOT_INDEX_NONE else list[0]
  }

  /** Following the links from head visits the list and then stops. */
  ghost predicate Linked(slice: seq<Slot>, head: nat, list: seq<nat>) {
    && head == HeadOf(list)
    && (forall k: nat :: k < |list| ==> list[k] < |slice| && NextFree(slice, list[k]) == HeadOf(list[k + 1..]))
  }

  ghost predicate IsFreeList(slice: seq<Slot>, head: nat, list: seq<nat>) {
    ListsEmpties(slice, list) && Linked(slice, head, list)
  }

  /** A slice that has not been allocated has head 0; an allocated one has a
      free list of its empty slots. */
  ghost predicate FreeListOk(slice: seq<Slot>, head: nat) {
    if slice == [] then head == 0
    else exists list: seq<nat> :: IsFreeList(slice, head, list)
  }

  ghost predicate FreeListsOk(st: Store)
    requires Shape(st)
  {
    forall s: nat :: s < VOLATILE_SLICES ==> FreeListOk(st.slices[s], st.firstFree[s])
  }

  /** What an allocator sees that follows the links from a head, giving up
      after `fuel` slots. */
  function Walk(slice: seq<Slot>, head: nat, fuel: nat): seq<nat>
    decreases fuel
  {
    if fuel == 0 || head >= |slice| then []
    else [head] + Walk(slice, NextFree(slice, head), fuel - 1)
  }

  lemma {:induction false} WalkFollows(slice: seq<Slot>, head: nat, list: seq<nat>, k: nat, fuel: nat)
    requires Linked(slice, head, list) && |slice| <= SIZE_MAX
    requires k <= |list| && fuel >= |list| - k
    ensures Walk(slice, HeadOf(list[k..]), fuel) == list[k..]
    decreases |list| - k
  {
    if k < |list| {
      assert list[k..][0] == list[k];
      WalkFollows(slice, head, list, k + 1, fuel - 1);
      assert list[k..] == [list[k]] + list[k + 1..];
    }
  }

  lemma {:induction false} DistinctBelow(list: seq<nat>, n: nat)
    requires NoDuplicates(list) && forall i: nat :: i in list ==> i < n
    ensures |list| <= n
  {
    if list == [] {
      return;
    }
    assert list[0] in list;
    if n - 1 in list {
      var k :| 0 <= k < |list| && list[k] == n - 1;
      var rest := list[..k] + list[k + 1..];
      forall i: nat | i in rest
        ensures i < n - 1
      {
        var j :| 0 <= j < |rest| && rest[j] == i;
        assert list[if j < k then j else j + 1] == i;
        assert i in list;
      }
      DistinctBelow(rest, n - 1);
    } else {
      DistinctBelow(list, n - 1);
    }
  }

  /** The free list is acyclic: following it from the head terminates within
      as many steps as there are slots, and has then visited exactly the empty
      slots, each once. */
  lemma FreeListWalk(slice: seq<Slot>, head: nat)
    requires slice != [] && |slice| <= SLOT_LIMIT && FreeListOk(slice, head)
    ensures IsFreeList(slice, head, Walk(slice, head, |slice|))
    ensures forall fuel: nat :: fuel >= |slice| ==> Walk(slice, head, fuel) == Walk(slice, head, |slice|)
  {
    var list :| IsFreeList(slice, head, list);
    DistinctBelow(list, |slice|);
    forall fuel: nat | fuel >= |slice|
      ensures Walk(slice, head, fuel) == list
    {
      WalkFollows(slice, head, list, 0, fuel);
      assert list[0..] == list;
    }
  }

  /** A freshly allocated, zeroed slice is ready for use. */
  lemma FreshSliceList(n: nat)
    requires n > 0
    ensures IsFreeList(seq(n, _ => ZERO_SLOT), 0, seq(n, i => i))
  {
    var slice, list := seq(n, _ => ZERO_SLOT), seq(n, i => i);
    forall i: nat
      ensures i in list <==> i < n
    {
      if i < n {
        assert list[i] == i;
      }
    }
    forall k: nat | k < |list|
      ensures list[k] < |slice| && NextFree(slice, list[k]) == HeadOf(list[k + 1..])
    {
    }
  }

  /** Taking the first free slot leaves the rest of the list. */
  lemma PopFreeList(slice: seq<Slot>, list: seq<nat>, slot: Slot)
    requires list != [] && IsFreeList(slice, list[0], list) && slot.state != Empty
    ensures list[0] < |slice|
    ensures IsFreeList(slice[list[0] := slot], NextFree(slice, list[0]), list[1..])
  {
    var slice', rest := slice[list[0] := slot], list[1..];
    forall i: nat
      ensures i in rest <==> i < |slice'| && slice'[i].state == Empty
    {
      assert i in list <==> i == list[0] || i in rest;
      if i in rest {
        var k :| 0 <= k < |rest| && rest[k] == i;
        assert list[k + 1] == i;
      }
    }
    forall k: nat | k < |rest|
      ensures rest[k] < |slice'| && NextFree(slice', rest[k]) == HeadOf(rest[k + 1..])
    {
      assert rest[k] == list[k + 1] && rest[k + 1..] == list[k + 2..];
    }
  }

  /** Linking a newly emptied slot in front of the list makes it the head. */
  lemma PushFreeList(slice: seq<Slot>, head: nat, list: seq<nat>, i: nat, slot: Slot)
    requires |slice| <= SLOT_LIMIT && IsFreeList(slice, head, list)
    requires i < |slice| && slice[i].state != Empty
    requires slot.state == Empty && slot.word == (if head >= |slice| then |slice| else head) - i - 1
    ensures IsFreeList(slice[i := slot], i, [i] + list)
  {
    PushListsEmpties(slice, list, i, slot);
    PushLinked(slice, head, list, i, slot);
  }

  lemma PushListsEmpties(slice: seq<Slot>, list: seq<nat>, i: nat, slot: Slot)
    requires ListsEmpties(slice, list)
    requires i < |slice| && slice[i].state != Empty && slot.state == Empty
    ensures ListsEmpties(slice[i := slot], [i] + list)
  {
    var slice', list' := slice[i := slot], [i] + list;
    assert i !in list;
    forall j: nat
      ensures j in list' <==> j < |slice'| && slice'[j].state == Empty
    {
      assert j in list' <==> j == i || j in list;
    }
  }

  lemma PushLinked(slice: seq<Slot>, head: nat, list: seq<nat>, i: nat, slot: Slot)
    requires |slice| <= SLOT_LIMIT && Linked(slice, head, list) && i < |slice| && i !in list
    requires slot.word == (if head >= |slice| then |slice| else head) - i - 1
    ensures Linked(slice[i := slot], i, [i] + list)
  {
    var slice', list' := slice[i := slot], [i] + list;
    forall k: nat | k < |list'|
      ensures list'[k] < |slice'| && NextFree(slice', list'[k]) == HeadOf(list'[k + 1..])
    {
      if k == 0 {
        assert list'[1..] == list;
        assert list != [] ==> list[0] < |slice|;
      } else {
        assert list'[k] == list[k - 1] && list'[k + 1..] == list[k..];
        assert list[k - 1] in list;
      }
    }
  }

  /** Changes that neither empty nor occupy a slot keep the list. */
  lemma KeepFreeList(slice: seq<Slot>, head: nat, list: seq<nat>, i: nat, slot: Slot)
    requires IsFreeList(slice, head, list)
    requires i < |slice| && slice[i].state != Empty && slot.state != Empty
    ensures IsFreeList(slice[i := slot], head, list)
  {
    var slice' := slice[i := slot];
    forall k: nat | k < |list|
      ensures list[k] < |slice'| && NextFree(slice', list[k]) == HeadOf(list[k + 1..])
    {
      assert list[k] in list;
    }
  }
}
