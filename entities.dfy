/** Model of src/entities.rs: a fixed-capacity memory arena that hands out
    (index, version) handles. The arena keeps a parallel vector of handles, one
    per slot, whose `isDirty` flag marks a freed slot, and a stack of freed
    indices that `insert` reuses before growing. */
module Entities {
  import opened Wrappers

  /** A handle: the slot index (`value`), the version stamped when the slot was
      last filled, and the freed flag. */
  datatype MemoryHandle = MemoryHandle(value: nat, version: nat, isDirty: bool)

  /** Handle equality (`PartialEq`): index and version only, never the freed flag. */
  predicate SameHandle(a: MemoryHandle, b: MemoryHandle)
    ensures SameHandle(a, b) <==> a.(isDirty := false) == b.(isDirty := false)
  {
    a.value == b.value && a.version == b.version
  }

  /** What `Vec::with_capacity` reserved: a bound on the length, or no bound at
      all when the element type has size zero (the vector then reports
      `usize::MAX`, a length no arena reaches). */
  datatype Capacity = Bounded(limit: nat) | Unbounded

  /** `capacity() > len()`: the check in `insert` lets the value in. */
  predicate HasRoom(c: Capacity, len: nat) {
    c.Unbounded? || len < c.limit
  }

  /** `len() <= capacity()`. */
  predicate Fits(c: Capacity, len: nat) {
    c.Unbounded? || len <= c.limit
  }

  /** The arena's fields as one value; `capacity` is what `Vec::with_capacity` reserved. */
  datatype ArenaState<T> = ArenaState(
    data: seq<T>,
    handles: seq<MemoryHandle>,
    freeHandles: seq<nat>,
    versionCount: nat,
    capacity: Capacity)

  /** What every reachable arena satisfies: storage never exceeds the reserved
      capacity, `handles` grows in lockstep with `data` and names its own slot,
      versions are distinct and issued by the counter, and every freed index
      points at a recorded handle. */
  ghost predicate Consistent<T>(s: ArenaState<T>) {
    && Fits(s.capacity, |s.data|)
    && |s.handles| == |s.data|
    && (forall i :: 0 <= i < |s.handles| ==> s.handles[i].value == i)
    && (forall i :: 0 <= i < |s.handles| ==> 1 <= s.handles[i].version <= s.versionCount)
    && (forall i, j :: 0 <= i < j < |s.handles| ==> s.handles[i].version != s.handles[j].version)
    && (forall k :: 0 <= k < |s.freeHandles| ==> s.freeHandles[k] < |s.handles|)
  }

  /** `Arena::alloc(nb_items)` for an element type of `elementSize` bytes: an
      empty arena with room for `nbItems` values, or with no limit at all when
      the element type has size zero. */
  function EmptyArena<T>(nbItems: nat, elementSize: nat): (s: ArenaState<T>)
    ensures Consistent(s)
    ensures s.data == [] && s.handles == [] && s.freeHandles == [] && s.versionCount == 0
    ensures elementSize > 0 ==> s.capacity == Bounded(nbItems)
    ensures elementSize == 0 ==> forall n: nat :: HasRoom(s.capacity, n)
  {
    ArenaState([], [], [], 0, if elementSize == 0 then Unbounded else Bounded(nbItems))
  }

  /** The capacity `size_alloc(size)` reserves: `size` decimal megabytes divided
      by the element size, rounded down. */
  function SizeAllocCapacity(size: nat, elementSize: nat): (c: nat)
    requires elementSize > 0  // `size_of::<T>() == 0` makes the division panic
    ensures c * elementSize <= size * 1000000 < (c + 1) * elementSize
    ensures elementSize == 1 ==> c == size * 1000000
  {
    size * 1000000 / elementSize
  }

  /** `insert`: bumps the version counter; with no freed index it appends, otherwise
      it pops the most recently freed index and refills that slot. */
  function Inserted<T>(s: ArenaState<T>, value: T): (r: (ArenaState<T>, MemoryHandle))
    requires Consistent(s)
    requires HasRoom(s.capacity, |s.data|)  // the source panics here, even when freed slots exist
    ensures Consistent(r.0) && r.0.capacity == s.capacity
    ensures r.0.versionCount == s.versionCount + 1 && r.1.version == r.0.versionCount
    ensures !r.1.isDirty && r.1.value < |r.0.data| && r.0.handles[r.1.value] == r.1
    ensures r.0.data[r.1.value] == value
    ensures forall i :: 0 <= i < |s.handles| ==> !SameHandle(s.handles[i], r.1)
    ensures s.freeHandles == [] ==>
      && r.1.value == |s.data|
      && r.0.data == s.data + [value]
      && r.0.handles == s.handles + [r.1]
      && r.0.freeHandles == []
    ensures s.freeHandles != [] ==>
      && r.1.value == s.freeHandles[|s.freeHandles| - 1]
      && r.0.data == s.data[r.1.value := value]
      && r.0.handles == s.handles[r.1.value := r.1]
      && r.0.freeHandles == s.freeHandles[..|s.freeHandles| - 1]
  {
    var version := s.versionCount + 1;
    if s.freeHandles == [] then
      var handle := MemoryHandle(|s.data|, version, false);
      (s.(data := s.data + [value], handles := s.handles + [handle], versionCount := version), handle)
    else
      var index := s.freeHandles[|s.freeHandles| - 1];
      var handle := s.handles[index].(version := version, isDirty := false);
      (s.(data := s.data[handle.value := value],
          handles := s.handles[index := handle],
          freeHandles := s.freeHandles[..|s.freeHandles| - 1],
          versionCount := version),
       handle)
  }

  /** `is_dirty`: some recorded handle equal to `h` (by index and version) is freed. */
  ghost predicate HasDirtyMatch<T>(s: ArenaState<T>, h: MemoryHandle) {
    exists i :: 0 <= i < |s.handles| && SameHandle(s.handles[i], h) && s.handles[i].isDirty
  }

  /** `get`/`get_mut` as a fallible lookup: `None` exactly where the source panics
      (a matching freed handle, or an index past the end of the data). */
  ghost function Lookup<T>(s: ArenaState<T>, h: MemoryHandle): (r: Option<T>)
    ensures r.Some? <==> !HasDirtyMatch(s, h) && h.value < |s.data|
    ensures r.Some? ==> r.value == s.data[h.value]
  {
    if HasDirtyMatch(s, h) || h.value >= |s.data| then None else Some(s.data[h.value])
  }

  /** Some recorded handle equals `h` (the scan `remove` performs; it panics otherwise). */
  ghost predicate Recorded<T>(s: ArenaState<T>, h: MemoryHandle) {
    exists i :: 0 <= i < |s.handles| && SameHandle(s.handles[i], h)
  }

  /** The handle recorded for slot `h.value` carries `h`'s version. */
  predicate RecordedAtSlot<T>(s: ArenaState<T>, h: MemoryHandle) {
    h.value < |s.handles| && s.handles[h.value].version == h.version
  }

  /** In a consistent arena the only handle that can equal `h` sits at slot `h.value`. */
  lemma RecordedAt<T>(s: ArenaState<T>, h: MemoryHandle)
    requires Consistent(s)
    ensures Recorded(s, h) <==> RecordedAtSlot(s, h)
  {
    if h.value < |s.handles| && s.handles[h.value].version == h.version {
      assert SameHandle(s.handles[h.value], h);
    }
  }

  /** `remove`: marks the matching handle freed and pushes its index. */
  ghost function Removed<T>(s: ArenaState<T>, h: MemoryHandle): (r: ArenaState<T>)
    requires Consistent(s) && RecordedAtSlot(s, h)
    ensures Consistent(r)
    ensures r.handles == s.handles[h.value := s.handles[h.value].(isDirty := true)]
    ensures r.handles[h.value].isDirty
    ensures r.freeHandles == s.freeHandles + [h.value]
    ensures r.data == s.data && r.versionCount == s.versionCount && r.capacity == s.capacity
  {
    var index := h.value;
    s.(handles := s.handles[index := s.handles[index].(isDirty := true)],
       freeHandles := s.freeHandles + [index])
  }

  /** Every handle with its freed flag set. */
  function AllDirty(hs: seq<MemoryHandle>): (r: seq<MemoryHandle>)
    ensures |r| == |hs|
    ensures forall i :: 0 <= i < |hs| ==> r[i] == hs[i].(isDirty := true)
  {
    seq(|hs|, i requires 0 <= i < |hs| => hs[i].(isDirty := true))
  }

  /** Number of live (not freed) handles. */
  function LiveCount(hs: seq<MemoryHandle>): (n: nat)
    ensures n <= |hs|
  {
    if hs == [] then 0
    else LiveCount(hs[..|hs| - 1]) + (if hs[|hs| - 1].isDirty then 0 else 1)
  }

  /** Slot indices of the live handles, in slot order. */
  function LiveSlots(hs: seq<MemoryHandle>): (r: seq<nat>)
    ensures forall k :: 0 <= k < |r| ==> r[k] < |hs|
  {
    if hs == [] then []
    else LiveSlots(hs[..|hs| - 1]) + (if hs[|hs| - 1].isDirty then [] else [|hs| - 1])
  }

  /** The values `iter` yields: the data under each live handle, in slot order. */
  function LiveDataOf<T>(hs: seq<MemoryHandle>, data: seq<T>): seq<T>
    requires forall i :: 0 <= i < |hs| ==> hs[i].value < |data|
  {
    if hs == [] then []
    else
      LiveDataOf(hs[..|hs| - 1], data)
        + (if hs[|hs| - 1].isDirty then [] else [data[hs[|hs| - 1].value]])
  }

  ghost function LiveData<T>(s: ArenaState<T>): seq<T>
    requires Consistent(s)
  {
    LiveDataOf(s.handles, s.data)
  }

  /** 0, 1, ..., n - 1. */
  function Positions(n: nat): (r: seq<nat>)
    ensures |r| == n && forall k :: 0 <= k < n ==> r[k] == k
  {
    seq(n, k requires 0 <= k < n => k)
  }

  lemma PositionsStep(n: nat)
    ensures Positions(n + 1) == Positions(n) + [n]
  {
    assert forall k :: 0 <= k < n + 1 ==> Positions(n + 1)[k] == (Positions(n) + [n])[k];
  }

  /** `flush` as written: marks every handle freed, but pushes the position of each
      live handle among the live handles (0, 1, ...), not its slot index. */
  ghost function Flushed<T>(s: ArenaState<T>): (r: ArenaState<T>)
    requires Consistent(s)
    ensures Consistent(r)
  {
    s.(handles := AllDirty(s.handles),
       freeHandles := s.freeHandles + Positions(LiveCount(s.handles)))
  }

  /** `flush` as its design intends: marks every handle freed and pushes the slot
      index of each handle that was live. */
  ghost function FlushedSlots<T>(s: ArenaState<T>): (r: ArenaState<T>)
    requires Consistent(s)
    ensures Consistent(r)
  {
    s.(handles := AllDirty(s.handles),
       freeHandles := s.freeHandles + LiveSlots(s.handles))
  }

  /** The free list holds each freed slot exactly once and no live slot. */
  ghost predicate FreeListExact<T>(s: ArenaState<T>) {
    forall i :: 0 <= i < |s.handles| ==>
      multiset(s.freeHandles)[i] == (if s.handles[i].isDirty then 1 else 0)
  }

  /** The loop of `flush` as written: every handle is marked freed, and the
      live ones are numbered 0, 1, ... in the order met. */
  method FlushPass(original: seq<MemoryHandle>) returns (hs: seq<MemoryHandle>, freeIndexes: seq<nat>)
    ensures hs == AllDirty(original)
    ensures freeIndexes == Positions(LiveCount(original))
  {
    hs := original;
    freeIndexes := [];
    var position := 0;
    var i := 0;
    while i < |hs|
      invariant 0 <= i <= |hs| == |original|
      invariant forall j :: 0 <= j < i ==> hs[j] == original[j].(isDirty := true)
      invariant forall j :: i <= j < |hs| ==> hs[j] == original[j]
      invariant position == LiveCount(original[..i])
      invariant freeIndexes == Positions(position)
    {
      assert original[..i + 1][..i] == original[..i];
      if !hs[i].isDirty {
        hs := hs[i := hs[i].(isDirty := true)];
        PositionsStep(position);
        freeIndexes := freeIndexes + [position];
        position := position + 1;
      }
      i := i + 1;
    }
    assert original[..i] == original;
  }

  /** The same loop pushing each live handle's slot index instead. */
  method FlushSlotsPass(original: seq<MemoryHandle>) returns (hs: seq<MemoryHandle>, freeIndexes: seq<nat>)
    ensures hs == AllDirty(original)
    ensures freeIndexes == LiveSlots(original)
  {
    hs := original;
    freeIndexes := [];
    var i := 0;
    while i < |hs|
      invariant 0 <= i <= |hs| == |original|
      invariant forall j :: 0 <= j < i ==> hs[j] == original[j].(isDirty := true)
      invariant forall j :: i <= j < |hs| ==> hs[j] == original[j]
      invariant freeIndexes == LiveSlots(original[..i])
    {
      assert original[..i + 1][..i] == original[..i];
      if !hs[i].isDirty {
        hs := hs[i := hs[i].(isDirty := true)];
        freeIndexes := freeIndexes + [i];
      }
      i := i + 1;
    }
    assert original[..i] == original;
  }

  class Arena<T> {
    var data: seq<T>
    var handles: seq<MemoryHandle>
    var freeHandles: seq<nat>
    var versionCount: nat
    const capacity: Capacity

    function State(): ArenaState<T>
      reads this
    {
      ArenaState(data, handles, freeHandles, versionCount, capacity)
    }

    ghost predicate Valid()
      reads this
    {
      Consistent(State())
    }

    constructor Alloc(nbItems: nat, elementSize: nat)
      ensures Valid() && State() == EmptyArena(nbItems, elementSize)
    {
      data, handles, freeHandles, versionCount := [], [], [], 0;
      capacity := if elementSize == 0 then Unbounded else Bounded(nbItems);
    }

    constructor SizeAlloc(size: nat, elementSize: nat)
      requires elementSize > 0
      ensures Valid() && State() == EmptyArena(SizeAllocCapacity(size, elementSize), elementSize)
    {
      data, handles, freeHandles, versionCount := [], [], [], 0;
      capacity := Bounded(size * 1000000 / elementSize);
    }

    method Insert(value: T) returns (handle: MemoryHandle)
      requires Valid()
      requires HasRoom(capacity, |data|)
      modifies this
      ensures Valid()
      ensures (State(), handle) == Inserted(old(State()), value)
    {
      ghost var expected := Inserted(State(), value);
      versionCount := versionCount + 1;
      if |freeHandles| == 0 {
        data := data + [value];
        handle := MemoryHandle(|data| - 1, versionCount, false);
        handles := handles + [handle];
      } else {
        var index := freeHandles[|freeHandles| - 1];
        freeHandles := freeHandles[..|freeHandles| - 1];
        handle := handles[index].(version := versionCount, isDirty := false);
        handles := handles[index := handle];
        data := data[handle.value := value];
      }
      assert (State(), handle) == expected;
    }

    /** `is_dirty`: a linear scan for an equal handle that is freed. */
    method IsDirty(handle: MemoryHandle) returns (dirty: bool)
      ensures dirty == HasDirtyMatch(State(), handle)
    {
      dirty := false;
      var i := 0;
      while i < |handles| && !dirty
        invariant 0 <= i <= |handles|
        invariant dirty <==> exists j :: 0 <= j < i && SameHandle(handles[j], handle) && handles[j].isDirty
      {
        dirty := SameHandle(handles[i], handle) && handles[i].isDirty;
        i := i + 1;
      }
    }

    method Get(handle: MemoryHandle) returns (value: T)
      requires Lookup(State(), handle).Some?  // "This value was freed." / "No block found"
      ensures Lookup(State(), handle) == Some(value)
    {
      var dirty := IsDirty(handle);
      assert !dirty;
      value := data[handle.value];
    }

    /** `get_mut` followed by a write of `value` through the returned reference. */
    method GetMut(handle: MemoryHandle, value: T)
      requires Valid()
      requires Lookup(State(), handle).Some?
      modifies this
      ensures Valid()
      ensures State() == old(State()).(data := old(data)[handle.value := value])
    {
      var dirty := IsDirty(handle);
      assert !dirty;
      data := data[handle.value := value];
    }

    method Remove(handle: MemoryHandle)
      requires Valid() && Recorded(State(), handle)  // "Handle not found."
      modifies this
      ensures Valid()
      ensures State() == Removed(old(State()), handle)
    {
      RecordedAt(State(), handle);
      var index := 0;
      while !SameHandle(handles[index], handle)
        invariant 0 <= index <= handle.value < |handles|
        decreases handle.value - index
      {
        index := index + 1;
      }
      handles := handles[index := handles[index].(isDirty := true)];
      freeHandles := freeHandles + [index];
    }

    /** `flush` as written (see `Flushed`). */
    method Flush()
      requires Valid()
      modifies this
      ensures Valid()
      ensures State() == Flushed(old(State()))
    {
      var hs, freeIndexes := FlushPass(handles);
      handles := hs;
      freeHandles := freeHandles + freeIndexes;
    }

    /** `flush` with the slot index pushed for each live handle (see `FlushedSlots`). */
    method FlushSlots()
      requires Valid()
      modifies this
      ensures Valid()
      ensures State() == FlushedSlots(old(State()))
    {
      var hs, freeIndexes := FlushSlotsPass(handles);
      handles := hs;
      freeHandles := freeHandles + freeIndexes;
    }

    /** `iter`: the data under every live handle, in slot order; changes nothing. */
    method Iter() returns (items: seq<T>)
      requires Valid()
      ensures items == LiveData(State())
    {
      items := [];
      var i := 0;
      while i < |handles|
        invariant 0 <= i <= |handles|
        invariant items == LiveDataOf(handles[..i], data)
      {
        assert handles[..i + 1][..i] == handles[..i];
        if !handles[i].isDirty {
          items := items + [data[handles[i].value]];
        }
        i := i + 1;
      }
      assert handles[..i] == handles;
    }
  }

  // ---------------------------------------------------------------------------
  // Properties

  /** A freed-then-reused slot does not reject the old handle: `is_dirty` only
      looks for a freed handle with the same version, and the slot's handle now
      carries the new version, so the stale handle reads the new value. */
  lemma StaleHandleReadsReusedSlot<T>(s: ArenaState<T>, h: MemoryHandle, value: T)
    requires Consistent(s) && s.freeHandles == [] && HasRoom(s.capacity, |s.data|)
    requires Lookup(s, h).Some? && RecordedAtSlot(s, h)
    ensures Inserted(Removed(s, h), value).1.value == h.value
    ensures Lookup(Inserted(Removed(s, h), value).0, h) == Some(value)
  {
    var r := Removed(s, h);
    var (t, h2) := Inserted(r, value);
    assert h2.value == h.value;
  }

  /** After `flush`, `get` panics on every handle the arena records. */
  lemma LookupAfterFlush<T>(s: ArenaState<T>, h: MemoryHandle)
    requires Consistent(s) && Recorded(s, h)
    ensures Lookup(Flushed(s), h) == None
  {
    var i :| 0 <= i < |s.handles| && SameHandle(s.handles[i], h);
    assert SameHandle(Flushed(s).handles[i], h) && Flushed(s).handles[i].isDirty;
  }

  lemma {:induction false} LiveDataOfAllDirty<T>(hs: seq<MemoryHandle>, data: seq<T>)
    requires forall i :: 0 <= i < |hs| ==> hs[i].value < |data|
    ensures LiveDataOf(AllDirty(hs), data) == []
  {
    if hs != [] {
      var last := |hs| - 1;
      assert AllDirty(hs)[..last] == AllDirty(hs[..last]);
      LiveDataOfAllDirty(hs[..last], data);
    }
  }

  /** After `flush`, `iter` yields nothing. */
  lemma IterAfterFlush<T>(s: ArenaState<T>)
    requires Consistent(s)
    ensures LiveData(Flushed(s)) == [] && LiveData(FlushedSlots(s)) == []
  {
    LiveDataOfAllDirty(s.handles, s.data);
  }

  /** `iter` yields exactly one value per live handle. */
  lemma {:induction false} LiveDataLength<T>(hs: seq<MemoryHandle>, data: seq<T>)
    requires forall i :: 0 <= i < |hs| ==> hs[i].value < |data|
    ensures |LiveDataOf(hs, data)| == LiveCount(hs) == |LiveSlots(hs)|
  {
    if hs != [] {
      LiveDataLength(hs[..|hs| - 1], data);
    }
  }

  lemma CountAfterAppend(a: seq<nat>, x: nat, i: nat)
    ensures multiset(a + [x])[i] == multiset(a)[i] + (if i == x then 1 else 0)
  {
    assert multiset(a + [x]) == multiset(a) + multiset{x};
  }

  /** Each slot index occurs in `LiveSlots` once if that slot is live, never otherwise. */
  lemma {:induction false} LiveSlotsCount(hs: seq<MemoryHandle>, i: nat)
    ensures multiset(LiveSlots(hs))[i] == (if i < |hs| && !hs[i].isDirty then 1 else 0)
  {
    if hs != [] {
      var last := |hs| - 1;
      var pre := hs[..last];
      LiveSlotsCount(pre, i);
      if i < last {
        assert pre[i] == hs[i];
      }
      if !hs[last].isDirty {
        CountAfterAppend(LiveSlots(pre), last, i);
      }
    }
  }

  /** The empty arena's free list is exact. */
  lemma AllocFreeListExact<T>(nbItems: nat, elementSize: nat)
    ensures FreeListExact(EmptyArena<T>(nbItems, elementSize))
  {
  }

  /** `insert` keeps the free list exact: the popped index was the single entry of a freed slot. */
  lemma InsertedKeepsFreeListExact<T>(s: ArenaState<T>, value: T)
    requires Consistent(s) && HasRoom(s.capacity, |s.data|) && FreeListExact(s)
    ensures FreeListExact(Inserted(s, value).0)
  {
    var (t, h) := Inserted(s, value);
    if s.freeHandles != [] {
      var n := |s.freeHandles| - 1;
      assert s.freeHandles == t.freeHandles + [h.value];
      assert multiset(s.freeHandles) == multiset(t.freeHandles) + multiset{h.value};
      assert s.handles[h.value].isDirty;
      forall i | 0 <= i < |t.handles|
        ensures multiset(t.freeHandles)[i] == (if t.handles[i].isDirty then 1 else 0)
      {
        if i != h.value {
          assert t.handles[i] == s.handles[i];
        }
      }
    }
  }

  /** Removing a live handle keeps the free list exact. */
  lemma RemovedKeepsFreeListExact<T>(s: ArenaState<T>, h: MemoryHandle)
    requires Consistent(s) && RecordedAtSlot(s, h) && FreeListExact(s)
    requires Lookup(s, h).Some?
    ensures FreeListExact(Removed(s, h))
  {
    RecordedAt(s, h);
    assert SameHandle(s.handles[h.value], h);
    assert !s.handles[h.value].isDirty;
    var t := Removed(s, h);
    assert multiset(t.freeHandles) == multiset(s.freeHandles) + multiset{h.value};
  }

  /** The corrected flush keeps the free list exact. */
  lemma FlushedSlotsKeepsFreeListExact<T>(s: ArenaState<T>)
    requires Consistent(s) && FreeListExact(s)
    ensures FreeListExact(FlushedSlots(s))
  {
    var t := FlushedSlots(s);
    forall i | 0 <= i < |t.handles|
      ensures multiset(t.freeHandles)[i] == (if t.handles[i].isDirty then 1 else 0)
    {
      LiveSlotsCount(s.handles, i);
      assert multiset(t.freeHandles) == multiset(s.freeHandles) + multiset(LiveSlots(s.handles));
    }
  }

  /** Two inserts into a fresh arena of capacity 10, then a remove of the
      first handle. */
  lemma TwoInsertsThenRemoveFirst()
    ensures
      var (s1, h0) := Inserted(EmptyArena<int>(10, 4), 10);
      var (s2, h1) := Inserted(s1, 11);
      && h0 == MemoryHandle(0, 1, false) && h1 == MemoryHandle(1, 2, false)
      && Removed(s2, h0) ==
         ArenaState([10, 11], [MemoryHandle(0, 1, true), MemoryHandle(1, 2, false)], [0], 2, Bounded(10))
  {
  }

  /** The flush as written breaks the free list: insert two values, remove the
      first, flush. The flush pushes position 0 for the live slot 1, so slot 0
      is queued twice and slot 1 never; the next two inserts both land in slot 0
      and the first of their handles then reads the second value. */
  lemma FlushAfterRemoveQueuesSlotTwice()
    ensures
      var s0 := EmptyArena<int>(10, 4);
      var (s1, h0) := Inserted(s0, 10);
      var (s2, h1) := Inserted(s1, 11);
      var s3 := Removed(s2, h0);
      var s4 := Flushed(s3);
      var (s5, h5) := Inserted(s4, 12);
      var (s6, h6) := Inserted(s5, 13);
      && FreeListExact(s3) && !FreeListExact(s4)
      && s4.freeHandles == [0, 0]
      && h5.value == 0 && h6.value == 0
      && Lookup(s6, h5) == Some(13)
  {
    TwoInsertsThenRemoveFirst();
    var s3 := ArenaState([10, 11], [MemoryHandle(0, 1, true), MemoryHandle(1, 2, false)], [0], 2, Bounded(10));
    assert multiset(s3.freeHandles)[0] == 1 && multiset(s3.freeHandles)[1] == 0;
    FlushedThenTwoInserts(s3);
  }

  /** The second half of the counterexample, from the state after the remove. */
  lemma FlushedThenTwoInserts(s3: ArenaState<int>)
    requires s3 == ArenaState([10, 11], [MemoryHandle(0, 1, true), MemoryHandle(1, 2, false)], [0], 2, Bounded(10))
    ensures Consistent(s3)
    ensures
      var s4 := Flushed(s3);
      var (s5, h5) := Inserted(s4, 12);
      var (s6, h6) := Inserted(s5, 13);
      && !FreeListExact(s4)
      && s4.freeHandles == [0, 0]
      && h5.value == 0 && h6.value == 0
      && Lookup(s6, h5) == Some(13)
  {
    assert LiveCount(s3.handles) == 1 by {
      assert s3.handles[..1] == [MemoryHandle(0, 1, true)];
      assert s3.handles[..1][..0] == [];
    }
    var s4 := Flushed(s3);
    assert s4.freeHandles == [0, 0];
    assert multiset(s4.freeHandles)[0] == 2;
    var (s5, h5) := Inserted(s4, 12);
    var (s6, h6) := Inserted(s5, 13);
    assert h5 == MemoryHandle(0, 3, false) && h6 == MemoryHandle(0, 4, false);
    assert s6.handles == [MemoryHandle(0, 4, false), MemoryHandle(1, 2, true)];
    assert !HasDirtyMatch(s6, h5);
  }

  /** The insert/remove sequence the source's tests walk: slots 0 then 1, versions
      1, 2, then 3 for the insert that reuses slot 0. */
  lemma InsertRemoveInsertVersions()
    ensures
      var (s1, h0) := Inserted(EmptyArena<bool>(10, 1), true);
      var (s2, h1) := Inserted(s1, true);
      var s3 := Removed(s2, h0);
      var (s4, h2) := Inserted(s3, false);
      && h0.value == 0 && h1.value == 1 && !SameHandle(h0, h1)
      && h0.version == 1 && h1.version == 2 && h2.version == 3
      && s3.handles[0].isDirty && h2.value == 0 && s4.data[0] == false
  {
    var (s1, h0) := Inserted(EmptyArena<bool>(10, 1), true);
    var (s2, h1) := Inserted(s1, true);
    assert SameHandle(s2.handles[0], h0);
  }

  /** `remove` does not give capacity back: a full arena stays full even though
      its free list is no longer empty, so the next `insert` still panics. */
  lemma FullArenaStaysFull<T>(s: ArenaState<T>, h: MemoryHandle)
    requires Consistent(s) && RecordedAtSlot(s, h) && s.capacity == Bounded(|s.data|)
    ensures Removed(s, h).freeHandles != []
    ensures !HasRoom(Removed(s, h).capacity, |Removed(s, h).data|)
    ensures !HasRoom(Flushed(s).capacity, |Flushed(s).data|)
  {
  }

  /** Inserting `values` one after another into an arena whose capacity never
      runs out. */
  function InsertedAll<T>(s: ArenaState<T>, values: seq<T>): (r: ArenaState<T>)
    requires Consistent(s) && s.capacity == Unbounded
    ensures Consistent(r) && r.capacity == Unbounded
    ensures r.versionCount == s.versionCount + |values|
    decreases |values|
  {
    if values == [] then s else InsertedAll(Inserted(s, values[0]).0, values[1..])
  }

  /** With an empty free list, each insert appends. */
  lemma {:induction false} InsertedAllAppends<T>(s: ArenaState<T>, values: seq<T>)
    requires Consistent(s) && s.capacity == Unbounded && s.freeHandles == []
    ensures InsertedAll(s, values).data == s.data + values
    decreases |values|
  {
    if values != [] {
      var t := Inserted(s, values[0]).0;
      InsertedAllAppends(t, values[1..]);
      assert s.data + values == s.data + [values[0]] + values[1..];
    }
  }

  /** The arena of `Wall`s, a type of size zero, is allocated with `alloc(10)`,
      yet the capacity check never fires: any number of walls, eleven or more,
      is appended to it. */
  lemma ZeroSizedArenaNeverFills<T>(values: seq<T>)
    ensures InsertedAll(EmptyArena<T>(10, 0), values).data == values
    ensures |values| > 10 ==> |InsertedAll(EmptyArena<T>(10, 0), values).data| > 10
  {
    InsertedAllAppends(EmptyArena<T>(10, 0), values);
  }
}
