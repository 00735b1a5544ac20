/** Model of src/memory_arena.rs: the earlier arena, whose slots are optional
    versioned blocks and whose lookups compare the handle's version with the
    block's, so that a handle from before a remove-and-reuse cycle is rejected. */
module MemoryArena {
  import opened Wrappers
  import Entities

  /** A stored value with the version it was stored under. */
  datatype MemoryBlock<T> = MemoryBlock(value: T, version: nat)

  /** A handle: slot index and version; equality compares both. */
  datatype MemoryHandle = MemoryHandle(value: nat, version: nat)

  /** The three panics of `get`/`get_mut`, in the order the source checks them. */
  datatype GetError = NoBlock | Freed | GenerationMismatch

  datatype GetResult<T> = Found(block: MemoryBlock<T>) | Failed(error: GetError)

  /** The arena's fields as one value; `capacity` is what `Vec::with_capacity` reserved. */
  datatype ArenaState<T> = ArenaState(
    data: seq<Option<MemoryBlock<T>>>,
    freeBucket: seq<MemoryHandle>,
    versionCount: nat,
    capacity: nat)

  /** What every reachable arena satisfies: storage within capacity, block
      versions issued by the counter, and each queued handle names a distinct
      emptied slot. */
  ghost predicate Consistent<T>(s: ArenaState<T>) {
    && |s.data| <= s.capacity
    && (forall i :: 0 <= i < |s.data| && s.data[i].Some? ==> 1 <= s.data[i].value.version <= s.versionCount)
    && (forall k :: 0 <= k < |s.freeBucket| ==>
          s.freeBucket[k].value < |s.data| && s.data[s.freeBucket[k].value].None?
          && s.freeBucket[k].version <= s.versionCount)
    && (forall k, l :: 0 <= k < l < |s.freeBucket| ==> s.freeBucket[k].value != s.freeBucket[l].value)
  }

  /** `Arena::alloc(size)`: an empty arena sized for `size` decimal megabytes of
      elements of `elementSize` bytes. */
  function Allocated<T>(size: nat, elementSize: nat): (s: ArenaState<T>)
    requires elementSize > 0
    ensures Consistent(s)
    ensures s.data == [] && s.freeBucket == [] && s.versionCount == 0
    ensures s.capacity * elementSize <= size * 1000000 < (s.capacity + 1) * elementSize
  {
    ArenaState([], [], 0, Entities.SizeAllocCapacity(size, elementSize))
  }

  /** `get`: out-of-range index, empty slot and version mismatch each fail. */
  function Lookup<T>(s: ArenaState<T>, index: MemoryHandle): (r: GetResult<T>)
    ensures r.Found? <==>
      index.value < |s.data| && s.data[index.value].Some? && s.data[index.value].value.version == index.version
    ensures r.Found? ==> s.data[index.value] == Some(r.block)
    ensures r == Failed(NoBlock) <==> index.value >= |s.data|
    ensures r == Failed(Freed) <==> index.value < |s.data| && s.data[index.value].None?
  {
    if index.value >= |s.data| then Failed(NoBlock)
    else match s.data[index.value]
      case None => Failed(Freed)
      case Some(block) =>
        if block.version == index.version then Found(block) else Failed(GenerationMismatch)
  }

  /** `insert`: bumps the version counter; with an empty bucket it appends a block,
      otherwise it pops the last freed handle, restamps it and refills its slot. */
  function Inserted<T>(s: ArenaState<T>, value: T): (r: (ArenaState<T>, MemoryHandle))
    requires Consistent(s)
    requires |s.data| < s.capacity  // the source panics here, even when freed slots exist
    ensures Consistent(r.0) && r.0.capacity == s.capacity
    ensures r.0.versionCount == s.versionCount + 1 && r.1.version == r.0.versionCount
    ensures Lookup(r.0, r.1) == Found(MemoryBlock(value, r.1.version))
    ensures forall i :: 0 <= i < |s.data| && s.data[i].Some? ==> s.data[i].value.version < r.1.version
    ensures s.freeBucket == [] ==>
      r.1.value == |s.data| && r.0.data == s.data + [Some(MemoryBlock(value, r.1.version))]
      && r.0.freeBucket == []
    ensures s.freeBucket != [] ==>
      && r.1.value == s.freeBucket[|s.freeBucket| - 1].value
      && s.data[r.1.value].None?  // reuse never overwrites a live block
      && r.0.data == s.data[r.1.value := Some(MemoryBlock(value, r.1.version))]
      && r.0.freeBucket == s.freeBucket[..|s.freeBucket| - 1]
  {
    var version := s.versionCount + 1;
    var block := Some(MemoryBlock(value, version));
    if s.freeBucket == [] then
      (s.(data := s.data + [block], versionCount := version), MemoryHandle(|s.data|, version))
    else
      var unused := s.freeBucket[|s.freeBucket| - 1].(version := version);
      (s.(data := s.data[unused.value := block],
          freeBucket := s.freeBucket[..|s.freeBucket| - 1],
          versionCount := version),
       unused)
  }

  /** `remove`: validates the handle with `get`, empties its slot and queues it. */
  function Removed<T>(s: ArenaState<T>, index: MemoryHandle): (r: ArenaState<T>)
    requires Consistent(s)
    requires Lookup(s, index).Found?  // the source's `get` panics otherwise
    ensures Consistent(r)
    ensures r.data == s.data[index.value := None]
    ensures r.freeBucket == s.freeBucket + [index]
    ensures r.versionCount == s.versionCount && r.capacity == s.capacity
  {
    s.(data := s.data[index.value := None], freeBucket := s.freeBucket + [index])
  }

  class Arena<T> {
    var data: seq<Option<MemoryBlock<T>>>
    var freeBucket: seq<MemoryHandle>
    var versionCount: nat
    const capacity: nat

    function State(): ArenaState<T>
      reads this
    {
      ArenaState(data, freeBucket, versionCount, capacity)
    }

    ghost predicate Valid()
      reads this
    {
      Consistent(State())
    }

    constructor Alloc(size: nat, elementSize: nat)
      requires elementSize > 0
      ensures Valid() && State() == Allocated(size, elementSize)
    {
      data, freeBucket, versionCount := [], [], 0;
      capacity := size * 1000000 / elementSize;
    }

    method Insert(value: T) returns (handle: MemoryHandle)
      requires Valid()
      requires |data| < capacity
      modifies this
      ensures Valid()
      ensures (State(), handle) == Inserted(old(State()), value)
    {
      versionCount := versionCount + 1;
      var newBlock := Some(MemoryBlock(value, versionCount));
      if |freeBucket| == 0 {
        handle := MemoryHandle(|data|, versionCount);
        data := data + [newBlock];
      } else {
        handle := freeBucket[|freeBucket| - 1];
        freeBucket := freeBucket[..|freeBucket| - 1];
        handle := handle.(version := versionCount);
        data := data[handle.value := newBlock];
      }
    }

    method Get(index: MemoryHandle) returns (block: MemoryBlock<T>)
      requires Lookup(State(), index).Found?
      ensures Lookup(State(), index) == Found(block)
    {
      var memBlock := data[index.value];
      block := memBlock.value;
    }

    /** `get_mut` followed by a write of `value` into the returned block. */
    method GetMut(index: MemoryHandle, value: T)
      requires Valid()
      requires Lookup(State(), index).Found?
      modifies this
      ensures Valid()
      ensures data == old(data)[index.value := Some(MemoryBlock(value, index.version))]
      ensures freeBucket == old(freeBucket) && versionCount == old(versionCount)
    {
      var memBlock := data[index.value];
      data := data[index.value := Some(memBlock.value.(value := value))];
    }

    method Remove(index: MemoryHandle)
      requires Valid()
      requires Lookup(State(), index).Found?
      modifies this
      ensures Valid()
      ensures State() == Removed(old(State()), index)
    {
      var _ := Get(index);
      data := data[index.value := None];
      freeBucket := freeBucket + [index];
    }
  }

  // ---------------------------------------------------------------------------
  // Properties

  /** Removing a handle empties its slot, so a second `remove` of it panics;
      inserting again reuses the slot under a new version: the old handle now
      fails with a version mismatch, while the new one is found. */
  lemma RemoveThenInsertRejectsOldHandle<T>(s: ArenaState<T>, h: MemoryHandle, value: T)
    requires Consistent(s) && Lookup(s, h).Found?
    requires |s.data| < s.capacity  // see FullArenaStaysFull
    ensures Lookup(Removed(s, h), h) == Failed(Freed)
    ensures
      var (t, h2) := Inserted(Removed(s, h), value);
      h2.value == h.value && h2 != h
      && Lookup(t, h) == Failed(GenerationMismatch)
      && Lookup(t, h2) == Found(MemoryBlock(value, h2.version))
  {
    var r := Removed(s, h);
    assert r.freeBucket[|r.freeBucket| - 1] == h;
  }

  /** Once a handle (issued by this arena, so its version is at most the counter)
      fails, no later insert or remove makes it succeed again. */
  lemma StaleStaysStale<T>(s: ArenaState<T>, h: MemoryHandle, value: T, other: MemoryHandle)
    requires Consistent(s) && h.version <= s.versionCount && Lookup(s, h).Failed?
    ensures |s.data| < s.capacity ==>
      var t := Inserted(s, value).0;
      Lookup(t, h).Failed? && h.version <= t.versionCount
    ensures Lookup(s, other).Found? ==>
      var t := Removed(s, other);
      Lookup(t, h).Failed? && h.version <= t.versionCount
  {
    if |s.data| < s.capacity {
      var (t, h2) := Inserted(s, value);
      if h.value == h2.value {
        assert Lookup(t, h).Failed? by { assert h.version < h2.version; }
      } else if h.value < |s.data| {
        assert t.data[h.value] == s.data[h.value];
      }
    }
  }

  /** The capacity check looks at the slot count, not at the bucket: once every
      slot has been appended, `insert` panics even after a `remove` freed one. */
  lemma FullArenaStaysFull<T>(s: ArenaState<T>, h: MemoryHandle)
    requires Consistent(s) && Lookup(s, h).Found? && |s.data| == s.capacity
    ensures |Removed(s, h).data| == Removed(s, h).capacity
    ensures Removed(s, h).freeBucket != []
  {
  }

  /** The sequence the source's tests walk: slots 0 and 1 with versions 1 and 2;
      after removing the first, its slot is empty and the next insert reuses it
      with version 3. */
  lemma InsertRemoveInsertVersions()
    ensures
      var (s1, h0) := Inserted(Allocated<bool>(10, 1), true);
      var (s2, h1) := Inserted(s1, true);
      var s3 := Removed(s2, h0);
      var (s4, h2) := Inserted(s3, false);
      && s1.capacity == 10000000
      && h0 == MemoryHandle(0, 1) && h1 == MemoryHandle(1, 2)
      && s3.data[0].None?
      && h2 == MemoryHandle(0, 3) && s4.data[0] == Some(MemoryBlock(false, 3))
  {
    var (s1, h0) := Inserted(Allocated<bool>(10, 1), true);
    var (s2, h1) := Inserted(s1, true);
    var s3 := Removed(s2, h0);
    assert s3.freeBucket == [h0];
  }
}
