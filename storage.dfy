/** Model of renderer/src/storage.rs: a pool that hands out generational ids,
    recycling removed ones under a fresh generation, and a storage that keys its
    items by those ids. */
module RendererStorage {
  import opened Wrappers

  /** An id: the recycled `data` part and the `generation` it was issued in.
      Equality compares both. */
  datatype GeneratedId = GeneratedId(data: nat, generation: nat)

  /** `GeneratedId::default()`. */
  const DefaultId := GeneratedId(0, 0)

  /** The pool's fields as one value. */
  datatype PoolState = PoolState(cursorId: GeneratedId, unusedIds: seq<GeneratedId>, generationCounter: nat)

  /** `IdentifyGeneratorPool::default()`. */
  const EmptyPool := PoolState(DefaultId, [], 0)

  /** `new_id`: bumps the generation counter; with no recycled id it advances the
      cursor, otherwise it pops the last recycled id and restamps its generation. */
  function NextId(p: PoolState): (r: (PoolState, GeneratedId))
    ensures r.0.generationCounter == p.generationCounter + 1
    ensures r.1.generation == r.0.generationCounter
    ensures p.unusedIds == [] ==>
      r.1.data == p.cursorId.data + 1 && r.0.cursorId == r.1 && r.0.unusedIds == []
    ensures p.unusedIds != [] ==>
      && r.1.data == p.unusedIds[|p.unusedIds| - 1].data
      && r.0.unusedIds == p.unusedIds[..|p.unusedIds| - 1]
      && r.0.cursorId == p.cursorId
  {
    var generation := p.generationCounter + 1;
    if p.unusedIds == [] then
      var cursor := GeneratedId(p.cursorId.data + 1, generation);
      (PoolState(cursor, [], generation), cursor)
    else
      var unused := p.unusedIds[|p.unusedIds| - 1].(generation := generation);
      (p.(unusedIds := p.unusedIds[..|p.unusedIds| - 1], generationCounter := generation), unused)
  }

  /** `remove_id`: queues the id for recycling, whatever it is. */
  function Recycled(p: PoolState, id: GeneratedId): (r: PoolState)
    ensures r.unusedIds == p.unusedIds + [id]
    ensures r.cursorId == p.cursorId && r.generationCounter == p.generationCounter
  {
    p.(unusedIds := p.unusedIds + [id])
  }

  /** The storage's fields as one value. */
  datatype StorageState<T> = StorageState(pool: PoolState, items: map<GeneratedId, T>)

  /** What every reachable storage satisfies: each key was issued in a
      generation the counter has already reached. */
  ghost predicate Consistent<T>(s: StorageState<T>) {
    forall id :: id in s.items ==> 1 <= id.generation <= s.pool.generationCounter
  }

  /** `Storage::default()`. */
  function EmptyStorage<T>(): (s: StorageState<T>)
    ensures Consistent(s) && s.items == map[]
  {
    StorageState(EmptyPool, map[])
  }

  /** `push`: stores the item under a new id, which no stored item already uses. */
  function Pushed<T>(s: StorageState<T>, newItem: T): (r: (StorageState<T>, GeneratedId))
    requires Consistent(s)
    ensures Consistent(r.0)
    ensures r.1 !in s.items  // a push never overwrites
    ensures r.0.items == s.items[r.1 := newItem]
    ensures (r.0.pool, r.1) == NextId(s.pool)
  {
    var (pool, itemId) := NextId(s.pool);
    (StorageState(pool, s.items[itemId := newItem]), itemId)
  }

  /** `remove`: recycles the id and drops its item, if any. */
  function Removed<T>(s: StorageState<T>, itemId: GeneratedId): (r: StorageState<T>)
    requires Consistent(s)
    ensures Consistent(r)
    ensures r.items == s.items - {itemId}
    ensures r.pool == Recycled(s.pool, itemId)
  {
    StorageState(Recycled(s.pool, itemId), s.items - {itemId})
  }

  /** `clear`: drops every item and resets the pool to its default. */
  function Cleared<T>(s: StorageState<T>): (r: StorageState<T>)
    ensures Consistent(r)
    ensures r.items == map[] && r.pool == EmptyPool
  {
    StorageState(EmptyPool, map[])
  }

  /** `get_mut`: the item stored under exactly this id and generation. */
  function Get<T>(s: StorageState<T>, itemId: GeneratedId): (r: Option<T>)
    ensures r.Some? <==> itemId in s.items
    ensures r.Some? ==> s.items[itemId] == r.value
  {
    if itemId in s.items then Some(s.items[itemId]) else None
  }

  class IdentifyGeneratorPool {
    var cursorId: GeneratedId
    var unusedIds: seq<GeneratedId>
    var generationCounter: nat

    function State(): PoolState
      reads this
    {
      PoolState(cursorId, unusedIds, generationCounter)
    }

    constructor Default()
      ensures State() == EmptyPool
    {
      cursorId, unusedIds, generationCounter := DefaultId, [], 0;
    }

    method NewId() returns (id: GeneratedId)
      modifies this
      ensures (State(), id) == NextId(old(State()))
    {
      generationCounter := generationCounter + 1;
      if |unusedIds| == 0 {
        cursorId := GeneratedId(cursorId.data + 1, generationCounter);
        id := cursorId;
      } else {
        var unusedId := unusedIds[|unusedIds| - 1];
        unusedIds := unusedIds[..|unusedIds| - 1];
        id := unusedId.(generation := generationCounter);
      }
    }

    method RemoveId(id: GeneratedId)
      modifies this
      ensures State() == Recycled(old(State()), id)
    {
      unusedIds := unusedIds + [id];
    }

    method Clear()
      modifies this
      ensures State() == EmptyPool
    {
      cursorId := DefaultId;
      generationCounter := 0;
      unusedIds := [];
    }
  }

  class Storage<T> {
    const idManager: IdentifyGeneratorPool
    var items: map<GeneratedId, T>

    function State(): StorageState<T>
      reads this, idManager
    {
      StorageState(idManager.State(), items)
    }

    ghost predicate Valid()
      reads this, idManager
    {
      Consistent(State())
    }

    constructor Default()
      ensures Valid() && State() == EmptyStorage() && fresh(idManager)
    {
      idManager := new IdentifyGeneratorPool.Default();
      items := map[];
    }

    method Push(newItem: T) returns (itemId: GeneratedId)
      requires Valid()
      modifies this, idManager
      ensures Valid()
      ensures (State(), itemId) == Pushed(old(State()), newItem)
    {
      itemId := idManager.NewId();
      items := items[itemId := newItem];
    }

    method Remove(itemId: GeneratedId)
      requires Valid()
      modifies this, idManager
      ensures Valid()
      ensures State() == Removed(old(State()), itemId)
    {
      idManager.RemoveId(itemId);
      items := items - {itemId};
    }

    method Clear()
      modifies this, idManager
      ensures Valid()
      ensures State() == Cleared(old(State()))
    {
      items := map[];
      idManager.Clear();
    }

    /** `get_mut` followed by a write of `value` through the returned reference
        when there is one. */
    method GetMut(itemId: GeneratedId, value: T) returns (found: bool)
      requires Valid()
      modifies this
      ensures Valid()
      ensures found <==> Get(old(State()), itemId).Some?
      ensures items == if found then old(items)[itemId := value] else old(items)
    {
      found := itemId in items;
      if found {
        items := items[itemId := value];
      }
    }
  }

  // ---------------------------------------------------------------------------
  // Properties

  /** `remove` undoes `push` on the items. */
  lemma RemoveUndoesPush<T>(s: StorageState<T>, newItem: T)
    requires Consistent(s)
    ensures
      var (t, id) := Pushed(s, newItem);
      Get(t, id) == Some(newItem) && Removed(t, id).items == s.items
  {
    var (t, id) := Pushed(s, newItem);
    assert id !in s.items;
    assert Removed(t, id).items == s.items;
  }

  /** `remove` of one id leaves every other item where it was. */
  lemma RemoveLeavesOthers<T>(s: StorageState<T>, itemId: GeneratedId, other: GeneratedId)
    requires Consistent(s) && other != itemId
    ensures Get(Removed(s, itemId), itemId) == None
    ensures Get(Removed(s, itemId), other) == Get(s, other)
  {
  }

  /** Between clears the pool has no ABA problem: an id that misses (and was
      issued, so its generation has been reached) misses after any later push
      or remove, since every new id carries a generation above the counter. */
  lemma StaleIdStaysStale<T>(s: StorageState<T>, itemId: GeneratedId, newItem: T, other: GeneratedId)
    requires Consistent(s)
    requires Get(s, itemId) == None && itemId.generation <= s.pool.generationCounter
    ensures
      var t := Pushed(s, newItem).0;
      Get(t, itemId) == None && itemId.generation <= t.pool.generationCounter
    ensures
      var t := Removed(s, other);
      Get(t, itemId) == None && itemId.generation <= t.pool.generationCounter
  {
    var (t, id) := Pushed(s, newItem);
    assert id.generation > s.pool.generationCounter;
  }

  /** `clear` resets the generation counter, so ids repeat: the first push after
      a clear is (1, 1) again, and an id of that value kept from before the clear
      resolves to the new item. */
  lemma IdsRepeatAfterClear<T>(s: StorageState<T>, newItem: T)
    requires Consistent(s)
    ensures
      var (t, id) := Pushed(Cleared(s), newItem);
      id == GeneratedId(1, 1) && Get(t, GeneratedId(1, 1)) == Some(newItem)
      && forall other :: other != id ==> Get(t, other) == None
  {
  }

  /** The source's tests: the first id is (1, 1); two pushes give different ids;
      after removing the first, it misses and the second is found; a push after
      the remove recycles data 1 under generation 3; `clear` empties everything. */
  lemma StorageScenario()
    ensures
      var (s1, a) := Pushed(EmptyStorage<int>(), 10);
      var (s2, b) := Pushed(s1, 20);
      var s3 := Removed(s2, a);
      var (s4, c) := Pushed(s3, 30);
      var s5 := Cleared(s2);
      && a == GeneratedId(1, 1) && a != b
      && Get(s3, a) == None && Get(s3, b) == Some(20)
      && c == GeneratedId(1, 3)
      && Get(s5, a) == None && Get(s5, b) == None && |s5.items| == 0
  {
    var (s1, a) := Pushed(EmptyStorage<int>(), 10);
    var (s2, b) := Pushed(s1, 20);
    assert b == GeneratedId(2, 2);
    var s3 := Removed(s2, a);
    assert s3.pool.unusedIds == [a];
  }
}
