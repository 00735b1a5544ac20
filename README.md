# boreal_kiss core, modelled in Dafny

This project models the integer- and enum-based core of the boreal_kiss game
and engine, and proves properties of that model:

- **Generational object pools**: three revisions of the same idea.
  - `src/entities.rs` is module `Entities`: parallel `data`/`handles` vectors, a dirty flag per handle and a stack of free handles.
  - `src/memory_arena.rs` is module `MemoryArena`: optional blocks and generation-checked lookups.
  - `renderer/src/storage.rs` is module `RendererStorage`: an id recycler in front of a map.
- **World and tilemap addressing**: `src/tilemap.rs` is module `Tilemaps`. It covers a 7×5 world grid of optional tilemap handles and 13×10 tilemaps of tiles (constants from `src/global.rs`). It models the step function `get_next_position`, sibling lookup and map-file tag decoding.
- **Movement**:
  - `src/player.rs` is module `Movement`: the grid deltas, the camera-relative direction remap, `can_move`, and the Ground/Player swap on a successful move.
  - `src/camera.rs` is module `Camera`: the four-state rotation cycle.
- **Input**: the key and button state machines, each with a once-per-press latch.
  - `src/input.rs` is module `GameInput`.
  - `engine/src/input.rs` is module `EngineInput`.
- **Vector arithmetic**: `engine/src/math.rs` is module `EngineMath`. It covers the componentwise `Vector3` operators over integers, with Rust's truncating division.

State the source mutates in place is a `class` whose fields are `seq`s and
`map`s. Each such class has a datatype snapshot `State()` and pure
specification functions (`Inserted`, `Removed`, `Flushed`, `Pushed`, …). Every
method ensures that its new state is the specification function applied to
the old one. The lemmas are stated over those functions.

Modelling choices:
- A Rust panic becomes a `requires`.
- Where the panic is the point of the operation, a total lookup (`Lookup`) exposes the failure case.
- The clock (`Instant::now`) becomes a `now: nat` parameter.
- A callback's invocation becomes a returned `invoked` flag.

Two short aliases are used below:
- **global-grid reference**: the world seen as one 50×91 grid of tiles. `GlobalTile` maps a position onto it and `PositionAt` maps a cell back.
- **free-list invariant**: `FreeListExact`. The free list of `src/entities.rs` holds each dirty slot's index exactly once, and nothing else.

## Model

| member | source | states |
|---|---|---|
| Entities.SameHandle | src/entities.rs:180-184 | handle equality is equality of value and version, ignoring the dirty flag |
| Entities.EmptyArena | src/entities.rs:47-54 | a new arena is empty, with version counter 0; its capacity is the requested one for an element type of non-zero size, and has room for every length for a zero-sized one |
| Entities.SizeAllocCapacity | src/entities.rs:34-45 | the capacity is the floor of size·1 000 000 / element size; element size 1 gives size·1 000 000 |
| Entities.Inserted | src/entities.rs:57-88 | bumps the version counter and returns an undirtied handle carrying the new count; the value sits at the handle's slot; the handle equals no previously recorded one; an empty free list means append at the old length, otherwise the last freed index is popped and its slot overwritten without growing `data` |
| Entities.Lookup | src/entities.rs:90-108 | a value is returned iff no recorded handle equal to the argument is dirty and the index is in range, and it is `data[h.value]` |
| Entities.RecordedAt | src/entities.rs:110-123 | under the arena invariant, "some recorded handle equals h" is the same as "the handle stored at slot h.value equals h" |
| Entities.Removed | src/entities.rs:110-123 | marks exactly the matching handle dirty and pushes its index; data, counter and capacity unchanged |
| Entities.AllDirty | src/entities.rs:126-132 | every handle is marked dirty, with nothing else changed |
| Entities.LiveSlots | src/entities.rs:133-138 | the slots of live handles, all within range |
| Entities.Flushed | src/entities.rs:126-141 | as written: every handle dirty, and the enumeration positions of the live handles appended to the free list |
| Entities.FlushedSlots | src/entities.rs:126-141 | corrected: every handle dirty, and the slot indices of the live handles appended to the free list |
| Entities.Arena.Alloc | src/entities.rs:47-54 | the new arena's state is `EmptyArena(nb_items, element size)` |
| Entities.Arena.SizeAlloc | src/entities.rs:34-45 | the new arena's state is an empty arena of capacity `SizeAllocCapacity` |
| Entities.Arena.Insert | src/entities.rs:57-88 | the new state and handle are `Inserted(old state, value)`; panics when a bounded capacity is reached |
| Entities.Arena.IsDirty | src/entities.rs:143-147 | true iff some recorded handle with the same value and version is dirty (loop) |
| Entities.Arena.Get | src/entities.rs:90-98 | returns `data[h.value]` when `Lookup` succeeds; panics otherwise |
| Entities.Arena.GetMut | src/entities.rs:100-108 | writes the slot of a handle `Lookup` accepts; nothing else changes |
| Entities.Arena.Remove | src/entities.rs:110-123 | the new state is `Removed`; panics when no recorded handle matches (loop) |
| Entities.FlushPass | src/entities.rs:126-141 | the loop of `flush` as written marks every handle dirty and numbers the live ones 0, 1, … |
| Entities.FlushSlotsPass | src/entities.rs:126-141 | the corrected loop marks every handle dirty and collects the live slot indices |
| Entities.Arena.Flush | src/entities.rs:126-141 | the new state is `Flushed` (as written) |
| Entities.Arena.FlushSlots | src/entities.rs:126-141 | the new state is `FlushedSlots` (corrected) |
| Entities.Arena.Iter | src/entities.rs:149-154 | yields the data of non-dirty handles in slot order, without changing state (loop) |
| Entities.StaleHandleReadsReusedSlot | src/entities.rs:143-147 | after a remove and a re-insert into the same slot, the stale handle is accepted by `Lookup` and reads the new value |
| Entities.LookupAfterFlush | src/entities.rs:126-141 | after a flush, every previously recorded handle is rejected |
| Entities.LiveDataOfAllDirty | src/entities.rs:149-154 | once all handles are dirty, the live data is empty |
| Entities.IterAfterFlush | src/entities.rs:263-276 | `iter` after `flush` yields nothing, in both flush variants |
| Entities.LiveDataLength | src/entities.rs:149-154 | `iter` yields exactly one value per non-dirty handle |
| Entities.LiveSlotsCount | src/entities.rs:133-138 | the live-slot list holds each live slot once and nothing else |
| Entities.AllocFreeListExact | src/entities.rs:47-54 | a new arena satisfies the free-list invariant |
| Entities.InsertedKeepsFreeListExact | src/entities.rs:57-88 | insert preserves the free-list invariant |
| Entities.RemovedKeepsFreeListExact | src/entities.rs:110-123 | removing a live handle preserves the free-list invariant |
| Entities.FlushedSlotsKeepsFreeListExact | src/entities.rs:126-141 | the corrected flush preserves the free-list invariant |
| Entities.FlushAfterRemoveQueuesSlotTwice | src/entities.rs:133-138 | insert a, insert b, remove a, flush as written: the free list becomes [0, 0], so slot 1 is never reused |
| Entities.InsertRemoveInsertVersions | src/entities.rs:228-243 | handles (0,1) and (1,2), then (0,3) after removing the first, in a two-element `data` |
| Entities.FullArenaStaysFull | src/entities.rs:200-215 | a full arena stays full after a remove or a flush although its free list is non-empty, so `insert` still panics |
| Entities.InsertedAll | src/entities.rs:57-88 | inserting a run of values into an arena without a capacity limit keeps it consistent and advances the version counter by the run's length |
| Entities.InsertedAllAppends | src/entities.rs:57-88 | with an empty free list, each insert of the run appends its value |
| Entities.ZeroSizedArenaNeverFills | src/entities.rs:7-16 | the `Wall` arena, `alloc(10)` of a zero-sized type, takes every value of any run, eleven or more, in order |
| MemoryArena.Allocated | src/memory_arena.rs:14-24 | empty arena with capacity the floor of size·1 000 000 / element size |
| MemoryArena.Lookup | src/memory_arena.rs:51-67 | the failure order of `get`: out-of-range index, then empty slot, then generation mismatch; found iff the slot holds a block of the handle's version |
| MemoryArena.Inserted | src/memory_arena.rs:27-49 | bumps the counter; the new handle carries it and is found; every live block is older; append at the old length on an empty bucket, otherwise pop the last freed handle and restamp its slot |
| MemoryArena.Removed | src/memory_arena.rs:87-94 | empties the slot and pushes the handle onto the free bucket; counter and capacity unchanged |
| MemoryArena.Arena.Alloc | src/memory_arena.rs:14-24 | the new arena's state is `Allocated` |
| MemoryArena.Arena.Insert | src/memory_arena.rs:27-49 | the new state and handle are `Inserted` |
| MemoryArena.Arena.Get | src/memory_arena.rs:51-67 | returns the found block; panics on each `Lookup` failure |
| MemoryArena.Arena.GetMut | src/memory_arena.rs:69-85 | replaces the block at a valid handle, keeping its version |
| MemoryArena.Arena.Remove | src/memory_arena.rs:87-94 | validates with `get`, then the new state is `Removed` |
| MemoryArena.RemoveThenInsertRejectsOldHandle | src/memory_arena.rs:87-94 | after a remove the handle is `Freed`; a re-insert reuses its slot, the old handle then fails with a generation mismatch, and the new one is found |
| MemoryArena.StaleStaysStale | src/memory_arena.rs:51-67 | a rejected handle the arena issued stays rejected after any insert and after removing another handle |
| MemoryArena.FullArenaStaysFull | src/memory_arena.rs:27-30 | a remove from a full arena leaves it full with a non-empty bucket, so `insert` still panics |
| MemoryArena.InsertRemoveInsertVersions | src/memory_arena.rs:171-186 | handles (0,1), (1,2), then (0,3) after removing the first |
| RendererStorage.NextId | renderer/src/storage.rs:53-66 | the counter goes up by one and the id carries it; with no recycled ids the data is the previous cursor + 1, otherwise the last recycled id's data is reused |
| RendererStorage.Recycled | renderer/src/storage.rs:68-70 | queues the id for reuse; cursor and counter unchanged |
| RendererStorage.EmptyStorage | renderer/src/storage.rs:111-118 | a default storage has no items |
| RendererStorage.Pushed | renderer/src/storage.rs:87-92 | inserts under `NextId`'s id, which is not already a key, so nothing is overwritten |
| RendererStorage.Removed | renderer/src/storage.rs:94-97 | deletes the key and recycles the id |
| RendererStorage.Cleared | renderer/src/storage.rs:99-104 | no items, cursor (0,0), counter 0, no recycled ids |
| RendererStorage.Get | renderer/src/storage.rs:106-108 | `Some` iff the id is a key, with its item |
| RendererStorage.IdentifyGeneratorPool.Default | renderer/src/storage.rs:44-50 | a new pool is the empty pool |
| RendererStorage.IdentifyGeneratorPool.NewId | renderer/src/storage.rs:53-66 | new state and id are `NextId` |
| RendererStorage.IdentifyGeneratorPool.RemoveId | renderer/src/storage.rs:68-70 | new state is `Recycled` |
| RendererStorage.IdentifyGeneratorPool.Clear | renderer/src/storage.rs:72-78 | the pool returns to the empty pool |
| RendererStorage.Storage.Default | renderer/src/storage.rs:111-118 | a new storage is `EmptyStorage` |
| RendererStorage.Storage.Push | renderer/src/storage.rs:87-92 | new state and id are `Pushed` |
| RendererStorage.Storage.Remove | renderer/src/storage.rs:94-97 | new state is `Removed` |
| RendererStorage.Storage.Clear | renderer/src/storage.rs:99-104 | new state is `Cleared` |
| RendererStorage.Storage.GetMut | renderer/src/storage.rs:106-108 | found iff the id is a key; only then is the item replaced |
| RendererStorage.RemoveUndoesPush | renderer/src/storage.rs:87-97 | removing the id a push returned gives back the original items |
| RendererStorage.RemoveLeavesOthers | renderer/src/storage.rs:156-172 | after a remove, the id misses and every other id reads as before |
| RendererStorage.StaleIdStaysStale | renderer/src/storage.rs:53-66 | an id that misses and was already issued still misses after a push, because the pushed id has a newer generation |
| RendererStorage.IdsRepeatAfterClear | renderer/src/storage.rs:72-78 | after a clear the next push returns id (1,1) again, so a kept id (1,1) resolves to the new item |
| RendererStorage.StorageScenario | renderer/src/storage.rs:174-188 | push a, push b, remove a, push c gives (1,1), (2,2), (1,3); a clear then empties everything |
| Tilemaps.NewWorld | src/tilemap.rs:72-78 | the world is named "uninitialized"; it is well formed iff the grid has 7 rows of 5 cells, and then `get_tilemap` reads each in-world cell (x, y) from row y, column x of the given grid |
| Tilemaps.GetTilemap | src/tilemap.rs:215-228 | `None` outside the 5×7 world; otherwise the grid cell `grid[y][x]` |
| Tilemaps.WrapTile | src/tilemap.rs:187-203 | x wraps 10→0 and -1→9, y wraps 13→0 and -1→12; the y rule runs last and overrides the x wrap |
| Tilemaps.GetNextPosition | src/tilemap.rs:162-213 | stays in the tilemap with the original world and handle; `None` past the world edge; across a boundary `Some` iff the neighbour is present, with world + delta, wrapped tile and the neighbour's handle |
| Tilemaps.PositionAt | src/global.rs:36-37 | the global-grid reference: a cell of the 50×91 grid maps back to a position in a present tilemap |
| Tilemaps.NextPositionIsGlobalStep | src/tilemap.rs:162-213 | for a unit step from a position in a present tilemap, `get_next_position` is the global-grid reference's step by the same delta |
| Tilemaps.NextPositionStaysLocated | src/tilemap.rs:187-203 | a unit step lands in bounds inside a present tilemap |
| Tilemaps.DiagonalCornerStepLeavesGrid | src/tilemap.rs:187-203 | the diagonal step (1,1) from tile (9,12) yields tile x 10, outside the tilemap, because the y wrap discards the x wrap |
| Tilemaps.Add | src/tilemap.rs:50-60 | the world and tilemap coordinates both move by exactly the delta, and the handle is kept |
| Tilemaps.AddComposes | src/tilemap.rs:50-60 | adding two deltas in turn is adding their sum, and the zero delta changes nothing |
| Tilemaps.Siblings | src/tilemap.rs:135-160 | at most one pair per delta |
| Tilemaps.SiblingsExact | src/tilemap.rs:135-160 | a pair is listed iff its position is world_pos + one of the deltas and the tilemap there is present with that handle |
| Tilemaps.GetSiblingTilemap | src/tilemap.rs:135-160 | the loop returns `Siblings` over the eight deltas in source order, at most 8 pairs |
| Tilemaps.DecodeTag | src/tilemap.rs:265-288 | tag `Some(1)` gives `Ground`; any other value or `None` gives `Void` |
| Tilemaps.DecodedGrid | src/tilemap.rs:265-288 | a 13×10 grid whose cells inside the map's dimension are decoded tags and whose cells outside stay `Ground` |
| Tilemaps.DecodeGrid | src/tilemap.rs:265-288 | the nested loops build `DecodedGrid` |
| Tilemaps.SetCell | src/tilemap.rs:333-335 | the written cell reads back, and every other cell is unchanged |
| Tilemaps.Tilemap.FromMapFile | src/tilemap.rs:265-288 | the tilemap keeps the map file's name and path, and its grid is `DecodedGrid`: `get_tile` gives ground exactly outside the dimension or at a tag 1 |
| Tilemaps.Tilemap.GetTile | src/tilemap.rs:329-331 | the tile of row y, column x (rows first); `Set` and `FromMapFile` state what it then reads |
| Tilemaps.Tilemap.Set | src/tilemap.rs:329-335 | the grid becomes `SetCell`; `get_tile` then returns the value at the written cell and the old tile everywhere else |
| Movement.ToGridDelta | src/player.rs:251-258 | a unit step; x is 0 exactly for Up and Down |
| Movement.GridDeltaFacts | src/player.rs:251-258 | opposite directions give negated deltas, and distinct directions give distinct deltas |
| Movement.TurnIndex | src/player.rs:270-300 | each direction's place in the order Up, Right, Down, Left |
| Movement.FromTurnIndex | src/player.rs:270-300 | inverts `TurnIndex` |
| Movement.Turned | src/player.rs:270-300 | turning by one is one step along Up→Right→Down→Left |
| Movement.ConvertDirFromCam | src/player.rs:270-300 | always `Some`: the direction turned by the camera's place in the rotation cycle |
| Movement.ConvertBehindAndForward | src/player.rs:270-300 | `Behind` is the identity and `Forward` gives the opposite direction |
| Movement.ConvertIsBijection | src/player.rs:270-300 | for each rotation the remap is injective and onto |
| Movement.RotateAddTurnsDirection | src/camera.rs:84-91 | one `rotate_add` turns every converted direction one step further |
| Movement.SelectDirection | src/player.rs:44-61 | of W, S, D and A the last pressed one wins, remapped by the camera; `None` iff none is pressed |
| Movement.TilemapOf | src/player.rs:221-239 | a position in a present tilemap resolves to a valid tilemap object |
| Movement.CanMove | src/player.rs:221-239 | `Some(p)` iff `get_next_position` gives `p` and the tile there is `Ground`; `p` is the global-grid step |
| Movement.StepTargetsAnotherCell | src/player.rs:127-138 | when the step stays in the same tilemap object, it is the same world cell and a different tile |
| Movement.Player.constructor | src/player.rs:10-34 | the player starts at the given position |
| Movement.SwapTiles | src/player.rs:131-135 | the cell left becomes `Ground` and the cell entered `Player`, in the same tilemap object or in two; every other tilemap is unchanged and the tilemaps stay valid |
| Movement.Player.Move | src/player.rs:124-138 | moves iff `can_move` succeeds; the old cell becomes `Ground`, the new one `Player`, the position is the new one, and other tilemaps are unchanged; otherwise nothing changes |
| Movement.Player.UpdatePlayer | src/player.rs:36-179 | moves iff shift is not held, a key selects a direction and `can_move` succeeds for it; the move is that global-grid step; otherwise position and grids are unchanged |
| Camera.CycleIndex | src/camera.rs:84-91 | the place of each view in the `rotate_add` cycle |
| Camera.CycleIndexInjective | src/camera.rs:75-81 | distinct views have distinct places |
| Camera.RotateAdd | src/camera.rs:84-91 | one step forward along the cycle, never a fixed point |
| Camera.RotateSub | src/camera.rs:93-100 | one step back along the cycle, never a fixed point |
| Camera.RotateRoundTrip | src/camera.rs:84-100 | `rotate_add` and `rotate_sub` undo each other |
| Camera.FourStepsIdentity | src/camera.rs:84-100 | four steps in one direction give back the start |
| Camera.Rotate | src/camera.rs:102-113 | y is 0 and exactly one horizontal component is ±distance: `Behind` puts the camera at z = −distance, `Forward` at z = +distance, `FromRight` at x = −distance, `FromLeft` at x = +distance |
| Camera.RotateAddTurnsOffset | src/camera.rs:84-113 | one `rotate_add` turns the offset a quarter turn; two point it the opposite way |
| GameInput.Registered | src/input.rs:48-64 | adds a fresh entry stamped `now` only for an absent key; existing entries, and their latch, are kept |
| GameInput.Latched | src/input.rs:124-133 | fires iff the key is present and unlatched, and latches it; nothing else changes |
| GameInput.DelayDue | src/input.rs:77-87 | due iff the key is pressed and at least `delay` has elapsed since its stamp; the stamp is renewed only when due |
| GameInput.AtMostOncePerPress | src/input.rs:124-133 | without a release, presses and once-queries fire at most once in all; never when the key is already latched, or absent and not pressed later |
| GameInput.PressQueryReleaseScenario | src/input.rs:124-133 | press then two queries fires once; a release and a new press fire again |
| GameInput.ToStr | src/input.rs:233-276 | one-character strings; `None` exactly for Esc, Tab, Backspace, the arrows and Enter |
| GameInput.CharReadsBack | src/input.rs:233-276 | each key's character reads back as that key |
| GameInput.ToStrReadsBack | src/input.rs:233-276 | each key's string is its letter in lower case, digit or space |
| GameInput.ToStrInjective | src/input.rs:233-276 | distinct keys give distinct strings |
| GameInput.Input.New | src/input.rs:16-21 | no keys, no buttons, no last key, default cursor and modifiers |
| GameInput.Input.IsNothingPressed | src/input.rs:23-25 | true iff no key is pressed |
| GameInput.Input.IsPressed | src/input.rs:72-75 | true iff the key is held, which is exactly when `is_pressed_delay` with zero delay answers true; a key not held never fires `is_pressed_once` |
| GameInput.Input.IsCursorMoved | src/input.rs:135-139 | the moved flag of the cursor; `UpdateCursorPosition` states that it then reads the new cursor's flag |
| GameInput.Input.IsDragged | src/input.rs:141-145 | the dragged flag; `IsClicked` states that it then reads whether the button was held |
| GameInput.Input.RegisterKey | src/input.rs:48-53 | the keyboard becomes `Registered` |
| GameInput.Input.RemoveKey | src/input.rs:113-117 | the key is gone, a no-op when absent |
| GameInput.Input.RegisterClick | src/input.rs:59-64 | the mouse map becomes `Registered` |
| GameInput.Input.RemoveClick | src/input.rs:66-70 | the button is gone, a no-op when absent |
| GameInput.Input.UpdateKey | src/input.rs:28-36 | a press registers the key and clears the last key; a release removes it and records it as the last key |
| GameInput.Input.UpdateMouse | src/input.rs:39-45 | a click registers the button, a release removes it |
| GameInput.Input.UpdateCursorPosition | src/input.rs:55-57 | replaces the cursor only; `is_cursor_moved` then answers the new cursor's flag |
| GameInput.Input.SetModifier | src/input.rs:120-122 | replaces the modifiers only |
| GameInput.Input.IsPressedDelay | src/input.rs:77-87 | result and keyboard are `DelayDue` |
| GameInput.Input.PressedStr | src/input.rs:89-97 | `to_str` of the last released key, which is then cleared |
| GameInput.Input.IsClicked | src/input.rs:100-110 | membership, also stored as the cursor's dragged flag, which `is_dragged` then answers |
| GameInput.Input.IsPressedOnce | src/input.rs:124-133 | result and keyboard are `Latched` |
| GameInput.Input.IsClickedOnce | src/input.rs:148-157 | result and mouse map are `Latched` |
| GameInput.Input.Clear | src/input.rs:160-163 | empties the keyboard only |
| EngineInput.Registered | engine/src/input.rs:38-52 | adds an unlatched entry only for an absent key |
| EngineInput.Latched | engine/src/input.rs:83-90 | invokes iff present and unlatched, and latches |
| EngineInput.OncePerPress | engine/src/input.rs:83-111 | never for an absent key; not again after firing, even after a repeated press event; again after a release and a new press |
| EngineInput.AtMostOncePerPress | engine/src/input.rs:20-90 | without a release, presses and `pressed_once` calls invoke the callback at most once in all; never when the key is already latched, or absent and not pressed later |
| EngineInput.Input.New | engine/src/input.rs:12-17 | empty maps, default cursor and modifiers |
| EngineInput.Input.IsPressed | engine/src/input.rs:60-63 | true iff the key is held; a key not held never invokes `pressed_once` |
| EngineInput.Input.IsClicked | engine/src/input.rs:65-68 | true iff the button is held; a button not held never invokes `clicked` |
| EngineInput.Input.OnCursorMoved | engine/src/input.rs:92-97 | invokes the callback iff the cursor has moved; `UpdateCursorPosition` states that it then follows the new cursor |
| EngineInput.Input.RegisterKey | engine/src/input.rs:38-42 | the keyboard becomes `Registered` |
| EngineInput.Input.RemoveKey | engine/src/input.rs:71-75 | the key is gone |
| EngineInput.Input.RegisterClick | engine/src/input.rs:48-52 | the mouse map becomes `Registered` |
| EngineInput.Input.RemoveClick | engine/src/input.rs:54-58 | the button is gone |
| EngineInput.Input.UpdateKey | engine/src/input.rs:20-26 | press registers, release removes; `is_pressed` then equals the event |
| EngineInput.Input.UpdateMouse | engine/src/input.rs:29-35 | click registers, release removes; `is_clicked` then equals the event |
| EngineInput.Input.UpdateCursorPosition | engine/src/input.rs:44-46 | replaces the cursor only; `on_cursor_moved` then follows the new cursor's flag |
| EngineInput.Input.SetModifier | engine/src/input.rs:78-80 | replaces the modifiers only |
| EngineInput.Input.PressedOnce | engine/src/input.rs:83-90 | keyboard and invocation are `Latched` |
| EngineInput.Input.Clicked | engine/src/input.rs:100-111 | mouse map and invocation are `Latched` |
| EngineInput.Input.Clear | engine/src/input.rs:113-116 | empties the keyboard only |
| EngineMath.Add | engine/src/math.rs:33-43 | subtracting either operand from the sum gives back the other |
| EngineMath.Sub | engine/src/math.rs:45-55 | the difference is the zero vector exactly when the operands are equal |
| EngineMath.Mul | engine/src/math.rs:57-67 | dividing the product by a factor with no zero component gives back the other factor |
| EngineMath.TruncDiv | engine/src/math.rs:69-79 | the quotient rounded toward zero: the remainder has the dividend's sign and is smaller than the divisor |
| EngineMath.TruncDivUnique | engine/src/math.rs:69-79 | that remainder condition determines the quotient |
| EngineMath.Div | engine/src/math.rs:69-79 | componentwise truncating division by a vector with no zero component |
| EngineMath.SubUndoesAdd | engine/src/math.rs:33-55 | `Sub` undoes `Add` and `Add` commutes |
| EngineMath.DivRoundsTowardZero | engine/src/math.rs:69-79 | -7 / 2 is -3 and -7 / -2 is 3, unlike Euclidean division |
| EngineMath.AddExample | engine/src/math.rs:104-126 | (1,2,3)+(4,5,6)=(5,7,9) |
| EngineMath.SubExample | engine/src/math.rs:104-126 | (1,2,3)-(4,5,6)=(-3,-3,-3) |
| EngineMath.MulExample | engine/src/math.rs:104-126 | (1,2,3)·(4,5,6)=(4,10,18) |

## Left out

- Windowing, event polling, rendering, OpenGL, file loading and serde are outside this model. `World::from_file` and `Tilemap::from_file` (with their tag-2 walls) are not part of it. Only the tag decoding of `From<MapFile>` is modelled.
- Floating point is not modelled: the lerp of `update_player`, `to_float_pos`, `world_pos`/`end_pos`, `follow_player` and `Mat4`. `Camera.Rotate` works over reals, so the sign of a `-0.0` component is not captured.
- Integer widths are not modelled: `u32` versions and counters, `i32` coordinates and vector components, and `usize` indices are unbounded. Overflow, including `i32::MIN / -1`, is not captured.
- `Vec::with_capacity` and `shrink_to_fit` only reserve memory; the model keeps the capacity as a number that `insert` checks, or as no limit for a zero-sized element type, whose vector reports `usize::MAX`.
- `Entities.Arena.Alloc`: for an element type of non-zero size the capacity is taken to be exactly `nb_items`. The standard library promises only at least that much, so the source may accept more inserts than the model before it panics.
- `Instant` becomes a `now: nat` parameter, so `is_pressed_delay` compares whole time units.
- Callbacks of `pressed_once`, `clicked` and `on_cursor_moved` become a returned or computed `invoked` flag; what the callback does is not modelled.
- `Movement.Player.UpdatePlayer`: the source looks tilemaps up through an entity store whose API has drifted from `src/entities.rs`, and passes a handle that is optional. The model reads tilemap objects from a map keyed by handle, and requires every world cell's handle to be present.
- `Movement.Player.UpdatePlayer`: the `dbg!` output of `is_pressed_once(N)` is not modelled. The tilemap swap of `Move` is. The camera-rotation keys H and L are read by `follow_player` in `src/camera.rs`, which is not part of this model; `Camera.RotateAdd` and `Camera.RotateSub` model the rotation they trigger.
- `Movement.Player.UpdatePlayer` takes the four `is_pressed_delay` answers and the shift modifier as booleans, so it does not change the input state. In the source, all four calls run every frame and restart the delay instant of each key that is due, and `is_pressed_once(N)` latches N. Those effects are modelled by `GameInput.DelayDue` and `GameInput.Latched` on their own, not as part of a player update.
- `Movement.TilemapsValid` assumes that different world cells hold different handles and that different handles resolve to different tilemap objects. The source loads each tilemap once into its arena and stores its handle in one world cell, but no check enforces either property.
- `Tilemap::find_player` is dead code and is not part of this model.
- `Tilemaps.Tilemap.FromMapFile`: a dimension whose loops would index past the 13×10 tag array is excluded by `requires`, because the source panics there. With one side 0 nothing is decoded, which the model allows for any other side. A negative width with height 0 makes the source run about 2^64 empty iterations; the model skips them and gives the same all-ground grid.
- The `Deref` of `GeneratedId` to its data is not modelled; ids are compared as (data, generation) pairs.
- `GameInput.ToStrReadsBack` proves that each key's string reads back as that key. It does not prove that every character of that set comes from a key.

## Findings

| source | as written | input that shows it | evidently intended | confidence | as-written member | corrected member |
|---|---|---|---|---|---|---|
| src/entities.rs:133-138 | `flush` pushes the position of each live handle among the live handles, not its slot index | insert a, insert b, remove the first handle, flush: the free list is [0, 0]; slot 1 never comes back and the next two inserts share slot 0 | push each live handle's own slot index, so the free list names every dirty slot once | not executed | Entities.FlushAfterRemoveQueuesSlotTwice | Entities.FlushedSlotsKeepsFreeListExact |
