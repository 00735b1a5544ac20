/** Model of the movement rules of src/player.rs: the camera-relative direction
    remap, the grid delta of a direction, the `can_move` test and the tile swap
    of a successful move. */
module Movement {
  import opened Wrappers
  import opened Tilemaps
  import Camera

  datatype MoveDirection = Up | Down | Right | Left

  /** `to_grid_delta`. Right is -x and Left is +x. */
  function ToGridDelta(d: MoveDirection): (v: Vec2)
    ensures IsUnitStep(v)
    ensures v.x == 0 <==> (d == Up || d == Down)
  {
    match d
    case Up => Vec2(0, 1)
    case Down => Vec2(0, -1)
    case Right => Vec2(-1, 0)
    case Left => Vec2(1, 0)
  }

  function Opposite(d: MoveDirection): MoveDirection {
    match d
    case Up => Down
    case Down => Up
    case Right => Left
    case Left => Right
  }

  /** Opposite directions have opposite deltas, and distinct directions
      distinct deltas. */
  lemma GridDeltaFacts(d: MoveDirection, e: MoveDirection)
    ensures ToGridDelta(Opposite(d)) == Vec2(-ToGridDelta(d).x, -ToGridDelta(d).y)
    ensures ToGridDelta(d) == ToGridDelta(e) ==> d == e
  {
  }

  /** The quarter turn Up, Right, Down, Left, Up. */
  function Turn(d: MoveDirection): MoveDirection {
    match d
    case Up => Right
    case Right => Down
    case Down => Left
    case Left => Up
  }

  /** The position of a direction along the quarter-turn cycle. */
  function TurnIndex(d: MoveDirection): (i: nat)
    ensures i < 4
  {
    match d
    case Up => 0
    case Right => 1
    case Down => 2
    case Left => 3
  }

  function FromTurnIndex(i: nat): (d: MoveDirection)
    requires i < 4
    ensures TurnIndex(d) == i
  {
    if i == 0 then Up else if i == 1 then Right else if i == 2 then Down else Left
  }

  /** `n` quarter turns. */
  function Turned(d: MoveDirection, n: nat): (r: MoveDirection)
    ensures n == 1 ==> r == Turn(d)
  {
    FromTurnIndex((TurnIndex(d) + n) % 4)
  }

  /** `convert_dir_from_cam`: the direction a key means under the camera's view;
      it turns the key's direction once per step the view has taken from Behind. */
  function ConvertDirFromCam(direction: MoveDirection, rotation: Camera.CamRotation): (r: Option<MoveDirection>)
    ensures r == Some(Turned(direction, Camera.CycleIndex(rotation)))
  {
    match direction
    case Up =>
      (match rotation
       case Behind => Some(Up)
       case Forward => Some(Down)
       case FromLeft => Some(Right)
       case FromRight => Some(Left))
    case Down =>
      (match rotation
       case Behind => Some(Down)
       case Forward => Some(Up)
       case FromLeft => Some(Left)
       case FromRight => Some(Right))
    case Left =>
      (match rotation
       case Behind => Some(Left)
       case Forward => Some(Right)
       case FromLeft => Some(Up)
       case FromRight => Some(Down))
    case Right =>
      (match rotation
       case Behind => Some(Right)
       case Forward => Some(Left)
       case FromLeft => Some(Down)
       case FromRight => Some(Up))
  }

  /** From behind keys mean what they say; from the front every key means
      its opposite. */
  lemma ConvertBehindAndForward(d: MoveDirection)
    ensures ConvertDirFromCam(d, Camera.Behind) == Some(d)
    ensures ConvertDirFromCam(d, Camera.Forward) == Some(Opposite(d))
  {
  }

  /** Under every view the remap is a bijection on the four directions. */
  lemma ConvertIsBijection(rotation: Camera.CamRotation, d: MoveDirection, e: MoveDirection)
    ensures ConvertDirFromCam(d, rotation) == ConvertDirFromCam(e, rotation) ==> d == e
    ensures exists k :: ConvertDirFromCam(k, rotation) == Some(e)
  {
    match rotation
    case Behind => assert ConvertDirFromCam(e, rotation) == Some(e);
    case Forward => assert ConvertDirFromCam(Opposite(e), rotation) == Some(e);
    case FromLeft => assert ConvertDirFromCam(Turn(Turn(Turn(e))), rotation) == Some(e);
    case FromRight => assert ConvertDirFromCam(Turn(e), rotation) == Some(e);
  }

  /** Moving the camera one step with `rotate_add` turns every remapped
      direction one quarter turn further. */
  lemma RotateAddTurnsDirection(rotation: Camera.CamRotation, d: MoveDirection)
    ensures ConvertDirFromCam(d, Camera.RotateAdd(rotation)) ==
      Some(Turn(ConvertDirFromCam(d, rotation).value))
  {
  }

  /** The direction `update_player` settles on from the W, S, D and A keys it
      polls in that order; a later key overrides an earlier one. */
  function SelectDirection(rotation: Camera.CamRotation, w: bool, s: bool, d: bool, a: bool): (r: Option<MoveDirection>)
    ensures a ==> r == ConvertDirFromCam(Left, rotation)
    ensures !a && d ==> r == ConvertDirFromCam(Right, rotation)
    ensures !a && !d && s ==> r == ConvertDirFromCam(Down, rotation)
    ensures !a && !d && !s && w ==> r == ConvertDirFromCam(Up, rotation)
    ensures r.None? <==> !(w || s || d || a)
  {
    var afterW := if w then ConvertDirFromCam(Up, rotation) else None;
    var afterS := if s then ConvertDirFromCam(Down, rotation) else afterW;
    var afterD := if d then ConvertDirFromCam(Right, rotation) else afterS;
    if a then ConvertDirFromCam(Left, rotation) else afterD
  }

  // ---------------------------------------------------------------------------
  // Moving on the tilemaps

  /** The world's tilemaps, as the arena resolves them: every handle in the
      world grid leads to a well-shaped tilemap, different cells hold different
      handles, and different handles different tilemaps. */
  ghost predicate TilemapsValid(w: World, tilemaps: map<Handle, Tilemap>)
    reads tilemaps.Values
  {
    && WellFormed(w)
    && (forall y, x :: 0 <= y < TilemapsY && 0 <= x < TilemapsX && w.grid[y][x].Some? ==>
          w.grid[y][x].value in tilemaps && tilemaps[w.grid[y][x].value].Valid())
    && (forall y1, x1, y2, x2 ::
          0 <= y1 < TilemapsY && 0 <= x1 < TilemapsX && 0 <= y2 < TilemapsY && 0 <= x2 < TilemapsX
          && w.grid[y1][x1].Some? && w.grid[y1][x1] == w.grid[y2][x2]
          ==> y1 == y2 && x1 == x2)
    && (forall h1, h2 :: h1 in tilemaps && h2 in tilemaps && h1 != h2 ==> tilemaps[h1] != tilemaps[h2])
  }

  /** The tilemap object a located position is in. */
  function TilemapOf(w: World, tilemaps: map<Handle, Tilemap>, p: AbsolutePosition): (t: Tilemap)
    reads tilemaps.Values
    requires TilemapsValid(w, tilemaps) && Located(w, p)
    ensures t in tilemaps.Values && t.Valid()
  {
    tilemaps[p.handle.value]
  }

  /** The tile a located position names. */
  function TileAt(w: World, tilemaps: map<Handle, Tilemap>, p: AbsolutePosition): Tile
    reads tilemaps.Values
    requires TilemapsValid(w, tilemaps) && Located(w, p)
  {
    TilemapOf(w, tilemaps, p).GetTile(p.tilemap.x, p.tilemap.y)
  }

  /** `can_move`: the next position, when there is one and its tile is ground. */
  function CanMove(w: World, tilemaps: map<Handle, Tilemap>, pos: AbsolutePosition, delta: Vec2): (r: Option<AbsolutePosition>)
    reads tilemaps.Values
    requires TilemapsValid(w, tilemaps) && Located(w, pos) && IsUnitStep(delta)
    ensures r.Some? ==> r == GetNextPosition(w, pos, delta)
    ensures r.Some? ==> Located(w, r.value) && GlobalTile(r.value) == GlobalTile(pos).Plus(delta)
    ensures r.Some? <==>
      && PositionAt(w, GlobalTile(pos).Plus(delta)).Some?
      && TileAt(w, tilemaps, PositionAt(w, GlobalTile(pos).Plus(delta)).value) == Ground
  {
    NextPositionIsGlobalStep(w, pos, delta);
    match GetNextPosition(w, pos, delta)
    case Some(newPosition) =>
      if TileAt(w, tilemaps, newPosition) == Ground then Some(newPosition) else None
    case None => None
  }

  /** A move between two located positions one step apart changes tiles:
      distinct positions, and the same tilemap object only when both are in
      the same world cell. */
  lemma StepTargetsAnotherCell(w: World, tilemaps: map<Handle, Tilemap>, p: AbsolutePosition, q: AbsolutePosition, delta: Vec2)
    requires TilemapsValid(w, tilemaps) && Located(w, p) && Located(w, q) && IsUnitStep(delta)
    requires GlobalTile(q) == GlobalTile(p).Plus(delta)
    ensures TilemapOf(w, tilemaps, p) == TilemapOf(w, tilemaps, q) ==> p.world == q.world && p.tilemap != q.tilemap
  {
    if TilemapOf(w, tilemaps, p) == TilemapOf(w, tilemaps, q) {
      assert p.handle == q.handle;
      assert w.grid[p.world.y][p.world.x] == w.grid[q.world.y][q.world.x];
    }
  }

  /** The tile swap of a successful move: the cell left becomes ground and the
      cell entered becomes the player, in whichever tilemaps hold them. */
  method SwapTiles(w: World, tilemaps: map<Handle, Tilemap>, p: AbsolutePosition, q: AbsolutePosition, delta: Vec2)
    requires TilemapsValid(w, tilemaps) && Located(w, p) && Located(w, q) && IsUnitStep(delta)
    requires GlobalTile(q) == GlobalTile(p).Plus(delta)
    modifies tilemaps.Values
    ensures TilemapsValid(w, tilemaps)
    ensures TileAt(w, tilemaps, p) == Ground && TileAt(w, tilemaps, q) == Player
    ensures
      var from, to := old(TilemapOf(w, tilemaps, p)), TilemapOf(w, tilemaps, q);
      && (from == to ==> to.grid == SetCell(SetCell(old(from.grid), p.tilemap, Ground), q.tilemap, Player))
      && (from != to ==>
            from.grid == SetCell(old(from.grid), p.tilemap, Ground)
            && to.grid == SetCell(old(to.grid), q.tilemap, Player))
      && forall t :: t in tilemaps.Values && t != from && t != to ==> t.grid == old(t.grid)
  {
    StepTargetsAnotherCell(w, tilemaps, p, q, delta);
    var from := TilemapOf(w, tilemaps, p);
    from.Set(p.tilemap, Ground);
    var to := TilemapOf(w, tilemaps, q);
    to.Set(q.tilemap, Player);
  }

  class Player {
    var tilemapPos: AbsolutePosition

    constructor (tilemapPos: AbsolutePosition)
      ensures this.tilemapPos == tilemapPos
    {
      this.tilemapPos := tilemapPos;
    }

    /** The move branch of `update_player`: when `can_move` allows the step, the
        old cell becomes ground, the new cell the player, and the position moves. */
    method Move(w: World, tilemaps: map<Handle, Tilemap>, dir: MoveDirection) returns (moved: bool)
      requires TilemapsValid(w, tilemaps) && Located(w, tilemapPos)
      modifies this, tilemaps.Values
      ensures TilemapsValid(w, tilemaps) && Located(w, tilemapPos)
      ensures moved <==> old(CanMove(w, tilemaps, tilemapPos, ToGridDelta(dir))).Some?
      ensures !moved ==> tilemapPos == old(tilemapPos)
      ensures moved ==> tilemapPos == old(CanMove(w, tilemaps, tilemapPos, ToGridDelta(dir))).value
      ensures moved ==> GlobalTile(tilemapPos) == GlobalTile(old(tilemapPos)).Plus(ToGridDelta(dir))
      ensures moved ==> TileAt(w, tilemaps, old(tilemapPos)) == Ground && TileAt(w, tilemaps, tilemapPos) == Player
      ensures !moved ==> forall t :: t in tilemaps.Values ==> t.grid == old(t.grid)
      ensures moved ==>
        var from, to := old(TilemapOf(w, tilemaps, tilemapPos)), TilemapOf(w, tilemaps, tilemapPos);
        && (from == to ==> to.grid == SetCell(SetCell(old(from.grid), old(tilemapPos).tilemap, Ground), tilemapPos.tilemap, Player))
        && (from != to ==>
              from.grid == SetCell(old(from.grid), old(tilemapPos).tilemap, Ground)
              && to.grid == SetCell(old(to.grid), tilemapPos.tilemap, Player))
        && forall t :: t in tilemaps.Values && t != from && t != to ==> t.grid == old(t.grid)
    {
      var delta := ToGridDelta(dir);
      var next := CanMove(w, tilemaps, tilemapPos, delta);
      moved := next.Some?;
      if moved {
        var start := tilemapPos;
        tilemapPos := next.value;
        SwapTiles(w, tilemaps, start, tilemapPos, delta);
      }
    }

    /** `update_player` without its float animation: pick the direction from
        the keys polled (W, S, D, A), stop while shift is held, otherwise try
        the move. */
    method UpdatePlayer(w: World, tilemaps: map<Handle, Tilemap>, rotation: Camera.CamRotation,
                        wKey: bool, sKey: bool, dKey: bool, aKey: bool, shift: bool) returns (moved: bool)
      requires TilemapsValid(w, tilemaps) && Located(w, tilemapPos)
      modifies this, tilemaps.Values
      ensures TilemapsValid(w, tilemaps) && Located(w, tilemapPos)
      ensures moved <==>
        && !shift && SelectDirection(rotation, wKey, sKey, dKey, aKey).Some?
        && old(CanMove(w, tilemaps, tilemapPos, ToGridDelta(SelectDirection(rotation, wKey, sKey, dKey, aKey).value))).Some?
      ensures !moved ==> tilemapPos == old(tilemapPos) && forall t :: t in tilemaps.Values ==> t.grid == old(t.grid)
      ensures moved ==>
        GlobalTile(tilemapPos) == GlobalTile(old(tilemapPos)).Plus(ToGridDelta(SelectDirection(rotation, wKey, sKey, dKey, aKey).value))
    {
      var direction := SelectDirection(rotation, wKey, sKey, dKey, aKey);
      if shift {
        return false;
      }
      moved := false;
      if direction.Some? {
        moved := Move(w, tilemaps, direction.value);
      }
    }
  }
}
