/** Model of the addressing part of src/tilemap.rs: a world of 7 x 5 optional
    tilemaps, each a grid of 13 x 10 tiles, and the rule that moves a position
    by a delta, wrapping into the neighbouring tilemap at an edge. */
module Tilemaps {
  import opened Wrappers
  import Entities

  /** `TILES_COUNT` (src/global.rs): tiles per tilemap, columns then rows. */
  const TilesX: int := 10
  const TilesY: int := 13
  /** `TILEMAPS_COUNT` (src/global.rs): tilemaps per world, columns then rows. */
  const TilemapsX: int := 5
  const TilemapsY: int := 7

  /** The arena handle a world cell or a wall tile holds. */
  type Handle = Entities.MemoryHandle

  /** An integer 2-vector (`glm::TVec2<i32>`). */
  datatype Vec2 = Vec2(x: int, y: int) {
    function Plus(d: Vec2): Vec2 {
      Vec2(x + d.x, y + d.y)
    }
  }

  predicate InTilemap(t: Vec2) {
    0 <= t.x < TilesX && 0 <= t.y < TilesY
  }

  predicate InWorld(w: Vec2) {
    0 <= w.x < TilemapsX && 0 <= w.y < TilemapsY
  }

  /** A tile address: which tilemap of the world, which tile in it, and the
      tilemap's handle when known. */
  datatype AbsolutePosition = AbsolutePosition(world: Vec2, tilemap: Vec2, handle: Option<Handle>)

  /** `AbsolutePosition + delta`: the delta moves both coordinates by the same
      amount and the handle is kept. */
  function Add(p: AbsolutePosition, delta: Vec2): (r: AbsolutePosition)
    ensures r.handle == p.handle
    ensures r.world.x - p.world.x == r.tilemap.x - p.tilemap.x == delta.x
    ensures r.world.y - p.world.y == r.tilemap.y - p.tilemap.y == delta.y
  {
    AbsolutePosition(p.world.Plus(delta), p.tilemap.Plus(delta), p.handle)
  }

  /** A world: its name and a grid of optional tilemap handles, indexed
      `grid[y][x]`. */
  datatype World = World(name: string, grid: seq<seq<Option<Handle>>>)

  /** The shape `World::from_file` builds: 7 rows of 5 cells. */
  predicate WellFormed(w: World) {
    |w.grid| == TilemapsY && forall y :: 0 <= y < |w.grid| ==> |w.grid[y]| == TilemapsX
  }

  /** `World::new`: the given grid under the placeholder name. Given a grid of
      7 rows of 5 cells, the world is well formed and `get_tilemap` reads cell
      (x, y) from row y, column x. */
  function NewWorld(grid: seq<seq<Option<Handle>>>): (w: World)
    ensures w.name == "uninitialized"
    ensures WellFormed(w) <==>
      |grid| == TilemapsY && forall y :: 0 <= y < |grid| ==> |grid[y]| == TilemapsX
    ensures WellFormed(w) ==> forall pos :: InWorld(pos) ==> GetTilemap(w, pos) == grid[pos.y][pos.x]
  {
    World("uninitialized", grid)
  }

  /** `get_tilemap`: the handle at a world coordinate, none outside the world. */
  function GetTilemap(w: World, pos: Vec2): (r: Option<Handle>)
    requires WellFormed(w)
    ensures !InWorld(pos) ==> r == None
    ensures InWorld(pos) ==> r == w.grid[pos.y][pos.x]
  {
    if !InWorld(pos) then None else w.grid[pos.y][pos.x]
  }

  /** The tile coordinate `get_next_position` gives when the moved coordinate
      leaves the tilemap: an x overflow wraps to the other side, and a y
      overflow wraps y and keeps x, overriding any x wrap. */
  function WrapTile(t: Vec2): (r: Vec2)
    ensures t.y < 0 ==> r == Vec2(t.x, TilesY - 1)
    ensures t.y >= TilesY ==> r == Vec2(t.x, 0)
    ensures 0 <= t.y < TilesY && !(0 <= t.x < TilesX) ==>
      r == Vec2(if t.x < 0 then TilesX - 1 else 0, t.y)
  {
    var start := Vec2(0, 0);
    var afterRight := if t.x >= TilesX then Vec2(0, t.y) else start;
    var afterLeft := if t.x < 0 then Vec2(TilesX - 1, t.y) else afterRight;
    var afterDown := if t.y >= TilesY then Vec2(t.x, 0) else afterLeft;
    if t.y < 0 then Vec2(t.x, TilesY - 1) else afterDown
  }

  /** `get_next_position`: inside the tilemap the world part and handle stay;
      past an edge the world coordinate moves by the same delta and the tile
      coordinate wraps, provided a tilemap is there. */
  function GetNextPosition(w: World, position: AbsolutePosition, delta: Vec2): (r: Option<AbsolutePosition>)
    requires WellFormed(w)
    ensures InTilemap(position.tilemap.Plus(delta)) ==>
      r == Some(position.(tilemap := position.tilemap.Plus(delta)))
    ensures !InTilemap(position.tilemap.Plus(delta)) && !InWorld(position.world.Plus(delta)) ==> r == None
    ensures !InTilemap(position.tilemap.Plus(delta)) ==>
      (r.Some? <==> GetTilemap(w, position.world.Plus(delta)).Some?)
    ensures r.Some? && !InTilemap(position.tilemap.Plus(delta)) ==>
      r.value == AbsolutePosition(position.world.Plus(delta), WrapTile(position.tilemap.Plus(delta)),
                                  GetTilemap(w, position.world.Plus(delta)))
  {
    var next := Add(position, delta);
    if InTilemap(next.tilemap) then
      Some(AbsolutePosition(position.world, next.tilemap, position.handle))
    else if !InWorld(next.world) then
      None
    else match GetTilemap(w, next.world)
      case Some(handle) => Some(next.(tilemap := WrapTile(next.tilemap), handle := Some(handle)))
      case None => None
  }

  // ---------------------------------------------------------------------------
  // A reference for `get_next_position`: one global grid of tiles

  /** A delta of one tile along one axis, as the player's moves are. */
  predicate IsUnitStep(d: Vec2) {
    (d.x == 0 && (d.y == 1 || d.y == -1)) || (d.y == 0 && (d.x == 1 || d.x == -1))
  }

  /** A position that names a real tile: in the world, in its tilemap, and
      carrying the handle the world holds there. */
  predicate Located(w: World, p: AbsolutePosition)
    requires WellFormed(w)
  {
    InWorld(p.world) && InTilemap(p.tilemap) && p.handle.Some? && p.handle == GetTilemap(w, p.world)
  }

  /** The coordinate of a position's tile on the whole world's tile grid. */
  function GlobalTile(p: AbsolutePosition): Vec2 {
    Vec2(p.world.x * TilesX + p.tilemap.x, p.world.y * TilesY + p.tilemap.y)
  }

  /** The located position whose global tile is `g`, if a tilemap covers it. */
  function PositionAt(w: World, g: Vec2): (r: Option<AbsolutePosition>)
    requires WellFormed(w)
    ensures r.Some? ==> Located(w, r.value) && GlobalTile(r.value) == g
  {
    if g.x < 0 || g.y < 0 then None
    else
      var world := Vec2(g.x / TilesX, g.y / TilesY);
      match GetTilemap(w, world)
      case None => None
      case Some(h) => Some(AbsolutePosition(world, Vec2(g.x % TilesX, g.y % TilesY), Some(h)))
  }

  /** Splitting a global coordinate recovers the tilemap and tile parts. */
  lemma SplitGlobal(wx: int, tx: int, wy: int, ty: int)
    requires 0 <= tx < 10 && 0 <= ty < 13
    ensures (wx * 10 + tx) / 10 == wx && (wx * 10 + tx) % 10 == tx
    ensures (wy * 13 + ty) / 13 == wy && (wy * 13 + ty) % 13 == ty
  {
  }

  /** For a one-tile step from a located position, `get_next_position` finds
      exactly the tile one step away on the global grid, and fails exactly when
      no tilemap covers that tile. */
  lemma NextPositionIsGlobalStep(w: World, p: AbsolutePosition, delta: Vec2)
    requires WellFormed(w) && Located(w, p) && IsUnitStep(delta)
    ensures GetNextPosition(w, p, delta) == PositionAt(w, GlobalTile(p).Plus(delta))
  {
    var t := p.tilemap.Plus(delta);
    var wx := if t.x < 0 then p.world.x - 1 else if t.x >= TilesX then p.world.x + 1 else p.world.x;
    var tx := if t.x < 0 then TilesX - 1 else if t.x >= TilesX then 0 else t.x;
    var wy := if t.y < 0 then p.world.y - 1 else if t.y >= TilesY then p.world.y + 1 else p.world.y;
    var ty := if t.y < 0 then TilesY - 1 else if t.y >= TilesY then 0 else t.y;
    var g := Vec2(wx * 10 + tx, wy * 13 + ty);
    assert GlobalTile(p).Plus(delta) == g;
    SplitGlobal(wx, tx, wy, ty);
    var target := Vec2(wx, wy);
    assert InTilemap(t) ==> target == p.world;
    assert !InTilemap(t) ==> target == p.world.Plus(delta) && Vec2(tx, ty) == WrapTile(t);
    assert g.x >= 0 && g.y >= 0 ==> Vec2(g.x / TilesX, g.y / TilesY) == target;
    assert g.x < 0 || g.y < 0 <==> !InWorld(target) && (wx < 0 || wy < 0);
  }

  /** A step that succeeds lands on a located position again. */
  lemma NextPositionStaysLocated(w: World, p: AbsolutePosition, delta: Vec2)
    requires WellFormed(w) && Located(w, p) && IsUnitStep(delta)
    ensures GetNextPosition(w, p, delta).Some? ==>
      Located(w, GetNextPosition(w, p, delta).value)
      && GlobalTile(GetNextPosition(w, p, delta).value) == GlobalTile(p).Plus(delta)
  {
    NextPositionIsGlobalStep(w, p, delta);
  }

  /** With a diagonal delta out of a corner the y wrap discards the x wrap, so
      the result lies outside its tilemap's grid. */
  lemma DiagonalCornerStepLeavesGrid(h: Handle)
    ensures
      var w := World("w", seq(TilemapsY, _ => seq(TilemapsX, _ => Some(h))));
      var p := AbsolutePosition(Vec2(0, 0), Vec2(TilesX - 1, TilesY - 1), Some(h));
      WellFormed(w) && Located(w, p)
      && GetNextPosition(w, p, Vec2(1, 1)) == Some(AbsolutePosition(Vec2(1, 1), Vec2(TilesX, 0), Some(h)))
      && !InTilemap(Vec2(TilesX, 0))
  {
  }

  /** Composing two moves is one move by the summed delta; a zero delta is no move. */
  lemma AddComposes(p: AbsolutePosition, a: Vec2, b: Vec2)
    ensures Add(Add(p, a), b) == Add(p, a.Plus(b))
    ensures Add(p, Vec2(0, 0)) == p
  {
  }

  // ---------------------------------------------------------------------------
  // Siblings

  /** The eight neighbour deltas, in the order `get_sibling_tilemap` tries them. */
  const SiblingDeltas: seq<Vec2> :=
    [Vec2(0, 1), Vec2(0, -1), Vec2(1, 0), Vec2(-1, 0), Vec2(-1, 1), Vec2(1, 1), Vec2(1, -1), Vec2(-1, -1)]

  /** The present tilemaps at `pos + d` for the deltas `ds`, in order. */
  function Siblings(w: World, pos: Vec2, ds: seq<Vec2>): (r: seq<(Handle, Vec2)>)
    requires WellFormed(w)
    ensures |r| <= |ds|
    decreases |ds|
  {
    if ds == [] then []
    else
      var earlier := Siblings(w, pos, ds[..|ds| - 1]);
      var p := pos.Plus(ds[|ds| - 1]);
      match GetTilemap(w, p)
      case Some(h) => earlier + [(h, p)]
      case None => earlier
  }

  /** Each pair names a present tilemap at one of the deltas, and every
      present tilemap at one of the deltas is listed. */
  lemma {:induction false} SiblingsExact(w: World, pos: Vec2, ds: seq<Vec2>)
    requires WellFormed(w)
    ensures forall pair :: pair in Siblings(w, pos, ds) <==>
      exists d :: d in ds && pair.1 == pos.Plus(d) && GetTilemap(w, pair.1) == Some(pair.0)
  {
    if ds != [] {
      var init, last := ds[..|ds| - 1], ds[|ds| - 1];
      SiblingsExact(w, pos, init);
      assert ds == init + [last];
      forall pair
        ensures pair in Siblings(w, pos, ds) <==>
          exists d :: d in ds && pair.1 == pos.Plus(d) && GetTilemap(w, pair.1) == Some(pair.0)
      {
        if pair in Siblings(w, pos, ds) {
          if pair in Siblings(w, pos, init) {
            var d :| d in init && pair.1 == pos.Plus(d) && GetTilemap(w, pair.1) == Some(pair.0);
            assert d in ds;
          } else {
            assert last in ds && pair.1 == pos.Plus(last);
          }
        }
        if exists d :: d in ds && pair.1 == pos.Plus(d) && GetTilemap(w, pair.1) == Some(pair.0) {
          var d :| d in ds && pair.1 == pos.Plus(d) && GetTilemap(w, pair.1) == Some(pair.0);
          if d in init {
            assert pair in Siblings(w, pos, init);
          } else {
            assert d == last;
          }
        }
      }
    }
  }

  /** `get_sibling_tilemap`: collects the present neighbours of a world cell. */
  method GetSiblingTilemap(w: World, worldPos: Vec2) returns (siblings: seq<(Handle, Vec2)>)
    requires WellFormed(w)
    ensures siblings == Siblings(w, worldPos, SiblingDeltas)
    ensures |siblings| <= 8
  {
    siblings := [];
    var k := 0;
    while k < |SiblingDeltas|
      invariant 0 <= k <= |SiblingDeltas|
      invariant siblings == Siblings(w, worldPos, SiblingDeltas[..k])
    {
      var pos := worldPos.Plus(SiblingDeltas[k]);
      assert SiblingDeltas[..k + 1][..k] == SiblingDeltas[..k];
      match GetTilemap(w, pos) {
        case Some(handle) => siblings := siblings + [(handle, pos)];
        case None =>
      }
      k := k + 1;
    }
    assert SiblingDeltas[..k] == SiblingDeltas;
  }

  // ---------------------------------------------------------------------------
  // Tiles and tilemaps

  datatype Tile = Wall(wall: Handle) | Player | Ground | Void

  /** A 13 x 10 grid, indexed `grid[y][x]`. */
  predicate GridShaped<T>(g: seq<seq<T>>) {
    |g| == TilesY && forall y :: 0 <= y < |g| ==> |g[y]| == TilesX
  }

  /** The decoded part of a map file: its tags and the extent they cover. */
  datatype MapFile = MapFile(name: string, pathfile: string, dimension: (int, int), grid: seq<seq<Option<int>>>)

  /** A map file `From<MapFile>` reads without panicking: the fixed 13 x 10 tag
      array, and a dimension within it unless one side is zero, in which case
      the loops read no tag at all. */
  predicate MapFileReadable(u: MapFile) {
    && GridShaped(u.grid)
    && (|| u.dimension.0 == 0 || u.dimension.1 == 0
        || (0 <= u.dimension.0 <= TilesX && 0 <= u.dimension.1 <= TilesY))
  }

  /** The tile a tag decodes to: 1 is ground, anything else or no tag is void. */
  function DecodeTag(tag: Option<int>): (t: Tile)
    ensures t == Ground <==> tag == Some(1)
    ensures t == Ground || t == Void
  {
    match tag
    case Some(v) => if v == 1 then Ground else Void
    case None => Void
  }

  /** The grid `From<MapFile>` builds: decoded tags inside the dimension,
      ground everywhere else. */
  function DecodedGrid(u: MapFile): (g: seq<seq<Tile>>)
    requires MapFileReadable(u)
    ensures GridShaped(g)
    ensures forall y, x :: 0 <= y < TilesY && 0 <= x < TilesX ==>
      (g[y][x] == Ground <==> !(x < u.dimension.0 && y < u.dimension.1) || u.grid[y][x] == Some(1))
      && (g[y][x] == Ground || g[y][x] == Void)
  {
    seq(TilesY, y requires 0 <= y < TilesY =>
      seq(TilesX, x requires 0 <= x < TilesX =>
        if x < u.dimension.0 && y < u.dimension.1 then DecodeTag(u.grid[y][x]) else Ground))
  }

  /** The nested loop of `From<MapFile>`: start from ground, decode each tag
      inside the dimension. */
  method DecodeGrid(u: MapFile) returns (grid: seq<seq<Tile>>)
    requires MapFileReadable(u)
    ensures grid == DecodedGrid(u)
  {
    grid := seq(TilesY, _ => seq(TilesX, _ => Ground));
    var i := 0;
    while i < u.dimension.0
      invariant 0 <= i && (i <= u.dimension.0 || i == 0)
      invariant GridShaped(grid)
      invariant forall y, x :: 0 <= y < TilesY && 0 <= x < TilesX ==>
        grid[y][x] == if x < i && y < u.dimension.1 then DecodeTag(u.grid[y][x]) else Ground
    {
      var j := 0;
      while j < u.dimension.1
        invariant 0 <= j <= u.dimension.1
        invariant GridShaped(grid)
        invariant forall y, x :: 0 <= y < TilesY && 0 <= x < TilesX ==>
          grid[y][x] == if (x < i && y < u.dimension.1) || (x == i && y < j) then DecodeTag(u.grid[y][x]) else Ground
      {
        grid := grid[j := grid[j][i := DecodeTag(u.grid[j][i])]];
        j := j + 1;
      }
      i := i + 1;
    }
    var expected := DecodedGrid(u);
    assert forall y :: 0 <= y < TilesY ==> grid[y] == expected[y];
  }

  /** The grid with one cell replaced. */
  function SetCell(g: seq<seq<Tile>>, p: Vec2, v: Tile): (r: seq<seq<Tile>>)
    requires GridShaped(g) && InTilemap(p)
    ensures GridShaped(r)
    ensures r[p.y][p.x] == v
    ensures forall y, x :: 0 <= y < TilesY && 0 <= x < TilesX && (y != p.y || x != p.x) ==> r[y][x] == g[y][x]
  {
    g[p.y := g[p.y][p.x := v]]
  }

  class Tilemap {
    var name: string
    var pathfile: string
    var grid: seq<seq<Tile>>

    ghost predicate Valid()
      reads this
    {
      GridShaped(grid)
    }

    /** `From<MapFile>`. */
    constructor FromMapFile(u: MapFile)
      requires MapFileReadable(u)
      ensures Valid() && grid == DecodedGrid(u)
      ensures name == u.name && pathfile == u.pathfile
      ensures forall y, x :: 0 <= y < TilesY && 0 <= x < TilesX ==>
        (GetTile(x, y) == Ground <==> !(x < u.dimension.0 && y < u.dimension.1) || u.grid[y][x] == Some(1))
    {
      var decoded := DecodeGrid(u);
      grid := decoded;
      name := u.name;
      pathfile := u.pathfile;
    }

    /** `get_tile(x, y)`: the tile at column x, row y. */
    function GetTile(x: int, y: int): (t: Tile)
      reads this
      requires 0 <= y < |grid| && 0 <= x < |grid[y]|
      ensures t == grid[y][x]
    {
      grid[y][x]
    }

    /** `set`: writes one cell in place. */
    method Set(position: Vec2, value: Tile)
      requires Valid() && InTilemap(position)
      modifies this
      ensures Valid()
      ensures grid == SetCell(old(grid), position, value)
      ensures GetTile(position.x, position.y) == value
      ensures forall y, x :: 0 <= y < TilesY && 0 <= x < TilesX && (y != position.y || x != position.x) ==>
        GetTile(x, y) == old(GetTile(x, y))
      ensures name == old(name) && pathfile == old(pathfile)
    {
      grid := grid[position.y := grid[position.y][position.x := value]];
    }
  }
}
