/**
 * Map tiles and the map as a value: an 80 by 45 grid indexed `g[x][y]`, as `my_map`
 * is. The carving operations of the generator are specified here as functions on
 * grids; the methods of `Game.Level` that change the map in place are proved to
 * compute them.
 */
module Tiles {
  import opened Wrappers
  import opened Geometry

  const MapWidth := 80
  const MapHeight := 45

  /** `Tile`: whether it blocks movement, whether it blocks sight, whether it was ever seen. */
  datatype Tile = Tile(blocked: bool, blockSight: bool, explored: bool)

  /**
   * `Tile(blocked, block_sight = None)`: a new tile is unexplored, and unless told
   * otherwise it blocks sight exactly when it blocks movement.
   */
  function NewTile(blocked: bool, blockSight: Option<bool> := None): (t: Tile)
    ensures t.blocked == blocked && !t.explored
    ensures blockSight.None? ==> t.blockSight == blocked
    ensures blockSight.Some? ==> t.blockSight == blockSight.value
  {
    Tile(blocked, if blockSight.None? then blocked else blockSight.value, false)
  }

  /** Movement and sight both pass. */
  predicate IsOpen(t: Tile)
  {
    !t.blocked && !t.blockSight
  }

  /** What carving does to one tile: both flags cleared together, `explored` kept. */
  function CarveTile(t: Tile): (u: Tile)
    ensures IsOpen(u) && u.explored == t.explored
  {
    t.(blocked := false, blockSight := false)
  }

  type Grid = seq<seq<Tile>>

  predicate InBounds(x: int, y: int)
  {
    0 <= x < MapWidth && 0 <= y < MapHeight
  }

  /** Every tile of the range lies on the map, or the range is empty. */
  predicate RangeOnMap(xlo: int, xhi: int, ylo: int, yhi: int)
  {
    xlo > xhi || ylo > yhi || (InBounds(xlo, ylo) && InBounds(xhi, yhi))
  }

  predicate WellFormed(g: Grid)
  {
    |g| == MapWidth && forall x :: 0 <= x < |g| ==> |g[x]| == MapHeight
  }

  predicate OnBorder(x: int, y: int)
  {
    x == 0 || x == MapWidth - 1 || y == 0 || y == MapHeight - 1
  }

  /** The outermost ring of the map is wall. */
  ghost predicate BorderBlocked(g: Grid)
    requires WellFormed(g)
  {
    forall x, y :: InBounds(x, y) && OnBorder(x, y) ==> g[x][y].blocked
  }

  /** The map `make_map` starts from: every tile is `Tile(True)`. */
  function FilledGrid(): (g: Grid)
    ensures WellFormed(g)
    ensures forall x, y :: InBounds(x, y) ==> g[x][y] == Tile(true, true, false)
  {
    seq(MapWidth, x => seq(MapHeight, y => NewTile(true)))
  }

  /**
   * Carve every tile with `xlo <= x <= xhi` and `ylo <= y <= yhi`, leave the rest.
   * The grid is built column by column, as the nested loops of the source walk it.
   */
  function CarveRect(g: Grid, xlo: int, xhi: int, ylo: int, yhi: int): (r: Grid)
    requires WellFormed(g)
    ensures WellFormed(r)
    ensures forall x, y :: InBounds(x, y) ==>
      r[x][y] == if xlo <= x <= xhi && ylo <= y <= yhi then CarveTile(g[x][y]) else g[x][y]
  {
    CarvedColumns(g, xlo, xhi, ylo, yhi, MapWidth)
  }

  /** Columns 0 to m - 1 of `CarveRect(g, xlo, xhi, ylo, yhi)`. */
  function CarvedColumns(g: Grid, xlo: int, xhi: int, ylo: int, yhi: int, m: nat): (r: seq<seq<Tile>>)
    requires WellFormed(g) && m <= MapWidth
    ensures |r| == m
    ensures forall x :: 0 <= x < m ==> |r[x]| == MapHeight
    ensures forall x, y :: 0 <= x < m && 0 <= y < MapHeight ==>
      r[x][y] == if xlo <= x <= xhi && ylo <= y <= yhi then CarveTile(g[x][y]) else g[x][y]
  {
    if m == 0 then []
    else CarvedColumns(g, xlo, xhi, ylo, yhi, m - 1) + [CarvedColumn(g[m - 1], xlo <= m - 1 <= xhi, ylo, yhi, MapHeight)]
  }

  /** Rows 0 to n - 1 of one column, rows `ylo..yhi` carved when the column is in range. */
  function CarvedColumn(col: seq<Tile>, inRange: bool, ylo: int, yhi: int, n: nat): (c: seq<Tile>)
    requires n <= |col|
    ensures |c| == n
    ensures forall y :: 0 <= y < n ==> c[y] == if inRange && ylo <= y <= yhi then CarveTile(col[y]) else col[y]
  {
    if n == 0 then []
    else CarvedColumn(col, inRange, ylo, yhi, n - 1) + [if inRange && ylo <= n - 1 <= yhi then CarveTile(col[n - 1]) else col[n - 1]]
  }

  /** `create_room`: `range(x1 + 1, x2)` by `range(y1 + 1, y2)`, the interior of the room. */
  function CarveRoom(g: Grid, room: Rect): (r: Grid)
    requires WellFormed(g)
    ensures WellFormed(r)
    ensures forall x, y :: InBounds(x, y) ==>
      r[x][y] == if InInterior(room, x, y) then CarveTile(g[x][y]) else g[x][y]
  {
    CarveRect(g, room.x1 + 1, room.x2 - 1, room.y1 + 1, room.y2 - 1)
  }

  /** `create_h_tunnel(x1, x2, y)`: the inclusive range `min(x1, x2) .. max(x1, x2)` on row y. */
  function HTunnel(g: Grid, x1: int, x2: int, y: int): (r: Grid)
    requires WellFormed(g)
    ensures WellFormed(r)
    ensures forall x, y' :: InBounds(x, y') ==>
      r[x][y'] == if y' == y && (x1 <= x <= x2 || x2 <= x <= x1) then CarveTile(g[x][y']) else g[x][y']
  {
    CarveRect(g, Min(x1, x2), Max(x1, x2), y, y)
  }

  /** `create_v_tunnel(y1, y2, x)`: the inclusive range `min(y1, y2) .. max(y1, y2)` on column x. */
  function VTunnel(g: Grid, y1: int, y2: int, x: int): (r: Grid)
    requires WellFormed(g)
    ensures WellFormed(r)
    ensures forall x', y :: InBounds(x', y) ==>
      r[x'][y] == if x' == x && (y1 <= y <= y2 || y2 <= y <= y1) then CarveTile(g[x'][y]) else g[x'][y]
  {
    CarveRect(g, x, x, Min(y1, y2), Max(y1, y2))
  }

  /**
   * Carving is exact: afterwards a tile blocks movement (or sight) exactly when it
   * did before and lies outside the range, and no `explored` flag changes.
   */
  lemma CarveRectExact(g: Grid, xlo: int, xhi: int, ylo: int, yhi: int)
    requires WellFormed(g)
    ensures forall x, y {:trigger CarveRect(g, xlo, xhi, ylo, yhi)[x][y]} :: InBounds(x, y) ==>
      var inside := xlo <= x <= xhi && ylo <= y <= yhi;
      var t, u := g[x][y], CarveRect(g, xlo, xhi, ylo, yhi)[x][y];
      && (u.blocked <==> t.blocked && !inside)
      && (u.blockSight <==> t.blockSight && !inside)
      && u.explored == t.explored
  {
  }

  lemma CarveRectAt(g: Grid, xlo: int, xhi: int, ylo: int, yhi: int, x: int, y: int)
    requires WellFormed(g) && InBounds(x, y)
    ensures CarveRect(g, xlo, xhi, ylo, yhi)[x][y] ==
      if xlo <= x <= xhi && ylo <= y <= yhi then CarveTile(g[x][y]) else g[x][y]
  {
  }

  /** Two grids of the map's shape that agree on every tile are equal. */
  lemma GridExtensionality(g: Grid, h: Grid)
    requires WellFormed(g) && WellFormed(h)
    requires forall x, y :: InBounds(x, y) ==> g[x][y] == h[x][y]
    ensures g == h
  {
    forall x | 0 <= x < MapWidth
      ensures g[x] == h[x]
    {
      assert forall y :: 0 <= y < MapHeight ==> g[x][y] == h[x][y];
    }
  }

  /** Carving the same range twice has the effect of carving it once. */
  lemma CarveRectIdempotent(g: Grid, xlo: int, xhi: int, ylo: int, yhi: int)
    requires WellFormed(g)
    ensures CarveRect(CarveRect(g, xlo, xhi, ylo, yhi), xlo, xhi, ylo, yhi) == CarveRect(g, xlo, xhi, ylo, yhi)
  {
    var once := CarveRect(g, xlo, xhi, ylo, yhi);
    GridExtensionality(CarveRect(once, xlo, xhi, ylo, yhi), once);
  }

  /** `create_room` applied twice leaves the map as one application does. */
  lemma CarveRoomIdempotent(g: Grid, room: Rect)
    requires WellFormed(g)
    ensures CarveRoom(CarveRoom(g, room), room) == CarveRoom(g, room)
  {
    CarveRectIdempotent(g, room.x1 + 1, room.x2 - 1, room.y1 + 1, room.y2 - 1);
  }

  /** A tunnel does not depend on the order of its endpoints. */
  lemma TunnelsSymmetric(g: Grid, a: int, b: int, c: int)
    requires WellFormed(g)
    ensures HTunnel(g, a, b, c) == HTunnel(g, b, a, c)
    ensures VTunnel(g, a, b, c) == VTunnel(g, b, a, c)
  {
  }

  /** Carving never closes a tile, and never touches `explored`. */
  lemma CarveRectKeepsOpen(g: Grid, xlo: int, xhi: int, ylo: int, yhi: int)
    requires WellFormed(g)
    ensures forall x, y :: InBounds(x, y) && !g[x][y].blocked ==> !CarveRect(g, xlo, xhi, ylo, yhi)[x][y].blocked
    ensures forall x, y :: InBounds(x, y) && IsOpen(g[x][y]) ==> IsOpen(CarveRect(g, xlo, xhi, ylo, yhi)[x][y])
  {
  }

  /**
   * `is_visible_tile`: false off the map, and on it true exactly for a tile that
   * blocks neither movement nor sight.
   */
  function IsVisibleTile(g: Grid, x: int, y: int): (r: bool)
    requires WellFormed(g)
    ensures r ==> InBounds(x, y)
    ensures InBounds(x, y) ==> (r <==> IsOpen(g[x][y]))
  {
    if x >= MapWidth || x < 0 then false
    else if y >= MapHeight || y < 0 then false
    else if g[x][y].blocked then false
    else if g[x][y].blockSight then false
    else true
  }

  /** Every tile a carve reaches becomes visible; the filled map shows none. */
  lemma CarvedTilesVisible(g: Grid, xlo: int, xhi: int, ylo: int, yhi: int, x: int, y: int)
    requires WellFormed(g) && InBounds(x, y)
    ensures xlo <= x <= xhi && ylo <= y <= yhi ==> IsVisibleTile(CarveRect(g, xlo, xhi, ylo, yhi), x, y)
    ensures !IsVisibleTile(FilledGrid(), x, y)
  {
  }

  /** A unit step from an open tile of a map with a solid border stays on the map. */
  lemma StepStaysOnMap(g: Grid, x: int, y: int, dx: int, dy: int)
    requires WellFormed(g) && BorderBlocked(g)
    requires InBounds(x, y) && !g[x][y].blocked
    requires -1 <= dx <= 1 && -1 <= dy <= 1
    ensures InBounds(x + dx, y + dy)
  {
  }

  /**
   * Marking the tiles in `visible` explored (the map pass of `render_all`). Exploring
   * is monotonic: a tile is explored afterwards exactly when it was before or is
   * visible now, and movement and sight flags are untouched.
   */
  function ExploreGrid(g: Grid, visible: set<(int, int)>): (r: Grid)
    requires WellFormed(g)
    ensures WellFormed(r)
    ensures forall x, y :: InBounds(x, y) ==>
      && (r[x][y].explored <==> g[x][y].explored || (x, y) in visible)
      && r[x][y].blocked == g[x][y].blocked && r[x][y].blockSight == g[x][y].blockSight
  {
    seq(MapWidth, x requires 0 <= x < MapWidth =>
      seq(MapHeight, y requires 0 <= y < MapHeight =>
        if (x, y) in visible then g[x][y].(explored := true) else g[x][y]))
  }
}
