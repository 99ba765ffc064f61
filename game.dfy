/**
 * The level's mutable state and the operations that change it: the objects on the
 * map (`GameObject`) and the level that owns the map and the object list (the
 * globals `my_map`, `objects` and `player`, gathered into one `Level`).
 */
module Game {
  import opened Wrappers
  import opened Geometry
  import opened Tiles
  import opened Components
  import opened Generation

  /** `GameObject`: anything drawn on the map. Its position changes; the rest is fixed. */
  class GameObject {
    var x: int
    var y: int
    const glyph: char
    const name: string
    const blocks: bool
    const fighter: Option<Fighter>
    const ai: Option<Ai>

    constructor (x: int, y: int, glyph: char, name: string, blocks: bool := false,
                 fighter: Option<Fighter> := None, ai: Option<Ai> := None)
      ensures this.x == x && this.y == y && this.glyph == glyph && this.name == name
      ensures this.blocks == blocks && this.fighter == fighter && this.ai == ai
    {
      this.x := x;
      this.y := y;
      this.glyph := glyph;
      this.name := name;
      this.blocks := blocks;
      this.fighter := fighter;
      this.ai := ai;
    }

    /**
     * `move`: translate by exactly (dx, dy) when the destination is not blocked,
     * otherwise stay put. A blocking object never steps onto another blocker.
     */
    method Move(level: Level, dx: int, dy: int)
      requires level.Valid() && this in level.objects
      requires InBounds(x + dx, y + dy)
      modifies this
      ensures level.Valid()
      ensures old(level.IsBlocked(x + dx, y + dy)) ==> x == old(x) && y == old(y)
      ensures !old(level.IsBlocked(x + dx, y + dy)) ==> x == old(x) + dx && y == old(y) + dy
    {
      if !level.IsBlocked(x + dx, y + dy) {
        x := x + dx;
        y := y + dy;
      }
    }
  }

  /** Some object of `objs` blocks movement and stands on (x, y): the object loop of `is_blocked`. */
  function BlockerAt(objs: seq<GameObject>, x: int, y: int): (r: bool)
    reads objs
    ensures r <==> exists i :: 0 <= i < |objs| && objs[i].blocks && objs[i].x == x && objs[i].y == y
  {
    if objs == [] then false
    else if objs[0].blocks && objs[0].x == x && objs[0].y == y then true
    else BlockerAt(objs[1..], x, y)
  }

  /** The tiles on which a blocking object of `objs` stands. */
  ghost function SpotsIn(objs: seq<GameObject>): set<(int, int)>
    reads objs
    decreases |objs|
  {
    if objs == [] then {}
    else
      var o := objs[|objs| - 1];
      SpotsIn(objs[..|objs| - 1]) + (if o.blocks then {(o.x, o.y)} else {})
  }

  /** A spot is in `SpotsIn(objs)` exactly when a blocking object of `objs` stands on it. */
  lemma {:induction false} SpotsInMembers(objs: seq<GameObject>)
    ensures forall i :: 0 <= i < |objs| && objs[i].blocks ==> (objs[i].x, objs[i].y) in SpotsIn(objs)
    ensures forall p :: p in SpotsIn(objs) ==>
      exists i :: 0 <= i < |objs| && objs[i].blocks && p == (objs[i].x, objs[i].y)
    decreases |objs|
  {
    if objs != [] {
      var pre := objs[..|objs| - 1];
      SpotsInMembers(pre);
      assert forall i :: 0 <= i < |pre| ==> pre[i] == objs[i];
    }
  }

  lemma SpotsInAppend(objs: seq<GameObject>, o: GameObject)
    ensures SpotsIn(objs + [o]) == SpotsIn(objs) + (if o.blocks then {(o.x, o.y)} else {})
  {
    assert (objs + [o])[..|objs|] == objs;
  }

  /** `p` heads the list, no object is listed twice, and every object stands on the map. */
  ghost predicate Listed(objs: seq<GameObject>, p: GameObject)
    reads objs
  {
    && |objs| > 0 && objs[0] == p
    && (forall i, j :: 0 <= i < j < |objs| ==> objs[i] != objs[j])
    && (forall i :: 0 <= i < |objs| ==> InBounds(objs[i].x, objs[i].y))
  }

  lemma ListedAppend(objs: seq<GameObject>, p: GameObject, o: GameObject)
    requires Listed(objs, p) && o !in objs && InBounds(o.x, o.y)
    ensures Listed(objs + [o], p)
  {
    var all := objs + [o];
    assert forall i :: 0 <= i < |objs| ==> all[i] == objs[i];
  }

  /** No two blocking objects of `objs` share a tile. */
  ghost predicate Apart(objs: seq<GameObject>)
    reads objs
  {
    forall i, j :: 0 <= i < j < |objs| && objs[i].blocks && objs[j].blocks ==>
      objs[i].x != objs[j].x || objs[i].y != objs[j].y
  }

  /** Appending an object on a tile no blocker holds keeps the blockers apart. */
  lemma ApartAppend(objs: seq<GameObject>, o: GameObject)
    requires Apart(objs)
    requires o.blocks ==> (o.x, o.y) !in SpotsIn(objs)
    ensures Apart(objs + [o])
  {
    var all := objs + [o];
    forall i, j | 0 <= i < j < |all| && all[i].blocks && all[j].blocks
      ensures all[i].x != all[j].x || all[i].y != all[j].y
    {
      assert all[i] == objs[i];
      if j == |objs| {
        SpotsInMembers(objs);
      } else {
        assert all[j] == objs[j];
      }
    }
  }

  /** The monster `place_objects` builds from a draw: at the drawn spot, blocking, of the rolled species. */
  ghost predicate MonsterFrom(o: GameObject, d: MonsterDraw)
    reads o
  {
    var s := SpeciesFor(d.roll);
    && o.x == d.x && o.y == d.y && o.blocks
    && o.glyph == Glyph(s) && o.name == Name(s)
    && o.fighter == Some(FighterOf(s)) && o.ai == Some(BasicMonster)
  }

  /** The objects after the first `start` are the monsters built from `placed`, in order. */
  ghost predicate BuiltFrom(objs: seq<GameObject>, start: nat, placed: seq<MonsterDraw>)
    reads objs
  {
    && |objs| == start + |placed|
    && forall j :: start <= j < |objs| ==> MonsterFrom(objs[j], placed[j - start])
  }

  lemma BuiltFromSnoc(objs: seq<GameObject>, start: nat, placed: seq<MonsterDraw>, o: GameObject, d: MonsterDraw)
    requires BuiltFrom(objs, start, placed) && MonsterFrom(o, d)
    ensures BuiltFrom(objs + [o], start, placed + [d])
  {
    var all := objs + [o];
    forall j | start <= j < |all|
      ensures MonsterFrom(all[j], (placed + [d])[j - start])
    {
      if j < |objs| {
        assert all[j] == objs[j];
      }
    }
  }

  /**
   * The monsters one `place_objects` call appends: no more than the draws, each
   * blocking, inside the room and on a tile that does not block.
   */
  lemma PlacedMonsters(objs: seq<GameObject>, start: nat, g: Grid, taken: set<(int, int)>,
                       draws: seq<MonsterDraw>, room: Rect)
    requires WellFormed(g)
    requires forall k :: 0 <= k < |draws| ==>
      Contains(room, draws[k].x, draws[k].y) && InBounds(draws[k].x, draws[k].y)
    requires BuiltFrom(objs, start, Survivors(g, taken, draws))
    ensures |objs| <= start + |draws|
    ensures forall i :: start <= i < |objs| ==>
      && objs[i].blocks && InBounds(objs[i].x, objs[i].y)
      && Contains(room, objs[i].x, objs[i].y) && !g[objs[i].x][objs[i].y].blocked
  {
    var s := Survivors(g, taken, draws);
    SurvivorsSound(g, taken, draws);
    forall i | start <= i < |objs|
      ensures objs[i].blocks && InBounds(objs[i].x, objs[i].y)
      ensures Contains(room, objs[i].x, objs[i].y) && !g[objs[i].x][objs[i].y].blocked
    {
      assert MonsterFrom(objs[i], s[i - start]);
      assert s[i - start] in draws;
    }
  }

  /** The objects after the first `start` are the monsters of `placed`, and the blockers stand on `taken` and on them. */
  ghost predicate Placing(objs: seq<GameObject>, start: nat, taken: set<(int, int)>, placed: seq<MonsterDraw>)
    reads objs
  {
    BuiltFrom(objs, start, placed) && SpotsIn(objs) == taken + SpotsOf(placed)
  }

  /** Two runs of `place_objects`, one after the other, place the survivors of the first and then of the second. */
  lemma PlacingConcat(objs: seq<GameObject>, more: seq<GameObject>, start: nat, taken: set<(int, int)>,
                      p: seq<MonsterDraw>, s: seq<MonsterDraw>)
    requires objs <= more
    requires Placing(objs, start, taken, p)
    requires Placing(more, |objs|, SpotsIn(objs), s)
    ensures Placing(more, start, taken, p + s)
  {
    SpotsOfConcat(p, s);
    assert SpotsIn(more) == taken + SpotsOf(p) + SpotsOf(s);
    assert |more| == start + |p + s|;
    forall j | start <= j < |more|
      ensures MonsterFrom(more[j], (p + s)[j - start])
    {
      if j < |objs| {
        assert more[j] == objs[j];
        assert (p + s)[j - start] == p[j - start];
      } else {
        assert (p + s)[j - start] == s[j - |objs|];
      }
    }
    assert BuiltFrom(more, start, p + s);
  }

  /**
   * The `rooms` list of `make_map` after the candidates `acc` were accepted: one
   * rectangle per accepted candidate, in order, each drawn within the bounds.
   */
  ghost predicate RoomsOf(rooms: seq<Rect>, acc: seq<Attempt>)
  {
    && |rooms| == |acc|
    && (forall k :: 0 <= k < |acc| ==> WellDrawn(acc[k]))
    && (forall k :: 0 <= k < |rooms| ==> rooms[k] == RoomOf(acc[k]))
  }

  /** Accepting one more candidate appends its rectangle to `rooms`. */
  lemma RoomsOfSnoc(rooms: seq<Rect>, acc: seq<Attempt>, a: Attempt)
    requires RoomsOf(rooms, acc) && WellDrawn(a)
    ensures RoomsOf(rooms + [RoomOf(a)], acc + [a])
  {
  }

  /**
   * The objects after `place_objects` has run for the last room of `acc`: the
   * monsters of the earlier rooms, then the survivors of that room's draws.
   */
  lemma PlacingNextRoom(before: seq<GameObject>, after: seq<GameObject>, acc: seq<Attempt>)
    requires acc != [] && before <= after
    requires Placing(before, 1, {StartOf(acc)}, Population(acc[..|acc| - 1]))
    requires Placing(after, |before|, SpotsIn(before), Survivors(Layout(acc), SpotsIn(before), acc[|acc| - 1].monsters))
    ensures Placing(after, 1, {StartOf(acc)}, Population(acc))
  {
    PopulationSnoc(acc);
    PlacingConcat(before, after, 1, {StartOf(acc)}, Population(acc[..|acc| - 1]),
                  Survivors(Layout(acc), SpotsIn(before), acc[|acc| - 1].monsters));
  }

  /** The intersection scan of `make_map`: whether the candidate intersects one of the rooms so far. */
  method ClashScan(newRoom: Rect, rooms: seq<Rect>) returns (failed: bool)
    ensures failed <==> exists j :: 0 <= j < |rooms| && Intersect(newRoom, rooms[j])
  {
    failed := false;
    var k := 0;
    while k < |rooms|
      invariant 0 <= k <= |rooms|
      invariant forall j :: 0 <= j < k ==> !Intersect(newRoom, rooms[j])
    {
      if Intersect(newRoom, rooms[k]) {
        failed := true;
        break;
      }
      k := k + 1;
    }
  }

  /** One accepted draw of `place_objects`: what the loop keeps about the object list. */
  lemma PlaceStep(objs: seq<GameObject>, start: nat, taken: set<(int, int)>, placed: seq<MonsterDraw>,
                  o: GameObject, d: MonsterDraw)
    requires Placing(objs, start, taken, placed)
    requires MonsterFrom(o, d) && (d.x, d.y) !in SpotsIn(objs)
    ensures Placing(objs + [o], start, taken, placed + [d])
    ensures Apart(objs) ==> Apart(objs + [o])
  {
    SpotsInAppend(objs, o);
    SpotsOfSnoc(placed, d);
    BuiltFromSnoc(objs, start, placed, o, d);
    if Apart(objs) {
      ApartAppend(objs, o);
    }
  }

  /** The level: the map, the objects in drawing order, and the player among them. */
  class Level {
    var tiles: array2<Tile>
    var objects: seq<GameObject>
    var player: GameObject

    /** The map is 80 by 45. */
    ghost predicate Shaped()
      reads this`tiles
    {
      tiles.Length0 == MapWidth && tiles.Length1 == MapHeight
    }

    /**
     * The level's invariant: the map has its size, the player is the first object
     * (`objects = [player]` before generation, which only appends), no object is
     * listed twice, every object stands on the map, the player blocks, and no two
     * blocking objects share a tile.
     */
    ghost predicate Valid()
      reads this, objects
    {
      Shaped() && Listed(objects, player) && player.blocks && Apart(objects)
    }

    /** The map as a value. */
    function Cells(): (g: Grid)
      reads this`tiles, tiles
      requires Shaped()
      ensures WellFormed(g)
      ensures forall x, y :: InBounds(x, y) ==> g[x][y] == tiles[x, y]
    {
      ColumnsUpTo(MapWidth)
    }

    /** Columns 0 to m - 1 of the map. */
    function ColumnsUpTo(m: nat): (g: seq<seq<Tile>>)
      reads this`tiles, tiles
      requires Shaped() && m <= MapWidth
      ensures |g| == m && forall x :: 0 <= x < m ==> |g[x]| == MapHeight
      ensures forall x, y :: 0 <= x < m && 0 <= y < MapHeight ==> g[x][y] == tiles[x, y]
    {
      if m == 0 then [] else ColumnsUpTo(m - 1) + [ColumnOf(m - 1, MapHeight)]
    }

    /** Rows 0 to n - 1 of column x of the map. */
    function ColumnOf(x: nat, n: nat): (c: seq<Tile>)
      reads this`tiles, tiles
      requires Shaped() && x < MapWidth && n <= MapHeight
      ensures |c| == n && forall y :: 0 <= y < n ==> c[y] == tiles[x, y]
    {
      if n == 0 then [] else ColumnOf(x, n - 1) + [tiles[x, n - 1]]
    }

    /** What a generated level keeps while the player walks: a solid border and the player on an open tile. */
    ghost predicate Playable()
      reads this, tiles, objects
    {
      Valid() && BorderBlocked(Cells()) && !tiles[player.x, player.y].blocked
    }

    /** Object k is the first object of the list standing on (x, y). */
    ghost predicate FirstOccupant(k: int, x: int, y: int)
      reads this, objects
    {
      && 0 <= k < |objects| && objects[k].x == x && objects[k].y == y
      && forall j :: 0 <= j < k ==> !(objects[j].x == x && objects[j].y == y)
    }

    /** The starting state: the player alone at (0, 0), and every tile a wall. */
    constructor ()
      ensures Valid() && fresh(tiles) && fresh(player)
      ensures objects == [player] && player.x == 0 && player.y == 0
      ensures player.glyph == '@' && player.name == "player" && player.blocks
      ensures player.fighter == Some(NewFighter(30, 2, 5)) && player.ai == None
      ensures Cells() == FilledGrid()
    {
      var fighter := NewFighter(30, 2, 5);
      player := new GameObject(0, 0, '@', "player", true, Some(fighter));
      objects := [player];
      tiles := new Tile[MapWidth, MapHeight]((x, y) => NewTile(true));
      new;
      GridExtensionality(Cells(), FilledGrid());
    }

    /**
     * `is_blocked`: the tile blocks movement, or some blocking object stands on it.
     */
    function IsBlocked(x: int, y: int): (r: bool)
      reads this, tiles, objects
      requires Valid() && InBounds(x, y)
      ensures r <==> (tiles[x, y].blocked ||
        exists i :: 0 <= i < |objects| && objects[i].blocks && objects[i].x == x && objects[i].y == y)
      ensures r <==> tiles[x, y].blocked || (x, y) in SpotsIn(objects)
    {
      SpotsInMembers(objects);
      tiles[x, y].blocked || BlockerAt(objects, x, y)
    }

    /** A unit step of the player in a generated level stays on the map. */
    lemma UnitStepOnMap(dx: int, dy: int)
      requires Playable()
      requires -1 <= dx <= 1 && -1 <= dy <= 1
      ensures InBounds(player.x + dx, player.y + dy)
    {
      StepStaysOnMap(Cells(), player.x, player.y, dx, dy);
    }

    /** `create_room`: carve the room's interior, nothing else. */
    method CreateRoom(room: Rect)
      requires Shaped()
      requires RangeOnMap(room.x1 + 1, room.x2 - 1, room.y1 + 1, room.y2 - 1)
      modifies tiles
      ensures Cells() == CarveRoom(old(Cells()), room)
    {
      var x := room.x1 + 1;
      while x < room.x2
        invariant room.x1 + 1 <= x <= Max(room.x1 + 1, room.x2)
        invariant forall i, j :: InBounds(i, j) ==>
          tiles[i, j] == (if room.x1 + 1 <= i < x && room.y1 + 1 <= j < room.y2 then CarveTile(old(tiles[i, j])) else old(tiles[i, j]))
      {
        var y := room.y1 + 1;
        while y < room.y2
          invariant room.y1 + 1 <= y <= Max(room.y1 + 1, room.y2)
          invariant forall i, j :: InBounds(i, j) ==>
            tiles[i, j] == (if (room.x1 + 1 <= i < x && room.y1 + 1 <= j < room.y2) || (i == x && room.y1 + 1 <= j < y)
                            then CarveTile(old(tiles[i, j])) else old(tiles[i, j]))
        {
          tiles[x, y] := tiles[x, y].(blocked := false);
          tiles[x, y] := tiles[x, y].(blockSight := false);
          y := y + 1;
        }
        x := x + 1;
      }
      GridExtensionality(Cells(), CarveRoom(old(Cells()), room));
    }

    /** `create_h_tunnel`: carve row y from `min(x1, x2)` to `max(x1, x2)` inclusive. */
    method CreateHTunnel(x1: int, x2: int, y: int)
      requires Shaped()
      requires InBounds(Min(x1, x2), y) && InBounds(Max(x1, x2), y)
      modifies tiles
      ensures Cells() == HTunnel(old(Cells()), x1, x2, y)
    {
      var x := Min(x1, x2);
      while x < Max(x1, x2) + 1
        invariant Min(x1, x2) <= x <= Max(x1, x2) + 1
        invariant forall i, j :: InBounds(i, j) ==>
          tiles[i, j] == (if Min(x1, x2) <= i < x && j == y then CarveTile(old(tiles[i, j])) else old(tiles[i, j]))
      {
        tiles[x, y] := tiles[x, y].(blocked := false);
        tiles[x, y] := tiles[x, y].(blockSight := false);
        x := x + 1;
      }
      GridExtensionality(Cells(), HTunnel(old(Cells()), x1, x2, y));
    }

    /** `create_v_tunnel`: carve column x from `min(y1, y2)` to `max(y1, y2)` inclusive. */
    method CreateVTunnel(y1: int, y2: int, x: int)
      requires Shaped()
      requires InBounds(x, Min(y1, y2)) && InBounds(x, Max(y1, y2))
      modifies tiles
      ensures Cells() == VTunnel(old(Cells()), y1, y2, x)
    {
      var y := Min(y1, y2);
      while y < Max(y1, y2) + 1
        invariant Min(y1, y2) <= y <= Max(y1, y2) + 1
        invariant forall i, j :: InBounds(i, j) ==>
          tiles[i, j] == (if i == x && Min(y1, y2) <= j < y then CarveTile(old(tiles[i, j])) else old(tiles[i, j]))
      {
        tiles[x, y] := tiles[x, y].(blocked := false);
        tiles[x, y] := tiles[x, y].(blockSight := false);
        y := y + 1;
      }
      GridExtensionality(Cells(), VTunnel(old(Cells()), y1, y2, x));
    }

    /**
     * The map pass of `render_all`: every tile in the field of view `visible` is
     * marked explored. The field of view itself comes from outside.
     */
    method MarkExplored(visible: set<(int, int)>)
      requires Shaped()
      modifies tiles
      ensures Cells() == ExploreGrid(old(Cells()), visible)
    {
      var y := 0;
      while y < MapHeight
        invariant 0 <= y <= MapHeight
        invariant forall i, j :: InBounds(i, j) ==>
          tiles[i, j] == (if j < y && (i, j) in visible then old(tiles[i, j]).(explored := true) else old(tiles[i, j]))
      {
        var x := 0;
        while x < MapWidth
          invariant 0 <= x <= MapWidth
          invariant forall i, j :: InBounds(i, j) ==>
            tiles[i, j] == (if (j < y || (j == y && i < x)) && (i, j) in visible then old(tiles[i, j]).(explored := true) else old(tiles[i, j]))
        {
          if (x, y) in visible {
            tiles[x, y] := tiles[x, y].(explored := true);
          }
          x := x + 1;
        }
        y := y + 1;
      }
      GridExtensionality(Cells(), ExploreGrid(old(Cells()), visible));
    }

    /**
     * `place_objects`: each draw becomes a monster unless its tile is blocked,
     * by the map or by a blocking object (one placed earlier in this call
     * included); the monsters are appended in draw order. The map does not change.
     */
    method PlaceObjects(room: Rect, draws: seq<MonsterDraw>)
      requires Valid()
      requires |draws| <= MaxRoomMonsters
      requires forall k :: 0 <= k < |draws| ==>
        Contains(room, draws[k].x, draws[k].y) && InBounds(draws[k].x, draws[k].y)
      modifies this`objects
      ensures Valid()
      ensures old(objects) <= objects
      ensures Placing(objects, |old(objects)|, old(SpotsIn(objects)), Survivors(old(Cells()), old(SpotsIn(objects)), draws))
    {
      ghost var start := |objects|;
      ghost var taken := SpotsIn(objects);
      ghost var g := Cells();
      ghost var placed: seq<MonsterDraw> := [];
      var numMonsters := |draws|;
      var i := 0;
      while i < numMonsters
        invariant 0 <= i <= numMonsters
        invariant Valid()
        invariant placed == Survivors(g, taken, draws[..i])
        invariant Placing(objects, start, taken, placed) && old(objects) <= objects
      {
        var d := draws[i];
        assert draws[..i + 1][..i] == draws[..i] && draws[..i + 1][i] == d;
        ghost var next := Survivors(g, taken, draws[..i + 1]);
        assert next == if tiles[d.x, d.y].blocked || (d.x, d.y) in taken + SpotsOf(placed) then placed else placed + [d];
        TryPlace(d, start, taken, placed);
        placed := next;
        i := i + 1;
      }
      assert draws[..i] == draws;
    }

    /** One pass of the `place_objects` loop: spawn the drawn monster unless its tile is blocked. */
    method TryPlace(d: MonsterDraw, ghost start: nat, ghost taken: set<(int, int)>, ghost placed: seq<MonsterDraw>)
      requires Valid() && InBounds(d.x, d.y) && Placing(objects, start, taken, placed)
      modifies this`objects
      ensures Valid() && old(objects) <= objects
      ensures Placing(objects, start, taken,
        if tiles[d.x, d.y].blocked || (d.x, d.y) in taken + SpotsOf(placed) then placed else placed + [d])
    {
      if !IsBlocked(d.x, d.y) {
        AddMonster(d, start, taken, placed);
      }
    }

    /** The accepted branch of the `place_objects` loop: build the drawn monster and append it. */
    method AddMonster(d: MonsterDraw, ghost start: nat, ghost taken: set<(int, int)>, ghost placed: seq<MonsterDraw>)
      requires Valid() && InBounds(d.x, d.y) && Placing(objects, start, taken, placed)
      requires (d.x, d.y) !in SpotsIn(objects)
      modifies this`objects
      ensures Valid() && old(objects) <= objects
      ensures Placing(objects, start, taken, placed + [d])
    {
      var monster := SpawnMonster(d);
      PlaceStep(objects, start, taken, placed, monster, d);
      ListedAppend(objects, player, monster);
      objects := objects + [monster];
    }

    /**
     * `make_map`: a fresh map of walls, then `max_rooms` attempts. A candidate that
     * intersects an accepted room is dropped; otherwise its interior is carved, the
     * player is put at the centre of the first room, every later room is joined to
     * the previous one by an L-shaped corridor, and the room gets its monsters.
     */
    method MakeMap(attempts: seq<Attempt>)
      requires Valid() && objects == [player]
      requires |attempts| == MaxRooms
      requires forall k :: 0 <= k < |attempts| ==> WellDrawn(attempts[k])
      modifies this, player
      ensures fresh(tiles) && player == old(player)
      ensures Accept(attempts) != [] && Generated(Accept(attempts))
      ensures Playable()
    {
      tiles := new Tile[MapWidth, MapHeight]((x, y) => NewTile(true));
      DigRooms(attempts);
      FirstCandidateAccepted(attempts);
      AcceptedAreCandidates(attempts);
      GeneratedPlayable(Accept(attempts));
    }

    /** The room loop of `make_map`, on the filled map with the player alone. */
    method DigRooms(attempts: seq<Attempt>)
      requires Generated([])
      requires forall k :: 0 <= k < |attempts| ==> WellDrawn(attempts[k])
      modifies tiles, player, this`objects
      ensures Generated(Accept(attempts))
    {
      var rooms: seq<Rect> := [];
      var numRooms := 0;
      ghost var accepted: seq<Attempt> := [];
      var r := 0;
      while r < |attempts|
        invariant 0 <= r <= |attempts|
        invariant accepted == Accept(attempts[..r])
        invariant numRooms == |rooms| && RoomsOf(rooms, accepted)
        invariant Generated(accepted)
      {
        var a := attempts[r];
        AcceptStep(attempts, r);
        rooms, numRooms, accepted := TryRoom(a, rooms, numRooms, accepted);
        r := r + 1;
      }
      assert attempts[..r] == attempts;
    }

    /**
     * The level once the candidates `acc` are accepted: the map is their layout,
     * the player stands at the centre of the first room, and after the player come
     * the monsters of every room in order.
     */
    ghost predicate Generated(acc: seq<Attempt>)
      reads this, tiles, objects, player
    {
      Valid() && DugOut(acc) && Peopled(acc, Population(acc))
    }

    /** The map is the layout of the rooms `acc`, tile by tile. */
    ghost predicate DugOut(acc: seq<Attempt>)
      reads this`tiles, tiles
    {
      Shaped() && forall x, y {:trigger tiles[x, y]} :: InBounds(x, y) ==> tiles[x, y] == TileAfter(acc, x, y)
    }

    /**
     * Before any room, the player alone at its initial spot; afterwards the player at
     * the centre of the first room, followed by the monsters `pop`.
     */
    ghost predicate Peopled(acc: seq<Attempt>, pop: seq<MonsterDraw>)
      reads this`objects, this`player, objects, player
    {
      && (acc == [] ==> objects == [player] && pop == [])
      && (acc != [] ==> (player.x, player.y) == StartOf(acc) && Placing(objects, 1, {StartOf(acc)}, pop))
    }

    /**
     * One pass of the room loop of `make_map`: the candidate is tested against the
     * rooms so far and, when it intersects none of them, accepted.
     */
    method TryRoom(a: Attempt, rooms: seq<Rect>, numRooms: int, ghost accepted: seq<Attempt>)
      returns (rooms': seq<Rect>, numRooms': int, ghost accepted': seq<Attempt>)
      requires Generated(accepted) && WellDrawn(a)
      requires numRooms == |rooms| && RoomsOf(rooms, accepted)
      modifies tiles, player, this`objects
      ensures accepted' == if ClashesWithAny(RoomOf(a), accepted) then accepted else accepted + [a]
      ensures Generated(accepted')
      ensures numRooms' == |rooms'| && RoomsOf(rooms', accepted')
    {
      var newRoom := NewRect(a.x, a.y, a.w, a.h);
      var failed := ClashScan(newRoom, rooms);
      assert failed <==> ClashesWithAny(newRoom, accepted);
      rooms', numRooms', accepted' := rooms, numRooms, accepted;
      if !failed {
        AcceptRoom(newRoom, rooms, accepted, a);
        RoomsOfSnoc(rooms, accepted, a);
        rooms' := rooms + [newRoom];
        numRooms' := numRooms + 1;
        accepted' := accepted + [a];
      }
    }

    /** The body of `make_map` for a candidate that intersects no accepted room. */
    method AcceptRoom(newRoom: Rect, rooms: seq<Rect>, ghost accepted: seq<Attempt>, a: Attempt)
      requires Generated(accepted) && WellDrawn(a) && newRoom == RoomOf(a)
      requires RoomsOf(rooms, accepted)
      modifies tiles, player, this`objects
      ensures Generated(accepted + [a])
    {
      ghost var next := accepted + [a];
      OpenRoom(newRoom, rooms, accepted, a, Population(accepted));
      MapIsLayout(next);
      ghost var before := objects;
      RoomFitsMap(a);
      PlaceObjects(newRoom, a.monsters);
      assert next[..|next| - 1] == accepted;
      PlacingNextRoom(before, objects, next);
    }

    /**
     * The carving of an accepted room and, for the first room, the player's move to
     * its centre; the objects themselves are left alone.
     */
    method OpenRoom(newRoom: Rect, rooms: seq<Rect>, ghost accepted: seq<Attempt>, a: Attempt, ghost pop: seq<MonsterDraw>)
      requires Valid() && DugOut(accepted) && Peopled(accepted, pop)
      requires WellDrawn(a) && newRoom == RoomOf(a)
      requires RoomsOf(rooms, accepted)
      modifies tiles, player
      ensures Valid() && DugOut(accepted + [a]) && objects == old(objects)
      ensures (player.x, player.y) == StartOf(accepted + [a])
      ensures Placing(objects, 1, {StartOf(accepted + [a])}, pop)
    {
      ghost var next := accepted + [a];
      assert next[..|accepted|] == accepted && next[|accepted|] == a;
      DigNewRoom(newRoom, a.hFirst, rooms, next);
      if |rooms| == 0 {
        var (newX, newY) := Center(newRoom);
        PutPlayer(newX, newY, a);
      }
    }

    /** A map that agrees with `TileAfter(acc, _, _)` on every tile is `Layout(acc)`. */
    lemma MapIsLayout(acc: seq<Attempt>)
      requires Shaped()
      requires forall x, y :: InBounds(x, y) ==> tiles[x, y] == TileAfter(acc, x, y)
      ensures Cells() == Layout(acc)
    {
      GridExtensionality(Cells(), Layout(acc));
    }

    /**
     * A generated level is ready to play: the map's outermost ring is wall and the
     * player starts on an open tile.
     */
    lemma GeneratedPlayable(acc: seq<Attempt>)
      requires acc != [] && Generated(acc)
      requires forall k :: 0 <= k < |acc| ==> WellDrawn(acc[k])
      ensures Playable()
    {
      MapIsLayout(acc);
      LayoutBorderBlocked(acc);
      StartTileOpen(acc);
    }

    /**
     * The carving step of `make_map` for the accepted candidate `acc[i]`, where
     * `i = |rooms|`: carve its interior, then, after the first room, the corridor
     * from the previous room's centre, the leg the flip chose first.
     */
    method DigNewRoom(newRoom: Rect, hFirst: bool, rooms: seq<Rect>, ghost acc: seq<Attempt>)
      requires |acc| == |rooms| + 1 && DugOut(acc[..|rooms|])
      requires forall k :: 0 <= k < |acc| ==> WellDrawn(acc[k])
      requires forall k :: 0 <= k < |rooms| ==> rooms[k] == RoomOf(acc[k])
      requires newRoom == RoomOf(acc[|rooms|]) && hFirst == acc[|rooms|].hFirst
      modifies tiles
      ensures DugOut(acc)
    {
      ghost var before := Cells();
      RoomFitsMap(acc[|rooms|]);
      CreateRoom(newRoom);
      if |rooms| > 0 {
        RoomFitsMap(acc[|rooms| - 1]);
        DigCorridor(Center(rooms[|rooms| - 1]), Center(newRoom), hFirst);
      }
      assert Cells() == DigRoom(before, acc, |rooms|);
      forall x, y | InBounds(x, y)
        ensures tiles[x, y] == TileAfter(acc, x, y)
      {
        DigRoomTile(before, acc, x, y);
      }
    }

    /** The L-shaped corridor of `make_map` from `prev` to `next`, the horizontal leg first when `hFirst`. */
    method DigCorridor(prev: (int, int), next: (int, int), hFirst: bool)
      requires Shaped() && InBounds(prev.0, prev.1) && InBounds(next.0, next.1)
      modifies tiles
      ensures Cells() == Connect(old(Cells()), prev, next, hFirst)
    {
      if hFirst {
        CreateHTunnel(prev.0, next.0, prev.1);
        CreateVTunnel(prev.1, next.1, next.0);
      } else {
        CreateVTunnel(prev.1, next.1, prev.0);
        CreateHTunnel(prev.0, next.0, next.1);
      }
    }

    /** The first accepted room of `make_map`: the player is put at its centre. */
    method PutPlayer(x: int, y: int, ghost a: Attempt)
      requires Valid() && objects == [player]
      requires WellDrawn(a) && (x, y) == Center(RoomOf(a))
      modifies player
      ensures Valid() && objects == [player] && player.x == x && player.y == y
      ensures Placing(objects, 1, {(x, y)}, [])
    {
      RoomFitsMap(a);
      player.x := x;
      player.y := y;
      assert SpotsIn(objects) == SpotsIn([]) + {(x, y)};
    }

    /** The species draw of `place_objects` and the monster it builds at the drawn spot. */
    method SpawnMonster(d: MonsterDraw) returns (monster: GameObject)
      ensures fresh(monster) && MonsterFrom(monster, d)
    {
      if d.roll < 80 {
        monster := new GameObject(d.x, d.y, 'o', "orc", true, Some(NewFighter(10, 0, 3)), Some(BasicMonster));
      } else {
        monster := new GameObject(d.x, d.y, 'D', "dragon", true, Some(NewFighter(30, 1, 4)), Some(BasicMonster));
      }
    }

    /**
     * The target scan of `player_move_or_attack`: the first object in list order
     * that stands on (x, y), whether it blocks or not; none when no object does.
     */
    method TargetAt(x: int, y: int) returns (target: Option<GameObject>)
      ensures target.None? <==> forall i :: 0 <= i < |objects| ==> !(objects[i].x == x && objects[i].y == y)
      ensures target.Some? ==> exists k :: FirstOccupant(k, x, y) && objects[k] == target.value
    {
      target := None;
      var i := 0;
      while i < |objects|
        invariant 0 <= i <= |objects|
        invariant forall j :: 0 <= j < i ==> !(objects[j].x == x && objects[j].y == y)
      {
        if objects[i].x == x && objects[i].y == y {
          target := Some(objects[i]);
          assert FirstOccupant(i, x, y);
          break;
        }
        i := i + 1;
      }
    }

    /**
     * `player_move_or_attack`: when an object stands on the target tile the player
     * attacks it, which only narrates (the target's name is returned) and moves
     * nobody; otherwise the player moves as `move` says.
     */
    method PlayerMoveOrAttack(dx: int, dy: int) returns (attacked: Option<string>)
      requires Valid()
      requires InBounds(player.x + dx, player.y + dy)
      modifies player
      ensures Valid()
      ensures attacked.Some? <==>
        exists i :: 0 <= i < |objects| && old(objects[i].x == player.x + dx && objects[i].y == player.y + dy)
      ensures attacked.Some? ==>
        (exists k :: old(FirstOccupant(k, player.x + dx, player.y + dy)) && attacked.value == objects[k].name)
        && forall i :: 0 <= i < |objects| ==> objects[i].x == old(objects[i].x) && objects[i].y == old(objects[i].y)
      ensures attacked.None? && old(IsBlocked(player.x + dx, player.y + dy)) ==>
        player.x == old(player.x) && player.y == old(player.y)
      ensures attacked.None? && !old(IsBlocked(player.x + dx, player.y + dy)) ==>
        player.x == old(player.x) + dx && player.y == old(player.y) + dy
      ensures old(Playable()) ==> Playable()
    {
      var x := player.x + dx;
      var y := player.y + dy;
      var target := TargetAt(x, y);
      if target.Some? {
        attacked := Some(target.value.name);
      } else {
        attacked := None;
        player.Move(this, dx, dy);
      }
    }
  }
}
