# HansHack dungeon generator and turn resolver, modelled in Dafny

This project models the game logic of `testhack.py`, a small roguelike: the map
tiles, rooms as rectangles, carving rooms and corridors into the map, the
blocking test, object movement, the dungeon generator `make_map` together with
`place_objects`, and `player_move_or_attack`. Randomness is replaced by inputs.
One iteration of the room loop becomes an `Attempt`, which holds the candidate's
width, height and corner, the corridor coin flip and the monster draws. One
monster becomes a `MonsterDraw`, which holds its spot and its species roll.
`WellDrawn` states the ranges of the source's `randint` calls.

Modules, one per file:

- `Wrappers` (`wrappers.dfy`): `Option`, `Min`, `Max`.
- `Geometry` (`geometry.dfy`): `Rect`, `center`, `intersect`.
- `Tiles` (`tiles.dfy`): `Tile` and the map as a value (`Grid`, indexed `g[x][y]`).
  It specifies carving, `is_visible_tile` and exploring as functions on grids.
- `Components` (`components.dfy`): `Fighter`, the `BasicMonster` AI, and the orc and dragon species.
- `Generation` (`generation.dfy`): what `make_map` and `place_objects` compute, as
  functions of the draws.
  - `Accept` gives the accepted candidates.
  - `TileAfter` and `Layout` give the dug map.
  - `Survivors` and `Population` give the monsters placed.
  - Lemmas state the generator's guarantees.
- `Game` (`game.dfy`): the imperative part, as classes.
  - `GameObject` has mutable `x` and `y`.
  - `Level` holds the three globals `my_map` (an `array2<Tile>` field `tiles`,
    80 by 45), `objects` and `player`.
  - Each mutating function of the source is a method of `Level` or `GameObject`.
    It is proved against the specification functions of `Tiles` and `Generation`.
  - `Level.Valid` is the invariant every method keeps:
    - the map has its shape;
    - the player heads the object list;
    - no object is listed twice;
    - every object is on the map;
    - no two blocking objects share a tile.

`MakeMap` is split the way the loop body of `make_map` reads:

- `DigRooms` is the room loop.
- `TryRoom` runs one iteration.
- `ClashScan` is the intersection scan.
- `AcceptRoom` handles an accepted candidate.
  - `OpenRoom` covers carving and the player.
    - `DigNewRoom` carves the room interior and the corridor.
      - `DigCorridor` carves one L-shaped corridor.
    - `PutPlayer` places the player in the first room.
  - `PlaceObjects` places the monsters.

Every intermediate state is described by `Level.Generated(acc)`:

- the map is `TileAfter(acc, _, _)`;
- the player stands at the centre of the first accepted room;
- after the player come the monsters `Population(acc)`, in order.

The source's comment at line 155 speaks of an 80% chance of an orc. The roll
`randint(0, 100) < 80` has 101 equally likely outcomes, 80 of which give an orc,
so the orc's share is 80/101, a little under 80%.

## Model

| member | source | states |
|---|---|---|
| Tiles.NewTile | testhack.py:33-42 | a new tile is unexplored; without an explicit `block_sight` it blocks sight exactly when it blocks movement |
| Tiles.CarveTile | testhack.py:138-141 | carving clears movement and sight blocking together and keeps `explored` |
| Tiles.FilledGrid | testhack.py:220-222 | the starting map is 80 by 45 and every tile of it is `Tile(True)`: blocked, sight-blocking and unexplored |
| Tiles.CarveRect | testhack.py:135-141 | carving a range opens exactly the tiles of the range and leaves every other tile as it was |
| Tiles.CarveRectExact | testhack.py:135-141 | after carving, a tile blocks movement (or sight) exactly when it did before and lies outside the range; no `explored` flag changes |
| Tiles.CarveRectAt | testhack.py:138-141 | one tile after a carve: carved when inside the range, unchanged otherwise |
| Tiles.CarveRoom | testhack.py:135-141 | `create_room` carves exactly the interior of the room, `x1 < x < x2` and `y1 < y < y2`, and leaves every other tile as it was |
| Tiles.CarveRectIdempotent | testhack.py:135-141 | carving the same range twice equals carving it once |
| Tiles.CarveRoomIdempotent | testhack.py:135-141 | `create_room` applied twice leaves the map as one application does |
| Tiles.HTunnel | testhack.py:187-191 | `create_h_tunnel(x1, x2, y)` carves exactly the tiles of row y between x1 and x2, both ends included, whichever is smaller |
| Tiles.VTunnel | testhack.py:194-198 | `create_v_tunnel(y1, y2, x)` carves exactly the tiles of column x between y1 and y2, both ends included, whichever is smaller |
| Tiles.TunnelsSymmetric | testhack.py:187-198 | swapping the endpoints of `create_h_tunnel` or `create_v_tunnel` gives the same map |
| Tiles.CarveRectKeepsOpen | testhack.py:187-198 | carving never closes a tile: open tiles stay open and unblocked tiles stay unblocked |
| Tiles.IsVisibleTile | testhack.py:201-213 | false off the map; on it, true exactly for a tile that blocks neither movement nor sight |
| Tiles.CarvedTilesVisible | testhack.py:201-213 | every carved tile is visible; no tile of the filled map is |
| Tiles.StepStaysOnMap | testhack.py:86-92 | on a map with a solid border, a unit step from an unblocked tile stays on the map |
| Tiles.ExploreGrid | testhack.py:300-319 | after the explore pass a tile is explored exactly when it was before or is visible now; the blocking flags are untouched |
| Geometry.NewRect | testhack.py:49-53 | `x1 = x`, `y1 = y`, `x2 - x1 = w`, `y2 - y1 = h` |
| Geometry.Center | testhack.py:55-58 | each coordinate is the floor of the midpoint; a rectangle at least 2 wide and high has its centre strictly inside |
| Geometry.IntersectSymmetric | testhack.py:60-63 | `a` intersects `b` exactly when `b` intersects `a` |
| Geometry.IntersectIffSharedTile | testhack.py:60-63 | two proper rectangles intersect exactly when some tile lies in both, so touching rectangles intersect |
| Geometry.SeparatedInteriors | testhack.py:60-63 | the interiors of two rooms that do not intersect are at least three tiles apart along some axis |
| Geometry.IntersectExamples | testhack.py:47-63 | overlapping and edge-touching rooms intersect, distant ones do not, and their centres are as expected |
| Components.NewFighter | testhack.py:109-113 | a fighter starts at full health with the given defense and power |
| Components.FighterOf | testhack.py:171-181 | an orc fights with 10 hit points, defense 0 and power 3; a dragon with 30, 1 and 4 |
| Components.SpeciesFor | testhack.py:155 | the species roll picks an orc when it is below 80 and a dragon otherwise |
| Generation.WellDrawn | testhack.py:229-233 | the ranges of the draws: width and height in `6 .. 10`, corner in `0 .. map_width - w - 1` and `0 .. map_height - h - 1`; at most 3 monsters (line 146), each drawn in the closed rectangle (lines 150-151) with a roll in `0 .. 100` (line 155) |
| Generation.RoomFitsMap | testhack.py:229-233 | a well-drawn candidate lies on the map with `x2 <= map_width - 1` and `y2 <= map_height - 1`, and its centre is strictly inside it |
| Generation.Accept | testhack.py:224-245 | the accepted candidates in order: a candidate is kept when it intersects none of the rooms kept before it |
| Generation.AcceptStep | testhack.py:238-245 | candidate r is accepted exactly when it intersects none of the rooms accepted before it |
| Generation.AcceptedAreCandidates | testhack.py:227-245 | there are no more accepted rooms than attempts, and each is one of the candidates |
| Generation.FirstCandidateAccepted | testhack.py:238-245 | the first candidate is always accepted |
| Generation.AcceptedDisjoint | testhack.py:238-245 | no two accepted rooms intersect |
| Generation.TileAfter | testhack.py:216-275 | a tile of the generated map starts as `Tile(True)` and is carved by every room and corridor that reaches it; it is never explored, and it blocks sight exactly when it blocks movement |
| Generation.Layout | testhack.py:216-275 | the generated map has the map's shape, and each of its tiles is `TileAfter` of the accepted rooms |
| Generation.Connect | testhack.py:266-274 | the L-shaped corridor carves exactly the tiles on its two legs, in the order the flip chooses, and leaves every other tile as it was |
| Generation.DigRoom | testhack.py:247-274 | digging room i carves exactly its interior and, after the first room, its corridor to room i - 1 |
| Generation.DigRoomTile | testhack.py:247-274 | digging the newest room into the map of the rooms before it gives, tile by tile, the layout with that room |
| Generation.LayoutStep | testhack.py:247-274 | accepting one more room carves exactly the tiles that room and its corridor reach |
| Generation.LayoutSnoc | testhack.py:247-274 | accepting one more room applies `create_room` and then the corridor to the map of the rooms before it |
| Generation.LayoutEmpty | testhack.py:220-222 | before any room is accepted, the map is the filled map |
| Generation.LayoutExact | testhack.py:216-275 | a tile of the generated map is open, transparent and unexplored when some room or corridor carves it; otherwise it is a wall, unexplored |
| Generation.CarvedInside | testhack.py:229-233 | whatever an accepted room or corridor carves lies on the map and off its outermost ring |
| Generation.LayoutBorderBlocked | testhack.py:216-275 | the outermost ring of the generated map stays wall |
| Generation.RoomsOpen | testhack.py:249 | every interior tile of every accepted room is open |
| Generation.StartTileOpen | testhack.py:252-257 | the player's start, the first room's centre, is on the map and open |
| Generation.CorridorJoinsCentres | testhack.py:259-274 | each later room's corridor starts at the previous centre, ends at the new one, and is open along its whole length |
| Generation.SpotsOfSnoc | testhack.py:183 | appending a monster adds exactly its spot to the taken spots |
| Generation.Survivors | testhack.py:144-183 | the monsters of one `place_objects` call number at most the draws, and each stands on the map, on a tile that does not block and that no blocker held before |
| Generation.SurvivorsSound | testhack.py:144-183 | one `place_objects` call places no more monsters than draws, each from a draw, on an unblocked tile not already taken, and no two on one tile |
| Generation.SurvivorsWithin | testhack.py:150-151 | monsters drawn inside a room stay inside it |
| Generation.LayoutKeepsOpen | testhack.py:247-274 | a later room never closes a tile that was open before it |
| Generation.Population | testhack.py:276-282 | the monsters of the whole level: room after room, the survivors of that room's draws on the map dug so far, with the player's tile and the earlier monsters' tiles taken |
| Generation.PopulationSnoc | testhack.py:277 | one more accepted room appends the survivors of its draws after the earlier monsters |
| Generation.PopulationBound | testhack.py:146 | the level holds at most `max_room_monsters` monsters per accepted room |
| Generation.PopulationOnOpenTiles | testhack.py:150-154 | every monster stands on the map, on a tile of the final map that does not block |
| Generation.PopulationApart | testhack.py:153-154 | no monster stands on the player's start, and no two monsters share a tile |
| Generation.PopulationInRooms | testhack.py:148-151 | every monster was drawn inside one of the accepted rooms |
| Game.GameObject.constructor | testhack.py:71-84 | the object holds exactly the position, glyph, name, blocking flag, fighter and AI it was given |
| Game.GameObject.Move | testhack.py:86-92 | the object moves by exactly (dx, dy) when the destination is not blocked, otherwise it stays; the level stays valid |
| Game.BlockerAt | testhack.py:127-130 | true exactly when some blocking object of the list stands on (x, y) |
| Game.SpotsInMembers | testhack.py:127-130 | a spot is taken exactly when a blocking object of the list stands on it |
| Game.MonsterFrom | testhack.py:171-181 | the monster built from a draw stands on the drawn spot, blocks, and has the glyph, name, fighter and basic AI of the rolled species |
| Game.ApartAppend | testhack.py:153-183 | appending an object on a tile no blocker holds keeps the blockers apart |
| Game.PlacedMonsters | testhack.py:144-183 | the monsters one `place_objects` call appends number at most the draws; each blocks, is inside the room, and stands on a tile that does not block |
| Game.PlacingConcat | testhack.py:277 | two `place_objects` runs in a row place the survivors of the first, then those of the second |
| Game.ClashScan | testhack.py:238-245 | the scan fails exactly when the candidate intersects one of the rooms so far |
| Game.PlaceStep | testhack.py:153-183 | one accepted draw appends its monster and keeps the blockers apart |
| Game.PlacingNextRoom | testhack.py:277-282 | after `place_objects` for the newest room, the objects behind the player are the monsters of all rooms in order |
| Game.Level.constructor | testhack.py:398-403 | the level starts with the player alone, at (0, 0), with 30 hit points, defense 2 and power 5; the map of walls is a placeholder, since `my_map` exists only once `MakeMap` builds it |
| Game.Level.IsBlocked | testhack.py:122-132 | true exactly when the tile blocks movement or a blocking object stands on it |
| Game.Level.UnitStepOnMap | testhack.py:366-371 | in a playable level, a unit step of the player stays on the map |
| Game.Level.CreateRoom | testhack.py:135-141 | the map becomes `CarveRoom` of the old map |
| Game.Level.CreateHTunnel | testhack.py:187-191 | the map becomes `HTunnel` of the old map |
| Game.Level.CreateVTunnel | testhack.py:194-198 | the map becomes `VTunnel` of the old map |
| Game.Level.MarkExplored | testhack.py:300-319 | the map becomes `ExploreGrid` of the old map |
| Game.Level.PlaceObjects | testhack.py:144-183 | the list grows by the monsters of the draws that survive (by `Survivors`), in draw order; the map does not change and the level stays valid |
| Game.Level.TryPlace | testhack.py:153-183 | a draw becomes a monster exactly when its tile is unblocked and not taken |
| Game.Level.AddMonster | testhack.py:171-183 | the drawn monster is appended and the level stays valid |
| Game.Level.MakeMap | testhack.py:216-282 | at least one room is accepted; the level is `Generated` from the accepted candidates and is playable |
| Game.Level.DigRooms | testhack.py:224-282 | the room loop leaves the level `Generated` from `Accept(attempts)` |
| Game.Level.TryRoom | testhack.py:227-282 | one iteration accepts the candidate exactly when it intersects no earlier room, and keeps the level `Generated` and `rooms` matching the accepted candidates |
| Game.Level.AcceptRoom | testhack.py:245-282 | an accepted candidate takes the level from `Generated(acc)` to `Generated(acc + [a])` |
| Game.Level.OpenRoom | testhack.py:247-274 | the new room and its corridor are dug, and the player stands at the centre of the first room |
| Game.Level.GeneratedPlayable | testhack.py:216-282 | a generated level has a wall border and the player on an open tile |
| Game.Level.DigNewRoom | testhack.py:249-274 | the map becomes the layout of one more room: its interior and, after the first room, the corridor |
| Game.Level.DigCorridor | testhack.py:264-274 | the map becomes `Connect` of the old map, the leg chosen by the flip first |
| Game.Level.PutPlayer | testhack.py:254-257 | the player moves to the given centre and is then the only blocker |
| Game.Level.SpawnMonster | testhack.py:155-181 | a new monster at the drawn spot: an orc when the roll is below 80, a dragon otherwise |
| Game.Level.TargetAt | testhack.py:374-378 | the first object in list order on (x, y), blocking or not; none when no object stands there |
| Game.Level.PlayerMoveOrAttack | testhack.py:366-385 | when an object stands on the target, its name is reported and nobody moves; otherwise the player moves as `move` says; validity and playability are kept |

## Left out

- Rendering, colours, the consoles and `GameObject.draw`/`clear` are screen output.
- The field of view (`tdl.map.quickFOV`) is a foreign library call. `MarkExplored` takes the visible set as an input.
- Key handling, the fullscreen toggle and the main loop are event input and output.
- `BasicMonster.take_turn` only prints, and the monster loop breaks without acting.
- `fov_recompute = True` on the move branch of `player_move_or_attack` only asks `render_all` to recompute the field of view, which is left out.
- `print` narration is left out. `PlayerMoveOrAttack` returns the target's name instead of printing `'The ' + name.title() + ' laughs …'`; title casing is not modelled.
- Object colours are not modelled; no behaviour depends on them.
- The owner back-references of `Fighter` and `BasicMonster` are not modelled; no behaviour depends on them.
- The `randint` calls are inputs (`Attempt`, `MonsterDraw`). Their distribution is not modelled, only their ranges (`WellDrawn`).
- Game.Level.IsBlocked: requires (x, y) on the map. Python would wrap negative indices or raise IndexError; `UnitStepOnMap` shows that a playable level never asks for such a tile.
- Game.GameObject.Move: requires the destination on the map, for the same reason as `IsBlocked`.
- Game.Level.PlayerMoveOrAttack: requires the destination on the map, for the same reason as `IsBlocked`.
- Generation.Survivors: treats a draw off the map as blocked. A well-drawn attempt never holds one, and the source would index outside the map there.
- Game.Level.PlaceObjects: does not state that each new monster is a distinct new object. It states only the monsters' contents and that no object is listed twice.
- The integers are unbounded, as Python's are; nothing in this model overflows.
