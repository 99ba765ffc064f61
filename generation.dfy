/**
 * What `make_map` and `place_objects` compute, as functions of their random draws.
 * Every `randint` of the source is an input here: an `Attempt` holds the draws of
 * one iteration of the room loop, a `MonsterDraw` those of one monster.
 */
module Generation {
  import opened Wrappers
  import opened Geometry
  import opened Tiles

  const RoomMaxSize := 10
  const RoomMinSize := 6
  const MaxRooms := 26
  const MaxRoomMonsters := 3

  /** One monster of `place_objects`: its spot and its species roll `randint(0, 100)`. */
  datatype MonsterDraw = MonsterDraw(x: int, y: int, roll: int)

  /**
   * One iteration of the room loop: width, height and top-left corner of the
   * candidate, the coin flip choosing which corridor leg comes first (true:
   * horizontal first), and the draws of `place_objects`. The flip and the monster
   * draws are consumed only when the candidate is accepted, the flip only when it
   * is not the first room.
   */
  datatype Attempt = Attempt(w: int, h: int, x: int, y: int, hFirst: bool, monsters: seq<MonsterDraw>)

  function RoomOf(a: Attempt): Rect
  {
    NewRect(a.x, a.y, a.w, a.h)
  }

  /** The ranges of the `randint` calls of the room loop and of `place_objects`. */
  predicate WellDrawn(a: Attempt)
  {
    && RoomMinSize <= a.w <= RoomMaxSize && RoomMinSize <= a.h <= RoomMaxSize
    && 0 <= a.x <= MapWidth - a.w - 1 && 0 <= a.y <= MapHeight - a.h - 1
    && |a.monsters| <= MaxRoomMonsters
    && forall k :: 0 <= k < |a.monsters| ==>
         Contains(RoomOf(a), a.monsters[k].x, a.monsters[k].y) && 0 <= a.monsters[k].roll <= 100
  }

  /**
   * A well-drawn room lies on the map with its right and bottom edges at most at
   * `map_width - 1` and `map_height - 1`, and its centre is strictly inside it.
   */
  lemma RoomFitsMap(a: Attempt)
    requires WellDrawn(a)
    ensures 0 <= RoomOf(a).x1 && RoomOf(a).x2 <= MapWidth - 1
    ensures 0 <= RoomOf(a).y1 && RoomOf(a).y2 <= MapHeight - 1
    ensures InInterior(RoomOf(a), Center(RoomOf(a)).0, Center(RoomOf(a)).1)
    ensures forall x, y :: Contains(RoomOf(a), x, y) ==> InBounds(x, y)
  {
  }

  // ---------------------------------------------------------------------------
  // Which candidates become rooms

  /** The candidate intersects one of the rooms accepted so far. */
  predicate ClashesWithAny(r: Rect, kept: seq<Attempt>)
  {
    exists j :: 0 <= j < |kept| && Intersect(r, RoomOf(kept[j]))
  }

  /** The accepted attempts, in order: a candidate is dropped when it intersects an earlier accepted room. */
  function Accept(attempts: seq<Attempt>): seq<Attempt>
    decreases |attempts|
  {
    if attempts == [] then []
    else
      var kept := Accept(attempts[..|attempts| - 1]);
      var a := attempts[|attempts| - 1];
      if ClashesWithAny(RoomOf(a), kept) then kept else kept + [a]
  }

  /** Every accepted room is one of the candidates, so the candidates' ranges hold for it. */
  lemma {:induction false} AcceptedAreCandidates(attempts: seq<Attempt>)
    ensures |Accept(attempts)| <= |attempts|
    ensures forall i :: 0 <= i < |Accept(attempts)| ==> Accept(attempts)[i] in attempts
  {
    if attempts != [] {
      var pre := attempts[..|attempts| - 1];
      AcceptedAreCandidates(pre);
      assert forall a :: a in pre ==> a in attempts;
    }
  }

  /** Candidate r is accepted exactly when it intersects none of the rooms accepted before it. */
  lemma AcceptStep(attempts: seq<Attempt>, r: int)
    requires 0 <= r < |attempts|
    ensures Accept(attempts[..r + 1]) ==
      if ClashesWithAny(RoomOf(attempts[r]), Accept(attempts[..r])) then Accept(attempts[..r])
      else Accept(attempts[..r]) + [attempts[r]]
  {
    assert attempts[..r + 1][..r] == attempts[..r];
  }

  /** The first candidate is always accepted: there is nothing yet for it to intersect. */
  lemma {:induction false} FirstCandidateAccepted(attempts: seq<Attempt>)
    requires attempts != []
    ensures Accept(attempts) != [] && Accept(attempts)[0] == attempts[0]
  {
    var pre := attempts[..|attempts| - 1];
    if pre != [] {
      FirstCandidateAccepted(pre);
      assert pre[0] == attempts[0];
    }
  }

  /** No two accepted rooms intersect. */
  lemma {:induction false} AcceptedDisjoint(attempts: seq<Attempt>)
    ensures forall i, j :: 0 <= i < j < |Accept(attempts)| ==>
      !Intersect(RoomOf(Accept(attempts)[i]), RoomOf(Accept(attempts)[j]))
  {
    if attempts != [] {
      var pre := attempts[..|attempts| - 1];
      var kept := Accept(pre);
      var a := attempts[|attempts| - 1];
      AcceptedDisjoint(pre);
      if !ClashesWithAny(RoomOf(a), kept) {
        forall i | 0 <= i < |kept|
          ensures !Intersect(RoomOf(kept[i]), RoomOf(a))
        {
          IntersectSymmetric(RoomOf(kept[i]), RoomOf(a));
        }
      }
    }
  }

  // ---------------------------------------------------------------------------
  // The map the accepted rooms dig

  /**
   * The L-shaped corridor from `prev` to `next`, one leg after the other: it carves
   * exactly the tiles on its two legs.
   */
  function Connect(g: Grid, prev: (int, int), next: (int, int), hFirst: bool): (r: Grid)
    requires WellFormed(g)
    ensures WellFormed(r)
    ensures forall x, y :: InBounds(x, y) ==>
      r[x][y] == if OnCorridor(prev, next, hFirst, x, y) then CarveTile(g[x][y]) else g[x][y]
  {
    if hFirst then VTunnel(HTunnel(g, prev.0, next.0, prev.1), prev.1, next.1, next.0)
    else HTunnel(VTunnel(g, prev.1, next.1, prev.0), prev.0, next.0, next.1)
  }

  predicate Between(v: int, a: int, b: int)
  {
    Min(a, b) <= v <= Max(a, b)
  }

  /**
   * (x, y) lies on the corridor from `prev` to `next`: along row `prev.1` then
   * column `next.0` when the horizontal leg comes first, otherwise along column
   * `prev.0` then row `next.1`.
   */
  predicate OnCorridor(prev: (int, int), next: (int, int), hFirst: bool, x: int, y: int)
  {
    if hFirst then
      (y == prev.1 && Between(x, prev.0, next.0)) || (x == next.0 && Between(y, prev.1, next.1))
    else
      (x == prev.0 && Between(y, prev.1, next.1)) || (y == next.1 && Between(x, prev.0, next.0))
  }

  /**
   * Tile (x, y) of the map once the rooms `acc` are accepted in order: a wall to
   * begin with, carved again by every room and corridor that reaches it.
   */
  function TileAfter(acc: seq<Attempt>, x: int, y: int): (t: Tile)
    ensures !t.explored && t.blockSight == t.blocked
    decreases |acc|
  {
    if acc == [] then NewTile(true)
    else
      var t := TileAfter(acc[..|acc| - 1], x, y);
      if CarvedBy(acc, |acc| - 1, x, y) then CarveTile(t) else t
  }

  /** The map once the rooms `acc` are accepted in order, tile by tile. */
  function Layout(acc: seq<Attempt>): (g: Grid)
    ensures WellFormed(g)
    ensures forall x, y :: InBounds(x, y) ==> g[x][y] == TileAfter(acc, x, y)
  {
    LayoutColumns(acc, MapWidth)
  }

  /** Columns 0 to m - 1 of `Layout(acc)`. */
  function LayoutColumns(acc: seq<Attempt>, m: nat): (g: seq<seq<Tile>>)
    requires m <= MapWidth
    ensures |g| == m && forall x :: 0 <= x < m ==> |g[x]| == MapHeight
    ensures forall x, y :: 0 <= x < m && 0 <= y < MapHeight ==> g[x][y] == TileAfter(acc, x, y)
  {
    if m == 0 then [] else LayoutColumns(acc, m - 1) + [LayoutColumn(acc, m - 1, MapHeight)]
  }

  /** Rows 0 to n - 1 of column x of `Layout(acc)`. */
  function LayoutColumn(acc: seq<Attempt>, x: int, n: nat): (c: seq<Tile>)
    ensures |c| == n && forall y :: 0 <= y < n ==> c[y] == TileAfter(acc, x, y)
  {
    if n == 0 then [] else LayoutColumn(acc, x, n - 1) + [TileAfter(acc, x, n - 1)]
  }

  /**
   * Room i of `acc` dug into `g`: its interior, then, after the first room, the
   * corridor from room i - 1. It carves exactly the tiles room i carves.
   */
  function DigRoom(g: Grid, acc: seq<Attempt>, i: int): (r: Grid)
    requires WellFormed(g) && 0 <= i < |acc|
    ensures WellFormed(r)
    ensures forall x, y :: InBounds(x, y) ==>
      r[x][y] == if CarvedBy(acc, i, x, y) then CarveTile(g[x][y]) else g[x][y]
  {
    var room := RoomOf(acc[i]);
    var carved := CarveRoom(g, room);
    if i == 0 then carved else Connect(carved, Center(RoomOf(acc[i - 1])), Center(room), acc[i].hFirst)
  }

  /** Room i carves (x, y): it lies in the room's interior, or on the corridor to room i - 1. */
  predicate CarvedBy(acc: seq<Attempt>, i: int, x: int, y: int)
    requires 0 <= i < |acc|
  {
    || InInterior(RoomOf(acc[i]), x, y)
    || (i > 0 && OnCorridor(Center(RoomOf(acc[i - 1])), Center(RoomOf(acc[i])), acc[i].hFirst, x, y))
  }

  ghost predicate Carved(acc: seq<Attempt>, x: int, y: int)
  {
    exists i :: 0 <= i < |acc| && CarvedBy(acc, i, x, y)
  }

  /** Accepting one more room carves exactly the tiles that room carves. */
  lemma LayoutStep(acc: seq<Attempt>, x: int, y: int)
    requires acc != [] && InBounds(x, y)
    ensures Layout(acc)[x][y] ==
      if CarvedBy(acc, |acc| - 1, x, y) then CarveTile(Layout(acc[..|acc| - 1])[x][y])
      else Layout(acc[..|acc| - 1])[x][y]
  {
  }

  /** Digging the newest room into the map of the rooms before it gives its tile of the layout. */
  lemma DigRoomTile(g: Grid, acc: seq<Attempt>, x: int, y: int)
    requires acc != [] && WellFormed(g) && InBounds(x, y)
    requires g[x][y] == TileAfter(acc[..|acc| - 1], x, y)
    ensures DigRoom(g, acc, |acc| - 1)[x][y] == TileAfter(acc, x, y)
  {
  }

  /**
   * The map `make_map` digs: accepting one more room applies `create_room` and,
   * after the first room, the two tunnels to the map of the rooms before it.
   */
  lemma LayoutSnoc(acc: seq<Attempt>, a: Attempt)
    ensures Layout(acc + [a]) == DigRoom(Layout(acc), acc + [a], |acc|)
  {
    var next := acc + [a];
    assert next[..|acc|] == acc;
    GridExtensionality(Layout(next), DigRoom(Layout(acc), next, |acc|));
  }

  /** Before any room is accepted the map is the filled map. */
  lemma LayoutEmpty(acc: seq<Attempt>)
    requires acc == []
    ensures Layout(acc) == FilledGrid()
  {
    GridExtensionality(Layout(acc), FilledGrid());
  }

  lemma CarvedSnoc(acc: seq<Attempt>, x: int, y: int)
    requires acc != []
    ensures Carved(acc, x, y) <==> Carved(acc[..|acc| - 1], x, y) || CarvedBy(acc, |acc| - 1, x, y)
  {
    var n := |acc|;
    var pre := acc[..n - 1];
    forall i | 0 <= i < n - 1
      ensures CarvedBy(pre, i, x, y) == CarvedBy(acc, i, x, y)
    {
      assert pre[i] == acc[i];
      if i > 0 {
        assert pre[i - 1] == acc[i - 1];
      }
    }
  }

  /**
   * The dug map exactly: a tile is open and transparent when some room or corridor
   * carves it, and is a wall otherwise; no tile is explored.
   */
  lemma {:induction false} LayoutExact(acc: seq<Attempt>, x: int, y: int)
    requires InBounds(x, y)
    ensures Layout(acc)[x][y] == if Carved(acc, x, y) then Tile(false, false, false) else Tile(true, true, false)
    decreases |acc|
  {
    if acc != [] {
      LayoutExact(acc[..|acc| - 1], x, y);
      LayoutStep(acc, x, y);
      CarvedSnoc(acc, x, y);
    }
  }

  /** Whatever the accepted rooms carve stays on the map and off its outermost ring. */
  lemma CarvedInside(acc: seq<Attempt>, i: int, x: int, y: int)
    requires forall k :: 0 <= k < |acc| ==> WellDrawn(acc[k])
    requires 0 <= i < |acc| && CarvedBy(acc, i, x, y)
    ensures InBounds(x, y) && !OnBorder(x, y)
  {
    RoomFitsMap(acc[i]);
    if i > 0 {
      RoomFitsMap(acc[i - 1]);
    }
  }

  /** The outermost ring of the generated map stays wall. */
  lemma LayoutBorderBlocked(acc: seq<Attempt>)
    requires forall k :: 0 <= k < |acc| ==> WellDrawn(acc[k])
    ensures BorderBlocked(Layout(acc))
  {
    forall x, y | InBounds(x, y) && OnBorder(x, y)
      ensures Layout(acc)[x][y].blocked
    {
      LayoutExact(acc, x, y);
      if Carved(acc, x, y) {
        var i :| 0 <= i < |acc| && CarvedBy(acc, i, x, y);
        CarvedInside(acc, i, x, y);
      }
    }
  }

  /** Every tile of every accepted room's interior is open. */
  lemma RoomsOpen(acc: seq<Attempt>, i: int, x: int, y: int)
    requires forall k :: 0 <= k < |acc| ==> WellDrawn(acc[k])
    requires 0 <= i < |acc| && InInterior(RoomOf(acc[i]), x, y)
    ensures InBounds(x, y) && IsOpen(Layout(acc)[x][y])
  {
    assert CarvedBy(acc, i, x, y);
    CarvedInside(acc, i, x, y);
    LayoutExact(acc, x, y);
  }

  /** The player's start, the first room's centre, is an open tile. */
  lemma StartTileOpen(acc: seq<Attempt>)
    requires forall k :: 0 <= k < |acc| ==> WellDrawn(acc[k])
    requires acc != []
    ensures var c := Center(RoomOf(acc[0])); InBounds(c.0, c.1) && IsOpen(Layout(acc)[c.0][c.1])
  {
    RoomFitsMap(acc[0]);
    var c := Center(RoomOf(acc[0]));
    RoomsOpen(acc, 0, c.0, c.1);
  }

  /**
   * Each later room's centre is joined to the previous room's centre: the corridor
   * the coin flip chose starts at one centre, ends at the other, and every tile of
   * it is open.
   */
  lemma CorridorJoinsCentres(acc: seq<Attempt>, i: int)
    requires forall k :: 0 <= k < |acc| ==> WellDrawn(acc[k])
    requires 0 < i < |acc|
    ensures var prev, next := Center(RoomOf(acc[i - 1])), Center(RoomOf(acc[i]));
      && OnCorridor(prev, next, acc[i].hFirst, prev.0, prev.1)
      && OnCorridor(prev, next, acc[i].hFirst, next.0, next.1)
      && forall x, y :: OnCorridor(prev, next, acc[i].hFirst, x, y) ==> InBounds(x, y) && IsOpen(Layout(acc)[x][y])
  {
    var prev, next := Center(RoomOf(acc[i - 1])), Center(RoomOf(acc[i]));
    forall x, y | OnCorridor(prev, next, acc[i].hFirst, x, y)
      ensures InBounds(x, y) && IsOpen(Layout(acc)[x][y])
    {
      assert CarvedBy(acc, i, x, y);
      CarvedInside(acc, i, x, y);
      LayoutExact(acc, x, y);
    }
  }

  // ---------------------------------------------------------------------------
  // Which monster draws become monsters

  function SpotsOf(s: seq<MonsterDraw>): set<(int, int)>
  {
    set k | 0 <= k < |s| :: (s[k].x, s[k].y)
  }

  lemma SpotsOfSnoc(s: seq<MonsterDraw>, d: MonsterDraw)
    ensures SpotsOf(s + [d]) == SpotsOf(s) + {(d.x, d.y)}
  {
    assert (s + [d])[|s|] == d;
    assert forall k :: 0 <= k < |s| ==> (s + [d])[k] == s[k];
  }

  /**
   * The draws of one `place_objects` call that become monsters: a draw is skipped
   * when its tile is blocked or a blocking object stands on it (one of `taken`, or
   * a monster placed earlier in the same call). A draw off the map, which a
   * well-drawn attempt never holds, counts as blocked.
   */
  function Survivors(g: Grid, taken: set<(int, int)>, draws: seq<MonsterDraw>): (s: seq<MonsterDraw>)
    requires WellFormed(g)
    ensures |s| <= |draws|
    ensures forall k :: 0 <= k < |s| ==>
      InBounds(s[k].x, s[k].y) && !g[s[k].x][s[k].y].blocked && (s[k].x, s[k].y) !in taken
    decreases |draws|
  {
    if draws == [] then []
    else
      var n := |draws|;
      var s := Survivors(g, taken, draws[..n - 1]);
      var d := draws[n - 1];
      if !InBounds(d.x, d.y) || g[d.x][d.y].blocked || (d.x, d.y) in taken + SpotsOf(s) then s else s + [d]
  }

  /**
   * The monsters of one room: no more than the draws, each one of them, each on a
   * tile that is not blocked and not taken, and no two on the same tile.
   */
  lemma {:induction false} SurvivorsSound(g: Grid, taken: set<(int, int)>, draws: seq<MonsterDraw>)
    requires WellFormed(g)
    ensures var s := Survivors(g, taken, draws);
      && |s| <= |draws|
      && (forall k :: 0 <= k < |s| ==> s[k] in draws && InBounds(s[k].x, s[k].y))
      && (forall k :: 0 <= k < |s| ==> !g[s[k].x][s[k].y].blocked && (s[k].x, s[k].y) !in taken)
      && (forall i, j :: 0 <= i < j < |s| ==> (s[i].x, s[i].y) != (s[j].x, s[j].y))
    decreases |draws|
  {
    if draws != [] {
      var n := |draws|;
      var pre := draws[..n - 1];
      SurvivorsSound(g, taken, pre);
      var s := Survivors(g, taken, pre);
      var d := draws[n - 1];
      assert forall k :: 0 <= k < |s| ==> (s[k].x, s[k].y) in SpotsOf(s);
      assert forall a :: a in pre ==> a in draws;
    }
  }

  /** The survivors of draws inside a room are inside that room. */
  lemma {:induction false} SurvivorsWithin(g: Grid, taken: set<(int, int)>, draws: seq<MonsterDraw>, room: Rect)
    requires WellFormed(g)
    requires forall k :: 0 <= k < |draws| ==> Contains(room, draws[k].x, draws[k].y)
    ensures forall k :: 0 <= k < |Survivors(g, taken, draws)| ==>
      Contains(room, Survivors(g, taken, draws)[k].x, Survivors(g, taken, draws)[k].y)
    decreases |draws|
  {
    if draws != [] {
      var n := |draws|;
      SurvivorsWithin(g, taken, draws[..n - 1], room);
      assert Contains(room, draws[n - 1].x, draws[n - 1].y);
    }
  }

  // ---------------------------------------------------------------------------
  // The monsters of the whole level

  /** Later rooms only open tiles: a tile open before a room is accepted stays open. */
  lemma LayoutKeepsOpen(acc: seq<Attempt>, x: int, y: int)
    requires acc != [] && InBounds(x, y) && !Layout(acc[..|acc| - 1])[x][y].blocked
    ensures !Layout(acc)[x][y].blocked
  {
    LayoutStep(acc, x, y);
  }

  lemma SpotsOfConcat(s: seq<MonsterDraw>, t: seq<MonsterDraw>)
    ensures SpotsOf(s + t) == SpotsOf(s) + SpotsOf(t)
  {
    var st := s + t;
    forall p | p in SpotsOf(st)
      ensures p in SpotsOf(s) + SpotsOf(t)
    {
      var k :| 0 <= k < |st| && p == (st[k].x, st[k].y);
      if k >= |s| {
        assert st[k] == t[k - |s|];
      }
    }
    forall p | p in SpotsOf(s) + SpotsOf(t)
      ensures p in SpotsOf(st)
    {
      if p in SpotsOf(s) {
        var k :| 0 <= k < |s| && p == (s[k].x, s[k].y);
        assert st[k] == s[k];
      } else {
        var k :| 0 <= k < |t| && p == (t[k].x, t[k].y);
        assert st[|s| + k] == t[k];
      }
    }
  }

  /** The spot the player starts on: the centre of the first accepted room. */
  function StartOf(acc: seq<Attempt>): (int, int)
    requires acc != []
  {
    Center(RoomOf(acc[0]))
  }

  /**
   * The monsters `make_map` places, in order: room after room, the survivors of that
   * room's draws on the map dug so far (that room and its corridor included), with
   * the player's tile and the tiles of the earlier rooms' monsters taken.
   */
  function Population(acc: seq<Attempt>): seq<MonsterDraw>
    decreases |acc|
  {
    if acc == [] then []
    else
      var pre := Population(acc[..|acc| - 1]);
      pre + Survivors(Layout(acc), {StartOf(acc)} + SpotsOf(pre), acc[|acc| - 1].monsters)
  }

  /** One more room adds the survivors of its draws after the earlier monsters. */
  lemma PopulationSnoc(acc: seq<Attempt>)
    requires acc != []
    ensures var pre := acc[..|acc| - 1];
      && (pre != [] ==> StartOf(pre) == StartOf(acc))
      && Population(acc) ==
           Population(pre) + Survivors(Layout(acc), {StartOf(acc)} + SpotsOf(Population(pre)), acc[|acc| - 1].monsters)
  {
    var pre := acc[..|acc| - 1];
    if pre != [] {
      assert pre[0] == acc[0];
    }
  }

  /** No more than `max_room_monsters` monsters per accepted room. */
  lemma {:induction false} PopulationBound(acc: seq<Attempt>)
    requires forall k :: 0 <= k < |acc| ==> WellDrawn(acc[k])
    ensures |Population(acc)| <= MaxRoomMonsters * |acc|
    decreases |acc|
  {
    if acc != [] {
      var n := |acc|;
      var pre := acc[..n - 1];
      PopulationBound(pre);
      var p := Population(pre);
      SurvivorsSound(Layout(acc), {StartOf(acc)} + SpotsOf(p), acc[n - 1].monsters);
    }
  }

  /** Every draw of `s` is on the map, on a tile of `g` that does not block. */
  predicate OnOpenTiles(g: Grid, s: seq<MonsterDraw>)
    requires WellFormed(g)
  {
    forall k :: 0 <= k < |s| ==> InBounds(s[k].x, s[k].y) && !g[s[k].x][s[k].y].blocked
  }

  lemma SurvivorsOnOpenTiles(g: Grid, taken: set<(int, int)>, draws: seq<MonsterDraw>)
    requires WellFormed(g)
    ensures OnOpenTiles(g, Survivors(g, taken, draws))
  {
    SurvivorsSound(g, taken, draws);
  }

  /** Every monster of the generated level stands on the map, on a tile of the final map that does not block. */
  lemma {:induction false} PopulationOnOpenTiles(acc: seq<Attempt>)
    ensures OnOpenTiles(Layout(acc), Population(acc))
    decreases |acc|
  {
    if acc != [] {
      var n := |acc|;
      var pre := acc[..n - 1];
      var p := Population(pre);
      var g := Layout(acc);
      PopulationSnoc(acc);
      SurvivorsOnOpenTiles(g, {StartOf(acc)} + SpotsOf(p), acc[n - 1].monsters);
      PopulationOnOpenTiles(pre);
      forall k | 0 <= k < |p|
        ensures !g[p[k].x][p[k].y].blocked
      {
        LayoutKeepsOpen(acc, p[k].x, p[k].y);
      }
    }
  }

  /** No monster of the generated level stands on the player's start, and no two share a tile. */
  lemma {:induction false} PopulationApart(acc: seq<Attempt>)
    requires acc != []
    ensures var p := Population(acc);
      && (forall k :: 0 <= k < |p| ==> (p[k].x, p[k].y) != StartOf(acc))
      && (forall i, j :: 0 <= i < j < |p| ==> (p[i].x, p[i].y) != (p[j].x, p[j].y))
    decreases |acc|
  {
    var n := |acc|;
    var pre := acc[..n - 1];
    var p := Population(pre);
    PopulationSnoc(acc);
    SurvivorsSound(Layout(acc), {StartOf(acc)} + SpotsOf(p), acc[n - 1].monsters);
    if pre != [] {
      PopulationApart(pre);
      assert forall k :: 0 <= k < |p| ==> (p[k].x, p[k].y) in SpotsOf(p);
    }
  }

  /** (x, y) lies inside, walls included, one of the rooms of `acc`. */
  ghost predicate InSomeRoom(acc: seq<Attempt>, x: int, y: int)
  {
    exists i :: 0 <= i < |acc| && Contains(RoomOf(acc[i]), x, y)
  }

  lemma InSomeRoomSnoc(acc: seq<Attempt>, p: seq<MonsterDraw>, s: seq<MonsterDraw>)
    requires acc != []
    requires forall k :: 0 <= k < |p| ==> InSomeRoom(acc[..|acc| - 1], p[k].x, p[k].y)
    requires forall k :: 0 <= k < |s| ==> Contains(RoomOf(acc[|acc| - 1]), s[k].x, s[k].y)
    ensures forall k :: 0 <= k < |p + s| ==> InSomeRoom(acc, (p + s)[k].x, (p + s)[k].y)
  {
    var n := |acc|;
    var pre := acc[..n - 1];
    forall k | 0 <= k < |p + s|
      ensures InSomeRoom(acc, (p + s)[k].x, (p + s)[k].y)
    {
      if k < |p| {
        var i :| 0 <= i < n - 1 && Contains(RoomOf(pre[i]), p[k].x, p[k].y);
        assert pre[i] == acc[i];
      } else {
        assert Contains(RoomOf(acc[n - 1]), s[k - |p|].x, s[k - |p|].y);
      }
    }
  }

  /** Every monster of the generated level was drawn inside one of the accepted rooms. */
  lemma {:induction false} PopulationInRooms(acc: seq<Attempt>)
    requires forall k :: 0 <= k < |acc| ==> WellDrawn(acc[k])
    ensures var p := Population(acc);
      forall k :: 0 <= k < |p| ==> InSomeRoom(acc, p[k].x, p[k].y)
    decreases |acc|
  {
    if acc != [] {
      var n := |acc|;
      var pre := acc[..n - 1];
      var p := Population(pre);
      var draws := acc[n - 1].monsters;
      var s := Survivors(Layout(acc), {StartOf(acc)} + SpotsOf(p), draws);
      PopulationSnoc(acc);
      PopulationInRooms(pre);
      SurvivorsWithin(Layout(acc), {StartOf(acc)} + SpotsOf(p), draws, RoomOf(acc[n - 1]));
      InSomeRoomSnoc(acc, p, s);
    }
  }
}
