/** The `pieces` dictionary of GridWorld.py and the episode set-up that
    fills it: `clear_grid`, then `add_walls`, `add_holes`, `add_goal` and
    `set_player`, each drawing its cells from the allocator. The functions
    here are the specification that the methods of the `GridWorld` class are
    proved against. */
module Layout {
  import opened Grid
  import opened Allocator

  /** The four entries of `self.pieces`. */
  datatype Pieces = Pieces(player: Pos, goal: Pos, walls: seq<Pos>, holes: seq<Pos>)

  /** The position of a piece that has not been placed. */
  const Unplaced: Pos := (-1, -1)

  /** The dictionary as `clear_grid` leaves it. */
  const Cleared: Pieces := Pieces(Unplaced, Unplaced, [], [])

  datatype Kind = PlayerKind | GoalKind | WallKind | HoleKind

  /** Storing a cell: the player and the goal are overwritten, walls and
      holes are appended to their lists. */
  function Put(p: Pieces, kind: Kind, c: Pos): Pieces {
    match kind
    case PlayerKind => p.(player := c)
    case GoalKind => p.(goal := c)
    case WallKind => p.(walls := p.walls + [c])
    case HoleKind => p.(holes := p.holes + [c])
  }

  /** The cells `_filled_pos` collects, in the order it visits them: the
      player's cell when asked for (the player tuple is never falsy), then the
      walls, then the holes. The goal is never among them. */
  function Taken(p: Pieces, includePlayer: bool): seq<Pos> {
    (if includePlayer then [p.player] else []) + p.walls + p.holes
  }

  /** The set `_filled_pos` builds from those cells. */
  function Occupied(p: Pieces, includePlayer: bool): set<Pos> {
    (if includePlayer then {p.player} else {}) + Elems(p.walls) + Elems(p.holes)
  }

  /** The set of the cells of a list, built by adding them one at a time. */
  function Elems(s: seq<Pos>): set<Pos> {
    if s == [] then {} else Elems(s[..|s| - 1]) + {s[|s| - 1]}
  }

  /** A cell is in the set of a list exactly when it is in the list. */
  lemma {:induction false} ElemsAreMembers(s: seq<Pos>, c: Pos)
    ensures c in Elems(s) <==> c in s
  {
    if s != [] {
      var init := s[..|s| - 1];
      ElemsAreMembers(init, c);
      assert s == init + [s[|s| - 1]];
    }
  }

  /** A cell is occupied exactly when it is a wall, a hole, or (when asked
      for) the player's cell; the goal's cell is occupied only as one of
      those. */
  lemma OccupiedCells(p: Pieces, includePlayer: bool, c: Pos)
    ensures c in Occupied(p, includePlayer) <==> (includePlayer && c == p.player) || c in p.walls || c in p.holes
    ensures c in Occupied(p, includePlayer) <==> c in Taken(p, includePlayer)
  {
    ElemsAreMembers(p.walls, c);
    ElemsAreMembers(p.holes, c);
  }

  /** `_is_empty`: the cell is not in the set `_filled_pos(True)` builds. */
  function IsEmpty(p: Pieces, c: Pos): (r: bool)
    ensures r <==> c != p.player && c !in p.walls && c !in p.holes
  {
    OccupiedCells(p, true, c);
    c !in Occupied(p, true)
  }

  /** The pieces and the stream position after a placement step, and whether
      it completed (`false` once `_get_empty_pos` has raised). */
  datatype Placement = Placement(pieces: Pieces, cursor: nat, ok: bool)

  /** One `_get_empty_pos` against the current pieces, then storing the cell. */
  function PlaceOne(p: Pieces, kind: Kind, rng: Stream, cursor: nat): Placement {
    match FindEmpty(Taken(p, true), rng, cursor)
    case Exhausted => Placement(p, cursor + ExhaustedDraws, false)
    case Found(c, n) => Placement(Put(p, kind, c), cursor + n, true)
  }

  /** One round of the loop of `add_walls` / `add_holes`: a placement, unless
      an earlier round has raised. */
  function Step(s: Placement, kind: Kind, rng: Stream): Placement {
    if s.ok then PlaceOne(s.pieces, kind, rng, s.cursor) else s
  }

  /** `add_walls(count)` / `add_holes(count)` from the state `s`: `count`
      rounds, the rounds after the first that raises doing nothing. */
  function PlaceMany(s: Placement, kind: Kind, rng: Stream, count: int): Placement
    decreases count
  {
    if count <= 0 then s else PlaceMany(Step(s, kind, rng), kind, rng, count - 1)
  }

  /** Once a placement has raised, the remaining rounds change nothing. */
  lemma {:induction false} PlaceManyStops(s: Placement, kind: Kind, rng: Stream, count: int)
    requires !s.ok
    ensures PlaceMany(s, kind, rng, count) == s
    decreases count
  {
    if count > 0 {
      PlaceManyStops(s, kind, rng, count - 1);
    }
  }

  /** `reset` up to its call of `get_state`: clear, then walls, holes, the
      goal and the player, stopping at the first placement that raises. */
  function ResetSpec(wallCount: int, holeCount: int, rng: Stream, cursor: nat): Placement {
    var w := PlaceMany(Placement(Cleared, cursor, true), WallKind, rng, wallCount);
    if !w.ok then w
    else
      var h := PlaceMany(w, HoleKind, rng, holeCount);
      if !h.ok then h
      else
        var g := PlaceOne(h.pieces, GoalKind, rng, h.cursor);
        if !g.ok then g
        else PlaceOne(g.pieces, PlayerKind, rng, g.cursor)
  }

  /** Walls and holes are each free of repeats and share no cell, and the
      player is on none of them. */
  ghost predicate Apart(p: Pieces) {
    && NoDup(p.walls) && NoDup(p.holes)
    && (forall c :: c in p.walls ==> c !in p.holes)
    && p.player !in p.walls && p.player !in p.holes
  }

  /** Every wall and every hole is a grid cell. */
  ghost predicate ObstaclesInGrid(size: int, p: Pieces) {
    && (forall c :: c in p.walls ==> InBounds(size, c))
    && (forall c :: c in p.holes ==> InBounds(size, c))
  }

  /** Every piece is a grid cell. */
  ghost predicate InGrid(size: int, p: Pieces) {
    ObstaclesInGrid(size, p) && InBounds(size, p.player) && InBounds(size, p.goal)
  }

  /** The fixed part of an episode: walls and holes free of repeats and
      apart, and the goal on neither. */
  ghost predicate SoundLayout(p: Pieces) {
    && NoDup(p.walls) && NoDup(p.holes)
    && (forall c :: c in p.walls ==> c !in p.holes)
    && p.goal !in p.walls && p.goal !in p.holes
  }

  /** What a successful reset establishes. The player may stand on the goal. */
  ghost predicate WellPlaced(size: int, p: Pieces) {
    SoundLayout(p) && InGrid(size, p) && p.player !in p.walls && p.player !in p.holes
  }

  /** Storing a cell that `_is_empty` accepts keeps the pieces apart, and
      keeps them in the grid when the cell is a grid cell. */
  lemma PutKeepsApart(size: int, p: Pieces, kind: Kind, c: Pos)
    requires Apart(p) && IsEmpty(p, c)
    ensures Apart(Put(p, kind, c))
    ensures ObstaclesInGrid(size, p) && InBounds(size, c) ==> ObstaclesInGrid(size, Put(p, kind, c))
  {
  }

  /** One placement keeps the pieces apart and in the grid; on success it
      stores, under `kind`, the cell the allocator found, which was empty
      before and is a grid cell when the draws are. */
  lemma PlaceOneKeepsApart(size: int, p: Pieces, kind: Kind, rng: Stream, cursor: nat)
    requires Apart(p)
    ensures var r := PlaceOne(p, kind, rng, cursor);
      && Apart(r.pieces)
      && (StreamInGrid(size, rng) && ObstaclesInGrid(size, p) ==> ObstaclesInGrid(size, r.pieces))
    ensures var s := FindEmpty(Taken(p, true), rng, cursor);
      s.Found? ==> && PlaceOne(p, kind, rng, cursor).pieces == Put(p, kind, s.pos)
                   && IsEmpty(p, s.pos)
                   && (StreamInGrid(size, rng) ==> InBounds(size, s.pos))
  {
    var s := FindEmpty(Taken(p, true), rng, cursor);
    FindEmptyIsFirstFree(Taken(p, true), rng, cursor);
    if s.Found? {
      OccupiedCells(p, true, s.pos);
      PutKeepsApart(size, p, kind, s.pos);
      if StreamInGrid(size, rng) { FoundInGrid(size, Taken(p, true), rng, cursor); }
    }
  }

  /** A wall or hole placement succeeds exactly when the allocator finds a
      cell, appends that cell to its own list and changes nothing else; when
      it raises, the pieces are unchanged. */
  lemma PlaceOneAdds(p: Pieces, kind: Kind, rng: Stream, cursor: nat)
    requires kind == WallKind || kind == HoleKind
    ensures var r := PlaceOne(p, kind, rng, cursor);
      var s := FindEmpty(Taken(p, true), rng, cursor);
      && (r.ok <==> s.Found?)
      && (!r.ok ==> r.pieces == p)
      && (kind == WallKind ==> && r.pieces.(walls := p.walls) == p
                               && (s.Found? ==> r.pieces.walls == p.walls + [s.pos]))
      && (kind == HoleKind ==> && r.pieces.(holes := p.holes) == p
                               && (s.Found? ==> r.pieces.holes == p.holes + [s.pos]))
  {
  }

  /** `add_walls` / `add_holes` keep the pieces apart and in the grid. */
  lemma {:induction false} PlaceManyKeepsApart(size: int, s: Placement, kind: Kind, rng: Stream, count: int)
    requires Apart(s.pieces)
    ensures var r := PlaceMany(s, kind, rng, count);
      && Apart(r.pieces)
      && (StreamInGrid(size, rng) && ObstaclesInGrid(size, s.pieces) ==> ObstaclesInGrid(size, r.pieces))
    decreases count
  {
    if count > 0 {
      var one := Step(s, kind, rng);
      if s.ok {
        PlaceOneKeepsApart(size, s.pieces, kind, rng, s.cursor);
      }
      PlaceManyKeepsApart(size, one, kind, rng, count - 1);
    }
  }

  /** `add_walls` / `add_holes` leave the player, the goal and the other
      list alone, only ever append to their own list, and on success append
      exactly `count` cells. */
  lemma {:induction false} PlaceManyAdds(s: Placement, kind: Kind, rng: Stream, count: int)
    requires kind == WallKind || kind == HoleKind
    ensures var p := s.pieces;
      var r := PlaceMany(s, kind, rng, count);
      && r.pieces.player == p.player && r.pieces.goal == p.goal
      && (kind == WallKind ==> && r.pieces.holes == p.holes && p.walls <= r.pieces.walls
                               && (r.ok ==> |r.pieces.walls| == |p.walls| + Max0(count)))
      && (kind == HoleKind ==> && r.pieces.walls == p.walls && p.holes <= r.pieces.holes
                               && (r.ok ==> |r.pieces.holes| == |p.holes| + Max0(count)))
    decreases count
  {
    if count > 0 {
      var one := Step(s, kind, rng);
      if s.ok {
        PlaceOneAdds(s.pieces, kind, rng, s.cursor);
      }
      assert s.pieces.walls <= one.pieces.walls && s.pieces.holes <= one.pieces.holes;
      if one.ok {
        PlaceManyAdds(one, kind, rng, count - 1);
      } else {
        PlaceManyStops(one, kind, rng, count - 1);
      }
    }
  }

  /** After a successful reset there are exactly `walls` walls and `holes`
      holes (none for a negative count), no two pieces other than the player
      and the goal share a cell, and every piece is a grid cell. */
  lemma ResetIsWellPlaced(size: int, wallCount: int, holeCount: int, rng: Stream, cursor: nat)
    requires StreamInGrid(size, rng)
    ensures var r := ResetSpec(wallCount, holeCount, rng, cursor);
      r.ok ==> && WellPlaced(size, r.pieces)
               && |r.pieces.walls| == Max0(wallCount)
               && |r.pieces.holes| == Max0(holeCount)
  {
    var r := ResetSpec(wallCount, holeCount, rng, cursor);
    var s := Placement(Cleared, cursor, true);
    var w := PlaceMany(s, WallKind, rng, wallCount);
    PlaceManyKeepsApart(size, s, WallKind, rng, wallCount);
    PlaceManyAdds(s, WallKind, rng, wallCount);
    if w.ok {
      var h := PlaceMany(w, HoleKind, rng, holeCount);
      PlaceManyKeepsApart(size, w, HoleKind, rng, holeCount);
      PlaceManyAdds(w, HoleKind, rng, holeCount);
      if h.ok {
        var g := PlaceOne(h.pieces, GoalKind, rng, h.cursor);
        FoundInGrid(size, Taken(h.pieces, true), rng, h.cursor);
        FindEmptyIsFirstFree(Taken(h.pieces, true), rng, h.cursor);
        if g.ok {
          FoundInGrid(size, Taken(g.pieces, true), rng, g.cursor);
          PlaceOneKeepsApart(size, g.pieces, PlayerKind, rng, g.cursor);
        }
      }
    }
  }

  /** `_filled_pos` leaves the goal out, so the player can be placed on the
      goal: with no walls or holes and a stream that always draws (0, 0),
      both land on (0, 0) after two draws. */
  lemma ResetCanPutPlayerOnGoal(rng: Stream)
    requires forall d :: rng(d) == (0, 0)
    ensures StreamInGrid(4, rng)
    ensures var r := ResetSpec(0, 0, rng, 0);
      r.ok && r.pieces.player == r.pieces.goal == (0, 0) && r.cursor == 2
  {
  }
}
