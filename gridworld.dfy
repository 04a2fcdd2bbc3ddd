/** The `GridWorld` class of GridWorld.py: the state of one world (its
    pieces and its position in the random stream) and the methods that set
    up an episode, move the player and project the state. Each method is
    proved against the specification functions of the Allocator, Layout,
    Moves and Encoding modules. */
module GridWorld {
  import opened Grid
  import opened Allocator
  import opened Layout
  import opened Moves
  import opened Encoding

  /** What `render` returns: the code grid itself, or its text. */
  datatype Rendering = Raw(grid: array2<int>) | Text(text: string)

  class GridWorld {
    const size: nat
    /** The number of walls and of holes `reset` places (`self.walls`,
        `self.holes`); a negative count places none. */
    const wallCount: int
    const holeCount: int
    /** The random stream that stands for Python's `random` module. */
    const rng: Stream
    /** How many cells have been drawn from `rng` so far. */
    var cursor: nat
    /** `self.pieces`. */
    var pieces: Pieces

    ghost predicate Valid() {
      size >= 4 && StreamInGrid(size, rng)
    }

    /** `__init__`: the size must be at least 4. The seeding of the global
        generator is replaced by the stream `rng`, whose draws are grid
        cells as `randint(0, size - 1)` makes them. */
    constructor (size: nat, holes: int, walls: int, rng: Stream)
      requires size >= 4
      requires StreamInGrid(size, rng)
      ensures Valid()
      ensures this.size == size && holeCount == holes && wallCount == walls && this.rng == rng
      ensures cursor == 0 && pieces == Cleared
    {
      this.size := size;
      holeCount := holes;
      wallCount := walls;
      this.rng := rng;
      cursor := 0;
      pieces := Cleared;
    }

    /** `clear_grid`: player and goal unplaced, no walls and no holes. */
    method ClearGrid()
      modifies this`pieces
      ensures pieces == Cleared
    {
      pieces := Pieces(Unplaced, Unplaced, [], []);
    }

    /** `_filled_pos`: the set of wall and hole cells, with the player's cell
        when `includePlayer` holds, built one element at a time. */
    method FilledPos(includePlayer: bool) returns (filled: set<Pos>)
      ensures filled == Occupied(pieces, includePlayer)
      ensures forall c :: c in filled <==> (includePlayer && c == pieces.player) || c in pieces.walls || c in pieces.holes
    {
      filled := {};
      if includePlayer {
        filled := filled + {pieces.player};
      }
      var start := filled;
      for i := 0 to |pieces.walls|
        invariant filled == start + Elems(pieces.walls[..i])
      {
        assert pieces.walls[..i + 1][..i] == pieces.walls[..i];
        filled := filled + {pieces.walls[i]};
      }
      assert pieces.walls[..|pieces.walls|] == pieces.walls;
      var mid := filled;
      for i := 0 to |pieces.holes|
        invariant filled == mid + Elems(pieces.holes[..i])
      {
        assert pieces.holes[..i + 1][..i] == pieces.holes[..i];
        filled := filled + {pieces.holes[i]};
      }
      assert pieces.holes[..|pieces.holes|] == pieces.holes;
      forall c ensures c in filled <==> (includePlayer && c == pieces.player) || c in pieces.walls || c in pieces.holes {
        OccupiedCells(pieces, includePlayer, c);
      }
    }

    /** `_is_empty`: build `_filled_pos(True)` and test the cell against it. */
    method PosIsEmpty(pos: Pos) returns (empty: bool)
      ensures empty <==> pos != pieces.player && pos !in pieces.walls && pos !in pieces.holes
    {
      var filled := FilledPos(true);
      return pos !in filled;
    }

    /** `_get_pos`: the next cell of the random stream. */
    method GetPos() returns (pos: Pos)
      modifies this`cursor
      ensures pos == rng(old(cursor)) && cursor == old(cursor) + 1
    {
      pos := rng(cursor);
      cursor := cursor + 1;
    }

    /** `_get_empty_pos`: draw, and draw again while the attempt counter is at
        most 100 and the cell is taken; raise once the counter passes 100.
        The result is what `FindEmpty` says: the first free cell among the
        next 101 draws, or an error exactly when all 101 are taken (the 102nd
        draw is then consumed and discarded). */
    method GetEmptyPos() returns (r: Result<Pos>)
      modifies this`cursor
      ensures match FindEmpty(Taken(pieces, true), rng, old(cursor))
        case Found(c, n) => r == Ok(c) && cursor == old(cursor) + n
        case Exhausted => r == TooManyAttempts && cursor == old(cursor) + ExhaustedDraws
    {
      ghost var base := cursor;
      ghost var filled := Taken(pieces, true);
      var attempts := 0;
      var pos := GetPos();
      var empty := PosIsEmpty(pos);
      while attempts <= 100 && !empty
        invariant 0 <= attempts <= MaxAttempts + 1
        invariant cursor == base + attempts + 1 && pos == rng(base + attempts)
        invariant empty == IsEmpty(pieces, pos)
        invariant forall d :: base <= d < base + attempts ==> rng(d) in filled
        decreases MaxAttempts + 1 - attempts
      {
        attempts := attempts + 1;
        pos := GetPos();
        empty := PosIsEmpty(pos);
      }
      if attempts > 100 {
        FindEmptyExhausted(filled, rng, base);
        return TooManyAttempts;
      }
      FindEmptyFirstFree(filled, rng, base, attempts);
      return Ok(pos);
    }

    /** `set_player`: a given cell is stored as it is; without one, a cell is
        drawn with `_get_empty_pos`, which may raise. */
    method SetPlayer(pos: Option<Pos>) returns (r: Result<()>)
      modifies this
      ensures pos.Some? ==> r == Ok(()) && pieces == old(pieces).(player := pos.value) && cursor == old(cursor)
      ensures pos.None? ==>
        var s := PlaceOne(old(pieces), PlayerKind, rng, old(cursor));
        pieces == s.pieces && cursor == s.cursor && (r.Ok? <==> s.ok)
    {
      var c: Pos;
      if pos.None? {
        var e := GetEmptyPos();
        if e.TooManyAttempts? {
          return TooManyAttempts;
        }
        c := e.value;
      } else {
        c := pos.value;
      }
      pieces := pieces.(player := c);
      return Ok(());
    }

    /** `add_goal`: the goal goes on a cell drawn with `_get_empty_pos`. */
    method AddGoal() returns (r: Result<()>)
      modifies this
      ensures var s := PlaceOne(old(pieces), GoalKind, rng, old(cursor));
        pieces == s.pieces && cursor == s.cursor && (r.Ok? <==> s.ok)
    {
      var e := GetEmptyPos();
      if e.TooManyAttempts? {
        return TooManyAttempts;
      }
      pieces := pieces.(goal := e.value);
      return Ok(());
    }

    /** `add_walls`: `count` times, append to the walls a cell drawn with
        `_get_empty_pos`; the first exception ends the loop. */
    method AddWalls(count: int) returns (r: Result<()>)
      modifies this
      ensures var s := PlaceMany(Placement(old(pieces), old(cursor), true), WallKind, rng, count);
        pieces == s.pieces && cursor == s.cursor && (r.Ok? <==> s.ok)
    {
      ghost var goal := PlaceMany(Placement(pieces, cursor, true), WallKind, rng, count);
      var i := 0;
      while i < count
        invariant 0 <= i <= Max0(count)
        invariant PlaceMany(Placement(pieces, cursor, true), WallKind, rng, count - i) == goal
      {
        var e := GetEmptyPos();
        if e.TooManyAttempts? {
          PlaceManyStops(Placement(pieces, cursor, false), WallKind, rng, count - i - 1);
          return TooManyAttempts;
        }
        pieces := pieces.(walls := pieces.walls + [e.value]);
        i := i + 1;
      }
      return Ok(());
    }

    /** `add_holes`: `count` times, append to the holes a cell drawn with
        `_get_empty_pos`; the first exception ends the loop. */
    method AddHoles(count: int) returns (r: Result<()>)
      modifies this
      ensures var s := PlaceMany(Placement(old(pieces), old(cursor), true), HoleKind, rng, count);
        pieces == s.pieces && cursor == s.cursor && (r.Ok? <==> s.ok)
    {
      ghost var goal := PlaceMany(Placement(pieces, cursor, true), HoleKind, rng, count);
      var i := 0;
      while i < count
        invariant 0 <= i <= Max0(count)
        invariant PlaceMany(Placement(pieces, cursor, true), HoleKind, rng, count - i) == goal
      {
        var e := GetEmptyPos();
        if e.TooManyAttempts? {
          PlaceManyStops(Placement(pieces, cursor, false), HoleKind, rng, count - i - 1);
          return TooManyAttempts;
        }
        pieces := pieces.(holes := pieces.holes + [e.value]);
        i := i + 1;
      }
      return Ok(());
    }

    /** `reset`: clear the pieces, place the walls, the holes, the goal and
        the player, and return the layered state. After a reset that does
        not raise, the counts are exact, walls and holes are distinct and
        apart, neither the goal nor the player is on a wall or a hole, and
        every piece is a grid cell; the player may be on the goal. */
    method Reset() returns (r: Result<array3<real>>)
      requires Valid()
      modifies this
      ensures var s := ResetSpec(wallCount, holeCount, rng, old(cursor));
        pieces == s.pieces && cursor == s.cursor && (r.Ok? <==> s.ok)
      ensures r.Ok? ==> && WellPlaced(size, pieces)
                        && |pieces.walls| == Max0(wallCount) && |pieces.holes| == Max0(holeCount)
      ensures r.Ok? ==> fresh(r.value) && Encodes(r.value)
    {
      ResetIsWellPlaced(size, wallCount, holeCount, rng, cursor);
      ClearGrid();
      var w := AddWalls(wallCount);
      if w.TooManyAttempts? {
        return TooManyAttempts;
      }
      var h := AddHoles(holeCount);
      if h.TooManyAttempts? {
        return TooManyAttempts;
      }
      var g := AddGoal();
      if g.TooManyAttempts? {
        return TooManyAttempts;
      }
      var p := SetPlayer(None);
      if p.TooManyAttempts? {
        return TooManyAttempts;
      }
      var state := GetState();
      return Ok(state);
    }

    /** `move_player`: the candidate cell is the player's cell moved by the
        first flag equal to 1; the player moves there unless it is outside
        the grid or a wall, and the result is `get_reward` of the new state.
        Nothing but the player changes. */
    method MovePlayer(action: seq<int>) returns (reward: int, done: bool)
      requires |action| == 4
      modifies this
      ensures pieces == old(pieces).(player := NextPlayer(size, old(pieces), action))
      ensures cursor == old(cursor)
      ensures (reward, done) == Reward(pieces)
    {
      var y, x := pieces.player.0, pieces.player.1;
      if action[0] == 1 {
        y := y - 1;
      } else if action[1] == 1 {
        y := y + 1;
      } else if action[2] == 1 {
        x := x - 1;
      } else if action[3] == 1 {
        x := x + 1;
      }
      var newPos := (y, x);
      var blocked := OutOfBounds(size, newPos);
      if !blocked {
        blocked := PosOnWall(newPos);
      }
      if !blocked {
        var _ := SetPlayer(Some(newPos));
      }
      reward, done := GetReward();
    }

    /** `pos_on_wall`: scan the walls and answer `true` at the first one equal
        to `pos`, `false` after the last. */
    method PosOnWall(pos: Pos) returns (r: bool)
      ensures r <==> pos in pieces.walls
    {
      for i := 0 to |pieces.walls|
        invariant pos !in pieces.walls[..i]
      {
        if pos == pieces.walls[i] {
          return true;
        }
      }
      assert pieces.walls[..|pieces.walls|] == pieces.walls;
      return false;
    }

    /** `get_reward`: +10 and the end of the episode when the player is on
        the goal; otherwise scan the holes, -10 and the end at the first one
        under the player; otherwise -1 and the episode goes on. */
    method GetReward() returns (reward: int, done: bool)
      ensures (reward, done) == Reward(pieces)
    {
      var pPos := pieces.player;
      if pPos == pieces.goal {
        return 10, true;
      }
      for i := 0 to |pieces.holes|
        invariant pPos !in pieces.holes[..i]
      {
        if pPos == pieces.holes[i] {
          return -10, true;
        }
      }
      assert pieces.holes[..|pieces.holes|] == pieces.holes;
      return -1, false;
    }

    /** The array holds the layered state of the current pieces. */
    ghost predicate Encodes(state: array3<real>)
      reads this, state
    {
      && state.Length0 == 4 && state.Length1 == size && state.Length2 == size
      && forall l, y, x :: 0 <= l < 4 && 0 <= y < size && 0 <= x < size ==>
           state[l, y, x] == Bit(pieces, l, (y, x))
    }

    /** `get_state`: a fresh 4 by size by size array of zeros, with 1.0 set at
        the player (layer 0), the goal (layer 1), each wall (layer 2) and each
        hole (layer 3). Every piece must be a grid cell. */
    method GetState() returns (state: array3<real>)
      requires InGrid(size, pieces)
      ensures fresh(state) && Encodes(state)
    {
      state := new real[4, size, size]((l, y, x) => 0.0);
      var p := pieces;
      assert forall l, y, x :: 0 <= l < 4 && 0 <= y < size && 0 <= x < size ==>
        state[l, y, x] == Bit(Cleared, l, (y, x));
      state[0, p.player.0, p.player.1] := 1.0;
      state[1, p.goal.0, p.goal.1] := 1.0;
      for i := 0 to |p.walls|
        invariant forall l, y, x :: 0 <= l < 4 && 0 <= y < size && 0 <= x < size ==>
          state[l, y, x] == Bit(p.(walls := p.walls[..i], holes := []), l, (y, x))
      {
        assert p.walls[..i + 1] == p.walls[..i] + [p.walls[i]];
        assert p.walls[i] in p.walls;
        state[2, p.walls[i].0, p.walls[i].1] := 1.0;
      }
      assert p.walls[..|p.walls|] == p.walls;
      for i := 0 to |p.holes|
        invariant forall l, y, x :: 0 <= l < 4 && 0 <= y < size && 0 <= x < size ==>
          state[l, y, x] == Bit(p.(holes := p.holes[..i]), l, (y, x))
      {
        assert p.holes[..i + 1] == p.holes[..i] + [p.holes[i]];
        assert p.holes[i] in p.holes;
        state[3, p.holes[i].0, p.holes[i].1] := 1.0;
      }
      assert p.holes[..|p.holes|] == p.holes;
    }

    /** The array holds the code grid of the current pieces. */
    ghost predicate Shows(a: array2<int>)
      reads this, a
    {
      && a.Length0 == size && a.Length1 == size
      && forall y, x :: 0 <= y < size && 0 <= x < size ==> a[y, x] == Code(pieces, (y, x))
    }

    /** `to_array`: a fresh size by size array of zeros; the player's cell is
        set to 1, then the goal's to 4, then each wall's to 2, then each
        hole's to 3. Every piece must be a grid cell. */
    method ToArray() returns (a: array2<int>)
      requires InGrid(size, pieces)
      ensures fresh(a) && Shows(a)
    {
      a := new int[size, size]((y, x) => 0);
      var p := pieces;
      a[p.player.0, p.player.1] := 1;
      assert forall y, x :: 0 <= y < size && 0 <= x < size ==>
        a[y, x] == Code(Cleared.(player := p.player), (y, x));
      a[p.goal.0, p.goal.1] := 4;
      for i := 0 to |p.walls|
        invariant forall y, x :: 0 <= y < size && 0 <= x < size ==>
          a[y, x] == Code(p.(walls := p.walls[..i], holes := []), (y, x))
      {
        assert p.walls[..i + 1] == p.walls[..i] + [p.walls[i]];
        assert p.walls[i] in p.walls;
        a[p.walls[i].0, p.walls[i].1] := 2;
      }
      assert p.walls[..|p.walls|] == p.walls;
      for i := 0 to |p.holes|
        invariant forall y, x :: 0 <= y < size && 0 <= x < size ==>
          a[y, x] == Code(p.(holes := p.holes[..i]), (y, x))
      {
        assert p.holes[..i + 1] == p.holes[..i] + [p.holes[i]];
        assert p.holes[i] in p.holes;
        a[p.holes[i].0, p.holes[i].1] := 3;
      }
      assert p.holes[..|p.holes|] == p.holes;
    }

    /** `render`: the code grid itself when `raw` holds; otherwise, for each
        row, the `render_map` symbol of each cell followed by a line break.
        Every piece must be a grid cell. */
    method Render(raw: bool) returns (r: Rendering)
      requires InGrid(size, pieces)
      ensures raw ==> r.Raw? && fresh(r.grid) && Shows(r.grid)
      ensures !raw ==> r == Text(RenderText(pieces, size, size))
    {
      var a := ToArray();
      if raw {
        return Raw(a);
      }
      var output := "";
      for y := 0 to size
        invariant output == RenderText(pieces, size, y)
      {
        var rowStr := "";
        for x := 0 to size
          invariant rowStr == RowCells(pieces, y, x)
        {
          rowStr := rowStr + [RenderMap[a[y, x]]];
        }
        rowStr := rowStr + "\n";
        output := output + rowStr;
      }
      return Text(output);
    }
  }
}
