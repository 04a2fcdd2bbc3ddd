/** Movement and reward in GridWorld.py: `move_player` picks one direction
    from a four-flag action, bounces off the edge of the grid and off walls,
    and scores the result with `get_reward`. */
module Moves {
  import opened Grid
  import opened Layout

  /** Index of the first flag equal to 1 in `[up, down, left, right]`, or 4
      when no flag is. */
  function FirstFlag(action: seq<int>): (k: nat)
    requires |action| == 4
    ensures k <= 4
    ensures k < 4 ==> action[k] == 1
    ensures forall j :: 0 <= j < k ==> action[j] != 1
  {
    if action[0] == 1 then 0
    else if action[1] == 1 then 1
    else if action[2] == 1 then 2
    else if action[3] == 1 then 3
    else 4
  }

  /** The neighbour of `c` in direction `k` (0 up, 1 down, 2 left, 3 right);
      `c` itself for any other `k`. */
  function Shift(c: Pos, k: nat): Pos {
    if k == 0 then (c.0 - 1, c.1)
    else if k == 1 then (c.0 + 1, c.1)
    else if k == 2 then (c.0, c.1 - 1)
    else if k == 3 then (c.0, c.1 + 1)
    else c
  }

  /** The action with only flag `k` set (all flags clear when `k` is 4). */
  function OneHot(k: nat): (a: seq<int>)
    ensures |a| == 4
  {
    seq(4, i => if i == k then 1 else 0)
  }

  /** The cell `move_player` tries: the player's cell moved one step in the
      direction of the first flag equal to 1, later flags being ignored. */
  function Candidate(c: Pos, action: seq<int>): (r: Pos)
    requires |action| == 4
    ensures r == Shift(c, FirstFlag(action))
  {
    var (y, x) := c;
    if action[0] == 1 then (y - 1, x)
    else if action[1] == 1 then (y + 1, x)
    else if action[2] == 1 then (y, x - 1)
    else if action[3] == 1 then (y, x + 1)
    else (y, x)
  }

  /** Only the first flag equal to 1 matters: every action moves like the
      one-hot action of its first set flag, so `[1, 0, 1, 0]` moves like
      `[1, 0, 0, 0]` and an action with no flag set tries the player's own
      cell. */
  lemma ActionPriority(c: Pos, action: seq<int>)
    requires |action| == 4
    ensures Candidate(c, action) == Candidate(c, OneHot(FirstFlag(action)))
    ensures FirstFlag(action) == 4 ==> Candidate(c, action) == c
  {
  }

  /** The player's cell after `move_player`: the candidate when it is in the
      grid and not a wall, otherwise the old cell (a bounce). */
  function NextPlayer(size: int, p: Pieces, action: seq<int>): Pos
    requires |action| == 4
  {
    var c := Candidate(p.player, action);
    if !(OutOfBounds(size, c) || c in p.walls) then c else p.player
  }

  /** The reward and end flag `get_reward` reports: +10 on the goal, -10 in
      a hole, -1 anywhere else; the goal is checked before the holes. */
  function Reward(p: Pieces): (r: (int, bool))
    ensures r.1 <==> p.player == p.goal || p.player in p.holes
    ensures r.0 == 10 <==> p.player == p.goal
    ensures r.0 == -10 <==> p.player != p.goal && p.player in p.holes
    ensures r.0 == 10 || r.0 == -10 || r.0 == -1
  {
    if p.player == p.goal then (10, true)
    else if p.player in p.holes then (-10, true)
    else (-1, false)
  }

  /** A step moves the player by at most one cell along one axis, and by
      exactly one cell unless it bounces or no flag is set. */
  lemma StepIsAdjacent(size: int, p: Pieces, action: seq<int>)
    requires |action| == 4
    ensures var r := NextPlayer(size, p, action);
      var dy := r.0 - p.player.0;
      var dx := r.1 - p.player.1;
      && (r == p.player || (dy == 0 && (dx == 1 || dx == -1)) || (dx == 0 && (dy == 1 || dy == -1)))
      && (r == p.player <==> FirstFlag(action) == 4 || !InBounds(size, Candidate(p.player, action))
                              || Candidate(p.player, action) in p.walls)
  {
  }

  /** A player in the grid and off the walls stays so after any move, and
      the rest of the layout is untouched; holes and the goal are legal
      destinations. */
  lemma MoveKeepsPlayable(size: int, p: Pieces, action: seq<int>)
    requires |action| == 4
    requires SoundLayout(p) && InGrid(size, p) && p.player !in p.walls
    ensures var q := p.(player := NextPlayer(size, p, action));
      SoundLayout(q) && InGrid(size, q) && q.player !in q.walls
  {
  }

  /** A move into the edge or a wall leaves the player where it was, so a
      player that was on neither the goal nor a hole scores -1 and the
      episode goes on. */
  lemma BounceScoresMinusOne(size: int, p: Pieces, action: seq<int>)
    requires |action| == 4
    requires var c := Candidate(p.player, action); !InBounds(size, c) || c in p.walls
    requires p.player != p.goal && p.player !in p.holes
    ensures NextPlayer(size, p, action) == p.player
    ensures Reward(p.(player := NextPlayer(size, p, action))) == (-1, false)
  {
  }

  /** A legal move onto the goal ends the episode with +10 and the player on
      the goal; a legal move onto a hole that is not the goal ends it with
      -10. */
  lemma MoveOntoGoalOrHole(size: int, p: Pieces, action: seq<int>)
    requires |action| == 4
    requires var c := Candidate(p.player, action); InBounds(size, c) && c !in p.walls
    ensures var c := Candidate(p.player, action);
      var q := p.(player := NextPlayer(size, p, action));
      && q.player == c
      && (c == p.goal ==> Reward(q) == (10, true))
      && (c != p.goal && c in p.holes ==> Reward(q) == (-10, true))
  {
  }

  /** Moving up from the top-left corner of a 6 by 6 grid bounces: the
      candidate (-1, 0) is outside the grid. */
  lemma UpFromCornerBounces(p: Pieces)
    requires p.player == (0, 0) && p.goal != (0, 0) && (0, 0) !in p.holes
    ensures NextPlayer(6, p, [1, 0, 0, 0]) == (0, 0)
    ensures Reward(p.(player := NextPlayer(6, p, [1, 0, 0, 0]))) == (-1, false)
  {
  }
}
