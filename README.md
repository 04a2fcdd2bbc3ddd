# GridWorld in Dafny

A model of the `GridWorld` class of the gridworld repository (GridWorld.py).
This is the engine behind a small reinforcement-learning environment. A
square grid of side `size` (at least 4) holds one player, one goal, and
a number of walls and holes.

- `reset` clears the grid, then places the walls, the holes, the goal and
  the player, in that order. Each cell is drawn at random and redrawn while
  it is taken. After 101 taken samples the draw raises.
- `move_player` takes a four-flag action `[up, down, left, right]`. It tries
  the direction of the first flag equal to 1. It bounces off the edge and off
  walls, and it scores the new position with `get_reward`.
- `get_state`, `to_array` and `render` project the pieces into:
  - a 4 × size × size one-hot array;
  - a size × size code grid;
  - the text of that grid.

The model has five modules:

| module (file) | contents |
|---|---|
| `Grid` (grid.dfy) | cells, bounds, and the `Result` type that stands for the "Too many attempts" exception |
| `Allocator` (allocator.dfy) | the random stream and `FindEmpty`, the specification of `_get_empty_pos` |
| `Layout` (layout.dfy) | the `pieces` dictionary as a datatype, and `PlaceOne`, `PlaceMany` and `ResetSpec`, the specifications of `add_goal`, `set_player`, `add_walls`, `add_holes` and `reset` |
| `Moves` (moves.dfy) | direction choice, movement and reward as functions, with their lemmas |
| `Encoding` (encoding.dfy) | the layered state, the code grid and the rendered text as functions, with their lemmas |

The class itself is `GridWorld.GridWorld` (gridworld.dfy). Its fields are:

- `size`, `wallCount` and `holeCount`;
- `rng`, the random stream;
- `cursor`, the number of draws consumed;
- `pieces`.

Every method of the class is written the way the source writes it, with the
source's loops. Each one is proved equal to the specification function of its
module, and the properties are proved as lemmas about those functions.

Randomness is an explicit stream `rng: nat -> Pos`: the `d`-th call of
`_get_pos` returns `rng(d)`. The constructor requires every draw to be a grid
cell, because that is what `randint(0, size - 1)` on both axes guarantees.
An exception is the `TooManyAttempts` result. The state left by a raising
call is modelled exactly:
- walls or holes already appended stay;
- every draw taken is consumed, including the 102nd draw, which is never
  checked.

### Behaviour worth knowing

- **The player can start on the goal.** `_filled_pos` leaves the goal out
  (GridWorld.py:59-72), so the cell `set_player` draws at GridWorld.py:113-114
  may be the goal's. `ResetCanPutPlayerOnGoal` exhibits such a reset, and
  `WellPlaced` keeps the player off walls and holes only.
- **Retry budget.** The docstring of `_get_empty_pos` says an exception comes
  after 10 failed attempts (GridWorld.py:94). The loop runs while
  `attempts <= 100` (GridWorld.py:100), so it checks 101 samples.
- **Seeding happens once.** `__init__` seeds the global generator, and only
  when `use_random` is false (GridWorld.py:32-33). `reset` never reseeds, so
  successive resets continue the same sequence of draws. The model fixes the
  stream at construction, and `reset` continues from `cursor`.
- **Later writes win in `to_array`.** The player is written first and the
  goal, walls and holes after it (GridWorld.py:156-161). A player on the goal
  or on a hole shows as the goal or the hole (`Encoding.Code`,
  `Encoding.CodeShowsLayout`).
- **Negative counts place nothing.** `add_walls` and `add_holes` loop over
  `range(count)` (GridWorld.py:130, 140), which is empty for a negative
  count. The model uses `Max0(count)`.

## Model

| member | source | states |
|---|---|---|
| Grid.OutOfBounds | GridWorld.py:185-192 | a position is out of bounds exactly when it is not one of the `size × size` grid cells |
| Allocator.ScanIsFirstFree | GridWorld.py:98-105 | from any point in the loop, the result is the first free sample up to sample 101, after at most 101 draws; the search raises exactly when all remaining samples are taken |
| Allocator.FindEmptyIsFirstFree | GridWorld.py:92-105 | `_get_empty_pos` returns the first free sample among the next 101 draws, having consumed that sample's draw and the ones before it, so between 1 and 101 draws; it raises exactly when all 101 samples are occupied |
| Allocator.FindEmptyFirstFree | GridWorld.py:98-105 | if the first `k` samples are taken and sample `k` is free (for `k` at most 100), the result is that cell after `k + 1` draws |
| Allocator.FindEmptyExhausted | GridWorld.py:100-104 | when all 101 samples are taken, the search raises |
| Allocator.FoundInGrid | GridWorld.py:82-90 | with in-grid draws, the returned cell is a grid cell |
| Layout.ElemsAreMembers | GridWorld.py:65-72 | the set built by adding a list's cells one at a time holds exactly the list's cells |
| Layout.OccupiedCells | GridWorld.py:59-72 | a cell is in `_filled_pos` exactly when it is a wall, a hole, or (when asked) the player; the goal's cell is never counted as the goal |
| Layout.IsEmpty | GridWorld.py:74-80 | a cell is empty exactly when it is not the player, a wall or a hole |
| Layout.PutKeepsApart | GridWorld.py:117-142 | storing a cell that `_is_empty` accepts keeps walls and holes free of repeats, apart from each other and from the player, and keeps them in the grid |
| Layout.PlaceOneKeepsApart | GridWorld.py:117-122 | one placement through `_get_empty_pos` keeps the pieces apart and the obstacles in the grid, whether it succeeds or raises; on success it stores the found cell under its kind, and that cell was empty before and is a grid cell |
| Layout.PlaceOneAdds | GridWorld.py:130-132 | a wall or hole placement succeeds exactly when the allocator finds a cell; it then appends that cell to its own list and changes nothing else; when it raises, the pieces are unchanged |
| Layout.PlaceManyStops | GridWorld.py:130-132 | once a placement has raised, the remaining loop rounds change nothing (the exception leaves the loop) |
| Layout.PlaceManyKeepsApart | GridWorld.py:124-142 | `add_walls` and `add_holes` keep walls and holes free of repeats, apart from each other and from the player, and in the grid |
| Layout.PlaceManyAdds | GridWorld.py:124-142 | `add_walls` and `add_holes` leave the player, the goal and the other list alone; the old list stays a prefix of the new one, even when they raise; on success they append exactly `count` cells (none for a negative count) |
| Layout.ResetIsWellPlaced | GridWorld.py:47-57 | after a reset that does not raise, there are exactly `walls` walls and `holes` holes, all distinct and pairwise apart; the goal and the player are on neither; every piece is a grid cell |
| Layout.ResetCanPutPlayerOnGoal | GridWorld.py:59-72 | the goal is not in `_filled_pos`: with a stream that always draws (0, 0), reset puts the player on the goal |
| Moves.FirstFlag | GridWorld.py:224-231 | the chosen flag is the first one equal to 1; every flag before it is not 1; 4 means no flag is set |
| Moves.Candidate | GridWorld.py:222-232 | the candidate cell is the player's cell shifted in the direction of the first flag set |
| Moves.ActionPriority | GridWorld.py:224-231 | an action moves like the one-hot action of its first set flag, and an action with no flag set targets the player's own cell |
| Moves.Reward | GridWorld.py:194-211 | the episode ends exactly when the player is on the goal or a hole; the reward is +10 exactly on the goal, -10 exactly in a hole off the goal, and otherwise -1 |
| Moves.StepIsAdjacent | GridWorld.py:222-235 | a move changes one coordinate by exactly one, or the player stays; it stays exactly when no flag is set, or the candidate is off the grid or on a wall |
| Moves.MoveKeepsPlayable | GridWorld.py:213-237 | a player in the grid and off the walls stays so after any move, and the rest of the layout stays sound |
| Moves.BounceScoresMinusOne | GridWorld.py:233-237 | a move into the edge or a wall leaves the player in place; a player not on the goal or a hole then scores -1 and the episode goes on |
| Moves.MoveOntoGoalOrHole | GridWorld.py:233-237 | a legal move onto the goal ends the episode with +10; a legal move onto a hole that is not the goal ends it with -10 |
| Moves.UpFromCornerBounces | GridWorld.py:222-235 | moving up from (0, 0) of a 6 × 6 grid bounces and scores -1 |
| Encoding.RenderMapIsInjective | GridWorld.py:10-16 | `render_map` covers the codes 0-4 with distinct symbols, none of them a line break |
| Encoding.Code | GridWorld.py:154-161 | every cell code is a key of `render_map` |
| Encoding.CodeShowsLayout | GridWorld.py:154-161 | for a sound layout, the code grid shows walls (2), holes (3) and the goal (4) exactly where they are; it shows the player (1) only off the goal and the holes, and 0 exactly on free cells |
| Encoding.CodeFromLayers | GridWorld.py:263-279 | each layer of the state is 0/1, and the code grid is read off the four layers, holes over walls over the goal over the player |
| Encoding.RowCellsAt | GridWorld.py:177-181 | symbol `x` of row `y` is the `render_map` symbol of cell `(y, x)` |
| Encoding.RenderTextLength | GridWorld.py:176-183 | the text has `size` lines of `size + 1` characters |
| Encoding.RenderTextPrefix | GridWorld.py:176-183 | rendering further rows only appends to the text |
| Encoding.RenderTextAt | GridWorld.py:176-183 | character `y·(size+1) + x` is the symbol of cell `(y, x)`, and every line ends with a line break |
| GridWorld.GridWorld.constructor | GridWorld.py:28-36 | requires size ≥ 4 and stores the size, the counts and the stream; the cursor starts at 0 and the pieces start cleared |
| GridWorld.GridWorld.ClearGrid | GridWorld.py:38-45 | the player and the goal are unplaced (-1, -1), and there are no walls and no holes |
| GridWorld.GridWorld.FilledPos | GridWorld.py:59-72 | the set built by the two loops is exactly the walls, the holes and (when asked) the player |
| GridWorld.GridWorld.PosIsEmpty | GridWorld.py:74-80 | testing the cell against the set `FilledPos(true)` builds answers true exactly when the cell is not the player, a wall or a hole |
| GridWorld.GridWorld.GetPos | GridWorld.py:82-90 | returns the next draw of the stream and consumes it |
| GridWorld.GridWorld.GetEmptyPos | GridWorld.py:92-105 | the loop, testing each sample with `PosIsEmpty`, returns what `FindEmpty` says (the first free of the next 101 samples) and consumes exactly those draws; otherwise it raises, having consumed 102 draws |
| GridWorld.GridWorld.SetPlayer | GridWorld.py:107-115 | a given cell is stored without a draw; otherwise the player goes on a drawn empty cell, or the call raises, leaving the pieces unchanged |
| GridWorld.GridWorld.AddGoal | GridWorld.py:117-122 | the goal goes on a drawn empty cell, or the call raises, leaving the pieces unchanged |
| GridWorld.GridWorld.AddWalls | GridWorld.py:124-132 | the loop equals `PlaceMany` on walls: `count` appended cells, or raising after the cells appended so far |
| GridWorld.GridWorld.AddHoles | GridWorld.py:134-142 | the loop equals `PlaceMany` on holes: `count` appended cells, or raising after the cells appended so far |
| GridWorld.GridWorld.Reset | GridWorld.py:47-57 | the new pieces and cursor are `ResetSpec`'s; on success the layout is well placed with exact counts, and the returned array is the layered state |
| GridWorld.GridWorld.MovePlayer | GridWorld.py:213-237 | only the player changes, to `NextPlayer` (a unit step or a stay, the stay exactly on a bounce or an empty action: `StepIsAdjacent`, `BounceScoresMinusOne`, `MoveOntoGoalOrHole`); no draw is consumed; the result, computed by `GetReward`, is the reward of the new state |
| GridWorld.GridWorld.PosOnWall | GridWorld.py:239-248 | the scan answers true exactly when the cell is a wall |
| GridWorld.GridWorld.GetReward | GridWorld.py:194-211 | the goal check and the hole scan return exactly `Reward` of the current pieces |
| GridWorld.GridWorld.GetState | GridWorld.py:250-281 | a fresh 4 × size × size array whose layer `l` holds 1.0 exactly on the cells of kind `l` (player, goal, walls, holes) and 0.0 elsewhere |
| GridWorld.GridWorld.ToArray | GridWorld.py:144-162 | a fresh size × size array holding `Code` at every cell: 1, then 4, then 2, then 3 written in that order, with later writes winning |
| GridWorld.GridWorld.Render | GridWorld.py:164-183 | raw: the code grid itself; otherwise the text of `size` lines, each with the `render_map` symbols of a row followed by a line break |

## Left out

- EnvWrapper.py and `create_world` are not part of this model: the adapter
  to the training harness and a console demonstration.
- The `random` module is not modelled. Seeding it and the uniformity of
  `randint` are replaced by the stream `rng`. Properties hold for every
  stream whose draws are grid cells, and no probabilistic statement is made.
- The class attribute `pieces`, shared by every instance until its first
  `clear_grid`, is not modelled. The constructor starts from the cleared
  dictionary.
- GridWorld.GridWorld.GetState: requires every piece to be a grid cell. numpy
  would wrap a negative index such as the unplaced (-1, -1) to the last row
  or column; that case is not modelled.
- GridWorld.GridWorld.ToArray: requires every piece to be a grid cell, for
  the same reason as GetState. It also holds integer codes where numpy holds
  floats.
- GridWorld.GridWorld.Render: requires every piece to be a grid cell, for
  the same reason as GetState.
- GridWorld.GridWorld.MovePlayer: requires an action of exactly four flags.
  The source reads only the flags it reaches, so it also accepts a longer
  list (using its first four entries) and a shorter list whose first set
  flag comes early enough.
- GridWorld.GridWorld.constructor: `assert (size >= 4)` (GridWorld.py:30),
  which raises `AssertionError`, becomes a precondition; the failing
  construction is not modelled. The `use_random` and `rand_seed` arguments
  are replaced by the stream `rng`.
- The default arguments of `__init__` (GridWorld.py:28-29) and `render`
  (GridWorld.py:164) are explicit parameters in the model: callers pass
  `size`, `holes`, `walls` and `raw` every time.
