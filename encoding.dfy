/** The projections of GridWorld.py: the four-layer state `get_state`
    returns, the single-layer code grid of `to_array`, and the text `render`
    makes from it with the `render_map` table. */
module Encoding {
  import opened Grid
  import opened Layout

  /** `render_map`: the symbol of each cell code. */
  const RenderMap: map<int, char> := map[0 := '.', 1 := 'P', 2 := '#', 3 := 'O', 4 := 'G']

  /** Distinct codes have distinct symbols and none is a line break, so the
      text shows the code grid without loss. */
  lemma RenderMapIsInjective()
    ensures RenderMap.Keys == {0, 1, 2, 3, 4}
    ensures forall a, b :: a in RenderMap && b in RenderMap && RenderMap[a] == RenderMap[b] ==> a == b
    ensures '\n' !in RenderMap.Values
  {
  }

  /** The code `to_array` leaves at cell `c`. It writes the player (1), then
      the goal (4), then the walls (2), then the holes (3), so a later kind
      wins on a shared cell. */
  function Code(p: Pieces, c: Pos): (k: int)
    ensures k in RenderMap
  {
    if c in p.holes then 3
    else if c in p.walls then 2
    else if c == p.goal then 4
    else if c == p.player then 1
    else 0
  }

  /** What the code grid shows once the layout is sound: walls, holes and the
      goal exactly where they are, and the player only on a cell that is not
      the goal or a hole (on those the later code covers it). */
  lemma CodeShowsLayout(p: Pieces, c: Pos)
    requires SoundLayout(p) && p.player !in p.walls
    ensures Code(p, c) == 2 <==> c in p.walls
    ensures Code(p, c) == 3 <==> c in p.holes
    ensures Code(p, c) == 4 <==> c == p.goal
    ensures Code(p, c) == 1 <==> c == p.player && c != p.goal && c !in p.holes
    ensures Code(p, c) == 0 <==> c != p.player && c != p.goal && c !in p.walls && c !in p.holes
  {
  }

  /** The value `get_state` leaves in layer `l` at cell `c`: 1.0 where the
      layer's kind (player, goal, walls, holes) is, 0.0 elsewhere. */
  function Bit(p: Pieces, l: int, c: Pos): real {
    if (l == 0 && c == p.player) || (l == 1 && c == p.goal)
       || (l == 2 && c in p.walls) || (l == 3 && c in p.holes)
    then 1.0 else 0.0
  }

  /** The code grid is a projection of the layered state: the code of a cell
      is read off its four bits, holes over walls over the goal over the
      player. */
  lemma CodeFromLayers(p: Pieces, c: Pos)
    ensures Code(p, c) == if Bit(p, 3, c) == 1.0 then 3
                          else if Bit(p, 2, c) == 1.0 then 2
                          else if Bit(p, 1, c) == 1.0 then 4
                          else if Bit(p, 0, c) == 1.0 then 1
                          else 0
    ensures forall l :: 0 <= l < 4 ==> Bit(p, l, c) == 1.0 || Bit(p, l, c) == 0.0
  {
  }

  /** The symbols of row `y` of the code grid, columns `0 .. n - 1`. */
  function RowCells(p: Pieces, y: int, n: nat): (s: string)
    ensures |s| == n
  {
    if n == 0 then [] else RowCells(p, y, n - 1) + [RenderMap[Code(p, (y, n - 1))]]
  }

  /** Symbol `x` of a row is the `render_map` symbol of the code of cell
      `(y, x)`. */
  lemma {:induction false} RowCellsAt(p: Pieces, y: int, n: nat, x: nat)
    requires x < n
    ensures RowCells(p, y, n)[x] == RenderMap[Code(p, (y, x))]
  {
    if x < n - 1 {
      RowCellsAt(p, y, n - 1, x);
    }
  }

  /** Line `y` of the text `render` makes: `size` symbols and a line break. */
  function RowText(p: Pieces, size: nat, y: int): string {
    RowCells(p, y, size) + "\n"
  }

  /** The first `rows` lines of the text `render` makes. */
  function RenderText(p: Pieces, size: nat, rows: nat): string {
    if rows == 0 then "" else RenderText(p, size, rows - 1) + RowText(p, size, rows - 1)
  }

  /** One more row adds one more line width. */
  lemma MulSucc(a: nat, w: nat)
    ensures (a + 1) * w == a * w + w
  {
  }

  /** The text has `rows` lines of `size + 1` characters each. */
  lemma {:induction false} RenderTextLength(p: Pieces, size: nat, rows: nat)
    ensures |RenderText(p, size, rows)| == rows * (size + 1)
  {
    if rows > 0 {
      RenderTextLength(p, size, rows - 1);
      MulSucc(rows - 1, size + 1);
    }
  }

  /** Rendering more rows only appends to the text. */
  lemma {:induction false} RenderTextPrefix(p: Pieces, size: nat, rows: nat, more: nat)
    requires rows <= more
    ensures RenderText(p, size, rows) <= RenderText(p, size, more)
    decreases more
  {
    if rows < more {
      RenderTextPrefix(p, size, rows, more - 1);
    }
  }

  /** Character `x` of line `y` of the whole text is the symbol of cell
      `(y, x)`, and the character after the last column is a line break. */
  lemma RenderTextAt(p: Pieces, size: nat, y: nat, x: nat)
    requires y < size && x <= size
    ensures 0 <= y * (size + 1) + x < |RenderText(p, size, size)|
    ensures RenderText(p, size, size)[y * (size + 1) + x]
      == if x == size then '\n' else RenderMap[Code(p, (y, x))]
  {
    var w := size + 1;
    var t := RenderText(p, size, size);
    var prev := RenderText(p, size, y);
    var u := RenderText(p, size, y + 1);
    RenderTextLength(p, size, size);
    RenderTextLength(p, size, y);
    RenderTextLength(p, size, y + 1);
    MulSucc(y, w);
    RenderTextPrefix(p, size, y + 1, size);
    assert u == prev + RowText(p, size, y);
    assert |u| <= |t|;
    var i := y * w + x;
    assert t[i] == u[i] == RowText(p, size, y)[x];
    if x < size {
      RowCellsAt(p, y, size, x);
    }
  }
}
