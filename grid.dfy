/** Cells of the square lattice of GridWorld.py and the small value types
    that the allocator and the engine share. */
module Grid {

  /** A cell, as the source's `(row, column)` tuple. */
  type Pos = (int, int)

  datatype Option<T> = None | Some(value: T)

  /** The outcome of an operation that may raise the source's
      "Too many attempts looking for empty position" exception. */
  datatype Result<T> = Ok(value: T) | TooManyAttempts

  predicate InBounds(size: int, c: Pos) {
    0 <= c.0 < size && 0 <= c.1 < size
  }

  /** The cells of a grid of side `size`. */
  function Cells(size: int): set<Pos> {
    set y, x | 0 <= y < size && 0 <= x < size :: (y, x)
  }

  /** `_pos_out_of_bounds`: a row or a column outside `[0, size)`. */
  function OutOfBounds(size: int, c: Pos): (r: bool)
    ensures r <==> c !in Cells(size)
  {
    var (y, x) := c;
    if !(0 <= y < size) || !(0 <= x < size) then
      true
    else
      assert (y, x) in Cells(size);
      false
  }

  /** No cell occurs twice. */
  predicate NoDup(s: seq<Pos>) {
    forall i, j :: 0 <= i < j < |s| ==> s[i] != s[j]
  }

  /** How many times `for _ in range(n)` runs. */
  function Max0(n: int): nat {
    if n < 0 then 0 else n
  }
}
