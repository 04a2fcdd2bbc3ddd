/** The random placement allocator of GridWorld.py: `_get_pos` draws a
    candidate cell, and `_get_empty_pos` keeps drawing until a candidate is
    free or its attempt counter passes 100. */
module Allocator {
  import opened Grid

  /** The random stream: the `d`-th call of `_get_pos` since construction
      yields `rng(d)`. */
  type Stream = nat -> Pos

  /** Every draw is a cell of the grid, as `randint(0, size - 1)` on both
      axes guarantees. */
  ghost predicate StreamInGrid(size: int, rng: Stream) {
    forall d :: InBounds(size, rng(d))
  }

  /** `_get_empty_pos` keeps looping while `attempts <= MaxAttempts`. */
  const MaxAttempts: nat := 100

  /** Draws consumed by a search that gives up: the first draw, one more per
      rejected sample, and the last draw, which is taken but never checked. */
  const ExhaustedDraws: nat := MaxAttempts + 2

  /** A search either finds a cell after `draws` draws or raises. */
  datatype Search = Found(pos: Pos, draws: nat) | Exhausted

  /** The loop of `_get_empty_pos` from draw `d` on, when the search started
      at draw `base` and the occupied cells are listed in `filled`: the
      sample in hand is `rng(d)` and `d - base` samples have been rejected. */
  function Scan(filled: seq<Pos>, rng: Stream, base: nat, d: nat): Search
    requires base <= d <= base + MaxAttempts + 1
    decreases base + MaxAttempts + 1 - d
  {
    var pos := rng(d);
    var attempts := d - base;
    if attempts <= MaxAttempts && pos in filled then
      Scan(filled, rng, base, d + 1)
    else if attempts > MaxAttempts then
      Exhausted
    else
      Found(pos, attempts + 1)
  }

  /** `_get_empty_pos` called when `base` cells have been drawn so far. */
  function FindEmpty(filled: seq<Pos>, rng: Stream, base: nat): Search {
    Scan(filled, rng, base, base)
  }

  /** From draw `d` on, the loop returns the first of the samples `d .. base
      + 100` that is not occupied, and raises exactly when every one of them
      is occupied. */
  lemma {:induction false} ScanIsFirstFree(filled: seq<Pos>, rng: Stream, base: nat, d: nat)
    requires base <= d <= base + MaxAttempts + 1
    ensures var r := Scan(filled, rng, base, d);
      && (r.Found? ==> d - base < r.draws <= MaxAttempts + 1)
      && (r.Found? ==> r.pos == rng(base + r.draws - 1) && r.pos !in filled)
      && (r.Found? ==> forall e :: d <= e < base + r.draws - 1 ==> rng(e) in filled)
      && (r.Exhausted? <==> forall e :: d <= e <= base + MaxAttempts ==> rng(e) in filled)
    decreases base + MaxAttempts + 1 - d
  {
    if d - base <= MaxAttempts && rng(d) in filled {
      ScanIsFirstFree(filled, rng, base, d + 1);
    }
  }

  /** The search returns the first of the samples `base .. base + 100` that
      is not occupied, after at most 101 draws, and raises exactly when every
      one of them is occupied. */
  lemma FindEmptyIsFirstFree(filled: seq<Pos>, rng: Stream, base: nat)
    ensures var r := FindEmpty(filled, rng, base);
      && (r.Found? ==> 0 < r.draws <= MaxAttempts + 1)
      && (r.Found? ==> r.pos == rng(base + r.draws - 1) && r.pos !in filled)
      && (r.Found? ==> forall e :: base <= e < base + r.draws - 1 ==> rng(e) in filled)
      && (r.Exhausted? <==> forall e :: base <= e <= base + MaxAttempts ==> rng(e) in filled)
  {
    ScanIsFirstFree(filled, rng, base, base);
  }

  /** A search that meets a free cell after `k` taken ones returns it. */
  lemma FindEmptyFirstFree(filled: seq<Pos>, rng: Stream, base: nat, k: nat)
    requires k <= MaxAttempts
    requires forall d :: base <= d < base + k ==> rng(d) in filled
    requires rng(base + k) !in filled
    ensures FindEmpty(filled, rng, base) == Found(rng(base + k), k + 1)
  {
    FindEmptyIsFirstFree(filled, rng, base);
  }

  /** A search whose 101 samples are all taken raises. */
  lemma FindEmptyExhausted(filled: seq<Pos>, rng: Stream, base: nat)
    requires forall d :: base <= d <= base + MaxAttempts ==> rng(d) in filled
    ensures FindEmpty(filled, rng, base) == Exhausted
  {
    FindEmptyIsFirstFree(filled, rng, base);
  }

  /** When the draws are grid cells, so is the cell the allocator returns. */
  lemma FoundInGrid(size: int, filled: seq<Pos>, rng: Stream, base: nat)
    requires StreamInGrid(size, rng)
    ensures var r := FindEmpty(filled, rng, base);
      r.Found? ==> InBounds(size, r.pos) && r.pos in Cells(size)
  {
    var r := FindEmpty(filled, rng, base);
    FindEmptyIsFirstFree(filled, rng, base);
    if r.Found? {
      assert InBounds(size, rng(base + r.draws - 1));
      assert !OutOfBounds(size, r.pos);
    }
  }
}
