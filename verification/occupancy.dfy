/** The food occupancy grid: a `UnitsX x UnitsY` array of integer flags,
    indexed `grid[x][y]`. Only food placement ever writes to it, always the
    value 1, and nothing ever clears a flag. */
module Occupancy {
  import opened Geometry

  /** The grid has the fixed board shape. */
  predicate Shaped(grid: seq<seq<int>>) {
    && |grid| == UnitsX
    && forall x :: 0 <= x < |grid| ==> |grid[x]| == UnitsY
  }

  /** Every flag is 0 (free) or 1 (once used for food). */
  predicate Binary(grid: seq<seq<int>>) {
    forall x, y :: 0 <= x < |grid| && 0 <= y < |grid[x]| ==> grid[x][y] == 0 || grid[x][y] == 1
  }

  /** The flag of a board cell. */
  function Flag(grid: seq<seq<int>>, p: Vec2D): int
    requires Shaped(grid) && InBounds(p)
  {
    grid[p.x][p.y]
  }

  /** The all-zero grid a new game starts with. */
  function EmptyGrid(): (grid: seq<seq<int>>)
    ensures Shaped(grid) && Binary(grid)
    ensures forall p :: InBounds(p) ==> Flag(grid, p) == 0
    ensures Count(grid) == 0
  {
    var col := seq(UnitsY, _ => 0);
    var grid := seq(UnitsX, _ => col);
    ColumnCountZero(col);
    CountOfZeroColumns(grid, col);
    grid
  }

  /** Number of set (non-zero) flags in one column of the grid. */
  function ColumnCount(col: seq<int>): (n: nat)
    ensures n <= |col|
  {
    if |col| == 0 then 0 else (if col[0] != 0 then 1 else 0) + ColumnCount(col[1..])
  }

  /** Number of set flags in the whole grid. */
  function Count(grid: seq<seq<int>>): nat {
    if |grid| == 0 then 0 else ColumnCount(grid[0]) + Count(grid[1..])
  }

  /** The accepting half of one rejection-sampling attempt: the free cell `c`
      has its flag set to 1. */
  function Mark(grid: seq<seq<int>>, c: Vec2D): (r: seq<seq<int>>)
    requires Shaped(grid) && InBounds(c)
    requires Flag(grid, c) == 0
    ensures Shaped(r)
    ensures Flag(r, c) == 1
    ensures forall p :: InBounds(p) && p != c ==> Flag(r, p) == Flag(grid, p)
    ensures Count(r) == Count(grid) + 1
    ensures Binary(grid) ==> Binary(r)
  {
    var col := grid[c.x][c.y := 1];
    ColumnCountMark(grid[c.x], c.y);
    CountReplaceColumn(grid, c.x, col);
    grid[c.x := col]
  }

  /** What one run of the rejection-sampling loop produces: the cell that was
      accepted, the grid with its flag set, and the index of the accepting
      draw; or nothing, when every supplied draw was rejected. */
  datatype SpawnResult =
    | Placed(grid: seq<seq<int>>, cell: Vec2D, index: nat)
    | Exhausted

  /** Every draw is a cell a uniform draw over the board can produce. */
  predicate Draws(draws: seq<Vec2D>) {
    forall i :: 0 <= i < |draws| ==> InBounds(draws[i])
  }

  /** Food placement: the draws are tried in order, a draw whose flag is set
      is rejected, and the first draw whose flag is 0 is accepted and marked. */
  function Spawn(grid: seq<seq<int>>, draws: seq<Vec2D>): (r: SpawnResult)
    requires Shaped(grid) && Draws(draws)
    ensures r.Placed? ==>
      && r.index < |draws|
      && r.cell == draws[r.index]
      && InBounds(r.cell)
      && Flag(grid, r.cell) == 0
      && r.grid == Mark(grid, r.cell)
      && forall j :: 0 <= j < r.index ==> Flag(grid, draws[j]) != 0
    ensures r.Exhausted? <==> forall j :: 0 <= j < |draws| ==> Flag(grid, draws[j]) != 0
    decreases |draws|
  {
    if |draws| == 0 then Exhausted
    else if Flag(grid, draws[0]) == 0 then Placed(Mark(grid, draws[0]), draws[0], 0)
    else
      match Spawn(grid, draws[1..])
      case Exhausted => Exhausted
      case Placed(g, c, i) => Placed(g, c, i + 1)
  }

  /** Once every cell has been used for food, no draw is ever accepted: the
      sampling loop can no longer finish. */
  lemma FullGridRejectsEveryDraw(grid: seq<seq<int>>, draws: seq<Vec2D>)
    requires Shaped(grid) && Draws(draws)
    requires Count(grid) == UnitsX * UnitsY
    ensures Spawn(grid, draws).Exhausted?
  {
    FullCountMeansAllSet(grid, UnitsY);
  }

  /** While fewer than all cells have been used for food, some cell is still
      free, so a sampling loop that eventually draws it returns. */
  lemma FreeCellExists(grid: seq<seq<int>>)
    requires Shaped(grid)
    requires Count(grid) < UnitsX * UnitsY
    ensures exists p :: InBounds(p) && Flag(grid, p) == 0
  {
    if forall p :: InBounds(p) ==> Flag(grid, p) != 0 {
      forall x, y | 0 <= x < |grid| && 0 <= y < UnitsY
        ensures grid[x][y] != 0
      {
        assert Flag(grid, Vec2D(x, y)) != 0;
      }
      AllSetMeansFullCount(grid, UnitsY);
      assert false;
    }
  }

  /** A column of zeros has no set flag. */
  lemma {:induction false} ColumnCountZero(col: seq<int>)
    requires forall y :: 0 <= y < |col| ==> col[y] == 0
    ensures ColumnCount(col) == 0
  {
    if |col| > 0 {
      ColumnCountZero(col[1..]);
    }
  }

  /** A grid of zero columns has no set flag. */
  lemma {:induction false} CountOfZeroColumns(grid: seq<seq<int>>, col: seq<int>)
    requires ColumnCount(col) == 0
    requires forall x :: 0 <= x < |grid| ==> grid[x] == col
    ensures Count(grid) == 0
  {
    if |grid| > 0 {
      CountOfZeroColumns(grid[1..], col);
    }
  }

  /** Setting one free flag of a column adds one to its count. */
  lemma {:induction false} ColumnCountMark(col: seq<int>, y: int)
    requires 0 <= y < |col| && col[y] == 0
    ensures ColumnCount(col[y := 1]) == ColumnCount(col) + 1
  {
    if y == 0 {
      assert col[y := 1][1..] == col[1..];
    } else {
      ColumnCountMark(col[1..], y - 1);
      assert col[y := 1][1..] == col[1..][y - 1 := 1];
    }
  }

  /** Replacing one column changes the grid count by the difference of the
      two columns' counts. */
  lemma {:induction false} CountReplaceColumn(grid: seq<seq<int>>, x: int, col: seq<int>)
    requires 0 <= x < |grid|
    ensures Count(grid[x := col]) == Count(grid) - ColumnCount(grid[x]) + ColumnCount(col)
  {
    if x > 0 {
      CountReplaceColumn(grid[1..], x - 1, col);
      assert grid[x := col][1..] == grid[1..][x - 1 := col];
    } else {
      assert grid[x := col][1..] == grid[1..];
    }
  }

  /** A column whose every flag is counted has every flag set. */
  lemma {:induction false} FullColumnAllSet(col: seq<int>)
    requires ColumnCount(col) == |col|
    ensures forall y :: 0 <= y < |col| ==> col[y] != 0
  {
    if |col| > 0 {
      FullColumnAllSet(col[1..]);
      forall y | 0 <= y < |col|
        ensures col[y] != 0
      {
        if y > 0 {
          assert col[y] == col[1..][y - 1];
        }
      }
    }
  }

  /** A column whose every flag is set counts all its cells. */
  lemma {:induction false} AllSetMeansFullColumn(col: seq<int>)
    requires forall y :: 0 <= y < |col| ==> col[y] != 0
    ensures ColumnCount(col) == |col|
  {
    if |col| > 0 {
      AllSetMeansFullColumn(col[1..]);
    }
  }

  /** A grid whose every flag is set counts all its cells. */
  lemma {:induction false} AllSetMeansFullCount(grid: seq<seq<int>>, w: nat)
    requires forall x :: 0 <= x < |grid| ==> |grid[x]| == w
    requires forall x, y :: 0 <= x < |grid| && 0 <= y < w ==> grid[x][y] != 0
    ensures Count(grid) == |grid| * w
  {
    if |grid| > 0 {
      AllSetMeansFullColumn(grid[0]);
      AllSetMeansFullCount(grid[1..], w);
      assert |grid| * w == (|grid| - 1) * w + w;
    }
  }

  /** A grid of `|grid|` columns of height `w` counts at most `|grid| * w`. */
  lemma {:induction false} CountBound(grid: seq<seq<int>>, w: nat)
    requires forall x :: 0 <= x < |grid| ==> |grid[x]| == w
    ensures Count(grid) <= |grid| * w
  {
    if |grid| > 0 {
      CountBound(grid[1..], w);
      assert |grid| * w == (|grid| - 1) * w + w;
    }
  }

  /** A grid whose count equals its number of cells has every flag set. */
  lemma {:induction false} FullCountMeansAllSet(grid: seq<seq<int>>, w: nat)
    requires forall x :: 0 <= x < |grid| ==> |grid[x]| == w
    requires Count(grid) == |grid| * w
    ensures forall x, y :: 0 <= x < |grid| && 0 <= y < w ==> grid[x][y] != 0
  {
    if |grid| > 0 {
      CountBound(grid[1..], w);
      assert |grid| * w == (|grid| - 1) * w + w;
      assert ColumnCount(grid[0]) == w;
      FullColumnAllSet(grid[0]);
      FullCountMeansAllSet(grid[1..], w);
      forall x, y | 0 <= x < |grid| && 0 <= y < w
        ensures grid[x][y] != 0
      {
        if x > 0 {
          assert grid[x] == grid[1..][x - 1];
        }
      }
    }
  }
}
