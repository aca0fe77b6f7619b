/**
 One generation of the page's Game of Life on a `rows` x `cols` torus:
 the neighbour count of `countNeighbors`, the survival/birth rule and the
 whole-grid step of `updateGrid`, both as pure functions and as the nested
 loops the page runs.
 */
module Life {
  import opened Grids

  /** The eight (row, column) offsets of a cell's neighbours, in the order the page visits them. */
  const Offsets: seq<(int, int)> :=
    [(-1, -1), (-1, 0), (-1, 1), (0, -1), (0, 1), (1, -1), (1, 0), (1, 1)]

  predicate IsOffset(off: (int, int)) {
    -1 <= off.0 <= 1 && -1 <= off.1 <= 1
  }

  predicate AllOffsets(offs: seq<(int, int)>) {
    forall k :: 0 <= k < |offs| ==> IsOffset(offs[k])
  }

  /** The cell at offset `off` from (row, col), with both indices wrapped around the torus. */
  function CellAt(g: Grid, rows: nat, cols: nat, row: int, col: int, off: (int, int)): int
    requires Shaped(g, rows, cols) && 0 <= row < rows && 0 <= col < cols && IsOffset(off)
  {
    g[Wrap(row, off.0, rows)][Wrap(col, off.1, cols)]
  }

  /** The sum of the cells at the given offsets from (row, col); a 0/1 grid gives at most one per offset. */
  function SumAt(g: Grid, rows: nat, cols: nat, row: int, col: int, offs: seq<(int, int)>): (r: int)
    requires Shaped(g, rows, cols) && 0 <= row < rows && 0 <= col < cols && AllOffsets(offs)
    ensures Binary(g) ==> 0 <= r <= |offs|
    decreases |offs|
  {
    if |offs| == 0 then 0
    else SumAt(g, rows, cols, row, col, offs[..|offs| - 1]) + CellAt(g, rows, cols, row, col, offs[|offs| - 1])
  }

  /** The offsets among `offs` whose wrapped cell is live, in order. */
  function LiveAt(g: Grid, rows: nat, cols: nat, row: int, col: int, offs: seq<(int, int)>): (r: seq<(int, int)>)
    requires Shaped(g, rows, cols) && 0 <= row < rows && 0 <= col < cols && AllOffsets(offs)
    ensures forall off :: off in r <==> off in offs && CellAt(g, rows, cols, row, col, off) == 1
    decreases |offs|
  {
    if |offs| == 0 then []
    else
      var last := offs[|offs| - 1];
      LiveAt(g, rows, cols, row, col, offs[..|offs| - 1]) + (if CellAt(g, rows, cols, row, col, last) == 1 then [last] else [])
  }

  /** `countNeighbors(row, col)`: the sum of the eight wrapped neighbours of (row, col). */
  function Neighbours(g: Grid, rows: nat, cols: nat, row: int, col: int): (r: int)
    requires Shaped(g, rows, cols) && 0 <= row < rows && 0 <= col < cols
    ensures Binary(g) ==> 0 <= r <= 8
  {
    SumAt(g, rows, cols, row, col, Offsets)
  }

  /** On a 0/1 grid the sum of the cells is the number of live neighbours. */
  lemma {:induction false} SumAtCountsLive(g: Grid, rows: nat, cols: nat, row: int, col: int, offs: seq<(int, int)>)
    requires Shaped(g, rows, cols) && Binary(g) && 0 <= row < rows && 0 <= col < cols && AllOffsets(offs)
    ensures SumAt(g, rows, cols, row, col, offs) == |LiveAt(g, rows, cols, row, col, offs)|
    decreases |offs|
  {
    if |offs| > 0 {
      SumAtCountsLive(g, rows, cols, row, col, offs[..|offs| - 1]);
    }
  }

  /** `countNeighbors` is the number of the eight neighbour positions that hold a live cell. */
  lemma NeighboursCountsLive(g: Grid, rows: nat, cols: nat, row: int, col: int)
    requires Shaped(g, rows, cols) && Binary(g) && 0 <= row < rows && 0 <= col < cols
    ensures Neighbours(g, rows, cols, row, col) == |LiveAt(g, rows, cols, row, col, Offsets)|
    ensures forall off :: off in LiveAt(g, rows, cols, row, col, Offsets) <==>
      off in Offsets && g[Wrap(row, off.0, rows)][Wrap(col, off.1, cols)] == 1
  {
    SumAtCountsLive(g, rows, cols, row, col, Offsets);
  }

  /**
   The rule `updateGrid` applies to a cell holding v with n live neighbours:
   on a 0/1 cell it is the B3/S23 rule (born with three, survives with two or
   three); any other value is copied unchanged.
   */
  function NextCell(v: int, n: int): (r: int)
    ensures v == 0 || v == 1 ==> (r == 0 || r == 1) && (r == 1 <==> n == 3 || (v == 1 && n == 2))
    ensures v != 0 && v != 1 ==> r == v
  {
    if v == 1 && (n < 2 || n > 3) then 0
    else if v == 0 && n == 3 then 1
    else v
  }

  /**
   Cell (i, j) of the next generation, from the old grid `g` alone: on a 0/1
   grid it is live exactly when it had three live neighbours, or was live and
   had two.
   */
  function NextAt(g: Grid, rows: nat, cols: nat, i: int, j: int): (r: int)
    requires Shaped(g, rows, cols) && 0 <= i < rows && 0 <= j < cols
    ensures Binary(g) ==> (r == 0 || r == 1)
    ensures Binary(g) ==> (r == 1 <==> Neighbours(g, rows, cols, i, j) == 3 || (g[i][j] == 1 && Neighbours(g, rows, cols, i, j) == 2))
  {
    NextCell(g[i][j], Neighbours(g, rows, cols, i, j))
  }

  /**
   `updateGrid`: the next generation. Every cell of the result is computed from
   the neighbour counts of the old grid `g` alone.
   */
  function Step(g: Grid, rows: nat, cols: nat): (r: Grid)
    requires Shaped(g, rows, cols)
    ensures Shaped(r, rows, cols)
    ensures Binary(g) ==> Binary(r)
  {
    seq(rows, i requires 0 <= i < rows => seq(cols, j requires 0 <= j < cols => NextAt(g, rows, cols, i, j)))
  }

  /**
   On a 0/1 grid a cell of the next generation is live exactly when the cell
   had three live neighbours, or was live and had two, counting the wrapped
   neighbour positions that hold a live cell in the old grid.
   */
  lemma StepFollowsRule(g: Grid, rows: nat, cols: nat)
    requires Shaped(g, rows, cols) && Binary(g)
    ensures forall i, j :: 0 <= i < rows && 0 <= j < cols ==>
      var n := |LiveAt(g, rows, cols, i, j, Offsets)|;
      (Step(g, rows, cols)[i][j] == 1 <==> n == 3 || (g[i][j] == 1 && n == 2))
  {
    forall i, j | 0 <= i < rows && 0 <= j < cols {
      NeighboursCountsLive(g, rows, cols, i, j);
    }
  }

  /** A 0/1 grid every live cell of which has two or three live neighbours and no dead cell of which has three. */
  predicate StillLife(g: Grid, rows: nat, cols: nat)
    requires Shaped(g, rows, cols)
  {
    forall i, j :: 0 <= i < rows && 0 <= j < cols ==>
      (g[i][j] == 1 ==> 2 <= Neighbours(g, rows, cols, i, j) <= 3) &&
      (g[i][j] == 0 ==> Neighbours(g, rows, cols, i, j) != 3)
  }

  /** A 0/1 grid is left unchanged by a step exactly when it is a still life. */
  lemma StillLifeIsFixedPoint(g: Grid, rows: nat, cols: nat)
    requires Shaped(g, rows, cols) && Binary(g)
    ensures Step(g, rows, cols) == g <==> StillLife(g, rows, cols)
  {
    var s := Step(g, rows, cols);
    if StillLife(g, rows, cols) {
      forall i | 0 <= i < rows
        ensures s[i] == g[i]
      {
        assert forall j :: 0 <= j < cols ==> s[i][j] == g[i][j];
      }
    }
    if s == g {
      forall i, j | 0 <= i < rows && 0 <= j < cols
        ensures (g[i][j] == 1 ==> 2 <= Neighbours(g, rows, cols, i, j) <= 3) &&
                (g[i][j] == 0 ==> Neighbours(g, rows, cols, i, j) != 3)
      {
        assert s[i][j] == g[i][j];
      }
    }
  }

  /** Every offset sum around a cell of an all-dead grid is zero. */
  lemma {:induction false} SumAtDead(g: Grid, rows: nat, cols: nat, row: int, col: int, offs: seq<(int, int)>)
    requires Shaped(g, rows, cols) && 0 <= row < rows && 0 <= col < cols && AllOffsets(offs)
    requires forall i, j :: 0 <= i < rows && 0 <= j < cols ==> g[i][j] == 0
    ensures SumAt(g, rows, cols, row, col, offs) == 0
    decreases |offs|
  {
    if |offs| > 0 {
      SumAtDead(g, rows, cols, row, col, offs[..|offs| - 1]);
    }
  }

  /** An all-dead grid stays all dead. */
  lemma DeadGridIsFixed(g: Grid, rows: nat, cols: nat)
    requires Shaped(g, rows, cols)
    requires forall i, j :: 0 <= i < rows && 0 <= j < cols ==> g[i][j] == 0
    ensures Step(g, rows, cols) == g
  {
    forall i, j | 0 <= i < rows && 0 <= j < cols
      ensures Neighbours(g, rows, cols, i, j) == 0
    {
      SumAtDead(g, rows, cols, i, j, Offsets);
    }
    StillLifeIsFixedPoint(g, rows, cols);
  }

  /** The sum over the first k neighbour offsets, in the page's order. */
  function Counted(g: Grid, rows: nat, cols: nat, row: int, col: int, k: int): int
    requires Shaped(g, rows, cols) && 0 <= row < rows && 0 <= col < cols && 0 <= k <= |Offsets|
  {
    assert AllOffsets(Offsets[..k]);
    SumAt(g, rows, cols, row, col, Offsets[..k])
  }

  /** How many neighbour offsets the page's loops have added once they reach offset (i, j). */
  function Visited(i: int, j: int): int {
    (i + 1) * 3 + (j + 1) - (if i > 0 || (i == 0 && j > 0) then 1 else 0)
  }

  /** The loops reach the offsets in the order of `Offsets`, and the cell itself adds nothing. */
  lemma VisitedOrder(i: int, j: int)
    requires -1 <= i <= 1 && -1 <= j <= 1
    ensures 0 <= Visited(i, j) <= Visited(i, j + 1) <= |Offsets|
    ensures i == 0 && j == 0 ==> Visited(i, j + 1) == Visited(i, j)
    ensures !(i == 0 && j == 0) ==>
      0 <= Visited(i, j) < |Offsets| && Offsets[Visited(i, j)] == (i, j) && Visited(i, j + 1) == Visited(i, j) + 1
    ensures Visited(i, 2) == Visited(i + 1, -1)
  {
  }

  /** Adding the next offset of a prefix adds its cell to the sum. */
  lemma SumAtPrefix(g: Grid, rows: nat, cols: nat, row: int, col: int, offs: seq<(int, int)>, k: nat)
    requires Shaped(g, rows, cols) && 0 <= row < rows && 0 <= col < cols && AllOffsets(offs) && k < |offs|
    ensures SumAt(g, rows, cols, row, col, offs[..k + 1]) ==
      SumAt(g, rows, cols, row, col, offs[..k]) + CellAt(g, rows, cols, row, col, offs[k])
  {
    assert offs[..k + 1][..k] == offs[..k];
  }

  /** Adding offset (i, j), the k-th in the page's order, adds the cell the page reads at that offset. */
  lemma SumAtStep(g: Grid, rows: nat, cols: nat, row: int, col: int, k: nat, i: int, j: int)
    requires Shaped(g, rows, cols) && 0 <= row < rows && 0 <= col < cols
    requires k < |Offsets| && Offsets[k] == (i, j)
    ensures SumAt(g, rows, cols, row, col, Offsets[..k + 1]) ==
      SumAt(g, rows, cols, row, col, Offsets[..k]) + g[JsRem(row + i + rows, rows)][JsRem(col + j + cols, cols)]
  {
    assert AllOffsets(Offsets);
    SumAtPrefix(g, rows, cols, row, col, Offsets, k);
    WrapIsJsRem(row, i, rows);
    WrapIsJsRem(col, j, cols);
  }

  /** One pass of the inner loop of `countNeighbors` adds the next offset's cell to the running sum. */
  lemma LoopStep(g: Grid, rows: nat, cols: nat, row: int, col: int, i: int, j: int)
    requires Shaped(g, rows, cols) && 0 <= row < rows && 0 <= col < cols
    requires -1 <= i <= 1 && -1 <= j <= 1 && !(i == 0 && j == 0)
    ensures 0 <= Visited(i, j) < Visited(i, j + 1) <= |Offsets|
    ensures Counted(g, rows, cols, row, col, Visited(i, j + 1)) ==
      Counted(g, rows, cols, row, col, Visited(i, j)) + g[JsRem(row + i + rows, rows)][JsRem(col + j + cols, cols)]
  {
    VisitedOrder(i, j);
    SumAtStep(g, rows, cols, row, col, Visited(i, j), i, j);
  }

  /** `countNeighbors`, as the page computes it: two loops over -1..1 that skip the cell itself. */
  method CountNeighbors(g: Grid, rows: nat, cols: nat, row: int, col: int) returns (count: int)
    requires Shaped(g, rows, cols) && 0 <= row < rows && 0 <= col < cols
    ensures count == Neighbours(g, rows, cols, row, col)
    ensures Binary(g) ==> 0 <= count <= 8
  {
    count := 0;
    for i := -1 to 2
      invariant 0 <= Visited(i, -1) <= |Offsets|
      invariant count == Counted(g, rows, cols, row, col, Visited(i, -1))
    {
      for j := -1 to 2
        invariant 0 <= Visited(i, j) <= |Offsets|
        invariant count == Counted(g, rows, cols, row, col, Visited(i, j))
      {
        VisitedOrder(i, j);
        if i == 0 && j == 0 {
          continue;
        }
        var x := JsRem(col + j + cols, cols);
        var y := JsRem(row + i + rows, rows);
        LoopStep(g, rows, cols, row, col, i, j);
        count := count + g[y][x];
      }
      VisitedOrder(i, 1);
    }
    assert Visited(2, -1) == |Offsets|;
    assert Offsets[..|Offsets|] == Offsets;
    assert count == SumAt(g, rows, cols, row, col, Offsets[..|Offsets|]);
  }

  /** Cell (i, j) of `next` is the rule applied to cell (i, j) of `g` and its neighbour count in `g`. */
  predicate RuleHolds(g: Grid, next: Grid, rows: nat, cols: nat, i: int, j: int)
    requires Shaped(g, rows, cols) && Shaped(next, rows, cols) && 0 <= i < rows && 0 <= j < cols
  {
    next[i][j] == NextAt(g, rows, cols, i, j)
  }

  /** A row whose every cell follows the rule from `g` is that row of the step of `g`. */
  lemma RowByCells(g: Grid, next: Grid, rows: nat, cols: nat, i: int)
    requires Shaped(g, rows, cols) && Shaped(next, rows, cols) && 0 <= i < rows
    requires forall j :: 0 <= j < cols ==> RuleHolds(g, next, rows, cols, i, j)
    ensures next[i] == Step(g, rows, cols)[i]
  {
    var s := Step(g, rows, cols);
    forall j | 0 <= j < cols
      ensures next[i][j] == s[i][j]
    {
      assert RuleHolds(g, next, rows, cols, i, j);
    }
  }

  /** The page's `newGrid[i][j] = v`: only cell (i, j) changes. */
  function SetCell(g: Grid, i: int, j: int, v: int): (r: Grid)
    requires 0 <= i < |g| && 0 <= j < |g[i]|
    ensures |r| == |g| && forall a :: 0 <= a < |g| && a != i ==> r[a] == g[a]
    ensures |r[i]| == |g[i]| && r[i][j] == v
    ensures forall b :: 0 <= b < |g[i]| && b != j ==> r[i][b] == g[i][b]
  {
    g[i := g[i][j := v]]
  }

  /**
   `updateGrid`, as the page computes it: a scratch grid from `createGrid`
   (random contents, drawn from `draw`) whose every cell is overwritten from
   the neighbour counts of the old grid. The result does not depend on the draws.
   */
  method UpdateGrid(grid: Grid, rows: nat, cols: nat, draw: Draws) returns (newGrid: Grid)
    requires Shaped(grid, rows, cols)
    ensures Shaped(newGrid, rows, cols)
    ensures Binary(grid) ==> Binary(newGrid)
    ensures newGrid == Step(grid, rows, cols)
  {
    var next := Step(grid, rows, cols);
    newGrid := CreateGrid(rows, cols, draw);
    for i := 0 to rows
      invariant Shaped(newGrid, rows, cols)
      invariant forall a :: 0 <= a < i ==> newGrid[a] == next[a]
    {
      newGrid := UpdateRow(grid, newGrid, rows, cols, i);
    }
    assert forall a :: 0 <= a < rows ==> newGrid[a] == next[a];
  }

  /**
   The inner loop of `updateGrid`: row `i` of the result follows the rule
   from the old grid, and every other row is left as it was.
   */
  method UpdateRow(grid: Grid, newGrid: Grid, rows: nat, cols: nat, i: int) returns (r: Grid)
    requires Shaped(grid, rows, cols) && Shaped(newGrid, rows, cols) && 0 <= i < rows
    ensures Shaped(r, rows, cols)
    ensures forall a :: 0 <= a < rows && a != i ==> r[a] == newGrid[a]
    ensures r[i] == Step(grid, rows, cols)[i]
  {
    r := newGrid;
    for j := 0 to cols
      invariant Shaped(r, rows, cols)
      invariant forall a :: 0 <= a < rows && a != i ==> r[a] == newGrid[a]
      invariant forall b :: 0 <= b < j ==> RuleHolds(grid, r, rows, cols, i, b)
    {
      var neighbors := CountNeighbors(grid, rows, cols, i, j);
      var v;
      if grid[i][j] == 1 && (neighbors < 2 || neighbors > 3) {
        v := 0;
      } else if grid[i][j] == 0 && neighbors == 3 {
        v := 1;
      } else {
        v := grid[i][j];
      }
      var prev := r;
      r := SetCell(r, i, j, v);
      forall b | 0 <= b < j + 1
        ensures RuleHolds(grid, r, rows, cols, i, b)
      {
        if b < j {
          assert RuleHolds(grid, prev, rows, cols, i, b);
        }
      }
    }
    RowByCells(grid, r, rows, cols, i);
  }
}
