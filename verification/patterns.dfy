/**
 Small hand-computed grids on a 4 x 4 torus: the wrap at a corner, and the
 block, a still life that one step leaves as it is.
 */
module Patterns {
  import opened Grids
  import opened Life

  /** The eight cells around (row, col), given the rows above and below and the columns left and right. */
  function Around(g: Grid, rows: nat, cols: nat, row: int, col: int, up: int, down: int, left: int, right: int): int
    requires Shaped(g, rows, cols) && 0 <= row < rows && 0 <= col < cols
    requires 0 <= up < rows && 0 <= down < rows && 0 <= left < cols && 0 <= right < cols
  {
    g[up][left] + g[up][col] + g[up][right] + g[row][left] + g[row][right] + g[down][left] + g[down][col] + g[down][right]
  }

  /** `countNeighbors` is the written-out sum of the eight wrapped neighbours. */
  lemma NeighboursAround(g: Grid, rows: nat, cols: nat, row: int, col: int)
    requires Shaped(g, rows, cols) && 0 <= row < rows && 0 <= col < cols
    ensures Neighbours(g, rows, cols, row, col) ==
      Around(g, rows, cols, row, col, Wrap(row, -1, rows), Wrap(row, 1, rows), Wrap(col, -1, cols), Wrap(col, 1, cols))
  {
    assert AllOffsets(Offsets);
    assert Offsets[..0] == [];
    SumAtPrefix(g, rows, cols, row, col, Offsets, 0);
    SumAtPrefix(g, rows, cols, row, col, Offsets, 1);
    SumAtPrefix(g, rows, cols, row, col, Offsets, 2);
    SumAtPrefix(g, rows, cols, row, col, Offsets, 3);
    SumAtPrefix(g, rows, cols, row, col, Offsets, 4);
    SumAtPrefix(g, rows, cols, row, col, Offsets, 5);
    SumAtPrefix(g, rows, cols, row, col, Offsets, 6);
    SumAtPrefix(g, rows, cols, row, col, Offsets, 7);
    assert Offsets[..8] == Offsets;
  }

  /** A 4 x 4 grid whose only live cell is the bottom-right corner. */
  predicate IsCorner(g: Grid)
    requires Shaped(g, 4, 4)
  {
    forall i, j :: 0 <= i < 4 && 0 <= j < 4 ==> g[i][j] == if i == 3 && j == 3 then 1 else 0
  }

  /**
   The top-left corner sees the bottom-right one through both wrapped edges,
   while its other neighbours, which reach across one edge only, do not.
   */
  lemma CornerSeesOppositeCorner(g: Grid)
    requires Shaped(g, 4, 4) && IsCorner(g)
    ensures Neighbours(g, 4, 4, 0, 0) == 1
    ensures Neighbours(g, 4, 4, 0, 1) == 0
    ensures Neighbours(g, 4, 4, 1, 0) == 0
  {
    NeighboursAround(g, 4, 4, 0, 0);
    NeighboursAround(g, 4, 4, 0, 1);
    NeighboursAround(g, 4, 4, 1, 0);
  }

  /** The lone live cell has no live neighbour, so it dies of underpopulation. */
  lemma LoneCellDies(g: Grid)
    requires Shaped(g, 4, 4) && IsCorner(g)
    ensures Neighbours(g, 4, 4, 3, 3) == 0
    ensures Step(g, 4, 4)[3][3] == 0
  {
    NeighboursAround(g, 4, 4, 3, 3);
    assert Step(g, 4, 4)[3][3] == NextAt(g, 4, 4, 3, 3);
  }

  /** A 4 x 4 grid holding a 2 x 2 block of live cells in its middle, and nothing else. */
  predicate IsBlock(g: Grid)
    requires Shaped(g, 4, 4)
  {
    forall i, j :: 0 <= i < 4 && 0 <= j < 4 ==> g[i][j] == if 1 <= i <= 2 && 1 <= j <= 2 then 1 else 0
  }

  /** The hand-computed neighbour counts of the block grid. */
  const BlockCounts: seq<seq<int>> := [[1, 2, 2, 1], [2, 3, 3, 2], [2, 3, 3, 2], [1, 2, 2, 1]]

  /** The written-out count of cell (i, j) of the block grid is the hand-computed one. */
  lemma BlockCount(g: Grid, i: int, j: int)
    requires Shaped(g, 4, 4) && IsBlock(g) && 0 <= i < 4 && 0 <= j < 4
    ensures Around(g, 4, 4, i, j, Wrap(i, -1, 4), Wrap(i, 1, 4), Wrap(j, -1, 4), Wrap(j, 1, 4)) == BlockCounts[i][j]
    ensures g[i][j] == 1 ==> BlockCounts[i][j] == 3
    ensures g[i][j] == 0 ==> BlockCounts[i][j] <= 2
  {
  }

  /** A live cell of the block has three live neighbours and a dead one at most two. */
  lemma BlockCellStable(g: Grid, i: int, j: int)
    requires Shaped(g, 4, 4) && IsBlock(g) && 0 <= i < 4 && 0 <= j < 4
    ensures g[i][j] == 1 ==> Neighbours(g, 4, 4, i, j) == 3
    ensures g[i][j] == 0 ==> Neighbours(g, 4, 4, i, j) <= 2
  {
    NeighboursAround(g, 4, 4, i, j);
    BlockCount(g, i, j);
  }

  /** The block is a still life: no cell of it is born or dies. */
  lemma BlockIsStillLife(g: Grid)
    requires Shaped(g, 4, 4) && IsBlock(g)
    ensures StillLife(g, 4, 4)
  {
    forall i, j | 0 <= i < 4 && 0 <= j < 4
      ensures (g[i][j] == 1 ==> 2 <= Neighbours(g, 4, 4, i, j) <= 3) &&
              (g[i][j] == 0 ==> Neighbours(g, 4, 4, i, j) != 3)
    {
      BlockCellStable(g, i, j);
    }
  }

  /** The block is a still life: one step gives back the same grid. */
  lemma BlockIsStill(g: Grid)
    requires Shaped(g, 4, 4) && IsBlock(g)
    ensures Step(g, 4, 4) == g
  {
    BlockIsStillLife(g);
    StillLifeIsFixedPoint(g, 4, 4);
  }
}
