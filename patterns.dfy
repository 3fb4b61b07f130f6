/**
 * Two classic patterns under the rule engine: the 2x2 block is a still life
 * and the 3-cell blinker oscillates with period 2. Both are stated on a grid
 * small enough to check and large enough that wrap-around adds no neighbour.
 */
module Patterns {
  import opened LifeRules

  /** The block: cells (1..2, 1..2) of a 4x4 grid. */
  predicate InBlock(i: int, j: int) {
    1 <= i <= 2 && 1 <= j <= 2
  }

  /** A horizontal blinker on a 5x5 grid: columns 1..3 of row 2. */
  predicate InHorizontal(i: int, j: int) {
    1 <= i <= 3 && j == 2
  }

  /** A vertical blinker on a 5x5 grid: rows 1..3 of column 2. */
  predicate InVertical(i: int, j: int) {
    i == 2 && 1 <= j <= 3
  }

  /** `g` is an n x n grid whose living cells are exactly those satisfying `shape`. */
  predicate Holds(g: array2<int>, n: int, shape: (int, int) -> bool)
    reads g
  {
    g.Length0 == n && g.Length1 == n
    && forall i, j :: 0 <= i < n && 0 <= j < n ==> g[i, j] == if shape(i, j) then 1 else 0
  }

  /** Every cell of the block has exactly three living neighbours and every other cell at most two. */
  lemma BlockIsStillLife(g: array2<int>)
    requires Holds(g, 4, InBlock)
    ensures forall i, j :: 0 <= i < 4 && 0 <= j < 4 ==> NextCell(g, i, j) == g[i, j]
  {
    forall i, j | 0 <= i < 4 && 0 <= j < 4 ensures NextCell(g, i, j) == g[i, j] {
      NeighbourCountSkipsSelf(g, i, j);
    }
  }

  /** One step turns the horizontal blinker into the vertical one. */
  lemma HorizontalBlinkerTurns(g: array2<int>)
    requires Holds(g, 5, InHorizontal)
    ensures forall i, j :: 0 <= i < 5 && 0 <= j < 5 ==> NextCell(g, i, j) == if InVertical(i, j) then 1 else 0
  {
    forall i, j | 0 <= i < 5 && 0 <= j < 5 ensures NextCell(g, i, j) == if InVertical(i, j) then 1 else 0 {
      NeighbourCountSkipsSelf(g, i, j);
    }
  }

  /** One step turns the vertical blinker back into the horizontal one. */
  lemma VerticalBlinkerTurns(g: array2<int>)
    requires Holds(g, 5, InVertical)
    ensures forall i, j :: 0 <= i < 5 && 0 <= j < 5 ==> NextCell(g, i, j) == if InHorizontal(i, j) then 1 else 0
  {
    forall i, j | 0 <= i < 5 && 0 <= j < 5 ensures NextCell(g, i, j) == if InHorizontal(i, j) then 1 else 0 {
      NeighbourCountSkipsSelf(g, i, j);
    }
  }
}
