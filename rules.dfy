/**
 * The neighbour rule engine of the sketch: the toroidal neighbour count of
 * `countLivingNeighbors` and the birth/death/stay rule applied by `draw`.
 *
 * A grid is an `array2<int>` indexed `[column, row]`, exactly as the sketch
 * indexes `grid[i][j]`; its dimensions are `Length0` (cols) and `Length1` (rows).
 */
module LifeRules {

  /** (x, y) is a cell of `g`. */
  predicate InGrid(g: array2<int>, x: int, y: int) {
    0 <= x < g.Length0 && 0 <= y < g.Length1
  }

  /**
   * The wrapped coordinate `(v + n) % n` the sketch computes for a coordinate
   * plus an offset in {-1, 0, 1}: on the range that can occur it steps once
   * around the torus and otherwise leaves `v` alone.
   */
  function Wrap(v: int, n: int): (w: int)
    requires n >= 1
    ensures 0 <= w < n
    ensures -n <= v < 2 * n ==> w == (if v < 0 then v + n else if v < n then v else v - n)
  {
    (v + n) % n
  }

  /** 1 when the cell holds a living cell (the sketch tests `== 1`), else 0. */
  function Live(g: array2<int>, i: int, j: int): int
    reads g
    requires InGrid(g, i, j)
  {
    if g[i, j] == 1 then 1 else 0
  }

  /** Live cells seen by the inner loop of the scan for column offset `di`, over row offsets -1 .. j-1. */
  function InnerSum(g: array2<int>, x: int, y: int, di: int, j: int): int
    reads g
    requires InGrid(g, x, y) && -1 <= j <= 2
    decreases j + 1
  {
    if j == -1 then 0
    else InnerSum(g, x, y, di, j - 1) + Live(g, Wrap(x + di, g.Length0), Wrap(y + j - 1, g.Length1))
  }

  /** Live cells seen by the scan over column offsets -1 .. i-1 (each with all three row offsets). */
  function OuterSum(g: array2<int>, x: int, y: int, i: int): int
    reads g
    requires InGrid(g, x, y) && -1 <= i <= 2
    decreases i + 1
  {
    if i == -1 then 0 else OuterSum(g, x, y, i - 1) + InnerSum(g, x, y, i - 1, 2)
  }

  /** The value `countLivingNeighbors` returns: the wrapped 3x3 sum, less the cell itself if alive. */
  function NeighbourCount(g: array2<int>, x: int, y: int): int
    reads g
    requires InGrid(g, x, y)
  {
    OuterSum(g, x, y, 2) - Live(g, x, y)
  }

  /**
   * `countLivingNeighbors(grid, x, y)`: two nested loops over the offsets
   * -1 .. 1 accumulate `sum`, then the centre is subtracted if alive. Every
   * array access is proved in bounds.
   */
  method CountLivingNeighbors(g: array2<int>, x: int, y: int) returns (sum: int)
    requires InGrid(g, x, y)
    ensures sum == NeighbourCount(g, x, y)
  {
    var cols, rows := g.Length0, g.Length1;
    sum := 0;
    for i := -1 to 2
      invariant sum == OuterSum(g, x, y, i)
    {
      for j := -1 to 2
        invariant sum == OuterSum(g, x, y, i) + InnerSum(g, x, y, i, j)
      {
        var col := (x + i + cols) % cols;
        var row := (y + j + rows) % rows;
        if g[col, row] == 1 {
          sum := sum + 1;
        }
      }
    }
    if g[x, y] == 1 {
      sum := sum - 1;
    }
  }

  /** The eight wrapped neighbour positions, in the scan's order with the centre left out. */
  function NeighbourCells(x: int, y: int, cols: int, rows: int): (s: seq<(int, int)>)
    requires 0 <= x < cols && 0 <= y < rows
    ensures |s| == 8
    ensures forall k :: 0 <= k < |s| ==> 0 <= s[k].0 < cols && 0 <= s[k].1 < rows
  {
    var left, right := Wrap(x - 1, cols), Wrap(x + 1, cols);
    var up, down := Wrap(y - 1, rows), Wrap(y + 1, rows);
    [(left, up), (left, y), (left, down), (x, up), (x, down), (right, up), (right, y), (right, down)]
  }

  /** All positions of `s` are cells of `g`. */
  predicate AllInGrid(g: array2<int>, s: seq<(int, int)>) {
    forall k :: 0 <= k < |s| ==> InGrid(g, s[k].0, s[k].1)
  }

  /** How many entries of `s` (counted with repetition) hold a living cell. */
  function CountLive(g: array2<int>, s: seq<(int, int)>): (n: int)
    reads g
    requires AllInGrid(g, s)
    ensures 0 <= n <= |s|
  {
    if s == [] then 0 else Live(g, s[0].0, s[0].1) + CountLive(g, s[1..])
  }

  /** No position occurs twice in `s`. */
  predicate Distinct(s: seq<(int, int)>) {
    forall a, b :: 0 <= a < b < |s| ==> s[a] != s[b]
  }

  /** The distinct living cells among the positions of `s`. */
  function LiveSet(g: array2<int>, s: seq<(int, int)>): set<(int, int)>
    reads g
  {
    set p | p in s && InGrid(g, p.0, p.1) && g[p.0, p.1] == 1
  }

  /** Distance between two coordinates on a ring of n positions. */
  function RingDistance(a: int, b: int, n: int): int {
    var d := if a >= b then a - b else b - a;
    if d <= n - d then d else n - d
  }

  /**
   * The living toroidal neighbours of (x, y), defined directly: every other
   * cell of the grid whose ring distance to (x, y) is at most 1 on both axes.
   */
  function TorusNeighbours(g: array2<int>, x: int, y: int): set<(int, int)>
    reads g
  {
    set i, j | 0 <= i < g.Length0 && 0 <= j < g.Length1 && (i, j) != (x, y)
      && RingDistance(i, x, g.Length0) <= 1 && RingDistance(j, y, g.Length1) <= 1
      && g[i, j] == 1 :: (i, j)
  }

  /**
   * Including the centre in the 3x3 sum and subtracting it afterwards is the
   * same as scanning the eight neighbour positions, on every grid size.
   */
  lemma NeighbourCountSkipsSelf(g: array2<int>, x: int, y: int)
    requires InGrid(g, x, y)
    ensures NeighbourCount(g, x, y) == CountLive(g, NeighbourCells(x, y, g.Length0, g.Length1))
    ensures var left, right, up, down := Wrap(x - 1, g.Length0), Wrap(x + 1, g.Length0), Wrap(y - 1, g.Length1), Wrap(y + 1, g.Length1);
      NeighbourCount(g, x, y)
      == Live(g, left, up) + Live(g, left, y) + Live(g, left, down) + Live(g, x, up) + Live(g, x, down)
         + Live(g, right, up) + Live(g, right, y) + Live(g, right, down)
  {
    var c, r := g.Length0, g.Length1;
    var s := NeighbourCells(x, y, c, r);
    var left, right := Wrap(x - 1, c), Wrap(x + 1, c);
    var up, down := Wrap(y - 1, r), Wrap(y + 1, r);
    assert Wrap(x + 0, c) == x && Wrap(y + 0, r) == y;
    forall di | -1 <= di <= 1
      ensures InnerSum(g, x, y, di, 2)
        == Live(g, Wrap(x + di, c), up) + Live(g, Wrap(x + di, c), y) + Live(g, Wrap(x + di, c), down)
    {
      assert InnerSum(g, x, y, di, 0) == Live(g, Wrap(x + di, c), up);
    }
    assert OuterSum(g, x, y, 0) == InnerSum(g, x, y, -1, 2);
    assert OuterSum(g, x, y, 1) == InnerSum(g, x, y, -1, 2) + InnerSum(g, x, y, 0, 2);
    calc {
      CountLive(g, s);
      Live(g, left, up) + CountLive(g, s[1..]);
      Live(g, left, up) + Live(g, left, y) + CountLive(g, s[2..]);
      { assert s[2..][1..] == s[3..]; }
      Live(g, left, up) + Live(g, left, y) + Live(g, left, down) + CountLive(g, s[3..]);
      { assert s[3..][1..] == s[4..]; }
      Live(g, left, up) + Live(g, left, y) + Live(g, left, down) + Live(g, x, up) + CountLive(g, s[4..]);
      { assert s[4..][1..] == s[5..]; }
      Live(g, left, up) + Live(g, left, y) + Live(g, left, down) + Live(g, x, up) + Live(g, x, down)
        + CountLive(g, s[5..]);
      { assert s[5..][1..] == s[6..]; }
      Live(g, left, up) + Live(g, left, y) + Live(g, left, down) + Live(g, x, up) + Live(g, x, down)
        + Live(g, right, up) + CountLive(g, s[6..]);
      { assert s[6..][1..] == s[7..]; }
      Live(g, left, up) + Live(g, left, y) + Live(g, left, down) + Live(g, x, up) + Live(g, x, down)
        + Live(g, right, up) + Live(g, right, y) + CountLive(g, s[7..]);
      { assert s[7..][1..] == []; }
      Live(g, left, up) + Live(g, left, y) + Live(g, left, down) + Live(g, x, up) + Live(g, x, down)
        + Live(g, right, up) + Live(g, right, y) + Live(g, right, down);
    }
  }

  /** The count is never below 0 nor above 8, on every grid size. */
  lemma NeighbourCountRange(g: array2<int>, x: int, y: int)
    requires InGrid(g, x, y)
    ensures 0 <= NeighbourCount(g, x, y) <= 8
  {
    NeighbourCountSkipsSelf(g, x, y);
  }

  /** The eight scanned positions are eight different cells exactly when both dimensions are at least 3. */
  lemma NeighbourCellsDistinct(x: int, y: int, cols: int, rows: int)
    requires 0 <= x < cols && 0 <= y < rows
    ensures Distinct(NeighbourCells(x, y, cols, rows)) <==> cols >= 3 && rows >= 3
  {
    var s := NeighbourCells(x, y, cols, rows);
    if cols < 3 {
      if cols == 1 {
        assert s[0] == s[3];
      } else {
        assert s[0] == s[5];
      }
    } else if rows < 3 {
      assert s[0] == s[2];
    }
  }

  /** Counting the entries of a repetition-free list is counting the set it holds. */
  lemma {:induction false} CountLiveDistinct(g: array2<int>, s: seq<(int, int)>)
    requires AllInGrid(g, s) && Distinct(s)
    ensures CountLive(g, s) == |LiveSet(g, s)|
  {
    if s != [] {
      var t := s[1..];
      assert Distinct(t) by {
        forall a, b | 0 <= a < b < |t| ensures t[a] != t[b] {
          assert t[a] == s[a + 1] && t[b] == s[b + 1];
        }
      }
      CountLiveDistinct(g, t);
      assert s[0] !in t by {
        forall k | 0 <= k < |t| ensures t[k] != s[0] {
          assert t[k] == s[k + 1];
        }
      }
      if g[s[0].0, s[0].1] == 1 {
        assert LiveSet(g, s) == {s[0]} + LiveSet(g, t);
      } else {
        assert LiveSet(g, s) == LiveSet(g, t);
      }
    }
  }

  /**
   * On a grid at least 2 wide and 2 high, the scanned positions are exactly
   * the other cells at ring distance at most 1 on both axes.
   */
  lemma NeighbourCellsAreTorusNeighbours(x: int, y: int, cols: int, rows: int, p: (int, int))
    requires 0 <= x < cols && 0 <= y < rows && cols >= 2 && rows >= 2
    ensures p in NeighbourCells(x, y, cols, rows) <==>
      0 <= p.0 < cols && 0 <= p.1 < rows && p != (x, y)
      && RingDistance(p.0, x, cols) <= 1 && RingDistance(p.1, y, rows) <= 1
  {
  }

  /**
   * On a grid at least 3 by 3, `countLivingNeighbors` is the number of living
   * cells among the eight distinct toroidal neighbours.
   */
  lemma NeighbourCountIsTorusNeighbours(g: array2<int>, x: int, y: int)
    requires InGrid(g, x, y) && g.Length0 >= 3 && g.Length1 >= 3
    ensures NeighbourCount(g, x, y) == |TorusNeighbours(g, x, y)|
  {
    var s := NeighbourCells(x, y, g.Length0, g.Length1);
    NeighbourCountSkipsSelf(g, x, y);
    NeighbourCellsDistinct(x, y, g.Length0, g.Length1);
    CountLiveDistinct(g, s);
    forall p | p in TorusNeighbours(g, x, y) ensures p in LiveSet(g, s) {
      NeighbourCellsAreTorusNeighbours(x, y, g.Length0, g.Length1, p);
    }
    forall p | p in LiveSet(g, s) ensures p in TorusNeighbours(g, x, y) {
      NeighbourCellsAreTorusNeighbours(x, y, g.Length0, g.Length1, p);
    }
    assert LiveSet(g, s) == TorusNeighbours(g, x, y);
  }

  /**
   * Wrap-around at the corners: a living (0, 0) is a neighbour of (cols-1, 0),
   * (0, rows-1) and (cols-1, rows-1).
   */
  lemma CornerWrapsAround(g: array2<int>)
    requires g.Length0 >= 3 && g.Length1 >= 3 && g[0, 0] == 1
    ensures (0, 0) in TorusNeighbours(g, g.Length0 - 1, 0)
    ensures (0, 0) in TorusNeighbours(g, 0, g.Length1 - 1)
    ensures (0, 0) in TorusNeighbours(g, g.Length0 - 1, g.Length1 - 1)
    ensures NeighbourCount(g, g.Length0 - 1, 0) >= 1
    ensures NeighbourCount(g, 0, g.Length1 - 1) >= 1
    ensures NeighbourCount(g, g.Length0 - 1, g.Length1 - 1) >= 1
  {
    var c, r := g.Length0, g.Length1;
    assert RingDistance(0, c - 1, c) == 1 && RingDistance(0, r - 1, r) == 1;
    NeighbourCountIsTorusNeighbours(g, c - 1, 0);
    NeighbourCountIsTorusNeighbours(g, 0, r - 1);
    NeighbourCountIsTorusNeighbours(g, c - 1, r - 1);
  }

  /**
   * Below 3 in either dimension the scan visits some cell twice, so the count
   * is no longer the number of distinct neighbours: a lone living cell on a
   * 1x1 grid counts itself eight times although no other cell exists.
   */
  lemma SingleCellCountsItself(g: array2<int>)
    requires g.Length0 == 1 && g.Length1 == 1 && g[0, 0] == 1
    ensures NeighbourCount(g, 0, 0) == 8
    ensures TorusNeighbours(g, 0, 0) == {}
  {
    forall di | -1 <= di <= 1 ensures InnerSum(g, 0, 0, di, 2) == 3 {
      assert InnerSum(g, 0, 0, di, 0) == 1;
      assert InnerSum(g, 0, 0, di, 1) == 2;
    }
    assert OuterSum(g, 0, 0, 0) == 3;
    assert OuterSum(g, 0, 0, 1) == 6;
  }

  /**
   * The same on a 2x2 grid: with only (1, 1) alive, the scan from (0, 0)
   * meets (1, 1) four times, while it is one distinct neighbour.
   */
  lemma TwoByTwoCountsRepeats(g: array2<int>)
    requires g.Length0 == 2 && g.Length1 == 2
    requires g[1, 1] == 1 && g[0, 0] == 0 && g[0, 1] == 0 && g[1, 0] == 0
    ensures NeighbourCount(g, 0, 0) == 4
    ensures TorusNeighbours(g, 0, 0) == {(1, 1)}
  {
    NeighbourCountSkipsSelf(g, 0, 0);
  }

  /**
   * The rule `draw` applies to one cell, as the ordered if/else of the sketch:
   * birth on exactly 3, death below 2 or above 3, otherwise unchanged.
   */
  function Rule(state: int, n: int): (next: int)
    ensures state == 0 || state == 1 ==> next == 0 || next == 1
    ensures state == 0 || state == 1 ==>
      (next == 1 <==> (state == 0 && n == 3) || (state == 1 && (n == 2 || n == 3)))
    ensures state != 0 && state != 1 ==> next == state
  {
    if state == 0 && n == 3 then 1
    else if state == 1 && (n < 2 || n > 3) then 0
    else state
  }

  /** The state cell (i, j) of `g` has after one synchronous step. */
  function NextCell(g: array2<int>, i: int, j: int): int
    reads g
    requires InGrid(g, i, j)
  {
    Rule(g[i, j], NeighbourCount(g, i, j))
  }
}
