/**
 * The grid store: allocation of a zero grid (`make2DArray`) and the grid
 * dimensions derived from a canvas size at the fixed cell resolution.
 */
module GridStore {

  /** Size of one cell in pixels (`resolution`). */
  const Resolution: int := 15

  /** `Math.max(1, n)`. */
  function AtLeastOne(n: int): int {
    if n < 1 then 1 else n
  }

  /**
   * `Math.floor(pixels / resolution)`, raised to 1 when it is 0 or negative,
   * as `setup` and `windowResized` compute `cols` and `rows`.
   */
  function GridDimension(pixels: int): (n: int)
    ensures n >= 1
    ensures pixels >= Resolution ==> Resolution * n <= pixels < Resolution * (n + 1)
    ensures pixels < 2 * Resolution ==> n == 1
  {
    var n := pixels / Resolution;
    if n <= 0 then 1 else n
  }

  /**
   * `make2DArray(cols, rows)`: a fresh grid of `max(1, cols)` columns and
   * `max(1, rows)` rows, every cell filled with 0 by two nested loops.
   */
  method Make2DArray(cols: int, rows: int) returns (arr: array2<int>)
    ensures fresh(arr)
    ensures arr.Length0 == AtLeastOne(cols) && arr.Length1 == AtLeastOne(rows)
    ensures forall i, j :: 0 <= i < arr.Length0 && 0 <= j < arr.Length1 ==> arr[i, j] == 0
  {
    var c, r := AtLeastOne(cols), AtLeastOne(rows);
    arr := new int[c, r];
    for i := 0 to c
      invariant forall a, b :: 0 <= a < i && 0 <= b < r ==> arr[a, b] == 0
    {
      for j := 0 to r
        invariant forall a, b :: 0 <= a < i && 0 <= b < r ==> arr[a, b] == 0
        invariant forall b :: 0 <= b < j ==> arr[i, b] == 0
      {
        arr[i, j] := 0;
      }
    }
  }
}
