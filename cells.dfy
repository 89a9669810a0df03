/**
 * Cell states, the life grid and the Moore neighbourhood of `src/conway.rs`:
 * `neighbors` counts the live cells around a position and `neighbors_coords`
 * lists them in scan order. Edges are hard: positions outside the grid are
 * skipped, there is no wrap-around.
 */
module Cells {
  import opened Raster

  datatype CellState = Alive | Dead

  /** `Vec<Vec<CellState>>`, indexed `cells[y][x]`. */
  type Grid = seq<seq<CellState>>

  /** A position `(x, y)` in the grid. */
  datatype Coord = Coord(x: int, y: int)

  /** One generation: the grid and the RGBA raster of the same size. */
  datatype Universe = Universe(cells: Grid, image: array2<Pixel>)

  /** Largest `i16`: the neighbourhood scan does its coordinate arithmetic in `i16`. */
  const I16Max := 32767

  /**
   * The dimensions whose coordinates, and the coordinates one past them, fit in an
   * `i16`; wider or taller grids make the casts of the scan wrap around.
   */
  predicate Addressable(width: nat, height: nat) {
    width <= I16Max && height <= I16Max
  }

  /** `height` rows of exactly `width` cells. */
  predicate IsGrid(cells: Grid, width: nat, height: nat) {
    IsRect(cells, width, height)
  }

  /** A grid of the given size with every cell Dead: `vec![vec!(Dead; width); height]`. */
  function DeadGrid(width: nat, height: nat): (cells: Grid)
    ensures IsGrid(cells, width, height)
    ensures forall y, x :: 0 <= y < height && 0 <= x < width ==> cells[y][x] == Dead
  {
    seq(height, _ => seq(width, _ => Dead))
  }

  predicate InBounds(cells: Grid, x: int, y: int) {
    0 <= y < |cells| && 0 <= x < |cells[y]|
  }

  /** 1 for a position inside the grid holding a live cell, 0 otherwise (outside included). */
  function Live(cells: Grid, x: int, y: int): nat {
    if InBounds(cells, x, y) && cells[y][x] == Alive then 1 else 0
  }

  /**
   * The number of live cells among the eight positions around `(col, row)`:
   * the Moore neighbourhood, the cell itself excluded, outside positions skipped.
   */
  function NeighborCount(cells: Grid, col: int, row: int): (n: nat)
    ensures n <= 8
  {
    Live(cells, col - 1, row - 1) + Live(cells, col, row - 1) + Live(cells, col + 1, row - 1) +
    Live(cells, col - 1, row)                                 + Live(cells, col + 1, row) +
    Live(cells, col - 1, row + 1) + Live(cells, col, row + 1) + Live(cells, col + 1, row + 1)
  }

  /**
   * The `k`-th position (0 to 8) of the 3×3 block around `(col, row)`, scanned
   * with `y` in the outer loop and `x` in the inner one, both ascending.
   */
  function ScanAt(col: int, row: int, k: nat): (c: Coord)
    requires k < 9
  {
    if k < 3 then Coord(col + k - 1, row - 1)
    else if k < 6 then Coord(col + k - 4, row)
    else Coord(col + k - 7, row + 1)
  }

  /** Scan order: earlier row first, then earlier column. */
  predicate Before(c: Coord, d: Coord) {
    c.y < d.y || (c.y == d.y && c.x < d.x)
  }

  /** Whether `c` lies in the 3×3 block centred on `(col, row)`. */
  predicate InBlock(col: int, row: int, c: Coord) {
    col - 1 <= c.x <= col + 1 && row - 1 <= c.y <= row + 1
  }

  /** The number of live cells among the first `k` positions of the scan, the centre included. */
  function ScanTotal(cells: Grid, col: int, row: int, k: nat): (n: nat)
    requires k <= 9
    ensures n <= k
  {
    if k == 0 then 0
    else
      var c := ScanAt(col, row, k - 1);
      ScanTotal(cells, col, row, k - 1) + Live(cells, c.x, c.y)
  }

  /**
   * The live positions among the first `k` positions of the scan, in scan
   * order. The centre is not excluded.
   */
  function ScanCoords(cells: Grid, col: int, row: int, k: nat): seq<Coord>
    requires k <= 9
  {
    if k == 0 then []
    else
      var c := ScanAt(col, row, k - 1);
      ScanCoords(cells, col, row, k - 1) + (if Live(cells, c.x, c.y) == 1 then [c] else [])
  }

  /** The scan lists as many positions as it counts. */
  lemma {:induction false} ScanCoordsLength(cells: Grid, col: int, row: int, k: nat)
    requires k <= 9
    ensures |ScanCoords(cells, col, row, k)| == ScanTotal(cells, col, row, k)
  {
    if k > 0 {
      ScanCoordsLength(cells, col, row, k - 1);
    }
  }

  /** Only live in-grid positions of the block are listed. */
  lemma {:induction false} ScanCoordsSound(cells: Grid, col: int, row: int, k: nat)
    requires k <= 9
    ensures forall c :: c in ScanCoords(cells, col, row, k) ==> InBlock(col, row, c) && InBounds(cells, c.x, c.y) && cells[c.y][c.x] == Alive
  {
    if k > 0 {
      ScanCoordsSound(cells, col, row, k - 1);
    }
  }

  /** The scan lists positions in strictly ascending scan order, none after position `k - 1`. */
  lemma {:induction false} ScanCoordsOrdered(cells: Grid, col: int, row: int, k: nat)
    requires k <= 9
    ensures 0 < k ==> forall i :: 0 <= i < |ScanCoords(cells, col, row, k)| ==>
      Before(ScanCoords(cells, col, row, k)[i], ScanAt(col, row, k - 1)) || ScanCoords(cells, col, row, k)[i] == ScanAt(col, row, k - 1)
    ensures forall i, j :: 0 <= i < j < |ScanCoords(cells, col, row, k)| ==>
      Before(ScanCoords(cells, col, row, k)[i], ScanCoords(cells, col, row, k)[j])
  {
    if k > 0 {
      ScanCoordsOrdered(cells, col, row, k - 1);
      assert 1 < k ==> Before(ScanAt(col, row, k - 2), ScanAt(col, row, k - 1));
    }
  }

  /** Every live in-grid position among the first `k` of the scan is listed. */
  lemma {:induction false} ScanCoordsComplete(cells: Grid, col: int, row: int, k: nat)
    requires k <= 9
    ensures forall j :: 0 <= j < k && Live(cells, ScanAt(col, row, j).x, ScanAt(col, row, j).y) == 1 ==>
      ScanAt(col, row, j) in ScanCoords(cells, col, row, k)
  {
    if k > 0 {
      ScanCoordsComplete(cells, col, row, k - 1);
    }
  }

  /**
   * The coordinates of the live cells of the 3×3 block around `(col, row)`, in
   * scan order: the value of `neighbors_coords`.
   */
  function NeighborCoords(cells: Grid, col: int, row: int): (cs: seq<Coord>)
    ensures forall c :: c in cs ==> InBlock(col, row, c) && InBounds(cells, c.x, c.y) && cells[c.y][c.x] == Alive
  {
    ScanCoordsSound(cells, col, row, 9);
    ScanCoords(cells, col, row, 9)
  }

  /** A scan position written as an index: `(x, y)` is position `3 * (y - row + 1) + (x - col + 1)`. */
  lemma ScanIndex(col: int, row: int, x: int, y: int)
    requires InBlock(col, row, Coord(x, y))
    ensures 3 * (y - row + 1) + (x - col + 1) < 9
    ensures ScanAt(col, row, 3 * (y - row + 1) + (x - col + 1)) == Coord(x, y)
  {
  }

  /** One step of the scan at `(x, y)`: the position is counted and listed iff it is a live in-grid cell. */
  lemma ScanStep(cells: Grid, col: int, row: int, x: int, y: int)
    requires InBlock(col, row, Coord(x, y))
    ensures var k := 3 * (y - row + 1) + (x - col + 1);
      k < 9 &&
      ScanTotal(cells, col, row, k + 1) == ScanTotal(cells, col, row, k) + (if InBounds(cells, x, y) && cells[y][x] == Alive then 1 else 0) &&
      ScanCoords(cells, col, row, k + 1) ==
        ScanCoords(cells, col, row, k) + (if InBounds(cells, x, y) && cells[y][x] == Alive then [Coord(x, y)] else [])
  {
    ScanIndex(col, row, x, y);
  }

  /**
   * The full 3×3 scan counts the centre once more than the Moore count: this is
   * why `neighbors` subtracts the centre's own state before scanning.
   */
  lemma {:induction false} ScanTotalIsCountPlusCentre(cells: Grid, col: int, row: int)
    ensures ScanTotal(cells, col, row, 9) == NeighborCount(cells, col, row) + Live(cells, col, row)
  {
    calc {
      ScanTotal(cells, col, row, 9);
      ScanTotal(cells, col, row, 8) + Live(cells, col + 1, row + 1);
      ScanTotal(cells, col, row, 7) + Live(cells, col, row + 1) + Live(cells, col + 1, row + 1);
      ScanTotal(cells, col, row, 6) + Live(cells, col - 1, row + 1) + Live(cells, col, row + 1) + Live(cells, col + 1, row + 1);
      { assert ScanTotal(cells, col, row, 6) == ScanTotal(cells, col, row, 5) + Live(cells, col + 1, row);
        assert ScanTotal(cells, col, row, 5) == ScanTotal(cells, col, row, 4) + Live(cells, col, row);
        assert ScanTotal(cells, col, row, 4) == ScanTotal(cells, col, row, 3) + Live(cells, col - 1, row);
        assert ScanTotal(cells, col, row, 3) == ScanTotal(cells, col, row, 2) + Live(cells, col + 1, row - 1);
        assert ScanTotal(cells, col, row, 2) == ScanTotal(cells, col, row, 1) + Live(cells, col, row - 1);
        assert ScanTotal(cells, col, row, 1) == Live(cells, col - 1, row - 1); }
      NeighborCount(cells, col, row) + Live(cells, col, row);
    }
  }

  /**
   * The coordinates listed for a position number its Moore count plus one for
   * a live centre; for a Dead centre, the only case in which `step` asks for
   * them, exactly the Moore count.
   */
  lemma NeighborCoordsCount(cells: Grid, col: int, row: int)
    ensures |NeighborCoords(cells, col, row)| == NeighborCount(cells, col, row) + Live(cells, col, row)
    ensures Live(cells, col, row) == 0 ==> |NeighborCoords(cells, col, row)| == NeighborCount(cells, col, row)
  {
    ScanCoordsLength(cells, col, row, 9);
    ScanTotalIsCountPlusCentre(cells, col, row);
  }

  /**
   * `NeighborCoords` lists exactly the live in-grid positions of the 3×3 block,
   * each once, in strictly ascending scan order.
   */
  lemma NeighborCoordsExact(cells: Grid, col: int, row: int, c: Coord)
    ensures c in NeighborCoords(cells, col, row) <==> InBlock(col, row, c) && InBounds(cells, c.x, c.y) && cells[c.y][c.x] == Alive
    ensures forall i, j :: 0 <= i < j < |NeighborCoords(cells, col, row)| ==>
      Before(NeighborCoords(cells, col, row)[i], NeighborCoords(cells, col, row)[j])
  {
    ScanCoordsOrdered(cells, col, row, 9);
    if InBlock(col, row, c) && InBounds(cells, c.x, c.y) && cells[c.y][c.x] == Alive {
      ScanIndex(col, row, c.x, c.y);
      ScanCoordsComplete(cells, col, row, 9);
    }
  }

  /**
   * The centre's own state never enters its count: setting the cell at
   * `(col, row)` to any state leaves `NeighborCount(col, row)` as it was.
   */
  lemma CentreNotCounted(cells: Grid, col: int, row: int, s: CellState)
    requires InBounds(cells, col, row)
    ensures NeighborCount(cells[row := cells[row][col := s]], col, row) == NeighborCount(cells, col, row)
  {
    var updated := cells[row := cells[row][col := s]];
    forall x, y | (x, y) != (col, row)
      ensures Live(updated, x, y) == Live(cells, x, y)
    {
    }
  }

  /**
   * The count reads nothing but the in-grid positions of the 3×3 block: two
   * grids of the same shape that agree there give the same count, whatever the
   * rest of the grid, the opposite edge included, holds. There is no wrap-around.
   */
  lemma CountIsLocal(cells: Grid, other: Grid, col: int, row: int)
    requires |cells| == |other| && forall y :: 0 <= y < |cells| ==> |cells[y]| == |other[y]|
    requires forall x, y ::
      col - 1 <= x <= col + 1 && row - 1 <= y <= row + 1 && (x != col || y != row) && InBounds(cells, x, y)
      ==> cells[y][x] == other[y][x]
    ensures NeighborCount(cells, col, row) == NeighborCount(other, col, row)
  {
    forall x, y | col - 1 <= x <= col + 1 && row - 1 <= y <= row + 1 && (x != col || y != row)
      ensures Live(cells, x, y) == Live(other, x, y)
    {
      if InBounds(cells, x, y) {
        assert cells[y][x] == other[y][x];
      }
    }
  }

  /**
   * Positions outside the grid are skipped: a cell on any edge has at most five
   * neighbours, a cell in any corner at most three.
   */
  lemma EdgeCounts(cells: Grid, col: int, row: int)
    requires |cells| > 0 && IsGrid(cells, |cells[0]|, |cells|) && InBounds(cells, col, row)
    ensures (col == 0 || row == 0 || col == |cells[0]| - 1 || row == |cells| - 1) ==> NeighborCount(cells, col, row) <= 5
    ensures (col == 0 || col == |cells[0]| - 1) && (row == 0 || row == |cells| - 1) ==> NeighborCount(cells, col, row) <= 3
  {
  }

  /**
   * `neighbors`: the number of live cells around `(col, row)`. The total starts at
   * -1 for a live centre, the full 3×3 block is then scanned, so the centre's own
   * contribution cancels and the total ends non-negative before its cast to `u8`.
   */
  method Neighbors(col: int, row: int, cells: Grid) returns (n: nat)
    requires 0 <= row < |cells| && IsGrid(cells, |cells[0]|, |cells|)
    requires 0 <= col < |cells[0]|
    requires Addressable(|cells[0]|, |cells|)
    ensures n == NeighborCount(cells, col, row)
    ensures n <= 8
  {
    var height, width := |cells|, |cells[0]|;
    var total: int := 0;
    if cells[row][col] == Alive {
      total := total - 1;
    }
    var y := row - 1;
    while y <= row + 1
      invariant row - 1 <= y <= row + 2
      invariant total == ScanTotal(cells, col, row, 3 * (y - row + 1)) - Live(cells, col, row)
    {
      total := CountRow(col, row, cells, width, height, y, total);
      y := y + 1;
    }
    ScanTotalIsCountPlusCentre(cells, col, row);
    n := total;
  }

  /** The inner loop of `neighbors`: row `y` of the block added to the running total. */
  method CountRow(col: int, row: int, cells: Grid, width: nat, height: nat, y: int, total: int) returns (total': int)
    requires IsGrid(cells, width, height) && row - 1 <= y <= row + 1
    ensures total' == total + ScanTotal(cells, col, row, 3 * (y - row + 1) + 3) - ScanTotal(cells, col, row, 3 * (y - row + 1))
  {
    total' := total;
    var x := col - 1;
    while x <= col + 1
      invariant col - 1 <= x <= col + 2
      invariant total' == total + ScanTotal(cells, col, row, 3 * (y - row + 1) + (x - col + 1)) - ScanTotal(cells, col, row, 3 * (y - row + 1))
    {
      ScanStep(cells, col, row, x, y);
      if x < 0 || y < 0 || x >= width || y >= height {
        assert !InBounds(cells, x, y);
      } else if cells[y][x] == Alive {
        total' := total' + 1;
      }
      x := x + 1;
    }
  }

  /**
   * `neighbors_coords`: the live positions of the 3×3 block around `(col, row)`
   * inside a `width` × `height` grid, pushed in scan order. The centre is not
   * excluded. Only the `i16` arithmetic `row ± 1`, `col ± 1` limits `(col, row)`.
   */
  method NeighborsCoords(col: int, row: int, cells: Grid, width: nat, height: nat) returns (coords: seq<Coord>)
    requires IsGrid(cells, width, height) && Addressable(width, height)
    requires -I16Max <= col < I16Max && -I16Max <= row < I16Max
    ensures coords == NeighborCoords(cells, col, row)
  {
    coords := [];
    var y := row - 1;
    while y <= row + 1
      invariant row - 1 <= y <= row + 2
      invariant coords == ScanCoords(cells, col, row, 3 * (y - row + 1))
    {
      coords := CollectRow(col, row, cells, width, height, y, coords);
      y := y + 1;
    }
  }

  /** The inner loop of `neighbors_coords`: the live cells of row `y` of the block pushed in order. */
  method CollectRow(col: int, row: int, cells: Grid, width: nat, height: nat, y: int, coords: seq<Coord>)
    returns (coords': seq<Coord>)
    requires IsGrid(cells, width, height) && row - 1 <= y <= row + 1
    requires coords == ScanCoords(cells, col, row, 3 * (y - row + 1))
    ensures coords' == ScanCoords(cells, col, row, 3 * (y - row + 1) + 3)
  {
    coords' := coords;
    var x := col - 1;
    while x <= col + 1
      invariant col - 1 <= x <= col + 2
      invariant coords' == ScanCoords(cells, col, row, 3 * (y - row + 1) + (x - col + 1))
    {
      ScanStep(cells, col, row, x, y);
      if x < 0 || y < 0 || x >= width || y >= height {
        assert !InBounds(cells, x, y);
      } else if cells[y][x] == Alive {
        coords' := coords' + [Coord(x, y)];
      }
      x := x + 1;
    }
  }
}
