/**
 * The generation step of `src/conway.rs`: Conway's B3/S23 rule on the grid,
 * and on a copy of the raster survivors keep their pixel, newborn cells get a
 * blend of their live neighbours' old colours made opaque, and every other
 * pixel fades by a saturating alpha decay.
 *
 * `Pixel::blend` belongs to the image library and works in floating point; it
 * is the parameter `blend`, applied as `blend(destination, source)`.
 */
module Generation {
  import opened Raster
  import opened Cells

  /** The three arms of the `match` in `step`. */
  datatype Branch = Survives | Born | Fades

  /** Which arm a cell in state `s` with `n` live neighbours takes. */
  function BranchOf(s: CellState, n: nat): (b: Branch)
    ensures b == Survives <==> s == Alive && (n == 2 || n == 3)
    ensures b == Born <==> s == Dead && n == 3
  {
    match s
    case Alive => if n == 2 || n == 3 then Survives else Fades
    case Dead => if n == 3 then Born else Fades
  }

  /**
   * The alpha decay: red, green and blue are kept, alpha drops by `decay` and
   * saturates at 0 instead of wrapping.
   */
  function Decayed(p: Pixel, decay: byte): (q: Pixel)
    ensures q.r == p.r && q.g == p.g && q.b == p.b
    ensures q.a <= p.a
    ensures q.a == 0 <==> p.a <= decay
    ensures q.a != 0 ==> q.a + decay == p.a
  {
    var a := p.a;
    p.(a := if a >= decay then a - decay else 0)
  }

  /** `blended_pixel[3] = 255` */
  function Opaque(p: Pixel): (q: Pixel)
    ensures q.a == 255 && q.r == p.r && q.g == p.g && q.b == p.b
  {
    p.(a := 255)
  }

  /** `acc.blend(ps[0]); acc.blend(ps[1]); ...`: the left fold of `blend` over `ps`. */
  function BlendFold(blend: (Pixel, Pixel) -> Pixel, acc: Pixel, ps: seq<Pixel>): Pixel
    decreases |ps|
  {
    if ps == [] then acc else BlendFold(blend, blend(acc, ps[0]), ps[1..])
  }

  /** Folding one more pixel blends it onto the fold so far: the order of a loop. */
  lemma {:induction false} BlendFoldSnoc(blend: (Pixel, Pixel) -> Pixel, acc: Pixel, ps: seq<Pixel>, p: Pixel)
    ensures BlendFold(blend, acc, ps + [p]) == blend(BlendFold(blend, acc, ps), p)
    decreases |ps|
  {
    if ps == [] {
      assert [] + [p] == [p];
    } else {
      assert (ps + [p])[1..] == ps[1..] + [p];
      BlendFoldSnoc(blend, blend(acc, ps[0]), ps[1..], p);
    }
  }

  predicate CoordsWithin(coords: seq<Coord>, width: nat, height: nat) {
    forall c :: c in coords ==> 0 <= c.x < width && 0 <= c.y < height
  }

  /** The pixels of `pix` at `coords`, in order: `img.get_pixel(c.0, c.1)` for each. */
  function PixelsAt(pix: seq<seq<Pixel>>, width: nat, height: nat, coords: seq<Coord>): (ps: seq<Pixel>)
    requires IsRect(pix, width, height) && CoordsWithin(coords, width, height)
    ensures |ps| == |coords|
    ensures forall i :: 0 <= i < |coords| ==> ps[i] == pix[coords[i].y][coords[i].x]
  {
    seq(|coords|, i requires 0 <= i < |coords| => pix[coords[i].y][coords[i].x])
  }

  /** The colour of a cell born at `(x, y)`: its live neighbours' old colours blended in scan order, made opaque. */
  function BirthPixel(frame: Grid, pix: seq<seq<Pixel>>, width: nat, height: nat, x: int, y: int,
                      blend: (Pixel, Pixel) -> Pixel): (p: Pixel)
    requires IsGrid(frame, width, height) && IsRect(pix, width, height)
    ensures p.a == 255
  {
    Opaque(BlendFold(blend, Transparent, PixelsAt(pix, width, height, NeighborCoords(frame, x, y))))
  }

  /** The state of cell `(x, y)` in the next generation. */
  function NextCell(frame: Grid, x: nat, y: nat): (s: CellState)
    requires 0 <= y < |frame| && 0 <= x < |frame[y]|
    ensures s == Alive <==>
      (frame[y][x] == Alive && (NeighborCount(frame, x, y) == 2 || NeighborCount(frame, x, y) == 3)) ||
      (frame[y][x] == Dead && NeighborCount(frame, x, y) == 3)
  {
    if BranchOf(frame[y][x], NeighborCount(frame, x, y)) == Fades then Dead else Alive
  }

  /** The pixel at `(x, y)` in the next generation; every count is taken on the old grid. */
  function NextPixel(frame: Grid, pix: seq<seq<Pixel>>, width: nat, height: nat, x: nat, y: nat,
                     decay: byte, blend: (Pixel, Pixel) -> Pixel): (p: Pixel)
    requires IsGrid(frame, width, height) && IsRect(pix, width, height)
    requires x < width && y < height
    ensures NextCell(frame, x, y) == Alive && frame[y][x] == Alive ==> p == pix[y][x]
    ensures NextCell(frame, x, y) == Alive && frame[y][x] == Dead ==> p.a == 255
    ensures NextCell(frame, x, y) == Dead ==> p == Decayed(pix[y][x], decay)
  {
    match BranchOf(frame[y][x], NeighborCount(frame, x, y))
    case Survives => pix[y][x]
    case Born => BirthPixel(frame, pix, width, height, x, y, blend)
    case Fades => Decayed(pix[y][x], decay)
  }

  /** The grid of the next generation, built fresh from the old one. */
  function NextGrid(frame: Grid, width: nat, height: nat): (next: Grid)
    requires IsGrid(frame, width, height)
    ensures IsGrid(next, width, height)
  {
    seq(height, y requires 0 <= y < height => seq(width, x requires 0 <= x < width => NextCell(frame, x, y)))
  }

  /** The raster of the next generation. */
  function NextRaster(frame: Grid, pix: seq<seq<Pixel>>, width: nat, height: nat,
                      decay: byte, blend: (Pixel, Pixel) -> Pixel): (next: seq<seq<Pixel>>)
    requires IsGrid(frame, width, height) && IsRect(pix, width, height)
    ensures IsRect(next, width, height)
  {
    seq(height, y requires 0 <= y < height =>
      seq(width, x requires 0 <= x < width => NextPixel(frame, pix, width, height, x, y, decay, blend)))
  }

  // ----- what a step promises, cell by cell -----

  /** B3/S23: a cell lives next generation iff it lived with 2 or 3 live neighbours, or was dead with exactly 3. */
  lemma LifeRule(frame: Grid, width: nat, height: nat, x: nat, y: nat)
    requires IsGrid(frame, width, height) && x < width && y < height
    ensures NextGrid(frame, width, height)[y][x] == Alive <==>
      (frame[y][x] == Alive && (NeighborCount(frame, x, y) == 2 || NeighborCount(frame, x, y) == 3)) ||
      (frame[y][x] == Dead && NeighborCount(frame, x, y) == 3)
  {
  }

  /** A surviving cell keeps its old pixel exactly. */
  lemma SurvivorKeepsPixel(frame: Grid, pix: seq<seq<Pixel>>, width: nat, height: nat, x: nat, y: nat,
                           decay: byte, blend: (Pixel, Pixel) -> Pixel)
    requires IsGrid(frame, width, height) && IsRect(pix, width, height) && x < width && y < height
    requires frame[y][x] == Alive && 2 <= NeighborCount(frame, x, y) <= 3
    ensures NextGrid(frame, width, height)[y][x] == Alive
    ensures NextRaster(frame, pix, width, height, decay, blend)[y][x] == pix[y][x]
  {
  }

  /**
   * A newborn cell's pixel is the fold of `blend` from `Rgba([0; 4])` over the old
   * colours of its three live neighbours, in scan order, with alpha forced to 255.
   */
  lemma BirthBlendsThreeNeighbours(frame: Grid, pix: seq<seq<Pixel>>, width: nat, height: nat, x: nat, y: nat,
                                   decay: byte, blend: (Pixel, Pixel) -> Pixel)
    requires IsGrid(frame, width, height) && IsRect(pix, width, height) && x < width && y < height
    requires frame[y][x] == Dead && NeighborCount(frame, x, y) == 3
    ensures NextGrid(frame, width, height)[y][x] == Alive
    ensures |NeighborCoords(frame, x, y)| == 3
    ensures var cs := NeighborCoords(frame, x, y);
      Before(cs[0], cs[1]) && Before(cs[1], cs[2]) &&
      NextRaster(frame, pix, width, height, decay, blend)[y][x] ==
        Opaque(blend(blend(blend(Transparent, pix[cs[0].y][cs[0].x]), pix[cs[1].y][cs[1].x]), pix[cs[2].y][cs[2].x]))
    ensures NextRaster(frame, pix, width, height, decay, blend)[y][x].a == 255
  {
    NeighborCoordsCount(frame, x, y);
    ScanCoordsOrdered(frame, x, y, 9);
    var cs := NeighborCoords(frame, x, y);
    var ps := PixelsAt(pix, width, height, cs);
    assert ps == [ps[0]] + [ps[1]] + [ps[2]];
    BlendFoldSnoc(blend, Transparent, [ps[0]] + [ps[1]], ps[2]);
    BlendFoldSnoc(blend, Transparent, [ps[0]], ps[1]);
    BlendFoldSnoc(blend, Transparent, [], ps[0]);
    assert [] + [ps[0]] == [ps[0]];
  }

  /**
   * Every other cell is Dead next generation and its pixel fades: red, green and
   * blue are kept and alpha becomes `a - decay`, or 0 when `a < decay`.
   */
  lemma OthersFade(frame: Grid, pix: seq<seq<Pixel>>, width: nat, height: nat, x: nat, y: nat,
                   decay: byte, blend: (Pixel, Pixel) -> Pixel)
    requires IsGrid(frame, width, height) && IsRect(pix, width, height) && x < width && y < height
    requires !(frame[y][x] == Alive && 2 <= NeighborCount(frame, x, y) <= 3)
    requires !(frame[y][x] == Dead && NeighborCount(frame, x, y) == 3)
    ensures NextGrid(frame, width, height)[y][x] == Dead
    ensures var p, q := pix[y][x], NextRaster(frame, pix, width, height, decay, blend)[y][x];
      q.r == p.r && q.g == p.g && q.b == p.b &&
      q.a == if p.a < decay then 0 else p.a - decay
  {
  }

  /**
   * A birth reads the old raster at its live neighbours only: two rasters that
   * agree there give the same newborn pixel, whatever the cell's own old pixel.
   */
  lemma BirthReadsOnlyNeighbours(frame: Grid, pix: seq<seq<Pixel>>, other: seq<seq<Pixel>>, width: nat, height: nat,
                                 x: nat, y: nat, blend: (Pixel, Pixel) -> Pixel)
    requires IsGrid(frame, width, height) && IsRect(pix, width, height) && IsRect(other, width, height)
    requires forall c :: c in NeighborCoords(frame, x, y) ==> pix[c.y][c.x] == other[c.y][c.x]
    ensures BirthPixel(frame, pix, width, height, x, y, blend) == BirthPixel(frame, other, width, height, x, y, blend)
  {
    var cs := NeighborCoords(frame, x, y);
    var ps, qs := PixelsAt(pix, width, height, cs), PixelsAt(other, width, height, cs);
    forall i | 0 <= i < |cs|
      ensures ps[i] == qs[i]
    {
      assert cs[i] in cs;
    }
    assert ps == qs;
  }

  /**
   * A grid with no live cell stays all Dead and every pixel fades by the same
   * rule: the alpha of each drops by `decay`, saturating at 0.
   */
  lemma DeadGridFades(pix: seq<seq<Pixel>>, width: nat, height: nat, decay: byte, blend: (Pixel, Pixel) -> Pixel)
    requires IsRect(pix, width, height)
    ensures NextGrid(DeadGrid(width, height), width, height) == DeadGrid(width, height)
    ensures forall y, x :: 0 <= y < height && 0 <= x < width ==>
      NextRaster(DeadGrid(width, height), pix, width, height, decay, blend)[y][x] == Decayed(pix[y][x], decay)
  {
    var dead := DeadGrid(width, height);
    forall y, x | 0 <= y < height && 0 <= x < width
      ensures NeighborCount(dead, x, y) == 0
    {
      forall i, j
        ensures Live(dead, i, j) == 0
      {
      }
    }
    RectEqual(NextGrid(dead, width, height), dead, width, height);
  }

  /** A 3×3 grid whose only live cell is the centre. */
  function LoneCentre(): (g: Grid)
    ensures IsGrid(g, 3, 3)
  {
    [[Dead, Dead, Dead], [Dead, Alive, Dead], [Dead, Dead, Dead]]
  }

  /** A 3×3 grid whose top row is alive. */
  function TopRow(): (g: Grid)
    ensures IsGrid(g, 3, 3)
  {
    [[Alive, Alive, Alive], [Dead, Dead, Dead], [Dead, Dead, Dead]]
  }

  /** A lone live cell dies of under-population and nothing is born: the next grid is all Dead. */
  lemma LoneCellDies()
    ensures NextGrid(LoneCentre(), 3, 3) == DeadGrid(3, 3)
  {
    var g := LoneCentre();
    forall y, x | 0 <= y < 3 && 0 <= x < 3
      ensures NextGrid(g, 3, 3)[y][x] == Dead
    {
      assert NeighborCount(g, x, y) <= 1;
    }
    RectEqual(NextGrid(g, 3, 3), DeadGrid(3, 3), 3, 3);
  }

  /**
   * Below the middle of a live top row a cell is born, coloured by blending the
   * three top pixels from left to right and made opaque.
   */
  lemma TopRowBirth(pix: seq<seq<Pixel>>, decay: byte, blend: (Pixel, Pixel) -> Pixel)
    requires IsRect(pix, 3, 3)
    ensures NextGrid(TopRow(), 3, 3)[1][1] == Alive
    ensures NextRaster(TopRow(), pix, 3, 3, decay, blend)[1][1] ==
      Opaque(blend(blend(blend(Transparent, pix[0][0]), pix[0][1]), pix[0][2]))
  {
    var g := TopRow();
    TopRowNeighbours();
    BirthBlendsThreeNeighbours(g, pix, 3, 3, 1, 1, decay, blend);
  }

  /** The centre of a live top row has the three top cells as neighbours, listed left to right. */
  lemma TopRowNeighbours()
    ensures TopRow()[1][1] == Dead && NeighborCount(TopRow(), 1, 1) == 3
    ensures NeighborCoords(TopRow(), 1, 1) == [Coord(0, 0), Coord(1, 0), Coord(2, 0)]
  {
    var g := TopRow();
    assert ScanCoords(g, 1, 1, 3) == [Coord(0, 0), Coord(1, 0), Coord(2, 0)];
    assert ScanCoords(g, 1, 1, 6) == ScanCoords(g, 1, 1, 3);
  }

  // ----- the imperative step -----

  /**
   * The loop that colours a newborn cell: starting from `Rgba([0; 4])`, blend the
   * old pixel at each coordinate onto it, in order.
   */
  method BlendCoords(img: array2<Pixel>, coords: seq<Coord>, blend: (Pixel, Pixel) -> Pixel) returns (blended: Pixel)
    requires CoordsWithin(coords, img.Length1, img.Length0)
    ensures blended == BlendFold(blend, Transparent, PixelsAt(Contents(img), img.Length1, img.Length0, coords))
  {
    ghost var pix := Contents(img);
    blended := Transparent;
    var i := 0;
    while i < |coords|
      invariant 0 <= i <= |coords|
      invariant blended == BlendFold(blend, Transparent, PixelsAt(pix, img.Length1, img.Length0, coords[..i]))
    {
      var c := coords[i];
      assert coords[..i + 1] == coords[..i] + [c];
      assert PixelsAt(pix, img.Length1, img.Length0, coords[..i + 1]) ==
        PixelsAt(pix, img.Length1, img.Length0, coords[..i]) + [img[c.y, c.x]];
      BlendFoldSnoc(blend, Transparent, PixelsAt(pix, img.Length1, img.Length0, coords[..i]), img[c.y, c.x]);
      blended := blend(blended, img[c.y, c.x]);
      i := i + 1;
    }
    assert coords[..|coords|] == coords;
  }

  /**
   * The body of the loops of `step` for cell `(x, y)`: one arm of the `match`,
   * writing the next state into `cells` and the next pixel into `nextImg`,
   * which still holds the old pixel there.
   */
  method StepCell(frame: Grid, img: array2<Pixel>, nextImg: array2<Pixel>, cells: Grid, width: nat, height: nat,
                  x: nat, y: nat, decay: byte, blend: (Pixel, Pixel) -> Pixel)
    returns (cells': Grid)
    requires IsGrid(frame, width, height) && img.Length0 == height && img.Length1 == width
    requires Addressable(width, height) && x < width && y < height
    requires nextImg != img && nextImg.Length0 == height && nextImg.Length1 == width
    requires nextImg[y, x] == img[y, x]
    requires IsGrid(cells, width, height) && cells[y][x] == Dead
    modifies nextImg
    ensures cells' == cells[y := cells[y][x := NextCell(frame, x, y)]]
    ensures nextImg[y, x] == NextPixel(frame, Contents(img), width, height, x, y, decay, blend)
    ensures forall j, i :: 0 <= j < height && 0 <= i < width && (j != y || i != x) ==> nextImg[j, i] == old(nextImg[j, i])
  {
    cells' := cells;
    var n := Neighbors(x, y, frame);
    if frame[y][x] == Alive && (n == 2 || n == 3) {
      cells' := cells'[y := cells'[y][x := Alive]];
    } else if frame[y][x] == Dead && n == 3 {
      var coords := NeighborsCoords(x, y, frame, width, height);
      var blended := BlendCoords(img, coords, blend);
      blended := blended.(a := 255);
      nextImg[y, x] := blended;
      cells' := cells'[y := cells'[y][x := Alive]];
    } else {
      var pixel := nextImg[y, x];
      nextImg[y, x] := Decayed(pixel, decay);
      assert cells'[y][x := Dead] == cells'[y];
      assert cells'[y := cells'[y][x := Dead]] == cells';
    }
  }

  /**
   * `step`: a fresh all-Dead grid and a clone of the raster are filled in row by
   * row, every neighbour count being taken on the old grid `frame`.
   */
  method Step(frame: Grid, img: array2<Pixel>, width: nat, height: nat, decay: byte, blend: (Pixel, Pixel) -> Pixel)
    returns (next: Universe)
    requires IsGrid(frame, width, height) && img.Length0 == height && img.Length1 == width
    requires Addressable(width, height)
    ensures fresh(next.image) && next.image.Length0 == height && next.image.Length1 == width
    ensures next.cells == NextGrid(frame, width, height)
    ensures Contents(next.image) == NextRaster(frame, Contents(img), width, height, decay, blend)
  {
    ghost var pix := Contents(img);
    var nextImg := CloneImage(img);
    var nextFrame := DeadGrid(width, height);
    var y := 0;
    while y < height
      invariant 0 <= y <= height
      invariant IsGrid(nextFrame, width, height)
      invariant Contents(img) == pix
      invariant forall j, i :: 0 <= j < height && 0 <= i < width ==>
        nextFrame[j][i] == if j < y then NextCell(frame, i, j) else Dead
      invariant forall j, i :: 0 <= j < height && 0 <= i < width ==>
        nextImg[j, i] == if j < y then NextPixel(frame, pix, width, height, i, j, decay, blend) else img[j, i]
    {
      var x := 0;
      while x < width
        invariant 0 <= x <= width
        invariant IsGrid(nextFrame, width, height)
        invariant Contents(img) == pix
        invariant forall j, i :: 0 <= j < height && 0 <= i < width ==>
          nextFrame[j][i] == if j < y || (j == y && i < x) then NextCell(frame, i, j) else Dead
        invariant forall j, i :: 0 <= j < height && 0 <= i < width ==>
          nextImg[j, i] == if j < y || (j == y && i < x) then NextPixel(frame, pix, width, height, i, j, decay, blend) else img[j, i]
      {
        nextFrame := StepCell(frame, img, nextImg, nextFrame, width, height, x, y, decay, blend);
        x := x + 1;
      }
      y := y + 1;
    }
    RectEqual(nextFrame, NextGrid(frame, width, height), width, height);
    RectEqual(Contents(nextImg), NextRaster(frame, pix, width, height, decay, blend), width, height);
    next := Universe(nextFrame, nextImg);
  }
}
