/**
 * The initial grid of `begin_life` in `src/conway.rs`: Random mode marks
 * `width * height` drawn positions Alive, Light and Dark modes classify each
 * pixel by luminance (`map_onto_cells`).
 *
 * The random generator is injected: `draws` lists the positions it yields, in
 * order, each within the grid as `gen_range(0..width)`, `gen_range(0..height)`
 * guarantee.
 */
module Seeding {
  import opened Wrappers
  import opened Raster
  import opened Cells
  import opened Lib

  /** The two aborts of the seeding: a mode with no seeding arm, and a luminance index other than 0 or 1. */
  datatype SeedError = UnsupportedMode | NotBilevel

  /** What the random generator can yield for a `width` × `height` image: `width * height` positions inside it. */
  predicate ValidDraws(draws: seq<Coord>, width: nat, height: nat) {
    |draws| == width * height &&
    forall i :: 0 <= i < |draws| ==> 0 <= draws[i].x < width && 0 <= draws[i].y < height
  }

  /** The set of live positions of a grid. */
  function AliveSet(cells: Grid, width: nat, height: nat): set<Coord>
    requires IsGrid(cells, width, height)
  {
    set y, x | 0 <= y < height && 0 <= x < width && cells[y][x] == Alive :: Coord(x, y)
  }

  /** The random seeding: exactly the drawn positions are Alive. */
  function RandomCells(width: nat, height: nat, draws: seq<Coord>): (cells: Grid)
    ensures IsGrid(cells, width, height)
  {
    seq(height, y => seq(width, x => if Coord(x, y) in draws then Alive else Dead))
  }

  /** The luminance seeding: the pixels in the mode's bucket are Alive (bucket 1 in Light mode, 0 in Dark mode). */
  function ThresholdCells(pix: seq<seq<Pixel>>, width: nat, height: nat, mode: Mode, bucket: Pixel -> nat)
    : (r: Result<Grid, SeedError>)
    requires IsRect(pix, width, height)
    ensures r.Ok? <==> (mode == Light || mode == Dark) && Bilevel(pix, width, height, bucket)
    ensures r.Ok? ==> IsGrid(r.value, width, height)
  {
    if !(mode == Light || mode == Dark) then Err(UnsupportedMode)
    else if !Bilevel(pix, width, height, bucket) then Err(NotBilevel)
    else Ok(seq(height, y requires 0 <= y < height =>
      seq(width, x requires 0 <= x < width => if bucket(pix[y][x]) == ColourBucket(mode) then Alive else Dead)))
  }

  /** The seeding `begin_life` performs for a mode. */
  function SeedCells(pix: seq<seq<Pixel>>, width: nat, height: nat, mode: Mode, bucket: Pixel -> nat, draws: seq<Coord>)
    : (r: Result<Grid, SeedError>)
    requires IsRect(pix, width, height)
    ensures r.Ok? ==> IsGrid(r.value, width, height)
  {
    if mode == Random then Ok(RandomCells(width, height, draws)) else ThresholdCells(pix, width, height, mode, bucket)
  }

  /**
   * The live cells of a random seeding are the drawn positions, so there are at
   * most `width * height` of them: repeated draws collapse.
   */
  lemma RandomAliveAreDraws(width: nat, height: nat, draws: seq<Coord>)
    requires ValidDraws(draws, width, height)
    ensures AliveSet(RandomCells(width, height, draws), width, height) == set i | 0 <= i < |draws| :: draws[i]
    ensures |AliveSet(RandomCells(width, height, draws), width, height)| <= width * height
  {
    var cells := RandomCells(width, height, draws);
    var drawn := set i | 0 <= i < |draws| :: draws[i];
    forall c | c in drawn
      ensures c in AliveSet(cells, width, height)
    {
      var i :| 0 <= i < |draws| && draws[i] == c;
      assert c in draws;
      assert cells[c.y][c.x] == Alive;
    }
    forall c | c in AliveSet(cells, width, height)
      ensures c in drawn
    {
      assert c in draws;
      var i :| 0 <= i < |draws| && draws[i] == c;
    }
    SetOfSeqBound(draws);
  }

  /** A sequence has at most as many distinct elements as entries. */
  lemma {:induction false} SetOfSeqBound(s: seq<Coord>)
    ensures |set i | 0 <= i < |s| :: s[i]| <= |s|
  {
    if s != [] {
      var last := |s| - 1;
      SetOfSeqBound(s[..last]);
      var front := set i | 0 <= i < last :: s[..last][i];
      assert (set i | 0 <= i < |s| :: s[i]) == front + {s[last]};
    }
  }

  /**
   * The luminance seeding in Light mode makes a pixel's cell Alive iff the pixel
   * is in bucket 1, in Dark mode iff it is in bucket 0; both abort on any other
   * index.
   */
  lemma ThresholdRule(pix: seq<seq<Pixel>>, width: nat, height: nat, mode: Mode, bucket: Pixel -> nat, x: nat, y: nat)
    requires IsRect(pix, width, height) && x < width && y < height
    requires mode == Light || mode == Dark
    ensures bucket(pix[y][x]) > 1 ==> ThresholdCells(pix, width, height, mode, bucket).Err?
    ensures ThresholdCells(pix, width, height, mode, bucket).Ok? ==>
      (ThresholdCells(pix, width, height, mode, bucket).value[y][x] == Alive <==>
        if mode == Light then bucket(pix[y][x]) == 1 else bucket(pix[y][x]) == 0)
  {
  }

  /**
   * The luminance seeding and `map_onto_whitespace` agree: a pixel keeps its
   * colour in the whitespace mapping exactly where its cell is seeded Alive.
   */
  lemma SeededCellsKeepColour(pix: seq<seq<Pixel>>, width: nat, height: nat, mode: Mode, bucket: Pixel -> nat,
                              lookup: nat -> Option<byte>, x: nat, y: nat)
    requires IsRect(pix, width, height) && x < width && y < height
    requires ThresholdCells(pix, width, height, mode, bucket).Ok?
    ensures MapOntoWhitespace(pix, width, height, mode, bucket, lookup).Ok?
    ensures var cells := ThresholdCells(pix, width, height, mode, bucket).value;
            var rgb := MapOntoWhitespace(pix, width, height, mode, bucket, lookup).value.rgb;
            cells[y][x] == Alive ==> rgb[y][x] == ToRgb(pix[y][x])
    ensures var cells := ThresholdCells(pix, width, height, mode, bucket).value;
            var rgb := MapOntoWhitespace(pix, width, height, mode, bucket, lookup).value.rgb;
            cells[y][x] == Dead ==> rgb[y][x] == White
  {
  }

  /** The random seeding loop: start all Dead, mark each drawn position Alive. */
  method RandomSeed(width: nat, height: nat, draws: seq<Coord>) returns (cells: Grid)
    requires ValidDraws(draws, width, height)
    ensures cells == RandomCells(width, height, draws)
  {
    cells := DeadGrid(width, height);
    var n := 0;
    while n < width * height
      invariant 0 <= n <= width * height
      invariant IsGrid(cells, width, height)
      invariant forall y, x :: 0 <= y < height && 0 <= x < width ==>
        cells[y][x] == if Coord(x, y) in draws[..n] then Alive else Dead
    {
      var d := draws[n];
      assert draws[..n + 1] == draws[..n] + [d];
      cells := cells[d.y := cells[d.y][d.x := Alive]];
      n := n + 1;
    }
    assert draws[..n] == draws;
    RectEqual(cells, RandomCells(width, height, draws), width, height);
  }

  /**
   * `map_onto_cells`: every pixel in row-major order; the mode's bucket marks
   * the cell Alive, the other bucket leaves it Dead, any other index aborts. A
   * mode other than Light or Dark aborts.
   */
  method MapOntoCells(img: array2<Pixel>, mode: Mode, bucket: Pixel -> nat) returns (r: Result<Grid, SeedError>)
    ensures r == ThresholdCells(Contents(img), img.Length1, img.Length0, mode, bucket)
  {
    var width, height := img.Length1, img.Length0;
    ghost var pix := Contents(img);
    if !(mode == Light || mode == Dark) {
      return Err(UnsupportedMode);
    }
    var cells := DeadGrid(width, height);
    var y := 0;
    while y < height
      invariant 0 <= y <= height
      invariant IsGrid(cells, width, height)
      invariant forall j, i :: 0 <= j < y && 0 <= i < width ==> bucket(pix[j][i]) <= 1
      invariant forall j, i :: 0 <= j < height && 0 <= i < width ==>
        cells[j][i] == if j < y && bucket(pix[j][i]) == ColourBucket(mode) then Alive else Dead
    {
      var x := 0;
      while x < width
        invariant 0 <= x <= width
        invariant IsGrid(cells, width, height)
        invariant forall j, i :: (0 <= j < y && 0 <= i < width) || (j == y && 0 <= i < x) ==> bucket(pix[j][i]) <= 1
        invariant forall j, i :: 0 <= j < height && 0 <= i < width ==>
          cells[j][i] == if (j < y || (j == y && i < x)) && bucket(pix[j][i]) == ColourBucket(mode) then Alive else Dead
      {
        var b := bucket(img[y, x]);
        if b == 0 {
          if mode == Dark {
            cells := cells[y := cells[y][x := Alive]];
          }
        } else if b == 1 {
          if mode == Light {
            cells := cells[y := cells[y][x := Alive]];
          }
        } else {
          assert bucket(pix[y][x]) > 1;
          return Err(NotBilevel);
        }
        x := x + 1;
      }
      y := y + 1;
    }
    r := Ok(cells);
    RectEqual(cells, ThresholdCells(pix, width, height, mode, bucket).value, width, height);
  }
}
