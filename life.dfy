/**
 * `begin_life` of `src/conway.rs`: seed the grid, emit five copies of the
 * starting image, then step `generations` times and emit the raster after
 * each step. Progress bars and console messages are left out.
 */
module Life {
  import opened Wrappers
  import opened Raster
  import opened Cells
  import opened Lib
  import opened Generation
  import opened Seeding

  /** The value of a universe: its grid and the contents of its raster. */
  datatype State = State(cells: Grid, pix: seq<seq<Pixel>>)

  /** The universe after `k` steps from `(cells, pix)`. */
  function Evolve(cells: Grid, pix: seq<seq<Pixel>>, width: nat, height: nat, k: nat,
                  decay: byte, blend: (Pixel, Pixel) -> Pixel): (s: State)
    requires IsGrid(cells, width, height) && IsRect(pix, width, height)
    ensures IsGrid(s.cells, width, height) && IsRect(s.pix, width, height)
  {
    if k == 0 then State(cells, pix)
    else
      var prev := Evolve(cells, pix, width, height, k - 1, decay, blend);
      State(NextGrid(prev.cells, width, height), NextRaster(prev.cells, prev.pix, width, height, decay, blend))
  }

  /** The number of copies of the starting image that open the animation. */
  const Pause := 5

  /** The frames emitted after `g` generations: five copies of `pix`, then the raster after each step. */
  function Frames(cells: Grid, pix: seq<seq<Pixel>>, width: nat, height: nat, g: nat,
                  decay: byte, blend: (Pixel, Pixel) -> Pixel): (fs: seq<seq<seq<Pixel>>>)
    requires IsGrid(cells, width, height) && IsRect(pix, width, height)
    ensures |fs| == Pause + g
  {
    if g == 0 then [pix, pix, pix, pix, pix]
    else Frames(cells, pix, width, height, g - 1, decay, blend) + [Evolve(cells, pix, width, height, g, decay, blend).pix]
  }

  /**
   * There are `5 + g` frames; the first five are the starting image, frame
   * `5 + k` is the raster after `k + 1` steps, and all have the starting size.
   */
  lemma {:induction false} FramesShape(cells: Grid, pix: seq<seq<Pixel>>, width: nat, height: nat, g: nat,
                                       decay: byte, blend: (Pixel, Pixel) -> Pixel)
    requires IsGrid(cells, width, height) && IsRect(pix, width, height)
    ensures var fs := Frames(cells, pix, width, height, g, decay, blend);
      |fs| == Pause + g &&
      (forall i :: 0 <= i < Pause ==> fs[i] == pix) &&
      (forall i :: Pause <= i < |fs| ==> fs[i] == Evolve(cells, pix, width, height, i - Pause + 1, decay, blend).pix) &&
      (forall i :: 0 <= i < |fs| ==> IsRect(fs[i], width, height))
  {
    if g > 0 {
      FramesShape(cells, pix, width, height, g - 1, decay, blend);
    }
  }

  /**
   * `begin_life`: seed the grid for `mode`, push five copies of the image, then
   * `generations` times step the universe and push a copy of its raster. A
   * seeding abort aborts the whole run.
   */
  method BeginLife(img: array2<Pixel>, generations: nat, decay: byte, mode: Mode,
                   bucket: Pixel -> nat, blend: (Pixel, Pixel) -> Pixel, draws: seq<Coord>)
    returns (r: Result<seq<seq<seq<Pixel>>>, SeedError>)
    requires generations > 0 ==> Addressable(img.Length1, img.Length0)
    requires mode == Random ==> ValidDraws(draws, img.Length1, img.Length0)
    ensures var seed := SeedCells(Contents(img), img.Length1, img.Length0, mode, bucket, draws);
      r.Ok? <==> seed.Ok?
    ensures var seed := SeedCells(Contents(img), img.Length1, img.Length0, mode, bucket, draws);
      r.Ok? ==> r.value == Frames(seed.value, Contents(img), img.Length1, img.Length0, generations, decay, blend)
  {
    var width, height := img.Length1, img.Length0;
    ghost var pix := Contents(img);
    var cells: Grid;
    if mode == Random {
      cells := RandomSeed(width, height, draws);
    } else {
      var seeded := MapOntoCells(img, mode, bucket);
      if seeded.Err? {
        return Err(seeded.error);
      }
      cells := seeded.value;
    }
    assert IsGrid(cells, width, height);
    var universe := Universe(cells, img);
    var slides: seq<seq<seq<Pixel>>> := [];
    var i := 0;
    while i < Pause
      invariant 0 <= i <= Pause
      invariant |slides| == i && forall j :: 0 <= j < i ==> slides[j] == pix
    {
      var slide := Snapshot(universe.image);
      slides := slides + [slide];
      i := i + 1;
    }
    assert slides == Frames(cells, pix, width, height, 0, decay, blend);
    var g := 0;
    while g < generations
      invariant 0 <= g <= generations
      invariant universe.image.Length0 == height && universe.image.Length1 == width
      invariant universe.cells == Evolve(cells, pix, width, height, g, decay, blend).cells
      invariant Contents(universe.image) == Evolve(cells, pix, width, height, g, decay, blend).pix
      invariant slides == Frames(cells, pix, width, height, g, decay, blend)
    {
      universe := Step(universe.cells, universe.image, width, height, decay, blend);
      var slide := Snapshot(universe.image);
      slides := slides + [slide];
      g := g + 1;
    }
    r := Ok(slides);
  }
}
