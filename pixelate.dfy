/**
 * `pixelate` of `src/lib.rs`: the image is cut into square blocks of side
 * `width / output_width`, and each block becomes one pixel holding the floor
 * of the mean of each channel over the block. Rows and columns that do not
 * fill a whole block are dropped.
 */
module Pixelate {
  import opened Wrappers
  import opened Raster
  import opened Arith

  /** `width / output_width` with `output_width == 0`, or `height / sub_image_width` with a block side of 0. */
  datatype PixelateError = DivisionByZero

  /** The `cols` × `rows` block with top-left corner `(x0, y0)` lies inside `pix`. */
  predicate BlockInside(pix: seq<seq<Pixel>>, x0: nat, y0: nat, cols: nat, rows: nat) {
    y0 + rows <= |pix| && forall j :: y0 <= j < y0 + rows ==> x0 + cols <= |pix[j]|
  }

  /** Channel `c` summed over the `n` pixels of row `y` from column `x0` on. */
  function RowSum(pix: seq<seq<Pixel>>, c: Channel, y: nat, x0: nat, n: nat): nat
    requires y < |pix| && x0 + n <= |pix[y]|
  {
    if n == 0 then 0 else RowSum(pix, c, y, x0, n - 1) + Ch(pix[y][x0 + n - 1], c)
  }

  /** Channel `c` summed over the block, row after row: the value of the source's accumulator. */
  function BlockSum(pix: seq<seq<Pixel>>, c: Channel, x0: nat, y0: nat, cols: nat, rows: nat): nat
    requires BlockInside(pix, x0, y0, cols, rows)
  {
    if rows == 0 then 0 else BlockSum(pix, c, x0, y0, cols, rows - 1) + RowSum(pix, c, y0 + rows - 1, x0, cols)
  }

  /** Every pixel of the block has channel `c` between `lo` and `hi`. */
  predicate ChannelWithin(pix: seq<seq<Pixel>>, c: Channel, x0: nat, y0: nat, cols: nat, rows: nat, lo: int, hi: int)
    requires BlockInside(pix, x0, y0, cols, rows)
  {
    forall j, i :: y0 <= j < y0 + rows && x0 <= i < x0 + cols ==> lo <= Ch(pix[j][i], c) <= hi
  }

  lemma {:induction false} RowSumWithin(pix: seq<seq<Pixel>>, c: Channel, y: nat, x0: nat, n: nat, lo: int, hi: int)
    requires y < |pix| && x0 + n <= |pix[y]|
    requires forall i :: x0 <= i < x0 + n ==> lo <= Ch(pix[y][i], c) <= hi
    ensures lo * n <= RowSum(pix, c, y, x0, n) <= hi * n
  {
    if n > 0 {
      RowSumWithin(pix, c, y, x0, n - 1, lo, hi);
      Distrib(lo, n - 1, 1);
      Distrib(hi, n - 1, 1);
    }
  }

  /** A block sum lies between `lo` and `hi` times the number of pixels when every pixel does. */
  lemma {:induction false} BlockSumWithin(pix: seq<seq<Pixel>>, c: Channel, x0: nat, y0: nat, cols: nat, rows: nat,
                                          lo: int, hi: int)
    requires BlockInside(pix, x0, y0, cols, rows)
    requires ChannelWithin(pix, c, x0, y0, cols, rows, lo, hi)
    ensures lo * (cols * rows) <= BlockSum(pix, c, x0, y0, cols, rows) <= hi * (cols * rows)
  {
    if rows > 0 {
      BlockSumWithin(pix, c, x0, y0, cols, rows - 1, lo, hi);
      RowSumWithin(pix, c, y0 + rows - 1, x0, cols, lo, hi);
      var m := cols * (rows - 1);
      assert cols * rows == m + cols by {
        Distrib(cols, rows - 1, 1);
      }
      Distrib(lo, m, cols);
      Distrib(hi, m, cols);
    }
  }

  /** Floor division of a value between `lo * n` and `hi * n` by `n` lies between `lo` and `hi`. */
  lemma DivWithin(s: nat, n: nat, lo: int, hi: int)
    requires n > 0 && lo * n <= s <= hi * n
    ensures lo <= s / n <= hi
  {
    var q := s / n;
    FloorBounds(s, n);
    if q < lo {
      MulMono(q + 1, lo, n);
    } else if q > hi {
      MulMono(hi + 1, q, n);
    }
  }

  /** One channel of a block pixel: the floor of the block's mean, which always fits in a byte. */
  function ChannelAverage(pix: seq<seq<Pixel>>, c: Channel, x0: nat, y0: nat, sw: nat): (v: byte)
    requires sw > 0 && BlockInside(pix, x0, y0, sw, sw)
    ensures v * (sw * sw) <= BlockSum(pix, c, x0, y0, sw, sw) < (v + 1) * (sw * sw)
  {
    BlockSumWithin(pix, c, x0, y0, sw, sw, 0, 255);
    DivWithin(BlockSum(pix, c, x0, y0, sw, sw), sw * sw, 0, 255);
    FloorBounds(BlockSum(pix, c, x0, y0, sw, sw), sw * sw);
    BlockSum(pix, c, x0, y0, sw, sw) / (sw * sw)
  }

  /** The pixel that replaces the `sw` × `sw` block at `(x0, y0)`. */
  function BlockAverage(pix: seq<seq<Pixel>>, x0: nat, y0: nat, sw: nat): (q: Pixel)
    requires sw > 0 && BlockInside(pix, x0, y0, sw, sw)
    ensures forall c :: Ch(q, c) == ChannelAverage(pix, c, x0, y0, sw)
  {
    Rgba(ChannelAverage(pix, R, x0, y0, sw), ChannelAverage(pix, G, x0, y0, sw),
         ChannelAverage(pix, B, x0, y0, sw), ChannelAverage(pix, A, x0, y0, sw))
  }

  /**
   * The block read for output pixel `(x, y)` lies inside the source:
   * `x * sw + sw <= width` and `y * sw + sw <= height`.
   */
  lemma BlockFits(width: nat, height: nat, outputWidth: nat, x: nat, y: nat)
    requires 0 < outputWidth <= width
    requires x < outputWidth && y < height / (width / outputWidth)
    ensures var sw := width / outputWidth; x * sw + sw <= width && y * sw + sw <= height
  {
    var sw := width / outputWidth;
    FloorBounds(width, outputWidth);
    assert sw > 0 by {
      MulMono(1, outputWidth, 1);
    }
    FloorBounds(height, sw);
    Distrib(sw, x, 1);
    MulMono(x + 1, outputWidth, sw);
    Distrib(sw, y, 1);
    MulMono(y + 1, height / sw, sw);
  }

  /** So the block of output pixel `(x, y)` can be averaged. */
  lemma BlockInRaster(pix: seq<seq<Pixel>>, width: nat, height: nat, outputWidth: nat, x: nat, y: nat)
    requires IsRect(pix, width, height) && 0 < outputWidth <= width
    requires x < outputWidth && y < height / (width / outputWidth)
    ensures var sw := width / outputWidth; sw > 0 && BlockInside(pix, x * sw, y * sw, sw, sw)
  {
    DivIsZero(width, outputWidth);
    BlockFits(width, height, outputWidth, x, y);
  }

  /** The pixelated image: `output_width` × `height / sw` block averages, `sw = width / output_width`. */
  function Pixelated(pix: seq<seq<Pixel>>, width: nat, height: nat, outputWidth: nat): (out: seq<seq<Pixel>>)
    requires IsRect(pix, width, height) && 0 < outputWidth <= width
    ensures IsRect(out, outputWidth, height / (width / outputWidth))
  {
    var sw := width / outputWidth;
    DivIsZero(width, outputWidth);
    seq(height / sw, y requires 0 <= y < height / sw =>
      seq(outputWidth, x requires 0 <= x < outputWidth =>
        BlockInRaster(pix, width, height, outputWidth, x, y);
        BlockAverage(pix, x * sw, y * sw, sw)))
  }

  // ----- what pixelation promises -----

  /**
   * Each output channel lies between the smallest and the largest value of
   * that channel in its block.
   */
  lemma AverageWithinBlock(pix: seq<seq<Pixel>>, c: Channel, x0: nat, y0: nat, sw: nat, lo: int, hi: int)
    requires sw > 0 && BlockInside(pix, x0, y0, sw, sw)
    requires ChannelWithin(pix, c, x0, y0, sw, sw, lo, hi)
    ensures lo <= Ch(BlockAverage(pix, x0, y0, sw), c) <= hi
  {
    BlockSumWithin(pix, c, x0, y0, sw, sw, lo, hi);
    DivWithin(BlockSum(pix, c, x0, y0, sw, sw), sw * sw, lo, hi);
  }

  /** A block whose pixels are all `p` becomes `p`. */
  lemma UniformBlock(pix: seq<seq<Pixel>>, x0: nat, y0: nat, sw: nat, p: Pixel)
    requires sw > 0 && BlockInside(pix, x0, y0, sw, sw)
    requires forall j, i :: y0 <= j < y0 + sw && x0 <= i < x0 + sw ==> pix[j][i] == p
    ensures BlockAverage(pix, x0, y0, sw) == p
  {
    forall c
      ensures Ch(BlockAverage(pix, x0, y0, sw), c) == Ch(p, c)
    {
      AverageWithinBlock(pix, c, x0, y0, sw, Ch(p, c), Ch(p, c));
    }
  }

  /**
   * The output of `pixelate` is `output_width` wide and `height / sw` tall, and
   * its pixel `(x, y)` averages the block at `(x * sw, y * sw)` of the source.
   */
  lemma PixelatedPixel(pix: seq<seq<Pixel>>, width: nat, height: nat, outputWidth: nat, x: nat, y: nat)
    requires IsRect(pix, width, height) && 0 < outputWidth <= width
    requires x < outputWidth && y < height / (width / outputWidth)
    ensures var sw := width / outputWidth;
      x * sw + sw <= width && y * sw + sw <= height &&
      Pixelated(pix, width, height, outputWidth)[y][x] == BlockAverage(pix, x * sw, y * sw, sw)
  {
    BlockFits(width, height, outputWidth, x, y);
  }

  // ----- the imperative pixelation -----

  /**
   * The four accumulators of `pixelate` over one block, adding the block's
   * pixels row after row.
   */
  method SumBlock(img: array2<Pixel>, x0: nat, y0: nat, sw: nat) returns (rs: nat, gs: nat, bs: nat, as': nat)
    requires x0 + sw <= img.Length1 && y0 + sw <= img.Length0
    ensures BlockInside(Contents(img), x0, y0, sw, sw)
    ensures rs == BlockSum(Contents(img), R, x0, y0, sw, sw) && gs == BlockSum(Contents(img), G, x0, y0, sw, sw)
    ensures bs == BlockSum(Contents(img), B, x0, y0, sw, sw) && as' == BlockSum(Contents(img), A, x0, y0, sw, sw)
  {
    ghost var pix := Contents(img);
    rs, gs, bs, as' := 0, 0, 0, 0;
    var j := 0;
    while j < sw
      invariant 0 <= j <= sw
      invariant BlockInside(pix, x0, y0, sw, j)
      invariant rs == BlockSum(pix, R, x0, y0, sw, j) && gs == BlockSum(pix, G, x0, y0, sw, j)
      invariant bs == BlockSum(pix, B, x0, y0, sw, j) && as' == BlockSum(pix, A, x0, y0, sw, j)
    {
      var i := 0;
      while i < sw
        invariant 0 <= i <= sw
        invariant rs == BlockSum(pix, R, x0, y0, sw, j) + RowSum(pix, R, y0 + j, x0, i)
        invariant gs == BlockSum(pix, G, x0, y0, sw, j) + RowSum(pix, G, y0 + j, x0, i)
        invariant bs == BlockSum(pix, B, x0, y0, sw, j) + RowSum(pix, B, y0 + j, x0, i)
        invariant as' == BlockSum(pix, A, x0, y0, sw, j) + RowSum(pix, A, y0 + j, x0, i)
      {
        var p := img[y0 + j, x0 + i];
        rs, gs, bs, as' := rs + p.r, gs + p.g, bs + p.b, as' + p.a;
        i := i + 1;
      }
      j := j + 1;
    }
  }

  /** One output pixel of `pixelate`: each accumulator divided by `sub_image_area`, cast to a byte. */
  method AverageBlock(img: array2<Pixel>, x0: nat, y0: nat, sw: nat) returns (p: Pixel)
    requires sw > 0 && x0 + sw <= img.Length1 && y0 + sw <= img.Length0
    ensures BlockInside(Contents(img), x0, y0, sw, sw)
    ensures p == BlockAverage(Contents(img), x0, y0, sw)
  {
    var area := sw * sw;
    var rs, gs, bs, as' := SumBlock(img, x0, y0, sw);
    ChannelAverageIsQuotient(Contents(img), x0, y0, sw);
    p := Rgba(rs / area, gs / area, bs / area, as' / area);
  }

  /**
   * `pixelate`: an `output_width` × `height / sw` image, zero-filled, whose pixel
   * `(x, y)` is set to the average of the block at `(x * sw, y * sw)`. Both
   * divisions by zero of the source abort.
   */
  method Pixelate(img: array2<Pixel>, outputWidth: nat) returns (r: Result<array2<Pixel>, PixelateError>)
    ensures r.Err? <==> outputWidth == 0 || outputWidth > img.Length1
    ensures r.Ok? ==>
      0 < outputWidth <= img.Length1 && Contents(r.value) == Pixelated(Contents(img), img.Length1, img.Length0, outputWidth)
  {
    var width, height := img.Length1, img.Length0;
    ghost var pix := Contents(img);
    if outputWidth == 0 {
      return Err(DivisionByZero);
    }
    var sw := width / outputWidth;
    DivIsZero(width, outputWidth);
    if sw == 0 {
      return Err(DivisionByZero);
    }
    var outputHeight := height / sw;
    ghost var target := Pixelated(pix, width, height, outputWidth);
    var out := new Pixel[outputHeight, outputWidth]((_, _) => Transparent);
    var y := 0;
    while y < outputHeight
      invariant 0 <= y <= outputHeight
      invariant forall j, i :: 0 <= j < y && 0 <= i < outputWidth ==> out[j, i] == target[j][i]
    {
      PixelateRow(img, out, outputWidth, y);
      y := y + 1;
    }
    RectEqual(Contents(out), target, outputWidth, outputHeight);
    r := Ok(out);
  }

  /** Row `y` of the output of `pixelate`: one block average per column, the other rows untouched. */
  method PixelateRow(img: array2<Pixel>, out: array2<Pixel>, outputWidth: nat, y: nat)
    requires out != img && 0 < outputWidth <= img.Length1
    requires out.Length1 == outputWidth && y < out.Length0 == img.Length0 / (img.Length1 / outputWidth)
    modifies out
    ensures forall i :: 0 <= i < outputWidth ==>
      out[y, i] == Pixelated(Contents(img), img.Length1, img.Length0, outputWidth)[y][i]
    ensures forall j, i :: 0 <= j < out.Length0 && j != y && 0 <= i < outputWidth ==> out[j, i] == old(out[j, i])
  {
    var width, height := img.Length1, img.Length0;
    ghost var pix := Contents(img);
    var sw := width / outputWidth;
    DivIsZero(width, outputWidth);
    var x := 0;
    while x < outputWidth
      invariant 0 <= x <= outputWidth
      invariant Contents(img) == pix
      invariant forall i :: 0 <= i < x ==> out[y, i] == Pixelated(pix, width, height, outputWidth)[y][i]
      invariant forall j, i :: 0 <= j < out.Length0 && j != y && 0 <= i < outputWidth ==> out[j, i] == old(out[j, i])
    {
      BlockFits(width, height, outputWidth, x, y);
      var average := AverageBlock(img, x * sw, y * sw, sw);
      out[y, x] := average;
      PixelatedPixel(pix, width, height, outputWidth, x, y);
      x := x + 1;
    }
  }

  /** The channels of a block average are the quotients of the block sums by the block area. */
  lemma ChannelAverageIsQuotient(pix: seq<seq<Pixel>>, x0: nat, y0: nat, sw: nat)
    requires sw > 0 && BlockInside(pix, x0, y0, sw, sw)
    ensures forall c :: BlockSum(pix, c, x0, y0, sw, sw) / (sw * sw) == Ch(BlockAverage(pix, x0, y0, sw), c)
  {
    forall c
      ensures BlockSum(pix, c, x0, y0, sw, sw) / (sw * sw) == Ch(BlockAverage(pix, x0, y0, sw), c)
    {
      var v := ChannelAverage(pix, c, x0, y0, sw);
      FloorUnique(BlockSum(pix, c, x0, y0, sw, sw), sw * sw, v);
    }
  }

  // ----- the accumulators as written: u32 -----

  /** `u32` additions wrap modulo 2^32 in a release build. */
  const U32Modulus := 0x1_0000_0000

  /** Channel `c` of `n` pixels of row `y` added to `acc` in a `u32`, each `+=` wrapping. */
  function WrappingRowSum(pix: seq<seq<Pixel>>, c: Channel, y: nat, x0: nat, n: nat, acc: nat): (s: nat)
    requires y < |pix| && x0 + n <= |pix[y]|
    ensures n > 0 ==> s < U32Modulus
  {
    if n == 0 then acc else (WrappingRowSum(pix, c, y, x0, n - 1, acc) + Ch(pix[y][x0 + n - 1], c)) % U32Modulus
  }

  /** The source's accumulator over the block as written: one `u32` that wraps on overflow. */
  function WrappingBlockSum(pix: seq<seq<Pixel>>, c: Channel, x0: nat, y0: nat, cols: nat, rows: nat): (s: nat)
    requires BlockInside(pix, x0, y0, cols, rows)
    ensures s < U32Modulus
  {
    if rows == 0 then 0
    else WrappingRowSum(pix, c, y0 + rows - 1, x0, cols, WrappingBlockSum(pix, c, x0, y0, cols, rows - 1))
  }

  /** One output channel as written: the wrapped sum divided by the block area, cast to `u8`. */
  function WrappingChannelAverage(pix: seq<seq<Pixel>>, c: Channel, x0: nat, y0: nat, sw: nat): (v: byte)
    requires sw > 0 && BlockInside(pix, x0, y0, sw, sw)
    ensures v == (BlockSum(pix, c, x0, y0, sw, sw) % U32Modulus / (sw * sw)) % 256
  {
    WrappingBlockSumIsMod(pix, c, x0, y0, sw, sw);
    (WrappingBlockSum(pix, c, x0, y0, sw, sw) / (sw * sw)) % 256
  }

  lemma ModAdd(a: nat, b: nat)
    ensures (a % U32Modulus + b) % U32Modulus == (a + b) % U32Modulus
  {
    var q := a / U32Modulus;
    assert a == q * U32Modulus + a % U32Modulus;
  }

  lemma {:induction false} WrappingRowSumIsMod(pix: seq<seq<Pixel>>, c: Channel, y: nat, x0: nat, n: nat, acc: nat)
    requires y < |pix| && x0 + n <= |pix[y]| && acc < U32Modulus
    ensures WrappingRowSum(pix, c, y, x0, n, acc) == (acc + RowSum(pix, c, y, x0, n)) % U32Modulus
  {
    if n > 0 {
      WrappingRowSumIsMod(pix, c, y, x0, n - 1, acc);
      ModAdd(acc + RowSum(pix, c, y, x0, n - 1), Ch(pix[y][x0 + n - 1], c));
    }
  }

  /** The wrapping accumulator holds the true block sum modulo 2^32. */
  lemma {:induction false} WrappingBlockSumIsMod(pix: seq<seq<Pixel>>, c: Channel, x0: nat, y0: nat, cols: nat, rows: nat)
    requires BlockInside(pix, x0, y0, cols, rows)
    ensures WrappingBlockSum(pix, c, x0, y0, cols, rows) == BlockSum(pix, c, x0, y0, cols, rows) % U32Modulus
  {
    if rows > 0 {
      WrappingBlockSumIsMod(pix, c, x0, y0, cols, rows - 1);
      var prev := BlockSum(pix, c, x0, y0, cols, rows - 1);
      WrappingRowSumIsMod(pix, c, y0 + rows - 1, x0, cols, prev % U32Modulus);
      ModAdd(prev, RowSum(pix, c, y0 + rows - 1, x0, cols));
    }
  }

  /**
   * A white 4105 × 4105 image pixelated to width 1: the red sum 255 * 4105^2
   * exceeds 2^32, the accumulator as written wraps, and the block averages to
   * 0 instead of 255.
   */
  lemma WhiteBlockWraps(pix: seq<seq<Pixel>>)
    requires IsRect(pix, 4105, 4105)
    requires forall y, x :: 0 <= y < 4105 && 0 <= x < 4105 ==> pix[y][x] == Rgba(255, 255, 255, 255)
    ensures BlockInside(pix, 0, 0, 4105, 4105)
    ensures WrappingChannelAverage(pix, R, 0, 0, 4105) == 0
    ensures BlockAverage(pix, 0, 0, 4105).r == 255
  {
    assert BlockInside(pix, 0, 0, 4105, 4105);
    BlockSumWithin(pix, R, 0, 0, 4105, 4105, 255, 255);
    WrappingBlockSumIsMod(pix, R, 0, 0, 4105, 4105);
    assert BlockSum(pix, R, 0, 0, 4105, 4105) == 4297011375;
    assert WrappingBlockSum(pix, R, 0, 0, 4105, 4105) == 2044079;
    UniformBlock(pix, 0, 0, 4105, Rgba(255, 255, 255, 255));
  }
}
