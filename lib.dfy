/**
 * The colouring mode and the luminance split of `src/lib.rs`.
 *
 * The luminance classification (`to_luma8` followed by `index_colors` with the
 * `BiLevel` palette) belongs to the image library; it is the parameter
 * `bucket`, which gives each pixel its palette index. `BiLevel`'s colour lookup
 * is the parameter `lookup`.
 */
module Lib {
  import opened Wrappers
  import opened Raster

  /**
   * The seeding and colouring mode. `src/lib.rs` declares Light, Dark and
   * Monochrome; `src/conway.rs` and `src/main.rs` also match on Random.
   */
  datatype Mode = Light | Dark | Random | Monochrome

  /** The two aborts of `map_onto_whitespace`: `panic!()` on an index other than 0 or 1, and `expect` on a failed lookup. */
  datatype Panic = BucketOutOfRange | ColourOutOfRange

  /** An RGB image (Light and Dark modes) or a single-channel image (every other mode). */
  datatype Mapped = ColourImage(rgb: seq<seq<Rgb>>) | LumaImage(luma: seq<seq<byte>>)

  /** Every pixel of the image falls into bucket 0 or bucket 1. */
  predicate Bilevel(pix: seq<seq<Pixel>>, width: nat, height: nat, bucket: Pixel -> nat)
    requires IsRect(pix, width, height)
  {
    forall y, x :: 0 <= y < height && 0 <= x < width ==> bucket(pix[y][x]) <= 1
  }

  /** Every pixel's index has a colour in the palette. */
  predicate AllInPalette(pix: seq<seq<Pixel>>, width: nat, height: nat, bucket: Pixel -> nat, lookup: nat -> Option<byte>)
    requires IsRect(pix, width, height)
  {
    forall y, x :: 0 <= y < height && 0 <= x < width ==> lookup(bucket(pix[y][x])).Some?
  }

  /**
   * The bucket a mode keeps in colour, and the one `begin_life` seeds alive:
   * the light bucket 1 in Light mode, the dark bucket 0 in Dark mode.
   */
  function ColourBucket(mode: Mode): nat
    requires mode == Light || mode == Dark
  {
    if mode == Light then 1 else 0
  }

  /**
   * `map_onto_whitespace`: in Light mode, bucket 0 becomes white and bucket 1
   * keeps its colour; Dark mode swaps the two; any other index aborts. Every
   * other mode maps each index through the palette.
   */
  function MapOntoWhitespace(pix: seq<seq<Pixel>>, width: nat, height: nat, mode: Mode,
                             bucket: Pixel -> nat, lookup: nat -> Option<byte>): (r: Result<Mapped, Panic>)
    requires IsRect(pix, width, height)
    ensures (mode == Light || mode == Dark) ==> (r.Ok? <==> Bilevel(pix, width, height, bucket))
    ensures (mode == Random || mode == Monochrome) ==> (r.Ok? <==> AllInPalette(pix, width, height, bucket, lookup))
    ensures r.Ok? && (mode == Light || mode == Dark) ==> r.value.ColourImage? && IsRect(r.value.rgb, width, height)
    ensures r.Ok? && (mode == Random || mode == Monochrome) ==> r.value.LumaImage? && IsRect(r.value.luma, width, height)
  {
    match mode
    case Light | Dark =>
      if Bilevel(pix, width, height, bucket) then
        Ok(ColourImage(seq(height, y requires 0 <= y < height =>
          seq(width, x requires 0 <= x < width =>
            if bucket(pix[y][x]) == ColourBucket(mode) then ToRgb(pix[y][x]) else White))))
      else Err(BucketOutOfRange)
    case _ =>
      if AllInPalette(pix, width, height, bucket, lookup) then
        Ok(LumaImage(seq(height, y requires 0 <= y < height =>
          seq(width, x requires 0 <= x < width => lookup(bucket(pix[y][x])).value))))
      else Err(ColourOutOfRange)
  }

  /**
   * The Light and Dark mappings split every pixel between them: where one keeps
   * the original colour the other paints white. In Light mode bucket 0 is white
   * and bucket 1 coloured.
   */
  lemma LightDarkComplement(pix: seq<seq<Pixel>>, width: nat, height: nat, bucket: Pixel -> nat,
                            lookup: nat -> Option<byte>, x: nat, y: nat)
    requires IsRect(pix, width, height) && Bilevel(pix, width, height, bucket)
    requires x < width && y < height
    ensures var light := MapOntoWhitespace(pix, width, height, Light, bucket, lookup).value.rgb[y][x];
            var dark := MapOntoWhitespace(pix, width, height, Dark, bucket, lookup).value.rgb[y][x];
            (bucket(pix[y][x]) == 0 ==> light == White && dark == ToRgb(pix[y][x])) &&
            (bucket(pix[y][x]) == 1 ==> light == ToRgb(pix[y][x]) && dark == White)
  {
  }

  /** One pixel outside buckets 0 and 1 is enough to abort the Light and Dark mappings. */
  lemma StrayBucketAborts(pix: seq<seq<Pixel>>, width: nat, height: nat, mode: Mode, bucket: Pixel -> nat,
                          lookup: nat -> Option<byte>, x: nat, y: nat)
    requires IsRect(pix, width, height) && x < width && y < height
    requires mode == Light || mode == Dark
    requires bucket(pix[y][x]) > 1
    ensures MapOntoWhitespace(pix, width, height, mode, bucket, lookup) == Err(BucketOutOfRange)
  {
  }
}
