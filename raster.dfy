/**
 * Pixels and rasters shared by the image helpers and the life engine.
 * An RGBA image buffer is an `array2<Pixel>` indexed `[y, x]`: `Length0` is the
 * height and `Length1` the width. Its value at one moment is a row-major
 * `seq<seq<Pixel>>`.
 */
module Raster {
  /** An 8-bit channel value. */
  type byte = x: int | 0 <= x < 256

  /** `Rgba<u8>`: four independent 8-bit channels. */
  datatype Pixel = Rgba(r: byte, g: byte, b: byte, a: byte)

  /** `Rgb<u8>`: the pixel type of an RGB image. */
  datatype Rgb = Rgb(r: byte, g: byte, b: byte)

  /** `Rgba([0; 4])`: the start value of a blend. */
  const Transparent := Rgba(0, 0, 0, 0)

  /** `[255, 255, 255]` */
  const White := Rgb(255, 255, 255)

  /** The four channels of a pixel, in memory order. */
  datatype Channel = R | G | B | A

  function Ch(p: Pixel, c: Channel): byte {
    match c
    case R => p.r
    case G => p.g
    case B => p.b
    case A => p.a
  }

  /** `to_rgb8` on an RGBA pixel: the alpha channel is dropped. */
  function ToRgb(p: Pixel): Rgb {
    Rgb(p.r, p.g, p.b)
  }

  /** `rows` holds `h` rows of exactly `w` entries each. */
  predicate IsRect<T>(rows: seq<seq<T>>, w: nat, h: nat) {
    |rows| == h && forall y :: 0 <= y < h ==> |rows[y]| == w
  }

  /** The row-major contents of an image buffer. */
  ghost function Contents<T>(img: array2<T>): (rows: seq<seq<T>>)
    reads img
    ensures IsRect(rows, img.Length1, img.Length0)
    ensures forall y, x :: 0 <= y < img.Length0 && 0 <= x < img.Length1 ==> rows[y][x] == img[y, x]
  {
    seq(img.Length0, y reads img requires 0 <= y < img.Length0 =>
      seq(img.Length1, x reads img requires 0 <= x < img.Length1 => img[y, x]))
  }

  /** Two rasters of the same shape that agree everywhere are equal. */
  lemma RectEqual<T>(s: seq<seq<T>>, t: seq<seq<T>>, w: nat, h: nat)
    requires IsRect(s, w, h) && IsRect(t, w, h)
    requires forall y, x :: 0 <= y < h && 0 <= x < w ==> s[y][x] == t[y][x]
    ensures s == t
  {
    forall y | 0 <= y < h
      ensures s[y] == t[y]
    {
      assert forall x :: 0 <= x < w ==> s[y][x] == t[y][x];
    }
  }

  /**
   * `img.clone()`: a fresh buffer with the same contents.
   */
  method CloneImage<T>(img: array2<T>) returns (copy: array2<T>)
    ensures fresh(copy)
    ensures copy.Length0 == img.Length0 && copy.Length1 == img.Length1
    ensures forall y, x :: 0 <= y < img.Length0 && 0 <= x < img.Length1 ==> copy[y, x] == img[y, x]
  {
    copy := new T[img.Length0, img.Length1]((y, x) reads img requires 0 <= y < img.Length0 && 0 <= x < img.Length1 => img[y, x]);
  }

  /**
   * `.clone()` of an image pushed onto a frame list: the value of the buffer now.
   */
  method Snapshot<T>(img: array2<T>) returns (rows: seq<seq<T>>)
    ensures rows == Contents(img)
  {
    rows := [];
    var y := 0;
    while y < img.Length0
      invariant 0 <= y <= img.Length0
      invariant |rows| == y
      invariant forall i :: 0 <= i < y ==> rows[i] == Contents(img)[i]
    {
      var line: seq<T> := [];
      var x := 0;
      while x < img.Length1
        invariant 0 <= x <= img.Length1
        invariant line == Contents(img)[y][..x]
      {
        line := line + [img[y, x]];
        x := x + 1;
      }
      rows := rows + [line];
      y := y + 1;
    }
  }
}
