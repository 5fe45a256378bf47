/**
 * Two-dimensional pixel grids standing for `cv::Mat`: colour images (three 8-bit
 * channels) and single-channel 8-bit masks, stored row by row.
 */
module Raster {
  import opened Geometry

  /** An unsigned 8-bit channel value (`uchar`). */
  type Byte = v: int | 0 <= v < 256

  /** A colour pixel in OpenCV's BGR channel order. */
  datatype Pixel = Pixel(b: Byte, g: Byte, r: Byte)

  /** The fill value of a freshly allocated, zero-initialised colour image. */
  const Black := Pixel(0, 0, 0)

  /** A grid of rows; `g[i][j]` is the value at row `i`, column `j`. */
  type Grid<T> = seq<seq<T>>

  type Image = Grid<Pixel>
  type Mask = Grid<Byte>

  /** `g` has `h` rows of `w` columns each. */
  predicate HasSize<T>(g: Grid<T>, h: nat, w: nat) {
    |g| == h && forall i :: 0 <= i < h ==> |g[i]| == w
  }

  function Rows<T>(g: Grid<T>): nat { |g| }
  function Cols<T>(g: Grid<T>): nat { if |g| == 0 then 0 else |g[0]| }

  /** Every row of `g` is as long as the first: `g` is a proper matrix. */
  predicate IsGrid<T>(g: Grid<T>) { HasSize(g, Rows(g), Cols(g)) }

  /** `a` and `b` have the same number of rows and columns (`a.size() == b.size()`). */
  predicate SameSize<T, U>(a: Grid<T>, b: Grid<U>) {
    IsGrid(a) && HasSize(b, Rows(a), Cols(a))
  }

  /** `Mat(size, type, v)`: an `h` by `w` grid filled with `v`. */
  function Filled<T>(h: nat, w: nat, v: T): (g: Grid<T>)
    ensures HasSize(g, h, w)
    ensures forall i, j :: 0 <= i < h && 0 <= j < w ==> g[i][j] == v
  {
    seq(h, i => seq(w, j => v))
  }

  /** Every value of a mask is exactly 0 or 255. */
  predicate IsBinary(m: Mask) {
    forall i, j :: 0 <= i < |m| && 0 <= j < |m[i]| ==> m[i][j] == 0 || m[i][j] == 255
  }

  /**
   * The outline-drawing routine of the imaging library (`cv::rectangle` with a
   * fixed colour and thickness), kept abstract: it takes the image and the two
   * corners and returns the image with the outline drawn on it.
   */
  type Painter = (Image, Point, Point) -> Image

  /** All an outline painter is known to do: draw within the image, keeping its size. */
  ghost predicate KeepsSize(paint: Painter) {
    forall img, a, b :: IsGrid(img) ==> SameSize(img, paint(img, a, b))
  }
}
