/**
 * Colours and raster images shared by the renderer, the differencer and the
 * compositor. An image is a grid of rows of RGB pixels, as Pillow's "RGB" mode.
 */
module Raster {

  /** One 8-bit colour channel. */
  type Byte = x: int | 0 <= x < 256

  datatype RGB = RGB(red: Byte, green: Byte, blue: Byte)

  const WHITE: RGB := RGB(255, 255, 255)
  const BLACK: RGB := RGB(0, 0, 0)

  /** An RGB image: `pixels[y][x]` is the pixel in row `y` and column `x`. */
  datatype Image = Image(width: nat, height: nat, pixels: seq<seq<RGB>>) {

    /** The grid has `height` rows of `width` pixels each. */
    predicate Valid() {
      |pixels| == height && forall y :: 0 <= y < |pixels| ==> |pixels[y]| == width
    }
  }
}
