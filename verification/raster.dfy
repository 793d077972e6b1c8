/** Raster images as the coding logic sees them: a width, a height and the
    32-bit ARGB value of every pixel (as its `int` pattern), stored row
    after row. */
module Raster {
  import opened JavaInt

  /** ViterbiBMP.BITS_PER_PIXEL: the red, green and blue bytes of a pixel. */
  const BitsPerPixel: nat := 24

  /** An image; `GetRgb(w, h)` is the pixel in column `w` of row `h`. */
  datatype Image = Image(width: nat, height: nat, pixels: seq<Word>) {

    ghost predicate Valid() {
      |pixels| == width * height
    }

    /** BufferedImage.getRGB(w, h). */
    function GetRgb(w: nat, h: nat): Word
      requires Valid() && w < width && h < height
    {
      RowMajorIndexInRange(w, h, width, height);
      pixels[h * width + w]
    }
  }

  /** The row-major position of column `w` of row `h` lies inside the image. */
  lemma RowMajorIndexInRange(w: nat, h: nat, width: nat, height: nat)
    requires w < width && h < height
    ensures h * width + w < width * height
  {
    calc {
      h * width + w;
    <
      h * width + width;
    ==
      (h + 1) * width;
    <=
      height * width;
    }
  }
}
