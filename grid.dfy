/** The pixel grid the scanners read, and its rows and columns. */
module Grid {
  import opened Pixels

  /** An image of `width` by `height` pixels, stored as `height` rows of
      `width` pixels each and indexed `pixels[y][x]`. The dimensions are
      kept apart from the rows so that an image with no rows still has a
      width. */
  datatype Image = Image(width: nat, height: nat, pixels: seq<seq<Pixel>>)
  {
    predicate Valid()
    {
      |pixels| == height &&
      forall y :: 0 <= y < height ==> |pixels[y]| == width
    }
  }

  predicate SameSize(a: Image, b: Image)
  {
    a.width == b.width && a.height == b.height
  }

  /** The pixels of row `y`, left to right (`crop((0, y, width, y + 1))`). */
  function Row(img: Image, y: nat): (row: seq<Pixel>)
    requires img.Valid() && y < img.height
    ensures |row| == img.width
  {
    img.pixels[y]
  }

  /** The pixels of column `x`, top to bottom (`crop((x, 0, x + 1, height))`). */
  function Column(img: Image, x: nat): (col: seq<Pixel>)
    requires img.Valid() && x < img.width
    ensures |col| == img.height
    ensures forall y :: 0 <= y < img.height ==> col[y] == img.pixels[y][x]
  {
    seq(img.height, y requires 0 <= y < img.height => img.pixels[y][x])
  }

  /** All columns, left to right. */
  function Columns(img: Image): (cols: seq<seq<Pixel>>)
    requires img.Valid()
    ensures |cols| == img.width
    ensures forall x :: 0 <= x < img.width ==> cols[x] == Column(img, x)
  {
    seq(img.width, x requires 0 <= x < img.width => Column(img, x))
  }

  /** A sequence read from its far end. */
  function Reverse<T>(s: seq<T>): (r: seq<T>)
    ensures |r| == |s|
    ensures forall i :: 0 <= i < |s| ==> r[i] == s[|s| - 1 - i]
  {
    seq(|s|, i requires 0 <= i < |s| => s[|s| - 1 - i])
  }

  predicate RowIsBorder(img: Image, y: nat, threshold: int)
    requires img.Valid() && y < img.height
  {
    AllBorder(Row(img, y), threshold)
  }

  predicate ColumnIsBorder(img: Image, x: nat, threshold: int)
    requires img.Valid() && x < img.width
  {
    AllBorder(Column(img, x), threshold)
  }

  /** Every pixel of the image is border (vacuously so when a dimension is 0). */
  ghost predicate AllPixelsBorder(img: Image, threshold: int)
    requires img.Valid()
  {
    forall y, x :: 0 <= y < img.height && 0 <= x < img.width ==> IsBorder(img.pixels[y][x], threshold)
  }

  /** The image holds a pixel that is not border. */
  ghost predicate HasContent(img: Image, threshold: int)
    requires img.Valid()
  {
    exists y, x :: 0 <= y < img.height && 0 <= x < img.width && !IsBorder(img.pixels[y][x], threshold)
  }
}
