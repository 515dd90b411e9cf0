/** `unletterbox`: the four scans on the grayscale view, the crop box built
    from their counts, and the crop of the original image. */
module Cropper {
  import opened Pixels
  import opened Grid
  import opened EdgeScan

  /** The four counts, one per edge. */
  datatype Borders = Borders(top: nat, bottom: nat, left: nat, right: nat)

  /** A crop rectangle in the (left, upper, right, lower) form of `Image.crop`:
      columns `x0 .. x1-1` of rows `y0 .. y1-1`. */
  datatype Box = Box(x0: int, y0: int, x1: int, y1: int)

  /** A box whose right edge lies left of its left edge, or whose lower edge
      lies above its upper edge. */
  predicate Inverted(box: Box)
  {
    box.x1 < box.x0 || box.y1 < box.y0
  }

  /** A box that is not inverted and lies inside an image. */
  predicate InsideImage(img: Image, box: Box)
  {
    0 <= box.x0 <= box.x1 <= img.width && 0 <= box.y0 <= box.y1 <= img.height
  }

  /** What `unletterbox` yields: the cropped original, or, when the box is
      inverted, only that box (what the image library then does is not
      part of this model). */
  datatype Outcome = Cropped(image: Image) | InvertedBox(box: Box)

  /** The counts of the four scanners on one image. */
  function Offsets(gray: Image, threshold: int): (b: Borders)
    requires gray.Valid()
    ensures b.top <= gray.height && b.bottom <= gray.height
    ensures b.left <= gray.width && b.right <= gray.width
  {
    Borders(TopBorder(gray, threshold), BottomBorder(gray, threshold),
            LeftBorder(gray, threshold), RightBorder(gray, threshold))
  }

  /** The box `(left, top, width - right, height - bottom)`. */
  function CropBox(width: nat, height: nat, b: Borders): (box: Box)
    ensures b.left <= width && b.right <= width ==> 0 <= box.x0 <= width && 0 <= box.x1 <= width
    ensures b.top <= height && b.bottom <= height ==> 0 <= box.y0 <= height && 0 <= box.y1 <= height
    ensures Inverted(box) <==> b.left + b.right > width || b.top + b.bottom > height
  {
    Box(b.left, b.top, width - b.right, height - b.bottom)
  }

  /** The sub-image that a box inside the image selects; pixel values are
      copied unchanged. */
  function Crop(img: Image, box: Box): (r: Image)
    requires img.Valid() && InsideImage(img, box)
    ensures r.Valid()
    ensures r.width == box.x1 - box.x0 && r.height == box.y1 - box.y0
    ensures forall y, x :: 0 <= y < r.height && 0 <= x < r.width ==>
              r.pixels[y][x] == img.pixels[box.y0 + y][box.x0 + x]
  {
    Image(box.x1 - box.x0, box.y1 - box.y0,
          seq(box.y1 - box.y0, y requires 0 <= y < box.y1 - box.y0 => img.pixels[box.y0 + y][box.x0 .. box.x1]))
  }

  /** The result of `unletterbox` on an image whose luminance view is `gray`. */
  function UnletterboxOutcome(original: Image, gray: Image, threshold: int): (r: Outcome)
    requires original.Valid() && gray.Valid() && SameSize(original, gray)
    ensures var b := Offsets(gray, threshold);
            r.Cropped? ==>
              r.image.Valid() &&
              r.image.width == original.width - b.left - b.right &&
              r.image.height == original.height - b.top - b.bottom
    ensures r.InvertedBox? <==>
              Inverted(CropBox(original.width, original.height, Offsets(gray, threshold)))
  {
    var box := CropBox(original.width, original.height, Offsets(gray, threshold));
    if Inverted(box) then InvertedBox(box) else Cropped(Crop(original, box))
  }

  /** `unletterbox`: scan the luminance view from all four edges, then crop
      the original to what is left. */
  method Unletterbox(original: Image, gray: Image, threshold: int) returns (borders: Borders, result: Outcome)
    requires original.Valid() && gray.Valid() && SameSize(original, gray)
    ensures borders == Offsets(gray, threshold)
    ensures IsTopRun(gray, threshold, borders.top) && IsBottomRun(gray, threshold, borders.bottom)
    ensures IsLeftRun(gray, threshold, borders.left) && IsRightRun(gray, threshold, borders.right)
    ensures result == UnletterboxOutcome(original, gray, threshold)
  {
    var top := DetectTopBorder(gray, threshold);
    var bottom := DetectBottomBorder(gray, threshold);
    var left := DetectLeftBorder(gray, threshold);
    var right := DetectRightBorder(gray, threshold);
    borders := Borders(top, bottom, left, right);
    var box := CropBox(original.width, original.height, borders);
    if Inverted(box) {
      result := InvertedBox(box);
    } else {
      result := Cropped(Crop(original, box));
    }
  }

  // Properties of the box and of the crop.

  /** Zero counts give the box of the whole image, and cropping to it
      changes nothing. */
  lemma ZeroBordersKeepWholeImage(img: Image)
    requires img.Valid()
    ensures CropBox(img.width, img.height, Borders(0, 0, 0, 0)) == Box(0, 0, img.width, img.height)
    ensures Crop(img, Box(0, 0, img.width, img.height)) == img
  {
    var c := Crop(img, Box(0, 0, img.width, img.height));
    forall y | 0 <= y < img.height ensures c.pixels[y] == img.pixels[y] {
      assert img.pixels[y][0 .. img.width] == img.pixels[y];
    }
  }

  /** The box is inverted exactly when every pixel is border and the image
      is not 0 by 0. */
  lemma InvertedIffAllBorder(gray: Image, threshold: int)
    requires gray.Valid()
    ensures Inverted(CropBox(gray.width, gray.height, Offsets(gray, threshold))) <==>
            AllPixelsBorder(gray, threshold) && (gray.width > 0 || gray.height > 0)
  {
    if AllPixelsBorder(gray, threshold) {
      AllBorderGivesFullCounts(gray, threshold);
    } else {
      var y, x :| 0 <= y < gray.height && 0 <= x < gray.width && !IsBorder(gray.pixels[y][x], threshold);
      ContentBoundsBorders(gray, threshold, x, y);
    }
  }

  /** The box is non-empty in both directions exactly when some pixel is not border. */
  lemma NonEmptyIffContent(gray: Image, threshold: int)
    requires gray.Valid()
    ensures var box := CropBox(gray.width, gray.height, Offsets(gray, threshold));
            HasContent(gray, threshold) <==> box.x0 < box.x1 && box.y0 < box.y1
  {
    if HasContent(gray, threshold) {
      var y, x :| 0 <= y < gray.height && 0 <= x < gray.width && !IsBorder(gray.pixels[y][x], threshold);
      ContentBoundsBorders(gray, threshold, x, y);
    } else {
      AllBorderGivesFullCounts(gray, threshold);
    }
  }

  /** An all-border image gives offsets of the full dimensions, hence the
      inverted box `(width, height, 0, 0)`; `unboxing.py` performs no check on it. */
  lemma AllBorderOutcome(original: Image, gray: Image, threshold: int)
    requires original.Valid() && gray.Valid() && SameSize(original, gray)
    requires AllPixelsBorder(gray, threshold)
    ensures Offsets(gray, threshold) == Borders(gray.height, gray.height, gray.width, gray.width)
    ensures gray.width > 0 || gray.height > 0 ==>
              UnletterboxOutcome(original, gray, threshold) == InvertedBox(Box(gray.width, gray.height, 0, 0))
  {
    AllBorderGivesFullCounts(gray, threshold);
  }

  /** When the first and last rows and columns each hold a pixel that is not
      border, all four counts are 0 and the image comes back whole. */
  lemma NoBorderKeepsImage(original: Image, gray: Image, threshold: int)
    requires original.Valid() && gray.Valid() && SameSize(original, gray)
    requires gray.width > 0 && gray.height > 0
    requires !RowIsBorder(gray, 0, threshold) && !RowIsBorder(gray, gray.height - 1, threshold)
    requires !ColumnIsBorder(gray, 0, threshold) && !ColumnIsBorder(gray, gray.width - 1, threshold)
    ensures Offsets(gray, threshold) == Borders(0, 0, 0, 0)
    ensures UnletterboxOutcome(original, gray, threshold) == Cropped(original)
  {
    TopBorderCharacterised(gray, threshold, 0);
    BottomBorderCharacterised(gray, threshold, 0);
    LeftBorderCharacterised(gray, threshold, 0);
    RightBorderCharacterised(gray, threshold, 0);
    ZeroBordersKeepWholeImage(original);
  }

  /** On a grayscale view with non-negative luminances the default threshold
      0 finds no border at all, so a non-empty image comes back whole. */
  lemma DefaultThresholdFindsNoBorder(original: Image, gray: Image)
    requires original.Valid() && gray.Valid() && SameSize(original, gray)
    requires gray.width > 0 && gray.height > 0
    requires forall y, x :: 0 <= y < gray.height && 0 <= x < gray.width ==>
               gray.pixels[y][x].Gray? && gray.pixels[y][x].v >= 0
    ensures Offsets(gray, 0) == Borders(0, 0, 0, 0)
    ensures UnletterboxOutcome(original, gray, 0) == Cropped(original)
  {
    ContentBoundsBorders(gray, 0, 0, 0);
    ContentBoundsBorders(gray, 0, gray.width - 1, gray.height - 1);
    ZeroBordersKeepWholeImage(original);
  }

  /** The box of a view that holds content, which lies inside the view. */
  function ContentBox(gray: Image, threshold: int): (box: Box)
    requires gray.Valid() && HasContent(gray, threshold)
    ensures InsideImage(gray, box) && box.x0 < box.x1 && box.y0 < box.y1
  {
    NonEmptyIffContent(gray, threshold);
    CropBox(gray.width, gray.height, Offsets(gray, threshold))
  }

  /** A pixel inside the box that is not border leaves its row of the crop
      not border. */
  lemma CropRowKeepsContent(img: Image, box: Box, threshold: int, x: int, y: int)
    requires img.Valid() && InsideImage(img, box)
    requires box.x0 <= x < box.x1 && box.y0 <= y < box.y1
    requires !IsBorder(img.pixels[y][x], threshold)
    ensures !RowIsBorder(Crop(img, box), y - box.y0, threshold)
  {
    assert Row(Crop(img, box), y - box.y0)[x - box.x0] == img.pixels[y][x];
  }

  /** A pixel inside the box that is not border leaves its column of the
      crop not border. */
  lemma CropColumnKeepsContent(img: Image, box: Box, threshold: int, x: int, y: int)
    requires img.Valid() && InsideImage(img, box)
    requires box.x0 <= x < box.x1 && box.y0 <= y < box.y1
    requires !IsBorder(img.pixels[y][x], threshold)
    ensures !ColumnIsBorder(Crop(img, box), x - box.x0, threshold)
  {
    assert Column(Crop(img, box), x - box.x0)[y - box.y0] == img.pixels[y][x];
  }

  // Each edge of the box of a view with content passes through a pixel of
  // the view that is not border: the first non-border line from that edge
  // holds a content pixel, and that pixel lies between the other two edges.

  /** The box's upper edge row holds, inside the box, a pixel that is not border. */
  lemma ContentBoxTopPixel(gray: Image, threshold: int, box: Box) returns (x: int)
    requires gray.Valid() && HasContent(gray, threshold) && box == ContentBox(gray, threshold)
    ensures box.x0 <= x < box.x1 && !IsBorder(gray.pixels[box.y0][x], threshold)
  {
    x := TopStopPixel(gray, threshold);
  }

  /** The box's lower edge row holds, inside the box, a pixel that is not border. */
  lemma ContentBoxBottomPixel(gray: Image, threshold: int, box: Box) returns (x: int)
    requires gray.Valid() && HasContent(gray, threshold) && box == ContentBox(gray, threshold)
    ensures box.x0 <= x < box.x1 && !IsBorder(gray.pixels[box.y1 - 1][x], threshold)
  {
    x := BottomStopPixel(gray, threshold);
  }

  /** The box's left edge column holds, inside the box, a pixel that is not border. */
  lemma ContentBoxLeftPixel(gray: Image, threshold: int, box: Box) returns (y: int)
    requires gray.Valid() && HasContent(gray, threshold) && box == ContentBox(gray, threshold)
    ensures box.y0 <= y < box.y1 && !IsBorder(gray.pixels[y][box.x0], threshold)
  {
    y := LeftStopPixel(gray, threshold);
  }

  /** The box's right edge column holds, inside the box, a pixel that is not border. */
  lemma ContentBoxRightPixel(gray: Image, threshold: int, box: Box) returns (y: int)
    requires gray.Valid() && HasContent(gray, threshold) && box == ContentBox(gray, threshold)
    ensures box.y0 <= y < box.y1 && !IsBorder(gray.pixels[y][box.x1 - 1], threshold)
  {
    y := RightStopPixel(gray, threshold);
  }

  /** The first row of the cropped luminance view holds a pixel that is not border.
      `box` and `view` are pinned by the requires to `ContentBox(gray, threshold)`
      and `Crop(gray, box)`; naming them as parameters keeps the crop a single
      term, which keeps the proof of this lemma and of its callers small. */
  lemma CroppedTopRowHasContent(gray: Image, threshold: int, box: Box, view: Image)
    requires gray.Valid() && HasContent(gray, threshold)
    requires box == ContentBox(gray, threshold) && view == Crop(gray, box)
    ensures view.width > 0 && view.height > 0
    ensures !RowIsBorder(view, 0, threshold)
  {
    var x := ContentBoxTopPixel(gray, threshold, box);
    CropRowKeepsContent(gray, box, threshold, x, box.y0);
  }

  /** The last row of the cropped luminance view holds a pixel that is not border.
      `box` and `view` are pinned by the requires to `ContentBox(gray, threshold)`
      and `Crop(gray, box)`; naming them as parameters keeps the crop a single
      term, which keeps the proof of this lemma and of its callers small. */
  lemma CroppedBottomRowHasContent(gray: Image, threshold: int, box: Box, view: Image)
    requires gray.Valid() && HasContent(gray, threshold)
    requires box == ContentBox(gray, threshold) && view == Crop(gray, box)
    ensures view.width > 0 && view.height > 0
    ensures !RowIsBorder(view, view.height - 1, threshold)
  {
    var x := ContentBoxBottomPixel(gray, threshold, box);
    CropRowKeepsContent(gray, box, threshold, x, box.y1 - 1);
  }

  /** The first column of the cropped luminance view holds a pixel that is not border.
      `box` and `view` are pinned by the requires to `ContentBox(gray, threshold)`
      and `Crop(gray, box)`; naming them as parameters keeps the crop a single
      term, which keeps the proof of this lemma and of its callers small. */
  lemma CroppedLeftColumnHasContent(gray: Image, threshold: int, box: Box, view: Image)
    requires gray.Valid() && HasContent(gray, threshold)
    requires box == ContentBox(gray, threshold) && view == Crop(gray, box)
    ensures view.width > 0 && view.height > 0
    ensures !ColumnIsBorder(view, 0, threshold)
  {
    var y := ContentBoxLeftPixel(gray, threshold, box);
    CropColumnKeepsContent(gray, box, threshold, box.x0, y);
  }

  /** The last column of the cropped luminance view holds a pixel that is not border.
      `box` and `view` are pinned by the requires to `ContentBox(gray, threshold)`
      and `Crop(gray, box)`; naming them as parameters keeps the crop a single
      term, which keeps the proof of this lemma and of its callers small. */
  lemma CroppedRightColumnHasContent(gray: Image, threshold: int, box: Box, view: Image)
    requires gray.Valid() && HasContent(gray, threshold)
    requires box == ContentBox(gray, threshold) && view == Crop(gray, box)
    ensures view.width > 0 && view.height > 0
    ensures !ColumnIsBorder(view, view.width - 1, threshold)
  {
    var y := ContentBoxRightPixel(gray, threshold, box);
    CropColumnKeepsContent(gray, box, threshold, box.x1 - 1, y);
  }

  /** Running `unletterbox` again on its own output, with the luminance view
      cropped the same way, returns that output unchanged. */
  lemma UnletterboxIdempotent(original: Image, gray: Image, threshold: int)
    requires original.Valid() && gray.Valid() && SameSize(original, gray)
    requires HasContent(gray, threshold)
    ensures var box := CropBox(gray.width, gray.height, Offsets(gray, threshold));
            !Inverted(box) &&
            UnletterboxOutcome(original, gray, threshold) == Cropped(Crop(original, box)) &&
            UnletterboxOutcome(Crop(original, box), Crop(gray, box), threshold) == Cropped(Crop(original, box))
  {
    var box := ContentBox(gray, threshold);
    var once, view := Crop(original, box), Crop(gray, box);
    assert UnletterboxOutcome(original, gray, threshold) == Cropped(once);
    CroppedTopRowHasContent(gray, threshold, box, view);
    CroppedBottomRowHasContent(gray, threshold, box, view);
    CroppedLeftColumnHasContent(gray, threshold, box, view);
    CroppedRightColumnHasContent(gray, threshold, box, view);
    NoBorderKeepsImage(once, view, threshold);
  }
}
