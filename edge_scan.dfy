/** The four edge scanners and the count they compute. */
module EdgeScan {
  import opened Pixels
  import opened Grid

  /** The number of consecutive all-border lines at the front of `lines`. */
  function BorderRun(lines: seq<seq<Pixel>>, threshold: int): (n: nat)
    ensures n <= |lines|
  {
    if |lines| == 0 || !AllBorder(lines[0], threshold) then 0
    else 1 + BorderRun(lines[1..], threshold)
  }

  /** `n` lines from the front are all border, and the next one, if any, is not. */
  ghost predicate IsBorderRun(lines: seq<seq<Pixel>>, threshold: int, n: nat)
  {
    n <= |lines| &&
    (forall i :: 0 <= i < n ==> AllBorder(lines[i], threshold)) &&
    (n < |lines| ==> !AllBorder(lines[n], threshold))
  }

  /** The run length is exactly the count the search stops at. */
  lemma {:induction false} BorderRunCharacterised(lines: seq<seq<Pixel>>, threshold: int, n: nat)
    ensures IsBorderRun(lines, threshold, n) <==> n == BorderRun(lines, threshold)
  {
    if |lines| > 0 && AllBorder(lines[0], threshold) && n > 0 {
      var tail := lines[1..];
      BorderRunCharacterised(tail, threshold, n - 1);
      assert forall i :: 0 <= i < |tail| ==> tail[i] == lines[i + 1];
      if IsBorderRun(lines, threshold, n) {
        assert IsBorderRun(tail, threshold, n - 1);
      }
      if IsBorderRun(tail, threshold, n - 1) {
        assert forall i :: 1 <= i < n ==> lines[i] == tail[i - 1];
        assert IsBorderRun(lines, threshold, n);
      }
    }
  }

  /** Every line is border exactly when the run covers the whole sequence. */
  lemma {:induction false} BorderRunFull(lines: seq<seq<Pixel>>, threshold: int)
    ensures BorderRun(lines, threshold) == |lines| <==>
            forall i :: 0 <= i < |lines| ==> AllBorder(lines[i], threshold)
  {
    BorderRunCharacterised(lines, threshold, |lines|);
    BorderRunCharacterised(lines, threshold, BorderRun(lines, threshold));
  }

  /** A higher threshold never shortens the run. */
  lemma {:induction false} BorderRunMonotone(lines: seq<seq<Pixel>>, t1: int, t2: int)
    requires t1 <= t2
    ensures BorderRun(lines, t1) <= BorderRun(lines, t2)
  {
    if |lines| > 0 && AllBorder(lines[0], t1) {
      AllBorderMonotone(lines[0], t1, t2);
      BorderRunMonotone(lines[1..], t1, t2);
    }
  }

  /** `k` lines from the back are all border, and the one before them, if any, is not. */
  ghost predicate IsTrailingRun(lines: seq<seq<Pixel>>, threshold: int, k: nat)
  {
    k <= |lines| &&
    (forall j :: |lines| - k <= j < |lines| ==> AllBorder(lines[j], threshold)) &&
    (k < |lines| ==> !AllBorder(lines[|lines| - 1 - k], threshold))
  }

  /** A run at the front of the reversed lines is a run at the back of the lines. */
  lemma ReversedRun(lines: seq<seq<Pixel>>, threshold: int, k: nat)
    ensures IsBorderRun(Reverse(lines), threshold, k) <==> IsTrailingRun(lines, threshold, k)
  {
    var rev, n := Reverse(lines), |lines|;
    if IsTrailingRun(lines, threshold, k) {
      forall i | 0 <= i < k ensures AllBorder(rev[i], threshold) {
        assert rev[i] == lines[n - 1 - i];
      }
    }
    if IsBorderRun(rev, threshold, k) {
      forall j | n - k <= j < n ensures AllBorder(lines[j], threshold) {
        assert rev[n - 1 - j] == lines[j];
      }
    }
  }

  // The four counts, one per edge.

  /** The count `detect_top_border` returns: border rows from the top. */
  function TopBorder(img: Image, threshold: int): (n: nat)
    requires img.Valid()
    ensures n <= img.height
  {
    BorderRun(img.pixels, threshold)
  }

  /** The count `detect_bottom_border` returns: border rows from the bottom. */
  function BottomBorder(img: Image, threshold: int): (n: nat)
    requires img.Valid()
    ensures n <= img.height
  {
    BorderRun(Reverse(img.pixels), threshold)
  }

  /** The count `detect_left_border` returns: border columns from the left. */
  function LeftBorder(img: Image, threshold: int): (n: nat)
    requires img.Valid()
    ensures n <= img.width
  {
    BorderRun(Columns(img), threshold)
  }

  /** The count `detect_right_border` returns: border columns from the right. */
  function RightBorder(img: Image, threshold: int): (n: nat)
    requires img.Valid()
    ensures n <= img.width
  {
    BorderRun(Reverse(Columns(img)), threshold)
  }

  // What each count means in terms of the image's rows and columns.

  /** Rows `0 .. n-1` are border and row `n`, if there is one, is not. */
  ghost predicate IsTopRun(img: Image, threshold: int, n: nat)
    requires img.Valid()
  {
    n <= img.height &&
    (forall y :: 0 <= y < n ==> RowIsBorder(img, y, threshold)) &&
    (n < img.height ==> !RowIsBorder(img, n, threshold))
  }

  /** Rows `height-k .. height-1` are border and row `height-1-k`, if there is one, is not. */
  ghost predicate IsBottomRun(img: Image, threshold: int, k: nat)
    requires img.Valid()
  {
    k <= img.height &&
    (forall y :: img.height - k <= y < img.height ==> RowIsBorder(img, y, threshold)) &&
    (k < img.height ==> !RowIsBorder(img, img.height - 1 - k, threshold))
  }

  /** Columns `0 .. n-1` are border and column `n`, if there is one, is not. */
  ghost predicate IsLeftRun(img: Image, threshold: int, n: nat)
    requires img.Valid()
  {
    n <= img.width &&
    (forall x :: 0 <= x < n ==> ColumnIsBorder(img, x, threshold)) &&
    (n < img.width ==> !ColumnIsBorder(img, n, threshold))
  }

  /** Columns `width-k .. width-1` are border and column `width-1-k`, if there is one, is not. */
  ghost predicate IsRightRun(img: Image, threshold: int, k: nat)
    requires img.Valid()
  {
    k <= img.width &&
    (forall x :: img.width - k <= x < img.width ==> ColumnIsBorder(img, x, threshold)) &&
    (k < img.width ==> !ColumnIsBorder(img, img.width - 1 - k, threshold))
  }

  lemma TopBorderCharacterised(img: Image, threshold: int, n: nat)
    requires img.Valid()
    ensures IsTopRun(img, threshold, n) <==> n == TopBorder(img, threshold)
  {
    var rows, h := img.pixels, img.height;
    BorderRunCharacterised(rows, threshold, n);
    if IsTopRun(img, threshold, n) {
      forall i | 0 <= i < n ensures AllBorder(rows[i], threshold) {
        assert RowIsBorder(img, i, threshold);
      }
      if n < h {
        assert !RowIsBorder(img, n, threshold);
      }
      assert IsBorderRun(rows, threshold, n);
    }
    if IsBorderRun(rows, threshold, n) {
      forall y | 0 <= y < n ensures RowIsBorder(img, y, threshold) {
        assert AllBorder(rows[y], threshold);
      }
      if n < h {
        assert !AllBorder(rows[n], threshold);
      }
    }
  }

  lemma BottomBorderCharacterised(img: Image, threshold: int, k: nat)
    requires img.Valid()
    ensures IsBottomRun(img, threshold, k) <==> k == BottomBorder(img, threshold)
  {
    var rows, h := img.pixels, img.height;
    BorderRunCharacterised(Reverse(rows), threshold, k);
    ReversedRun(rows, threshold, k);
    if IsBottomRun(img, threshold, k) {
      forall j | h - k <= j < h ensures AllBorder(rows[j], threshold) {
        assert RowIsBorder(img, j, threshold);
      }
      if k < h {
        assert !RowIsBorder(img, h - 1 - k, threshold);
      }
      assert IsTrailingRun(rows, threshold, k);
    }
    if IsTrailingRun(rows, threshold, k) {
      forall y | h - k <= y < h ensures RowIsBorder(img, y, threshold) {
        assert AllBorder(rows[y], threshold);
      }
      if k < h {
        assert !AllBorder(rows[h - 1 - k], threshold);
      }
    }
  }

  lemma LeftBorderCharacterised(img: Image, threshold: int, n: nat)
    requires img.Valid()
    ensures IsLeftRun(img, threshold, n) <==> n == LeftBorder(img, threshold)
  {
    var cols, w := Columns(img), img.width;
    BorderRunCharacterised(cols, threshold, n);
    if IsLeftRun(img, threshold, n) {
      forall i | 0 <= i < n ensures AllBorder(cols[i], threshold) {
        assert ColumnIsBorder(img, i, threshold);
      }
      if n < w {
        assert !ColumnIsBorder(img, n, threshold);
      }
      assert IsBorderRun(cols, threshold, n);
    }
    if IsBorderRun(cols, threshold, n) {
      forall x | 0 <= x < n ensures ColumnIsBorder(img, x, threshold) {
        assert AllBorder(cols[x], threshold);
      }
      if n < w {
        assert !AllBorder(cols[n], threshold);
      }
    }
  }

  lemma RightBorderCharacterised(img: Image, threshold: int, k: nat)
    requires img.Valid()
    ensures IsRightRun(img, threshold, k) <==> k == RightBorder(img, threshold)
  {
    var cols, w := Columns(img), img.width;
    BorderRunCharacterised(Reverse(cols), threshold, k);
    ReversedRun(cols, threshold, k);
    if IsRightRun(img, threshold, k) {
      forall j | w - k <= j < w ensures AllBorder(cols[j], threshold) {
        assert ColumnIsBorder(img, j, threshold);
      }
      if k < w {
        assert !ColumnIsBorder(img, w - 1 - k, threshold);
      }
      assert IsTrailingRun(cols, threshold, k);
    }
    if IsTrailingRun(cols, threshold, k) {
      forall x | w - k <= x < w ensures ColumnIsBorder(img, x, threshold) {
        assert AllBorder(cols[x], threshold);
      }
      if k < w {
        assert !AllBorder(cols[w - 1 - k], threshold);
      }
    }
  }

  // The scanners of the source, as loops that stop at the first line
  // holding a pixel that is not border.

  /** `detect_top_border`: scans rows from the top. */
  method DetectTopBorder(img: Image, threshold: int) returns (top: nat)
    requires img.Valid()
    ensures IsTopRun(img, threshold, top)
    ensures top == TopBorder(img, threshold)
  {
    var y := 0;
    while y < img.height
      invariant 0 <= y <= img.height
      invariant forall j :: 0 <= j < y ==> RowIsBorder(img, j, threshold)
    {
      if !AllBorder(Row(img, y), threshold) {
        top := y;
        TopBorderCharacterised(img, threshold, top);
        return;
      }
      y := y + 1;
    }
    top := img.height;
    TopBorderCharacterised(img, threshold, top);
  }

  /** `detect_bottom_border`: scans rows from the bottom and reports a count. */
  method DetectBottomBorder(img: Image, threshold: int) returns (bottom: nat)
    requires img.Valid()
    ensures IsBottomRun(img, threshold, bottom)
    ensures bottom == BottomBorder(img, threshold)
  {
    var y: int := img.height - 1;
    while y >= 0
      invariant -1 <= y < img.height
      invariant forall j :: y < j < img.height ==> RowIsBorder(img, j, threshold)
      decreases y + 1
    {
      if !AllBorder(Row(img, y), threshold) {
        bottom := img.height - y - 1;
        BottomBorderCharacterised(img, threshold, bottom);
        return;
      }
      y := y - 1;
    }
    bottom := img.height;
    BottomBorderCharacterised(img, threshold, bottom);
  }

  /** `detect_left_border`: scans columns from the left. */
  method DetectLeftBorder(img: Image, threshold: int) returns (left: nat)
    requires img.Valid()
    ensures IsLeftRun(img, threshold, left)
    ensures left == LeftBorder(img, threshold)
  {
    var x := 0;
    while x < img.width
      invariant 0 <= x <= img.width
      invariant forall j :: 0 <= j < x ==> ColumnIsBorder(img, j, threshold)
    {
      if !AllBorder(Column(img, x), threshold) {
        left := x;
        LeftBorderCharacterised(img, threshold, left);
        return;
      }
      x := x + 1;
    }
    left := img.width;
    LeftBorderCharacterised(img, threshold, left);
  }

  /** `detect_right_border`: scans columns from the right and reports a count. */
  method DetectRightBorder(img: Image, threshold: int) returns (right: nat)
    requires img.Valid()
    ensures IsRightRun(img, threshold, right)
    ensures right == RightBorder(img, threshold)
  {
    var x: int := img.width - 1;
    while x >= 0
      invariant -1 <= x < img.width
      invariant forall j :: x < j < img.width ==> ColumnIsBorder(img, j, threshold)
      decreases x + 1
    {
      if !AllBorder(Column(img, x), threshold) {
        right := img.width - x - 1;
        RightBorderCharacterised(img, threshold, right);
        return;
      }
      x := x - 1;
    }
    right := img.width;
    RightBorderCharacterised(img, threshold, right);
  }

  // Properties of the four counts.

  /** A higher threshold never makes any of the four counts smaller. */
  lemma BordersMonotone(img: Image, t1: int, t2: int)
    requires img.Valid() && t1 <= t2
    ensures TopBorder(img, t1) <= TopBorder(img, t2)
    ensures BottomBorder(img, t1) <= BottomBorder(img, t2)
    ensures LeftBorder(img, t1) <= LeftBorder(img, t2)
    ensures RightBorder(img, t1) <= RightBorder(img, t2)
  {
    BorderRunMonotone(img.pixels, t1, t2);
    BorderRunMonotone(Reverse(img.pixels), t1, t2);
    BorderRunMonotone(Columns(img), t1, t2);
    BorderRunMonotone(Reverse(Columns(img)), t1, t2);
  }

  /** When every pixel is border (in particular when a dimension is 0),
      top and bottom both report the height and left and right the width. */
  lemma AllBorderGivesFullCounts(img: Image, threshold: int)
    requires img.Valid() && AllPixelsBorder(img, threshold)
    ensures TopBorder(img, threshold) == img.height
    ensures BottomBorder(img, threshold) == img.height
    ensures LeftBorder(img, threshold) == img.width
    ensures RightBorder(img, threshold) == img.width
    ensures img.height > 0 ==> TopBorder(img, threshold) + BottomBorder(img, threshold) > img.height
    ensures img.width > 0 ==> LeftBorder(img, threshold) + RightBorder(img, threshold) > img.width
  {
    TopBorderCharacterised(img, threshold, img.height);
    BottomBorderCharacterised(img, threshold, img.height);
    LeftBorderCharacterised(img, threshold, img.width);
    RightBorderCharacterised(img, threshold, img.width);
  }

  /** Each scan that stops before the far edge stops at a line that is not border. */
  lemma ScansStopAtContent(img: Image, threshold: int)
    requires img.Valid()
    ensures TopBorder(img, threshold) < img.height ==>
              !RowIsBorder(img, TopBorder(img, threshold), threshold)
    ensures BottomBorder(img, threshold) < img.height ==>
              !RowIsBorder(img, img.height - 1 - BottomBorder(img, threshold), threshold)
    ensures LeftBorder(img, threshold) < img.width ==>
              !ColumnIsBorder(img, LeftBorder(img, threshold), threshold)
    ensures RightBorder(img, threshold) < img.width ==>
              !ColumnIsBorder(img, img.width - 1 - RightBorder(img, threshold), threshold)
  {
    var top, bottom := TopBorder(img, threshold), BottomBorder(img, threshold);
    var left, right := LeftBorder(img, threshold), RightBorder(img, threshold);
    assert top < img.height ==> !RowIsBorder(img, top, threshold) by {
      TopBorderCharacterised(img, threshold, top);
    }
    assert bottom < img.height ==> !RowIsBorder(img, img.height - 1 - bottom, threshold) by {
      BottomBorderCharacterised(img, threshold, bottom);
    }
    assert left < img.width ==> !ColumnIsBorder(img, left, threshold) by {
      LeftBorderCharacterised(img, threshold, left);
    }
    assert right < img.width ==> !ColumnIsBorder(img, img.width - 1 - right, threshold) by {
      RightBorderCharacterised(img, threshold, right);
    }
  }

  /** A pixel that is not border bounds all four counts: no scan passes it. */
  lemma ContentBoundsBorders(img: Image, threshold: int, x: nat, y: nat)
    requires img.Valid() && y < img.height && x < img.width
    requires !IsBorder(img.pixels[y][x], threshold)
    ensures TopBorder(img, threshold) <= y
    ensures BottomBorder(img, threshold) <= img.height - 1 - y
    ensures LeftBorder(img, threshold) <= x
    ensures RightBorder(img, threshold) <= img.width - 1 - x
  {
    TopBorderCharacterised(img, threshold, TopBorder(img, threshold));
    BottomBorderCharacterised(img, threshold, BottomBorder(img, threshold));
    LeftBorderCharacterised(img, threshold, LeftBorder(img, threshold));
    RightBorderCharacterised(img, threshold, RightBorder(img, threshold));
    assert !RowIsBorder(img, y, threshold);
    assert !ColumnIsBorder(img, x, threshold);
  }

  // The pixel that stops each scan, when the scan stops before the far edge,
  // and where it lies relative to the other three counts.

  lemma TopStopPixel(img: Image, threshold: int) returns (x: nat)
    requires img.Valid() && TopBorder(img, threshold) < img.height
    ensures x < img.width && !IsBorder(img.pixels[TopBorder(img, threshold)][x], threshold)
    ensures LeftBorder(img, threshold) <= x < img.width - RightBorder(img, threshold)
  {
    var y := TopBorder(img, threshold);
    assert !RowIsBorder(img, y, threshold) by {
      TopBorderCharacterised(img, threshold, y);
    }
    x :| 0 <= x < img.width && !IsBorder(img.pixels[y][x], threshold);
    ContentBoundsBorders(img, threshold, x, y);
  }

  lemma BottomStopPixel(img: Image, threshold: int) returns (x: nat)
    requires img.Valid() && BottomBorder(img, threshold) < img.height
    ensures x < img.width &&
            !IsBorder(img.pixels[img.height - 1 - BottomBorder(img, threshold)][x], threshold)
    ensures LeftBorder(img, threshold) <= x < img.width - RightBorder(img, threshold)
  {
    var y := img.height - 1 - BottomBorder(img, threshold);
    assert !RowIsBorder(img, y, threshold) by {
      BottomBorderCharacterised(img, threshold, BottomBorder(img, threshold));
    }
    x :| 0 <= x < img.width && !IsBorder(img.pixels[y][x], threshold);
    ContentBoundsBorders(img, threshold, x, y);
  }

  lemma LeftStopPixel(img: Image, threshold: int) returns (y: nat)
    requires img.Valid() && LeftBorder(img, threshold) < img.width
    ensures y < img.height && !IsBorder(img.pixels[y][LeftBorder(img, threshold)], threshold)
    ensures TopBorder(img, threshold) <= y < img.height - BottomBorder(img, threshold)
  {
    var x := LeftBorder(img, threshold);
    assert !ColumnIsBorder(img, x, threshold) by {
      LeftBorderCharacterised(img, threshold, x);
    }
    y :| 0 <= y < img.height && !IsBorder(Column(img, x)[y], threshold);
    ContentBoundsBorders(img, threshold, x, y);
  }

  lemma RightStopPixel(img: Image, threshold: int) returns (y: nat)
    requires img.Valid() && RightBorder(img, threshold) < img.width
    ensures y < img.height &&
            !IsBorder(img.pixels[y][img.width - 1 - RightBorder(img, threshold)], threshold)
    ensures TopBorder(img, threshold) <= y < img.height - BottomBorder(img, threshold)
  {
    var x := img.width - 1 - RightBorder(img, threshold);
    assert !ColumnIsBorder(img, x, threshold) by {
      RightBorderCharacterised(img, threshold, RightBorder(img, threshold));
    }
    y :| 0 <= y < img.height && !IsBorder(Column(img, x)[y], threshold);
    ContentBoundsBorders(img, threshold, x, y);
  }

  /** When exactly one pixel is not border, every scan stops exactly at the
      row or column that holds it. */
  lemma SingleContentPixel(img: Image, threshold: int, cx: nat, cy: nat)
    requires img.Valid() && cy < img.height && cx < img.width
    requires !IsBorder(img.pixels[cy][cx], threshold)
    requires forall y, x :: 0 <= y < img.height && 0 <= x < img.width && (y != cy || x != cx) ==>
               IsBorder(img.pixels[y][x], threshold)
    ensures TopBorder(img, threshold) == cy
    ensures BottomBorder(img, threshold) == img.height - 1 - cy
    ensures LeftBorder(img, threshold) == cx
    ensures RightBorder(img, threshold) == img.width - 1 - cx
  {
    assert !RowIsBorder(img, cy, threshold);
    assert !ColumnIsBorder(img, cx, threshold);
    TopBorderCharacterised(img, threshold, cy);
    BottomBorderCharacterised(img, threshold, img.height - 1 - cy);
    LeftBorderCharacterised(img, threshold, cx);
    RightBorderCharacterised(img, threshold, img.width - 1 - cx);
  }
}
