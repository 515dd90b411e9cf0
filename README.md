# Letterbox border detection, modelled in Dafny

This project models the border-detection core of `unboxing.py`, a small tool
that removes uniform (letterbox or pillarbox) bars from an image. The core has
three parts:

* the pixel predicate `is_pixel_black`, which decides whether one pixel
  counts as border colour;
* the four edge scanners `detect_top_border`, `detect_bottom_border`,
  `detect_left_border` and `detect_right_border`, which walk rows or columns
  inward from one edge and count the lines that are entirely border;
* the crop step of `unletterbox`, which scans the grayscale view of the image
  and crops the original to `(left, top, width - right, height - bottom)`.

Modules, one per part of that core:

* `Pixels` (`pixels.dfy`): the `Pixel` datatype (`Gray(v)` for a mode "L"
  image, `RGB(r, g, b)` for a colour image), the predicate `IsBorder` with the
  source's strict `<` for grayscale and non-strict `<=` for colour, and
  `AllBorder`, the `all(...)` over one line.
* `Grid` (`grid.dfy`): the image as `width`, `height` and `height` rows of
  `width` pixels; `Row` and `Column` are the pixels that the scanners obtain
  with `image.crop(...).getdata()`.
* `EdgeScan` (`edge_scan.dfy`): the four scanners as methods with `while`
  loops that follow the source's `for` loops, early `return` included. Each
  one is proved against `BorderRun`, the count of border lines at the front of
  a sequence of lines. Top uses the rows, bottom the reversed rows, left the
  columns and right the reversed columns. The predicates `IsTopRun`,
  `IsBottomRun`, `IsLeftRun` and `IsRightRun` state each count in terms of the
  image: the lines before the count are border, and the line at the count, if
  there is one, is not.
* `Cropper` (`cropper.dfy`): the four counts (`Borders`), the box
  (`CropBox`), the crop of the pixel grid (`Crop`) and `Unletterbox`, which
  runs the four scanners on the grayscale view and crops the original.

The grayscale view is an input to `Unletterbox`, of the same size as the
original. The conversion `convert("L")` is not modelled, and neither is
decoding or encoding.

Two consequences of how `unboxing.py` is written:

* The grayscale comparison at unboxing.py:10 is strict, so at the default
  threshold 0 no luminance is border, and solid black bars (luminance 0) are
  not removed (`Cropper.DefaultThresholdFindsNoBorder`).
* An all-border image gives offsets `(height, height, width, width)` and the
  inverted box `(width, height, 0, 0)`. `unboxing.py` checks for neither and
  passes the box to `image.crop` (`Cropper.AllBorderOutcome`). The model
  records this outcome as `InvertedBox`; what the image library does with it
  is left out.

## Model

| member | source | states |
|---|---|---|
| `Pixels.IsBorder` | unboxing.py:8-13 | a grayscale pixel is border exactly when its value is below the threshold; an RGB pixel exactly when its brightest channel is at most the threshold |
| `Pixels.AllBorder` | unboxing.py:21 | a line with no pixels counts as border (`all` of nothing is true) |
| `Pixels.GrayBoundary` | unboxing.py:9-10 | a grayscale pixel equal to the threshold is not border; one just below it is (strict comparison) |
| `Pixels.ColourBoundary` | unboxing.py:11-13 | an RGB pixel with all three channels equal to the threshold is border; raising any single channel above it makes it not border (non-strict comparison on every channel) |
| `Pixels.NoGrayBorderAtZero` | unboxing.py:9-10 | at threshold 0 no grayscale pixel with a non-negative value is border |
| `Pixels.IsBorderMonotone` | unboxing.py:8-13 | a pixel that is border under T1 is border under every T2 >= T1, in both the grayscale and the colour case |
| `Pixels.AllBorderMonotone` | unboxing.py:21 | a line entirely border under T1 stays entirely border under every T2 >= T1 |
| `Grid.Row` | unboxing.py:20 | the pixels of row y, one per column |
| `Grid.Column` | unboxing.py:40 | the pixels of column x, one per row, the y-th of which is the pixel at (x, y) |
| `EdgeScan.BorderRun` | unboxing.py:19-24 | the count of leading border lines never exceeds the number of lines |
| `EdgeScan.BorderRunCharacterised` | unboxing.py:19-24 | n is the count exactly when the first n lines are all border and line n, if there is one, is not (both directions) |
| `EdgeScan.BorderRunFull` | unboxing.py:24 | the count equals the number of lines exactly when every line is border |
| `EdgeScan.BorderRunMonotone` | unboxing.py:21 | raising the threshold never makes the count smaller |
| `EdgeScan.ReversedRun` | unboxing.py:29-33 | a run at the front of the reversed lines is a run of border lines at the back, stopped by the line before it |
| `EdgeScan.TopBorder` | unboxing.py:17-24 | the value `detect_top_border` returns is at most the height |
| `EdgeScan.BottomBorder` | unboxing.py:27-34 | the value `detect_bottom_border` returns is at most the height |
| `EdgeScan.LeftBorder` | unboxing.py:37-44 | the value `detect_left_border` returns is at most the width |
| `EdgeScan.RightBorder` | unboxing.py:47-54 | the value `detect_right_border` returns is at most the width |
| `EdgeScan.TopStopPixel` | unboxing.py:21-23 | when the top scan stops before the far edge, its row holds a non-border pixel whose column lies between the left and right counts |
| `EdgeScan.BottomStopPixel` | unboxing.py:31-33 | when the bottom scan stops before the far edge, row height-1-bottom holds a non-border pixel whose column lies between the left and right counts |
| `EdgeScan.LeftStopPixel` | unboxing.py:41-43 | when the left scan stops before the far edge, its column holds a non-border pixel whose row lies between the top and bottom counts |
| `EdgeScan.RightStopPixel` | unboxing.py:51-53 | when the right scan stops before the far edge, column width-1-right holds a non-border pixel whose row lies between the top and bottom counts |
| `EdgeScan.TopBorderCharacterised` | unboxing.py:17-24 | k is the top count exactly when rows 0..k-1 are border and row k, if any, is not |
| `EdgeScan.BottomBorderCharacterised` | unboxing.py:27-34 | k is the bottom count exactly when rows height-k..height-1 are border and row height-1-k, if any, is not |
| `EdgeScan.LeftBorderCharacterised` | unboxing.py:37-44 | k is the left count exactly when columns 0..k-1 are border and column k, if any, is not |
| `EdgeScan.RightBorderCharacterised` | unboxing.py:47-54 | k is the right count exactly when columns width-k..width-1 are border and column width-1-k, if any, is not |
| `EdgeScan.DetectTopBorder` | unboxing.py:17-24 | the loop returns the top count: at most height, every row before it border, the row at it (if any) not border |
| `EdgeScan.DetectBottomBorder` | unboxing.py:27-34 | the loop from the last row returns the count height-y-1, not the index: at most height, the last k rows border, row height-1-k (if any) not border |
| `EdgeScan.DetectLeftBorder` | unboxing.py:37-44 | the loop returns the left count: at most width, every column before it border, the column at it (if any) not border |
| `EdgeScan.DetectRightBorder` | unboxing.py:47-54 | the loop from the last column returns width-x-1: at most width, the last k columns border, column width-1-k (if any) not border |
| `EdgeScan.ScansStopAtContent` | unboxing.py:21-23 | a scan that stops before the far edge stops at a line that is not border |
| `EdgeScan.BordersMonotone` | unboxing.py:10 | raising the threshold never decreases any of the four counts |
| `EdgeScan.AllBorderGivesFullCounts` | unboxing.py:24 | when every pixel is border (also when a dimension is 0), top = bottom = height and left = right = width, so top + bottom > height when height > 0 and left + right > width when width > 0 |
| `EdgeScan.ContentBoundsBorders` | unboxing.py:21-23 | a non-border pixel at (x, y) bounds the counts: top <= y, bottom <= height-1-y, left <= x, right <= width-1-x |
| `EdgeScan.SingleContentPixel` | unboxing.py:17-54 | with exactly one non-border pixel at (cx, cy), the scans return exactly cy, height-1-cy, cx and width-1-cx |
| `Cropper.Offsets` | unboxing.py:60-63 | the four counts on the grayscale view lie within its dimensions: top and bottom at most the height, left and right at most the width |
| `Cropper.CropBox` | unboxing.py:66 | with counts within the dimensions, every coordinate of the box lies within the image; the box is inverted exactly when left + right > width or top + bottom > height |
| `Cropper.UnletterboxOutcome` | unboxing.py:57-66 | a cropped result is a valid image of size (width - left - right) by (height - top - bottom); the result is the inverted box exactly when the box built from the counts is inverted |
| `Cropper.Crop` | unboxing.py:66 | the crop of a box inside the image has the box's size, and its pixel (x, y) is the original's pixel (x0 + x, y0 + y) |
| `Cropper.ContentBox` | unboxing.py:66 | when some pixel is not border, the box lies inside the image and is non-empty in both directions |
| `Cropper.Unletterbox` | unboxing.py:57-66 | the four counts on the grayscale view are the scanners' counts with their characterisations; the result is the original cropped to (left, top, width-right, height-bottom), or the inverted box |
| `Cropper.ZeroBordersKeepWholeImage` | unboxing.py:66 | zero counts give the box (0, 0, width, height), and cropping to it returns the image unchanged |
| `Cropper.InvertedIffAllBorder` | unboxing.py:66 | the box is inverted exactly when every pixel is border and the image is not 0 by 0 |
| `Cropper.NonEmptyIffContent` | unboxing.py:66 | the box is non-empty in both directions exactly when some pixel is not border |
| `Cropper.AllBorderOutcome` | unboxing.py:60-66 | an all-border view gives counts (height, height, width, width) and, unless the image is 0 by 0, the inverted box (width, height, 0, 0); unboxing.py performs no check, and what the library does with the inverted box is left out |
| `Cropper.NoBorderKeepsImage` | unboxing.py:60-66 | when the first and last rows and columns each hold a non-border pixel, all four counts are 0 and the original comes back whole |
| `Cropper.DefaultThresholdFindsNoBorder` | unboxing.py:57-66 | on a grayscale view with non-negative values, threshold 0 gives four zero counts and a non-empty original comes back whole |
| `Cropper.CropRowKeepsContent` | unboxing.py:66 | a non-border pixel at (x, y) inside the box leaves row y - y0 of the crop not border |
| `Cropper.CropColumnKeepsContent` | unboxing.py:66 | a non-border pixel at (x, y) inside the box leaves column x - x0 of the crop not border |
| `Cropper.ContentBoxTopPixel` | unboxing.py:60-66 | the box's upper row y0 holds a non-border pixel at a column inside the box |
| `Cropper.ContentBoxBottomPixel` | unboxing.py:60-66 | the box's lower row y1 - 1 holds a non-border pixel at a column inside the box |
| `Cropper.ContentBoxLeftPixel` | unboxing.py:60-66 | the box's left column x0 holds a non-border pixel at a row inside the box |
| `Cropper.ContentBoxRightPixel` | unboxing.py:60-66 | the box's right column x1 - 1 holds a non-border pixel at a row inside the box |
| `Cropper.CroppedTopRowHasContent` | unboxing.py:60-66 | after cropping, the first row of the cropped grayscale view holds a non-border pixel |
| `Cropper.CroppedBottomRowHasContent` | unboxing.py:60-66 | after cropping, the last row of the cropped grayscale view holds a non-border pixel |
| `Cropper.CroppedLeftColumnHasContent` | unboxing.py:60-66 | after cropping, the first column of the cropped grayscale view holds a non-border pixel |
| `Cropper.CroppedRightColumnHasContent` | unboxing.py:60-66 | after cropping, the last column of the cropped grayscale view holds a non-border pixel |
| `Cropper.UnletterboxIdempotent` | unboxing.py:57-66 | when some pixel is not border, running the crop again on its own output (with the grayscale view cropped the same way) returns that output unchanged |

## Left out

- Opening, decoding, `convert("L")`, `save` and the `BytesIO` encoding (unboxing.py:58-59, 68-70) are image-library I/O. The luminance conversion rounds in library code. The grayscale view is an input of the same size as the original, and `Unletterbox` returns the cropped pixel grid and the four counts, not encoded bytes.
- `image.crop(...).getdata()` inside the scanners is modelled as `Grid.Row` and `Grid.Column`, the pixels of one row or column in scan order.
- What the image library does with an inverted box is not modelled. `Unletterbox` returns `InvertedBox(box)` at that point, and `Cropper.InvertedIffAllBorder` states when it happens.
- Pixels of other shapes (alpha, palette, other channel counts) do not exist in the model. The unpacking `r, g, b = pixel` in the source would reject a pixel with four channels.
- Channel values are unbounded integers. The model does not assume the range 0..255. Only `Pixels.NoGrayBorderAtZero` and `Cropper.DefaultThresholdFindsNoBorder` use the lower bound, as a precondition that every luminance is at least 0.
- The source's default argument `black_threshold=0` has no Dafny counterpart. The threshold is always passed, and `Cropper.DefaultThresholdFindsNoBorder` covers the default.
- `setup_output_directories`, `process_with_your_function`, `process_with_bordercrop`, `compare_images` and the command-line block (unboxing.py:74-151) are filesystem work, printing, argument parsing and comparison with a third-party library. They are outside the core.
