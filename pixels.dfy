/** The pixel predicate: decides whether one pixel counts as border colour. */
module Pixels {

  /** A pixel as the scanners read it: one luminance value (an image in
      mode "L") or a red, green, blue triple (mode "RGB"). */
  datatype Pixel = Gray(v: int) | RGB(r: int, g: int, b: int)

  /** Border test of `is_pixel_black`. The grayscale comparison is strict
      and the colour comparison is not; the asymmetry is the source's. */
  predicate IsBorder(p: Pixel, threshold: int): (border: bool)
    ensures p.Gray? ==> (border <==> p.v < threshold)
    ensures p.RGB? ==> (border <==> Brightest(p.r, p.g, p.b) <= threshold)
  {
    match p
    case Gray(v) => v < threshold
    case RGB(r, g, b) => r <= threshold && g <= threshold && b <= threshold
  }

  /** The largest of three channel values. */
  function Brightest(r: int, g: int, b: int): (m: int)
    ensures m == r || m == g || m == b
    ensures r <= m && g <= m && b <= m
  {
    if r >= g && r >= b then r else if g >= b then g else b
  }

  /** A luminance equal to the threshold is not border; one just below it is. */
  lemma GrayBoundary(threshold: int)
    ensures !IsBorder(Gray(threshold), threshold)
    ensures IsBorder(Gray(threshold - 1), threshold)
  {
  }

  /** A colour pixel whose three channels equal the threshold is border;
      raising any one channel above it makes it not border. */
  lemma ColourBoundary(threshold: int)
    ensures IsBorder(RGB(threshold, threshold, threshold), threshold)
    ensures !IsBorder(RGB(threshold + 1, threshold, threshold), threshold)
    ensures !IsBorder(RGB(threshold, threshold + 1, threshold), threshold)
    ensures !IsBorder(RGB(threshold, threshold, threshold + 1), threshold)
  {
  }

  /** With a threshold of 0 no non-negative luminance is border. */
  lemma NoGrayBorderAtZero(v: int)
    requires v >= 0
    ensures !IsBorder(Gray(v), 0)
  {
  }

  /** Raising the threshold never takes a pixel out of the border. */
  lemma IsBorderMonotone(p: Pixel, t1: int, t2: int)
    requires t1 <= t2
    ensures IsBorder(p, t1) ==> IsBorder(p, t2)
  {
  }

  /** `all(is_pixel_black(pixel, threshold) for pixel in line)`. */
  predicate AllBorder(line: seq<Pixel>, threshold: int): (border: bool)
    ensures line == [] ==> border
  {
    forall i :: 0 <= i < |line| ==> IsBorder(line[i], threshold)
  }

  lemma AllBorderMonotone(line: seq<Pixel>, t1: int, t2: int)
    requires t1 <= t2
    ensures AllBorder(line, t1) ==> AllBorder(line, t2)
  {
    forall i | 0 <= i < |line| && IsBorder(line[i], t1)
      ensures IsBorder(line[i], t2)
    {
      IsBorderMonotone(line[i], t1, t2);
    }
  }
}
