/** Colour thresholding (cv2.inRange): a pixel is marked 255 when each of its
    three channels lies within the inclusive bounds of a colour range, 0 otherwise. */
module Threshold {
  import opened Image

  /** Inclusive lower and upper bounds, one per channel, in BGR order. */
  datatype ColorRange = ColorRange(lo: Bgr, hi: Bgr)

  /** The marker colours of the arm and the target, as (B, G, R) bounds. */
  const RedRange: ColorRange := ColorRange(Bgr(0, 0, 100), Bgr(0, 0, 255))
  const GreenRange: ColorRange := ColorRange(Bgr(0, 100, 0), Bgr(0, 255, 0))
  const BlueRange: ColorRange := ColorRange(Bgr(100, 0, 0), Bgr(255, 0, 0))
  const YellowRange: ColorRange := ColorRange(Bgr(0, 100, 100), Bgr(0, 255, 255))
  const OrangeRange: ColorRange := ColorRange(Bgr(50, 100, 110), Bgr(90, 185, 220))
  /** Near-white bounds used to binarise the reference image of the target. */
  const WhiteRange: ColorRange := ColorRange(Bgr(200, 200, 200), Bgr(255, 255, 255))

  /** Every channel of p lies within the inclusive bounds of the range. */
  predicate Within(p: Bgr, range: ColorRange)
  {
    && range.lo.b <= p.b <= range.hi.b
    && range.lo.g <= p.g <= range.hi.g
    && range.lo.r <= p.r <= range.hi.r
  }

  function ThresholdPixel(p: Bgr, range: ColorRange): Byte
  {
    if Within(p, range) then 255 else 0
  }

  /** The binary mask of the pixels of `frame` that lie within `range`. */
  function InRange(frame: Frame, range: ColorRange): (mask: Mask)
    requires IsGrid(frame)
    ensures IsGrid(mask) && |mask| == |frame| && Width(mask) == Width(frame)
    ensures forall y, x :: InGrid(frame, y, x) ==>
              (mask[y][x] == 255 <==> Within(frame[y][x], range)) &&
              (mask[y][x] == 0 <==> !Within(frame[y][x], range))
  {
    seq(|frame|, y requires 0 <= y < |frame| =>
      seq(|frame[y]|, x requires 0 <= x < |frame[y]| => ThresholdPixel(frame[y][x], range)))
  }

  /** How many of the five marker ranges contain p. */
  function MarkerMatches(p: Bgr): nat
  {
    (if Within(p, RedRange) then 1 else 0) +
    (if Within(p, GreenRange) then 1 else 0) +
    (if Within(p, BlueRange) then 1 else 0) +
    (if Within(p, YellowRange) then 1 else 0) +
    (if Within(p, OrangeRange) then 1 else 0)
  }

  /** The five marker ranges are pairwise disjoint: each one pins a different
      combination of channels to 0 or to at least 50/100. */
  lemma RangesDisjoint(p: Bgr)
    ensures MarkerMatches(p) <= 1
  {
  }

  /** No pixel of a frame is set in two of the five marker masks. */
  lemma MasksDisjoint(frame: Frame, y: int, x: int)
    requires IsGrid(frame) && InGrid(frame, y, x)
    ensures (if InRange(frame, RedRange)[y][x] == 255 then 1 else 0) +
            (if InRange(frame, GreenRange)[y][x] == 255 then 1 else 0) +
            (if InRange(frame, BlueRange)[y][x] == 255 then 1 else 0) +
            (if InRange(frame, YellowRange)[y][x] == 255 then 1 else 0) +
            (if InRange(frame, OrangeRange)[y][x] == 255 then 1 else 0) <= 1
  {
    RangesDisjoint(frame[y][x]);
  }

  /** A pure black pixel belongs to none of the marker colours. */
  lemma BlackMatchesNoMarker()
    ensures MarkerMatches(Bgr(0, 0, 0)) == 0
  {
  }
}
