/** Marker detection: threshold a frame by a colour range, dilate the mask three
    times with the 5x5 kernel and take the blob centre of the result. The orange
    target and the reference image are thresholded only. */
module Markers {
  import opened Image
  import opened Threshold
  import opened Dilation
  import opened Moments

  /** Some pixel of the frame lies within the range. */
  ghost predicate Visible(frame: Frame, range: ColorRange)
    requires IsGrid(frame)
  {
    exists y, x :: InGrid(frame, y, x) && Within(frame[y][x], range)
  }

  /** The dilated mask whose centre is the marker's position. */
  function MarkerMask(frame: Frame, range: ColorRange): (d: Mask)
    requires IsGrid(frame)
    ensures IsGrid(d) && |d| == |frame| && Width(d) == Width(frame)
  {
    DilateMarker(InRange(frame, range))
  }

  /** The threshold mask is all zero exactly when the colour is absent. */
  lemma ThresholdZeroIffAbsent(frame: Frame, range: ColorRange)
    requires IsGrid(frame)
    ensures AllZero(InRange(frame, range)) <==> !Visible(frame, range)
  {
    var m := InRange(frame, range);
    if Visible(frame, range) {
      var y, x :| InGrid(frame, y, x) && Within(frame[y][x], range);
      assert m[y][x] == 255;
    } else {
      forall y, x | InGrid(m, y, x)
        ensures m[y][x] == 0
      {
        assert InGrid(frame, y, x);
      }
    }
  }

  /** A dilated marker mask has mass exactly when the colour is in the frame. */
  lemma MassIffVisible(frame: Frame, range: ColorRange)
    requires IsGrid(frame)
    ensures Mass(MarkerMask(frame, range)) > 0 <==> Visible(frame, range)
  {
    var m := InRange(frame, range);
    var d := MarkerMask(frame, range);
    assert d == Dilate(m, Radius, Iterations);
    ThresholdZeroIffAbsent(frame, range);
    DilateZeroIff(m, Radius, Iterations);
    MassZeroIff(d);
  }

  /** The position of the marker of one colour. An absent colour gives the
      fallback (0, 0); a visible one gives the floor of the moment quotients of
      its dilated mask; the result is a pixel of any non-empty frame. */
  function DetectMarker(frame: Frame, range: ColorRange): (p: Point)
    requires IsGrid(frame)
    ensures !Visible(frame, range) ==> p == Point(0, 0)
    ensures Visible(frame, range) ==>
              var d := MarkerMask(frame, range);
              && Mass(d) > 0
              && IsFloorQuotient(p.x, MomentX(d), Mass(d))
              && IsFloorQuotient(p.y, MomentY(d), Mass(d))
    ensures |frame| > 0 && Width(frame) > 0 ==> InGrid(frame, p.y, p.x)
  {
    var d := MarkerMask(frame, range);
    MassIffVisible(frame, range);
    CentroidInImage(d);
    Centroid(d)
  }

  function DetectRed(frame: Frame): (p: Point)
    requires IsGrid(frame)
    ensures !Visible(frame, RedRange) ==> p == Point(0, 0)
    ensures |frame| > 0 && Width(frame) > 0 ==> InGrid(frame, p.y, p.x)
  {
    DetectMarker(frame, RedRange)
  }

  function DetectGreen(frame: Frame): (p: Point)
    requires IsGrid(frame)
    ensures !Visible(frame, GreenRange) ==> p == Point(0, 0)
    ensures |frame| > 0 && Width(frame) > 0 ==> InGrid(frame, p.y, p.x)
  {
    DetectMarker(frame, GreenRange)
  }

  function DetectBlue(frame: Frame): (p: Point)
    requires IsGrid(frame)
    ensures !Visible(frame, BlueRange) ==> p == Point(0, 0)
    ensures |frame| > 0 && Width(frame) > 0 ==> InGrid(frame, p.y, p.x)
  {
    DetectMarker(frame, BlueRange)
  }

  function DetectYellow(frame: Frame): (p: Point)
    requires IsGrid(frame)
    ensures !Visible(frame, YellowRange) ==> p == Point(0, 0)
    ensures |frame| > 0 && Width(frame) > 0 ==> InGrid(frame, p.y, p.x)
  {
    DetectMarker(frame, YellowRange)
  }

  /** A visible marker's position is within 6 pixels (three dilations of radius 2)
      of every box that holds all the pixels of its colour. */
  lemma MarkerNearItsPixels(frame: Frame, range: ColorRange, left: int, right: int, top: int, bottom: int)
    requires IsGrid(frame) && Visible(frame, range)
    requires forall y, x :: InGrid(frame, y, x) && Within(frame[y][x], range) ==>
               left <= x <= right && top <= y <= bottom
    ensures var p := DetectMarker(frame, range);
            left - 6 <= p.x <= right + 6 && top - 6 <= p.y <= bottom + 6
  {
    var m := InRange(frame, range);
    var d := MarkerMask(frame, range);
    DilateMarkerWindow(m);
    forall y, x | InGrid(d, y, x) && d[y][x] != 0
      ensures left - 6 <= x <= right + 6 && top - 6 <= y <= bottom + 6
    {
      assert InGrid(m, y, x);
      assert IsWindowMax(m, y, x, 6, d[y][x]);
      var ny, nx :| Near(m, y, x, ny, nx, 6) && m[ny][nx] == d[y][x];
      assert InGrid(frame, ny, nx) && Within(frame[ny][nx], range);
    }
    MassIffVisible(frame, range);
    CentroidInBox(d, left - 6, right + 6, top - 6, bottom + 6);
  }

  /** The orange target's mask: thresholded and not dilated. Its set pixels have
      none of the four arm-marker colours. */
  function DetectOrange(frame: Frame): (mask: Mask)
    requires IsGrid(frame)
    ensures IsGrid(mask) && |mask| == |frame| && Width(mask) == Width(frame)
    ensures IsBinary(mask)
    ensures forall y, x :: InGrid(frame, y, x) ==>
              (mask[y][x] == 255 <==> Within(frame[y][x], OrangeRange)) &&
              (mask[y][x] == 255 ==> MarkerMatches(frame[y][x]) == 1)
  {
    var mask := InRange(frame, OrangeRange);
    forall y, x | InGrid(frame, y, x)
      ensures MarkerMatches(frame[y][x]) <= 1
    {
      RangesDisjoint(frame[y][x]);
    }
    mask
  }

  /** The reference pattern of the target: the near-white pixels of the reference
      image, as a 0/255 mask of the image's size. */
  function ReferenceMask(reference: Frame): (mask: Mask)
    requires IsGrid(reference)
    ensures IsGrid(mask) && |mask| == |reference| && Width(mask) == Width(reference)
    ensures IsBinary(mask)
    ensures forall y, x :: InGrid(reference, y, x) ==>
              (mask[y][x] == 255 <==> Within(reference[y][x], WhiteRange))
  {
    InRange(reference, WhiteRange)
  }
}
