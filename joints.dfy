/** Joint-vector assembly: the metric displacement of the blue, green and red
    markers from the yellow base marker, followed by the base's own metric
    position. The scale `a` is a parameter; pixel2meter's value for it is 2/sqrt
    of Scale.MarkerDistance(frame) (see Scale.IsScaleFor). */
module Joints {
  import opened Image
  import opened Threshold
  import opened Markers
  import opened Scale

  /** A pixel position in metric units. */
  datatype MetricPoint = MetricPoint(x: real, y: real)

  function ToMetric(a: real, p: Point): MetricPoint
  {
    MetricPoint(a * (p.x as real), a * (p.y as real))
  }

  /** Componentwise difference `base - marker`. */
  function Minus(base: MetricPoint, marker: MetricPoint): MetricPoint
  {
    MetricPoint(base.x - marker.x, base.y - marker.y)
  }

  /** Squared Euclidean length of a metric displacement. */
  function SquaredLength(dx: real, dy: real): real
  {
    dx * dx + dy * dy
  }

  /** The 8 entries [blue dx, blue dy, green dx, green dy, red dx, red dy, base x,
      base y] for given pixel centres; each displacement is the base's scaled
      position minus the marker's, so the scale times the pixel difference
      base - marker. */
  function JointVector(a: real, base: Point, blue: Point, green: Point, red: Point): (v: seq<real>)
    ensures |v| == 8
    ensures && v[0] == a * ((base.x - blue.x) as real) && v[1] == a * ((base.y - blue.y) as real)
            && v[2] == a * ((base.x - green.x) as real) && v[3] == a * ((base.y - green.y) as real)
            && v[4] == a * ((base.x - red.x) as real) && v[5] == a * ((base.y - red.y) as real)
            && v[6] == a * (base.x as real) && v[7] == a * (base.y as real)
  {
    var center := ToMetric(a, base);
    var b := Minus(center, ToMetric(a, blue));
    var g := Minus(center, ToMetric(a, green));
    var r := Minus(center, ToMetric(a, red));
    [b.x, b.y, g.x, g.y, r.x, r.y, center.x, center.y]
  }

  /** A marker at the (0, 0) fallback has the base's metric position as its
      displacement. */
  lemma FallbackDisplacement(a: real, base: Point, blue: Point, green: Point, red: Point)
    ensures var v := JointVector(a, base, blue, green, red);
            && (blue == Point(0, 0) ==> v[0] == v[6] && v[1] == v[7])
            && (green == Point(0, 0) ==> v[2] == v[6] && v[3] == v[7])
            && (red == Point(0, 0) ==> v[4] == v[6] && v[5] == v[7])
  {
  }

  /** With the scale calibrated on the base and the blue marker, the blue
      displacement has length exactly the physical separation. */
  lemma CalibratedBlueLength(a: real, base: Point, blue: Point, green: Point, red: Point)
    ensures var v := JointVector(a, base, blue, green, red);
            IsScaleFor(a, SquaredDistance(blue, base)) ==>
              SquaredLength(v[0], v[1]) == Separation * Separation
  {
    var v := JointVector(a, base, blue, green, red);
    var ix, iy := base.x - blue.x, base.y - blue.y;
    var dx, dy := ix as real, iy as real;
    assert SquaredDistance(blue, base) == ix * ix + iy * iy by {
      assert (blue.x - base.x) * (blue.x - base.x) == ix * ix;
      assert (blue.y - base.y) * (blue.y - base.y) == iy * iy;
    }
    assert (ix * ix + iy * iy) as real == dx * dx + dy * dy;
    calc {
      SquaredLength(v[0], v[1]);
      v[0] * v[0] + v[1] * v[1];
      (a * dx) * (a * dx) + (a * dy) * (a * dy);
      a * a * (dx * dx + dy * dy);
    }
  }

  /** detect_joint_angles on a frame: the joint vector of the detected yellow,
      blue, green and red centres, for the scale `a`. It always has 8 entries;
      an absent marker contributes the base's metric position; with the
      calibrated scale the blue link has the physical separation as length. */
  function DetectJointAngles(frame: Frame, a: real): (v: seq<real>)
    requires IsGrid(frame)
    ensures v == JointVector(a, DetectYellow(frame), DetectBlue(frame), DetectGreen(frame), DetectRed(frame))
    ensures |v| == 8
    ensures !Visible(frame, BlueRange) ==> v[0] == v[6] && v[1] == v[7]
    ensures !Visible(frame, GreenRange) ==> v[2] == v[6] && v[3] == v[7]
    ensures !Visible(frame, RedRange) ==> v[4] == v[6] && v[5] == v[7]
    ensures IsScaleFor(a, MarkerDistance(frame)) ==> SquaredLength(v[0], v[1]) == Separation * Separation
  {
    var base, blue, green, red := DetectYellow(frame), DetectBlue(frame), DetectGreen(frame), DetectRed(frame);
    FallbackDisplacement(a, base, blue, green, red);
    CalibratedBlueLength(a, base, blue, green, red);
    assert MarkerDistance(frame) == SquaredDistance(blue, base);
    JointVector(a, base, blue, green, red)
  }

  /** The vector assembly on a frame without any marker colour (all black, say):
      every centre falls back to (0, 0), so any real scale gives eight zeros. This
      is not what the program outputs for such a frame: its scale there is
      2 / sqrt(0), which is not a real number (Scale.NoScaleWithoutMarkers). */
  lemma NoMarkersGiveZeros(frame: Frame, a: real)
    requires IsGrid(frame)
    requires !Visible(frame, YellowRange) && !Visible(frame, BlueRange)
    requires !Visible(frame, GreenRange) && !Visible(frame, RedRange)
    ensures DetectJointAngles(frame, a) == [0.0, 0.0, 0.0, 0.0, 0.0, 0.0, 0.0, 0.0]
  {
    var o := Point(0, 0);
    assert DetectJointAngles(frame, a) == JointVector(a, o, o, o, o);
  }

  /** An all-black frame contains none of the four marker colours. */
  lemma BlackFrameHasNoMarkers(frame: Frame)
    requires IsGrid(frame)
    requires forall y, x :: InGrid(frame, y, x) ==> frame[y][x] == Bgr(0, 0, 0)
    ensures !Visible(frame, YellowRange) && !Visible(frame, BlueRange)
    ensures !Visible(frame, GreenRange) && !Visible(frame, RedRange)
  {
    BlackMatchesNoMarker();
  }
}
