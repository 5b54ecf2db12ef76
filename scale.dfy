/** Pixel-to-metre calibration: the yellow (base) and blue markers are a known
    2 units apart, so the scale is 2 / sqrt(d) for their squared pixel distance d.
    The square root and the float division are not modelled as computations: a
    scale is any real `a` related to d by IsScaleFor. */
module Scale {
  import opened Image
  import opened Threshold
  import opened Markers

  /** Physical distance between the yellow and the blue marker. */
  const Separation: real := 2.0

  lemma SquareNonNegative(v: int)
    ensures v * v >= 0
    ensures v * v == 0 <==> v == 0
  {
    if v < 0 {
      assert v * v == (-v) * (-v);
    }
  }

  /** Squared Euclidean distance between two pixels; zero exactly when they coincide. */
  function SquaredDistance(p: Point, q: Point): (d: nat)
    ensures d == 0 <==> p == q
  {
    SquareNonNegative(p.x - q.x);
    SquareNonNegative(p.y - q.y);
    (p.x - q.x) * (p.x - q.x) + (p.y - q.y) * (p.y - q.y)
  }

  /** The exact integer distance pixel2meter computes from the blue and yellow
      centres before taking its square root. */
  function MarkerDistance(frame: Frame): (d: nat)
    requires IsGrid(frame)
    ensures d == 0 <==> DetectBlue(frame) == DetectYellow(frame)
    ensures !Visible(frame, BlueRange) && !Visible(frame, YellowRange) ==> d == 0
  {
    SquaredDistance(DetectBlue(frame), DetectYellow(frame))
  }

  /** `a` is 2 / sqrt(d): positive, and a * a * d is the squared separation. */
  ghost predicate IsScaleFor(a: real, d: nat)
  {
    a > 0.0 && a * a * (d as real) == Separation * Separation
  }

  /** With both centres at one point (both markers absent, say) no real scale
      exists: the division by sqrt(0) is not guarded, so the source's scale is not
      a finite number. */
  lemma NoScaleAtZeroDistance(a: real)
    ensures !IsScaleFor(a, 0)
  {
  }

  /** A frame in which neither the yellow nor the blue marker is visible admits no
      scale. */
  lemma NoScaleWithoutMarkers(frame: Frame, a: real)
    requires IsGrid(frame) && !Visible(frame, BlueRange) && !Visible(frame, YellowRange)
    ensures !IsScaleFor(a, MarkerDistance(frame))
  {
    NoScaleAtZeroDistance(a);
  }

  /** The scale for a given distance is unique. */
  lemma ScaleUnique(a: real, b: real, d: nat)
    requires IsScaleFor(a, d) && IsScaleFor(b, d)
    ensures a == b
  {
    var r := d as real;
    assert (a * a - b * b) * r == 0.0;
    assert a * a == b * b;
    assert (a - b) * (a + b) == a * a - b * b;
  }

  /** Point p with both coordinates multiplied by k: the same scene zoomed by k. */
  function Zoom(p: Point, k: int): Point
  {
    Point(k * p.x, k * p.y)
  }

  /** Zooming both points by k multiplies their squared distance by k * k. */
  lemma ZoomDistance(p: Point, q: Point, k: int)
    ensures SquaredDistance(Zoom(p, k), Zoom(q, k)) == k * k * SquaredDistance(p, q)
  {
    var dx, dy := p.x - q.x, p.y - q.y;
    assert k * p.x - k * q.x == k * dx;
    assert k * p.y - k * q.y == k * dy;
    assert (k * dx) * (k * dx) == k * k * (dx * dx);
    assert (k * dy) * (k * dy) == k * k * (dy * dy);
  }

  /** The calibration is scale-covariant: a frame zoomed by k > 0 gets the scale
      divided by k. */
  lemma ScaleCovariant(a: real, p: Point, q: Point, k: int)
    requires k > 0 && IsScaleFor(a, SquaredDistance(p, q))
    ensures IsScaleFor(a / (k as real), SquaredDistance(Zoom(p, k), Zoom(q, k)))
  {
    ZoomDistance(p, q, k);
    var kr, d := k as real, SquaredDistance(p, q) as real;
    var b := a / kr;
    assert b * kr == a;
    assert (k * k * SquaredDistance(p, q)) as real == kr * kr * d;
    assert b * b * (kr * kr * d) == (b * kr) * (b * kr) * d;
  }
}
