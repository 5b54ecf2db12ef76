/** Target location: the reference mask is matched against the orange mask with
    cv2.matchTemplate (method 1, normalised squared difference, whose best match
    is the minimum), and the located point is a score extremum shifted by half
    the template's width and height. The score surface is an input: it is
    computed in floating point inside OpenCV. */
module Target {
  import opened Image

  /** One score per placement of the template's top-left corner: res[y][x]. */
  type Surface = seq<seq<real>>

  /** matchTemplate's documented precondition: a non-empty template no larger
      than the image. */
  predicate Fits(image: Mask, template: Mask)
  {
    1 <= |template| <= |image| && 1 <= Width(template) <= Width(image)
  }

  /** `res` has one score per placement of `template` inside `image`. */
  predicate IsSurfaceFor(res: Surface, image: Mask, template: Mask)
  {
    IsGrid(res) && |res| == |image| - |template| + 1 && Width(res) == Width(image) - Width(template) + 1
  }

  /** `p` (x column, y row) is a placement where the surface is smallest. */
  ghost predicate IsMinLoc(res: Surface, p: Point)
    requires IsGrid(res)
  {
    InGrid(res, p.y, p.x) && forall y, x :: InGrid(res, y, x) ==> res[p.y][p.x] <= res[y][x]
  }

  /** `p` (x column, y row) is a placement where the surface is largest. */
  ghost predicate IsMaxLoc(res: Surface, p: Point)
    requires IsGrid(res)
  {
    InGrid(res, p.y, p.x) && forall y, x :: InGrid(res, y, x) ==> res[y][x] <= res[p.y][p.x]
  }

  /** A column of row[lo..hi] holding its smallest entry. */
  function RowArgMin(row: seq<real>, lo: nat, hi: nat): (k: nat)
    requires lo < hi <= |row|
    ensures lo <= k < hi && forall x :: lo <= x < hi ==> row[k] <= row[x]
    decreases hi - lo
  {
    if hi - lo == 1 then lo
    else
      var k := RowArgMin(row, lo, hi - 1);
      if row[k] <= row[hi - 1] then k else hi - 1
  }

  /** A column of row[lo..hi] holding its largest entry. */
  function RowArgMax(row: seq<real>, lo: nat, hi: nat): (k: nat)
    requires lo < hi <= |row|
    ensures lo <= k < hi && forall x :: lo <= x < hi ==> row[x] <= row[k]
    decreases hi - lo
  {
    if hi - lo == 1 then lo
    else
      var k := RowArgMax(row, lo, hi - 1);
      if row[hi - 1] <= row[k] then k else hi - 1
  }

  /** A placement among the first `rows` rows where the surface is smallest. */
  function ArgMinRows(res: Surface, rows: nat): (p: Point)
    requires IsGrid(res) && 0 < rows <= |res| && Width(res) > 0
    ensures 0 <= p.y < rows && 0 <= p.x < Width(res)
    ensures forall y, x :: 0 <= y < rows && 0 <= x < Width(res) ==> res[p.y][p.x] <= res[y][x]
  {
    var k := RowArgMin(res[rows - 1], 0, Width(res));
    if rows == 1 then Point(k, 0)
    else
      var p := ArgMinRows(res, rows - 1);
      if res[p.y][p.x] <= res[rows - 1][k] then p else Point(k, rows - 1)
  }

  /** A placement among the first `rows` rows where the surface is largest. */
  function ArgMaxRows(res: Surface, rows: nat): (p: Point)
    requires IsGrid(res) && 0 < rows <= |res| && Width(res) > 0
    ensures 0 <= p.y < rows && 0 <= p.x < Width(res)
    ensures forall y, x :: 0 <= y < rows && 0 <= x < Width(res) ==> res[y][x] <= res[p.y][p.x]
  {
    var k := RowArgMax(res[rows - 1], 0, Width(res));
    if rows == 1 then Point(k, 0)
    else
      var p := ArgMaxRows(res, rows - 1);
      if res[rows - 1][k] <= res[p.y][p.x] then p else Point(k, rows - 1)
  }

  /** cv2.minMaxLoc on a non-empty surface: a minimising and a maximising
      placement always exist. Which one OpenCV picks among ties is not modelled. */
  function MinMaxLoc(res: Surface): (locs: (Point, Point))
    requires IsGrid(res) && |res| > 0 && Width(res) > 0
    ensures IsMinLoc(res, locs.0) && IsMaxLoc(res, locs.1)
  {
    (ArgMinRows(res, |res|), ArgMaxRows(res, |res|))
  }

  /** detect_target as written: x from the minimising placement, y from the
      maximising one, each plus half the template's width or height (Python 2
      integer division). A template that does not fit violates matchTemplate's
      precondition (a template no larger than the image): None. */
  function DetectTarget(image: Mask, template: Mask, res: Surface, minLoc: Point, maxLoc: Point): (t: Option<Point>)
    requires IsGrid(image) && IsGrid(template)
    requires Fits(image, template) ==>
               IsSurfaceFor(res, image, template) && IsMinLoc(res, minLoc) && IsMaxLoc(res, maxLoc)
    ensures t.None? <==> !Fits(image, template)
    ensures t.Some? ==> InGrid(image, t.value.y, t.value.x)
    ensures t.Some? ==>
              && IsMinLoc(res, Point(t.value.x - Width(template) / 2, minLoc.y))
              && IsMaxLoc(res, Point(maxLoc.x, t.value.y - |template| / 2))
  {
    if Fits(image, template) then
      Some(Point(minLoc.x + Width(template) / 2, maxLoc.y + |template| / 2))
    else
      None
  }

  /** The intended result: the centre of the best (minimising) placement. */
  function DetectTargetCorrected(image: Mask, template: Mask, res: Surface, minLoc: Point): (t: Option<Point>)
    requires IsGrid(image) && IsGrid(template)
    requires Fits(image, template) ==> IsSurfaceFor(res, image, template) && IsMinLoc(res, minLoc)
    ensures t.None? <==> !Fits(image, template)
    ensures t.Some? ==> InGrid(image, t.value.y, t.value.x)
    ensures t.Some? ==> IsMinLoc(res, Point(t.value.x - Width(template) / 2, t.value.y - |template| / 2))
  {
    if Fits(image, template) then
      Some(Point(minLoc.x + Width(template) / 2, minLoc.y + |template| / 2))
    else
      None
  }

  /** When the template matches best at exactly one placement p, the corrected
      target is the centre of p. */
  lemma CorrectedFindsUniqueBest(image: Mask, template: Mask, res: Surface, minLoc: Point, p: Point)
    requires IsGrid(image) && IsGrid(template) && Fits(image, template)
    requires IsSurfaceFor(res, image, template) && IsMinLoc(res, minLoc)
    requires InGrid(res, p.y, p.x)
    requires forall y, x :: InGrid(res, y, x) && (y, x) != (p.y, p.x) ==> res[p.y][p.x] < res[y][x]
    ensures DetectTargetCorrected(image, template, res, minLoc) ==
              Some(Point(p.x + Width(template) / 2, p.y + |template| / 2))
  {
  }

  /** The mixed convention misses the best match. The reference pattern is one
      set pixel and the mask two rows by one column with its set pixel in row 1:
      the normalised squared difference is 0 for the exact match in row 1 and 1
      in row 0. The source reports row 0, taken from the worst placement; the
      centre of the best placement is row 1. */
  lemma MixedConventionMisses(minLoc: Point, maxLoc: Point)
    requires IsMinLoc([[1.0], [0.0]], minLoc) && IsMaxLoc([[1.0], [0.0]], maxLoc)
    ensures DetectTarget([[0], [255]], [[255]], [[1.0], [0.0]], minLoc, maxLoc) == Some(Point(0, 0))
    ensures DetectTargetCorrected([[0], [255]], [[255]], [[1.0], [0.0]], minLoc) == Some(Point(0, 1))
  {
    var res: Surface := [[1.0], [0.0]];
    assert minLoc == Point(0, 1) by {
      assert res[minLoc.y][minLoc.x] <= res[1][0];
    }
    assert maxLoc == Point(0, 0) by {
      assert res[0][0] <= res[maxLoc.y][maxLoc.x];
    }
  }
}
