/** Morphological dilation (cv2.dilate) with a square all-ones kernel. Each pass
    replaces a pixel by the largest value among the pixels of the image within
    Chebyshev distance `r` of it; pixels outside the image take no part (OpenCV's
    default border for dilation). */
module Dilation {
  import opened Image

  /** The markers are dilated with a 5x5 kernel, so a radius of 2, three times. */
  const KernelSize: nat := 5
  const Radius: nat := KernelSize / 2
  const Iterations: nat := 3

  /** (ny, nx) is a cell of `m` within Chebyshev distance `r` of (y, x). */
  predicate Near(m: Mask, y: int, x: int, ny: int, nx: int, r: nat)
  {
    InGrid(m, ny, nx) && y - r <= ny <= y + r && x - r <= nx <= x + r
  }

  /** `v` is the largest entry of `m` within distance `r` of (y, x). */
  ghost predicate IsWindowMax(m: Mask, y: int, x: int, r: nat, v: int)
    requires IsGrid(m)
  {
    && (forall ny, nx :: Near(m, y, x, ny, nx, r) ==> m[ny][nx] <= v)
    && (exists ny, nx :: Near(m, y, x, ny, nx, r) && m[ny][nx] == v)
  }

  /** The largest of row[left..right]. */
  function RowMax(row: seq<Byte>, left: nat, right: nat): (v: Byte)
    requires left < right <= |row|
    ensures forall x :: left <= x < right ==> row[x] <= v
    ensures exists x :: left <= x < right && row[x] == v
    decreases right - left
  {
    if right - left == 1 then row[left]
    else
      var w := RowMax(row, left, right - 1);
      if row[right - 1] <= w then w else row[right - 1]
  }

  /** The largest entry of the rectangle [top, bottom) x [left, right) of `m`. */
  function BoxMax(m: Mask, top: nat, bottom: nat, left: nat, right: nat): (v: Byte)
    requires IsGrid(m) && top < bottom <= |m| && left < right <= Width(m)
    ensures forall y, x :: top <= y < bottom && left <= x < right ==> m[y][x] <= v
    ensures exists y, x :: top <= y < bottom && left <= x < right && m[y][x] == v
    decreases bottom - top
  {
    var last := RowMax(m[bottom - 1], left, right);
    if bottom - top == 1 then last
    else
      var w := BoxMax(m, top, bottom - 1, left, right);
      if last <= w then w else last
  }

  /** The value one dilation pass writes at (y, x): the window clipped to the image. */
  function PassAt(m: Mask, y: int, x: int, r: nat): (v: Byte)
    requires IsGrid(m) && InGrid(m, y, x)
    ensures IsWindowMax(m, y, x, r, v)
  {
    BoxMax(m, Max(0, y - r), Min(|m|, y + r + 1), Max(0, x - r), Min(Width(m), x + r + 1))
  }

  /** One dilation pass with a (2r+1) x (2r+1) all-ones kernel. */
  function Pass(m: Mask, r: nat): (d: Mask)
    requires IsGrid(m)
    ensures IsGrid(d) && |d| == |m| && Width(d) == Width(m)
    ensures forall y, x {:trigger d[y][x]} :: InGrid(m, y, x) ==> IsWindowMax(m, y, x, r, d[y][x])
  {
    seq(|m|, y requires 0 <= y < |m| =>
      seq(Width(m), x requires 0 <= x < Width(m) => PassAt(m, y, x, r)))
  }

  /** `n` successive passes, as cv2.dilate's `iterations` argument asks. */
  function Dilate(m: Mask, r: nat, n: nat): (d: Mask)
    requires IsGrid(m)
    ensures IsGrid(d) && |d| == |m| && Width(d) == Width(m)
    decreases n
  {
    if n == 0 then m else Dilate(Pass(m, r), r, n - 1)
  }

  /** The dilation every marker mask goes through. */
  function DilateMarker(m: Mask): (d: Mask)
    requires IsGrid(m)
    ensures IsGrid(d) && |d| == |m| && Width(d) == Width(m)
  {
    Dilate(m, Radius, Iterations)
  }

  lemma WindowMaxUnique(m: Mask, y: int, x: int, r: nat, v: int, w: int)
    requires IsGrid(m) && IsWindowMax(m, y, x, r, v) && IsWindowMax(m, y, x, r, w)
    ensures v == w
  {
  }

  function Clamp(v: int, lo: int, hi: int): int
  {
    if v < lo then lo else if hi < v then hi else v
  }

  /** A window maximum of radius r2 taken over window maxima of radius r1 is the
      window maximum of radius r1 + r2. */
  lemma ComposeWindows(m: Mask, d: Mask, r1: nat, r2: nat, y: int, x: int, v: int)
    requires IsGrid(m) && IsGrid(d) && |d| == |m| && Width(d) == Width(m)
    requires forall a, b {:trigger d[a][b]} :: InGrid(m, a, b) ==> IsWindowMax(m, a, b, r1, d[a][b])
    requires IsWindowMax(d, y, x, r2, v)
    ensures IsWindowMax(m, y, x, r1 + r2, v)
  {
    forall ny, nx | Near(m, y, x, ny, nx, r1 + r2)
      ensures m[ny][nx] <= v
    {
      var my, mx := Clamp(ny, y - r2, y + r2), Clamp(nx, x - r2, x + r2);
      assert Near(d, y, x, my, mx, r2);
      assert d[my][mx] <= v;
      assert IsWindowMax(m, my, mx, r1, d[my][mx]);
      assert Near(m, my, mx, ny, nx, r1);
    }
    var my, mx :| Near(d, y, x, my, mx, r2) && d[my][mx] == v;
    assert IsWindowMax(m, my, mx, r1, d[my][mx]);
    var ny, nx :| Near(m, my, mx, ny, nx, r1) && m[ny][nx] == d[my][mx];
    assert Near(m, y, x, ny, nx, r1 + r2);
  }

  /** Two passes merge into one pass with the radii added. */
  lemma PassCompose(m: Mask, r1: nat, r2: nat)
    requires IsGrid(m)
    ensures Pass(Pass(m, r1), r2) == Pass(m, r1 + r2)
  {
    var lhs, rhs := Pass(Pass(m, r1), r2), Pass(m, r1 + r2);
    forall y | 0 <= y < |m|
      ensures lhs[y] == rhs[y]
    {
      forall x | 0 <= x < Width(m)
        ensures lhs[y][x] == rhs[y][x]
      {
        ComposeWindows(m, Pass(m, r1), r1, r2, y, x, lhs[y][x]);
        WindowMaxUnique(m, y, x, r1 + r2, lhs[y][x], rhs[y][x]);
      }
    }
  }

  /** n >= 1 passes of radius r equal one pass of radius n * r. */
  lemma {:induction false} DilateIsOnePass(m: Mask, r: nat, n: nat)
    requires IsGrid(m) && n >= 1
    ensures Dilate(m, r, n) == Pass(m, n * r)
    decreases n
  {
    if n > 1 {
      DilateIsOnePass(Pass(m, r), r, n - 1);
      PassCompose(m, r, (n - 1) * r);
      assert r + (n - 1) * r == n * r;
    }
  }

  /** Three passes of the 5x5 kernel are one pass of a 13x13 kernel: each pixel of
      the dilated marker mask is the maximum within distance 6 of it. */
  lemma DilateMarkerWindow(m: Mask)
    requires IsGrid(m)
    ensures forall y, x {:trigger DilateMarker(m)[y][x]} :: InGrid(m, y, x) ==> IsWindowMax(m, y, x, 6, DilateMarker(m)[y][x])
  {
    DilateIsOnePass(m, Radius, Iterations);
    var d := DilateMarker(m);
    assert d == Pass(m, 6);
    forall y, x | InGrid(m, y, x)
      ensures IsWindowMax(m, y, x, 6, d[y][x])
    {
    }
  }

  /** Dilation never lowers a pixel, so it never clears a set pixel. */
  lemma {:induction false} DilateNeverClears(m: Mask, r: nat, n: nat)
    requires IsGrid(m)
    ensures forall y, x :: InGrid(m, y, x) ==> m[y][x] <= Dilate(m, r, n)[y][x]
    decreases n
  {
    if n > 0 {
      var d := Pass(m, r);
      DilateNeverClears(d, r, n - 1);
      assert Dilate(m, r, n) == Dilate(d, r, n - 1);
      forall y, x | InGrid(m, y, x)
        ensures m[y][x] <= Dilate(m, r, n)[y][x]
      {
        assert Near(m, y, x, y, x, r);
        assert m[y][x] <= d[y][x];
        assert InGrid(d, y, x);
      }
    }
  }

  /** Iterating once more is one more pass on the result. */
  lemma {:induction false} DilateStep(m: Mask, r: nat, n: nat)
    requires IsGrid(m)
    ensures Dilate(m, r, n + 1) == Pass(Dilate(m, r, n), r)
    decreases n
  {
    if n > 0 {
      DilateStep(Pass(m, r), r, n - 1);
    }
  }

  /** One more iteration never lowers a pixel: the more iterations, the larger
      the region. */
  lemma MoreIterationsLarger(m: Mask, r: nat, n: nat)
    requires IsGrid(m)
    ensures forall y, x :: InGrid(m, y, x) ==> Dilate(m, r, n)[y][x] <= Dilate(m, r, n + 1)[y][x]
  {
    var d := Dilate(m, r, n);
    DilateStep(m, r, n);
    DilateNeverClears(d, r, 1);
    assert Dilate(d, r, 1) == Pass(d, r);
    assert Dilate(m, r, n + 1) == Dilate(d, r, 1);
    forall y, x | InGrid(m, y, x)
      ensures d[y][x] <= Dilate(m, r, n + 1)[y][x]
    {
      assert InGrid(d, y, x);
    }
  }

  /** A mask is all zero exactly when its dilation is. */
  lemma {:induction false} DilateZeroIff(m: Mask, r: nat, n: nat)
    requires IsGrid(m)
    ensures AllZero(m) <==> AllZero(Dilate(m, r, n))
    decreases n
  {
    DilateNeverClears(m, r, n);
    if n > 0 {
      var d := Pass(m, r);
      if AllZero(m) {
        forall y, x | InGrid(d, y, x)
          ensures d[y][x] == 0
        {
          var ny, nx :| Near(m, y, x, ny, nx, r) && m[ny][nx] == d[y][x];
        }
      }
      DilateZeroIff(d, r, n - 1);
    }
  }

  /** Dilating a 0/255 mask leaves a 0/255 mask. */
  lemma {:induction false} DilateKeepsBinary(m: Mask, r: nat, n: nat)
    requires IsGrid(m) && IsBinary(m)
    ensures IsBinary(Dilate(m, r, n))
    decreases n
  {
    if n > 0 {
      var d := Pass(m, r);
      forall y, x | InGrid(d, y, x)
        ensures d[y][x] == 0 || d[y][x] == 255
      {
        var ny, nx :| Near(m, y, x, ny, nx, r) && m[ny][nx] == d[y][x];
      }
      DilateKeepsBinary(d, r, n - 1);
    }
  }
}
