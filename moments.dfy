/** Spatial image moments (cv2.moments) of a single-channel image and the blob
    centre derived from them, with the empty-mask fallback to (0, 0). */
module Moments {
  import opened Image

  /** Sum of the entries of a row. */
  function RowMass(row: seq<Byte>): nat
  {
    if |row| == 0 then 0 else RowMass(row[..|row| - 1]) + row[|row| - 1]
  }

  /** Sum of x * row[x] over a row. */
  function RowMomentX(row: seq<Byte>): nat
  {
    if |row| == 0 then 0 else RowMomentX(row[..|row| - 1]) + (|row| - 1) * row[|row| - 1]
  }

  /** m00: the sum of all entries. */
  function Mass(m: Mask): nat
  {
    if |m| == 0 then 0 else Mass(m[..|m| - 1]) + RowMass(m[|m| - 1])
  }

  /** m10: the sum of x * m[y][x], x being the column. */
  function MomentX(m: Mask): nat
  {
    if |m| == 0 then 0 else MomentX(m[..|m| - 1]) + RowMomentX(m[|m| - 1])
  }

  /** m01: the sum of y * m[y][x], y being the row. */
  function MomentY(m: Mask): nat
  {
    if |m| == 0 then 0 else MomentY(m[..|m| - 1]) + (|m| - 1) * RowMass(m[|m| - 1])
  }

  /** q is the floor of n / d. */
  predicate IsFloorQuotient(q: int, n: int, d: int)
  {
    q * d <= n < (q + 1) * d
  }

  /** Floor division of a non-negative numerator by a positive denominator. */
  function FloorDiv(n: nat, d: nat): (q: nat)
    requires d > 0
    ensures IsFloorQuotient(q, n, d)
  {
    assert n == (n / d) * d + n % d;
    n / d
  }

  /** The blob centre (int(m10 / m00), int(m01 / m00)), or (0, 0) for a mask that
      has no mass. Every moment is non-negative, so Python's truncation of the
      quotient is its floor. */
  function Centroid(m: Mask): (c: Point)
    ensures Mass(m) == 0 ==> c == Point(0, 0)
    ensures c.x >= 0 && c.y >= 0
    ensures Mass(m) > 0 ==> IsFloorQuotient(c.x, MomentX(m), Mass(m))
    ensures Mass(m) > 0 ==> IsFloorQuotient(c.y, MomentY(m), Mass(m))
  {
    var w := Mass(m);
    if w == 0 then Point(0, 0) else Point(FloorDiv(MomentX(m), w), FloorDiv(MomentY(m), w))
  }

  lemma MulLe(a: int, b: int, v: nat)
    requires a <= b
    ensures a * v <= b * v
  {
    assert b * v - a * v == (b - a) * v;
  }

  lemma MulAdd(k: int, a: int, b: int)
    ensures k * (a + b) == k * a + k * b
  {
  }

  /** A row has no mass exactly when every entry is 0. */
  lemma {:induction false} RowMassZeroIff(row: seq<Byte>)
    ensures RowMass(row) == 0 <==> forall x :: 0 <= x < |row| ==> row[x] == 0
  {
    if |row| > 0 {
      var init := row[..|row| - 1];
      RowMassZeroIff(init);
      assert forall x :: 0 <= x < |init| ==> init[x] == row[x];
    }
  }

  /** A mask has no mass exactly when every entry is 0. */
  lemma {:induction false} MassZeroIff(m: Mask)
    requires IsGrid(m)
    ensures Mass(m) == 0 <==> AllZero(m)
  {
    if |m| > 0 {
      var init := m[..|m| - 1];
      assert IsGrid(init) by {
        assert forall y :: 0 <= y < |init| ==> init[y] == m[y];
      }
      MassZeroIff(init);
      RowMassZeroIff(m[|m| - 1]);
      assert forall y, x :: InGrid(init, y, x) ==> init[y][x] == m[y][x];
      if |m| > 1 {
        assert Width(init) == Width(m);
      }
    }
  }

  /** If every set entry of a row lies in columns [lo, hi], so does the row's
      first moment divided by its mass. */
  lemma {:induction false} RowMomentXBounds(row: seq<Byte>, lo: int, hi: int)
    requires forall x :: 0 <= x < |row| && row[x] != 0 ==> lo <= x <= hi
    ensures lo * RowMass(row) <= RowMomentX(row) <= hi * RowMass(row)
  {
    if |row| > 0 {
      var init, j, v := row[..|row| - 1], |row| - 1, row[|row| - 1];
      assert forall x :: 0 <= x < |init| ==> init[x] == row[x];
      RowMomentXBounds(init, lo, hi);
      var w, mx := RowMass(init), RowMomentX(init);
      assert RowMass(row) == w + v && RowMomentX(row) == mx + j * v;
      if v != 0 {
        MulLe(lo, j, v);
        MulLe(j, hi, v);
      }
      MulAdd(lo, w, v);
      MulAdd(hi, w, v);
    }
  }

  /** If every set entry of a mask lies in columns [lo, hi], then
      lo * m00 <= m10 <= hi * m00. */
  lemma {:induction false} MomentXBounds(m: Mask, lo: int, hi: int)
    requires IsGrid(m)
    requires forall y, x :: InGrid(m, y, x) && m[y][x] != 0 ==> lo <= x <= hi
    ensures lo * Mass(m) <= MomentX(m) <= hi * Mass(m)
  {
    if |m| > 0 {
      var init, last := m[..|m| - 1], m[|m| - 1];
      assert forall y :: 0 <= y < |init| ==> init[y] == m[y];
      assert IsGrid(init) && |init| > 0 ==> Width(init) == Width(m);
      MomentXBounds(init, lo, hi);
      forall x | 0 <= x < |last| && last[x] != 0
        ensures lo <= x <= hi
      {
        assert InGrid(m, |m| - 1, x);
      }
      RowMomentXBounds(last, lo, hi);
      var w, mx, rw := Mass(init), MomentX(init), RowMass(last);
      assert Mass(m) == w + rw && MomentX(m) == mx + RowMomentX(last);
      MulAdd(lo, w, rw);
      MulAdd(hi, w, rw);
    }
  }

  /** If every set entry of a mask lies in rows [lo, hi], then
      lo * m00 <= m01 <= hi * m00. */
  lemma {:induction false} MomentYBounds(m: Mask, lo: int, hi: int)
    requires IsGrid(m)
    requires forall y, x :: InGrid(m, y, x) && m[y][x] != 0 ==> lo <= y <= hi
    ensures lo * Mass(m) <= MomentY(m) <= hi * Mass(m)
  {
    if |m| > 0 {
      var init, last, j := m[..|m| - 1], m[|m| - 1], |m| - 1;
      assert forall y :: 0 <= y < |init| ==> init[y] == m[y];
      assert IsGrid(init) && |init| > 0 ==> Width(init) == Width(m);
      MomentYBounds(init, lo, hi);
      var w, my, rw := Mass(init), MomentY(init), RowMass(last);
      assert Mass(m) == w + rw && MomentY(m) == my + j * rw;
      if rw != 0 {
        RowMassZeroIff(last);
        var x :| 0 <= x < |last| && last[x] != 0;
        assert InGrid(m, j, x);
        MulLe(lo, j, rw);
        MulLe(j, hi, rw);
      }
      MulAdd(lo, w, rw);
      MulAdd(hi, w, rw);
    }
  }

  /** a * d < b * d with d > 0 gives a < b. */
  lemma CancelPositive(a: int, b: int, d: int)
    requires d > 0 && a * d < b * d
    ensures a < b
  {
    if a >= b {
      MulLe(b, a, d);
    }
  }

  /** A floor quotient q of n by w lies between any bounds lo, hi with
      lo * w <= n <= hi * w. */
  lemma FloorInRange(q: int, n: int, w: int, lo: int, hi: int)
    requires w > 0 && IsFloorQuotient(q, n, w) && lo * w <= n <= hi * w
    ensures lo <= q <= hi
  {
    CancelPositive(lo, q + 1, w);
    if q > hi {
      assert (hi + 1) * w == hi * w + w;
      MulLe(hi + 1, q, w);
    }
  }

  /** The centre of a mask with mass lies in every box that holds all its set
      entries, so in particular in their bounding box. */
  lemma CentroidInBox(m: Mask, left: int, right: int, top: int, bottom: int)
    requires IsGrid(m) && Mass(m) > 0
    requires forall y, x :: InGrid(m, y, x) && m[y][x] != 0 ==>
               left <= x <= right && top <= y <= bottom
    ensures left <= Centroid(m).x <= right && top <= Centroid(m).y <= bottom
  {
    var c, w := Centroid(m), Mass(m);
    MomentXBounds(m, left, right);
    MomentYBounds(m, top, bottom);
    FloorInRange(c.x, MomentX(m), w, left, right);
    FloorInRange(c.y, MomentY(m), w, top, bottom);
  }

  /** The centre of a mask with at least one row and one column is always one of
      its cells, the fallback (0, 0) included. */
  lemma CentroidInImage(m: Mask)
    requires IsGrid(m)
    ensures |m| > 0 && Width(m) > 0 ==> InGrid(m, Centroid(m).y, Centroid(m).x)
  {
    if Mass(m) > 0 {
      CentroidInBox(m, 0, Width(m) - 1, 0, |m| - 1);
    }
  }

  /** The fallback is ambiguous: a mask whose only set pixel is the top-left one
      has mass, yet its centre is also (0, 0). */
  lemma OriginIsNotOnlyFallback(m: Mask)
    requires IsGrid(m) && InGrid(m, 0, 0) && m[0][0] != 0
    requires forall y, x :: InGrid(m, y, x) && (y, x) != (0, 0) ==> m[y][x] == 0
    ensures Mass(m) > 0 && Centroid(m) == Point(0, 0)
  {
    MassZeroIff(m);
    CentroidInBox(m, 0, 0, 0, 0);
  }
}
