/** The six calibration points A..F that bound the detector's two
    exclusion triangles, scaled from the image width and height by fixed
    coefficients and truncated to integers. */
module Calibration {
  import opened Geometry

  /** A coefficient in [0, 1] written as an exact fraction. */
  datatype Ratio = Ratio(num: nat, den: nat)

  predicate ValidRatio(r: Ratio) {
    0 < r.den && r.num <= r.den
  }

  /** The detector's coefficients, four decimal places each. */
  const BCoeff := Ratio(6481, 10000)
  const CCoeff := Ratio(5338, 10000)
  /** The width coefficient of D is the same ratio as C's. */
  const DCoeffW := CCoeff
  const DCoeffH := Ratio(3981, 10000)
  const FCoeff := Ratio(2344, 10000)

  /** `int(n * r)` for a non-negative n: the product truncated toward zero,
      which for non-negative values is the floor. */
  function Scale(n: nat, r: Ratio): (s: nat)
    requires ValidRatio(r)
    ensures s * r.den <= n * r.num < (s + 1) * r.den
    ensures s <= n
  {
    var s := n * r.num / r.den;
    assert s * r.den <= n * r.num < (s + 1) * r.den;
    ScaleBound(n, r, s);
    s
  }

  lemma ScaleBound(n: nat, r: Ratio, s: nat)
    requires ValidRatio(r)
    requires s * r.den <= n * r.num
    ensures s <= n
  {
    if s > n {
      MulMono(n, r.num, r.den);
      MulStrictMono(s, n + 1, r.den);
    }
  }

  lemma MulMono(n: nat, a: nat, b: nat)
    requires a <= b
    ensures n * a <= n * b
  {
  }

  /** Cancelling a common positive factor from a strict inequality. */
  lemma MulStrictMono(a: int, b: int, d: nat)
    requires a * d < b * d
    ensures a < b
  {
    if a >= b {
      assert a * d - b * d == (a - b) * d;
      MulMono(d, 0, a - b);
    }
  }

  /** The six calibration points for one image. */
  datatype Points = Points(a: Point, b: Point, c: Point, d: Point, e: Point, f: Point)

  function CalibrationPoints(width: nat, height: nat): (pts: Points)
    ensures pts.a == Point(0, 0)
    ensures pts.b.x == 0 && pts.c.y == 0
    ensures pts.e.y == height && pts.f.y == height
    ensures pts.d.x == pts.c.x && pts.e.x == pts.c.x
    ensures InFrame(pts, width, height)
  {
    Points(
      Point(0, 0),
      Point(0, Scale(height, BCoeff)),
      Point(Scale(width, CCoeff), 0),
      Point(Scale(width, DCoeffW), Scale(height, DCoeffH)),
      Point(Scale(width, CCoeff), height),
      Point(Scale(width, FCoeff), height))
  }

  predicate InBox(p: Point, width: int, height: int) {
    0 <= p.x <= width && 0 <= p.y <= height
  }

  predicate InFrame(pts: Points, width: int, height: int) {
    InBox(pts.a, width, height) && InBox(pts.b, width, height) &&
    InBox(pts.c, width, height) && InBox(pts.d, width, height) &&
    InBox(pts.e, width, height) && InBox(pts.f, width, height)
  }

  /** The points sit where the picture of the exclusion zone puts them:
      F is left of the seam through C, D is above E on that seam, and B is
      below A on the left edge. */
  lemma PointsOrdered(width: nat, height: nat)
    ensures CalibrationPoints(width, height).f.x <= CalibrationPoints(width, height).c.x
    ensures CalibrationPoints(width, height).d.y <= CalibrationPoints(width, height).e.y
    ensures CalibrationPoints(width, height).a.y <= CalibrationPoints(width, height).b.y
  {
    var pts := CalibrationPoints(width, height);
    ScaleMonotone(width, FCoeff, CCoeff);
  }

  /** Scaling by a smaller ratio never gives a larger point coordinate. */
  lemma ScaleMonotone(n: nat, r1: Ratio, r2: Ratio)
    requires ValidRatio(r1) && ValidRatio(r2) && r1.den == r2.den && r1.num <= r2.num
    ensures Scale(n, r1) <= Scale(n, r2)
  {
    var s1, s2 := Scale(n, r1), Scale(n, r2);
    MulMono(n, r1.num, r2.num);
    MulStrictMono(s1, s2 + 1, r1.den);
  }

  /** For images at least two pixels on each side, both exclusion triangles
      have a positive area, so the area test on them is the closed
      half-plane test. */
  lemma TrianglesNonDegenerate(width: nat, height: nat)
    requires width >= 2 && height >= 2
    ensures !Degenerate(CalibrationPoints(width, height).a, CalibrationPoints(width, height).b,
                        CalibrationPoints(width, height).c)
    ensures !Degenerate(CalibrationPoints(width, height).d, CalibrationPoints(width, height).e,
                        CalibrationPoints(width, height).f)
  {
    var pts := CalibrationPoints(width, height);
    var bY, cx, dy, fx := pts.b.y, pts.c.x, pts.d.y, pts.f.x;
    ScaleAtLeastOne(height, BCoeff);
    ScaleAtLeastOne(width, CCoeff);
    ScaleBelow(height, DCoeffH);
    SeamRightOfF(width);
    assert Cross(pts.a, pts.b, pts.c) == -(cx * bY);
    assert Cross(pts.d, pts.e, pts.f) == (cx - fx) * (height - dy);
    PositiveProduct(cx, bY);
    PositiveProduct(cx - fx, height - dy);
  }

  lemma ScaleAtLeastOne(n: nat, r: Ratio)
    requires ValidRatio(r) && n * r.num >= r.den
    ensures Scale(n, r) >= 1
  {
    MulStrictMono(1, Scale(n, r) + 1, r.den);
  }

  lemma ScaleBelow(n: nat, r: Ratio)
    requires ValidRatio(r) && n > 0 && r.num < r.den
    ensures Scale(n, r) < n
  {
    MulMono(n, r.num + 1, r.den);
    assert n * (r.num + 1) == n * r.num + n;
    MulStrictMono(Scale(n, r), n, r.den);
  }

  /** F lies strictly left of the seam once the frame is two pixels wide. */
  lemma SeamRightOfF(width: nat)
    requires width >= 2
    ensures Scale(width, FCoeff) < Scale(width, CCoeff)
  {
    var fx, cx := Scale(width, FCoeff), Scale(width, CCoeff);
    ScaleAtLeastOne(width, CCoeff);
    if width < 4 {
      MulStrictMono(fx, 1, 10000);
    } else {
      MulStrictMono(fx + 1, cx + 1, 10000);
    }
  }

  lemma PositiveProduct(a: int, b: int)
    requires a > 0 && b > 0
    ensures a * b > 0
  {
  }

  /** The calibration of a 1920x1080 frame, written out. */
  lemma FullHdPoints()
    ensures CalibrationPoints(1920, 1080) ==
            Points(Point(0, 0), Point(0, 699), Point(1024, 0),
                   Point(1024, 429), Point(1024, 1080), Point(450, 1080))
  {
  }
}
