/** Triangle geometry used by the colour detector's exclusion zone:
    the shoelace area of a triangle and the "sum of the three sub-areas"
    point-in-triangle test, together with an independent reference
    definition of the closed triangle (signs of cross products) and the
    lemmas connecting the two. All coordinates are integers. */
module Geometry {

  datatype Point = Point(x: int, y: int)

  function Abs(n: int): nat {
    if n < 0 then -n else n
  }

  /** The shoelace sum x1(y2-y3) + x2(y3-y1) + x3(y1-y2): twice the signed
      area of the triangle, positive when the vertices turn anticlockwise
      (in a y-up frame) and zero when they are collinear. */
  function Cross(p1: Point, p2: Point, p3: Point): int {
    p1.x * (p2.y - p3.y) + p2.x * (p3.y - p1.y) + p3.x * (p1.y - p2.y)
  }

  /** Twice the unsigned area: the integer behind the source's `area`. */
  function DoubledArea(p1: Point, p2: Point, p3: Point): nat {
    Abs(Cross(p1, p2, p3))
  }

  /** The source's `area`: the absolute shoelace sum halved, kept as an
      exact real. */
  function Area(p1: Point, p2: Point, p3: Point): (a: real)
    ensures a >= 0.0
    ensures a * 2.0 == DoubledArea(p1, p2, p3) as real
  {
    if Cross(p1, p2, p3) < 0 then -(Cross(p1, p2, p3) as real) / 2.0
    else Cross(p1, p2, p3) as real / 2.0
  }

  /** The comparison `is_inside` makes, on the halved areas: P is inside
      triangle (t1, t2, t3) when the areas of the three triangles P forms
      with the edges add up exactly to the area of the whole triangle. */
  predicate AreaSumTest(t1: Point, t2: Point, t3: Point, p: Point) {
    Area(t1, t2, t3) == Area(p, t2, t3) + Area(t1, p, t3) + Area(t1, t2, p)
  }

  /** `is_inside` decided on integers: the same equation on doubled areas. */
  predicate IsInside(t1: Point, t2: Point, t3: Point, p: Point) {
    DoubledArea(t1, t2, t3) ==
    DoubledArea(p, t2, t3) + DoubledArea(t1, p, t3) + DoubledArea(t1, t2, p)
  }

  /** Reference definition of the closed triangle: the three cross products
      of P against the directed edges t1t2, t2t3, t3t1 never take both a
      strictly positive and a strictly negative sign. */
  predicate SameSideOfAllEdges(t1: Point, t2: Point, t3: Point, p: Point) {
    var d1 := Cross(t1, t2, p);
    var d2 := Cross(t2, t3, p);
    var d3 := Cross(t3, t1, p);
    !((d1 < 0 || d2 < 0 || d3 < 0) && (d1 > 0 || d2 > 0 || d3 > 0))
  }

  /** Half-plane definition: for each edge, P lies on the closed side of the
      edge's line that holds the opposite vertex. */
  predicate InHalfPlanes(t1: Point, t2: Point, t3: Point, p: Point) {
    Cross(t2, t3, t1) * Cross(t2, t3, p) >= 0 &&
    Cross(t3, t1, t2) * Cross(t3, t1, p) >= 0 &&
    Cross(t1, t2, t3) * Cross(t1, t2, p) >= 0
  }

  predicate Degenerate(t1: Point, t2: Point, t3: Point) {
    Cross(t1, t2, t3) == 0
  }

  // ---------------------------------------------------------------------
  // Algebra of the shoelace sum

  /** Swapping two vertices negates the signed area; rotating keeps it. */
  lemma CrossSymmetries(p1: Point, p2: Point, p3: Point)
    ensures Cross(p2, p1, p3) == -Cross(p1, p2, p3)
    ensures Cross(p1, p3, p2) == -Cross(p1, p2, p3)
    ensures Cross(p3, p2, p1) == -Cross(p1, p2, p3)
    ensures Cross(p2, p3, p1) == Cross(p1, p2, p3)
    ensures Cross(p3, p1, p2) == Cross(p1, p2, p3)
  {
  }

  /** The signed sub-areas always add up to the signed whole, wherever P is;
      only their absolute values can fail to. */
  lemma CrossSplit(t1: Point, t2: Point, t3: Point, p: Point)
    ensures Cross(p, t2, t3) + Cross(t1, p, t3) + Cross(t1, t2, p) == Cross(t1, t2, t3)
  {
  }

  /** The doubled area is invariant under every permutation of the vertices. */
  lemma DoubledAreaPermutation(p1: Point, p2: Point, p3: Point)
    ensures DoubledArea(p1, p3, p2) == DoubledArea(p1, p2, p3)
    ensures DoubledArea(p2, p1, p3) == DoubledArea(p1, p2, p3)
    ensures DoubledArea(p2, p3, p1) == DoubledArea(p1, p2, p3)
    ensures DoubledArea(p3, p1, p2) == DoubledArea(p1, p2, p3)
    ensures DoubledArea(p3, p2, p1) == DoubledArea(p1, p2, p3)
  {
    CrossSymmetries(p1, p2, p3);
  }

  // ---------------------------------------------------------------------
  // The area test decided over integers

  /** The comparison of halved areas in `is_inside` is exactly the
      comparison of the integer doubled areas. */
  lemma AreaSumTestIffInside(t1: Point, t2: Point, t3: Point, p: Point)
    ensures AreaSumTest(t1, t2, t3, p) <==> IsInside(t1, t2, t3, p)
  {
    var a, a1, a2, a3 := Area(t1, t2, t3), Area(p, t2, t3), Area(t1, p, t3), Area(t1, t2, p);
    assert a * 2.0 == DoubledArea(t1, t2, t3) as real;
    assert (a1 + a2 + a3) * 2.0 ==
           (DoubledArea(p, t2, t3) + DoubledArea(t1, p, t3) + DoubledArea(t1, t2, p)) as real;
  }

  /** Three integers summing to s have absolute values summing to |s| exactly
      when none of them has the sign opposite to another. */
  lemma AbsSumTight(s: int, a: int, b: int, c: int)
    requires a + b + c == s
    ensures Abs(s) == Abs(a) + Abs(b) + Abs(c) <==>
            !((a < 0 || b < 0 || c < 0) && (a > 0 || b > 0 || c > 0))
  {
  }

  /** The area test agrees with the closed-triangle sign test on every
      triangle, degenerate ones included. */
  lemma InsideIffSameSide(t1: Point, t2: Point, t3: Point, p: Point)
    ensures IsInside(t1, t2, t3, p) <==> SameSideOfAllEdges(t1, t2, t3, p)
  {
    CrossSplit(t1, t2, t3, p);
    CrossSymmetries(p, t2, t3);
    CrossSymmetries(t1, p, t3);
    AbsSumTight(Cross(t1, t2, t3), Cross(p, t2, t3), Cross(t1, p, t3), Cross(t1, t2, p));
  }

  /** On a non-degenerate triangle the area test is the intersection of the
      three closed half-planes bounded by the edges; a point strictly on the
      far side of any edge is reported outside. */
  lemma InsideIffHalfPlanes(t1: Point, t2: Point, t3: Point, p: Point)
    requires !Degenerate(t1, t2, t3)
    ensures IsInside(t1, t2, t3, p) <==> InHalfPlanes(t1, t2, t3, p)
  {
    InsideIffSameSide(t1, t2, t3, p);
    CrossSplit(t1, t2, t3, p);
    CrossSymmetries(t1, t2, t3);
    CrossSymmetries(p, t2, t3);
    CrossSymmetries(t1, p, t3);
    var s := Cross(t1, t2, t3);
    var d1, d2, d3 := Cross(t1, t2, p), Cross(t2, t3, p), Cross(t3, t1, p);
    assert d1 + d2 + d3 == s;
    if s > 0 {
      SignOfProduct(s, d1);
      SignOfProduct(s, d2);
      SignOfProduct(s, d3);
    } else {
      SignOfProduct(s, d1);
      SignOfProduct(s, d2);
      SignOfProduct(s, d3);
    }
  }

  lemma SignOfProduct(s: int, d: int)
    requires s != 0
    ensures s * d >= 0 <==> (s > 0 && d >= 0) || (s < 0 && d <= 0)
  {
    if s > 0 {
      if d < 0 { assert s * d <= d; }
    } else {
      if d > 0 { assert s * d <= -d; }
    }
  }

  /** On a degenerate triangle the area test accepts exactly the points whose
      three sub-areas all vanish, so a point on the common line beyond the
      end of the segment still counts as inside. */
  lemma DegenerateInside(t1: Point, t2: Point, t3: Point, p: Point)
    requires Degenerate(t1, t2, t3)
    ensures IsInside(t1, t2, t3, p) <==>
            Cross(p, t2, t3) == 0 && Cross(t1, p, t3) == 0 && Cross(t1, t2, p) == 0
  {
    InsideIffSameSide(t1, t2, t3, p);
    CrossSplit(t1, t2, t3, p);
    CrossSymmetries(p, t2, t3);
    CrossSymmetries(t1, p, t3);
  }

  // ---------------------------------------------------------------------
  // Boundary behaviour

  /** Each vertex is inside its triangle. */
  lemma VerticesInside(t1: Point, t2: Point, t3: Point)
    ensures IsInside(t1, t2, t3, t1)
    ensures IsInside(t1, t2, t3, t2)
    ensures IsInside(t1, t2, t3, t3)
  {
    InsideIffSameSide(t1, t2, t3, t1);
    InsideIffSameSide(t1, t2, t3, t2);
    InsideIffSameSide(t1, t2, t3, t3);
  }

  /** P lies on segment ab at parameter t/k: k*P == (k-t)*a + t*b with
      0 <= t <= k. Every integer point of the segment has this form. */
  predicate OnSegment(a: Point, b: Point, p: Point, k: int, t: int) {
    0 < k && 0 <= t <= k &&
    k * p.x == (k - t) * a.x + t * b.x &&
    k * p.y == (k - t) * a.y + t * b.y
  }

  /** The shoelace sum as the cross product of the edge vectors leaving p1. */
  lemma CrossAsEdgeVectors(p1: Point, p2: Point, p3: Point)
    ensures Cross(p1, p2, p3) ==
            (p2.x - p1.x) * (p3.y - p1.y) - (p2.y - p1.y) * (p3.x - p1.x)
  {
  }

  /** Scaling the vector from a to the third vertex scales the signed area:
      if k*(p - a) == m*(q - a) then k*Cross(a, c, p) == m*Cross(a, c, q). */
  lemma CrossScaled(a: Point, c: Point, p: Point, q: Point, k: int, m: int)
    requires k * (p.x - a.x) == m * (q.x - a.x)
    requires k * (p.y - a.y) == m * (q.y - a.y)
    ensures k * Cross(a, c, p) == m * Cross(a, c, q)
  {
    CrossAsEdgeVectors(a, c, p);
    CrossAsEdgeVectors(a, c, q);
    ScaledDeterminant(c.x - a.x, c.y - a.y, p.x - a.x, p.y - a.y, q.x - a.x, q.y - a.y, k, m);
  }

  lemma ScaledDeterminant(ux: int, uy: int, vx: int, vy: int, wx: int, wy: int, k: int, m: int)
    requires k * vx == m * wx && k * vy == m * wy
    ensures k * (ux * vy - uy * vx) == m * (ux * wy - uy * wx)
  {
    calc {
      k * (ux * vy - uy * vx);
      ux * (k * vy) - uy * (k * vx);
      ux * (m * wy) - uy * (m * wx);
      m * (ux * wy - uy * wx);
    }
  }

  /** The signed area against a point of segment t1t2 is the matching
      mix of the areas against the two end points. */
  lemma CrossOnSegment(t1: Point, t2: Point, t3: Point, p: Point, k: int, t: int)
    requires OnSegment(t1, t2, p, k, t)
    ensures k * Cross(t1, t2, p) == 0
    ensures k * Cross(p, t2, t3) == (k - t) * Cross(t1, t2, t3)
    ensures k * Cross(t1, p, t3) == t * Cross(t1, t2, t3)
  {
    // k*(p - t1) == t*(t2 - t1) and k*(p - t2) == (k - t)*(t1 - t2)
    CrossScaled(t1, t2, p, t2, k, t);
    CrossSymmetries(t1, t2, t2);
    CrossScaled(t1, t3, p, t2, k, t);
    CrossScaled(t2, t3, p, t1, k, k - t);
    CrossSymmetries(t1, p, t3);
    CrossSymmetries(p, t2, t3);
    CrossSymmetries(t1, t2, t3);
  }

  /** A point on the edge t1t2 is inside: its sub-area against that edge is
      zero and the other two sub-areas add up exactly to the whole. */
  lemma EdgePointInside(t1: Point, t2: Point, t3: Point, p: Point, k: int, t: int)
    requires OnSegment(t1, t2, p, k, t)
    ensures DoubledArea(t1, t2, p) == 0
    ensures DoubledArea(p, t2, t3) + DoubledArea(t1, p, t3) == DoubledArea(t1, t2, t3)
    ensures IsInside(t1, t2, t3, p)
  {
    CrossOnSegment(t1, t2, t3, p, k, t);
    var s, e1, e2, e3 := Cross(t1, t2, t3), Cross(p, t2, t3), Cross(t1, p, t3), Cross(t1, t2, p);
    ZeroFactor(k, e3);
    SameSignFactor(k, e1, k - t, s);
    SameSignFactor(k, e2, t, s);
    CrossSplit(t1, t2, t3, p);
    AbsSumTight(s, e1, e2, e3);
  }

  /** If k*v == m*s with k > 0 and m >= 0, then v never has the sign
      opposite to s. */
  lemma SameSignFactor(k: int, v: int, m: int, s: int)
    requires k > 0 && m >= 0 && k * v == m * s
    ensures s >= 0 ==> v >= 0
    ensures s <= 0 ==> v <= 0
  {
    if s >= 0 {
      assert m * s >= 0;
      NonNegFactor(k, v, m * s);
    } else {
      assert m * s <= 0;
      NonPosFactor(k, v, m * s);
    }
  }

  lemma ZeroFactor(k: int, v: int)
    requires k > 0 && k * v == 0
    ensures v == 0
  {
  }

  lemma NonNegFactor(k: int, v: int, m: int)
    requires k > 0 && k * v == m && m >= 0
    ensures v >= 0
  {
  }

  lemma NonPosFactor(k: int, v: int, m: int)
    requires k > 0 && k * v == m && m <= 0
    ensures v <= 0
  {
  }

  /** The area test does not depend on the order of the vertices. */
  lemma InsidePermutation(t1: Point, t2: Point, t3: Point, p: Point)
    ensures IsInside(t2, t1, t3, p) == IsInside(t1, t2, t3, p)
    ensures IsInside(t2, t3, t1, p) == IsInside(t1, t2, t3, p)
  {
    InsideIffSameSide(t1, t2, t3, p);
    InsideIffSameSide(t2, t1, t3, p);
    InsideIffSameSide(t2, t3, t1, p);
    CrossSymmetries(t1, t2, p);
    CrossSymmetries(t2, t3, p);
    CrossSymmetries(t3, t1, p);
  }

  /** Every point of every edge is inside. */
  lemma EdgesInside(t1: Point, t2: Point, t3: Point, p: Point, k: int, t: int)
    requires OnSegment(t1, t2, p, k, t) || OnSegment(t2, t3, p, k, t) || OnSegment(t3, t1, p, k, t)
    ensures IsInside(t1, t2, t3, p)
  {
    InsidePermutation(t1, t2, t3, p);
    InsidePermutation(t2, t3, t1, p);
    if OnSegment(t1, t2, p, k, t) {
      EdgePointInside(t1, t2, t3, p, k, t);
    } else if OnSegment(t2, t3, p, k, t) {
      EdgePointInside(t2, t3, t1, p, k, t);
    } else {
      EdgePointInside(t3, t1, t2, p, k, t);
    }
  }
}
