/** The detector's decision logic: which contours count as empty areas,
    how many there are, and what `identify_color_contours` returns.
    Contour extraction itself (`cv2.findContours`, `cv2.boundingRect`,
    `cv2.contourArea`) is not modelled: a contour arrives as its bounding
    box and its area. */
module Detector {
  import opened Geometry
  import opened Calibration
  import opened Colors
  import opened Counting

  /** A contour summarised by its bounding box (x, y, w, h) and its area. */
  datatype Contour = Contour(x: int, y: int, w: int, h: int, area: real)

  /** The noise floor below which a contour is ignored. */
  const MinArea: real := 300.0

  /** The bottom-right corner of the bounding box, the point tested
      against the exclusion zone. */
  function TestPoint(c: Contour): Point {
    Point(c.x + c.w, c.y + c.h)
  }

  /** `is_valid_contour` for an image of the given size. */
  predicate IsValidContour(width: nat, height: nat, c: Contour) {
    var pts := CalibrationPoints(width, height);
    var p := TestPoint(c);
    !IsInside(pts.a, pts.b, pts.c, p) &&
    !IsInside(pts.d, pts.e, pts.f, p) &&
    c.x + c.w <= pts.c.x &&
    c.area >= MinArea
  }

  // ---------------------------------------------------------------------
  // Each condition on its own rejects

  /** A contour smaller than the noise floor is never valid. */
  lemma SmallContourRejected(width: nat, height: nat, c: Contour)
    requires c.area < MinArea
    ensures !IsValidContour(width, height, c)
  {
  }

  /** A contour reaching past the vertical seam through C is never valid. */
  lemma PastSeamRejected(width: nat, height: nat, c: Contour)
    requires c.x + c.w > CalibrationPoints(width, height).c.x
    ensures !IsValidContour(width, height, c)
  {
  }

  /** A contour whose test point lies in the closed triangle ABC or DEF,
      judged by the sign-of-cross-products test, is never valid, whatever
      its area. */
  lemma ExcludedTriangleRejected(width: nat, height: nat, c: Contour)
    requires var pts := CalibrationPoints(width, height);
             SameSideOfAllEdges(pts.a, pts.b, pts.c, TestPoint(c)) ||
             SameSideOfAllEdges(pts.d, pts.e, pts.f, TestPoint(c))
    ensures !IsValidContour(width, height, c)
  {
    var pts := CalibrationPoints(width, height);
    InsideIffSameSide(pts.a, pts.b, pts.c, TestPoint(c));
    InsideIffSameSide(pts.d, pts.e, pts.f, TestPoint(c));
  }

  /** A contour whose test point lies on any edge of either triangle is
      rejected: the exact area comparison counts the boundary as inside. */
  lemma EdgeOfExclusionRejected(width: nat, height: nat, c: Contour, k: int, t: int)
    requires var pts := CalibrationPoints(width, height);
             var p := TestPoint(c);
             OnSegment(pts.a, pts.b, p, k, t) || OnSegment(pts.b, pts.c, p, k, t) ||
             OnSegment(pts.c, pts.a, p, k, t) || OnSegment(pts.d, pts.e, p, k, t) ||
             OnSegment(pts.e, pts.f, p, k, t) || OnSegment(pts.f, pts.d, p, k, t)
    ensures !IsValidContour(width, height, c)
  {
    var pts := CalibrationPoints(width, height);
    var p := TestPoint(c);
    if OnSegment(pts.a, pts.b, p, k, t) || OnSegment(pts.b, pts.c, p, k, t) ||
       OnSegment(pts.c, pts.a, p, k, t) {
      EdgesInside(pts.a, pts.b, pts.c, p, k, t);
    } else {
      EdgesInside(pts.d, pts.e, pts.f, p, k, t);
    }
  }

  // ---------------------------------------------------------------------
  // Validity against the reference geometry

  /** Validity in terms of the closed triangles of the reference test:
      the test point is outside both, left of or on the seam, and the area
      reaches the floor. */
  lemma ValidIffOutsideClosedTriangles(width: nat, height: nat, c: Contour)
    ensures IsValidContour(width, height, c) <==>
            var pts := CalibrationPoints(width, height);
            var p := TestPoint(c);
            !SameSideOfAllEdges(pts.a, pts.b, pts.c, p) &&
            !SameSideOfAllEdges(pts.d, pts.e, pts.f, p) &&
            p.x <= pts.c.x && c.area >= MinArea
  {
    var pts := CalibrationPoints(width, height);
    InsideIffSameSide(pts.a, pts.b, pts.c, TestPoint(c));
    InsideIffSameSide(pts.d, pts.e, pts.f, TestPoint(c));
  }

  /** On a frame at least two pixels each way, a test point is excluded by
      a triangle exactly when it lies in all three of its closed edge
      half-planes; a valid contour is therefore strictly beyond some edge
      of each triangle. */
  lemma ValidIffOutsideHalfPlanes(width: nat, height: nat, c: Contour)
    requires width >= 2 && height >= 2
    ensures IsValidContour(width, height, c) <==>
            var pts := CalibrationPoints(width, height);
            var p := TestPoint(c);
            !InHalfPlanes(pts.a, pts.b, pts.c, p) &&
            !InHalfPlanes(pts.d, pts.e, pts.f, p) &&
            p.x <= pts.c.x && c.area >= MinArea
  {
    var pts := CalibrationPoints(width, height);
    TrianglesNonDegenerate(width, height);
    InsideIffHalfPlanes(pts.a, pts.b, pts.c, TestPoint(c));
    InsideIffHalfPlanes(pts.d, pts.e, pts.f, TestPoint(c));
  }

  /** On a 1920x1080 frame, a 100x100 box with corner (700, 500) in the
      central band is accepted at area 300 and rejected at area 299. */
  lemma AreaFloorInclusive()
    ensures IsValidContour(1920, 1080, Contour(600, 400, 100, 100, 300.0))
    ensures !IsValidContour(1920, 1080, Contour(600, 400, 100, 100, 299.0))
  {
    FullHdPoints();
    var p := Point(700, 500);
    InsideIffSameSide(Point(0, 0), Point(0, 699), Point(1024, 0), p);
    InsideIffSameSide(Point(1024, 429), Point(1024, 1080), Point(450, 1080), p);
  }

  // ---------------------------------------------------------------------
  // Counting

  /** The validity test for one frame size, as a predicate on contours. */
  function ValidIn(width: nat, height: nat): Contour -> bool {
    c => IsValidContour(width, height, c)
  }

  // ---------------------------------------------------------------------
  // The decision shell

  /** What one call does: stop on an unknown colour, stop when the mask
      has no contours, or count the valid contours and save both images. */
  datatype Outcome =
    | InvalidColor
    | NoContours
    | Saved(emptyHoles: nat, marked: seq<Contour>)

  /** The colour searched for when the caller names none. */
  const DefaultColor: string := "green"

  /** The default colour is registered, so a call without a colour never
      takes the unknown-colour exit. */
  lemma DefaultColorRegistered()
    ensures DefaultColor in Table
    ensures WellOrdered(Table[DefaultColor])
  {
  }

  /** `identify_color_contours`: `id` stands for the timestamp the source
      reads from the clock, `findContours` for the OpenCV contour finder
      applied to the colour mask. The returned string is `id` when the
      frame and mask were saved and empty otherwise. */
  method IdentifyColorContours(img: Image, color: string, id: string, findContours: Mask -> seq<Contour>)
    returns (ret: string, outcome: Outcome)
    ensures outcome == InvalidColor <==> color !in Table
    ensures color !in Table ==> ret == ""
    ensures color in Table ==>
              var cs := findContours(MaskOf(img, Table[color]));
              (|cs| == 0 <==> outcome == NoContours) &&
              (|cs| > 0 <==> outcome.Saved?) &&
              (|cs| > 0 ==> ret == id) &&
              (|cs| == 0 ==> ret == "")
    ensures outcome.Saved? ==>
              var cs := findContours(MaskOf(img, Table[color]));
              outcome.emptyHoles == Count(ValidIn(Width(img), Height(img)), cs) &&
              outcome.emptyHoles <= |cs| &&
              outcome.marked == Filter(ValidIn(Width(img), Height(img)), cs)
  {
    if color !in Table {
      return "", InvalidColor;
    }
    var height, width := Height(img), Width(img);
    var mask := MaskOf(img, Table[color]);
    var contours := findContours(mask);
    if |contours| > 0 {
      var emptyHoles, marked := CountAndMark(ValidIn(width, height), contours);
      return id, Saved(emptyHoles, marked);
    }
    return "", NoContours;
  }
}
