# Empty-area detector: geometric acceptance logic

This project models the decision core of the `ColorDetector` class of an
empty-meat detector. The detector looks at a still image of an item on a
production line. It masks the pixels of a configured colour and finds the
contours of the masked regions. It then keeps the contours that count as
"empty holes": regions outside two calibrated exclusion triangles, left of a
vertical seam, and at least 300 units in area. The model covers:

- **Geometry** (`geometry.dfy`). The shoelace triangle area. The source's
  point-in-triangle test: the three sub-areas must add up exactly to the
  whole. Two independent reference definitions of the closed triangle: the
  sign test on cross products and the intersection of three edge
  half-planes. Lemmas connect the area test to both references.
- **Calibration** (`calibration.dfy`). The six points A..F, scaled from the
  image width and height by the coefficients 0.6481, 0.5338, 0.3981 and
  0.2344 and then truncated. Each coefficient is the exact fraction n/10000.
  Truncation is integer floor, because width and height are never negative.
- **Colors** (`colors.dfy`). The BGR colour table and the inclusive
  per-channel range test that `cv2.inRange` applies to each pixel.
- **Counting** (`counting.dfy`). Counting and selecting the elements of a
  list that pass a test, with the one-pass loop the detector runs.
- **Detector** (`detector.dfy`). `is_valid_contour` on a contour summarised
  as its bounding box and area. The count of valid contours. The control flow
  of `identify_color_contours`: its early return on an unknown colour, its
  early return when there are no contours, and its returned id.

In the source the image width and height are instance fields, set during
each call. In the model they are explicit parameters, taken from the image.

All areas are exact. The source computes `abs(S / 2.0)` in floating point,
where S is the integer shoelace sum. `Geometry.Area` keeps that expression
as an exact real, and `Geometry.AreaSumTest` keeps the comparison of
`is_inside` on those halved areas. `Geometry.AreaSumTestIffInside` shows
that this comparison is a comparison of integers: the doubled areas. The
rest of the model uses the integer form, `Geometry.IsInside`.

## Model

| member | source | states |
|---|---|---|
| Geometry.Area | scripts/classes/ColorDetector.py:191 | The area of a triangle is never negative, and twice it is the absolute shoelace sum. |
| Geometry.CrossSplit | scripts/classes/ColorDetector.py:211-221 | The signed areas of the three sub-triangles that P forms always add up to the signed area of the triangle, wherever P is. |
| Geometry.DoubledAreaPermutation | scripts/classes/ColorDetector.py:191 | The triangle area is the same for all six orders of the three vertices. |
| Geometry.AreaSumTestIffInside | scripts/classes/ColorDetector.py:211-224 | The exact-equality test of `is_inside` on halved areas holds iff the doubled integer areas satisfy the same equation, so the test needs no floating point. |
| Geometry.InsideIffSameSide | scripts/classes/ColorDetector.py:195-224 | On every triangle, degenerate ones included, `is_inside` agrees with the closed-triangle sign test: the cross products of P against the three edges never take both strict signs. |
| Geometry.InsideIffHalfPlanes | scripts/classes/ColorDetector.py:195-224 | On a triangle of non-zero area, `is_inside` holds iff P is on the closed side of each edge that holds the opposite vertex. A point strictly beyond any edge is outside. |
| Geometry.DegenerateInside | scripts/classes/ColorDetector.py:211-224 | On a zero-area triangle, `is_inside` accepts exactly the points whose three sub-areas all vanish. This includes points on the line beyond the segment. |
| Geometry.VerticesInside | scripts/classes/ColorDetector.py:211-224 | Each vertex of a triangle satisfies `is_inside`. |
| Geometry.EdgePointInside | scripts/classes/ColorDetector.py:211-224 | A point on edge t1t2 satisfies `is_inside`. Its sub-area against that edge is zero, and the other two sub-areas add up exactly to the whole. |
| Geometry.InsidePermutation | scripts/classes/ColorDetector.py:195-224 | `is_inside` does not depend on the order in which the vertices are given. |
| Geometry.EdgesInside | scripts/classes/ColorDetector.py:211-224 | Every point on any of the three edges satisfies `is_inside`. |
| Calibration.Scale | scripts/classes/ColorDetector.py:147-151 | `int(n * coefficient)` is the floor of the exact product: the largest s with s·den ≤ n·num. It is never more than n. |
| Calibration.CalibrationPoints | scripts/classes/ColorDetector.py:146-151 | A is the origin. B lies on x = 0 and C lies on y = 0. E and F lie on y = H. D and E share C's x. All six points lie in [0,W]×[0,H]. |
| Calibration.PointsOrdered | scripts/classes/ColorDetector.py:146-151 | F is at or left of the seam through C, D is at or above E, and B is at or below A. |
| Calibration.ScaleMonotone | scripts/classes/ColorDetector.py:38-42 | A smaller coefficient never gives a larger truncated coordinate. |
| Calibration.TrianglesNonDegenerate | scripts/classes/ColorDetector.py:146-151 | When W and H are both at least 2, triangles ABC and DEF both have non-zero area. |
| Calibration.FullHdPoints | scripts/classes/ColorDetector.py:38-42 | On a 1920x1080 frame the points are (0,0), (0,699), (1024,0), (1024,429), (1024,1080) and (450,1080). |
| Colors.MaskOf | scripts/classes/ColorDetector.py:70 | The mask has the image's shape, and a cell is set iff every channel of its pixel is within the inclusive bounds. |
| Colors.TableWellOrdered | scripts/classes/ColorDetector.py:30-35 | Every registered range has lower ≤ upper on each channel, so both of its bounds pass the range test. |
| Colors.InRangeNonEmptyIffWellOrdered | scripts/classes/ColorDetector.py:70 | A range accepts some pixel iff its bounds are ordered on every channel. |
| Colors.RangesShareGrey | scripts/classes/ColorDetector.py:30-35 | The pixel (50,50,50) is in all three registered ranges. |
| Colors.RangesOverlapOnlyOnBoundary | scripts/classes/ColorDetector.py:30-35 | A pixel lies in two registered ranges iff both of their dominant channels equal 50 and the third channel is at most 50. |
| Detector.SmallContourRejected | scripts/classes/ColorDetector.py:173 | A contour with area below 300 is invalid, whatever its position. |
| Detector.PastSeamRejected | scripts/classes/ColorDetector.py:173 | A contour with x + w > C.x is invalid, whatever its area. |
| Detector.ExcludedTriangleRejected | scripts/classes/ColorDetector.py:152-173 | If P = (x+w, y+h) lies in the closed triangle ABC or DEF, judged by the reference sign test, the contour is invalid, whatever its area. |
| Detector.EdgeOfExclusionRejected | scripts/classes/ColorDetector.py:152-173 | If P lies on any edge of ABC or DEF, the contour is invalid: the exact comparison treats the boundary as inside. |
| Detector.ValidIffOutsideClosedTriangles | scripts/classes/ColorDetector.py:132-173 | A contour is valid iff P is outside both closed triangles under the reference sign test, P.x ≤ C.x, and area ≥ 300. |
| Detector.ValidIffOutsideHalfPlanes | scripts/classes/ColorDetector.py:132-173 | When W, H ≥ 2, a contour is valid iff P is strictly beyond some edge of each triangle, P.x ≤ C.x, and area ≥ 300. |
| Detector.AreaFloorInclusive | scripts/classes/ColorDetector.py:173 | On a 1920x1080 frame, a box with corner (700,500) in the central band is accepted at area 300 and rejected at area 299. |
| Counting.Count | scripts/classes/ColorDetector.py:73-82 | The number of contours that pass never exceeds the number of contours. |
| Counting.Filter | scripts/classes/ColorDetector.py:77-82 | The selected contours are the passing ones: their number is the count, each comes from the list and passes, and every passing contour is among them. |
| Counting.FilterMultiplicity | scripts/classes/ColorDetector.py:77-82 | Each passing contour occurs in the selection exactly as often as in the list, and a failing one never occurs. |
| Counting.FilterAppend | scripts/classes/ColorDetector.py:77-82 | Selecting from a concatenation is selecting from each part and concatenating, so the boxed contours keep the order in which contours are visited. |
| Counting.CountExtremes | scripts/classes/ColorDetector.py:73-82 | The count equals the number of contours iff every contour passes. It is zero iff none passes. |
| Counting.CountAppend | scripts/classes/ColorDetector.py:77-82 | The count of a concatenation is the sum of the counts of its parts. |
| Counting.CountPermutation | scripts/classes/ColorDetector.py:71-82 | Two lists with the same contours give the same count, so the order in which contours are found does not matter. |
| Counting.CountAndMark | scripts/classes/ColorDetector.py:73-84 | The loop that increments `empty_holes` and draws a rectangle per accepted contour ends with the count of passing contours and exactly the passing contours, in order. |
| Detector.DefaultColorRegistered | scripts/classes/ColorDetector.py:45 | The default colour "green" is in the table and has ordered bounds, so a call that names no colour never takes the unknown-colour exit. |
| Detector.IdentifyColorContours | scripts/classes/ColorDetector.py:45-102 | The outcome is the unknown-colour exit iff the colour is not in the table, and then "" is returned with no image work: the outcome depends on neither the image nor the contour finder. For a known colour the images are saved iff the contour list is non-empty, and the id is returned exactly then, even when no contour is valid. When saved, `empty_holes` is the count of valid contours, at most the number of contours, and the boxed contours are exactly the valid ones. |

## Left out

- Detector.IdentifyColorContours: the two `cv2.imwrite` calls (ColorDetector.py:86-97) and the red rectangles drawn by `cv2.rectangle` are represented only by the `Saved` outcome and its list of boxed contours. File paths, extensions and pixel drawing are not modelled.
- `cv2.findContours`, `cv2.boundingRect` and `cv2.contourArea` are library calls whose behaviour is not visible here. The contour finder is a function parameter of the shell. A contour arrives as its bounding box and its area, and the area is an opaque real compared against 300.
- `cv2.imread`: the image is an input. A failed read returns `None` in the source and crashes at `image.shape`; that path is not modelled.
- Floating point: the calibration products `H*0.6481` etc. are modelled as exact rationals, then floored. For very large dimensions, IEEE rounding before `int()` could in principle differ from the rational floor. This is a modelling assumption.
- Floating point: the areas `abs(S / 2.0)` and their sum in `is_inside` are exact reals in the model. This matches doubles as long as every doubled area stays below 2^53, which holds for any image with sides below about 2^26 pixels.
- The default argument `color="green"` of ColorDetector.py:45 is `Detector.DefaultColor`; callers pass it explicitly, since the method has no optional parameters.
- The id is `str(int(time.time()))` in the source (ColorDetector.py:58). Here it is a parameter, because it comes from the clock.
- All logger calls are left out; they only write log lines.
- `print_triangle_lines` (ColorDetector.py:105-129) is left out; it only draws lines on an image.
- `scripts/classes/app.py` (HTTP routing, token check, JSON framing), `scripts/classes/Logger.py`, `scripts/classes/module.py` (paths, directory creation, base64 file writing) and `scripts/main.py` (a command-line masking script) are I/O and configuration. None of them is part of this model.
- The calibration coefficients are the fixed literals of ColorDetector.py:38-42. `cv2.contourArea` returns a polygon area that may be fractional, so the contour area is a real.
- The source returns "" both for an unknown colour and for an image without contours, so callers cannot tell these cases apart. The model's `Outcome` keeps them separate but returns the same string.
