/** The colour table of the detector and the per-pixel range test that
    turns an image into a binary mask. Channels are in BGR order. */
module Colors {

  type Byte = x: int | 0 <= x < 256

  datatype Pixel = Pixel(b: Byte, g: Byte, r: Byte)

  /** Inclusive lower and upper bounds for each channel. */
  datatype ColorRange = ColorRange(lower: Pixel, upper: Pixel)

  /** An image as rows of pixels. */
  datatype Image = Image(rows: seq<seq<Pixel>>)

  type Mask = seq<seq<bool>>

  /** The registered colours. */
  const Table: map<string, ColorRange> := map[
    "blue" := ColorRange(Pixel(50, 0, 0), Pixel(255, 50, 50)),
    "green" := ColorRange(Pixel(0, 50, 0), Pixel(50, 255, 50)),
    "red" := ColorRange(Pixel(0, 0, 50), Pixel(50, 50, 255))
  ]

  function Height(img: Image): nat {
    |img.rows|
  }

  function Width(img: Image): nat {
    if |img.rows| == 0 then 0 else |img.rows[0]|
  }

  predicate WellOrdered(range: ColorRange) {
    range.lower.b <= range.upper.b &&
    range.lower.g <= range.upper.g &&
    range.lower.r <= range.upper.r
  }

  /** The test `cv2.inRange` applies to each pixel: every channel within its
      inclusive bounds. */
  predicate InRange(p: Pixel, range: ColorRange) {
    range.lower.b <= p.b <= range.upper.b &&
    range.lower.g <= p.g <= range.upper.g &&
    range.lower.r <= p.r <= range.upper.r
  }

  /** The mask of an image: same shape, each cell set exactly when its pixel
      is in range. */
  function MaskOf(img: Image, range: ColorRange): (m: Mask)
    ensures |m| == |img.rows|
    ensures forall i :: 0 <= i < |m| ==> |m[i]| == |img.rows[i]|
    ensures forall i, j :: 0 <= i < |m| && 0 <= j < |m[i]| ==>
              (m[i][j] <==> InRange(img.rows[i][j], range))
  {
    seq(|img.rows|, i requires 0 <= i < |img.rows| =>
      seq(|img.rows[i]|, j requires 0 <= j < |img.rows[i]| => InRange(img.rows[i][j], range)))
  }

  /** Every registered range is non-empty: its bounds are ordered on every
      channel, so both bounds themselves pass the test. */
  lemma TableWellOrdered(name: string)
    requires name in Table
    ensures WellOrdered(Table[name])
    ensures InRange(Table[name].lower, Table[name]) && InRange(Table[name].upper, Table[name])
  {
  }

  /** A range accepts exactly the pixels inside the channel box its bounds
      span; an inverted bound on any channel makes it accept nothing. */
  lemma InRangeNonEmptyIffWellOrdered(range: ColorRange)
    ensures (exists p: Pixel :: InRange(p, range)) <==> WellOrdered(range)
  {
    if WellOrdered(range) {
      assert InRange(range.lower, range);
    }
  }

  /** The registered ranges touch: the grey pixel (50, 50, 50) lies on the
      boundary of all three, so it is set in the mask of every colour. */
  lemma RangesShareGrey()
    ensures forall name :: name in Table ==> InRange(Pixel(50, 50, 50), Table[name])
  {
  }

  /** Apart from that shared boundary the ranges are disjoint: a pixel set
      in the masks of two different colours sits at 50 on both of their
      dominant channels. */
  lemma RangesOverlapOnlyOnBoundary(p: Pixel)
    ensures InRange(p, Table["blue"]) && InRange(p, Table["green"]) <==>
            p.b == 50 && p.g == 50 && p.r <= 50
    ensures InRange(p, Table["blue"]) && InRange(p, Table["red"]) <==>
            p.b == 50 && p.g <= 50 && p.r == 50
    ensures InRange(p, Table["green"]) && InRange(p, Table["red"]) <==>
            p.b <= 50 && p.g == 50 && p.r == 50
  {
  }
}
