/** Geometry read by the pinch detector: fingertip landmarks, the button
    hit-region, p5's linear `map` and the depth-adjusted pinch threshold.
    Coordinates are reals; the planar distance is never taken as a square
    root but compared through its square, which is exact because a distance
    is never negative. */
module Geometry {

  /** A landmark as the hand-pose model reports it: canvas x and y, and a
      relative depth z (smaller is nearer the camera). */
  datatype Point3 = Point3(x: real, y: real, z: real)

  datatype Vec2 = Vec2(x: real, y: real)

  /** One hand prediction, reduced to the two fingertips the detector reads
      (`annotations.thumb[3]` and `annotations.indexFinger[3]`). */
  datatype Hand = Hand(thumb: Point3, index: Point3)

  /** Axis-aligned button rectangle given by its top-left corner and size. */
  datatype Region = Region(pos: Vec2, size: Vec2)

  const CanvasWidth: real := 640.0
  const CanvasHeight: real := 480.0

  /** The button: top-left corner at the canvas centre, 200 by 200. */
  const ButtonArea: Region :=
    Region(Vec2(CanvasWidth / 2.0, CanvasHeight / 2.0), Vec2(200.0, 200.0))

  /** Anchors of the depth remap: a thumb at depth 20 allows a pinch gap of
      20, a thumb at depth -50 (nearer the camera) a gap of 50. */
  const FarDepth: real := 20.0
  const NearDepth: real := -50.0
  const FarGap: real := 20.0
  const NearGap: real := 50.0

  /** p5's `map`: the value at `v` of the line through (start1, start2) and
      (stop1, stop2). It is not clamped to the output range. */
  function Remap(v: real, start1: real, stop1: real, start2: real, stop2: real): (r: real)
    requires start1 != stop1
    ensures (r - start2) * (stop1 - start1) == (v - start1) * (stop2 - start2)
  {
    (v - start1) / (stop1 - start1) * (stop2 - start2) + start2
  }

  /** The largest planar thumb-to-index gap, exclusive, that counts as a
      pinch when the thumb is at depth `z`. */
  function Threshold(z: real): (t: real)
  {
    Remap(z, FarDepth, NearDepth, FarGap, NearGap)
  }

  /** The remap meets both anchors and is the line 7 t = 200 - 3 z. */
  lemma ThresholdLine(z: real)
    ensures 7.0 * Threshold(z) == 200.0 - 3.0 * z
    ensures Threshold(FarDepth) == FarGap && Threshold(NearDepth) == NearGap
  {
  }

  /** A thumb nearer the camera (smaller z) allows a strictly larger gap. */
  lemma ThresholdDecreasing(z1: real, z2: real)
    requires z1 < z2
    ensures Threshold(z1) > Threshold(z2)
  {
  }

  /** Squared planar distance between thumb tip and index tip; depth is ignored. */
  function SqPlanarDist(h: Hand): (r: real)
    ensures r >= 0.0
  {
    var dx := h.index.x - h.thumb.x;
    var dy := h.index.y - h.thumb.y;
    dx * dx + dy * dy
  }

  /** The pinch test `dist(thumb, index) < threshold`, without the square root. */
  predicate IsClose(h: Hand)
  {
    var t := Threshold(h.thumb.z);
    t > 0.0 && SqPlanarDist(h) < t * t
  }

  /** For the true planar distance `d` (the non-negative root of the squared
      distance), the square-free test agrees with `d < threshold`. */
  lemma CloseIffDistBelowThreshold(h: Hand, d: real)
    requires d >= 0.0 && d * d == SqPlanarDist(h)
    ensures IsClose(h) <==> d < Threshold(h.thumb.z)
  {
    var t := Threshold(h.thumb.z);
    if d < t {
      SquareStrictlyMonotone(d, t);
    } else if t > 0.0 {
      if t < d {
        SquareStrictlyMonotone(t, d);
      }
    }
  }

  /** Squaring is strictly increasing on the non-negative reals. */
  lemma SquareStrictlyMonotone(a: real, b: real)
    requires 0.0 <= a < b
    ensures a * a < b * b
  {
    ProductOfPositives(b - a, b + a);
    assert (b - a) * (b + a) == b * b - a * a;
  }

  lemma ProductOfPositives(x: real, y: real)
    requires x > 0.0 && y > 0.0
    ensures x * y > 0.0
  {
  }

  /** A thumb at depth 200/3 or beyond gets a non-positive threshold, so such
      a hand never pinches, however close its fingertips. */
  lemma FarThumbNeverCloses(h: Hand)
    requires h.thumb.z >= 200.0 / 3.0
    ensures !IsClose(h)
  {
  }

  /** The release test: the thumb strictly inside the rectangle on all four sides. */
  predicate InRegion(area: Region, p: Point3)
  {
    && area.pos.x < p.x < area.pos.x + area.size.x
    && area.pos.y < p.y < area.pos.y + area.size.y
  }

  /** A thumb exactly on any edge line of the rectangle is outside it. */
  lemma EdgeIsOutside(area: Region, p: Point3)
    requires || p.x == area.pos.x || p.x == area.pos.x + area.size.x
             || p.y == area.pos.y || p.y == area.pos.y + area.size.y
    ensures !InRegion(area, p)
  {
  }

  /** The default button spans (320, 240) to (520, 440) exclusive: it is not
      centred, its top-left corner is the canvas centre. */
  lemma ButtonAreaBounds(p: Point3)
    ensures InRegion(ButtonArea, p) <==> 320.0 < p.x < 520.0 && 240.0 < p.y < 440.0
  {
  }

}
