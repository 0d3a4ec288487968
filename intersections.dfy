/** Axis-aligned box tests given by minimum and maximum corners. */
module Intersections {
  import opened UnMath

  datatype Vec2 = Vec2(X: real, Y: real)
  datatype Vec3 = Vec3(X: real, Y: real, Z: real)

  /** The per-axis test of AabbAabb2D/3D: the second box's minimum lies in
      the first interval, or the first box's maximum lies in the second. */
  predicate AxisTest(b1min: real, b1max: real, b2min: real, b2max: real)
  {
    var b2minWithin := b2min <= b1max && b2min >= b1min;
    var b1maxWithin := b1max <= b2max && b1max >= b2min;
    b2minWithin || b1maxWithin
  }

  /** Two closed intervals share a point. */
  predicate Overlap(lo1: real, hi1: real, lo2: real, hi2: real)
  {
    lo1 <= hi2 && lo2 <= hi1
  }

  /** AabbAabb2D, as written. */
  function AabbAabb2D(b1min: Vec2, b1max: Vec2, b2min: Vec2, b2max: Vec2): (r: bool)
    ensures r && b1min.X <= b1max.X && b2min.X <= b2max.X ==> Overlap(b1min.X, b1max.X, b2min.X, b2max.X)
    ensures r && b1min.Y <= b1max.Y && b2min.Y <= b2max.Y ==> Overlap(b1min.Y, b1max.Y, b2min.Y, b2max.Y)
  {
    AxisTest(b1min.X, b1max.X, b2min.X, b2max.X) && AxisTest(b1min.Y, b1max.Y, b2min.Y, b2max.Y)
  }

  /** AabbAabb3D, as written: the 2D rule on X and Y and the same rule on Z. */
  function AabbAabb3D(b1min: Vec3, b1max: Vec3, b2min: Vec3, b2max: Vec3): (r: bool)
    ensures r == (AabbAabb2D(Vec2(b1min.X, b1min.Y), Vec2(b1max.X, b1max.Y), Vec2(b2min.X, b2min.Y), Vec2(b2max.X, b2max.Y)) &&
                  AxisTest(b1min.Z, b1max.Z, b2min.Z, b2max.Z))
  {
    AxisTest(b1min.X, b1max.X, b2min.X, b2max.X) && AxisTest(b1min.Y, b1max.Y, b2min.Y, b2max.Y) &&
    AxisTest(b1min.Z, b1max.Z, b2min.Z, b2max.Z)
  }

  /** Exactly what the axis test accepts, for well-formed intervals:
      overlap, unless the second interval starts before the first and the
      first ends outside the second. */
  lemma AxisTestExactly(b1min: real, b1max: real, b2min: real, b2max: real)
    requires b1min <= b1max && b2min <= b2max
    ensures AxisTest(b1min, b1max, b2min, b2max) <==>
      Overlap(b1min, b1max, b2min, b2max) && (b2min >= b1min || b1max <= b2max)
  {
  }

  /** Soundness: with well-formed boxes a true result means the boxes
      overlap on every axis. */
  lemma AabbAabb3DSound(b1min: Vec3, b1max: Vec3, b2min: Vec3, b2max: Vec3)
    requires b1min.X <= b1max.X && b1min.Y <= b1max.Y && b1min.Z <= b1max.Z
    requires b2min.X <= b2max.X && b2min.Y <= b2max.Y && b2min.Z <= b2max.Z
    requires AabbAabb3D(b1min, b1max, b2min, b2max)
    ensures Overlap(b1min.X, b1max.X, b2min.X, b2max.X)
    ensures Overlap(b1min.Y, b1max.Y, b2min.Y, b2max.Y)
    ensures Overlap(b1min.Z, b1max.Z, b2min.Z, b2max.Z)
  {
    AxisTestExactly(b1min.X, b1max.X, b2min.X, b2max.X);
    AxisTestExactly(b1min.Y, b1max.Y, b2min.Y, b2max.Y);
    AxisTestExactly(b1min.Z, b1max.Z, b2min.Z, b2max.Z);
  }

  /** The test misses overlapping boxes: with x ranges [5, 10] and [0, 7]
      (and equal y ranges) the boxes overlap but the result is false. */
  lemma AabbAabb2DMissesOverlap()
    ensures Overlap(5.0, 10.0, 0.0, 7.0) && Overlap(0.0, 1.0, 0.0, 1.0)
    ensures !AabbAabb2D(Vec2(5.0, 0.0), Vec2(10.0, 1.0), Vec2(0.0, 0.0), Vec2(7.0, 1.0))
  {
  }

  /** The intended test: the boxes overlap on both axes. */
  function AabbOverlap2D(b1min: Vec2, b1max: Vec2, b2min: Vec2, b2max: Vec2): (r: bool)
    ensures (AabbAabb2D(b1min, b1max, b2min, b2max) && b1min.X <= b1max.X && b1min.Y <= b1max.Y &&
             b2min.X <= b2max.X && b2min.Y <= b2max.Y) ==> r
  {
    AxisTestSound(b1min.X, b1max.X, b2min.X, b2max.X);
    AxisTestSound(b1min.Y, b1max.Y, b2min.Y, b2max.Y);
    Overlap(b1min.X, b1max.X, b2min.X, b2max.X) && Overlap(b1min.Y, b1max.Y, b2min.Y, b2max.Y)
  }

  /** The axis test only ever accepts overlapping intervals. */
  lemma AxisTestSound(b1min: real, b1max: real, b2min: real, b2max: real)
    ensures b1min <= b1max && b2min <= b2max && AxisTest(b1min, b1max, b2min, b2max) ==> Overlap(b1min, b1max, b2min, b2max)
  {
  }

  /** The intended test accepts the boxes the written one misses, and any
      pair sharing a point. */
  lemma AabbOverlap2DComplete(b1min: Vec2, b1max: Vec2, b2min: Vec2, b2max: Vec2, p: Vec2)
    requires b1min.X <= p.X <= b1max.X && b1min.Y <= p.Y <= b1max.Y
    requires b2min.X <= p.X <= b2max.X && b2min.Y <= p.Y <= b2max.Y
    ensures AabbOverlap2D(b1min, b1max, b2min, b2max)
  {
  }

  /** A pair the intended test accepts shares a point: the larger of the
      two minimum corners. */
  lemma AabbOverlap2DWitness(b1min: Vec2, b1max: Vec2, b2min: Vec2, b2max: Vec2)
    requires b1min.X <= b1max.X && b1min.Y <= b1max.Y && b2min.X <= b2max.X && b2min.Y <= b2max.Y
    requires AabbOverlap2D(b1min, b1max, b2min, b2max)
    ensures var p := Vec2(Max(b1min.X, b2min.X), Max(b1min.Y, b2min.Y));
      b1min.X <= p.X <= b1max.X && b1min.Y <= p.Y <= b1max.Y &&
      b2min.X <= p.X <= b2max.X && b2min.Y <= p.Y <= b2max.Y
  {
  }

  /** AabbPoint3D: every coordinate of the point lies within the box. */
  function AabbPoint3D(boxmin: Vec3, boxmax: Vec3, point: Vec3): (r: bool)
    ensures r ==> boxmin.X <= boxmax.X && boxmin.Y <= boxmax.Y && boxmin.Z <= boxmax.Z
  {
    point.X >= boxmin.X && point.X <= boxmax.X &&
    point.Y >= boxmin.Y && point.Y <= boxmax.Y &&
    point.Z >= boxmin.Z && point.Z <= boxmax.Z
  }

  /** A well-formed box holds both its corners, and a point in a box is in
      every box around it. */
  lemma AabbPoint3DCorners(boxmin: Vec3, boxmax: Vec3, outmin: Vec3, outmax: Vec3, point: Vec3)
    ensures boxmin.X <= boxmax.X && boxmin.Y <= boxmax.Y && boxmin.Z <= boxmax.Z ==>
      AabbPoint3D(boxmin, boxmax, boxmin) && AabbPoint3D(boxmin, boxmax, boxmax)
    ensures AabbPoint3D(outmin, outmax, boxmin) && AabbPoint3D(outmin, outmax, boxmax) && AabbPoint3D(boxmin, boxmax, point) ==>
      AabbPoint3D(outmin, outmax, point)
  {
  }

  /** BoxPoint: the obsolete twin of AabbPoint3D. */
  function BoxPoint(boxmin: Vec3, boxmax: Vec3, point: Vec3): (r: bool)
    ensures r == AabbPoint3D(boxmin, boxmax, point)
  {
    point.X >= boxmin.X && point.X <= boxmax.X &&
    point.Y >= boxmin.Y && point.Y <= boxmax.Y &&
    point.Z >= boxmin.Z && point.Z <= boxmax.Z
  }

  /** BoxPointLimit: the point with each coordinate limited to the box. */
  function BoxPointLimit(boxmin: Vec3, boxmax: Vec3, point: Vec3): (r: Vec3)
    ensures boxmin.X <= boxmax.X && boxmin.Y <= boxmax.Y && boxmin.Z <= boxmax.Z ==> AabbPoint3D(boxmin, boxmax, r)
  {
    Vec3(Min(Max(point.X, boxmin.X), boxmax.X),
         Min(Max(point.Y, boxmin.Y), boxmax.Y),
         Min(Max(point.Z, boxmin.Z), boxmax.Z))
  }

  /** A point is in the box exactly when limiting it to the box leaves it
      where it is. */
  lemma BoxPointLimitFixes(boxmin: Vec3, boxmax: Vec3, point: Vec3)
    requires boxmin.X <= boxmax.X && boxmin.Y <= boxmax.Y && boxmin.Z <= boxmax.Z
    ensures AabbPoint3D(boxmin, boxmax, point) <==> BoxPointLimit(boxmin, boxmax, point) == point
  {
  }
}
