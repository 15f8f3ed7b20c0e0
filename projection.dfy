/**
 * The orthogonal projection of the cursor onto an arm's rest-pose segment
 * (`Spirograph::get_cursor_orthogonalProjection`) and the clamping that the
 * hit test and the base drag apply to it.
 */
module Projection {
  import opened Geometry

  /**
   * How far along `dir` the foot of the perpendicular from `cursor` lies, in
   * units of `dir`, for the segment that starts at `base`.
   */
  function Coefficient(cursor: Vec2, base: Vec2, dir: Vec2): real
    requires !Degenerate(dir)
  {
    Dot(Sub(cursor, base), dir) / Norm2(dir)
  }

  /**
   * The vector projection of `cursor - base` onto `dir`: it is parallel to
   * `dir`, and what is left over is perpendicular to `dir`.
   */
  function OrthogonalProjection(cursor: Vec2, base: Vec2, dir: Vec2): (r: Vec2)
    requires !Degenerate(dir)
    ensures r.x * dir.y == r.y * dir.x
    ensures Dot(Sub(Sub(cursor, base), r), dir) == 0.0
  {
    var k := Coefficient(cursor, base, dir);
    assert k * Norm2(dir) == Dot(Sub(cursor, base), dir);
    Scale(dir, k)
  }

  /** A vector parallel to a nonzero `dir` is a multiple of it. */
  lemma ParallelIsMultiple(v: Vec2, dir: Vec2) returns (t: real)
    requires !Degenerate(dir) && v.x * dir.y == v.y * dir.x
    ensures v == Scale(dir, t)
  {
    if dir.x != 0.0 {
      t := v.x / dir.x;
      assert v.x == dir.x * t;
      assert dir.x * v.y == dir.x * (dir.y * t);
    } else {
      assert dir.y != 0.0;
      t := v.y / dir.y;
      assert v.y == dir.y * t;
      assert dir.y * v.x == 0.0;
    }
  }

  /**
   * The two properties pin the projection down: a vector parallel to a
   * nonzero `dir` whose remainder is perpendicular to `dir` is the projection.
   */
  lemma ProjectionUnique(cursor: Vec2, base: Vec2, dir: Vec2, v: Vec2)
    requires !Degenerate(dir) && v.x * dir.y == v.y * dir.x
    requires Dot(Sub(Sub(cursor, base), v), dir) == 0.0
    ensures v == OrthogonalProjection(cursor, base, dir)
  {
    var t := ParallelIsMultiple(v, dir);
    var k := Coefficient(cursor, base, dir);
    assert Dot(Sub(Sub(cursor, base), v), dir) == Dot(Sub(cursor, base), dir) - t * Norm2(dir);
    assert k * Norm2(dir) == Dot(Sub(cursor, base), dir);
    assert t * Norm2(dir) == k * Norm2(dir);
    assert t == k;
  }

  /**
   * The source never keeps the coefficient: it reads the scale back off the
   * projected vector, as the x-ratio when the projection's x is nonzero and
   * as the y-ratio otherwise. This says when that ratio has a nonzero divisor.
   */
  predicate RatioDefined(proj: Vec2, dir: Vec2)
  {
    if proj.x != 0.0 then dir.x != 0.0 else dir.y != 0.0
  }

  function RatioScale(proj: Vec2, dir: Vec2): real
    requires RatioDefined(proj, dir)
  {
    if proj.x != 0.0 then proj.x / dir.x else proj.y / dir.y
  }

  /** Wherever the source's ratio can be computed, it is the projection coefficient. */
  lemma RatioScaleIsCoefficient(cursor: Vec2, base: Vec2, dir: Vec2)
    requires !Degenerate(dir)
    ensures var proj := OrthogonalProjection(cursor, base, dir);
            RatioDefined(proj, dir) ==> RatioScale(proj, dir) == Coefficient(cursor, base, dir)
  {
    var k := Coefficient(cursor, base, dir);
    var proj := OrthogonalProjection(cursor, base, dir);
    if proj.x != 0.0 {
      assert proj.x == dir.x * k;
    } else if dir.y != 0.0 {
      assert proj.y == dir.y * k;
    }
  }

  /**
   * The ratio has no divisor on a horizontal arm (here 100 units long, the
   * source's default length) when the cursor is straight above or below the
   * arm's base: the projection is the zero vector, its x is 0, and the
   * y-ratio is 0/0.
   */
  lemma RatioUndefinedAboveBase(base: Vec2, height: real)
    ensures !Degenerate(Vec2(100.0, 0.0))
    ensures !RatioDefined(OrthogonalProjection(Add(base, Vec2(0.0, height)), base, Vec2(100.0, 0.0)), Vec2(100.0, 0.0))
  {
    var dir := Vec2(100.0, 0.0);
    assert Dot(Sub(Add(base, Vec2(0.0, height)), base), dir) == 0.0;
  }

  /** Clamping to [0, 1] as the source does it: at most 0 snaps to 0, at least 1 snaps to 1. */
  function Clamp01(k: real): (r: real)
    ensures 0.0 <= r <= 1.0
    ensures 0.0 <= k <= 1.0 ==> r == k
  {
    if k <= 0.0 then 0.0 else if k >= 1.0 then 1.0 else k
  }

  /**
   * The bounded projection exactly as the hit test computes it: the base when
   * the scale is at most 0, the tip `dir` when it is at least 1, the projection
   * itself otherwise. A scale the source cannot compute is a NaN, which fails
   * both comparisons and so leaves the projection unchanged.
   */
  function SourceClampedProjection(proj: Vec2, dir: Vec2): Vec2
  {
    if !RatioDefined(proj, dir) then proj
    else if RatioScale(proj, dir) <= 0.0 then Origin
    else if RatioScale(proj, dir) >= 1.0 then dir
    else proj
  }

  /**
   * The projection coefficient clamped to [0, 1]: the fraction of the segment
   * at which the bounded projection lies. Where the source can compute its
   * ratio, this is that ratio clamped.
   */
  function ClampedScale(cursor: Vec2, base: Vec2, dir: Vec2): (s: real)
    requires !Degenerate(dir)
    ensures 0.0 <= s <= 1.0
    ensures var proj := OrthogonalProjection(cursor, base, dir);
            RatioDefined(proj, dir) ==> s == Clamp01(RatioScale(proj, dir))
  {
    RatioScaleIsCoefficient(cursor, base, dir);
    Clamp01(Coefficient(cursor, base, dir))
  }

  /**
   * The bounded projection as a point of the segment from `base` to
   * `base + dir`; it is the vector the source computes in every case,
   * including the one where its ratio is 0/0.
   */
  function ClampedProjection(cursor: Vec2, base: Vec2, dir: Vec2): (r: Vec2)
    requires !Degenerate(dir)
    ensures r == SourceClampedProjection(OrthogonalProjection(cursor, base, dir), dir)
    ensures r == Scale(dir, ClampedScale(cursor, base, dir))
  {
    var k := Coefficient(cursor, base, dir);
    var proj := OrthogonalProjection(cursor, base, dir);
    RatioScaleIsCoefficient(cursor, base, dir);
    assert !RatioDefined(proj, dir) ==> k == 0.0 by {
      if !RatioDefined(proj, dir) {
        assert proj.x == 0.0 && dir.y == 0.0;
        assert dir.x != 0.0;
        assert dir.x * k == 0.0;
      }
    }
    Scale(dir, ClampedScale(cursor, base, dir))
  }

  /** A cursor at or beyond the tip, measured along the segment, is bounded to the tip. */
  lemma ProjectionBeyondTip(cursor: Vec2, base: Vec2, dir: Vec2)
    requires 0.0 < Norm2(dir) <= Dot(Sub(cursor, base), dir)
    ensures ClampedProjection(cursor, base, dir) == dir
  {
    var k := Coefficient(cursor, base, dir);
    assert k * Norm2(dir) == Dot(Sub(cursor, base), dir);
    assert k >= 1.0;
  }
}
