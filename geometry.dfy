/**
 * Plane vectors over the reals (the source's `Vec2Float`), the C rounding
 * operations the editor applies to them, and an abstract cosine/sine pair.
 */
module Geometry {

  datatype Vec2 = Vec2(x: real, y: real)

  const Origin := Vec2(0.0, 0.0)

  function Add(a: Vec2, b: Vec2): Vec2 { Vec2(a.x + b.x, a.y + b.y) }

  function Sub(a: Vec2, b: Vec2): Vec2 { Vec2(a.x - b.x, a.y - b.y) }

  function Scale(v: Vec2, k: real): Vec2 { Vec2(v.x * k, v.y * k) }

  function Dot(a: Vec2, b: Vec2): real { a.x * b.x + a.y * b.y }

  /** Squared length; the model never takes the square root the source's `Vec2::length` takes. */
  function Norm2(v: Vec2): real { v.x * v.x + v.y * v.y }

  /** An integer cursor position (`Vec2Int`) read as a float vector. */
  function FromInt(x: int, y: int): Vec2 { Vec2(x as real, y as real) }

  /** True when the point `p` lies within `radius` of `centre`, compared on squares as the source does. */
  predicate Within(p: Vec2, centre: Vec2, radius: int)
  {
    Norm2(Sub(p, centre)) <= (radius * radius) as real
  }

  /**
   * A direction whose squared length is zero: the divisor of every projection
   * onto it vanishes, and the source's float arithmetic yields NaN.
   */
  predicate Degenerate(dir: Vec2)
  {
    Norm2(dir) == 0.0
  }

  /** A direction that is not degenerate has a nonzero coordinate, so one of the source's two ratios has a divisor. */
  lemma NonDegenerateAxis(dir: Vec2)
    requires !Degenerate(dir)
    ensures dir.x != 0.0 || dir.y != 0.0
  {
  }

  /** C's float-to-int conversion, which truncates toward zero. */
  function Trunc(r: real): (n: int)
    ensures r >= 0.0 ==> n as real <= r < n as real + 1.0
    ensures r < 0.0 ==> n as real - 1.0 < r <= n as real
  {
    if r >= 0.0 then r.Floor else -((-r).Floor)
  }

  /** C's `ceil`: the least integer not below `r`. */
  function Ceil(r: real): (n: int)
    ensures r <= n as real < r + 1.0
  {
    -((-r).Floor)
  }

  /** Standard counter-clockwise rotation of `v` by the angle whose cosine is `c` and sine is `s`. */
  function Rotated(v: Vec2, c: real, s: real): Vec2
  {
    Vec2(v.x * c - v.y * s, v.x * s + v.y * c)
  }

  lemma RotationPreservesNorm(v: Vec2, c: real, s: real)
    requires c * c + s * s == 1.0
    ensures Norm2(Rotated(v, c, s)) == Norm2(v)
  {
    var r := Rotated(v, c, s);
    calc {
      Norm2(r);
      (v.x * c - v.y * s) * (v.x * c - v.y * s) + (v.x * s + v.y * c) * (v.x * s + v.y * c);
      v.x * v.x * (c * c + s * s) + v.y * v.y * (c * c + s * s);
      v.x * v.x + v.y * v.y;
    }
  }

  /**
   * Cosine and sine, left uninterpreted: the model takes them as parameters and
   * assumes of them only what `OnUnitCircle` states, where a proof needs it.
   */
  datatype Trig = Trig(cos: real -> real, sin: real -> real)

  ghost predicate OnUnitCircle(trig: Trig)
  {
    forall a :: trig.cos(a) * trig.cos(a) + trig.sin(a) * trig.sin(a) == 1.0
  }
}
