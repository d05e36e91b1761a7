/** A ray cast from the player, its intersection with one boundary (Cramer's rule)
    and the luminosity of a hit. */
module Rays {
  import opened Vectors
  import opened Optional
  import opened Boundaries
  import opened Movement

  /** A luminosity. The source's formula divides by `lambda^2`, so a hit at
      `lambda = 0` is IEEE positive infinity there; `Unbounded` stands for it. */
  datatype Brightness = Finite(value: real) | Unbounded

  /** What `intersect` returns for a hit: the point and its luminosity. */
  datatype Hit = Hit(point: Point2, luminosity: Brightness)

  /** The source's `Ray`. `lengthSq` stands for the `length` field and holds the squared
      distance from `origin` to `end`; the field is only read by the column height. */
  datatype Ray = Ray(origin: Point2, dir: Vec2, end: Option<Point2>, lengthSq: Option<real>, luminosity: Option<Brightness>)

  /** Inverse-square falloff numerator and the constant ambient floor. */
  const Falloff: real := 5000.0
  const FalloffScale: real := 5.0
  const Ambient: real := 0.2

  /** A ray that has not been checked against any boundary yet. */
  predicate Unset(r: Ray) {
    r.end.None? && r.lengthSq.None? && r.luminosity.None?
  }

  /** `Ray::new`: a fresh ray at the player's position. `turn` stands for nannou's
      `rotate` followed by `normalize`, which the model does not interpret. */
  function NewRay(p: Player, dTheta: real, turn: (Vec2, real) -> Vec2): (r: Ray)
    ensures Unset(r)
    ensures r.origin == p.pos && r.dir == turn(p.lookDir, dTheta)
  {
    Ray(p.pos, turn(p.lookDir, dTheta), None, None, None)
  }

  /** The point at parameter `t` along the ray's line. */
  function RayPoint(r: Ray, t: real): Point2 {
    Add(r.origin, Scale(t, r.dir))
  }

  /** The determinant of the 2x2 system; zero exactly when ray and boundary are parallel. */
  function Determinant(r: Ray, b: Boundary): real {
    r.dir.x * b.dir.y - b.dir.x * r.dir.y
  }

  /** `k`: where along the boundary the two lines meet. */
  function BoundaryParam(r: Ray, b: Boundary): real
    requires Determinant(r, b) != 0.0
  {
    (r.dir.x * (r.origin.y - b.origin.y) - r.dir.y * (r.origin.x - b.origin.x)) / Determinant(r, b)
  }

  /** `lambda`: where along the ray the two lines meet. */
  function RayParam(r: Ray, b: Boundary): real
    requires Determinant(r, b) != 0.0
  {
    (b.dir.x * (r.origin.y - b.origin.y) - b.dir.y * (r.origin.x - b.origin.x)) / Determinant(r, b)
  }

  /** The luminosity of a hit at distance `lambda` along the ray:
      5000 / (lambda / 5)^2 + 0.2, unbounded at `lambda = 0` and above the
      ambient floor 0.2 everywhere else. */
  function Luminosity(lambda: real): (l: Brightness)
    requires lambda >= 0.0
    ensures l.Unbounded? <==> lambda == 0.0
    ensures l.Finite? ==> l.value > Ambient
  {
    if lambda == 0.0 then Unbounded
    else
      var scaled := lambda / FalloffScale;
      assert scaled * scaled > 0.0;
      Finite(Falloff / (scaled * scaled) + Ambient)
  }

  /** Farther hits are strictly darker. */
  lemma LuminosityDecreasing(near: real, far: real)
    requires 0.0 < near < far
    ensures Luminosity(near).value > Luminosity(far).value
  {
    var sn, sf := near / FalloffScale, far / FalloffScale;
    assert 0.0 < sn < sf;
    assert sn * sn < sf * sf;
    DivAntitone(Falloff, sn * sn, sf * sf);
  }

  /** Dividing a positive numerator by a larger positive denominator gives less. */
  lemma DivAntitone(c: real, a: real, b: real)
    requires c > 0.0 && 0.0 < a < b
    ensures c / b < c / a
  {
    var x, y := c / a, c / b;
    assert x * a == c && y * b == c;
  }

  /** The luminosity approaches the ambient floor: it is within `eps` of 0.2 once
      `lambda >= 1` and `lambda * eps > 125000`. */
  lemma LuminosityApproachesAmbient(lambda: real, eps: real)
    requires eps > 0.0 && lambda >= 1.0 && lambda * eps > Falloff * FalloffScale * FalloffScale
    ensures Luminosity(lambda).value < Ambient + eps
  {
    var s := lambda / FalloffScale;
    assert s * s == lambda * lambda / 25.0;
    assert Falloff / (s * s) == 125000.0 / (lambda * lambda);
    assert lambda * lambda >= lambda;
    assert 125000.0 / (lambda * lambda) <= 125000.0 / lambda;
    assert 125000.0 / lambda < eps;
  }

  /** `Ray::intersect`. With a zero determinant (parallel lines) there is no hit:
      the source divides by zero there and every resulting infinity or NaN fails the
      acceptance test, which the model states as an explicit guard. Otherwise a hit
      needs `lambda >= 0`, `k >= 0` and `k < length`, and it is the boundary point at `k`
      with the luminosity for `lambda`. */
  function Intersect(r: Ray, b: Boundary): (h: Option<Hit>)
    ensures Determinant(r, b) == 0.0 ==> h.None?
    ensures Determinant(r, b) != 0.0 ==>
              (h.Some? <==> RayParam(r, b) >= 0.0 && 0.0 <= BoundaryParam(r, b) < b.length)
    ensures h.Some? ==> h.value.point == PointAt(b, BoundaryParam(r, b))
    ensures h.Some? ==> h.value.luminosity == Luminosity(RayParam(r, b))
  {
    var determinant := Determinant(r, b);
    if determinant == 0.0 then None
    else
      var k := BoundaryParam(r, b);
      var lambda := RayParam(r, b);
      if lambda >= 0.0 && k >= 0.0 && k < b.length then
        Some(Hit(PointAt(b, k), Luminosity(lambda)))
      else
        None
  }

  /** Cramer's rule on scalars: with `D = dx * ey - ex * dy != 0`, the parameters
      `k = (dx * uy - dy * ux) / D` and `l = (ex * uy - ey * ux) / D` solve
      `u + l * d = k * e`. */
  lemma CramerSolves(dx: real, dy: real, ex: real, ey: real, ux: real, uy: real)
    requires dx * ey - ex * dy != 0.0
    ensures var det := dx * ey - ex * dy;
            var k, l := (dx * uy - dy * ux) / det, (ex * uy - ey * ux) / det;
            ux + l * dx == k * ex && uy + l * dy == k * ey
  {
    var det := dx * ey - ex * dy;
    var k, l := (dx * uy - dy * ux) / det, (ex * uy - ey * ux) / det;
    assert k * det == dx * uy - dy * ux;
    assert l * det == ex * uy - ey * ux;
    assert (ux + l * dx - k * ex) * det == ux * det + dx * (l * det) - ex * (k * det);
    assert ux * det + dx * (ex * uy - ey * ux) - ex * (dx * uy - dy * ux) == 0.0;
    assert (uy + l * dy - k * ey) * det == uy * det + dy * (l * det) - ey * (k * det);
    assert uy * det + dy * (ex * uy - ey * ux) - ey * (dx * uy - dy * ux) == 0.0;
  }

  /** The converse on scalars: if `u + t * d = s * e` then Cramer's parameters are `s` and `t`. */
  lemma CramerUnique(dx: real, dy: real, ex: real, ey: real, ux: real, uy: real, t: real, s: real)
    requires dx * ey - ex * dy != 0.0
    requires ux + t * dx == s * ex && uy + t * dy == s * ey
    ensures var det := dx * ey - ex * dy;
            (dx * uy - dy * ux) / det == s && (ex * uy - ey * ux) / det == t
  {
    var det := dx * ey - ex * dy;
    assert dx * uy - dy * ux == dx * (s * ey - t * dy) - dy * (s * ex - t * dx);
    assert dx * uy - dy * ux == s * det;
    assert ex * uy - ey * ux == ex * (s * ey - t * dy) - ey * (s * ex - t * dx);
    assert ex * uy - ey * ux == t * det;
  }

  /** With a non-zero determinant, the boundary point at `k` is the ray point at `lambda`:
      the two parameters locate one point on both lines. */
  lemma ParamsMeet(r: Ray, b: Boundary)
    requires Determinant(r, b) != 0.0
    ensures PointAt(b, BoundaryParam(r, b)) == RayPoint(r, RayParam(r, b))
  {
    CramerSolves(r.dir.x, r.dir.y, b.dir.x, b.dir.y, r.origin.x - b.origin.x, r.origin.y - b.origin.y);
  }

  /** Soundness: a hit lies on the segment (`0 <= k < length`) and on the ray in front
      of its origin (`lambda >= 0`), and its luminosity is the one for `lambda`. */
  lemma IntersectSound(r: Ray, b: Boundary)
    requires Intersect(r, b).Some?
    ensures Determinant(r, b) != 0.0
    ensures var h := Intersect(r, b).value;
            var k, lambda := BoundaryParam(r, b), RayParam(r, b);
            && 0.0 <= k < b.length && lambda >= 0.0
            && h.point == PointAt(b, k)
            && h.point == RayPoint(r, lambda)
            && h.luminosity == Luminosity(lambda)
  {
    ParamsMeet(r, b);
  }

  /** Completeness: a non-parallel boundary whose half-open segment meets the ray at or
      in front of its origin is reported, at that point and with that point's luminosity. */
  lemma IntersectComplete(r: Ray, b: Boundary, t: real, s: real)
    requires Determinant(r, b) != 0.0
    requires t >= 0.0 && 0.0 <= s < b.length
    requires RayPoint(r, t) == PointAt(b, s)
    ensures Intersect(r, b) == Some(Hit(PointAt(b, s), Luminosity(t)))
  {
    CramerUnique(r.dir.x, r.dir.y, b.dir.x, b.dir.y, r.origin.x - b.origin.x, r.origin.y - b.origin.y, t, s);
    assert BoundaryParam(r, b) == s && RayParam(r, b) == t;
  }
}
