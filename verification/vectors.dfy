/** Plane vectors over the reals, standing in for nannou's `f32` `Vec2`/`Point2`.
    Only the exact (rational) operations live here; rotation, `normalize` and
    `length()` need trigonometry or square roots and are not modelled. */
module Vectors {

  datatype Vec2 = Vec2(x: real, y: real)

  /** Points and directions share one representation, as in nannou. */
  type Point2 = Vec2

  const Zero: Vec2 := Vec2(0.0, 0.0)

  function Add(a: Vec2, b: Vec2): Vec2 {
    Vec2(a.x + b.x, a.y + b.y)
  }

  function Sub(a: Vec2, b: Vec2): Vec2 {
    Vec2(a.x - b.x, a.y - b.y)
  }

  function Scale(k: real, v: Vec2): Vec2 {
    Vec2(k * v.x, k * v.y)
  }

  function Dot(a: Vec2, b: Vec2): real {
    a.x * b.x + a.y * b.y
  }

  /** The squared Euclidean length; the model compares these instead of `length()`. */
  function NormSq(v: Vec2): real {
    Dot(v, v)
  }

  /** The squared distance between two points. */
  function DistSq(p: Point2, q: Point2): real {
    NormSq(Sub(p, q))
  }

  /** The 2D cross product `a.x * b.y - b.x * a.y`; zero exactly when `a` and `b` are parallel. */
  function Cross(a: Vec2, b: Vec2): real {
    a.x * b.y - b.x * a.y
  }

  lemma AddZero(v: Vec2)
    ensures Add(Zero, v) == v
  {
  }

  /** nannou's `perp()`: the counter-clockwise quarter turn `(-y, x)`.
      It is orthogonal to `v`, as long as `v`, and turns to the left of it. */
  function Perp(v: Vec2): (p: Vec2)
    ensures Dot(p, v) == 0.0
    ensures NormSq(p) == NormSq(v)
    ensures Cross(v, p) == NormSq(v)
  {
    Vec2(-v.y, v.x)
  }
}

/** The optional value used for the source's `Option<T>` fields and results. */
module Optional {

  datatype Option<+T> = None | Some(value: T)
}
