/** The 3D view of one column: its wall height and its grey level, from the resolved ray. */
module Shading {
  import opened Vectors
  import opened Optional
  import opened Boundaries
  import opened Rays
  import opened Nearest

  /** The brightest grey a column is drawn with. */
  const MaxLight: real := 0.9

  /** One drawn column: rectangle height and grey level. */
  datatype Column = Column(height: real, light: real)

  /** The grey level for a recorded luminosity: none gives black, and anything above
      0.9, the unbounded luminosity included, is clamped to 0.9. */
  function Light(lum: Option<Brightness>): (l: real)
    ensures lum.None? ==> l == 0.0
    ensures lum.Some? ==> l <= MaxLight
    ensures lum.Some? && lum.value.Finite? ==> l <= lum.value.value
    ensures lum.Some? && l != MaxLight ==> lum.value.Finite? && l == lum.value.value
  {
    match lum
    case None => 0.0
    case Some(Unbounded) => MaxLight
    case Some(Finite(v)) => if v > MaxLight then MaxLight else v
  }

  /** The rectangle height for a recorded squared length; `wallHeight` stands for
      `100000 / (length * cos angle)`, which needs a square root and a cosine. */
  function Height(lengthSq: Option<real>, wallHeight: real -> real): (h: real)
    ensures lengthSq.None? ==> h == 0.0
    ensures lengthSq.Some? ==> h == wallHeight(lengthSq.value)
  {
    match lengthSq
    case None => 0.0
    case Some(l) => wallHeight(l)
  }

  /** The column drawn for a resolved ray: an unresolved ray draws nothing, a recorded
      length gives the wall height at that length, and the grey level never exceeds 0.9. */
  function Shade(r: Ray, wallHeight: real -> real): (col: Column)
    ensures Unset(r) ==> col == Column(0.0, 0.0)
    ensures r.lengthSq.Some? ==> col.height == wallHeight(r.lengthSq.value)
    ensures r.luminosity.Some? ==> col.light <= MaxLight
  {
    Column(Height(r.lengthSq, wallHeight), Light(r.luminosity))
  }

  /** The grey level of a hit at distance `lambda` is above the ambient floor and at
      most 0.9, and it is exactly 0.9 for a hit at the ray's origin. */
  lemma HitLightBounds(lambda: real)
    requires lambda >= 0.0
    ensures Ambient < Light(Some(Luminosity(lambda))) <= MaxLight
    ensures lambda == 0.0 ==> Light(Some(Luminosity(lambda))) == MaxLight
  {
  }

  /** A nearer hit is drawn at least as bright as a farther one. */
  lemma LightNonIncreasing(near: real, far: real)
    requires 0.0 <= near < far
    ensures Light(Some(Luminosity(near))) >= Light(Some(Luminosity(far)))
  {
    if near > 0.0 {
      LuminosityDecreasing(near, far);
    }
  }

  /** The column for one ray cast against the boundaries: a ray that hits nothing
      draws an empty black column; a ray that hits draws a column whose grey level
      lies in (0.2, 0.9] and whose height is the wall height at the nearest hit's
      distance. So the column is black exactly when nothing is hit. */
  lemma ShadeCast(r: Ray, bs: seq<Boundary>, wallHeight: real -> real)
    requires Unset(r)
    ensures var hit := exists j :: 0 <= j < |bs| && Intersect(r, bs[j]).Some?;
            var c := Cast(r, bs);
            var col := Shade(c, wallHeight);
            && (!hit ==> col == Column(0.0, 0.0))
            && (hit ==> Ambient < col.light <= MaxLight)
            && (hit ==> c.end.Some? && col.height == wallHeight(DistSq(c.end.value, r.origin)))
            && (col.light == 0.0 <==> !hit)
  {
    CastFindsNearest(r, bs);
    var c := Cast(r, bs);
    if c.end.Some? {
      var i :| IsNearest(r, bs, i) && c == Record(r, Intersect(r, bs[i]).value);
      IntersectSound(r, bs[i]);
      HitLightBounds(RayParam(r, bs[i]));
    }
  }
}
