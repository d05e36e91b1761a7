/** Concrete worlds: the arena of a 100 x 100 window, rays cast in it, one tick of movement. */
module ArenaScenarios {
  import opened Vectors
  import opened Boundaries

  /** A window whose x and y ranges are both 0..100. */
  function Window(): Rect {
    Rect(0.0, 100.0, 0.0, 100.0)
  }

  /** The four window edges as the source builds them. */
  const Left: Boundary := Boundary(Vec2(0.0, 0.0), Vec2(0.0, 1.0), 100.0)
  const Bottom: Boundary := Boundary(Vec2(0.0, 0.0), Vec2(1.0, 0.0), 100.0)
  const Right: Boundary := Boundary(Vec2(100.0, 100.0), Vec2(0.0, -1.0), 100.0)
  const Top: Boundary := Boundary(Vec2(100.0, 100.0), Vec2(-1.0, 0.0), 100.0)

  /** The two edges the cyclic winding orients differently. */
  const CyclicTop: Boundary := Boundary(Vec2(0.0, 100.0), Vec2(1.0, 0.0), 100.0)
  const CyclicBottom: Boundary := Boundary(Vec2(100.0, 0.0), Vec2(-1.0, 0.0), 100.0)

  /** The six distinct edges `Boundary::new` builds from the window's corners. */
  lemma LeftEdge()
    ensures NewBoundary(Vec2(0.0, 0.0), Vec2(0.0, 100.0)) == Left
  {
  }

  lemma BottomEdge()
    ensures NewBoundary(Vec2(0.0, 0.0), Vec2(100.0, 0.0)) == Bottom
  {
  }

  lemma RightEdge()
    ensures NewBoundary(Vec2(100.0, 100.0), Vec2(100.0, 0.0)) == Right
  {
  }

  lemma TopEdge()
    ensures NewBoundary(Vec2(100.0, 100.0), Vec2(0.0, 100.0)) == Top
  {
  }

  lemma CyclicTopEdge()
    ensures NewBoundary(Vec2(0.0, 100.0), Vec2(100.0, 100.0)) == CyclicTop
  {
  }

  lemma CyclicBottomEdge()
    ensures NewBoundary(Vec2(100.0, 0.0), Vec2(0.0, 0.0)) == CyclicBottom
  {
  }

  lemma WindowArena()
    ensures FromRect(Window()) == [Left, Bottom, Right, Top]
  {
    LeftEdge();
    BottomEdge();
    RightEdge();
    TopEdge();
  }

  lemma WindowCyclicArena()
    ensures FromRectCyclic(Window()) == [Left, CyclicTop, Right, CyclicBottom]
  {
    LeftEdge();
    CyclicTopEdge();
    RightEdge();
    CyclicBottomEdge();
  }
}

module RayScenarios {
  import opened Vectors
  import opened Optional
  import opened Boundaries
  import opened Rays
  import opened Nearest
  import opened Shading
  import opened ArenaScenarios

  /** A fresh ray at `pos` along `dir`. */
  function Fresh(pos: Point2, dir: Vec2): (r: Ray)
    ensures Unset(r) && r.origin == pos && r.dir == dir
  {
    Ray(pos, dir, None, None, None)
  }

  /** Casting against four boundaries considers them in order. */
  lemma CastFour(r: Ray, a: Boundary, b: Boundary, c: Boundary, d: Boundary)
    ensures Cast(r, [a, b, c, d]) == Consider(Consider(Consider(Consider(r, a), b), c), d)
  {
    assert [a, b, c, d][..3] == [a, b, c];
    assert [a, b, c][..2] == [a, b];
    assert [a, b][..1] == [a];
    assert [a][..0] == [];
    assert Cast(r, [a]) == Consider(r, a);
    assert Cast(r, [a, b]) == Consider(Cast(r, [a]), b);
    assert Cast(r, [a, b, c]) == Consider(Cast(r, [a, b]), c);
  }

  /** A boundary the ray's line misses leaves any partially resolved ray unchanged. */
  lemma ConsiderMiss(r: Ray, s: Ray, b: Boundary)
    requires r.origin == s.origin && r.dir == s.dir
    requires Intersect(s, b).None?
    ensures Consider(r, b) == r
  {
    IntersectReadsGeometry(r, s, b);
  }

  /** The centre ray along +x. */
  function CentreRay(): Ray {
    Fresh(Vec2(50.0, 50.0), Vec2(1.0, 0.0))
  }

  lemma CentreRayMissesLeft()
    ensures Intersect(CentreRay(), Left).None?
  {
    assert Determinant(CentreRay(), Left) == 1.0;
    assert RayParam(CentreRay(), Left) == -50.0;
  }

  lemma CentreRayParallel()
    ensures Intersect(CentreRay(), Bottom).None? && Intersect(CentreRay(), Top).None?
  {
    assert Determinant(CentreRay(), Bottom) == 0.0;
    assert Determinant(CentreRay(), Top) == 0.0;
  }

  lemma CentreRayMeetsRight()
    ensures Intersect(CentreRay(), Right) == Some(Hit(Vec2(100.0, 50.0), Finite(50.2)))
  {
    assert Determinant(CentreRay(), Right) == -1.0;
    assert RayParam(CentreRay(), Right) == 50.0;
    assert BoundaryParam(CentreRay(), Right) == 50.0;
    assert Luminosity(50.0) == Finite(50.2);
  }

  /** A boundary that the fresh ray hits is recorded as its first hit. */
  lemma ConsiderFirstHit(r: Ray, b: Boundary, h: Hit)
    requires Unset(r) && Intersect(r, b) == Some(h)
    ensures Consider(r, b) == Record(r, h)
  {
  }

  /** The centre ray's cast over the four edges, in the source's order. */
  lemma CentreRayCast()
    ensures Cast(CentreRay(), [Left, Bottom, Right, Top]) == Record(CentreRay(), Hit(Vec2(100.0, 50.0), Finite(50.2)))
  {
    var r := CentreRay();
    var hit := Record(r, Hit(Vec2(100.0, 50.0), Finite(50.2)));
    CastFour(r, Left, Bottom, Right, Top);
    CentreRayMissesLeft();
    CentreRayParallel();
    CentreRayMeetsRight();
    ConsiderMiss(r, r, Left);
    ConsiderMiss(r, r, Bottom);
    ConsiderFirstHit(r, Right, Hit(Vec2(100.0, 50.0), Finite(50.2)));
    ConsiderMiss(hit, r, Top);
  }

  /** The centre is 50 units from the right edge. */
  lemma HalfWidth()
    ensures DistSq(Vec2(100.0, 50.0), Vec2(50.0, 50.0)) == 2500.0
  {
  }

  /** From the centre of the window arena, looking along +x, the ray ends on the right
      edge at (100, 50), 50 units away, and the column is drawn at full grey 0.9. */
  lemma CentreRayHitsRightEdge()
    ensures FromRect(Window()) == [Left, Bottom, Right, Top]
    ensures var c := Cast(CentreRay(), [Left, Bottom, Right, Top]);
            && c.end == Some(Vec2(100.0, 50.0))
            && c.lengthSq == Some(2500.0)
            && c.luminosity == Some(Finite(50.2))
            && Light(c.luminosity) == MaxLight
  {
    WindowArena();
    CentreRayCast();
    HalfWidth();
  }

  /** A ray lying along a boundary's own line never meets it: the determinant is zero. */
  lemma CollinearRayMisses()
    ensures Intersect(Fresh(Vec2(-10.0, 0.0), Vec2(1.0, 0.0)), Bottom).None?
    ensures Intersect(Fresh(Vec2(50.0, 0.0), Vec2(-1.0, 0.0)), Bottom).None?
  {
    assert Determinant(Fresh(Vec2(-10.0, 0.0), Vec2(1.0, 0.0)), Bottom) == 0.0;
    assert Determinant(Fresh(Vec2(50.0, 0.0), Vec2(-1.0, 0.0)), Bottom) == 0.0;
  }

  /** The ray from (70, 40) along (0.6, -0.8), which reaches the corner (100, 0) at distance 50. */
  function CornerRay(): Ray {
    Fresh(Vec2(70.0, 40.0), Vec2(0.6, -0.8))
  }

  lemma CornerRayBehind()
    ensures Intersect(CornerRay(), Left).None? && Intersect(CornerRay(), Top).None?
  {
    assert Determinant(CornerRay(), Left) == 0.6;
    assert RayParam(CornerRay(), Left) < 0.0;
    assert Determinant(CornerRay(), Top) == -0.8;
    assert RayParam(CornerRay(), Top) < 0.0;
  }

  /** The corner is the far end of both source edges meeting there, so `k < length` fails. */
  lemma CornerRayAtFarEnds()
    ensures Intersect(CornerRay(), Bottom).None? && Intersect(CornerRay(), Right).None?
  {
    assert Determinant(CornerRay(), Bottom) == 0.8;
    assert BoundaryParam(CornerRay(), Bottom) == 100.0;
    assert Determinant(CornerRay(), Right) == -0.6;
    assert BoundaryParam(CornerRay(), Right) == 100.0;
  }

  lemma CornerRayMissesCyclicTop()
    ensures Intersect(CornerRay(), CyclicTop).None?
  {
    assert Determinant(CornerRay(), CyclicTop) == 0.8;
    assert RayParam(CornerRay(), CyclicTop) < 0.0;
  }

  /** The cyclic winding starts an edge at the corner, where `k = 0` is accepted. */
  lemma CornerRayMeetsCyclicBottom()
    ensures RayPoint(CornerRay(), 50.0) == Vec2(100.0, 0.0)
    ensures Intersect(CornerRay(), CyclicBottom) == Some(Hit(Vec2(100.0, 0.0), Finite(50.2)))
  {
    assert Determinant(CornerRay(), CyclicBottom) == -0.8;
    assert BoundaryParam(CornerRay(), CyclicBottom) == 0.0;
    assert RayParam(CornerRay(), CyclicBottom) == 50.0;
    assert Luminosity(50.0) == Finite(50.2);
  }

  /** The corner ray against the source's four edges: nothing is hit. */
  lemma CornerRayCast()
    ensures Cast(CornerRay(), [Left, Bottom, Right, Top]) == CornerRay()
  {
    var r := CornerRay();
    CastFour(r, Left, Bottom, Right, Top);
    CornerRayBehind();
    CornerRayAtFarEnds();
    ConsiderMiss(r, r, Left);
    ConsiderMiss(r, r, Bottom);
    ConsiderMiss(r, r, Right);
    ConsiderMiss(r, r, Top);
  }

  /** The corner ray against the cyclic arena: the last edge is hit at its start. */
  lemma CornerRayCyclicCast()
    ensures Cast(CornerRay(), [Left, CyclicTop, Right, CyclicBottom]) == Record(CornerRay(), Hit(Vec2(100.0, 0.0), Finite(50.2)))
  {
    var r := CornerRay();
    CastFour(r, Left, CyclicTop, Right, CyclicBottom);
    CornerRayBehind();
    CornerRayAtFarEnds();
    CornerRayMissesCyclicTop();
    CornerRayMeetsCyclicBottom();
    ConsiderMiss(r, r, Left);
    ConsiderMiss(r, r, CyclicTop);
    ConsiderMiss(r, r, Right);
    ConsiderFirstHit(r, CyclicBottom, Hit(Vec2(100.0, 0.0), Finite(50.2)));
  }

  /** Against the source's window arena the corner ray hits nothing at all and draws a
      black, empty column; against the cyclic arena it ends at the corner. */
  lemma CornerRayEscapes(wallHeight: real -> real)
    ensures FromRect(Window()) == [Left, Bottom, Right, Top]
    ensures FromRectCyclic(Window()) == [Left, CyclicTop, Right, CyclicBottom]
    ensures Cast(CornerRay(), [Left, Bottom, Right, Top]) == CornerRay()
    ensures Shade(Cast(CornerRay(), [Left, Bottom, Right, Top]), wallHeight) == Column(0.0, 0.0)
    ensures Cast(CornerRay(), [Left, CyclicTop, Right, CyclicBottom]).end == Some(Vec2(100.0, 0.0))
  {
    WindowArena();
    WindowCyclicArena();
    CornerRayCast();
    CornerRayCyclicCast();
  }
}

module MovementScenarios {
  import opened Vectors
  import opened Optional
  import opened Movement

  /** The first key event of the session: W pressed. */
  lemma PressForward()
    ensures UpdateMoves(NewMoves(), KeyboardInput(Some(W), Pressed)) == Moves(true, false, false, false, false, false)
  {
  }

  lemma ForwardTurn()
    ensures AngleDelta(Moves(true, false, false, false, false, false)) == 0.0
  {
  }

  lemma ForwardVelocity()
    ensures Velocity(Moves(true, false, false, false, false, false), Vec2(1.0, 0.0)) == Vec2(Step, 0.0)
  {
  }

  /** Pressing W and running one tick from the start moves the player by (2.5, 0)
      and turns it by angle 0. */
  lemma ForwardTick(turn: (Vec2, real) -> Vec2)
    ensures var m := UpdateMoves(NewMoves(), KeyboardInput(Some(W), Pressed));
            var p := UpdatePlayer(m, NewPlayer(), turn);
            p.pos == Vec2(2.5, 0.0) && p.lookDir == turn(Vec2(1.0, 0.0), 0.0)
  {
    PressForward();
    ForwardTurn();
    ForwardVelocity();
  }
}
