/** The inner loop of `view`: one ray checked against every boundary, keeping the nearest hit. */
module Nearest {
  import opened Vectors
  import opened Optional
  import opened Boundaries
  import opened Rays

  /** The ray after accepting hit `h`: end point, squared length and luminosity all
      come from `h` and are set together. */
  function Record(r: Ray, h: Hit): Ray {
    r.(end := Some(h.point), lengthSq := Some(DistSq(h.point, r.origin)), luminosity := Some(h.luminosity))
  }

  /** The squared distance from the ray's origin to a hit. */
  function Dist(r: Ray, h: Hit): real {
    DistSq(h.point, r.origin)
  }

  /** One iteration of the loop, given what `intersect` returned: a hit replaces the
      current end when the ray has none yet or when the hit is strictly nearer.
      Distances are compared squared, which orders non-negative lengths the same way.
      The end is then the nearer of the old end and the hit, and on a tie the old end stays. */
  function Offer(r: Ray, found: Option<Hit>): (next: Ray)
    ensures next.origin == r.origin && next.dir == r.dir
    ensures next != r ==> found.Some? && next == Record(r, found.value)
    ensures found.Some? ==> next.end.Some? && DistSq(next.end.value, r.origin) <= Dist(r, found.value)
    ensures r.end.Some? ==> next.end.Some? && DistSq(next.end.value, r.origin) <= DistSq(r.end.value, r.origin)
    ensures r.end.Some? && found.Some? && Dist(r, found.value) == DistSq(r.end.value, r.origin) ==> next == r
  {
    match found
    case None => r
    case Some(h) =>
      if r.end.None? || Dist(r, h) < DistSq(r.end.value, r.origin) then Record(r, h)
      else r
  }

  /** The loop body as written: test the current ray against `b`, then update it. */
  function Consider(r: Ray, b: Boundary): Ray {
    Offer(r, Intersect(r, b))
  }

  /** The loop over `bs` in order. */
  function Cast(r: Ray, bs: seq<Boundary>): (c: Ray)
    ensures c.origin == r.origin && c.dir == r.dir
    decreases |bs|
  {
    if |bs| == 0 then r else Consider(Cast(r, bs[..|bs| - 1]), bs[|bs| - 1])
  }

  /** What `intersect` returns for each boundary, in order. */
  function Hits(r: Ray, bs: seq<Boundary>): (hs: seq<Option<Hit>>)
    ensures |hs| == |bs|
    ensures forall j :: 0 <= j < |bs| ==> hs[j] == Intersect(r, bs[j])
  {
    seq(|bs|, j requires 0 <= j < |bs| => Intersect(r, bs[j]))
  }

  /** No entry of `hs` is a hit. */
  predicate NoneFound(hs: seq<Option<Hit>>) {
    forall j :: 0 <= j < |hs| ==> hs[j].None?
  }

  /** Entry `i` is the hit the loop keeps: no hit is nearer, and every earlier hit is
      strictly farther, so on a tie the first one wins. */
  predicate Nearest(r: Ray, hs: seq<Option<Hit>>, i: int) {
    && 0 <= i < |hs|
    && hs[i].Some?
    && (forall j :: 0 <= j < |hs| && hs[j].Some? ==> Dist(r, hs[i].value) <= Dist(r, hs[j].value))
    && (forall j :: 0 <= j < i && hs[j].Some? ==> Dist(r, hs[i].value) < Dist(r, hs[j].value))
  }

  /** The loop over the results `hs`, starting from a fresh ray: the ray ends exactly
      when some result is a hit, and then it records the nearest hit, the first of equals. */
  function Sweep(r: Ray, hs: seq<Option<Hit>>): (c: Ray)
    requires Unset(r)
    ensures c.end.None? <==> NoneFound(hs)
    ensures c.end.None? ==> c == r
    ensures c.end.Some? ==> exists i :: Nearest(r, hs, i) && c == Record(r, hs[i].value)
    decreases |hs|
  {
    if |hs| == 0 then r
    else
      var c := Sweep(r, hs[..|hs| - 1]);
      SweepStep(r, hs, c);
      Offer(c, hs[|hs| - 1])
  }

  /** The loop invariant is kept by one more iteration: `c` is the sweep over all of
      `hs` but its last entry. */
  lemma SweepStep(r: Ray, hs: seq<Option<Hit>>, c: Ray)
    requires Unset(r) && |hs| > 0
    requires var prefix := hs[..|hs| - 1];
             && (c.end.None? <==> NoneFound(prefix))
             && (c.end.None? ==> c == r)
             && (c.end.Some? ==> exists i :: Nearest(r, prefix, i) && c == Record(r, prefix[i].value))
    ensures var next := Offer(c, hs[|hs| - 1]);
            && (next.end.None? <==> NoneFound(hs))
            && (next.end.None? ==> next == r)
            && (next.end.Some? ==> exists i :: Nearest(r, hs, i) && next == Record(r, hs[i].value))
  {
    var prefix, last := hs[..|hs| - 1], hs[|hs| - 1];
    NoneFoundExtend(hs);
    if c.end.None? {
      if last.Some? {
        FirstHit(r, hs);
      }
    } else {
      var i :| Nearest(r, prefix, i) && c == Record(r, prefix[i].value);
      if last.Some? && Dist(r, last.value) < Dist(r, prefix[i].value) {
        NearerHit(r, hs, i);
      } else {
        NearestKept(r, hs, i);
      }
    }
  }

  /** No hit in `hs` exactly when none in all but the last entry and none in the last. */
  lemma NoneFoundExtend(hs: seq<Option<Hit>>)
    requires |hs| > 0
    ensures NoneFound(hs) <==> NoneFound(hs[..|hs| - 1]) && hs[|hs| - 1].None?
  {
    var prefix := hs[..|hs| - 1];
    assert forall j :: 0 <= j < |prefix| ==> prefix[j] == hs[j];
  }

  /** The first hit of the sweep is the nearest so far. */
  lemma FirstHit(r: Ray, hs: seq<Option<Hit>>)
    requires |hs| > 0 && hs[|hs| - 1].Some? && NoneFound(hs[..|hs| - 1])
    ensures Nearest(r, hs, |hs| - 1)
  {
    var prefix := hs[..|hs| - 1];
    assert forall j :: 0 <= j < |prefix| ==> prefix[j] == hs[j];
  }

  /** A hit strictly nearer than the nearest so far replaces it. */
  lemma NearerHit(r: Ray, hs: seq<Option<Hit>>, i: int)
    requires |hs| > 0 && hs[|hs| - 1].Some?
    requires Nearest(r, hs[..|hs| - 1], i)
    requires Dist(r, hs[|hs| - 1].value) < Dist(r, hs[i].value)
    ensures Nearest(r, hs, |hs| - 1)
  {
    var prefix := hs[..|hs| - 1];
    assert forall j :: 0 <= j < |prefix| ==> prefix[j] == hs[j];
  }

  /** A miss, or a hit no nearer than the nearest so far, keeps it. */
  lemma NearestKept(r: Ray, hs: seq<Option<Hit>>, i: int)
    requires |hs| > 0 && Nearest(r, hs[..|hs| - 1], i)
    requires hs[|hs| - 1].Some? ==> Dist(r, hs[|hs| - 1].value) >= Dist(r, hs[i].value)
    ensures Nearest(r, hs, i)
  {
    var prefix := hs[..|hs| - 1];
    assert forall j :: 0 <= j < |prefix| ==> prefix[j] == hs[j];
  }

  /** The loop as written, testing the partially resolved ray, computes the same as
      the sweep over the fresh ray's results, because `intersect` reads only the ray's
      origin and direction and the loop never changes those. */
  lemma {:induction false} CastIsSweep(r: Ray, bs: seq<Boundary>)
    requires Unset(r)
    ensures Cast(r, bs) == Sweep(r, Hits(r, bs))
    decreases |bs|
  {
    if |bs| > 0 {
      var prefix := bs[..|bs| - 1];
      CastIsSweep(r, prefix);
      IntersectReadsGeometry(Cast(r, prefix), r, bs[|bs| - 1]);
      assert Hits(r, bs)[..|bs| - 1] == Hits(r, prefix);
    }
  }

  /** Boundary `i` is the one the loop keeps. */
  predicate IsNearest(r: Ray, bs: seq<Boundary>, i: int) {
    Nearest(r, Hits(r, bs), i)
  }

  /** The inner loop of `view` on a fresh ray: the ray ends exactly when some boundary is
      hit, and then end point, squared length and luminosity all come from the nearest
      hit, the first of equals. */
  lemma CastFindsNearest(r: Ray, bs: seq<Boundary>)
    requires Unset(r)
    ensures var c := Cast(r, bs);
            && (c.end.None? <==> forall j :: 0 <= j < |bs| ==> Intersect(r, bs[j]).None?)
            && (c.end.None? ==> c == r)
            && (c.end.Some? ==> exists i :: IsNearest(r, bs, i) && c == Record(r, Intersect(r, bs[i]).value))
  {
    CastIsSweep(r, bs);
    var c, hs := Cast(r, bs), Hits(r, bs);
    assert NoneFound(hs) <==> forall j :: 0 <= j < |bs| ==> Intersect(r, bs[j]).None?;
    if c.end.Some? {
      var i :| Nearest(r, hs, i) && c == Record(r, hs[i].value);
      assert IsNearest(r, bs, i) && c == Record(r, Intersect(r, bs[i]).value);
    }
  }

  /** `intersect` reads only the ray's origin and direction, so the loop may test the
      partially resolved ray in place of the fresh one. */
  lemma IntersectReadsGeometry(r: Ray, s: Ray, b: Boundary)
    requires r.origin == s.origin && r.dir == s.dir
    ensures Intersect(r, b) == Intersect(s, b)
  {
    assert Determinant(r, b) == Determinant(s, b);
    if Determinant(r, b) != 0.0 {
      assert BoundaryParam(r, b) == BoundaryParam(s, b);
      assert RayParam(r, b) == RayParam(s, b);
    }
  }

  /** At most one boundary satisfies `IsNearest`, so the result is determined. */
  lemma NearestUnique(r: Ray, bs: seq<Boundary>, i: int, j: int)
    requires IsNearest(r, bs, i) && IsNearest(r, bs, j)
    ensures i == j
  {
  }

  /** Two hits at the same distance from the origin of a ray with a non-zero
      direction are the same hit: same point and same luminosity, whichever boundaries
      produced them. Every ray the program casts has a unit direction. */
  lemma SameDistanceSameHit(r: Ray, b1: Boundary, b2: Boundary)
    requires NormSq(r.dir) > 0.0
    requires Intersect(r, b1).Some? && Intersect(r, b2).Some?
    requires Dist(r, Intersect(r, b1).value) == Dist(r, Intersect(r, b2).value)
    ensures Intersect(r, b1).value == Intersect(r, b2).value
  {
    IntersectSound(r, b1);
    IntersectSound(r, b2);
    SameDistanceSameParam(r, RayParam(r, b1), RayParam(r, b2));
  }

  /** Along a ray with a non-zero direction, distinct parameters in front of the origin
      lie at distinct distances. */
  lemma SameDistanceSameParam(r: Ray, t1: real, t2: real)
    requires NormSq(r.dir) > 0.0 && t1 >= 0.0 && t2 >= 0.0
    requires DistSq(RayPoint(r, t1), r.origin) == DistSq(RayPoint(r, t2), r.origin)
    ensures t1 == t2
  {
    RayDistance(r, t1);
    RayDistance(r, t2);
    SquareRootUnique(t1, t2, NormSq(r.dir));
  }

  /** The squared distance of the ray point at `t` from the origin is `t^2 |dir|^2`. */
  lemma RayDistance(r: Ray, t: real)
    ensures DistSq(RayPoint(r, t), r.origin) == t * t * NormSq(r.dir)
  {
    var d := Sub(RayPoint(r, t), r.origin);
    assert d == Scale(t, r.dir);
  }

  /** Non-negative reals with equal positive multiples of their squares are equal. */
  lemma SquareRootUnique(a: real, b: real, n: real)
    requires a >= 0.0 && b >= 0.0 && n > 0.0
    requires a * a * n == b * b * n
    ensures a == b
  {
    assert (a * a - b * b) * n == 0.0;
    assert a * a == b * b;
    assert (a - b) * (a + b) == 0.0;
    if a + b != 0.0 {
      assert a - b == 0.0;
    }
  }

  /** Results in which equally distant hits coincide. */
  predicate Consistent(r: Ray, hs: seq<Option<Hit>>) {
    forall i, j ::
      (0 <= i < |hs| && 0 <= j < |hs| && hs[i].Some? && hs[j].Some? &&
       Dist(r, hs[i].value) == Dist(r, hs[j].value)) ==> hs[i] == hs[j]
  }

  /** The sweep depends only on which results occur, not on their order or
      multiplicity, as long as equally distant hits coincide. */
  lemma SweepOrderIndependent(r: Ray, hs: seq<Option<Hit>>, gs: seq<Option<Hit>>)
    requires Unset(r)
    requires forall h :: h in hs <==> h in gs
    requires Consistent(r, hs + gs)
    ensures Sweep(r, hs) == Sweep(r, gs)
  {
    var x, y := Sweep(r, hs), Sweep(r, gs);
    NoneFoundSameSet(hs, gs);
    if x.end.Some? {
      var i :| Nearest(r, hs, i) && x == Record(r, hs[i].value);
      var j :| Nearest(r, gs, j) && y == Record(r, gs[j].value);
      NearestAgree(r, hs, gs, i, j);
    }
  }

  /** Two lists holding the same results either both contain a hit or neither does. */
  lemma NoneFoundSameSet(hs: seq<Option<Hit>>, gs: seq<Option<Hit>>)
    requires forall h :: h in hs <==> h in gs
    ensures NoneFound(hs) <==> NoneFound(gs)
  {
    if !NoneFound(hs) {
      var k :| 0 <= k < |hs| && hs[k].Some?;
      assert hs[k] in gs;
    }
    if !NoneFound(gs) {
      var k :| 0 <= k < |gs| && gs[k].Some?;
      assert gs[k] in hs;
    }
  }

  /** The nearest hits of two lists holding the same results are equally far, and so,
      when equally distant hits coincide, the same hit. */
  lemma NearestAgree(r: Ray, hs: seq<Option<Hit>>, gs: seq<Option<Hit>>, i: int, j: int)
    requires forall h :: h in hs <==> h in gs
    requires Consistent(r, hs + gs)
    requires Nearest(r, hs, i) && Nearest(r, gs, j)
    ensures hs[i] == gs[j]
  {
    assert hs[i] in gs;
    var j' :| 0 <= j' < |gs| && gs[j'] == hs[i];
    assert gs[j] in hs;
    var i' :| 0 <= i' < |hs| && hs[i'] == gs[j];
    assert Dist(r, hs[i].value) == Dist(r, gs[j].value);
    var all := hs + gs;
    assert all[i] == hs[i] && all[|hs| + j] == gs[j];
  }

  /** The drawn column does not depend on the order of the boundaries: any two lists
      holding the same boundaries resolve a fresh ray identically, even when the
      nearest hit is shared by two boundaries (a corner). */
  lemma CastOrderIndependent(r: Ray, bs: seq<Boundary>, cs: seq<Boundary>)
    requires Unset(r) && NormSq(r.dir) > 0.0
    requires forall b :: b in bs <==> b in cs
    ensures Cast(r, bs) == Cast(r, cs)
  {
    CastIsSweep(r, bs);
    CastIsSweep(r, cs);
    var hs, gs := Hits(r, bs), Hits(r, cs);
    forall h | h in hs
      ensures h in gs
    {
      var k :| 0 <= k < |hs| && hs[k] == h;
      assert bs[k] in cs;
      var m :| 0 <= m < |cs| && cs[m] == bs[k];
      assert gs[m] == h;
    }
    forall h | h in gs
      ensures h in hs
    {
      var k :| 0 <= k < |gs| && gs[k] == h;
      assert cs[k] in bs;
      var m :| 0 <= m < |bs| && bs[m] == cs[k];
      assert hs[m] == h;
    }
    var all, bcs := hs + gs, bs + cs;
    assert forall k :: 0 <= k < |all| ==> all[k] == Intersect(r, bcs[k]);
    forall i, j | 0 <= i < |all| && 0 <= j < |all| && all[i].Some? && all[j].Some? &&
        Dist(r, all[i].value) == Dist(r, all[j].value)
      ensures all[i] == all[j]
    {
      SameDistanceSameHit(r, bcs[i], bcs[j]);
    }
    SweepOrderIndependent(r, hs, gs);
  }
}
