/** Axis-aligned bounding boxes and the min/max algebra behind `AABB::expand`.
    Coordinates are exact reals standing for single-precision floats; the
    empty box keeps the source's FLT_MAX sentinels. */
module Aabb {

  /** A glm::vec3. */
  datatype Vec3 = Vec3(x: real, y: real, z: real)

  /** The largest finite single-precision float, (2 - 2^-23) * 2^127. */
  const FLT_MAX: real := 340282346638528859811704183484516925440.0

  function Splat(v: real): Vec3 { Vec3(v, v, v) }

  /** glm's scalar min and max. */
  function Min(a: real, b: real): real { if b < a then b else a }
  function Max(a: real, b: real): real { if a < b then b else a }

  function MinV(a: Vec3, b: Vec3): Vec3 { Vec3(Min(a.x, b.x), Min(a.y, b.y), Min(a.z, b.z)) }
  function MaxV(a: Vec3, b: Vec3): Vec3 { Vec3(Max(a.x, b.x), Max(a.y, b.y), Max(a.z, b.z)) }
  function Add(a: Vec3, b: Vec3): Vec3 { Vec3(a.x + b.x, a.y + b.y, a.z + b.z) }
  function Sub(a: Vec3, b: Vec3): Vec3 { Vec3(a.x - b.x, a.y - b.y, a.z - b.z) }
  function Half(a: Vec3): Vec3 { Vec3(a.x * 0.5, a.y * 0.5, a.z * 0.5) }

  /** Componentwise `a <= b`. */
  predicate LessEq(a: Vec3, b: Vec3) { a.x <= b.x && a.y <= b.y && a.z <= b.z }

  /** A point a finite float vector can hold. */
  predicate Representable(p: Vec3) {
    -FLT_MAX <= p.x <= FLT_MAX && -FLT_MAX <= p.y <= FLT_MAX && -FLT_MAX <= p.z <= FLT_MAX
  }

  predicate AllRepresentable(ps: seq<Vec3>) {
    forall i :: 0 <= i < |ps| ==> Representable(ps[i])
  }

  datatype AABB = AABB(min: Vec3, max: Vec3)

  /** The default-constructed box: min is FLT_MAX and max is -FLT_MAX on every axis. */
  function Empty(): AABB { AABB(Splat(FLT_MAX), Splat(-FLT_MAX)) }

  predicate Contains(b: AABB, p: Vec3) { LessEq(b.min, p) && LessEq(p, b.max) }

  predicate Encloses(outer: AABB, inner: AABB) {
    LessEq(outer.min, inner.min) && LessEq(inner.max, outer.max)
  }

  /** Both corners finite. */
  predicate Bounded(b: AABB) { Representable(b.min) && Representable(b.max) }

  /** A box whose min does not exceed its max on any axis. */
  predicate Ordered(b: AABB) { LessEq(b.min, b.max) }

  /** `AABB::expand`: the smallest box holding `b` and `p`. */
  function Expand(b: AABB, p: Vec3): (r: AABB)
    ensures Contains(r, p)
    ensures Encloses(r, b)
    ensures forall q :: Contains(b, q) ==> Contains(r, q)
  {
    AABB(MinV(b.min, p), MaxV(b.max, p))
  }

  /** Smallest box that encloses both arguments. */
  function Union(a: AABB, b: AABB): (r: AABB)
    ensures Encloses(r, a) && Encloses(r, b)
  {
    AABB(MinV(a.min, b.min), MaxV(a.max, b.max))
  }

  /** Expanding `b` by each point of `ps`, first to last. */
  function ExpandAll(b: AABB, ps: seq<Vec3>): AABB
    decreases |ps|
  {
    if |ps| == 0 then b else ExpandAll(Expand(b, ps[0]), ps[1..])
  }

  /** The union of a list of boxes, accumulated from the empty box. */
  function UnionAll(bs: seq<AABB>): AABB
    decreases |bs|
  {
    if |bs| == 0 then Empty() else Union(UnionAll(bs[..|bs| - 1]), bs[|bs| - 1])
  }

  // ---------------------------------------------------------------------
  // Properties of the empty box and of expand

  /** The empty box contains no point at all. */
  lemma EmptyContainsNothing(p: Vec3)
    ensures !Contains(Empty(), p)
  {
  }

  /** Expanding the empty box by a finite point gives the point box. */
  lemma ExpandEmpty(p: Vec3)
    requires Representable(p)
    ensures Expand(Empty(), p) == AABB(p, p)
  {
  }

  /** Expand gives the least box: any box holding `b` and `p` encloses it. */
  lemma ExpandIsLeast(b: AABB, p: Vec3, outer: AABB)
    requires Encloses(outer, b) && Contains(outer, p)
    ensures Encloses(outer, Expand(b, p))
  {
  }

  /** A box expanded at least once has min <= max. */
  lemma ExpandedIsOrdered(b: AABB, p: Vec3)
    ensures Ordered(Expand(b, p))
  {
  }

  lemma ExpandIdempotent(b: AABB, p: Vec3)
    ensures Expand(Expand(b, p), p) == Expand(b, p)
  {
  }

  lemma ExpandCommutes(b: AABB, p: Vec3, q: Vec3)
    ensures Expand(Expand(b, p), q) == Expand(Expand(b, q), p)
  {
  }

  /** A point expanded in late may as well be expanded in first. */
  lemma {:induction false} ExpandAllMovesToFront(b: AABB, xs: seq<Vec3>, p: Vec3, ys: seq<Vec3>)
    ensures ExpandAll(b, xs + [p] + ys) == ExpandAll(Expand(b, p), xs + ys)
    decreases |xs|
  {
    if |xs| == 0 {
      assert xs + [p] + ys == [p] + ys && xs + ys == ys;
      assert ([p] + ys)[0] == p && ([p] + ys)[1..] == ys;
    } else {
      var x := xs[0];
      assert (xs + [p] + ys)[1..] == xs[1..] + [p] + ys;
      ExpandAllMovesToFront(Expand(b, x), xs[1..], p, ys);
      ExpandCommutes(b, x, p);
      assert (xs + ys)[0] == x && (xs + ys)[1..] == xs[1..] + ys;
    }
  }

  /** Taking `p` out of two lists with equal contents leaves equal contents. */
  lemma RemoveFromBoth(ps: seq<Vec3>, xs: seq<Vec3>, p: Vec3, ys: seq<Vec3>)
    requires |ps| > 0 && ps[0] == p
    requires multiset(ps) == multiset(xs + [p] + ys)
    ensures multiset(ps[1..]) == multiset(xs + ys)
  {
    assert ps == [p] + ps[1..];
    assert multiset(ps) == multiset{p} + multiset(ps[1..]);
    assert xs + [p] + ys == (xs + [p]) + ys;
    assert multiset(xs + [p] + ys) == multiset(xs) + multiset{p} + multiset(ys);
    assert multiset(xs + ys) == multiset(xs) + multiset(ys);
    assert multiset(ps[1..]) == multiset(ps) - multiset{p};
    assert multiset(xs + ys) == multiset(xs + [p] + ys) - multiset{p};
  }

  /** Expanding by the same points in any order yields the same box. */
  lemma {:induction false} ExpandAllOrderIndependent(b: AABB, ps: seq<Vec3>, qs: seq<Vec3>)
    requires multiset(ps) == multiset(qs)
    ensures ExpandAll(b, ps) == ExpandAll(b, qs)
    decreases |ps|
  {
    if |ps| == 0 {
      assert |qs| == |multiset(qs)| == 0;
    } else {
      var p := ps[0];
      assert p in multiset(ps);
      var k :| 0 <= k < |qs| && qs[k] == p;
      var xs, ys := qs[..k], qs[k + 1..];
      assert qs == xs + [p] + ys;
      ExpandAllMovesToFront(b, xs, p, ys);
      RemoveFromBoth(ps, xs, p, ys);
      ExpandAllOrderIndependent(Expand(b, p), ps[1..], xs + ys);
    }
  }

  /** Expanding a box by points yields a box holding each of them. */
  lemma {:induction false} ExpandAllContains(b: AABB, ps: seq<Vec3>, k: int)
    requires 0 <= k < |ps|
    ensures Contains(ExpandAll(b, ps), ps[k])
    decreases |ps|
  {
    if k > 0 {
      ExpandAllContains(Expand(b, ps[0]), ps[1..], k - 1);
    } else {
      ExpandAllEncloses(Expand(b, ps[0]), ps[1..]);
    }
  }

  lemma {:induction false} ExpandAllEncloses(b: AABB, ps: seq<Vec3>)
    ensures Encloses(ExpandAll(b, ps), b)
    decreases |ps|
  {
    if |ps| > 0 {
      ExpandAllEncloses(Expand(b, ps[0]), ps[1..]);
    }
  }

  /** Any box holding the points and enclosing `b` encloses the expanded box. */
  lemma {:induction false} ExpandAllIsLeast(b: AABB, ps: seq<Vec3>, outer: AABB)
    requires Encloses(outer, b)
    requires forall k :: 0 <= k < |ps| ==> Contains(outer, ps[k])
    ensures Encloses(outer, ExpandAll(b, ps))
    decreases |ps|
  {
    if |ps| > 0 {
      assert Contains(outer, ps[0]);
      ExpandAllIsLeast(Expand(b, ps[0]), ps[1..], outer);
    }
  }

  // ---------------------------------------------------------------------
  // Enclosure and union

  /** A point of an enclosed box lies in the enclosing box. */
  lemma EnclosedPointInside(outer: AABB, inner: AABB, p: Vec3)
    requires Encloses(outer, inner) && Contains(inner, p)
    ensures Contains(outer, p)
  {
  }

  /** Union gives the least box enclosing both arguments. */
  lemma UnionIsLeast(a: AABB, b: AABB, outer: AABB)
    requires Encloses(outer, a) && Encloses(outer, b)
    ensures Encloses(outer, Union(a, b))
  {
  }

  /** The union of a list encloses every member. */
  lemma {:induction false} UnionAllEnclosesEach(bs: seq<AABB>, k: int)
    requires 0 <= k < |bs|
    ensures Encloses(UnionAll(bs), bs[k])
    decreases |bs|
  {
    if k < |bs| - 1 {
      UnionAllEnclosesEach(bs[..|bs| - 1], k);
    }
  }

  /** Any finite box enclosing every member encloses the union: no padding. */
  lemma {:induction false} UnionAllIsLeast(bs: seq<AABB>, outer: AABB)
    requires Bounded(outer)
    requires forall k :: 0 <= k < |bs| ==> Encloses(outer, bs[k])
    ensures Encloses(outer, UnionAll(bs))
    decreases |bs|
  {
    if |bs| > 0 {
      UnionAllIsLeast(bs[..|bs| - 1], outer);
    }
  }

  lemma UnionAllSnoc(bs: seq<AABB>, b: AABB)
    ensures UnionAll(bs + [b]) == Union(UnionAll(bs), b)
  {
    assert (bs + [b])[..|bs|] == bs;
  }

  /** A non-empty union of ordered boxes is ordered. */
  lemma {:induction false} UnionAllOrdered(bs: seq<AABB>)
    requires |bs| > 0
    requires forall k :: 0 <= k < |bs| ==> Ordered(bs[k])
    ensures Ordered(UnionAll(bs))
    decreases |bs|
  {
    if |bs| > 1 {
      UnionAllOrdered(bs[..|bs| - 1]);
    } else {
      assert bs[..0] == [];
    }
  }

  /** Expanding a running box by a triangle's three corners is the union of
      that box with the triangle's own box, built from the empty box. */
  lemma ExpandByTriangleIsUnion(g: AABB, v0: Vec3, v1: Vec3, v2: Vec3)
    requires Representable(v0)
    ensures Expand(Expand(Expand(g, v0), v1), v2)
         == Union(g, Expand(Expand(Expand(Empty(), v0), v1), v2))
  {
  }
}
