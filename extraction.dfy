/** The host's first pass over the triangle list: index checks, one box per
    triangle, the scene box and the degenerate-scene guard. */
module Extraction {
  import opened Aabb
  import opened Records

  datatype Option<T> = None | Some(value: T)

  /** Only whole triples count: trailing indices are never read. */
  function NumTriangles(indices: seq<nat>): nat { |indices| / 3 }

  /** The three corners of triangle `t` name existing vertices. */
  predicate TriangleInRange(positions: seq<Vec3>, indices: seq<nat>, t: nat)
    requires 3 * t + 3 <= |indices|
  {
    && indices[3 * t] < |positions|
    && indices[3 * t + 1] < |positions|
    && indices[3 * t + 2] < |positions|
  }

  /** Each of the first `count` triangles names existing vertices. */
  predicate PrefixInRange(positions: seq<Vec3>, indices: seq<nat>, count: nat)
    requires 3 * count <= |indices|
    decreases count
  {
    count == 0 || (PrefixInRange(positions, indices, count - 1) && TriangleInRange(positions, indices, count - 1))
  }

  lemma {:induction false} PrefixInRangeMeans(positions: seq<Vec3>, indices: seq<nat>, count: nat)
    requires 3 * count <= |indices|
    ensures PrefixInRange(positions, indices, count)
        <==> forall t :: 0 <= t < count ==> TriangleInRange(positions, indices, t)
    decreases count
  {
    if count > 0 {
      PrefixInRangeMeans(positions, indices, count - 1);
    }
  }

  /** Corner `c` (0, 1 or 2) of triangle `t`. */
  function Corner(positions: seq<Vec3>, indices: seq<nat>, t: nat, c: nat): Vec3
    requires 3 * t + 3 <= |indices| && c < 3
    requires TriangleInRange(positions, indices, t)
  {
    positions[indices[3 * t + c]]
  }

  /** The first of the first `count` triangles that names a missing vertex. */
  function FirstBadTriangle(positions: seq<Vec3>, indices: seq<nat>, count: nat): (r: Option<nat>)
    requires 3 * count <= |indices|
    ensures r.None? <==> forall t :: 0 <= t < count ==> TriangleInRange(positions, indices, t)
    ensures r.Some? ==>
      && r.value < count
      && !TriangleInRange(positions, indices, r.value)
      && forall t :: 0 <= t < r.value ==> TriangleInRange(positions, indices, t)
    decreases count
  {
    if count == 0 then None
    else match FirstBadTriangle(positions, indices, count - 1)
      case Some(t) => Some(t)
      case None => if TriangleInRange(positions, indices, count - 1) then None else Some(count - 1)
  }

  /** A bad triangle after only good ones is the first bad one. */
  lemma FirstBadIsFirst(positions: seq<Vec3>, indices: seq<nat>, count: nat, t: nat)
    requires t < count && 3 * count <= |indices|
    requires PrefixInRange(positions, indices, t)
    requires !TriangleInRange(positions, indices, t)
    ensures FirstBadTriangle(positions, indices, count) == Some(t)
  {
    PrefixInRangeMeans(positions, indices, t);
  }

  /** With no bad triangle among the first `count`, there is no first bad one. */
  lemma NoBadTriangle(positions: seq<Vec3>, indices: seq<nat>, count: nat)
    requires 3 * count <= |indices|
    requires PrefixInRange(positions, indices, count)
    ensures FirstBadTriangle(positions, indices, count) == None
  {
    PrefixInRangeMeans(positions, indices, count);
  }

  // ---------------------------------------------------------------------
  // Per-triangle boxes

  /** The box the loop builds for one triangle: the empty box expanded by
      its three corners in order. */
  function TriangleBox(v0: Vec3, v1: Vec3, v2: Vec3): AABB {
    Expand(Expand(Expand(Empty(), v0), v1), v2)
  }

  /** A triangle's box is the componentwise min and max of its corners. */
  lemma TriangleBoxIsMinMax(v0: Vec3, v1: Vec3, v2: Vec3)
    requires Representable(v0)
    ensures TriangleBox(v0, v1, v2) == AABB(MinV(v0, MinV(v1, v2)), MaxV(v0, MaxV(v1, v2)))
  {
  }

  /** A triangle's box holds its corners, and every box holding them encloses it. */
  lemma TriangleBoxIsLeast(v0: Vec3, v1: Vec3, v2: Vec3, outer: AABB)
    ensures Contains(TriangleBox(v0, v1, v2), v0) && Contains(TriangleBox(v0, v1, v2), v1)
    ensures Contains(TriangleBox(v0, v1, v2), v2) && Ordered(TriangleBox(v0, v1, v2))
    ensures Bounded(outer) && Contains(outer, v0) && Contains(outer, v1) && Contains(outer, v2)
        ==> Encloses(outer, TriangleBox(v0, v1, v2))
  {
  }

  function TriangleBoxAt(positions: seq<Vec3>, indices: seq<nat>, t: nat): AABB
    requires 3 * t + 3 <= |indices|
    requires TriangleInRange(positions, indices, t)
  {
    TriangleBox(positions[indices[3 * t]], positions[indices[3 * t + 1]], positions[indices[3 * t + 2]])
  }

  /** Each corner of a triangle lies in the triangle's box. */
  lemma CornerInTriangleBox(positions: seq<Vec3>, indices: seq<nat>, t: nat, c: nat)
    requires 3 * t + 3 <= |indices| && c < 3
    requires TriangleInRange(positions, indices, t)
    ensures Contains(TriangleBoxAt(positions, indices, t), Corner(positions, indices, t, c))
  {
    var v0, v1, v2 := positions[indices[3 * t]], positions[indices[3 * t + 1]], positions[indices[3 * t + 2]];
    TriangleBoxIsLeast(v0, v1, v2, Empty());
  }

  /** The boxes of the first `count` triangles, in index order. */
  function TriangleBoxes(positions: seq<Vec3>, indices: seq<nat>, count: nat): (r: seq<AABB>)
    requires 3 * count <= |indices|
    requires PrefixInRange(positions, indices, count)
    ensures |r| == count
    decreases count
  {
    if count == 0 then []
    else TriangleBoxes(positions, indices, count - 1) + [TriangleBoxAt(positions, indices, count - 1)]
  }

  /** Entry `t` of the box list is triangle `t`'s box. */
  lemma {:induction false} TriangleBoxesAt(positions: seq<Vec3>, indices: seq<nat>, count: nat, t: nat)
    requires 3 * count <= |indices|
    requires PrefixInRange(positions, indices, count)
    requires t < count
    ensures TriangleInRange(positions, indices, t)
    ensures TriangleBoxes(positions, indices, count)[t] == TriangleBoxAt(positions, indices, t)
    decreases count
  {
    if t < count - 1 {
      TriangleBoxesAt(positions, indices, count - 1, t);
    }
  }

  function PrimitivesOf(boxes: seq<AABB>): seq<Primitive> {
    seq(|boxes|, k requires 0 <= k < |boxes| => Primitive(boxes[k], k))
  }

  function ElementsOf(boxes: seq<AABB>): seq<Element> {
    seq(|boxes|, k requires 0 <= k < |boxes| => Element(k, boxes[k]))
  }

  function DefaultPrimitives(count: nat): seq<Primitive> { seq(count, _ => DefaultPrimitive()) }

  function DefaultElements(count: nat): seq<Element> { seq(count, _ => DefaultElement()) }

  /** Filling the first untouched entry extends the filled prefix by one. */
  lemma FillPrimitive(boxes: seq<AABB>, box: AABB, rest: nat)
    ensures (PrimitivesOf(boxes) + DefaultPrimitives(rest + 1))[|boxes| := Primitive(box, |boxes|)]
         == PrimitivesOf(boxes + [box]) + DefaultPrimitives(rest)
  {
  }

  lemma FillElement(boxes: seq<AABB>, box: AABB, rest: nat)
    ensures (ElementsOf(boxes) + DefaultElements(rest + 1))[|boxes| := Element(|boxes|, box)]
         == ElementsOf(boxes + [box]) + DefaultElements(rest)
  {
  }

  /** Entry `i` of the filled primitives and elements, for a triangle whose
      corners exist: its index is `i` in both, and its box is the
      componentwise min and max of the triangle's three corners. */
  lemma FilledEntryIsTriangleBox(positions: seq<Vec3>, indices: seq<nat>, count: nat, i: nat)
    requires AllRepresentable(positions)
    requires 3 * count <= |indices| && PrefixInRange(positions, indices, count)
    requires i < count
    ensures TriangleInRange(positions, indices, i)
    ensures
      var v0, v1, v2 := positions[indices[3 * i]], positions[indices[3 * i + 1]], positions[indices[3 * i + 2]];
      var box := AABB(MinV(v0, MinV(v1, v2)), MaxV(v0, MaxV(v1, v2)));
      && PrimitivesOf(TriangleBoxes(positions, indices, count))[i] == Primitive(box, i)
      && ElementsOf(TriangleBoxes(positions, indices, count))[i] == Element(i, box)
  {
    TriangleBoxesAt(positions, indices, count, i);
    var v0, v1, v2 := positions[indices[3 * i]], positions[indices[3 * i + 1]], positions[indices[3 * i + 2]];
    TriangleBoxIsMinMax(v0, v1, v2);
  }

  // ---------------------------------------------------------------------
  // The triangle loop, round by round

  lemma BoxesStep(positions: seq<Vec3>, indices: seq<nat>, i: nat)
    requires 3 * i + 3 <= |indices|
    requires PrefixInRange(positions, indices, i) && TriangleInRange(positions, indices, i)
    ensures
      var v0, v1, v2 := positions[indices[3 * i]], positions[indices[3 * i + 1]], positions[indices[3 * i + 2]];
      TriangleBoxes(positions, indices, i + 1) == TriangleBoxes(positions, indices, i) + [TriangleBox(v0, v1, v2)]
  {
  }

  /** Expanding the union of some boxes by a triangle's corners adds that
      triangle's box to the union. */
  lemma UnionStep(g: AABB, boxes: seq<AABB>, v0: Vec3, v1: Vec3, v2: Vec3)
    requires Representable(v0)
    requires g == UnionAll(boxes)
    ensures Expand(Expand(Expand(g, v0), v1), v2) == UnionAll(boxes + [TriangleBox(v0, v1, v2)])
  {
    ExpandByTriangleIsUnion(g, v0, v1, v2);
    UnionAllSnoc(boxes, TriangleBox(v0, v1, v2));
  }

  /** Writing triangle `i`'s box into entry `i` extends the filled prefix. */
  lemma PrimsAdvance(positions: seq<Vec3>, indices: seq<nat>, n: nat, i: nat, prims: seq<Primitive>)
    requires i < n && 3 * n <= |indices|
    requires PrefixInRange(positions, indices, i) && TriangleInRange(positions, indices, i)
    requires prims == PrimitivesOf(TriangleBoxes(positions, indices, i)) + DefaultPrimitives(n - i)
    ensures
      var box := TriangleBox(positions[indices[3 * i]], positions[indices[3 * i + 1]], positions[indices[3 * i + 2]]);
      prims[i := Primitive(box, i)] == PrimitivesOf(TriangleBoxes(positions, indices, i + 1)) + DefaultPrimitives(n - (i + 1))
  {
    BoxesStep(positions, indices, i);
    assert n - (i + 1) + 1 == n - i;
    FillPrimitive(TriangleBoxes(positions, indices, i), TriangleBoxAt(positions, indices, i), n - (i + 1));
  }

  lemma ElementsAdvance(positions: seq<Vec3>, indices: seq<nat>, n: nat, i: nat, elements: seq<Element>)
    requires i < n && 3 * n <= |indices|
    requires PrefixInRange(positions, indices, i) && TriangleInRange(positions, indices, i)
    requires elements == ElementsOf(TriangleBoxes(positions, indices, i)) + DefaultElements(n - i)
    ensures
      var box := TriangleBox(positions[indices[3 * i]], positions[indices[3 * i + 1]], positions[indices[3 * i + 2]]);
      elements[i := Element(i, box)] == ElementsOf(TriangleBoxes(positions, indices, i + 1)) + DefaultElements(n - (i + 1))
  {
    BoxesStep(positions, indices, i);
    assert n - (i + 1) + 1 == n - i;
    FillElement(TriangleBoxes(positions, indices, i), TriangleBoxAt(positions, indices, i), n - (i + 1));
  }

  lemma GlobalAdvance(positions: seq<Vec3>, indices: seq<nat>, i: nat, global: AABB)
    requires AllRepresentable(positions)
    requires 3 * i + 3 <= |indices|
    requires PrefixInRange(positions, indices, i) && TriangleInRange(positions, indices, i)
    requires global == UnionAll(TriangleBoxes(positions, indices, i))
    ensures
      var v0, v1, v2 := positions[indices[3 * i]], positions[indices[3 * i + 1]], positions[indices[3 * i + 2]];
      Expand(Expand(Expand(global, v0), v1), v2) == UnionAll(TriangleBoxes(positions, indices, i + 1))
  {
    BoxesStep(positions, indices, i);
    var v0, v1, v2 := positions[indices[3 * i]], positions[indices[3 * i + 1]], positions[indices[3 * i + 2]];
    UnionStep(global, TriangleBoxes(positions, indices, i), v0, v1, v2);
  }

  /** The state of the triangle loop after its first `i` rounds: the first
      `i` entries hold the boxes of the triangles seen so far, the rest their
      initial values, and the running box is the union of those boxes. */
  predicate ScannedUpTo(positions: seq<Vec3>, indices: seq<nat>, n: nat, i: nat,
                        prims: seq<Primitive>, elements: seq<Element>, global: AABB)
  {
    && i <= n && 3 * n <= |indices|
    && PrefixInRange(positions, indices, i)
    && prims == PrimitivesOf(TriangleBoxes(positions, indices, i)) + DefaultPrimitives(n - i)
    && elements == ElementsOf(TriangleBoxes(positions, indices, i)) + DefaultElements(n - i)
    && global == UnionAll(TriangleBoxes(positions, indices, i))
  }

  /** One round of the triangle loop for a triangle whose corners exist:
      its box from the empty box, entry `i` of both arrays, and the running
      box expanded by the same corners. Before and after, the first entries
      hold the boxes of the triangles seen so far, the rest their initial
      values, and the running box their union. */
  method ScanTriangle(positions: seq<Vec3>, indices: seq<nat>, n: nat, i: nat,
                      prims: seq<Primitive>, elements: seq<Element>, global: AABB)
    returns (prims': seq<Primitive>, elements': seq<Element>, global': AABB)
    requires AllRepresentable(positions)
    requires i < n && 3 * n <= |indices|
    requires ScannedUpTo(positions, indices, n, i, prims, elements, global)
    requires TriangleInRange(positions, indices, i)
    ensures ScannedUpTo(positions, indices, n, i + 1, prims', elements', global')
  {
    PrimsAdvance(positions, indices, n, i, prims);
    ElementsAdvance(positions, indices, n, i, elements);
    GlobalAdvance(positions, indices, i, global);
    var v0, v1, v2 := positions[indices[3 * i]], positions[indices[3 * i + 1]], positions[indices[3 * i + 2]];
    var box := Expand(Expand(Expand(Empty(), v0), v1), v2);
    prims' := prims[i := Primitive(box, i)];
    elements' := elements[i := Element(i, box)];
    global' := Expand(Expand(Expand(global, v0), v1), v2);
  }

  /** How many rounds the loop completed: up to the first bad triangle, or all. */
  function Processed(bad: Option<nat>, n: nat): nat {
    if bad.Some? then bad.value else n
  }

  /** The triangle loop of the build. It stops at the first triangle naming
      a missing vertex; the entries it has not reached keep their initial
      values. `global` accumulates every corner it has read. */
  method ExtractPrimitives(positions: seq<Vec3>, indices: seq<nat>)
    returns (prims: seq<Primitive>, elements: seq<Element>, global: AABB, bad: Option<nat>)
    requires AllRepresentable(positions)
    ensures |prims| == NumTriangles(indices) && |elements| == NumTriangles(indices)
    ensures bad == FirstBadTriangle(positions, indices, NumTriangles(indices))
    ensures PrefixInRange(positions, indices, Processed(bad, NumTriangles(indices)))
    ensures
      var n := NumTriangles(indices);
      var done := Processed(bad, n);
      var boxes := TriangleBoxes(positions, indices, done);
      && prims == PrimitivesOf(boxes) + DefaultPrimitives(n - done)
      && elements == ElementsOf(boxes) + DefaultElements(n - done)
      && global == UnionAll(boxes)
    ensures bad.None? ==>
      var boxes := TriangleBoxes(positions, indices, NumTriangles(indices));
      prims == PrimitivesOf(boxes) && elements == ElementsOf(boxes)
  {
    var n := |indices| / 3;
    prims := DefaultPrimitives(n);
    elements := DefaultElements(n);
    global := Empty();
    bad := None;
    var i := 0;
    while i < n
      invariant ScannedUpTo(positions, indices, n, i, prims, elements, global)
    {
      var idx0, idx1, idx2 := indices[3 * i], indices[3 * i + 1], indices[3 * i + 2];
      if idx0 >= |positions| || idx1 >= |positions| || idx2 >= |positions| {
        FirstBadIsFirst(positions, indices, n, i);
        bad := Some(i);
        return;
      }
      prims, elements, global := ScanTriangle(positions, indices, n, i, prims, elements, global);
      i := i + 1;
    }
    NoBadTriangle(positions, indices, n);
    assert DefaultPrimitives(0) == [] && DefaultElements(0) == [];
  }

  // ---------------------------------------------------------------------
  // Trailing indices

  /** Dropping indices past the first `m` changes nothing about a triangle
      that lies wholly before them. */
  lemma SameTriangle(positions: seq<Vec3>, indices: seq<nat>, m: nat, t: nat)
    requires 3 * t + 3 <= m <= |indices|
    ensures TriangleInRange(positions, indices, t) == TriangleInRange(positions, indices[..m], t)
    ensures TriangleInRange(positions, indices, t)
        ==> TriangleBoxAt(positions, indices, t) == TriangleBoxAt(positions, indices[..m], t)
  {
    var short := indices[..m];
    assert short[3 * t] == indices[3 * t] && short[3 * t + 1] == indices[3 * t + 1] && short[3 * t + 2] == indices[3 * t + 2];
  }

  /** Indices past the first `m` are never read by the first `count` rounds. */
  lemma {:induction false} TrailingIndicesIgnored(positions: seq<Vec3>, indices: seq<nat>, m: nat, count: nat)
    requires 3 * count <= m <= |indices|
    ensures FirstBadTriangle(positions, indices, count) == FirstBadTriangle(positions, indices[..m], count)
    ensures PrefixInRange(positions, indices, count) == PrefixInRange(positions, indices[..m], count)
    ensures PrefixInRange(positions, indices, count)
        ==> TriangleBoxes(positions, indices, count) == TriangleBoxes(positions, indices[..m], count)
    decreases count
  {
    if count > 0 {
      var t := count - 1;
      var short := indices[..m];
      TrailingIndicesIgnored(positions, indices, m, t);
      SameTriangle(positions, indices, m, t);
      if PrefixInRange(positions, indices, count) {
        assert TriangleBoxes(positions, indices, count)
            == TriangleBoxes(positions, indices, t) + [TriangleBoxAt(positions, indices, t)];
        assert TriangleBoxes(positions, short, count)
            == TriangleBoxes(positions, short, t) + [TriangleBoxAt(positions, short, t)];
      }
    }
  }

  // ---------------------------------------------------------------------
  // The degenerate-scene guard and the extent handed to the key stage

  const EXTENT_EPSILON: real := 0.0001

  function Extent(b: AABB): Vec3 { Sub(b.max, b.min) }

  /** The scene is flat on every axis at once. */
  predicate IsDegenerateExtent(e: Vec3) {
    e.x <= EXTENT_EPSILON && e.y <= EXTENT_EPSILON && e.z <= EXTENT_EPSILON
  }

  /** The extent handed to the key stage: at least epsilon on every axis,
      and unchanged on any axis already wider than that. */
  function ClampExtent(e: Vec3): (r: Vec3)
    ensures LessEq(Splat(EXTENT_EPSILON), r) && LessEq(e, r)
    ensures r.x == e.x || r.x == EXTENT_EPSILON
    ensures r.y == e.y || r.y == EXTENT_EPSILON
    ensures r.z == e.z || r.z == EXTENT_EPSILON
  {
    MaxV(e, Splat(EXTENT_EPSILON))
  }

  /** A non-degenerate extent keeps at least one axis as it is. */
  lemma ClampKeepsWideAxis(e: Vec3)
    requires !IsDegenerateExtent(e)
    ensures ClampExtent(e).x == e.x || ClampExtent(e).y == e.y || ClampExtent(e).z == e.z
    ensures e.x > EXTENT_EPSILON ==> ClampExtent(e).x == e.x
    ensures e.y > EXTENT_EPSILON ==> ClampExtent(e).y == e.y
    ensures e.z > EXTENT_EPSILON ==> ClampExtent(e).z == e.z
  {
  }

  /** The scene box of a non-empty, valid triangle list is ordered, so its
      extent is non-negative on every axis. */
  lemma SceneExtentNonNegative(positions: seq<Vec3>, indices: seq<nat>, count: nat)
    requires 0 < count && 3 * count <= |indices|
    requires PrefixInRange(positions, indices, count)
    ensures LessEq(Splat(0.0), Extent(UnionAll(TriangleBoxes(positions, indices, count))))
  {
    var boxes := TriangleBoxes(positions, indices, count);
    forall k | 0 <= k < count
      ensures Ordered(boxes[k])
    {
      TriangleBoxesAt(positions, indices, count, k);
      var v0 := positions[indices[3 * k]];
      var v1 := positions[indices[3 * k + 1]];
      var v2 := positions[indices[3 * k + 2]];
      TriangleBoxIsLeast(v0, v1, v2, boxes[k]);
    }
    UnionAllOrdered(boxes);
  }

  /** The scene box encloses the box of every triangle. */
  lemma SceneEnclosesEveryTriangle(positions: seq<Vec3>, indices: seq<nat>, count: nat, t: nat)
    requires 3 * count <= |indices|
    requires PrefixInRange(positions, indices, count)
    requires t < count
    ensures TriangleInRange(positions, indices, t)
    ensures Encloses(UnionAll(TriangleBoxes(positions, indices, count)), TriangleBoxAt(positions, indices, t))
  {
    TriangleBoxesAt(positions, indices, count, t);
    UnionAllEnclosesEach(TriangleBoxes(positions, indices, count), t);
  }

  /** Every vertex any processed triangle names lies in the scene box. */
  lemma SceneContainsEveryCorner(positions: seq<Vec3>, indices: seq<nat>, count: nat, t: nat, c: nat)
    requires 3 * count <= |indices|
    requires PrefixInRange(positions, indices, count)
    requires t < count && c < 3
    ensures TriangleInRange(positions, indices, t)
    ensures Contains(UnionAll(TriangleBoxes(positions, indices, count)), Corner(positions, indices, t, c))
  {
    SceneEnclosesEveryTriangle(positions, indices, count, t);
    CornerInTriangleBox(positions, indices, t, c);
    EnclosedPointInside(UnionAll(TriangleBoxes(positions, indices, count)), TriangleBoxAt(positions, indices, t),
                        Corner(positions, indices, t, c));
  }
}
