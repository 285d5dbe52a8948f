/** The BVH object and its dynamic build: the host-side steps of the linear
    BVH construction, with the three device stages taken as parameters. */
module Lbvh {
  import opened Aabb
  import opened Records
  import opened Extraction
  import opened MortonSort
  import opened InstanceFilter

  /** The key stage: from the per-triangle elements, the scene minimum and
      the clamped scene extent, one (Morton code, element index) pair per
      element, as read back into the host's array. */
  type KeyStage = (seq<Element>, Vec3, Vec3) -> seq<MortonCodeElement>

  /** The hierarchy and bounding-box stages together: from the sorted pairs
      and the elements, the node array as read back into the host's array. */
  type TreeStage = (seq<MortonCodeElement>, seq<Element>) -> seq<LBVHNode>

  /** The host reads back exactly as many pairs as it allocated: one per element. */
  ghost predicate KeyStageSized(keyStage: KeyStage) {
    forall es, lo, extent :: |keyStage(es, lo, extent)| == |es|
  }

  /** The host reads back exactly as many nodes as it allocated: `2n - 1`
      for `n` elements. */
  ghost predicate TreeStageSized(treeStage: TreeStage) {
    forall ks, es :: |es| > 0 ==> |treeStage(ks, es)| == 2 * |es| - 1
  }

  /** How a build ends: one of its four early returns, or a completed build
      with what it handed to the device and what it read back. */
  datatype BuildOutcome =
    | NoTriangles
    | NoContext
    | BadIndex(triangle: nat)
    | Degenerate
    | Built(sceneMin: Vec3, sceneExtent: Vec3, sortedKeys: seq<MortonCodeElement>, nodes: seq<LBVHNode>)

  /** The box of the whole scene: the union of every triangle's box. */
  function SceneBox(positions: seq<Vec3>, indices: seq<nat>): AABB
    requires PrefixInRange(positions, indices, NumTriangles(indices))
  {
    UnionAll(TriangleBoxes(positions, indices, NumTriangles(indices)))
  }

  /** What follows a triangle loop that found no bad index: the
      degenerate-scene guard, then the key stage on the clamped extent, the
      host sort, and the tree stages on the sorted pairs. */
  function DeviceOutcome(scene: AABB, elements: seq<Element>,
                         keyStage: KeyStage, treeStage: TreeStage): (r: BuildOutcome)
    requires KeyStageSized(keyStage) && TreeStageSized(treeStage)
    requires |elements| > 0
    ensures r.Degenerate? || r.Built?
    ensures r.Degenerate? <==> IsDegenerateExtent(Extent(scene))
    ensures r.Built? ==>
      && r.sceneMin == scene.min
      && r.sceneExtent == ClampExtent(Extent(scene))
      && Sorted(r.sortedKeys)
      && multiset(r.sortedKeys) == multiset(keyStage(elements, scene.min, r.sceneExtent))
      && r.sortedKeys == SortCodes(keyStage(elements, scene.min, r.sceneExtent))
      && r.nodes == treeStage(r.sortedKeys, elements)
      && |r.sortedKeys| == |elements|
      && |r.nodes| == 2 * |elements| - 1
  {
    if IsDegenerateExtent(Extent(scene)) then Degenerate
    else
      var sceneExtent := ClampExtent(Extent(scene));
      var keys := keyStage(elements, scene.min, sceneExtent);
      var sorted := SortCodes(keys);
      SortCodesSortedPermutation(keys);
      assert |sorted| == |multiset(sorted)| == |keys|;
      Built(scene.min, sceneExtent, sorted, treeStage(sorted, elements))
  }

  /** What a build does with a given triangle list, context and device
      stages, step by step as the host code decides it. */
  function ExpectedOutcome(positions: seq<Vec3>, indices: seq<nat>, hasContext: bool,
                           keyStage: KeyStage, treeStage: TreeStage): (r: BuildOutcome)
    requires KeyStageSized(keyStage) && TreeStageSized(treeStage)
    ensures r.NoTriangles? <==> NumTriangles(indices) == 0
    ensures r.NoContext? <==> NumTriangles(indices) > 0 && !hasContext
    ensures r.BadIndex? ==>
      && r.triangle < NumTriangles(indices)
      && !TriangleInRange(positions, indices, r.triangle)
      && (forall t :: 0 <= t < r.triangle ==> TriangleInRange(positions, indices, t))
      && PrefixInRange(positions, indices, r.triangle)
    ensures r.Degenerate? || r.Built?
        <==> NumTriangles(indices) > 0 && hasContext && PrefixInRange(positions, indices, NumTriangles(indices))
    ensures r.Built? ==>
      && |r.sortedKeys| == NumTriangles(indices)
      && |r.nodes| == 2 * NumTriangles(indices) - 1
  {
    var n := NumTriangles(indices);
    if n == 0 then NoTriangles
    else if !hasContext then NoContext
    else
      PrefixInRangeMeans(positions, indices, n);
      match FirstBadTriangle(positions, indices, n)
      case Some(t) =>
        PrefixInRangeMeans(positions, indices, t);
        BadIndex(t)
      case None =>
        DeviceOutcome(SceneBox(positions, indices), ElementsOf(TriangleBoxes(positions, indices, n)), keyStage, treeStage)
  }

  /** The device part of the build: the guard, the key stage, the sort of
      the read-back pairs in a host array, and the tree stages. */
  method RunDeviceStages(globalBox: AABB, elements: seq<Element>, keyStage: KeyStage, treeStage: TreeStage)
    returns (outcome: BuildOutcome)
    requires KeyStageSized(keyStage) && TreeStageSized(treeStage)
    requires |elements| > 0
    ensures outcome == DeviceOutcome(globalBox, elements, keyStage, treeStage)
  {
    var extent := Sub(globalBox.max, globalBox.min);
    if IsDegenerateExtent(extent) {
      return Degenerate;
    }
    var sceneMin := globalBox.min;
    extent := ClampExtent(extent);

    var mortonData := keyStage(elements, sceneMin, extent);
    var keys := new MortonCodeElement[|mortonData|](k requires 0 <= k < |mortonData| => mortonData[k]);
    assert keys[..] == mortonData;
    SortMortonCodes(keys);
    var sorted := keys[..];

    var lbvhNodes := treeStage(sorted, elements);
    outcome := Built(sceneMin, extent, sorted, lbvhNodes);
  }

  /** The part of the build between the early checks and the field
      updates, on values: the triangle loop, the device stages, and the
      instance filter over the read-back nodes. */
  method BuildFromTriangles(positions: seq<Vec3>, indices: seq<nat>, keyStage: KeyStage, treeStage: TreeStage)
    returns (outcome: BuildOutcome, primitives: seq<Primitive>, instanceData: seq<Vec3>, validNodeCount: nat)
    requires AllRepresentable(positions) && NumTriangles(indices) > 0
    requires KeyStageSized(keyStage) && TreeStageSized(treeStage)
    ensures outcome == ExpectedOutcome(positions, indices, true, keyStage, treeStage)
    ensures outcome.BadIndex? ==>
      primitives == PrimitivesOf(TriangleBoxes(positions, indices, outcome.triangle))
                    + DefaultPrimitives(NumTriangles(indices) - outcome.triangle)
    ensures outcome.Degenerate? || outcome.Built? ==>
      primitives == PrimitivesOf(TriangleBoxes(positions, indices, NumTriangles(indices)))
    ensures outcome.Built? ==>
      var visited := outcome.nodes[NumTriangles(indices) - 1..];
      && validNodeCount == ValidCount(visited)
      && instanceData == InstancePairs(visited)
      && |instanceData| == 2 * validNodeCount
  {
    var numTris := NumTriangles(indices);
    var elements, globalBox, bad;
    primitives, elements, globalBox, bad := ExtractPrimitives(positions, indices);
    instanceData, validNodeCount := [], 0;
    if bad.Some? {
      return BadIndex(bad.value), primitives, instanceData, validNodeCount;
    }
    outcome := RunDeviceStages(globalBox, elements, keyStage, treeStage);
    if outcome.Built? {
      var degenerateCount;
      instanceData, validNodeCount, degenerateCount := FilterInstances(outcome.nodes, numTris);
    }
  }

  /** The BVH object. `bvh` is the C++ member `m_bvh`; `instanceBuffer` is
      the content of the instance buffer object the driver holds under the
      name `aabbInstanceVBO` (0 meaning no buffer). */
  class BVH {
    var primitives: seq<Primitive>
    var bvh: seq<LBVHNode>
    var mortonCodes: seq<MortonCodeElement>
    var aabbInstanceVBO: nat
    var numInternalNodes: nat
    ghost var instanceBuffer: seq<Vec3>

    /** A live instance buffer holds one centre and one scale for each of
        `numInternalNodes` instances; without one there is nothing to draw. */
    ghost predicate Valid()
      reads this
    {
      && (aabbInstanceVBO == 0 ==> instanceBuffer == [])
      && (aabbInstanceVBO != 0 ==> numInternalNodes > 0 && |instanceBuffer| == 2 * numInternalNodes)
    }

    /** The defaulted constructor: empty vectors, no buffer, no instances. */
    constructor ()
      ensures primitives == [] && bvh == [] && mortonCodes == []
      ensures aabbInstanceVBO == 0 && numInternalNodes == 0
      ensures Valid()
    {
      primitives := [];
      bvh := [];
      mortonCodes := [];
      aabbInstanceVBO := 0;
      numInternalNodes := 0;
      instanceBuffer := [];
    }

    /** The destructor: releases the instance buffer if there is one. */
    method Destroy()
      requires Valid()
      modifies this
      ensures aabbInstanceVBO == 0 && instanceBuffer == []
      ensures primitives == old(primitives) && bvh == old(bvh) && mortonCodes == old(mortonCodes)
      ensures numInternalNodes == old(numInternalNodes)
      ensures Valid()
    {
      if aabbInstanceVBO != 0 {
        aabbInstanceVBO := 0;
        instanceBuffer := [];
      }
    }

    /** The dynamic build. `hasContext` says whether a graphics context is
        current, `freshBuffer` is the name the driver hands out for a new
        buffer, and the two stages stand for the device dispatches. */
    method BuildLBVHDynamic(positions: seq<Vec3>, indices: seq<nat>, hasContext: bool,
                            keyStage: KeyStage, treeStage: TreeStage, freshBuffer: nat)
      returns (outcome: BuildOutcome)
      requires Valid() && AllRepresentable(positions)
      requires KeyStageSized(keyStage) && TreeStageSized(treeStage)
      requires freshBuffer != 0
      modifies this
      ensures Valid()
      ensures outcome == ExpectedOutcome(positions, indices, hasContext, keyStage, treeStage)
      ensures bvh == [] && mortonCodes == []
      ensures outcome.NoTriangles? || outcome.NoContext? ==> primitives == []
      ensures outcome.BadIndex? ==>
        primitives == PrimitivesOf(TriangleBoxes(positions, indices, outcome.triangle))
                      + DefaultPrimitives(NumTriangles(indices) - outcome.triangle)
      ensures outcome.Degenerate? || outcome.Built? ==>
        primitives == PrimitivesOf(TriangleBoxes(positions, indices, NumTriangles(indices)))
      ensures !outcome.Built? ==>
        && aabbInstanceVBO == old(aabbInstanceVBO)
        && numInternalNodes == old(numInternalNodes)
        && instanceBuffer == old(instanceBuffer)
      ensures outcome.Built? ==>
        var visited := outcome.nodes[NumTriangles(indices) - 1..];
        && numInternalNodes == ValidCount(visited)
        && (numInternalNodes > 0 ==> aabbInstanceVBO == freshBuffer && instanceBuffer == InstancePairs(visited))
        && (numInternalNodes == 0 ==> aabbInstanceVBO == 0 && instanceBuffer == [])
    {
      bvh := [];
      primitives := [];
      mortonCodes := [];
      var numTris := NumTriangles(indices);
      if numTris == 0 {
        outcome := NoTriangles;
      } else if !hasContext {
        outcome := NoContext;
      } else {
        var instanceData, validNodeCount;
        outcome, primitives, instanceData, validNodeCount := BuildFromTriangles(positions, indices, keyStage, treeStage);
        if outcome.Built? {
          PublishInstances(instanceData, validNodeCount, freshBuffer);
        }
      }
    }

    /** The end of a completed build: `numInternalNodes` takes the number of
        valid nodes, and the instance buffer is replaced by a fresh one
        holding the instance data, or released when there is nothing to draw. */
    method PublishInstances(instanceData: seq<Vec3>, validNodeCount: nat, freshBuffer: nat)
      requires Valid() && freshBuffer != 0
      requires |instanceData| == 2 * validNodeCount
      modifies this
      ensures Valid()
      ensures numInternalNodes == validNodeCount
      ensures validNodeCount > 0 ==> aabbInstanceVBO == freshBuffer && instanceBuffer == instanceData
      ensures validNodeCount == 0 ==> aabbInstanceVBO == 0 && instanceBuffer == []
      ensures primitives == old(primitives) && bvh == old(bvh) && mortonCodes == old(mortonCodes)
    {
      numInternalNodes := validNodeCount;
      if numInternalNodes > 0 {
        if aabbInstanceVBO != 0 {
          aabbInstanceVBO := 0;
          instanceBuffer := [];
        }
        aabbInstanceVBO := freshBuffer;
        instanceBuffer := instanceData;
      } else {
        numInternalNodes := 0;
        if aabbInstanceVBO != 0 {
          aabbInstanceVBO := 0;
          instanceBuffer := [];
        }
      }
    }
  }

  // ---------------------------------------------------------------------
  // What the outcome says about the scene and the keys

  /** A scene rejected as degenerate is flat: any two corners of any two
      triangles lie within epsilon of each other on every axis. */
  lemma DegenerateSceneIsFlat(positions: seq<Vec3>, indices: seq<nat>, hasContext: bool,
                              keyStage: KeyStage, treeStage: TreeStage, t: nat, c: nat, u: nat, d: nat)
    requires KeyStageSized(keyStage) && TreeStageSized(treeStage)
    requires ExpectedOutcome(positions, indices, hasContext, keyStage, treeStage).Degenerate?
    requires t < NumTriangles(indices) && u < NumTriangles(indices) && c < 3 && d < 3
    ensures TriangleInRange(positions, indices, t) && TriangleInRange(positions, indices, u)
    ensures LessEq(Sub(Corner(positions, indices, t, c), Corner(positions, indices, u, d)), Splat(EXTENT_EPSILON))
  {
    var n := NumTriangles(indices);
    SceneContainsEveryCorner(positions, indices, n, t, c);
    SceneContainsEveryCorner(positions, indices, n, u, d);
  }

  /** The frame handed to the key stage, from `sceneMin` to
      `sceneMin + sceneExtent`, is at least epsilon wide on every axis and
      holds every corner of every triangle. */
  lemma BuiltFrameHoldsEveryCorner(positions: seq<Vec3>, indices: seq<nat>, hasContext: bool,
                                   keyStage: KeyStage, treeStage: TreeStage, t: nat, c: nat)
    requires KeyStageSized(keyStage) && TreeStageSized(treeStage)
    requires ExpectedOutcome(positions, indices, hasContext, keyStage, treeStage).Built?
    requires t < NumTriangles(indices) && c < 3
    ensures TriangleInRange(positions, indices, t)
    ensures
      var r := ExpectedOutcome(positions, indices, hasContext, keyStage, treeStage);
      && LessEq(Splat(EXTENT_EPSILON), r.sceneExtent)
      && LessEq(r.sceneMin, Corner(positions, indices, t, c))
      && LessEq(Corner(positions, indices, t, c), Add(r.sceneMin, r.sceneExtent))
  {
    SceneContainsEveryCorner(positions, indices, NumTriangles(indices), t, c);
  }

  /** The pairs handed to the tree stages are the key stage's pairs,
      reordered so that codes never decrease and equal codes have
      ascending element indices. */
  lemma BuiltKeysAreSortedPairs(positions: seq<Vec3>, indices: seq<nat>, hasContext: bool,
                                keyStage: KeyStage, treeStage: TreeStage)
    requires KeyStageSized(keyStage) && TreeStageSized(treeStage)
    requires ExpectedOutcome(positions, indices, hasContext, keyStage, treeStage).Built?
    ensures
      var r := ExpectedOutcome(positions, indices, hasContext, keyStage, treeStage);
      var elements := ElementsOf(TriangleBoxes(positions, indices, NumTriangles(indices)));
      multiset(r.sortedKeys) == multiset(keyStage(elements, r.sceneMin, r.sceneExtent))
    ensures
      var keys := ExpectedOutcome(positions, indices, hasContext, keyStage, treeStage).sortedKeys;
      forall i, j :: 0 <= i < j < |keys| ==>
        || keys[i].mortonCode < keys[j].mortonCode
        || (keys[i].mortonCode == keys[j].mortonCode && keys[i].elementIdx <= keys[j].elementIdx)
  {
    var r := ExpectedOutcome(positions, indices, hasContext, keyStage, treeStage);
    var elements := ElementsOf(TriangleBoxes(positions, indices, NumTriangles(indices)));
    SortCodesSortedPermutation(keyStage(elements, r.sceneMin, r.sceneExtent));
    var keys := r.sortedKeys;
    forall i, j | 0 <= i < j < |keys|
      ensures || keys[i].mortonCode < keys[j].mortonCode
              || (keys[i].mortonCode == keys[j].mortonCode && keys[i].elementIdx <= keys[j].elementIdx)
    {
      SortedIsLexicographic(keys, i, j);
    }
  }

  /** Only whole triples are read: the indices after the last one change
      nothing about the build. */
  lemma OutcomeIgnoresTrailingIndices(positions: seq<Vec3>, indices: seq<nat>, hasContext: bool,
                                      keyStage: KeyStage, treeStage: TreeStage)
    requires KeyStageSized(keyStage) && TreeStageSized(treeStage)
    ensures ExpectedOutcome(positions, indices, hasContext, keyStage, treeStage)
         == ExpectedOutcome(positions, indices[..3 * NumTriangles(indices)], hasContext, keyStage, treeStage)
  {
    var n := NumTriangles(indices);
    assert NumTriangles(indices[..3 * n]) == n;
    TrailingIndicesIgnored(positions, indices, 3 * n, n);
  }
}
