/** The pass over the read-back node array that turns every well-formed
    node into an instance (a centre and a scale) for the box renderer. */
module InstanceFilter {
  import opened Aabb
  import opened Records

  /** A node thinner than this on some axis is skipped. */
  const NODE_EPSILON: real := 0.0001

  /** The smallest scale an instance is drawn with. */
  const MIN_SCALE: real := 0.001

  /** The fixed offset added to every instance centre. */
  const CENTER_OFFSET: Vec3 := Vec3(8.3, 0.0, 8.0)

  /** None of the six bound coordinates is NaN or infinite. */
  predicate IsFiniteNode(node: LBVHNode) {
    && node.aabbMinX.Finite? && node.aabbMinY.Finite? && node.aabbMinZ.Finite?
    && node.aabbMaxX.Finite? && node.aabbMaxY.Finite? && node.aabbMaxZ.Finite?
  }

  function NodeMin(node: LBVHNode): Vec3
    requires IsFiniteNode(node)
  {
    Vec3(node.aabbMinX.value, node.aabbMinY.value, node.aabbMinZ.value)
  }

  function NodeMax(node: LBVHNode): Vec3
    requires IsFiniteNode(node)
  {
    Vec3(node.aabbMaxX.value, node.aabbMaxY.value, node.aabbMaxZ.value)
  }

  /** A node that is drawn: finite bounds, and wider than epsilon on every axis. */
  predicate IsValidNode(node: LBVHNode) {
    && IsFiniteNode(node)
    && var e := Sub(NodeMax(node), NodeMin(node));
       e.x > NODE_EPSILON && e.y > NODE_EPSILON && e.z > NODE_EPSILON
  }

  /** The midpoint of the node's box, shifted by the fixed offset. */
  function InstanceCenter(node: LBVHNode): (r: Vec3)
    requires IsFiniteNode(node)
    ensures Sub(r, CENTER_OFFSET) == Half(Add(NodeMin(node), NodeMax(node)))
    ensures var c := Sub(r, CENTER_OFFSET); Sub(c, NodeMin(node)) == Sub(NodeMax(node), c)
  {
    Add(Half(Add(NodeMin(node), NodeMax(node))), CENTER_OFFSET)
  }

  /** The node's extent, raised to at least the minimum scale on every axis. */
  function InstanceScale(node: LBVHNode): (r: Vec3)
    requires IsFiniteNode(node)
    ensures LessEq(Splat(MIN_SCALE), r) && LessEq(Sub(NodeMax(node), NodeMin(node)), r)
    ensures var e := Sub(NodeMax(node), NodeMin(node));
      && (r.x == e.x || r.x == MIN_SCALE)
      && (r.y == e.y || r.y == MIN_SCALE)
      && (r.z == e.z || r.z == MIN_SCALE)
  {
    MaxV(Sub(NodeMax(node), NodeMin(node)), Splat(MIN_SCALE))
  }

  /** How many of the nodes are drawn. */
  function ValidCount(ns: seq<LBVHNode>): (r: nat)
    ensures r <= |ns|
    decreases |ns|
  {
    if |ns| == 0 then 0
    else ValidCount(ns[..|ns| - 1]) + (if IsValidNode(ns[|ns| - 1]) then 1 else 0)
  }

  /** The instance data for the nodes, in node order: a centre and a scale
      for every drawn node. */
  function InstancePairs(ns: seq<LBVHNode>): (r: seq<Vec3>)
    ensures |r| == 2 * ValidCount(ns)
    decreases |ns|
  {
    if |ns| == 0 then []
    else
      var last := ns[|ns| - 1];
      InstancePairs(ns[..|ns| - 1])
        + (if IsValidNode(last) then [InstanceCenter(last), InstanceScale(last)] else [])
  }

  /** The filter loop. It visits the last `numTris` of the `2 * numTris - 1`
      nodes, emits a pair for each valid one and counts the rest. */
  method FilterInstances(nodes: seq<LBVHNode>, numTris: nat)
    returns (instanceData: seq<Vec3>, validNodeCount: nat, degenerateCount: nat)
    requires 0 < numTris && |nodes| == 2 * numTris - 1
    ensures instanceData == InstancePairs(nodes[numTris - 1..])
    ensures validNodeCount == ValidCount(nodes[numTris - 1..])
    ensures validNodeCount + degenerateCount == numTris
    ensures |instanceData| == 2 * validNodeCount
  {
    instanceData := [];
    validNodeCount := 0;
    degenerateCount := 0;
    var totalNodes := 2 * numTris - 1;
    var i := numTris - 1;
    while i < totalNodes
      invariant numTris - 1 <= i <= totalNodes
      invariant instanceData == InstancePairs(nodes[numTris - 1..i])
      invariant validNodeCount == ValidCount(nodes[numTris - 1..i])
      invariant validNodeCount + degenerateCount == i - (numTris - 1)
    {
      var node := nodes[i];
      assert nodes[numTris - 1..i + 1][..i - (numTris - 1)] == nodes[numTris - 1..i];
      if !IsValidNode(node) {
        degenerateCount := degenerateCount + 1;
      } else {
        var center := InstanceCenter(node);
        var scale := InstanceScale(node);
        instanceData := instanceData + [center, scale];
        validNodeCount := validNodeCount + 1;
      }
      i := i + 1;
    }
    assert nodes[numTris - 1..i] == nodes[numTris - 1..];
  }

  // ---------------------------------------------------------------------
  // What the instance data says about the nodes

  /** No pair is emitted exactly when every visited node is skipped. */
  lemma {:induction false} NoInstancesIffAllSkipped(ns: seq<LBVHNode>)
    ensures ValidCount(ns) == 0 <==> forall k :: 0 <= k < |ns| ==> !IsValidNode(ns[k])
    decreases |ns|
  {
    if |ns| > 0 {
      NoInstancesIffAllSkipped(ns[..|ns| - 1]);
      assert forall k :: 0 <= k < |ns| - 1 ==> ns[..|ns| - 1][k] == ns[k];
    }
  }

  /** Node `k`, if valid, contributes the pair at slot `ValidCount(ns[..k])`. */
  lemma {:induction false} ValidNodeIsEmitted(ns: seq<LBVHNode>, k: nat)
    requires k < |ns| && IsValidNode(ns[k])
    ensures 2 * ValidCount(ns[..k]) + 1 < |InstancePairs(ns)|
    ensures InstancePairs(ns)[2 * ValidCount(ns[..k])] == InstanceCenter(ns[k])
    ensures InstancePairs(ns)[2 * ValidCount(ns[..k]) + 1] == InstanceScale(ns[k])
    decreases |ns|
  {
    var init := ns[..|ns| - 1];
    if k == |ns| - 1 {
      assert ns[..k] == init;
    } else {
      assert init[..k] == ns[..k];
      ValidNodeIsEmitted(init, k);
      PairsPrefix(ns);
    }
  }

  /** Later nodes only append to the instance data. */
  lemma PairsPrefix(ns: seq<LBVHNode>)
    requires |ns| > 0
    ensures InstancePairs(ns[..|ns| - 1]) <= InstancePairs(ns)
  {
  }

  /** Every emitted pair comes from a valid node: each centre is the midpoint
      of a node wider than epsilon on every axis, shifted by the offset, and
      the scale beside it is that node's clamped extent. */
  lemma {:induction false} EveryPairFromValidNode(ns: seq<LBVHNode>, p: nat)
    requires p < ValidCount(ns)
    ensures exists k ::
              && 0 <= k < |ns| && IsValidNode(ns[k])
              && InstancePairs(ns)[2 * p] == InstanceCenter(ns[k])
              && InstancePairs(ns)[2 * p + 1] == InstanceScale(ns[k])
    decreases |ns|
  {
    var init := ns[..|ns| - 1];
    PairsPrefix(ns);
    if p < ValidCount(init) {
      EveryPairFromValidNode(init, p);
      var k :|
        && 0 <= k < |init| && IsValidNode(init[k])
        && InstancePairs(init)[2 * p] == InstanceCenter(init[k])
        && InstancePairs(init)[2 * p + 1] == InstanceScale(init[k]);
      assert init[k] == ns[k];
    } else {
      var k := |ns| - 1;
      assert IsValidNode(ns[k]);
    }
  }

  /** An instance's box, centre minus the offset plus or minus half its scale,
      covers the node it came from. */
  lemma InstanceBoxCoversNode(node: LBVHNode)
    requires IsValidNode(node)
    ensures
      var c := Sub(InstanceCenter(node), CENTER_OFFSET);
      var h := Half(InstanceScale(node));
      LessEq(Sub(c, h), NodeMin(node)) && LessEq(NodeMax(node), Add(c, h))
  {
  }
}
