# LBVH build: host-side model

This project models the host side of the linear bounding volume hierarchy
(LBVH) build in `BVH::buildLBVHDynamic`. It also models the `AABB` value
type with its `expand` operation, the records passed to and from the
device, and the `BVH` object's fields. The build does the following:

1. It clears the object's vectors. It returns early on an empty triangle
   list or when no graphics context is current.
2. It walks the triangles in order and builds one box per triangle from its
   three corners. It fills the `primitives` array and the per-triangle
   elements for the device, and grows a running scene box. It stops at the
   first triangle that names a missing vertex.
3. It rejects a scene that is at most 0.0001 wide on every axis. Otherwise
   it hands the scene minimum and the clamped extent to the key stage.
4. It sorts the read-back (Morton code, element index) pairs on the host.
   The order is by code, with ties broken by element index.
5. It runs the hierarchy and bounding-box stages. Then it filters the last
   `numTris` of the `2·numTris − 1` read-back nodes into (centre, scale)
   instance pairs. Finally it updates `numInternalNodes` and the instance
   buffer name `aabbInstanceVBO`.

The modules follow that structure:

- `Aabb` (`aabb.dfy`): vectors, boxes, `expand`, union, and their laws.
- `Records` (`records.dfy`): the plain records.
- `Extraction` (`extraction.dfy`): the triangle loop, the index check, the
  scene box, and the degenerate-scene guard with its clamp.
- `MortonSort` (`morton_sort.dfy`): the comparator and an in-place sort of
  an array, proved to give the unique sorted permutation.
- `InstanceFilter` (`instance_filter.dfy`): the node filter loop.
- `Lbvh` (`lbvh.dfy`): the `BVH` class, its constructor and destructor,
  and the build.

`ExpectedOutcome` states, as a function, what the build does with a given
input. `BuildLBVHDynamic` is proved to produce that outcome and the matching
new state of the object. The device stages are parameters of the build:
`keyStage` stands for the Morton-code dispatch, and `treeStage` for the
hierarchy and bounding-box dispatches. The build requires only that each
stage returns as many entries as the host allocated for it.

Four facts about the code shape the model:

- The read-back pairs are sorted on the host with `std::sort`
  (`src/LBVH.cpp:127-132`). The `sortShader` argument is never dispatched.
- The default box uses ±`FLT_MAX` (`src/LBVH.hpp:7-8`), and the model keeps
  those sentinels.
- Every early return comes after `m_bvh`, `primitives` and `mortonCodes`
  are cleared (`src/LBVH.cpp:8-10`). Only `numInternalNodes` and
  `aabbInstanceVBO` survive an early return.
- The filter visits indices `numTris − 1` to `2·numTris − 2`, and its
  `isLeaf` test holds for all of them (`src/LBVH.cpp:203`, `236`). The model
  keeps the visited range. It makes no claim about which kind of node sits
  there, because the kernels that lay out the nodes are not part of this
  model.

## Model

| member | source | states |
|---|---|---|
| Aabb.Expand | src/LBVH.hpp:9-12 | the expanded box contains the new point, encloses the old box, and keeps every point the old box held (it never shrinks) |
| Aabb.EmptyContainsNothing | src/LBVH.hpp:7-8 | the default box (min `FLT_MAX`, max `-FLT_MAX`) contains no point |
| Aabb.ExpandEmpty | src/LBVH.hpp:7-12 | expanding the default box by a finite point gives the box with min = max = that point |
| Aabb.ExpandIsLeast | src/LBVH.hpp:9-12 | any box that encloses the old box and holds the point encloses the expanded box |
| Aabb.ExpandedIsOrdered | src/LBVH.hpp:9-12 | a box expanded at least once has min ≤ max on every axis |
| Aabb.ExpandIdempotent | src/LBVH.hpp:10-11 | expanding twice by the same point equals expanding once |
| Aabb.ExpandCommutes | src/LBVH.hpp:10-11 | two expansions commute |
| Aabb.ExpandAllMovesToFront | src/LBVH.hpp:10-11 | a point expanded in late gives the same box as if expanded in first |
| Aabb.RemoveFromBoth | src/LBVH.hpp:10-11 | removing the same point from two lists with equal contents leaves equal contents |
| Aabb.ExpandAllOrderIndependent | src/LBVH.hpp:10-11 | expanding by the same multiset of points in any order yields the same box |
| Aabb.ExpandAllContains | src/LBVH.hpp:9-12 | a box expanded by a list of points contains each of them |
| Aabb.ExpandAllEncloses | src/LBVH.hpp:9-12 | a box expanded by a list of points encloses the starting box |
| Aabb.ExpandAllIsLeast | src/LBVH.hpp:9-12 | any box enclosing the start and holding all the points encloses the result |
| Aabb.EnclosedPointInside | src/LBVH.hpp:6-13 | a point of an enclosed box lies in the enclosing box |
| Aabb.Union | src/LBVH.cpp:68-70 | the union of two boxes encloses both |
| Aabb.UnionIsLeast | src/LBVH.cpp:68-70 | any box enclosing both arguments encloses their union |
| Aabb.UnionAllEnclosesEach | src/LBVH.cpp:53-70 | the union of a list of boxes encloses every member |
| Aabb.UnionAllIsLeast | src/LBVH.cpp:68-70 | any finite box enclosing every member encloses the union, so the union adds no padding |
| Aabb.UnionAllSnoc | src/LBVH.cpp:68-70 | appending a box to the list unions it into the result |
| Aabb.UnionAllOrdered | src/LBVH.cpp:68-79 | a non-empty union of ordered boxes is ordered |
| Aabb.ExpandByTriangleIsUnion | src/LBVH.cpp:53-70 | expanding the running box by a triangle's three corners is the union of the running box with that triangle's own box |
| Extraction.PrefixInRangeMeans | src/LBVH.cpp:41-47 | the recursive "first `count` triangles are in range" predicate holds exactly when every one of those triangles names existing vertices |
| Extraction.FirstBadTriangle | src/LBVH.cpp:36-47 | None exactly when every triangle is in range; otherwise the reported triangle is out of range and every earlier one is in range |
| Extraction.FirstBadIsFirst | src/LBVH.cpp:41-47 | an out-of-range triangle after only in-range ones is the first bad triangle |
| Extraction.NoBadTriangle | src/LBVH.cpp:36-47 | with every triangle in range there is no first bad triangle |
| Extraction.TriangleBoxIsMinMax | src/LBVH.cpp:53-57 | a triangle's box (the default box expanded by its three corners) is the componentwise min and max of the corners |
| Extraction.TriangleBoxIsLeast | src/LBVH.cpp:53-57 | a triangle's box holds its three corners, is ordered, and is enclosed by every finite box holding the corners |
| Extraction.CornerInTriangleBox | src/LBVH.cpp:49-57 | each corner of a triangle lies in the triangle's box |
| Extraction.TriangleBoxes | src/LBVH.cpp:36-58 | the box list of the first `count` triangles has `count` entries |
| Extraction.TriangleBoxesAt | src/LBVH.cpp:53-58 | entry `t` of the box list is triangle `t`'s box, and triangle `t` is in range |
| Extraction.FillPrimitive | src/LBVH.cpp:53-58 | writing the next box at the first untouched entry extends the filled prefix of `primitives` by one |
| Extraction.FillElement | src/LBVH.cpp:60-66 | the same for the device elements |
| Extraction.FilledEntryIsTriangleBox | src/LBVH.cpp:49-66 | filled entry `i` has index `i` in both arrays, and its box is the componentwise min/max of triangle `i`'s corners |
| Extraction.BoxesStep | src/LBVH.cpp:36-58 | one more in-range triangle appends its box to the box list |
| Extraction.UnionStep | src/LBVH.cpp:68-70 | expanding the union of some boxes by a triangle's corners adds that triangle's box to the union |
| Extraction.PrimsAdvance | src/LBVH.cpp:53-58 | one loop round moves `primitives` from "first `i` filled" to "first `i + 1` filled" |
| Extraction.ElementsAdvance | src/LBVH.cpp:60-66 | one loop round moves the device elements from "first `i` filled" to "first `i + 1` filled" |
| Extraction.GlobalAdvance | src/LBVH.cpp:68-70 | one loop round keeps the running box equal to the union of the boxes seen so far |
| Extraction.ScanTriangle | src/LBVH.cpp:49-70 | one round for an in-range triangle: the loop state (filled prefixes, untouched rest, running union) holds after it whenever it held before |
| Extraction.ExtractPrimitives | src/LBVH.cpp:26-71 | the loop stops exactly at the first bad triangle (or runs to the end). The first entries of both arrays hold the boxes of the triangles processed, with index `i`; the rest keep their initial values. The scene box is the union of the processed boxes. Trailing indices are ignored |
| Extraction.SameTriangle | src/LBVH.cpp:12-39 | dropping indices past a triangle changes neither its range check nor its box |
| Extraction.TrailingIndicesIgnored | src/LBVH.cpp:12-39 | indices past the last whole triple change neither the first bad triangle, the range check nor the box list |
| Extraction.ClampExtent | src/LBVH.cpp:104 | the clamped extent is at least 0.0001 and at least the real extent on every axis, and equals one of them on each axis |
| Extraction.ClampKeepsWideAxis | src/LBVH.cpp:79-104 | for a scene that passed the guard, every axis wider than 0.0001 is handed on unchanged, and at least one axis is |
| Extraction.SceneExtentNonNegative | src/LBVH.cpp:68-79 | the scene box of a non-empty, in-range triangle list is ordered, so its extent is non-negative |
| Extraction.SceneEnclosesEveryTriangle | src/LBVH.cpp:53-70 | the scene box encloses every triangle's box |
| Extraction.SceneContainsEveryCorner | src/LBVH.cpp:49-70 | every vertex named by a processed triangle lies in the scene box |
| MortonSort.BeforeIsStrictTotalOrder | src/LBVH.cpp:127-132 | the comparator is irreflexive, asymmetric and transitive, and total: two pairs it cannot order are equal |
| MortonSort.SortedIsLexicographic | src/LBVH.cpp:127-132 | in a sorted array codes never decrease, and equal codes have non-decreasing element indices |
| MortonSort.InsertPermutes | src/LBVH.cpp:127 | inserting an element adds exactly that element to the contents |
| MortonSort.InsertSorted | src/LBVH.cpp:127-132 | inserting into a sorted sequence keeps it sorted |
| MortonSort.SortCodesSortedPermutation | src/LBVH.cpp:127-132 | the reference sort yields a sorted permutation of its input |
| MortonSort.SortedHeadsAgree | src/LBVH.cpp:127-132 | two sorted sequences with the same contents start with the same element |
| MortonSort.SortedPermutationUnique | src/LBVH.cpp:127-132 | two sorted sequences with the same contents are equal, so the tie-break makes the result independent of the sort algorithm |
| MortonSort.AnySortAgrees | src/LBVH.cpp:127-132 | any sorted permutation of the pairs equals the reference sort's result |
| MortonSort.InsertAt | src/LBVH.cpp:127-132 | inserting an element that comes after the first `k` entries and before the rest places it at position `k` |
| MortonSort.ShiftStep | src/LBVH.cpp:127 | moving the entry before the gap up one slot keeps the shifting state with the gap one lower |
| MortonSort.ShiftDone | src/LBVH.cpp:127-132 | dropping the key into the gap where the shifting stops yields the insertion, and the tail is untouched |
| MortonSort.InsertNext | src/LBVH.cpp:127-132 | one in-place round: the prefix becomes the insertion of the next element into the sorted prefix, and the rest of the array is unchanged |
| MortonSort.SortMortonCodes | src/LBVH.cpp:127-132 | the array, sorted in place, is sorted by the comparator, is a permutation of its old contents, and equals the reference sort of them |
| InstanceFilter.InstanceCenter | src/LBVH.cpp:226-227 | the centre minus the offset (8.3, 0, 8) is the midpoint of the node's box: it lies as far above the box's minimum as below its maximum on every axis |
| InstanceFilter.InstanceScale | src/LBVH.cpp:206-229 | the scale is at least 0.001 and at least the node's extent on every axis, and equals one of the two on each axis |
| InstanceFilter.ValidCount | src/LBVH.cpp:200-233 | the number of valid nodes never exceeds the number visited |
| InstanceFilter.InstancePairs | src/LBVH.cpp:199-232 | the instance data holds exactly two entries per valid node |
| InstanceFilter.FilterInstances | src/LBVH.cpp:199-244 | the loop visits exactly nodes `numTris − 1` to `2·numTris − 2`. The instance data is one (centre, scale) pair per valid visited node, in node order. The valid count plus the degenerate count is `numTris`, and the data has twice the valid count |
| InstanceFilter.NoInstancesIffAllSkipped | src/LBVH.cpp:211-233 | no pair is emitted exactly when every visited node is skipped |
| InstanceFilter.ValidNodeIsEmitted | src/LBVH.cpp:226-233 | a valid node's centre and scale sit at the slot given by the number of valid nodes before it |
| InstanceFilter.PairsPrefix | src/LBVH.cpp:231-232 | later nodes only append to the instance data |
| InstanceFilter.EveryPairFromValidNode | src/LBVH.cpp:211-233 | every emitted pair is the centre and scale of some visited node whose bounds are finite and wider than 0.0001 on every axis |
| InstanceFilter.InstanceBoxCoversNode | src/LBVH.cpp:226-229 | the box drawn for an instance (centre minus offset, ± half the scale) covers the node's box |
| Lbvh.DeviceOutcome | src/LBVH.cpp:79-197 | past the index check the build is Degenerate exactly when the scene is at most 0.0001 wide on every axis, and Built otherwise. A built result carries the scene minimum and the clamped extent handed to the key stage. Its pairs are the key stage's pairs, sorted and a permutation of them (one per element). Its `2n − 1` nodes are the tree stages' output on those sorted pairs |
| Lbvh.ExpectedOutcome | src/LBVH.cpp:8-197 | NoTriangles exactly when there is no whole triple; NoContext exactly when there are triangles but no context. BadIndex(t) names an out-of-range triangle preceded only by in-range ones. Degenerate or Built happens exactly when there are triangles, a context, and every triangle in range. Built carries `n` sorted pairs and `2n − 1` nodes |
| Lbvh.RunDeviceStages | src/LBVH.cpp:79-197 | the guard, the clamp, the key stage, the in-place sort of the read-back array and the tree stages produce the device outcome |
| Lbvh.BuildFromTriangles | src/LBVH.cpp:26-244 | the triangle loop, device stages and filter produce the expected outcome. `primitives` is filled up to the bad triangle or completely. A built result's instance data and valid count are those of the visited nodes |
| Lbvh.BVH.constructor | src/LBVH.hpp:39-45 | a fresh object has empty vectors, `aabbInstanceVBO == 0` and `numInternalNodes == 0` |
| Lbvh.BVH.Destroy | src/LBVH.hpp:46-51 | the destructor releases the instance buffer (name 0, no contents) and changes nothing else |
| Lbvh.BVH.PublishInstances | src/LBVH.cpp:246-298 | `numInternalNodes` becomes the valid count. With valid nodes, the buffer is a fresh name holding the instance data; without any, the buffer is released and its name is 0 |
| Lbvh.BVH.BuildLBVHDynamic | src/LBVH.cpp:5-298 | the outcome is `ExpectedOutcome`, and `m_bvh` and `mortonCodes` end empty. `primitives` is empty on the two early returns, filled up to the bad triangle on BadIndex, and filled completely otherwise. On every early return the buffer name, `numInternalNodes` and the buffer contents are unchanged. After a completed build they follow the valid visited nodes. The object's buffer invariant is kept |
| Lbvh.DegenerateSceneIsFlat | src/LBVH.cpp:79-86 | when the scene is rejected as degenerate, any two corners of any two triangles lie within 0.0001 of each other on every axis |
| Lbvh.BuiltFrameHoldsEveryCorner | src/LBVH.cpp:103-105 | the frame handed to the key stage (scene minimum, clamped extent) is at least 0.0001 wide on every axis and holds every vertex of every triangle |
| Lbvh.BuiltKeysAreSortedPairs | src/LBVH.cpp:116-132 | the pairs handed to the tree stages are a permutation of the key stage's pairs; codes never decrease and equal codes have non-decreasing element indices |
| Lbvh.OutcomeIgnoresTrailingIndices | src/LBVH.cpp:12-39 | the whole outcome is the same when the indices past the last whole triple are dropped |

## Left out

- Floating point. Coordinates are exact reals. There is no rounding, and
  0.0001f, 0.001f and (8.3, 0, 8) are exact decimals. `FLT_MAX` is kept as
  an exact sentinel. Positions must be finite floats (`AllRepresentable`);
  the build with NaN or infinite positions is not modelled.
- Non-finite node bounds. A read-back coordinate is either `Finite(value)`
  or `NonFinite`. NaN and infinity are not told apart, which matters only
  to the filter's skip test (`src/LBVH.cpp:211-213`), and that test treats
  them alike.
- Integer widths. `uint32_t`, `int32_t` and `GLuint` are unbounded
  integers. The wrap-around of `numTris`, `totalNodes` and the index
  arithmetic at 2^32 triangles or more is not modelled.
- Graphics calls. Buffer creation, upload, binding, uniforms, dispatches,
  barriers, `glFinish`, read-back and deletion of the transient buffers are
  not modelled. Their only modelled effect is on `aabbInstanceVBO`: 0 or
  the fresh name passed in as `freshBuffer`. The content of the instance
  buffer is the ghost field `instanceBuffer`.
- The buffer-size check after upload (`src/LBVH.cpp:264-278`) and the final
  error query (`src/LBVH.cpp:306-310`). They only log.
- The device kernels. The Morton, hierarchy and bounding-box shaders are
  not part of this model. They appear as the function parameters
  `keyStage` and `treeStage`, taken to be deterministic and to fill exactly
  the buffers the host sized. The construction-info buffer they share is
  not modelled, nor is its `LBVHConstructionInfo` record.
- The unused `sortShader` argument.
- The context check (`src/LBVH.cpp:21-24`) is the boolean `hasContext`.
- Logging, string formatting and the "first five" sampled log lines. The
  `isLeaf` label exists only for logging.
- `AABB::expand` updates its box in place. The model expresses each update
  as reassigning a box value (`Expand` returns the new box). The source
  never lets two names share one box, so no aliasing is lost.
- The host library sort's algorithm. The model sorts in place by insertion.
  `SortedPermutationUnique` shows that every sort with this comparator
  gives the same result.
- Lbvh.DegenerateSceneIsFlat: proves one direction only, that a degenerate
  verdict implies a flat scene. The converse needs the scene box's bounds
  to be reached by some corner, which is not proved.
- InstanceFilter.ValidCount: its own contract states only the bound by the
  number of visited nodes. What the count means is stated by
  `FilterInstances`, `NoInstancesIffAllSkipped` and `InstancePairs`.
- `src/Init.cpp`, `src/Mesh.hpp` and `src/Window.hpp` (windowing, input,
  rendering, mesh loading) are not part of this model.
