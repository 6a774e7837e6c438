# BSP tree insertion, polygon classification and the tolerant scalar, in Dafny

This project models the core of a C++ Binary Space Partitioning tree library:

- **`Safe<T>`** (`DataType.h`) — a scalar whose comparisons are tolerant: values
  closer than `EPSILON = 1e-6` are equal. Division refuses a divisor that is
  (tolerantly) zero. `sqrt`, `log`, `asin` and `acos` refuse values outside
  their domain. `min` and `max` pick an operand by tolerant comparison. The
  value is a Dafny `real`, so the laws are stated exactly, without
  floating-point rounding. The compound assignments (`+=`, `-=`, `*=`, `/=`)
  and `setValue` update the variable in place. They are methods of the class
  `SafeVar`.
- **`RelationType`** and **`Polygon::relationWithPlane`** (`Plane.cpp`) — each
  vertex gives one tested value. The value goes in a tolerant sign class
  (positive, negative or zero band). Three counters then decide between
  `COINCIDENT`, `IN_FRONT`, `BEHIND` and `SPLIT`.
- **`BSPNode` / `BSPTree`** (`BSPTree.h`, `BSPTree.cpp`) — a linked tree.
  Each node has a partition plane, its own list of coincident polygons, and
  optional front and back children. Insertion classifies a polygon against a
  node's partition. It then appends the polygon at that node, or routes it to
  a child. A missing child is created lazily from the polygon's own plane. On
  `SPLIT`, the polygon is split between two children that must already exist.

Module layout, one module per source component:

| file | module | models |
|---|---|---|
| `datatype.dfy` | `DataType` | `Safe<T>`, `RelationType`, the domain errors |
| `plane.dfy` | `PolygonRelation` | `Polygon::relationWithPlane` |
| `geometry.dfy` | `Geometry` | the polygon/plane collaborators the tree calls |
| `tree_model.dfy` | `TreeModel` | the tree as a value; insertion as a function; its properties |
| `bsp.dfy` | `BSP` | the `BSPNode` / `BSPTree` classes, proved to follow `TreeModel` |

Each `BSPNode` carries two ghost fields. `Repr` is a set that contains
every node of its subtree. `Model` is the subtree's value as a `TreeModel.Tree`. `Valid()` is
the tree-shape invariant: children own disjoint footprints and no node lies
below itself. This is what the recursive `delete` in the destructors relies
on. The insertion methods are proved to leave `Model` equal to
`TreeModel.InsertModel` of the old model. The properties of insertion
(monotonicity, counting, placement) are proved once, on `InsertModel`.

The headers that define `Polygon`, `Plane`, `Point3D` and the vector
arithmetic are not part of this model. `Polygon` and `Plane` are abstract
types. The tree calls three polygon operations, which are passed in a
`Geometry` record, with no property assumed of them:

- the per-vertex tested values;
- `getPlane`;
- `split`.

Insertion has one precondition, `CanInsert`. It states exactly when the
source's recursion terminates without dereferencing a null child:

- a `SPLIT` needs both children already present;
- a child created lazily from the polygon's own plane must classify that
  polygon as `COINCIDENT`. Otherwise a polygon `IN_FRONT` of or `BEHIND` its
  own plane makes the source create children forever, and one `SPLIT` by its
  own plane reaches the fresh childless node and dereferences a null child.

Three behaviours of the code that the model keeps as written:

- `IN_FRONT` requires every vertex to be strictly positive. A zero-band vertex
  among positive ones gives `SPLIT` (the code tests `posCnt == size`).
- Insertion never sets `parent`. Every node it creates keeps a null parent.
- On `SPLIT` the code never creates a child. Both must already exist, so this
  is a precondition, not lazy creation.

## Model

| member | source | states |
|---|---|---|
| `DataType.Eq` | DataType.h:122-124 | tolerant `==` holds iff both `<=` and `>=` hold and the gap is not exactly EPSILON |
| `DataType.Ne` | DataType.h:125 | tolerant `!=` holds iff `<` or `>` holds or the gap is exactly EPSILON |
| `DataType.Lt` | DataType.h:126-128 | tolerant `<` holds iff the first value is below the second and more than EPSILON away |
| `DataType.Le` | DataType.h:129-131 | tolerant `<=` is the negation of `>` |
| `DataType.Gt` | DataType.h:132-134 | tolerant `>` is `<` with the operands swapped |
| `DataType.Ge` | DataType.h:135-137 | tolerant `>=` is the negation of `<` |
| `DataType.EqNum` | DataType.h:140-144 | `==` against a built-in number agrees with `==` against the scalar holding it |
| `DataType.NeNum` | DataType.h:145-146 | the same for `!=` |
| `DataType.LtNum` | DataType.h:147-150 | the same for `<` |
| `DataType.LeNum` | DataType.h:151-154 | the same for `<=` |
| `DataType.GtNum` | DataType.h:155-158 | the same for `>` |
| `DataType.GeNum` | DataType.h:159-162 | the same for `>=` |
| `DataType.NumEq` | DataType.h:165-168 | `x == s` agrees with the scalar comparison `Safe(x) == s` |
| `DataType.NumNe` | DataType.h:169-172 | `x != s` agrees with `Safe(x) != s` |
| `DataType.NumLt` | DataType.h:173-176 | `x < s` iff `s > x` |
| `DataType.NumLe` | DataType.h:177-180 | `x <= s` iff `s >= x` |
| `DataType.NumGt` | DataType.h:181-184 | `x > s` iff `s < x` |
| `DataType.NumGe` | DataType.h:185-188 | `x >= s` iff `s <= x` |
| `DataType.EqWithinBand` | DataType.h:122-124 | `a == b` holds exactly when `-EPSILON < a - b < EPSILON` |
| `DataType.EqReflexive` | DataType.h:122-124 | tolerant `==` is reflexive |
| `DataType.EqSymmetric` | DataType.h:122-124 | tolerant `==` is symmetric |
| `DataType.EqNotTransitive` | DataType.h:122-124 | tolerant `==` is not transitive (witness values 0, 2/3·EPSILON, 4/3·EPSILON) |
| `DataType.NeIsNotEq` | DataType.h:125-146 | `!=` is the negation of `==`, for a scalar or built-in operand on either side |
| `DataType.Trichotomy` | DataType.h:122-134 | at most one of `<`, `==`, `>` holds; none holds iff the gap is exactly EPSILON |
| `DataType.LtStrictOrder` | DataType.h:126-134 | `<` and `>` are irreflexive, and `<` is transitive |
| `DataType.Neg` | DataType.h:29 | the negation adds to the operand to give exactly zero |
| `DataType.Add` | DataType.h:82-85 | the sum is tolerantly equal to the first operand iff the second is tolerantly zero; a tolerantly positive second operand makes it tolerantly greater |
| `DataType.Sub` | DataType.h:36-39 | the difference plus the subtrahend gives back the minuend |
| `DataType.Mul` | DataType.h:90-93 | the product is zero iff a factor is zero; one is the unit |
| `DataType.AbsOf` | DataType.h:197-199 | `abs` is non-negative, the operand or its negation, and tolerantly zero iff the operand is |
| `DataType.ArithmeticRoundTrips` | DataType.h:82-97 | `+`/`-` undo each other; negation is an involution; `/` undoes `*` when the divisor is not within EPSILON of zero |
| `DataType.Div` | DataType.h:94-97 | division fails with a division-by-zero error iff `abs(divisor) < EPSILON`; otherwise quotient × divisor gives the dividend |
| `DataType.DivNum` | DataType.h:71-79 | division by a built-in number fails iff `abs(x) < EPSILON`, and agrees with the scalar division |
| `DataType.DivQuotient` | DataType.h:44-50 | a permitted division yields the exact real quotient |
| `DataType.SqrtGuard` | DataType.h:200-205 | `sqrt` fails iff the raw value is negative |
| `DataType.LogGuard` | DataType.h:246-251 | `log` fails iff the raw value is zero or negative |
| `DataType.AsinGuard` | DataType.h:226-231 | `asin` is allowed iff the value is in [-1, 1] |
| `DataType.AcosGuard` | DataType.h:232-237 | `acos` is allowed iff the value is in [-1, 1] |
| `DataType.GuardsIgnoreTolerance` | DataType.h:200-251 | the domain guards use no tolerance: a value tolerantly equal to 0 but negative is refused by `sqrt`, a tiny positive one is accepted by `log` |
| `DataType.Min` | DataType.h:209-211 | `min` returns one of its operands, tolerantly `<=` both, never above the second and at most EPSILON above the first |
| `DataType.Max` | DataType.h:212-214 | `max` returns one of its operands, tolerantly `>=` both, never below the second and at most EPSILON below the first |
| `DataType.MinMaxOnEqual` | DataType.h:209-214 | on tolerantly equal operands both `min` and `max` return the second operand |
| `DataType.MinMaxSelect` | DataType.h:209-214 | for distinct operands `min` returns the first iff it is tolerantly smaller, `max` iff tolerantly greater |
| `DataType.SafeVar.constructor` | DataType.h:22 | a variable built from a value holds that value |
| `DataType.SafeVar.Zero` | DataType.h:21 | the default variable holds zero |
| `DataType.SafeVar.GetValue` | DataType.h:25 | reads the held value |
| `DataType.SafeVar.SetValue` | DataType.h:26 | replaces the held value |
| `DataType.SafeVar.AddAssign` | DataType.h:32-35 | `+=` leaves the sum of the old value and the operand |
| `DataType.SafeVar.SubAssign` | DataType.h:36-39 | `-=` leaves the difference |
| `DataType.SafeVar.MulAssign` | DataType.h:40-43 | `*=` leaves the product |
| `DataType.SafeVar.DivAssign` | DataType.h:44-50 | `/=` fails iff the divisor is within EPSILON of zero, leaving the value unchanged; otherwise leaves the quotient |
| `DataType.SafeVar.DivAssignNum` | DataType.h:71-79 | the same for a built-in divisor |
| `PolygonRelation.SignOf` | Plane.cpp:14-22 | a vertex is positive iff its value is `> EPSILON`, negative iff `< -EPSILON`, zero-band otherwise (band edges included) |
| `PolygonRelation.CountsPartition` | Plane.cpp:12-23 | each vertex increments exactly one counter; the counters sum to the vertex count |
| `PolygonRelation.CountAll` | Plane.cpp:24-31 | a counter equals the vertex count iff every vertex is in its class |
| `PolygonRelation.CountBound` | Plane.cpp:12-23 | no counter exceeds the vertex count |
| `PolygonRelation.CountIsMultiplicity` | Plane.cpp:12-23 | a counter is the multiplicity of its class in the multiset of sign classes |
| `PolygonRelation.Aggregate` | Plane.cpp:24-35 | the four-way decision from the counters; `COINCIDENT` iff every vertex is in the zero band (the empty polygon included) |
| `PolygonRelation.AggregateInFront` | Plane.cpp:27-28 | `IN_FRONT` iff there are vertices and all are strictly positive |
| `PolygonRelation.AggregateBehind` | Plane.cpp:30-31 | `BEHIND` iff there are vertices and all are strictly negative |
| `PolygonRelation.AggregateSplit` | Plane.cpp:33-34 | `SPLIT` iff two vertices fall in different classes (one zero among positives included) |
| `PolygonRelation.AggregateOrderInvariant` | Plane.cpp:11-35 | the result depends only on the multiset of sign classes, not on vertex order |
| `PolygonRelation.BandEdgeSplits` | Plane.cpp:14-34 | values at ±EPSILON are zero-band; one such vertex among positives gives `SPLIT` |
| `PolygonRelation.RelationWithPlane` | Plane.cpp:10-36 | the counting loop returns the four-way decision over the per-vertex sign classes |
| `PolygonRelation.Repeat` | Plane.cpp:12-13 | the sign classes of a loop that tests one value for every vertex |
| `PolygonRelation.RelationWithPlaneAsWritten` | Plane.cpp:10-36 | the loop as written: the one tested value is classified for every vertex |
| `PolygonRelation.AsWrittenNeverSplits` | Plane.cpp:13-35 | as written, the classifier can never return `SPLIT` |
| `PolygonRelation.StraddlingTriangleSplits` | Plane.cpp:24-35 | with per-vertex values 1, -1, 1 the classifier returns `SPLIT` |
| `TreeModel.Leaf` | BSPTree.h:19 | a new node has the given partition, no children, no polygons (count 0) |
| `TreeModel.Count` | BSPTree.h:51-60 | `getPolygonsCount` on the value is the number of polygons stored anywhere in the subtree |
| `TreeModel.CountCoversOwn` | BSPTree.h:51-60 | the count is at least the node's own list size, and equal to it without children |
| `TreeModel.CanInsert` | BSPTree.cpp:6-34 | when `insert` terminates without a null dereference: only at a node, and a `SPLIT` there needs both children present |
| `TreeModel.InsertModel` | BSPTree.cpp:6-34 | insertion keeps the partition, extends the subtree, and stores at least one more polygon |
| `TreeModel.TreeInsert` | BSPTree.cpp:36-42 | tree insertion yields a non-empty tree extending the old one; on a non-empty tree the root partition is kept |
| `TreeModel.InsertRoutes` | BSPTree.cpp:10-33 | per branch: `COINCIDENT` appends at the end, children untouched; `IN_FRONT`/`BEHIND` touch only that child, reused if present, else created on the polygon's plane; `SPLIT` touches only the two existing children |
| `TreeModel.ExtendsReflexive` | BSPTree.cpp:6-34 | every tree extends itself |
| `TreeModel.ExtendsTransitive` | BSPTree.cpp:6-34 | extension composes |
| `TreeModel.ExtendsKeepsStored` | BSPTree.cpp:6-34 | an extension loses no stored polygon and does not lower the count |
| `TreeModel.InsertAllExtends` | BSPTree.cpp:36-42 | a sequence of insertions extends the tree and adds at least one polygon per insertion |
| `TreeModel.InsertCountNoSplit` | BSPTree.cpp:15-27 | an insert that meets no `SPLIT` raises the count by exactly 1 |
| `TreeModel.FirstInsert` | BSPTree.cpp:36-42 | the first polygon makes a one-node tree on its own plane holding just that polygon |
| `TreeModel.SecondInsertInFront` | BSPTree.cpp:15-21 | a polygon in front of a one-node tree gets a new front child on its own plane holding just it; no back child appears |
| `TreeModel.InsertKeepsPlacement` | BSPTree.cpp:11-14 | insertion keeps every stored polygon `COINCIDENT` with its node's partition |
| `TreeModel.InsertKeepsNodesNonEmpty` | BSPTree.cpp:15-27 | insertion creates a node only to store a polygon in it, so no node is left empty |
| `TreeModel.TreeInsertKeepsInvariants` | BSPTree.cpp:36-42 | tree insertion keeps both invariants (placement, no empty node) |
| `TreeModel.BuiltTreesAreWellPlaced` | BSPTree.cpp:36-42 | any sequence of insertions from the empty tree keeps both invariants |
| `BSP.BSPNode.constructor` | BSPTree.h:19 | a new node has the given partition, null parent/front/back, an empty list; its model is a leaf |
| `BSP.BSPNode.SubtreeValid` | BSPTree.h:20-23 | every reachable node is a valid subtree inside this one, and does not reach back to it |
| `BSP.BSPNode.NoCycle` | BSPTree.h:20-23 | no node is reachable from itself |
| `BSP.BSPNode.NotChildOfDescendant` | BSPTree.h:20-23 | a child of a node is not also a child of any node below it |
| `BSP.BSPNode.OneSlotPerNode` | BSPTree.h:20-23 | no node occupies two child slots: one parent node, and the front and back links differ |
| `BSP.BSPNode.GetParent` | BSPTree.h:31 | returns the parent link |
| `BSP.BSPNode.GetFront` | BSPTree.h:32 | returns the front child, null iff the model has no front subtree, else a valid node modelling it |
| `BSP.BSPNode.GetBack` | BSPTree.h:33 | the same for the back child |
| `BSP.BSPNode.GetPartition` | BSPTree.h:34 | returns the model's partition |
| `BSP.BSPNode.GetPolygons` | BSPTree.h:35 | returns the model's own polygon list |
| `BSP.BSPNode.SetParent` | BSPTree.h:40 | assigns only `parent`; a valid subtree stays valid with the same model |
| `BSP.BSPNode.SetFront` | BSPTree.h:41 | assigns only `front` |
| `BSP.BSPNode.SetBack` | BSPTree.h:42 | assigns only `back` |
| `BSP.BSPNode.SetPartition` | BSPTree.h:43 | assigns only `partition`; a valid subtree stays valid, its model taking the new partition |
| `BSP.BSPNode.SetPolygons` | BSPTree.h:44 | assigns only `polygons`; a valid subtree stays valid, its model taking the new list |
| `BSP.BSPNode.GetPolygonsCount` | BSPTree.h:51-60 | the recursion returns the number of polygons stored in the whole subtree |
| `BSP.BSPNode.Insert` | BSPTree.cpp:6-34 | the node's new model is `InsertModel` of the old; partition kept; every old node anywhere in the subtree keeps its partition, parent link and non-null children, and its old list as a prefix; new nodes have no parent |
| `BSP.BSPNode.InsertInFront` | BSPTree.cpp:15-21 | the front child is created from the polygon's plane only if absent, else reused; back child and own list untouched |
| `BSP.BSPNode.InsertBehind` | BSPTree.cpp:22-27 | the same for the back child; front child and own list untouched |
| `BSP.BSPNode.InsertSplit` | BSPTree.cpp:28-32 | both existing children receive the split parts (first part front, second back); no child created, own list untouched |
| `BSP.BSPNode.InsertIntoFront` | BSPTree.cpp:20 | `front->insert(q)` changes only the front subtree's model |
| `BSP.BSPNode.InsertIntoBack` | BSPTree.cpp:26 | `back->insert(q)` changes only the back subtree's model |
| `BSP.BSPTree.constructor` | BSPTree.h:69 | a new tree is empty |
| `BSP.BSPTree.GetRoot` | BSPTree.h:75 | the root is null iff the tree is empty, else a valid node modelling the tree |
| `BSP.BSPTree.SetRoot` | BSPTree.h:79 | assigns only `root` |
| `BSP.BSPTree.IsEmpty` | BSPTree.h:91 | true iff the tree's model is empty |
| `BSP.BSPTree.GetRootPolygonsCount` | BSPTree.h:88 | 0 on an empty tree, else the root's own list size only, never more than the whole tree's count |
| `BSP.BSPTree.Insert` | BSPTree.cpp:36-42 | the new model is `TreeInsert` of the old; an existing root is kept; on an empty tree a fresh root on the polygon's plane; every old node keeps its partition, parent link, non-null children and list prefix |

## Findings

| source | as written | input that shows it | evidently intended | confidence | as-written member | corrected member |
|---|---|---|---|---|---|---|
| Plane.cpp:13 | the tested value `normalProduct` is the plane normal dotted with the polygon's normal, which does not depend on the loop vertex `pt`, so every vertex lands in the same class and `SPLIT` is never returned (`AsWrittenNeverSplits`) | a triangle straddling the plane, whose vertices lie at signed distances 1, -1, 1 from it | one signed value per vertex (the normal dotted with the vertex minus the plane's anchor), so a straddling polygon is `SPLIT` (`StraddlingTriangleSplits`); the tree uses this version | not executed | `PolygonRelation.RelationWithPlaneAsWritten` | `PolygonRelation.RelationWithPlane` |

## Left out

- `visibilityOrder`, `getFirstCommonAncestor`, `contains` and both `detectCollision` overloads: the source only declares them and gives no body, so there is no behaviour to model.
- Destructors and `new`/`delete`: Dafny is garbage-collected. Ownership is captured only as the tree-shape invariant `Valid()` and the lemmas `SubtreeValid`, `NoCycle` and `OneSlotPerNode`.
- `Polygon::getPlane`, `Polygon::split`, the per-vertex dot products and all `Plane`/`Vector3D`/`Point3D` arithmetic: their headers are not part of this model. They are opaque functions in a `Geometry` record, with no property assumed.
- `Polygon::getNormal` is a stub that returns `nullptr`. It is not part of this model. The as-written classifier takes the value it would feed in as an input.
- In `BSPNode::insert`, the local `cnt = getPolygonsCount()` is computed and never used. It has no effect and is not modelled.
- Placement of split parts relative to ancestors, and the absence of repeated partition planes: both depend on what `split` and `getPlane` compute, which is not part of this model.
- The values of `sqrt`, `log`, `asin`, `acos`, `sin`, `cos`, `tan`, `atan`, `exp` and `pow`, and the free-function wrappers: these are floating-point transcendental numerics. Only the domain guards are modelled.
- SqrtGuard: states only when `sqrt` fails, not the root it returns.
- LogGuard: states only when `log` fails, not the logarithm it returns.
- AsinGuard: states only when `asin` fails, not the angle it returns.
- AcosGuard: states only when `acos` fails, not the angle it returns.
- `+`, `-`, `*`, `+=`, `-=` and `*=` with a built-in operand: after the cast they are the scalar-operand operations applied to `Safe(x)`. They are not modelled separately. Division with a built-in operand is modelled (`DivNum`, `DivAssignNum`) because of its guard.
- Float rounding and the `static_assert` restricting `T` to floating-point types: values are exact reals.
- `Repr` of a node is only known to contain its subtree; `Valid()` does not rule out further nodes in it. `modifies Repr` on the insert methods therefore admits them, though their ensures fix every old node's partition, links, parent and list prefix.
- `SetFront` and `SetBack` assign the link as the source's `setFront`/`setBack` do, with no check. They can break the tree-shape invariant, so they promise nothing about `Valid()`. After any setter on a non-root node, the ghost `Model` of its ancestors is stale until the ancestors are updated.
- Stream output of `Safe` and of `RelationType`: this is I/O.
- `main.cpp`: random polygon generation and the assertion-driven checks are test harness code. Its checks for "every node non-empty" and "every stored polygon coincident" are proved here as `BuiltTreesAreWellPlaced`.
