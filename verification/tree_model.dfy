/**
 * The BSP tree as a value: the abstract state of a `BSPNode` subtree, and
 * insertion (`BSPNode::insert`, `BSPTree::insert`) as a function on it.
 * The linked classes in module BSP are proved to follow these functions;
 * the properties of insertion are proved here, once, on values.
 */
module TreeModel {
  import opened DataType
  import opened Geometry

  /** A subtree: absent (a null child), or a node with its partition, its own polygons and two children. */
  datatype Tree = Empty | Node(partition: Plane, polygons: seq<Polygon>, front: Tree, back: Tree)

  /** A freshly constructed node: the given partition, no children, no polygons. */
  function Leaf(pl: Plane): (t: Tree)
    ensures t.Node? && t.partition == pl && t.polygons == [] && t.front == Empty && t.back == Empty
    ensures Size(t) == 3 && Count(t) == 0
  {
    Node(pl, [], Empty, Empty)
  }

  function Size(t: Tree): (n: nat)
    ensures n >= 1
  {
    match t
    case Empty => 1
    case Node(_, _, f, b) => 1 + Size(f) + Size(b)
  }

  /**
   * `getPolygonsCount`: own polygons plus those of the existing children,
   * which is the number of polygons stored anywhere in the subtree.
   */
  function Count(t: Tree): (n: nat)
    ensures n == |Stored(t)|
  {
    match t
    case Empty => 0
    case Node(_, ps, f, b) => |ps| + Count(f) + Count(b)
  }

  /** Every polygon stored in the subtree: own polygons, then the front subtree, then the back subtree. */
  function Stored(t: Tree): seq<Polygon> {
    match t
    case Empty => []
    case Node(_, ps, f, b) => ps + Stored(f) + Stored(b)
  }

  /** The count is at least the node's own list, and equals it at a node without children. */
  lemma CountCoversOwn(t: Tree)
    requires t.Node?
    ensures Count(t) >= |t.polygons|
    ensures t.front == Empty && t.back == Empty ==> Count(t) == |t.polygons|
  {
  }

  // ---------------------------------------------------------------------
  // Insertion

  /**
   * When `insert` at the root of `t` terminates without dereferencing a null
   * child: a SPLIT needs both children already present, and a child created
   * lazily from the polygon's own plane must take the polygon as COINCIDENT.
   * Otherwise a polygon IN_FRONT of or BEHIND its own plane makes the source
   * create children forever, and one SPLIT by its own plane reaches a fresh
   * node without children and dereferences a null child.
   */
  predicate CanInsert(g: Geometry, t: Tree, p: Polygon)
    ensures CanInsert(g, t, p) ==> t.Node?
    ensures CanInsert(g, t, p) && RelationOf(g, p, t.partition) == SPLIT ==> t.front.Node? && t.back.Node?
    decreases t
  {
    t.Node? &&
    match RelationOf(g, p, t.partition)
    case COINCIDENT => true
    case IN_FRONT =>
      if t.front.Empty? then RelationOf(g, p, g.planeOf(p)) == COINCIDENT else CanInsert(g, t.front, p)
    case BEHIND =>
      if t.back.Empty? then RelationOf(g, p, g.planeOf(p)) == COINCIDENT else CanInsert(g, t.back, p)
    case SPLIT =>
      var (fp, bp) := g.split(p, t.partition);
      t.front.Node? && t.back.Node? && CanInsert(g, t.front, fp) && CanInsert(g, t.back, bp)
  }

  /**
   * `BSPNode::insert` on the value: append on COINCIDENT, descend (creating
   * the child from the polygon's plane if missing) on IN_FRONT / BEHIND,
   * split and descend into both existing children on SPLIT.
   */
  function InsertModel(g: Geometry, t: Tree, p: Polygon): (r: Tree)
    requires CanInsert(g, t, p)
    ensures r.Node? && r.partition == t.partition
    ensures Extends(t, r)
    ensures Count(r) >= Count(t) + 1
    decreases Size(t), RelationOf(g, p, t.partition) != COINCIDENT
  {
    match RelationOf(g, p, t.partition)
    case COINCIDENT =>
      ExtendsReflexive(t.front);
      ExtendsReflexive(t.back);
      t.(polygons := t.polygons + [p])
    case IN_FRONT =>
      var f := if t.front.Empty? then Leaf(g.planeOf(p)) else t.front;
      ExtendsReflexive(t.back);
      t.(front := InsertModel(g, f, p))
    case BEHIND =>
      var b := if t.back.Empty? then Leaf(g.planeOf(p)) else t.back;
      ExtendsReflexive(t.front);
      t.(back := InsertModel(g, b, p))
    case SPLIT =>
      var (fp, bp) := g.split(p, t.partition);
      t.(front := InsertModel(g, t.front, fp), back := InsertModel(g, t.back, bp))
  }

  /** When `BSPTree::insert` terminates: on an empty tree the new root must take the polygon. */
  predicate CanInsertTree(g: Geometry, t: Tree, p: Polygon) {
    if t.Empty? then RelationOf(g, p, g.planeOf(p)) == COINCIDENT else CanInsert(g, t, p)
  }

  /** `BSPTree::insert` on the value: create the root from the polygon's plane if absent, then insert. */
  function TreeInsert(g: Geometry, t: Tree, p: Polygon): (r: Tree)
    requires CanInsertTree(g, t, p)
    ensures r.Node? && Extends(t, r) && Count(r) >= Count(t) + 1
    ensures t.Node? ==> r.partition == t.partition
  {
    InsertModel(g, if t.Empty? then Leaf(g.planeOf(p)) else t, p)
  }

  // ---------------------------------------------------------------------
  // Monotonicity

  /**
   * `u` extends `t`: every node of `t` is still there, with the same
   * partition and its old polygons as a prefix of its list; a missing child
   * may have appeared.
   */
  predicate Extends(t: Tree, u: Tree) {
    match t
    case Empty => true
    case Node(pl, ps, f, b) =>
      u.Node? && u.partition == pl && ps <= u.polygons && Extends(f, u.front) && Extends(b, u.back)
  }

  lemma {:induction false} ExtendsReflexive(t: Tree)
    ensures Extends(t, t)
  {
    if t.Node? {
      ExtendsReflexive(t.front);
      ExtendsReflexive(t.back);
    }
  }

  lemma {:induction false} ExtendsTransitive(t: Tree, u: Tree, v: Tree)
    requires Extends(t, u) && Extends(u, v)
    ensures Extends(t, v)
  {
    if t.Node? {
      ExtendsTransitive(t.front, u.front, v.front);
      ExtendsTransitive(t.back, u.back, v.back);
    }
  }

  /** Extension never loses a stored polygon and never lowers the count. */
  lemma {:induction false} ExtendsKeepsStored(t: Tree, u: Tree)
    requires Extends(t, u)
    ensures Count(u) >= Count(t)
    ensures forall q :: q in Stored(t) ==> q in Stored(u)
  {
    if t.Node? {
      ExtendsKeepsStored(t.front, u.front);
      ExtendsKeepsStored(t.back, u.back);
    }
  }

  /** Inserting a sequence of polygons only ever extends the tree. */
  lemma {:induction false} InsertAllExtends(g: Geometry, t: Tree, ps: seq<Polygon>)
    requires CanInsertAll(g, t, ps)
    ensures Extends(t, InsertAll(g, t, ps))
    ensures Count(InsertAll(g, t, ps)) >= Count(t) + |ps|
    decreases |ps|
  {
    if ps == [] {
      ExtendsReflexive(t);
    } else {
      var t' := TreeInsert(g, t, ps[0]);
      InsertAllExtends(g, t', ps[1..]);
      ExtendsTransitive(t, t', InsertAll(g, t', ps[1..]));
    }
  }

  /** Whether each polygon of `ps` can be inserted in turn. */
  predicate CanInsertAll(g: Geometry, t: Tree, ps: seq<Polygon>)
    decreases |ps|
  {
    ps == [] || (CanInsertTree(g, t, ps[0]) && CanInsertAll(g, TreeInsert(g, t, ps[0]), ps[1..]))
  }

  /** The tree after inserting the polygons of `ps` one after another. */
  function InsertAll(g: Geometry, t: Tree, ps: seq<Polygon>): Tree
    requires CanInsertAll(g, t, ps)
    decreases |ps|
  {
    if ps == [] then t else InsertAll(g, TreeInsert(g, t, ps[0]), ps[1..])
  }

  // ---------------------------------------------------------------------
  // Counting

  /** No SPLIT is met on the way down, so the polygon is stored whole at exactly one node. */
  predicate NoSplitPath(g: Geometry, t: Tree, p: Polygon)
    decreases t
  {
    t.Node? &&
    match RelationOf(g, p, t.partition)
    case COINCIDENT => true
    case IN_FRONT => t.front.Empty? || NoSplitPath(g, t.front, p)
    case BEHIND => t.back.Empty? || NoSplitPath(g, t.back, p)
    case SPLIT => false
  }

  /** A non-splitting insert raises the subtree's polygon count by exactly one. */
  lemma {:induction false} InsertCountNoSplit(g: Geometry, t: Tree, p: Polygon)
    requires CanInsert(g, t, p) && NoSplitPath(g, t, p)
    ensures Count(InsertModel(g, t, p)) == Count(t) + 1
    decreases Size(t), RelationOf(g, p, t.partition) != COINCIDENT
  {
    match RelationOf(g, p, t.partition)
    case COINCIDENT =>
    case IN_FRONT =>
      if t.front.Empty? {
        InsertCountNoSplit(g, Leaf(g.planeOf(p)), p);
      } else {
        InsertCountNoSplit(g, t.front, p);
      }
    case BEHIND =>
      if t.back.Empty? {
        InsertCountNoSplit(g, Leaf(g.planeOf(p)), p);
      } else {
        InsertCountNoSplit(g, t.back, p);
      }
  }

  /**
   * What each branch of insert changes at the node it is called on:
   * COINCIDENT appends at the end of the own list and touches nothing else;
   * IN_FRONT / BEHIND touch only that child, reusing it if present and
   * creating it from the polygon's plane otherwise; SPLIT touches only the
   * two children, which it never creates.
   */
  lemma InsertRoutes(g: Geometry, t: Tree, p: Polygon)
    requires CanInsert(g, t, p)
    ensures var r := InsertModel(g, t, p);
      match RelationOf(g, p, t.partition)
      case COINCIDENT =>
        r.polygons == t.polygons + [p] && r.front == t.front && r.back == t.back
      case IN_FRONT =>
        r.polygons == t.polygons && r.back == t.back &&
        r.front.partition == (if t.front.Empty? then g.planeOf(p) else t.front.partition)
      case BEHIND =>
        r.polygons == t.polygons && r.front == t.front &&
        r.back.partition == (if t.back.Empty? then g.planeOf(p) else t.back.partition)
      case SPLIT =>
        r.polygons == t.polygons && t.front.Node? && t.back.Node? &&
        r.front.partition == t.front.partition && r.back.partition == t.back.partition
  {
  }

  /**
   * A polygon wholly in front of the single-node tree's partition gets a new
   * front child on its own plane holding just that polygon; no back child appears.
   */
  lemma SecondInsertInFront(g: Geometry, pl: Plane, first: Polygon, p: Polygon)
    requires RelationOf(g, p, pl) == IN_FRONT && RelationOf(g, p, g.planeOf(p)) == COINCIDENT
    ensures CanInsertTree(g, Node(pl, [first], Empty, Empty), p)
    ensures TreeInsert(g, Node(pl, [first], Empty, Empty), p)
         == Node(pl, [first], Node(g.planeOf(p), [p], Empty, Empty), Empty)
  {
    assert InsertModel(g, Leaf(g.planeOf(p)), p) == Node(g.planeOf(p), [p], Empty, Empty);
  }

  /** The first polygon makes a one-node tree holding just that polygon, on its own plane. */
  lemma FirstInsert(g: Geometry, p: Polygon)
    requires CanInsertTree(g, Empty, p)
    ensures TreeInsert(g, Empty, p) == Node(g.planeOf(p), [p], Empty, Empty)
    ensures Count(TreeInsert(g, Empty, p)) == 1
  {
  }

  // ---------------------------------------------------------------------
  // Placement invariants

  /** Every polygon stored at a node is COINCIDENT with that node's partition. */
  predicate PlacementCorrect(g: Geometry, t: Tree) {
    match t
    case Empty => true
    case Node(pl, ps, f, b) =>
      (forall i :: 0 <= i < |ps| ==> RelationOf(g, ps[i], pl) == COINCIDENT) &&
      PlacementCorrect(g, f) && PlacementCorrect(g, b)
  }

  /** Every node holds at least one polygon. */
  predicate NoEmptyNodes(t: Tree) {
    match t
    case Empty => true
    case Node(_, ps, f, b) => |ps| > 0 && NoEmptyNodes(f) && NoEmptyNodes(b)
  }

  /** Insertion stores polygons only where they are COINCIDENT, so placement stays correct. */
  lemma {:induction false} InsertKeepsPlacement(g: Geometry, t: Tree, p: Polygon)
    requires CanInsert(g, t, p) && PlacementCorrect(g, t)
    ensures PlacementCorrect(g, InsertModel(g, t, p))
    decreases Size(t), RelationOf(g, p, t.partition) != COINCIDENT
  {
    match RelationOf(g, p, t.partition)
    case COINCIDENT =>
      var ps := t.polygons + [p];
      assert forall i :: 0 <= i < |ps| ==> RelationOf(g, ps[i], t.partition) == COINCIDENT by {
        forall i | 0 <= i < |ps| ensures RelationOf(g, ps[i], t.partition) == COINCIDENT {
          if i < |t.polygons| {
            assert ps[i] == t.polygons[i];
          }
        }
      }
    case IN_FRONT =>
      InsertKeepsPlacement(g, if t.front.Empty? then Leaf(g.planeOf(p)) else t.front, p);
    case BEHIND =>
      InsertKeepsPlacement(g, if t.back.Empty? then Leaf(g.planeOf(p)) else t.back, p);
    case SPLIT =>
      var (fp, bp) := g.split(p, t.partition);
      InsertKeepsPlacement(g, t.front, fp);
      InsertKeepsPlacement(g, t.back, bp);
  }

  /**
   * Insertion creates a node only to store a polygon in it, so no node is
   * left empty; the node inserted at may itself start empty if it takes the
   * polygon.
   */
  lemma {:induction false} InsertKeepsNodesNonEmpty(g: Geometry, t: Tree, p: Polygon)
    requires CanInsert(g, t, p)
    requires NoEmptyNodes(t.front) && NoEmptyNodes(t.back)
    requires |t.polygons| > 0 || RelationOf(g, p, t.partition) == COINCIDENT
    ensures NoEmptyNodes(InsertModel(g, t, p))
    decreases Size(t), RelationOf(g, p, t.partition) != COINCIDENT
  {
    match RelationOf(g, p, t.partition)
    case COINCIDENT =>
    case IN_FRONT =>
      InsertKeepsNodesNonEmpty(g, if t.front.Empty? then Leaf(g.planeOf(p)) else t.front, p);
    case BEHIND =>
      InsertKeepsNodesNonEmpty(g, if t.back.Empty? then Leaf(g.planeOf(p)) else t.back, p);
    case SPLIT =>
      var (fp, bp) := g.split(p, t.partition);
      InsertKeepsNodesNonEmpty(g, t.front, fp);
      InsertKeepsNodesNonEmpty(g, t.back, bp);
  }

  /** Both invariants hold of every tree built by `BSPTree::insert` from the empty tree. */
  lemma TreeInsertKeepsInvariants(g: Geometry, t: Tree, p: Polygon)
    requires CanInsertTree(g, t, p) && PlacementCorrect(g, t) && NoEmptyNodes(t)
    ensures PlacementCorrect(g, TreeInsert(g, t, p)) && NoEmptyNodes(TreeInsert(g, t, p))
  {
    var root := if t.Empty? then Leaf(g.planeOf(p)) else t;
    InsertKeepsPlacement(g, root, p);
    InsertKeepsNodesNonEmpty(g, root, p);
  }

  /** Any sequence of insertions starting from the empty tree keeps both invariants. */
  lemma {:induction false} BuiltTreesAreWellPlaced(g: Geometry, t: Tree, ps: seq<Polygon>)
    requires CanInsertAll(g, t, ps) && PlacementCorrect(g, t) && NoEmptyNodes(t)
    ensures PlacementCorrect(g, InsertAll(g, t, ps)) && NoEmptyNodes(InsertAll(g, t, ps))
    decreases |ps|
  {
    if ps != [] {
      TreeInsertKeepsInvariants(g, t, ps[0]);
      BuiltTreesAreWellPlaced(g, TreeInsert(g, t, ps[0]), ps[1..]);
    }
  }
}
