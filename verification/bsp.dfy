/**
 * `BSPNode` and `BSPTree`: the linked tree the source mutates in place.
 *
 * Each node carries a ghost footprint `Repr` (a set holding itself and
 * every node below it) and a ghost `Model`, the `TreeModel.Tree` value of
 * its subtree.
 * `Valid()` is the tree-shape invariant the recursive destructors rely on:
 * the two children own disjoint footprints and no node lies below itself.
 */
module BSP {
  import opened DataType
  import opened Geometry
  import opened TreeModel
  import PolygonRelation

  class BSPNode {
    var parent: BSPNode?
    var front: BSPNode?
    var back: BSPNode?
    var partition: Plane
    var polygons: seq<Polygon>

    ghost var Repr: set<BSPNode>
    ghost var Model: Tree

    ghost predicate Valid()
      reads this, Repr
      ensures Valid() ==> this in Repr && Model.Node?
      decreases Repr
    {
      && this in Repr
      && (front != null ==>
            front in Repr && front.Repr <= Repr && this !in front.Repr && front.Valid())
      && (back != null ==>
            back in Repr && back.Repr <= Repr && this !in back.Repr && back.Valid())
      && (front != null && back != null ==> front.Repr !! back.Repr)
      && Model == Node(partition, polygons,
                       if front != null then front.Model else Empty,
                       if back != null then back.Model else Empty)
    }

    /** A new node: the given partition, no parent, no children, no polygons. */
    constructor (partition: Plane)
      ensures Valid() && fresh(Repr) && Repr == {this}
      ensures this.partition == partition && polygons == []
      ensures parent == null && front == null && back == null
      ensures Model == Leaf(partition)
    {
      this.partition := partition;
      polygons := [];
      parent, front, back := null, null, null;
      Repr := {this};
      Model := Leaf(partition);
    }

    /** The nodes reachable from this one through front / back links, this one included. */
    ghost function Subtree(): (s: set<BSPNode>)
      reads Repr
      requires Valid()
      ensures this in s && s <= Repr
      decreases Repr
    {
      {this} + (if front != null then front.Subtree() else {}) + (if back != null then back.Subtree() else {})
    }

    /** The nodes strictly below this one. */
    ghost function Below(): set<BSPNode>
      reads Repr
      requires Valid()
    {
      (if front != null then front.Subtree() else {}) + (if back != null then back.Subtree() else {})
    }

    // -------------------------------------------------------------------
    // Tree shape (what the recursive destructor relies on)

    /** Every reachable node is itself a valid subtree, contained in this one, and does not reach this one. */
    lemma {:induction false} SubtreeValid(n: BSPNode)
      requires Valid() && n in Subtree()
      ensures n.Valid() && n.Subtree() <= Subtree()
      ensures n != this ==> this !in n.Subtree()
      decreases Repr
    {
      if n != this {
        if front != null && n in front.Subtree() {
          front.SubtreeValid(n);
        } else {
          back.SubtreeValid(n);
        }
      }
    }

    /** No node is reachable from itself. */
    lemma NoCycle(n: BSPNode)
      requires Valid() && n in Subtree()
      ensures n.Valid() && n !in n.Below()
    {
      SubtreeValid(n);
    }

    /** A child of this node is not also a child of a node below this one. */
    lemma {:induction false} NotChildOfDescendant(n: BSPNode, c: BSPNode)
      requires Valid() && n in Subtree() && n != this
      requires c == front || c == back
      ensures c != n.front && c != n.back
    {
      SubtreeValid(n);
      assert c.Valid() && c in c.Subtree();
      if front != null && n in front.Subtree() {
        front.SubtreeValid(n);
        if c == front {
          if n != front {
            assert front !in n.Subtree();
          }
        }
      } else {
        back.SubtreeValid(n);
        if c == back {
          if n != back {
            assert back !in n.Subtree();
          }
        }
      }
    }

    /** No node occupies two child slots: the two links of a node differ, and a child has one parent node. */
    lemma {:induction false} OneSlotPerNode(m: BSPNode, n: BSPNode, c: BSPNode)
      requires Valid() && m in Subtree() && n in Subtree()
      requires c == m.front || c == m.back
      requires c == n.front || c == n.back
      ensures m == n
      ensures !(c == n.front && c == n.back)
      decreases Repr
    {
      SubtreeValid(m);
      SubtreeValid(n);
      assert c.Valid() && c in c.Subtree();
      if m == this && n == this {
      } else if m == this {
        NotChildOfDescendant(n, c);
      } else if n == this {
        NotChildOfDescendant(m, c);
      } else if front != null && m in front.Subtree() && n in front.Subtree() {
        front.OneSlotPerNode(m, n, c);
      } else if back != null && m in back.Subtree() && n in back.Subtree() {
        back.OneSlotPerNode(m, n, c);
      } else if front != null && m in front.Subtree() {
        front.SubtreeValid(m);
        back.SubtreeValid(n);
        assert false;
      } else {
        back.SubtreeValid(m);
        front.SubtreeValid(n);
        assert false;
      }
    }

    // -------------------------------------------------------------------
    // Getters

    function GetParent(): (r: BSPNode?)
      reads this
      ensures r == parent
    {
      parent
    }

    /** The front child, whose subtree is the model's front subtree. */
    function GetFront(): (r: BSPNode?)
      reads this, Repr
      requires Valid()
      ensures r == null <==> Model.front == Empty
      ensures r != null ==> r in Repr && r.Valid() && r.Model == Model.front
    {
      front
    }

    /** The back child, whose subtree is the model's back subtree. */
    function GetBack(): (r: BSPNode?)
      reads this, Repr
      requires Valid()
      ensures r == null <==> Model.back == Empty
      ensures r != null ==> r in Repr && r.Valid() && r.Model == Model.back
    {
      back
    }

    function GetPartition(): (r: Plane)
      reads this, Repr
      requires Valid()
      ensures r == Model.partition
    {
      partition
    }

    function GetPolygons(): (r: seq<Polygon>)
      reads this, Repr
      requires Valid()
      ensures r == Model.polygons
    {
      polygons
    }

    /** The number of polygons stored in the whole subtree. */
    function GetPolygonsCount(): (count: nat)
      reads Repr
      requires Valid()
      ensures count == Count(Model) == |Stored(Model)|
      decreases Repr
    {
      var own := |polygons|;
      var withFront := if front != null then own + front.GetPolygonsCount() else own;
      if back != null then withFront + back.GetPolygonsCount() else withFront
    }

    // -------------------------------------------------------------------
    // Setters: each assigns one field of the source and nothing else

    /** The parent link is not part of the tree shape: setting it keeps a valid subtree valid. */
    method SetParent(p: BSPNode?)
      modifies this`parent
      ensures parent == p
      ensures old(Valid()) ==> Valid() && Model == old(Model)
    {
      parent := p;
    }

    method SetFront(f: BSPNode?)
      modifies this`front
      ensures front == f
    {
      front := f;
    }

    method SetBack(b: BSPNode?)
      modifies this`back
      ensures back == b
    {
      back := b;
    }

    /** A valid subtree stays valid, with the new partition at its root. */
    method SetPartition(pl: Plane)
      modifies this`partition, this`Model
      ensures partition == pl
      ensures old(Valid()) ==> Valid() && Model == old(Model).(partition := pl)
    {
      partition := pl;
      if Model.Node? {
        Model := Model.(partition := pl);
      }
    }

    /** A valid subtree stays valid, with the new list at its root. */
    method SetPolygons(ps: seq<Polygon>)
      modifies this`polygons, this`Model
      ensures polygons == ps
      ensures old(Valid()) ==> Valid() && Model == old(Model).(polygons := ps)
    {
      polygons := ps;
      if Model.Node? {
        Model := Model.(polygons := ps);
      }
    }

    // -------------------------------------------------------------------
    // Insertion

    /**
     * Classify the polygon against this node's partition and store it here,
     * or route it to the front / back child (created from the polygon's own
     * plane when missing), or split it between both existing children.
     */
    method Insert(g: Geometry, polygon: Polygon)
      requires Valid() && CanInsert(g, Model, polygon)
      modifies Repr
      ensures Valid() && old(Repr) <= Repr && fresh(Repr - old(Repr))
      ensures forall n :: n in old(Repr) ==>
                n.parent == old(n.parent) && n.partition == old(n.partition) && old(n.polygons) <= n.polygons &&
                (old(n.front) != null ==> n.front == old(n.front)) && (old(n.back) != null ==> n.back == old(n.back))
      ensures forall n :: n in Repr - old(Repr) ==> n.parent == null
      ensures Model == InsertModel(g, old(Model), polygon)
      ensures partition == old(partition)
      ensures old(front) != null ==> front == old(front)
      ensures old(back) != null ==> back == old(back)
      decreases Size(Model), RelationOf(g, polygon, partition) != COINCIDENT, 2
    {
      var relation := PolygonRelation.RelationWithPlane(g.vertexValues(polygon, partition));
      match relation
      case COINCIDENT =>
        polygons := polygons + [polygon];
        Model := Model.(polygons := polygons);
      case IN_FRONT =>
        InsertInFront(g, polygon);
      case BEHIND =>
        InsertBehind(g, polygon);
      case SPLIT =>
        InsertSplit(g, polygon);
    }

    /** IN_FRONT: create the front child from the polygon's own plane only if there is none, then insert there. */
    method InsertInFront(g: Geometry, polygon: Polygon)
      requires Valid() && CanInsert(g, Model, polygon) && RelationOf(g, polygon, partition) == IN_FRONT
      modifies Repr
      ensures Valid() && old(Repr) <= Repr && fresh(Repr - old(Repr))
      ensures forall n :: n in old(Repr) ==>
                n.parent == old(n.parent) && n.partition == old(n.partition) && old(n.polygons) <= n.polygons &&
                (old(n.front) != null ==> n.front == old(n.front)) && (old(n.back) != null ==> n.back == old(n.back))
      ensures forall n :: n in Repr - old(Repr) ==> n.parent == null
      ensures Model == InsertModel(g, old(Model), polygon)
      ensures partition == old(partition) && polygons == old(polygons) && back == old(back)
      ensures old(front) != null ==> front == old(front)
      ensures old(front) == null ==> fresh(front) && front.partition == g.planeOf(polygon)
      decreases Size(Model), true, 1
    {
      if front == null {
        front := new BSPNode(g.planeOf(polygon));
        Repr := Repr + front.Repr;
        Model := Model.(front := front.Model);
      }
      InsertIntoFront(g, polygon);
    }

    /** BEHIND: create the back child from the polygon's own plane only if there is none, then insert there. */
    method InsertBehind(g: Geometry, polygon: Polygon)
      requires Valid() && CanInsert(g, Model, polygon) && RelationOf(g, polygon, partition) == BEHIND
      modifies Repr
      ensures Valid() && old(Repr) <= Repr && fresh(Repr - old(Repr))
      ensures forall n :: n in old(Repr) ==>
                n.parent == old(n.parent) && n.partition == old(n.partition) && old(n.polygons) <= n.polygons &&
                (old(n.front) != null ==> n.front == old(n.front)) && (old(n.back) != null ==> n.back == old(n.back))
      ensures forall n :: n in Repr - old(Repr) ==> n.parent == null
      ensures Model == InsertModel(g, old(Model), polygon)
      ensures partition == old(partition) && polygons == old(polygons) && front == old(front)
      ensures old(back) != null ==> back == old(back)
      ensures old(back) == null ==> fresh(back) && back.partition == g.planeOf(polygon)
      decreases Size(Model), true, 1
    {
      if back == null {
        back := new BSPNode(g.planeOf(polygon));
        Repr := Repr + back.Repr;
        Model := Model.(back := back.Model);
      }
      InsertIntoBack(g, polygon);
    }

    /** SPLIT: both children must already exist; the front part goes front, the back part goes back. */
    method InsertSplit(g: Geometry, polygon: Polygon)
      requires Valid() && CanInsert(g, Model, polygon) && RelationOf(g, polygon, partition) == SPLIT
      modifies Repr
      ensures Valid() && old(Repr) <= Repr && fresh(Repr - old(Repr))
      ensures forall n :: n in old(Repr) ==>
                n.parent == old(n.parent) && n.partition == old(n.partition) && old(n.polygons) <= n.polygons &&
                (old(n.front) != null ==> n.front == old(n.front)) && (old(n.back) != null ==> n.back == old(n.back))
      ensures forall n :: n in Repr - old(Repr) ==> n.parent == null
      ensures Model == InsertModel(g, old(Model), polygon)
      ensures partition == old(partition) && polygons == old(polygons)
      ensures front == old(front) && back == old(back)
      decreases Size(Model), true, 1
    {
      var (frontPart, backPart) := g.split(polygon, partition);
      InsertIntoFront(g, frontPart);
      InsertIntoBack(g, backPart);
    }

    /** `front->insert(q)` on the existing front child; the rest of this node is untouched. */
    method InsertIntoFront(g: Geometry, q: Polygon)
      requires Valid() && front != null && CanInsert(g, front.Model, q)
      modifies Repr
      ensures Valid() && old(Repr) <= Repr && fresh(Repr - old(Repr))
      ensures forall n :: n in old(Repr) ==>
                n.parent == old(n.parent) && n.partition == old(n.partition) && old(n.polygons) <= n.polygons &&
                (old(n.front) != null ==> n.front == old(n.front)) && (old(n.back) != null ==> n.back == old(n.back))
      ensures forall n :: n in Repr - old(Repr) ==> n.parent == null
      ensures Model == old(Model).(front := InsertModel(g, old(Model).front, q))
      ensures partition == old(partition) && polygons == old(polygons)
      ensures front == old(front) && back == old(back)
      decreases Size(front.Model), RelationOf(g, q, front.partition) != COINCIDENT, 3
    {
      ghost var bm := if back != null then back.Model else Empty;
      front.Insert(g, q);
      assert back != null ==> back.Valid() && back.Model == bm;
      Repr := Repr + front.Repr;
      Model := Model.(front := front.Model);
    }

    /** `back->insert(q)` on the existing back child; the rest of this node is untouched. */
    method InsertIntoBack(g: Geometry, q: Polygon)
      requires Valid() && back != null && CanInsert(g, back.Model, q)
      modifies Repr
      ensures Valid() && old(Repr) <= Repr && fresh(Repr - old(Repr))
      ensures forall n :: n in old(Repr) ==>
                n.parent == old(n.parent) && n.partition == old(n.partition) && old(n.polygons) <= n.polygons &&
                (old(n.front) != null ==> n.front == old(n.front)) && (old(n.back) != null ==> n.back == old(n.back))
      ensures forall n :: n in Repr - old(Repr) ==> n.parent == null
      ensures Model == old(Model).(back := InsertModel(g, old(Model).back, q))
      ensures partition == old(partition) && polygons == old(polygons)
      ensures front == old(front) && back == old(back)
      decreases Size(back.Model), RelationOf(g, q, back.partition) != COINCIDENT, 3
    {
      ghost var fm := if front != null then front.Model else Empty;
      back.Insert(g, q);
      assert front != null ==> front.Valid() && front.Model == fm;
      Repr := Repr + back.Repr;
      Model := Model.(back := back.Model);
    }
  }

  class BSPTree {
    var root: BSPNode?

    /** The nodes of the tree. */
    ghost var Nodes: set<BSPNode>

    ghost predicate Valid()
      reads this, Nodes
    {
      if root == null then Nodes == {} else root in Nodes && Nodes == root.Repr && root.Valid()
    }

    ghost function Model(): Tree
      reads this, Nodes
      requires Valid()
    {
      if root == null then Empty else root.Model
    }

    /** A new tree is empty. */
    constructor ()
      ensures Valid() && root == null && Model() == Empty
    {
      root := null;
      Nodes := {};
    }

    function GetRoot(): (r: BSPNode?)
      reads this, Nodes
      requires Valid()
      ensures r == null <==> Model() == Empty
      ensures r != null ==> r.Valid() && r.Model == Model()
    {
      root
    }

    method SetRoot(r: BSPNode?)
      modifies this`root
      ensures root == r
    {
      root := r;
    }

    function IsEmpty(): (b: bool)
      reads this, Nodes
      requires Valid()
      ensures b <==> Model() == Empty
    {
      root == null
    }

    /** The size of the root's own list only (zero on an empty tree), not the whole tree's. */
    function GetRootPolygonsCount(): (n: nat)
      reads this, Nodes
      requires Valid()
      ensures Model() == Empty ==> n == 0
      ensures Model().Node? ==> n == |Model().polygons|
      ensures n <= Count(Model())
    {
      if root == null then 0 else |root.GetPolygons()|
    }

    /** Create the root from the polygon's plane if the tree is empty, then insert at the root. */
    method Insert(g: Geometry, polygon: Polygon)
      requires Valid() && CanInsertTree(g, Model(), polygon)
      modifies this, Nodes
      ensures Valid() && fresh(Nodes - old(Nodes))
      ensures Model() == TreeInsert(g, old(Model()), polygon)
      ensures old(root) != null ==> root == old(root)
      ensures old(root) == null ==> fresh(root) && root.partition == g.planeOf(polygon)
      ensures forall n :: n in old(Nodes) ==>
                n.parent == old(n.parent) && n.partition == old(n.partition) && old(n.polygons) <= n.polygons &&
                (old(n.front) != null ==> n.front == old(n.front)) && (old(n.back) != null ==> n.back == old(n.back))
      ensures forall n :: n in Nodes - old(Nodes) ==> n.parent == null
    {
      if root == null {
        root := new BSPNode(g.planeOf(polygon));
        Nodes := root.Repr;
      }
      root.Insert(g, polygon);
      Nodes := root.Repr;
    }
  }
}
