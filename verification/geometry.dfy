/**
 * The geometric collaborators of the tree. Points, vectors, planes and the
 * polygon's own operations live in headers that are not part of this model,
 * so `Polygon` and `Plane` are abstract types and the three operations the
 * tree calls are supplied as functions, with no property assumed of them.
 */
module Geometry {
  import opened DataType
  import PolygonRelation

  type Polygon(==)
  type Plane(==)

  datatype Geometry = Geometry(
    /** For each vertex of the polygon, the signed value tested against the plane. */
    vertexValues: (Polygon, Plane) -> seq<Safe>,
    /** `Polygon::getPlane`: the plane the polygon lies in. */
    planeOf: Polygon -> Plane,
    /** `Polygon::split`: the part in front of the plane and the part behind it. */
    split: (Polygon, Plane) -> (Polygon, Polygon))

  /** `Polygon::relationWithPlane`, with one tested value per vertex. */
  function RelationOf(g: Geometry, p: Polygon, pl: Plane): RelationType {
    PolygonRelation.Relation(g.vertexValues(p, pl))
  }
}
