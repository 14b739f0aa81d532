/** Planar coordinates and the squared degree-space distance of util.py. */
module Geo {

  /** A (latitude, longitude) pair in decimal degrees. */
  datatype LatLon = LatLon(lat: real, lon: real)

  /** A product of two reals. Products that proofs reason about are written
      with it, so that a fact shown about a product carries over to every
      product of equal factors. */
  function Mul(x: real, y: real): real
  {
    x * y
  }

  function Square(x: real): (r: real)
    ensures r >= 0.0
    ensures x == 0.0 ==> r == 0.0
  {
    Mul(x, x)
  }

  /** util.ldist2: squared planar distance between two latlon pairs. It is a
      metric in the sense the callers rely on: never negative, and zero for the
      same point. */
  function LDist2(p: LatLon, q: LatLon): (d: real)
    ensures d >= 0.0
    ensures p == q ==> d == 0.0
  {
    Square(p.lat - q.lat) + Square(p.lon - q.lon)
  }

  lemma {:induction false} LDist2Symmetric(p: LatLon, q: LatLon)
    ensures LDist2(p, q) == LDist2(q, p)
  {
    assert Square(p.lat - q.lat) == Square(q.lat - p.lat);
    assert Square(p.lon - q.lon) == Square(q.lon - p.lon);
  }
}

/** The OpenStreetMap objects of a route relation, as the assembler sees them. */
module OsmData {

  import opened Outcomes
  import opened Geo

  /** An OSM node. Nodes are compared as objects in the source; within one
      Overpass result each id is one object, so comparing the id together with
      the position stands in for object identity. */
  datatype Node = Node(id: int, pos: LatLon)

  /** A resolved relation member. `coord` is what osm.member_coord yields for
      it (the node position, the mean of a way's node positions, or the
      coordinate of a sub-relation's first member); it is an input here. */
  datatype Element =
    | WayElem(nodes: seq<Node>, coord: LatLon)
    | OtherElem(coord: LatLon)

  /** A relation member with its role; `None` is a member without a role. */
  datatype Member = Member(role: Option<string>, elem: Element)

  /** Every way member has at least one node, so its first and last node exist. */
  predicate WaysHaveNodes(members: seq<Member>)
  {
    forall m :: m in members && m.elem.WayElem? ==> |m.elem.nodes| > 0
  }

  /** osm.ndist2: squared planar distance between the positions of two nodes. */
  function NDist2(n1: Node, n2: Node): (d: real)
    ensures d >= 0.0
    ensures n1.pos == n2.pos ==> d == 0.0
  {
    LDist2(n1.pos, n2.pos)
  }

  /** `[[float(n.lat), float(n.lon)] for n in nodes]` */
  function Positions(nodes: seq<Node>): seq<LatLon>
  {
    seq(|nodes|, i requires 0 <= i < |nodes| => nodes[i].pos)
  }
}
