/** The walk property of the assembled route shape: without a reported gap,
    every pair of consecutive nodes of the list that osm.py's route_shape
    builds are neighbours on one of the route's ways. */
module ShapeWalk {

  import opened RouteShape
  import opened OsmData
  import opened Seqs
  import opened Outcomes
  import opened Paths

  /** Without gaps, the assembled shape is a walk along the ways: consecutive
      nodes are neighbours on one of the route's ways (or the repeated
      closing node of a ring). */
  lemma {:induction false} ChainWalks(ways: seq<seq<Node>>, k: nat)
    requires ChainArgs(ways, k)
    ensures !Chain(ways, k).gaps ==> Walks(Chain(ways, k).nodes, ways)
  {
    ChainFirstWalks(ways);
    var j := 1;
    while j < k
      invariant 1 <= j <= k
      invariant !Chain(ways, j).gaps ==> Walks(Chain(ways, j).nodes, ways)
    {
      ChainStepWalks(ways, j + 1);
      j := j + 1;
    }
  }
}
