/** The older way chainer of route2gpx.py (rel2nodes): it joins the way
    members without a role into one node list, like route_shape but without
    ring handling and without a gap flag, and chooses the orientation across
    a gap with its own distance function. */
module RouteGpx {

  import opened Outcomes
  import opened Seqs
  import opened Geo
  import opened OsmData
  import RouteShape

  /** rel2nodes keeps way members whose role is absent (`role is None`);
      unlike route_shape it does not accept the empty role. */
  predicate IsGpxWay(m: Member)
  {
    m.elem.WayElem? && m.role == None
  }

  /** The node lists of the way members without a role, in member order. */
  function GpxWays(members: seq<Member>): (ways: seq<seq<Node>>)
    ensures |ways| <= |members|
    ensures forall w :: w in ways ==> exists m :: m in members && IsGpxWay(m) && m.elem.nodes == w
    ensures ways == [] <==> forall m :: m in members ==> !IsGpxWay(m)
  {
    if |members| == 0 then []
    else
      var rest := GpxWays(members[1..]);
      assert forall m :: m in members[1..] ==> m in members;
      if IsGpxWay(members[0]) then [members[0].elem.nodes] + rest else rest
  }

  lemma {:induction false} GpxWaysNonEmpty(members: seq<Member>)
    requires WaysHaveNodes(members)
    ensures RouteShape.NonEmptyWays(GpxWays(members))
  {
    var ways := GpxWays(members);
    forall i | 0 <= i < |ways|
      ensures |ways[i]| > 0
    {
      assert ways[i] in ways;
    }
  }

  /** The local ndist2 of rel2nodes as written: the longitude term subtracts
      the first node's longitude from itself, so only latitudes count. */
  function GpxDist2(n1: Node, n2: Node): (d: real)
    ensures d >= 0.0
  {
    Square(n1.pos.lat - n2.pos.lat) + Square(n1.pos.lon - n1.pos.lon)
  }

  /** The distance rel2nodes compares ends with: the one its source
      defines, or the squared planar distance of osm.py it was meant to be. */
  datatype Metric = AsWritten | Corrected

  function Dist(metric: Metric, n1: Node, n2: Node): real
  {
    match metric
    case AsWritten => GpxDist2(n1, n2)
    case Corrected => NDist2(n1, n2)
  }

  /** The as-written distance ignores longitude altogether: two nodes at
      the same latitude are at distance zero from each other, and moving
      either node east or west changes nothing. */
  lemma {:induction false} GpxDist2IgnoresLongitude(n1: Node, n2: Node, m1: Node, m2: Node)
    requires n1.pos.lat == m1.pos.lat && n2.pos.lat == m2.pos.lat
    ensures GpxDist2(n1, n2) == GpxDist2(m1, m2)
    ensures n1.pos.lat == n2.pos.lat ==> GpxDist2(n1, n2) == 0.0
  {
  }

  /** Orientation of the first way (lines 58-73): kept when its last node is
      an end of the second way, reversed when its first node is, and
      otherwise oriented so that its end nearer to the second way, by
      the metric, comes last. That last case is stated by GpxOrientFirstGap. */
  function GpxOrientFirst(w0: seq<Node>, w1: seq<Node>, metric: Metric): (r: seq<Node>)
    requires |w0| > 0 && |w1| > 0
    ensures r == w0 || r == Reverse(w0)
    ensures RouteShape.IsEndOf(Last(w0), w1) ==> r == w0
    ensures !RouteShape.IsEndOf(Last(w0), w1) && RouteShape.IsEndOf(w0[0], w1) ==> r == Reverse(w0)
  {
    if RouteShape.IsEndOf(Last(w0), w1) then w0
    else if RouteShape.IsEndOf(w0[0], w1) then Reverse(w0)
    else
      var begmin := Min(Dist(metric, w0[0], w1[0]), Dist(metric, w0[0], Last(w1)));
      var endmin := Min(Dist(metric, Last(w0), w1[0]), Dist(metric, Last(w0), Last(w1)));
      if endmin < begmin then w0 else Reverse(w0)
  }

  /** The gap branch of the first way's orientation (lines 64-73): with
      neither end of the first way touching the second, it is kept exactly
      when its last node is strictly nearer to the second way's ends, by the
      metric, than its first node; a tie reverses it. */
  lemma {:induction false} GpxOrientFirstGap(w0: seq<Node>, w1: seq<Node>, metric: Metric)
    requires |w0| > 0 && |w1| > 0
    requires !RouteShape.IsEndOf(Last(w0), w1) && !RouteShape.IsEndOf(w0[0], w1)
    ensures var begmin := Min(Dist(metric, w0[0], w1[0]), Dist(metric, w0[0], Last(w1)));
      var endmin := Min(Dist(metric, Last(w0), w1[0]), Dist(metric, Last(w0), Last(w1)));
      GpxOrientFirst(w0, w1, metric) == if endmin < begmin then w0 else Reverse(w0)
  {
  }

  function Min(a: real, b: real): real
  {
    if a <= b then a else b
  }

  /** One iteration of the loop over the ways (lines 76-85): a way that
      starts or ends at the current last node is appended from that node on
      without repeating it; any other way is appended whole, starting at its
      end that the metric calls nearer. */
  function GpxStep(nodes: seq<Node>, w: seq<Node>, metric: Metric): (r: seq<Node>)
    requires |nodes| > 0 && |w| > 0
    ensures |nodes| <= |r| && r[..|nodes|] == nodes
    ensures Last(nodes) == w[0] ==> r[|nodes| - 1..] == w
    ensures Last(nodes) != w[0] && Last(nodes) == Last(w) ==> r[|nodes| - 1..] == Reverse(w)
    ensures !RouteShape.IsEndOf(Last(nodes), w) ==>
      (r[|nodes|..] == w || r[|nodes|..] == Reverse(w)) &&
      Dist(metric, Last(nodes), r[|nodes|]) <= Dist(metric, Last(nodes), Last(r))
    ensures !RouteShape.IsEndOf(Last(nodes), w) && Dist(metric, Last(nodes), w[0]) >= Dist(metric, Last(nodes), Last(w)) ==>
      r[|nodes|..] == Reverse(w)
  {
    var last := Last(nodes);
    ReverseEnds(w);
    if last == w[0] then
      assert nodes + w[1..] == nodes[..|nodes| - 1] + w;
      nodes + w[1..]
    else if last == Last(w) then
      assert nodes + Reverse(w)[1..] == nodes[..|nodes| - 1] + Reverse(w);
      nodes + Reverse(w)[1..]
    else if Dist(metric, last, w[0]) < Dist(metric, last, Last(w)) then nodes + w
    else nodes + Reverse(w)
  }

  /** The node list after the first way and ways 1 .. k-1. */
  function GpxChain(ways: seq<seq<Node>>, k: nat, metric: Metric): (r: seq<Node>)
    requires |ways| >= 2 && RouteShape.NonEmptyWays(ways) && 1 <= k <= |ways|
    ensures |r| > 0
    decreases k
  {
    if k == 1 then GpxOrientFirst(ways[0], ways[1], metric)
    else GpxStep(GpxChain(ways, k - 1, metric), ways[k - 1], metric)
  }

  /** route2gpx.rel2nodes: the chained node list of the way members without
      a role, using the as-written distance. Fewer than two such ways make
      the look at `ways[1]` fail. */
  method Rel2Nodes(members: seq<Member>) returns (r: Result<seq<Node>>)
    requires WaysHaveNodes(members)
    ensures |GpxWays(members)| < 2 <==> r == Err(IndexError)
    ensures |GpxWays(members)| >= 2 ==>
      RouteShape.NonEmptyWays(GpxWays(members)) &&
      r == Ok(GpxChain(GpxWays(members), |GpxWays(members)|, AsWritten))
  {
    var ways := GpxWays(members);
    GpxWaysNonEmpty(members);
    if |ways| < 2 {
      return Err(IndexError);
    }
    var nodes := OrientGpx(ways[0], ways[1]);
    var i := 1;
    while i < |ways|
      invariant 1 <= i <= |ways|
      invariant nodes == GpxChain(ways, i, AsWritten)
    {
      nodes := ExtendGpx(nodes, ways[i]);
      i := i + 1;
    }
    return Ok(nodes);
  }

  /** The orientation of the first way in rel2nodes. */
  method OrientGpx(w0: seq<Node>, w1: seq<Node>) returns (nodes: seq<Node>)
    requires |w0| > 0 && |w1| > 0
    ensures nodes == GpxOrientFirst(w0, w1, AsWritten)
  {
    if Last(w0) == w1[0] || Last(w0) == Last(w1) {
      nodes := w0;
    } else if w0[0] == w1[0] || w0[0] == Last(w1) {
      nodes := Reverse(w0);
    } else {
      var begmin := Min(GpxDist2(w0[0], w1[0]), GpxDist2(w0[0], Last(w1)));
      var endmin := Min(GpxDist2(Last(w0), w1[0]), GpxDist2(Last(w0), Last(w1)));
      if endmin < begmin {
        nodes := w0;
      } else {
        nodes := Reverse(w0);
      }
    }
  }

  /** The body of the loop over the ways in rel2nodes. */
  method ExtendGpx(nodes0: seq<Node>, w: seq<Node>) returns (nodes: seq<Node>)
    requires |nodes0| > 0 && |w| > 0
    ensures nodes == GpxStep(nodes0, w, AsWritten)
  {
    nodes := nodes0;
    if Last(nodes) == w[0] {
      nodes := nodes + w[1..];
    } else if Last(nodes) == Last(w) {
      nodes := nodes + Reverse(w)[1..];
    } else if GpxDist2(Last(nodes), w[0]) < GpxDist2(Last(nodes), Last(w)) {
      nodes := nodes + w;
    } else {
      nodes := nodes + Reverse(w);
    }
  }

  /** Each way adds all its nodes, or all but the one it shares with the
      list so far: the chained list is never longer than the ways together
      and loses at most one node per join. */
  lemma {:induction false} GpxChainLength(ways: seq<seq<Node>>, k: nat, metric: Metric)
    requires |ways| >= 2 && RouteShape.NonEmptyWays(ways) && 1 <= k <= |ways|
    ensures TotalLength(ways[..k]) - (k - 1) <= |GpxChain(ways, k, metric)| <= TotalLength(ways[..k])
    decreases k
  {
    TotalLengthPrefix(ways, k);
    if k > 1 {
      GpxChainLength(ways, k - 1, metric);
      var nodes := GpxChain(ways, k - 1, metric);
      var r := GpxChain(ways, k, metric);
      assert r == GpxStep(nodes, ways[k - 1], metric);
      if RouteShape.IsEndOf(Last(nodes), ways[k - 1]) {
        assert |r[|nodes| - 1..]| == |ways[k - 1]|;
      } else {
        assert |r[|nodes|..]| == |ways[k - 1]|;
      }
    }
  }

  /** Whenever the ways meet end to end, rel2nodes and route_shape agree:
      with no ring after the first way and no gap, both produce the same
      node list, whatever distance rel2nodes uses, since a distance is only
      consulted across a gap. */
  lemma {:induction false} AgreesWithRouteShape(ways: seq<seq<Node>>, k: nat, metric: Metric)
    requires |ways| >= 2 && RouteShape.NonEmptyWays(ways) && 1 <= k <= |ways|
    requires forall i :: 1 <= i < |ways| ==> !RouteShape.IsRing(ways[i])
    requires !RouteShape.Chain(ways, k).gaps
    ensures GpxChain(ways, k, metric) == RouteShape.Chain(ways, k).nodes
    decreases k
  {
    ChainFirstAgrees(ways, metric);
    var j := 1;
    while j < k
      invariant 1 <= j <= k
      invariant !RouteShape.Chain(ways, j).gaps ==> GpxChain(ways, j, metric) == RouteShape.Chain(ways, j).nodes
    {
      ChainAgrees(ways, j + 1, metric);
      j := j + 1;
    }
  }

  /** The assemblies of the first way alone agree. */
  lemma {:induction false} ChainFirstAgrees(ways: seq<seq<Node>>, metric: Metric)
    requires |ways| >= 2 && RouteShape.NonEmptyWays(ways) && !RouteShape.IsRing(ways[1])
    ensures !RouteShape.Chain(ways, 1).gaps ==> GpxChain(ways, 1, metric) == RouteShape.Chain(ways, 1).nodes
  {
    if !RouteShape.Chain(ways, 1).gaps {
      FirstAgrees(ways[0], ways[1], metric);
    }
  }

  /** One more way keeps the two assemblies equal. */
  lemma {:induction false} ChainAgrees(ways: seq<seq<Node>>, k: nat, metric: Metric)
    requires |ways| >= 2 && RouteShape.NonEmptyWays(ways) && 2 <= k <= |ways|
    requires !RouteShape.IsRing(ways[k - 1])
    requires !RouteShape.Chain(ways, k - 1).gaps ==> GpxChain(ways, k - 1, metric) == RouteShape.Chain(ways, k - 1).nodes
    ensures !RouteShape.Chain(ways, k).gaps ==> GpxChain(ways, k, metric) == RouteShape.Chain(ways, k).nodes
  {
    RouteShape.ChainGapKept(ways, k);
    if !RouteShape.Chain(ways, k).gaps {
      RouteShape.ChainUnfold(ways, k);
      var acc := RouteShape.Chain(ways, k - 1);
      StepAgrees(acc, ways[k - 1], RouteShape.Lookahead(ways, k - 1), metric);
      assert GpxChain(ways, k, metric) == GpxStep(acc.nodes, ways[k - 1], metric);
    }
  }

  /** The first way is oriented alike when it meets a non-ring second way
      end to end. */
  lemma {:induction false} FirstAgrees(w0: seq<Node>, w1: seq<Node>, metric: Metric)
    requires |w0| > 0 && |w1| > 0 && !RouteShape.IsRing(w1)
    requires !RouteShape.OrientFirst(w0, w1).gaps
    ensures GpxOrientFirst(w0, w1, metric) == RouteShape.OrientFirst(w0, w1).nodes
  {
  }

  /** The single-step case of AgreesWithRouteShape. */
  lemma {:induction false} StepAgrees(acc: RouteShape.Assembly, w: seq<Node>, next: Option<seq<Node>>, metric: Metric)
    requires |acc.nodes| > 0 && |w| > 0 && !RouteShape.IsRing(w)
    requires next.Some? ==> |next.value| > 0
    requires !RouteShape.Step(acc, w, next).gaps
    ensures GpxStep(acc.nodes, w, metric) == RouteShape.Step(acc, w, next).nodes
  {
    RouteShape.StepJoins(acc, w, next);
  }

  /** The intended behaviour across a gap, with the true distance ndist2 of
      osm.py: the way is appended starting at its end nearer to the current
      last node. */
  lemma {:induction false} NearerEndCorrected(nodes: seq<Node>, w: seq<Node>)
    requires |nodes| > 0 && |w| > 0 && !RouteShape.IsEndOf(Last(nodes), w)
    ensures var r := GpxStep(nodes, w, Corrected);
      NDist2(Last(nodes), r[|nodes|]) <= NDist2(Last(nodes), Last(r))
  {
  }

  /** With the as-written distance the way can be appended starting at its
      farther end: from (0, 0), a way from (0, 10) to (1, 0) is appended as
      it is, although its last node is ten times nearer. */
  lemma {:induction false} FartherEndAsWritten()
    ensures var last := Node(1, LatLon(0.0, 0.0));
      var w := [Node(2, LatLon(0.0, 10.0)), Node(3, LatLon(1.0, 0.0))];
      var r := GpxStep([last], w, AsWritten);
      r == [last] + w && NDist2(last, r[1]) > NDist2(last, Last(r))
  {
    var last := Node(1, LatLon(0.0, 0.0));
    var w := [Node(2, LatLon(0.0, 10.0)), Node(3, LatLon(1.0, 0.0))];
    assert Square(0.0) == 0.0 && Square(-1.0) == 1.0 && Square(-10.0) == 100.0;
    assert GpxDist2(last, w[0]) == 0.0;
    assert GpxDist2(last, w[1]) == 1.0;
    assert NDist2(last, w[0]) == 100.0;
    assert NDist2(last, w[1]) == 1.0;
    assert Last([last]) == last && last != w[0] && last != Last(w);
    assert Dist(AsWritten, last, w[0]) < Dist(AsWritten, last, Last(w));
  }
}
