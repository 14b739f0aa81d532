/** The route-shape assembler of osm.py (route_shape): the way members of a
    route relation, unordered and unoriented, are chained by shared endpoint
    nodes into one ordered node list, with a flag that records whether some
    join had to be guessed. */
module RouteShape {

  import opened Outcomes
  import opened Seqs
  import opened Geo
  import opened OsmData

  /** A way member is part of the route geometry when it has no role, the
      empty role, or the role "forward" or "backward". */
  predicate IsShapeWay(m: Member)
  {
    && m.elem.WayElem?
    && (m.role == None || m.role == Some("") || m.role == Some("forward") || m.role == Some("backward"))
  }

  /** `ways` of route_shape: the node lists of the qualifying way members, in
      member order. */
  function ShapeWays(members: seq<Member>): (ways: seq<seq<Node>>)
    ensures |ways| <= |members|
    ensures forall w :: w in ways ==> exists m :: m in members && IsShapeWay(m) && m.elem.nodes == w
    ensures ways == [] <==> forall m :: m in members ==> !IsShapeWay(m)
  {
    if |members| == 0 then []
    else
      var rest := ShapeWays(members[1..]);
      assert forall m :: m in members[1..] ==> m in members;
      if IsShapeWay(members[0]) then [members[0].elem.nodes] + rest else rest
  }

  predicate NonEmptyWays(ways: seq<seq<Node>>)
  {
    forall i :: 0 <= i < |ways| ==> |ways[i]| > 0
  }

  lemma {:induction false} ShapeWaysNonEmpty(members: seq<Member>)
    requires WaysHaveNodes(members)
    ensures NonEmptyWays(ShapeWays(members))
  {
    var ways := ShapeWays(members);
    forall i | 0 <= i < |ways|
      ensures |ways[i]| > 0
    {
      assert ways[i] in ways;
    }
  }

  /** The coordinate of the first member whose role is exactly `role`. */
  function FirstWithRole(members: seq<Member>, role: string): (r: Option<LatLon>)
    ensures r.None? <==> forall m :: m in members ==> m.role != Some(role)
    ensures r.Some? ==>
      exists i :: 0 <= i < |members| && members[i].role == Some(role) && members[i].elem.coord == r.value &&
        forall j :: 0 <= j < i ==> members[j].role != Some(role)
  {
    if |members| == 0 then None
    else if members[0].role == Some(role) then Some(members[0].elem.coord)
    else
      var r := FirstWithRole(members[1..], role);
      assert forall m :: m in members ==> m == members[0] || m in members[1..];
      if r.Some? then
        var i :| 0 <= i < |members[1..]| && members[1..][i].role == Some(role) && members[1..][i].elem.coord == r.value &&
          forall j :: 0 <= j < i ==> members[1..][j].role != Some(role);
        assert members[i + 1].role == Some(role);
        r
      else r
  }

  /** The orientation cue of a single-way route: the first "stop" member,
      and only when there is none, the first "platform" member. */
  function Anchor(members: seq<Member>): (r: Option<LatLon>)
    ensures (exists m :: m in members && m.role == Some("stop")) ==> r == FirstWithRole(members, "stop")
    ensures (forall m :: m in members ==> m.role != Some("stop")) ==> r == FirstWithRole(members, "platform")
  {
    var stop := FirstWithRole(members, "stop");
    if stop.Some? then stop else FirstWithRole(members, "platform")
  }

  /** The node list assembled so far and whether a gap was met. */
  datatype Assembly = Assembly(nodes: seq<Node>, gaps: bool)

  /** A closed way (first node equal to last), e.g. a roundabout. */
  predicate IsRing(w: seq<Node>)
    requires |w| > 0
  {
    w[0] == Last(w)
  }

  /** `n` is one of the two end nodes of `w`. */
  predicate IsEndOf(n: Node, w: seq<Node>)
    requires |w| > 0
  {
    n == w[0] || n == Last(w)
  }

  /** Distance from a node to the nearer end of a way. */
  function EndDist(n: Node, w: seq<Node>): real
    requires |w| > 0
  {
    var a := NDist2(n, w[0]);
    var b := NDist2(n, Last(w));
    if a <= b then a else b
  }

  /** Orienting the first way against the second (lines 259-287): it is kept
      or reversed; when it touches the second way it ends on a node of it, and
      when it does not, the flag is set and it ends at its end nearer to the
      second way. The cases in full are stated by OrientFirstCases. */
  function OrientFirst(w0: seq<Node>, w1: seq<Node>): (r: Assembly)
    requires |w0| > 0 && |w1| > 0
    ensures r.nodes == w0 || r.nodes == Reverse(w0)
    ensures IsEndOf(Last(w0), w1) ==> r.nodes == w0
    ensures !r.gaps <==>
      IsEndOf(Last(w0), w1) || IsEndOf(w0[0], w1) || (IsRing(w1) && (Last(w0) in w1 || w0[0] in w1))
    ensures !r.gaps ==> Last(r.nodes) in w1
    ensures r.gaps ==> EndDist(Last(r.nodes), w1) <= EndDist(r.nodes[0], w1)
  {
    ReverseEnds(w0);
    if IsEndOf(Last(w0), w1) then Assembly(w0, false)
    else if IsEndOf(w0[0], w1) then Assembly(Reverse(w0), false)
    else if IsRing(w1) && Last(w0) in w1 then Assembly(w0, false)
    else if IsRing(w1) && w0[0] in w1 then Assembly(Reverse(w0), false)
    else
      var begmin := EndDist(w0[0], w1);
      var endmin := EndDist(Last(w0), w1);
      if endmin < begmin then Assembly(w0, true) else Assembly(Reverse(w0), true)
  }

  /** The cascade of lines 261-287 in full: the ends of the second way are
      tried first, then, on a ring, any node of it, the way's last node
      before its first; across a gap the way ends at its strictly nearer
      end, and a tie reverses it. */
  lemma {:induction false} OrientFirstCases(w0: seq<Node>, w1: seq<Node>)
    requires |w0| > 0 && |w1| > 0
    ensures var r := OrientFirst(w0, w1);
      (!IsEndOf(Last(w0), w1) && IsEndOf(w0[0], w1) ==> r.nodes == Reverse(w0)) &&
      (!IsEndOf(Last(w0), w1) && !IsEndOf(w0[0], w1) && IsRing(w1) ==>
        (Last(w0) in w1 ==> r.nodes == w0) && (Last(w0) !in w1 && w0[0] in w1 ==> r.nodes == Reverse(w0))) &&
      (r.gaps ==> r.nodes == if EndDist(Last(w0), w1) < EndDist(w0[0], w1) then w0 else Reverse(w0))
  {
  }

  /** The part of a ring walked from just after index `s` up to and including
      index `e`, going through index 0 when `e <= s`. */
  function Arc(w: seq<Node>, s: nat, e: nat): (r: seq<Node>)
    requires s < |w| && e < |w|
    ensures |r| > 0 && Last(r) == w[e]
    ensures |r| == if s < e then e - s else |w| - s + e
  {
    if s < e then w[s + 1..e + 1] else w[s + 1..] + w[..e + 1]
  }

  /** Where the route leaves a ring: the position in it of the next way's
      first node, else of its last node. */
  function ExitIndex(w: seq<Node>, next: Option<seq<Node>>): (r: Option<nat>)
    requires next.Some? ==> |next.value| > 0
    ensures r.Some? ==> next.Some? && r.value < |w| && IsEndOf(w[r.value], next.value)
    ensures r.None? <==> next.None? || (next.value[0] !in w && Last(next.value) !in w)
  {
    match next
    case None => None
    case Some(wn) =>
      if wn[0] in w then Some(IndexOf(w, wn[0]))
      else if Last(wn) in w then Some(IndexOf(w, Last(wn)))
      else None
  }

  /** One iteration for a ring way (lines 293-330): the arc from the entry
      (the current last node) to the exit (a node shared with the next way)
      is spliced in; a missing entry or exit sets the flag. The assembly only
      grows at its end. */
  function RingStep(acc: Assembly, w: seq<Node>, next: Option<seq<Node>>): (r: Assembly)
    requires |acc.nodes| > 0 && |w| > 0 && IsRing(w)
    requires next.Some? ==> |next.value| > 0
    ensures |acc.nodes| <= |r.nodes| && r.nodes[..|acc.nodes|] == acc.nodes
    ensures acc.gaps ==> r.gaps
  {
    var entry := if Last(acc.nodes) in w then Some(IndexOf(w, Last(acc.nodes))) else None;
    var exit := ExitIndex(w, next);
    if next.Some? then
      if entry.Some? && exit.Some? then Assembly(acc.nodes + Arc(w, entry.value, exit.value), acc.gaps)
      else if entry.Some? then Assembly(acc.nodes + Arc(w, entry.value, entry.value), true)
      else if exit.Some? then Assembly(acc.nodes + Arc(w, exit.value, exit.value), true)
      else acc
    else if entry.Some? then Assembly(acc.nodes + Arc(w, entry.value, entry.value), acc.gaps)
    else Assembly(acc.nodes + w, true)
  }

  /** What a ring step does. With a following way, the flag is set exactly
      when one of entry and exit is missing; with both, the assembly ends on
      the exit node, which is an end of the next way; with neither, nothing
      changes. On the last way the flag is set exactly when there is no
      entry, and otherwise the ring is walked once round back to the entry. */
  lemma {:induction false} RingStepJoins(acc: Assembly, w: seq<Node>, next: Option<seq<Node>>)
    requires |acc.nodes| > 0 && |w| > 0 && IsRing(w)
    requires next.Some? ==> |next.value| > 0
    ensures var r := RingStep(acc, w, next);
      && (next.Some? ==> (r.gaps <==> acc.gaps || ((Last(acc.nodes) in w) != ExitIndex(w, next).Some?)))
      && (next.None? ==> (r.gaps <==> acc.gaps || Last(acc.nodes) !in w))
      && (Last(acc.nodes) in w && ExitIndex(w, next).Some? ==>
            IsEndOf(Last(r.nodes), next.value) && Last(r.nodes) == w[ExitIndex(w, next).value])
      && (next.Some? && Last(acc.nodes) !in w && ExitIndex(w, next).None? ==> r == acc)
      && (next.None? && Last(acc.nodes) in w ==> Last(r.nodes) == Last(acc.nodes) && |r.nodes| == |acc.nodes| + |w|)
  {
    var r := RingStep(acc, w, next);
    if Last(acc.nodes) in w {
      var s := IndexOf(w, Last(acc.nodes));
      if next.None? {
        assert r.nodes == acc.nodes + Arc(w, s, s);
      }
    }
  }

  /** One iteration of the loop over the ways (lines 292-341). The assembly
      only grows at its end and a gap is never forgotten. */
  function Step(acc: Assembly, w: seq<Node>, next: Option<seq<Node>>): (r: Assembly)
    requires |acc.nodes| > 0 && |w| > 0
    requires next.Some? ==> |next.value| > 0
    ensures |acc.nodes| <= |r.nodes| && r.nodes[..|acc.nodes|] == acc.nodes
    ensures acc.gaps ==> r.gaps
  {
    var last := Last(acc.nodes);
    if IsRing(w) then RingStep(acc, w, next)
    else if last == w[0] then Assembly(acc.nodes + w[1..], acc.gaps)
    else if last == Last(w) then Assembly(acc.nodes + Reverse(w)[1..], acc.gaps)
    else if NDist2(last, w[0]) < NDist2(last, Last(w)) then Assembly(acc.nodes + w, true)
    else Assembly(acc.nodes + Reverse(w), true)
  }

  /** How an open way is joined. The flag is set exactly when the way does
      not start or end at the current last node. A way that does is appended
      in the orientation that starts at that node, without repeating it; one
      that does not is appended whole, starting at its end nearer to the
      current last node. */
  lemma {:induction false} StepJoins(acc: Assembly, w: seq<Node>, next: Option<seq<Node>>)
    requires |acc.nodes| > 0 && |w| > 0 && !IsRing(w)
    requires next.Some? ==> |next.value| > 0
    ensures var r := Step(acc, w, next);
      && (r.gaps <==> acc.gaps || !IsEndOf(Last(acc.nodes), w))
      && (Last(acc.nodes) == w[0] ==> r.nodes[|acc.nodes| - 1..] == w)
      && (Last(acc.nodes) != w[0] && Last(acc.nodes) == Last(w) ==> r.nodes[|acc.nodes| - 1..] == Reverse(w))
      && (!IsEndOf(Last(acc.nodes), w) ==>
            (r.nodes[|acc.nodes|..] == w || r.nodes[|acc.nodes|..] == Reverse(w)) &&
            NDist2(Last(acc.nodes), r.nodes[|acc.nodes|]) <= NDist2(Last(acc.nodes), Last(r.nodes)))
  {
    var last := Last(acc.nodes);
    ReverseEnds(w);
    if last == w[0] {
      assert acc.nodes + w[1..] == acc.nodes[..|acc.nodes| - 1] + w;
    } else if last == Last(w) {
      assert acc.nodes + Reverse(w)[1..] == acc.nodes[..|acc.nodes| - 1] + Reverse(w);
    }
  }

  /** `ways[i+1]` when it exists: the look-ahead used for rings. */
  function Lookahead(ways: seq<seq<Node>>, i: nat): (r: Option<seq<Node>>)
    requires NonEmptyWays(ways)
    ensures r.Some? ==> |r.value| > 0
  {
    if i + 1 < |ways| then Some(ways[i + 1]) else None
  }

  /** The assembly after the first way has been oriented and ways 1 .. k-1
      have been processed. */
  function Chain(ways: seq<seq<Node>>, k: nat): (r: Assembly)
    requires |ways| >= 2 && NonEmptyWays(ways) && 1 <= k <= |ways|
    ensures |r.nodes| > 0
    decreases k, 1
  {
    if k == 1 then OrientFirst(ways[0], ways[1])
    else ChainStep(ways, k)
  }

  /** Chain for two or more ways: way `k - 1` added to the assembly of the
      ways before it. */
  function ChainStep(ways: seq<seq<Node>>, k: nat): (r: Assembly)
    requires |ways| >= 2 && NonEmptyWays(ways) && 2 <= k <= |ways|
    ensures |r.nodes| > 0
    decreases k, 0
  {
    Step(Chain(ways, k - 1), ways[k - 1], Lookahead(ways, k - 1))
  }

  /** The loop of route_shape for two or more ways: orients the first way,
      then extends the node list way by way. */
  method AssembleWays(ways: seq<seq<Node>>) returns (nodes: seq<Node>, gaps: bool)
    requires |ways| >= 2 && NonEmptyWays(ways)
    ensures Assembly(nodes, gaps) == Chain(ways, |ways|)
  {
    var w0, w1 := ways[0], ways[1];
    var gapAfterFirst := false;
    if Last(w0) == w1[0] || Last(w0) == Last(w1) {
      nodes := w0;
    } else if w0[0] == w1[0] || w0[0] == Last(w1) {
      nodes := Reverse(w0);
    } else if w1[0] == Last(w1) {
      if Last(w0) in w1 {
        nodes := w0;
      } else if w0[0] in w1 {
        nodes := Reverse(w0);
      } else {
        gapAfterFirst := true;
      }
    } else {
      gapAfterFirst := true;
    }
    gaps := false;
    if gapAfterFirst {
      gaps := true;
      var begmin := EndDist(w0[0], w1);
      var endmin := EndDist(Last(w0), w1);
      if endmin < begmin {
        nodes := w0;
      } else {
        nodes := Reverse(w0);
      }
    }
    var i := 1;
    while i < |ways|
      invariant 1 <= i <= |ways|
      invariant Assembly(nodes, gaps) == Chain(ways, i)
    {
      var wnext := if i + 1 < |ways| then Some(ways[i + 1]) else None;
      nodes, gaps := ExtendWithWay(nodes, gaps, ways[i], wnext);
      i := i + 1;
    }
  }

  /** The body of the loop over the ways: extends `nodes` by way `w`, peeking
      at the following way `wnext` when `w` is a ring. */
  method ExtendWithWay(nodes0: seq<Node>, gaps0: bool, w: seq<Node>, wnext: Option<seq<Node>>)
    returns (nodes: seq<Node>, gaps: bool)
    requires |nodes0| > 0 && |w| > 0
    requires wnext.Some? ==> |wnext.value| > 0
    ensures Assembly(nodes, gaps) == Step(Assembly(nodes0, gaps0), w, wnext)
  {
    nodes, gaps := nodes0, gaps0;
    if w[0] == Last(w) {
      nodes, gaps := SpliceRing(nodes, gaps, w, wnext);
    } else if Last(nodes) == w[0] {
      nodes := nodes + w[1..];
    } else if Last(nodes) == Last(w) {
      nodes := nodes + Reverse(w)[1..];
    } else {
      gaps := true;
      if NDist2(Last(nodes), w[0]) < NDist2(Last(nodes), Last(w)) {
        nodes := nodes + w;
      } else {
        nodes := nodes + Reverse(w);
      }
    }
  }

  /** The ring branch of the loop body (lines 293-330). */
  method SpliceRing(nodes0: seq<Node>, gaps0: bool, w: seq<Node>, wnext: Option<seq<Node>>)
    returns (nodes: seq<Node>, gaps: bool)
    requires |nodes0| > 0 && |w| > 0 && IsRing(w)
    requires wnext.Some? ==> |wnext.value| > 0
    ensures Assembly(nodes, gaps) == RingStep(Assembly(nodes0, gaps0), w, wnext)
  {
    nodes, gaps := nodes0, gaps0;
    var startind := if Last(nodes) in w then Some(IndexOf(w, Last(nodes))) else None;
    if wnext.Some? {
      var nextind: Option<nat>;
      if wnext.value[0] in w {
        nextind := Some(IndexOf(w, wnext.value[0]));
      } else if Last(wnext.value) in w {
        nextind := Some(IndexOf(w, Last(wnext.value)));
      } else {
        nextind := None;
      }
      assert nextind == ExitIndex(w, wnext);
      if startind.Some? && nextind.Some? {
        if startind.value < nextind.value {
          nodes := nodes + w[startind.value + 1..nextind.value + 1];
        } else {
          nodes := nodes + (w[startind.value + 1..] + w[..nextind.value + 1]);
        }
        assert nodes == nodes0 + Arc(w, startind.value, nextind.value);
      } else if startind.Some? {
        gaps := true;
        nodes := nodes + (w[startind.value + 1..] + w[..startind.value + 1]);
        assert nodes == nodes0 + Arc(w, startind.value, startind.value);
      } else if nextind.Some? {
        gaps := true;
        nodes := nodes + (w[nextind.value + 1..] + w[..nextind.value + 1]);
        assert nodes == nodes0 + Arc(w, nextind.value, nextind.value);
      }
    } else {
      if startind.Some? {
        nodes := nodes + (w[startind.value + 1..] + w[..startind.value + 1]);
        assert nodes == nodes0 + Arc(w, startind.value, startind.value);
      } else {
        gaps := true;
        nodes := nodes + w;
      }
    }
  }

  /** osm.route_shape: the route's coordinates and the gap flag. No ways give
      an empty shape. A single way is returned as it is or reversed, so that
      the anchor (first stop, else first platform) is not farther from its
      first point than from its last, and it is reversed only when the anchor
      is strictly nearer the last point. Two or more ways are chained. */
  method RouteShape(members: seq<Member>) returns (latlon: seq<LatLon>, gaps: bool)
    requires WaysHaveNodes(members)
    ensures ShapeWays(members) == [] ==> latlon == [] && !gaps
    ensures |ShapeWays(members)| == 1 ==>
      var p := Positions(ShapeWays(members)[0]);
      && !gaps
      && (latlon == p || latlon == Reverse(p))
      && (Anchor(members).None? ==> latlon == p)
      && (Anchor(members).Some? ==>
            var a := Anchor(members).value;
            && |p| > 0
            && (LDist2(a, p[0]) <= LDist2(a, Last(p)) ==> latlon == p)
            && (LDist2(a, p[0]) > LDist2(a, Last(p)) ==> latlon == Reverse(p))
            && LDist2(a, latlon[0]) <= LDist2(a, Last(latlon)))
    ensures |ShapeWays(members)| >= 2 ==>
      NonEmptyWays(ShapeWays(members)) &&
      var result := Chain(ShapeWays(members), |ShapeWays(members)|);
      latlon == Positions(result.nodes) && gaps == result.gaps
  {
    var ways := ShapeWays(members);
    ShapeWaysNonEmpty(members);
    gaps := false;
    if |ways| == 0 {
      return [], gaps;
    } else if |ways| == 1 {
      latlon := Positions(ways[0]);
      ReverseEnds(latlon);
      var stop := FirstWithRole(members, "stop");
      if stop.Some? {
        if LDist2(stop.value, latlon[0]) > LDist2(stop.value, Last(latlon)) {
          latlon := Reverse(latlon);
        }
        return latlon, gaps;
      }
      var plat := FirstWithRole(members, "platform");
      if plat.Some? {
        if LDist2(plat.value, latlon[0]) > LDist2(plat.value, Last(latlon)) {
          latlon := Reverse(latlon);
        }
        return latlon, gaps;
      }
      return latlon, gaps;
    }
    var nodes;
    nodes, gaps := AssembleWays(ways);
    latlon := Positions(nodes);
  }

  /** Without rings after the first way and without gaps, every join drops
      exactly one shared node: the shape has as many nodes as the ways
      together, less one per join. */
  lemma {:induction false} ChainedLength(ways: seq<seq<Node>>, k: nat)
    requires |ways| >= 2 && NonEmptyWays(ways) && 1 <= k <= |ways|
    requires forall i :: 1 <= i < k ==> !IsRing(ways[i])
    requires !Chain(ways, k).gaps
    ensures |Chain(ways, k).nodes| == TotalLength(ways[..k]) - (k - 1)
    decreases k
  {
    TotalLengthPrefix(ways, k);
    if k > 1 {
      ChainUnfold(ways, k);
      ChainedLength(ways, k - 1);
      StepLength(Chain(ways, k - 1), ways[k - 1], Lookahead(ways, k - 1));
    }
  }

  /** A gap-free step over an open way adds all its nodes but the shared one. */
  lemma {:induction false} StepLength(acc: Assembly, w: seq<Node>, next: Option<seq<Node>>)
    requires |acc.nodes| > 0 && |w| > 0 && !IsRing(w)
    requires next.Some? ==> |next.value| > 0
    requires !Step(acc, w, next).gaps
    ensures |Step(acc, w, next).nodes| == |acc.nodes| + |w| - 1
  {
  }

  /** One more way processed is one more Step; the flag is kept. */
  lemma {:induction false} ChainUnfold(ways: seq<seq<Node>>, k: nat)
    requires |ways| >= 2 && NonEmptyWays(ways) && 2 <= k <= |ways|
    ensures Chain(ways, k) == Step(Chain(ways, k - 1), ways[k - 1], Lookahead(ways, k - 1))
    ensures Chain(ways, k - 1).gaps ==> Chain(ways, k).gaps
  {
  }

  /** A gap found among the first `k - 1` ways stays reported. */
  lemma {:induction false} ChainGapKept(ways: seq<seq<Node>>, k: nat)
    requires |ways| >= 2 && NonEmptyWays(ways) && 2 <= k <= |ways|
    ensures Chain(ways, k - 1).gaps ==> Chain(ways, k).gaps
  {
    ChainUnfold(ways, k);
  }
}
