/** Paths along ways: when consecutive nodes of a node list are neighbours
    on a way, or on one of several ways, and how each step of osm.py's
    route_shape extends such a path. */
module Paths {

  import opened Outcomes
  import opened Seqs
  import opened OsmData
  import opened RouteShape

  /** `w[j]` and `w[j + 1]` are `a` and `b`, in either order. */
  predicate AdjacentAt(w: seq<Node>, j: int, a: Node, b: Node)
  {
    0 <= j < |w| - 1 && ((w[j] == a && w[j + 1] == b) || (w[j] == b && w[j + 1] == a))
  }

  /** `a` and `b` are the same node or follow each other, in either
      direction, somewhere along `w`. */
  predicate Linked(a: Node, b: Node, w: seq<Node>)
  {
    a == b || exists j :: 0 <= j < |w| - 1 && AdjacentAt(w, j, a, b)
  }

  /** The step from `path[i]` to `path[i + 1]` is linked along `w`. */
  predicate LinkedAt(path: seq<Node>, i: int, w: seq<Node>)
  {
    0 <= i < |path| - 1 && Linked(path[i], path[i + 1], w)
  }

  /** Every step of `path` moves along `w` (or stays put). */
  predicate WalksAlong(path: seq<Node>, w: seq<Node>)
  {
    forall i :: 0 <= i < |path| - 1 ==> LinkedAt(path, i, w)
  }

  /** The step from `nodes[i]` to `nodes[i + 1]` is linked along one of `ways`. */
  predicate OnSomeWayAt(nodes: seq<Node>, i: int, ways: seq<seq<Node>>)
  {
    exists k {:trigger LinkedAt(nodes, i, ways[k])} :: 0 <= k < |ways| && LinkedAt(nodes, i, ways[k])
  }

  /** Every step of `nodes` moves along one of `ways` (or stays put): the
      first step does, and so do the steps after it. */
  predicate Walks(nodes: seq<Node>, ways: seq<seq<Node>>)
    decreases |nodes|
  {
    |nodes| <= 1 || (OnSomeWayAt(nodes, 0, ways) && Walks(nodes[1..], ways))
  }

  /** Dropping the first node shifts the steps by one. */
  lemma {:induction false} OnSomeWayShift(nodes: seq<Node>, i: nat, ways: seq<seq<Node>>)
    requires i < |nodes| - 2
    ensures OnSomeWayAt(nodes[1..], i, ways) <==> OnSomeWayAt(nodes, i + 1, ways)
  {
    var rest := nodes[1..];
    assert rest[i] == nodes[i + 1] && rest[i + 1] == nodes[i + 2];
    if OnSomeWayAt(rest, i, ways) {
      var k :| 0 <= k < |ways| && LinkedAt(rest, i, ways[k]);
      assert LinkedAt(nodes, i + 1, ways[k]);
    }
    if OnSomeWayAt(nodes, i + 1, ways) {
      var k :| 0 <= k < |ways| && LinkedAt(nodes, i + 1, ways[k]);
      assert LinkedAt(rest, i, ways[k]);
    }
  }

  /** Walks holds exactly when every step of `nodes` is linked along one of
      `ways`. */
  lemma {:induction false} WalksEvery(nodes: seq<Node>, ways: seq<seq<Node>>)
    ensures Walks(nodes, ways) <==> forall i :: 0 <= i < |nodes| - 1 ==> OnSomeWayAt(nodes, i, ways)
    decreases |nodes|
  {
    if |nodes| > 1 {
      var rest := nodes[1..];
      WalksEvery(rest, ways);
      forall i | 0 <= i < |nodes| - 2
        ensures OnSomeWayAt(rest, i, ways) <==> OnSomeWayAt(nodes, i + 1, ways)
      {
        OnSomeWayShift(nodes, i, ways);
      }
      if forall i :: 0 <= i < |nodes| - 1 ==> OnSomeWayAt(nodes, i, ways) {
        assert forall i :: 0 <= i < |rest| - 1 ==> OnSomeWayAt(rest, i, ways);
      }
      if Walks(nodes, ways) {
        forall i | 0 <= i < |nodes| - 1
          ensures OnSomeWayAt(nodes, i, ways)
        {
          if i > 0 {
            assert OnSomeWayAt(rest, i - 1, ways);
          }
        }
      }
    }
  }

  /** A way walks along itself, in both directions. */
  lemma {:induction false} WayWalks(w: seq<Node>)
    ensures WalksAlong(w, w)
    ensures WalksAlong(Reverse(w), w)
  {
    forall i | 0 <= i < |w| - 1
      ensures LinkedAt(w, i, w)
    {
      assert AdjacentAt(w, i, w[i], w[i + 1]);
    }
    var r := Reverse(w);
    forall i | 0 <= i < |r| - 1
      ensures LinkedAt(r, i, w)
    {
      var j := |w| - 2 - i;
      assert AdjacentAt(w, j, r[i], r[i + 1]);
    }
  }

  /** A piece of a walk along `w` is a walk along `w`. */
  lemma {:induction false} WalksAlongSlice(path: seq<Node>, w: seq<Node>, lo: nat, hi: nat)
    requires WalksAlong(path, w) && lo <= hi <= |path|
    ensures WalksAlong(path[lo..hi], w)
  {
    var p := path[lo..hi];
    forall i | 0 <= i < |p| - 1
      ensures LinkedAt(p, i, w)
    {
      assert LinkedAt(path, lo + i, w);
      assert p[i] == path[lo + i] && p[i + 1] == path[lo + i + 1];
    }
  }

  /** Two walks along `w`, the second starting where the first ends (or at
      a node linked to it), make one walk along `w`. */
  lemma {:induction false} WalksAlongConcat(left: seq<Node>, right: seq<Node>, w: seq<Node>)
    requires |left| > 0 && |right| > 0
    requires WalksAlong(left, w) && WalksAlong(right, w) && Linked(Last(left), right[0], w)
    ensures WalksAlong(left + right, w)
  {
    var path := left + right;
    forall i | 0 <= i < |path| - 1
      ensures LinkedAt(path, i, w)
    {
      if i < |left| - 1 {
        assert LinkedAt(left, i, w);
        assert path[i] == left[i] && path[i + 1] == left[i + 1];
      } else if i == |left| - 1 {
        assert path[i] == Last(left) && path[i + 1] == right[0];
      } else {
        var j := i - |left|;
        assert LinkedAt(right, j, w);
        assert path[i] == right[j] && path[i + 1] == right[j + 1];
      }
    }
  }

  /** Gluing a walk along one of the ways onto the end of a walk gives a walk. */
  lemma {:induction false} WalksExtend(nodes: seq<Node>, longer: seq<Node>, ways: seq<seq<Node>>, k: nat)
    requires |nodes| > 0 && |nodes| <= |longer| && longer[..|nodes|] == nodes
    requires k < |ways| && Walks(nodes, ways) && WalksAlong(longer[|nodes| - 1..], ways[k])
    ensures Walks(longer, ways)
  {
    WalksEvery(nodes, ways);
    var tail := longer[|nodes| - 1..];
    forall i | 0 <= i < |longer| - 1
      ensures OnSomeWayAt(longer, i, ways)
    {
      if i < |nodes| - 1 {
        assert OnSomeWayAt(nodes, i, ways);
        var k' :| 0 <= k' < |ways| && LinkedAt(nodes, i, ways[k']);
        assert longer[i] == nodes[i] && longer[i + 1] == nodes[i + 1];
        assert LinkedAt(longer, i, ways[k']);
      } else {
        var j := i - (|nodes| - 1);
        assert LinkedAt(tail, j, ways[k]);
        assert longer[i] == tail[j] && longer[i + 1] == tail[j + 1];
        assert LinkedAt(longer, i, ways[k]);
      }
    }
    WalksEvery(longer, ways);
  }

  /** A walk along one of the ways is a walk along the ways. */
  lemma {:induction false} WalksOfOne(nodes: seq<Node>, ways: seq<seq<Node>>, k: nat)
    requires k < |ways| && WalksAlong(nodes, ways[k])
    ensures Walks(nodes, ways)
  {
    forall i | 0 <= i < |nodes| - 1
      ensures OnSomeWayAt(nodes, i, ways)
    {
      assert LinkedAt(nodes, i, ways[k]);
    }
    WalksEvery(nodes, ways);
  }

  /** Entering a ring at `w[s]` and following the arc to `w[e]` walks along
      the ring; the step across the closing node stays put. */
  lemma {:induction false} ArcWalks(w: seq<Node>, s: nat, e: nat)
    requires s < |w| && e < |w| && IsRing(w)
    ensures WalksAlong([w[s]] + Arc(w, s, e), w)
  {
    WayWalks(w);
    if s < e {
      WalksAlongSlice(w, w, s, e + 1);
      assert [w[s]] + Arc(w, s, e) == w[s..e + 1];
    } else {
      ArcWrapWalks(w, s, e);
    }
  }

  /** The wrapping case of ArcWalks: from `w[s]` to the closing node, then
      from the first node on to `w[e]`. */
  lemma {:induction false} ArcWrapWalks(w: seq<Node>, s: nat, e: nat)
    requires e <= s < |w| && IsRing(w) && WalksAlong(w, w)
    ensures WalksAlong([w[s]] + (w[s + 1..] + w[..e + 1]), w)
  {
    var left, right := w[s..], w[..e + 1];
    WalksAlongSlice(w, w, s, |w|);
    WalksAlongSlice(w, w, 0, e + 1);
    assert w[s..|w|] == left && w[0..e + 1] == right;
    assert Last(left) == right[0];
    WalksAlongConcat(left, right, w);
    assert [w[s]] + (w[s + 1..] + w[..e + 1]) == left + right;
  }

  /** A step that meets no gap extends the assembly by a walk along the way
      that starts at the previous last node. */
  lemma {:induction false} StepWalks(acc: Assembly, w: seq<Node>, next: Option<seq<Node>>)
    requires |acc.nodes| > 0 && |w| > 0
    requires next.Some? ==> |next.value| > 0
    requires !Step(acc, w, next).gaps
    ensures WalksAlong(Step(acc, w, next).nodes[|acc.nodes| - 1..], w)
  {
    var r := Step(acc, w, next);
    var last := Last(acc.nodes);
    var tail := r.nodes[|acc.nodes| - 1..];
    WayWalks(w);
    if IsRing(w) {
      RingStepJoins(acc, w, next);
      if r == acc {
        assert |tail| == 1;
      } else {
        var s := IndexOf(w, last);
        var e := if next.Some? then ExitIndex(w, next).value else s;
        assert r.nodes == acc.nodes + Arc(w, s, e);
        assert tail == [w[s]] + Arc(w, s, e);
        ArcWalks(w, s, e);
      }
    } else {
      StepJoins(acc, w, next);
    }
  }

  /** The oriented first way is a walk along the ways. */
  lemma {:induction false} FirstWalks(w0: seq<Node>, w1: seq<Node>, ways: seq<seq<Node>>)
    requires |w0| > 0 && |w1| > 0 && |ways| > 0 && ways[0] == w0
    ensures Walks(OrientFirst(w0, w1).nodes, ways)
  {
    WayWalks(w0);
    WalksOfOne(OrientFirst(w0, w1).nodes, ways, 0);
  }

  /** The arguments for which Chain is defined. */
  predicate ChainArgs(ways: seq<seq<Node>>, k: nat)
  {
    |ways| >= 2 && NonEmptyWays(ways) && 1 <= k <= |ways|
  }

  /** The inductive step of ChainWalks: if the first `k - 1` ways, when
      gap-free, form a walk, so do the first `k`. */
  lemma {:induction false} ChainStepWalks(ways: seq<seq<Node>>, k: nat)
    requires ChainArgs(ways, k) && k >= 2
    requires !Chain(ways, k - 1).gaps ==> Walks(Chain(ways, k - 1).nodes, ways)
    ensures !Chain(ways, k).gaps ==> Walks(Chain(ways, k).nodes, ways)
  {
    ChainUnfold(ways, k);
    if !Chain(ways, k).gaps {
      StepKeepsWalk(Chain(ways, k - 1), ways, k - 1, Lookahead(ways, k - 1));
    }
  }

  /** The base case of ChainWalks: the oriented first way. */
  lemma {:induction false} ChainFirstWalks(ways: seq<seq<Node>>)
    requires |ways| >= 2 && NonEmptyWays(ways)
    ensures Walks(Chain(ways, 1).nodes, ways)
  {
    FirstWalks(ways[0], ways[1], ways);
  }

  /** A gap-free step along way `k` keeps the assembly a walk along the ways. */
  lemma {:induction false} StepKeepsWalk(acc: Assembly, ways: seq<seq<Node>>, k: nat, next: Option<seq<Node>>)
    requires |acc.nodes| > 0 && k < |ways| && |ways[k]| > 0
    requires next.Some? ==> |next.value| > 0
    requires Walks(acc.nodes, ways) && !Step(acc, ways[k], next).gaps
    ensures Walks(Step(acc, ways[k], next).nodes, ways)
  {
    StepWalks(acc, ways[k], next);
    WalksExtend(acc.nodes, Step(acc, ways[k], next).nodes, ways, k);
  }
}
