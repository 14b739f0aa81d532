/** util.interp_shape and util.test_shape_overlap: densifying a shape and
    scoring how much of one shape lies along another. Tolerances are taken in
    degrees, already converted from metres. */
module Overlap {

  import opened Outcomes
  import opened Seqs
  import opened Geo

  /** Integer square root. */
  function ISqrt(m: nat): (r: nat)
    ensures r * r <= m < (r + 1) * (r + 1)
  {
    if m == 0 then 0
    else
      var r := ISqrt(m - 1);
      if (r + 1) * (r + 1) <= m then r + 1 else r
  }

  lemma {:induction false} MulPositive(x: real, y: real)
    requires x > 0.0 && y > 0.0
    ensures Mul(x, y) > 0.0
  {
  }

  lemma {:induction false} DivNonNegative(a: real, b: real)
    requires a >= 0.0 && b > 0.0
    ensures a / b >= 0.0
  {
  }

  lemma {:induction false} DivBounds(d2: real, l2: real, lo: nat, hi: nat)
    requires l2 > 0.0 && lo as real <= d2 / l2 < hi as real
    ensures Mul(lo as real, l2) <= d2 < Mul(hi as real, l2)
  {
  }

  lemma {:induction false} SquareOfProduct(k: nat, l: real)
    ensures Square(Mul(k as real, l)) == Mul((k * k) as real, Square(l))
  {
    assert (k * k) as real == k as real * k as real;
  }

  /** `int(sqrt(d2) / ltol) + 1`, computed without a square root (for
      `x >= 0`, `floor(sqrt(x))` is the integer square root of `floor(x)`):
      the number of pieces a segment of squared length `d2` is cut into, the
      least `n >= 1` with `sqrt(d2) < n * ltol`. */
  function SegmentCount(d2: real, ltol: real): (n: nat)
    requires d2 >= 0.0 && ltol > 0.0
    ensures n >= 1
    ensures d2 < Square(Mul(n as real, ltol))
    ensures Square(Mul((n - 1) as real, ltol)) <= d2
  {
    MulPositive(ltol, ltol);
    var x := d2 / Square(ltol);
    DivNonNegative(d2, Square(ltol));
    var r := ISqrt(x.Floor);
    DivBounds(d2, Square(ltol), r * r, (r + 1) * (r + 1));
    SquareOfProduct(r, ltol);
    SquareOfProduct(r + 1, ltol);
    r + 1
  }

  /** One of `n` equal steps from `a` to `b`: `(b - a) / n`. */
  function StepOf(a: LatLon, b: LatLon, n: nat): LatLon
    requires n > 0
  {
    LatLon((b.lat - a.lat) / n as real, (b.lon - a.lon) / n as real)
  }

  /** `a + j * v` in each coordinate. */
  function Offset(a: LatLon, v: LatLon, j: nat): LatLon
  {
    LatLon(a.lat + j as real * v.lat, a.lon + j as real * v.lon)
  }

  /** Point `j` of the `n` equal steps from `a` to `b`. */
  function Lerp(a: LatLon, b: LatLon, j: nat, n: nat): LatLon
    requires n > 0
  {
    Offset(a, StepOf(a, b, n), j)
  }

  /** The points `interp_shape` appends for the segment from `a` to `b`: just
      `b` when the two are closer than the tolerance, otherwise the `n - 1`
      evenly spaced inner points followed by `b`. */
  function Segment(a: LatLon, b: LatLon, ltol: real): (r: seq<LatLon>)
    requires ltol > 0.0
    ensures |r| >= 1 && Last(r) == b
    ensures |r| == 1 <==> LDist2(a, b) < Square(ltol)
    ensures |r| >= 2 ==> |r| == SegmentCount(LDist2(a, b), ltol)
  {
    var d2 := LDist2(a, b);
    if d2 < Square(ltol) then [b]
    else
      var n := SegmentCount(d2, ltol);
      assert n >= 2 by {
        if n == 1 {
          assert 0.0 * ltol == 0.0 && 1.0 * ltol == ltol;
        }
      }
      seq(n - 1, k requires 0 <= k < n - 1 => Lerp(a, b, k + 1, n)) + [b]
  }

  /** The densified shape: `s[0]`, then the points of every segment in turn. */
  function Densify(s: seq<LatLon>, ltol: real): (r: seq<LatLon>)
    requires |s| > 0 && (|s| == 1 || ltol > 0.0)
    ensures |r| >= |s| && r[0] == s[0] && Last(r) == Last(s)
  {
    if |s| == 1 then [s[0]]
    else Densify(s[..|s| - 1], ltol) + Segment(s[|s| - 2], Last(s), ltol)
  }

  /** The outcome of `interp_shape(s, tol)`, with `ltol` the tolerance in
      degrees: IndexError on an empty shape, and a division by zero when a
      zero tolerance meets a segment. */
  function Interpolated(s: seq<LatLon>, ltol: real): Result<seq<LatLon>>
    requires ltol >= 0.0
  {
    if |s| == 0 then Err(IndexError)
    else if |s| >= 2 && ltol == 0.0 then Err(ZeroDivisionError)
    else Ok(Densify(s, ltol))
  }

  /** util.interp_shape. */
  method InterpShape(s: seq<LatLon>, ltol: real) returns (r: Result<seq<LatLon>>)
    requires ltol >= 0.0
    ensures r == Interpolated(s, ltol)
  {
    if |s| == 0 {
      return Err(IndexError);
    }
    var sout := [s[0]];
    for i := 0 to |s| - 1
      invariant i > 0 ==> ltol > 0.0
      invariant sout == Densify(s[..i + 1], ltol)
    {
      assert s[..i + 2][..i + 1] == s[..i + 1];
      var next := AppendSegment(sout, s[i], s[i + 1], ltol);
      if next.None? {
        return Err(ZeroDivisionError);
      }
      sout := next.value;
    }
    assert s[..|s|] == s;
    r := Ok(sout);
  }

  /** The body of the loop of util.interp_shape for the segment from `a` to
      `b`; `None` stands for the division by a zero tolerance. */
  method AppendSegment(sout: seq<LatLon>, a: LatLon, b: LatLon, ltol: real) returns (r: Option<seq<LatLon>>)
    requires ltol >= 0.0
    ensures r.None? <==> ltol == 0.0
    ensures r.Some? ==> ltol > 0.0 && r.value == sout + Segment(a, b, ltol)
  {
    var ltol2 := Square(ltol);
    var d2 := LDist2(a, b);
    if d2 < ltol2 {
      return Some(sout + [b]);
    }
    if ltol == 0.0 {
      return None;
    }
    var n := SegmentCount(d2, ltol);
    var v := StepOf(a, b, n);
    ghost var inner := seq(n - 1, k requires 0 <= k < n - 1 => Lerp(a, b, k + 1, n));
    var out := sout;
    for j := 1 to n
      invariant out == sout + inner[..j - 1]
    {
      out := out + [Offset(a, v, j)];
      assert inner[..j] == inner[..j - 1] + [inner[j - 1]];
    }
    assert inner[..n - 1] == inner;
    r := Some(out + [b]);
  }

  /** Position of `s[i]` in the densified shape. */
  function Pos(s: seq<LatLon>, ltol: real, i: nat): nat
    requires i < |s| && (|s| == 1 || ltol > 0.0)
  {
    |Densify(s[..i + 1], ltol)| - 1
  }

  lemma {:induction false} DensifyGrows(s: seq<LatLon>, ltol: real, i: nat)
    requires i + 1 < |s| && ltol > 0.0
    ensures Densify(s[..i + 2], ltol) == Densify(s[..i + 1], ltol) + Segment(s[i], s[i + 1], ltol)
  {
    assert s[..i + 2][..i + 1] == s[..i + 1];
  }

  /** Densifying a prefix of the shape gives a prefix of the densified shape. */
  lemma {:induction false} DensifyPrefix(s: seq<LatLon>, ltol: real, k: nat)
    requires 1 <= k <= |s| && (|s| == 1 || ltol > 0.0)
    ensures |Densify(s[..k], ltol)| <= |Densify(s, ltol)|
    ensures Densify(s, ltol)[..|Densify(s[..k], ltol)|] == Densify(s[..k], ltol)
  {
    if k == |s| {
      assert s[..k] == s;
    } else {
      var s' := s[..|s| - 1];
      assert s'[..k] == s[..k];
      DensifyPrefix(s', ltol, k);
      DensifyLastStep(s, ltol);
      PrefixTransitive(Densify(s[..k], ltol), Densify(s', ltol), Densify(s, ltol));
    }
  }

  /** The densified shape extends the densified shape without its last point. */
  lemma {:induction false} DensifyLastStep(s: seq<LatLon>, ltol: real)
    requires |s| >= 2 && ltol > 0.0
    ensures |Densify(s[..|s| - 1], ltol)| <= |Densify(s, ltol)|
    ensures Densify(s, ltol)[..|Densify(s[..|s| - 1], ltol)|] == Densify(s[..|s| - 1], ltol)
  {
  }

  /** The densified shape starts with `s[0]`, ends with the last point of `s`
      and holds every point of `s`, in order. */
  lemma {:induction false} DensifyKeepsPoints(s: seq<LatLon>, ltol: real)
    requires |s| > 0 && (|s| == 1 || ltol > 0.0)
    ensures Pos(s, ltol, 0) == 0 && Pos(s, ltol, |s| - 1) == |Densify(s, ltol)| - 1
    ensures forall i :: 0 <= i < |s| ==>
      Pos(s, ltol, i) < |Densify(s, ltol)| && Densify(s, ltol)[Pos(s, ltol, i)] == s[i]
    ensures forall i, j :: 0 <= i < j < |s| ==> Pos(s, ltol, i) < Pos(s, ltol, j)
  {
    assert s[..1] == [s[0]];
    assert s[..|s|] == s;
    forall i | 0 <= i < |s|
      ensures Pos(s, ltol, i) < |Densify(s, ltol)| && Densify(s, ltol)[Pos(s, ltol, i)] == s[i]
    {
      DensifyAt(s, ltol, i);
    }
    forall i, j | 0 <= i < j < |s|
      ensures Pos(s, ltol, i) < Pos(s, ltol, j)
    {
      PosIncreasing(s, ltol, i, j);
    }
  }

  /** Point `i` of the shape sits at position `Pos(s, ltol, i)` of the
      densified shape. */
  lemma {:induction false} DensifyAt(s: seq<LatLon>, ltol: real, i: nat)
    requires i < |s| && (|s| == 1 || ltol > 0.0)
    ensures Pos(s, ltol, i) < |Densify(s, ltol)| && Densify(s, ltol)[Pos(s, ltol, i)] == s[i]
  {
    var p := Densify(s[..i + 1], ltol);
    var d := Densify(s, ltol);
    DensifyPrefix(s, ltol, i + 1);
    assert Last(p) == s[i];
    assert d[..|p|][|p| - 1] == d[|p| - 1];
  }

  lemma {:induction false} PosIncreasing(s: seq<LatLon>, ltol: real, i: nat, j: nat)
    requires i < j < |s| && ltol > 0.0
    ensures Pos(s, ltol, i) < Pos(s, ltol, j)
    decreases j - i
  {
    DensifyInserts(s, ltol, j - 1);
    if i < j - 1 {
      PosIncreasing(s, ltol, i, j - 1);
    }
  }

  /** Between `s[i]` and `s[i + 1]` points are inserted exactly when the two
      are at least the tolerance apart, and then `SegmentCount - 1` of them. */
  lemma {:induction false} DensifyInserts(s: seq<LatLon>, ltol: real, i: nat)
    requires i + 1 < |s| && ltol > 0.0
    ensures Pos(s, ltol, i + 1) == Pos(s, ltol, i) + 1 <==> LDist2(s[i], s[i + 1]) < Square(ltol)
    ensures LDist2(s[i], s[i + 1]) >= Square(ltol) ==>
      Pos(s, ltol, i + 1) == Pos(s, ltol, i) + SegmentCount(LDist2(s[i], s[i + 1]), ltol)
  {
    DensifyGrows(s, ltol, i);
  }

  /** Consecutive points `k` and `k + 1` of `path` are closer than `thr`. */
  predicate StepWithin(path: seq<LatLon>, k: nat, thr: real)
    requires k + 1 < |path|
  {
    LDist2(path[k], path[k + 1]) < thr
  }

  predicate StepsWithin(path: seq<LatLon>, thr: real)
  {
    forall k :: 0 <= k < |path| - 1 ==> StepWithin(path, k, thr)
  }

  lemma {:induction false} SquareNeg(x: real)
    ensures Square(-x) == Square(x)
  {
  }

  lemma {:induction false} DivMul(x: real, y: real)
    requires y != 0.0
    ensures Mul(y, x / y) == x
  {
  }

  lemma {:induction false} SquareMul(c: real, x: real)
    ensures Square(Mul(c, x)) == Mul(Square(c), Square(x))
  {
  }

  lemma {:induction false} MulAdd(c: real, x: real, y: real)
    ensures Mul(c, x) + Mul(c, y) == Mul(c, x + y)
  {
  }

  lemma {:induction false} MulCancel(c: real, x: real, y: real)
    requires c > 0.0 && Mul(c, x) < Mul(c, y)
    ensures x < y
  {
  }

  lemma {:induction false} SquareScaled(k: nat, l: real)
    ensures Square(Mul(k as real, l)) == Mul(Square(k as real), Square(l))
  {
    SquareMul(k as real, l);
  }

  /** Two consecutive interpolated points are `LDist2(a, b) / n²` apart, so
      closer than the tolerance whenever `sqrt(LDist2(a, b)) < n * ltol`. */
  lemma {:induction false} LerpStep(a: LatLon, b: LatLon, j: nat, n: nat, ltol: real)
    requires n >= 1 && LDist2(a, b) < Square(Mul(n as real, ltol))
    ensures LDist2(Lerp(a, b, j, n), Lerp(a, b, j + 1, n)) < Square(ltol)
  {
    var N := n as real;
    var v := StepOf(a, b, n);
    var p, q := Lerp(a, b, j, n), Lerp(a, b, j + 1, n);
    assert p.lat - q.lat == -v.lat && p.lon - q.lon == -v.lon;
    SquareNeg(v.lat);
    SquareNeg(v.lon);
    assert LDist2(p, q) == Square(v.lat) + Square(v.lon);
    DivMul(b.lat - a.lat, N);
    DivMul(b.lon - a.lon, N);
    SquareMul(N, v.lat);
    SquareMul(N, v.lon);
    SquareNeg(b.lat - a.lat);
    SquareNeg(b.lon - a.lon);
    MulAdd(Square(N), Square(v.lat), Square(v.lon));
    assert LDist2(a, b) == Mul(Square(N), LDist2(p, q));
    SquareScaled(n, ltol);
    MulPositive(N, N);
    MulCancel(Square(N), LDist2(p, q), Square(ltol));
  }

  lemma {:induction false} LerpEnds(a: LatLon, b: LatLon, n: nat)
    requires n >= 1
    ensures Lerp(a, b, 0, n) == a && Lerp(a, b, n, n) == b
  {
    DivMul(b.lat - a.lat, n as real);
    DivMul(b.lon - a.lon, n as real);
  }

  /** Every step from `a` through the points appended for a segment is
      shorter than the tolerance. */
  lemma {:induction false} SegmentSteps(a: LatLon, b: LatLon, ltol: real)
    requires ltol > 0.0
    ensures StepsWithin([a] + Segment(a, b, ltol), Square(ltol))
  {
    var path := [a] + Segment(a, b, ltol);
    var d2 := LDist2(a, b);
    if d2 >= Square(ltol) {
      var n := SegmentCount(d2, ltol);
      LerpEnds(a, b, n);
      assert forall k :: 0 <= k <= n ==> path[k] == Lerp(a, b, k, n);
      forall k | 0 <= k < |path| - 1
        ensures StepWithin(path, k, Square(ltol))
      {
        LerpStep(a, b, k, n, ltol);
      }
    }
  }

  lemma {:induction false} StepsConcat(p: seq<LatLon>, q: seq<LatLon>, thr: real)
    requires |p| > 0 && StepsWithin(p, thr) && StepsWithin([Last(p)] + q, thr)
    ensures StepsWithin(p + q, thr)
  {
    var r := p + q;
    forall k | 0 <= k < |r| - 1
      ensures StepWithin(r, k, thr)
    {
      if k < |p| - 1 {
        assert StepWithin(p, k, thr);
      } else {
        var t := k - (|p| - 1);
        assert StepWithin([Last(p)] + q, t, thr);
        assert ([Last(p)] + q)[t] == r[k] && ([Last(p)] + q)[t + 1] == r[k + 1];
      }
    }
  }

  /** The promise of `interp_shape`: consecutive points of the densified
      shape are closer than the tolerance. */
  lemma {:induction false} DensifySpacing(s: seq<LatLon>, ltol: real)
    requires |s| > 0 && ltol > 0.0
    ensures StepsWithin(Densify(s, ltol), Square(ltol))
  {
    if |s| > 1 {
      var s' := s[..|s| - 1];
      DensifySpacing(s', ltol);
      SegmentSteps(s[|s| - 2], Last(s), ltol);
      StepsConcat(Densify(s', ltol), Segment(s[|s| - 2], Last(s), ltol), Square(ltol));
    }
  }

  /** `list(range(start, n)) + list(range(0, start))`: the order in which
      the points of the densified shape are tried, from the last match on. */
  function SearchOrder(start: nat, n: nat): seq<nat>
    requires start <= n
  {
    seq(n - start, k requires 0 <= k < n - start => start + k) + seq(start, k => k)
  }

  /** The search order tries every index below `n` exactly once, whatever
      the starting point. */
  lemma {:induction false} SearchOrderVisitsAll(start: nat, n: nat)
    requires start <= n
    ensures |SearchOrder(start, n)| == n
    ensures forall t :: 0 <= t < n ==> SearchOrder(start, n)[t] < n
    ensures forall m :: 0 <= m < n ==> m in SearchOrder(start, n)
    ensures forall t, t' :: 0 <= t < t' < n ==> SearchOrder(start, n)[t] != SearchOrder(start, n)[t']
  {
    var r := SearchOrder(start, n);
    forall m | 0 <= m < n
      ensures m in r
    {
      if m >= start {
        assert r[m - start] == m;
      } else {
        assert r[n - start + m] == m;
      }
    }
  }

  /** Some point of `p` is closer to `x` than the threshold. */
  predicate Near(x: LatLon, p: seq<LatLon>, thr: real)
  {
    exists m :: 0 <= m < |p| && LDist2(x, p[m]) < thr
  }

  function Flag(x: LatLon, p: seq<LatLon>, thr: real): int
  {
    if Near(x, p, thr) then 1 else 0
  }

  /** The scanning loop of util.test_shape_overlap: one 0/1 entry per point of
      `s1`, set exactly when some point of `p` is within the threshold. Where
      the search starts changes only which match is found, not the entry. */
  method Overlaps(s1: seq<LatLon>, p: seq<LatLon>, thr: real) returns (overlaps: seq<int>)
    ensures |overlaps| == |s1|
    ensures forall i :: 0 <= i < |s1| ==> overlaps[i] == Flag(s1[i], p, thr)
  {
    var startm := 0;
    overlaps := [];
    for i := 0 to |s1|
      invariant startm <= |p|
      invariant |overlaps| == i
      invariant forall k :: 0 <= k < i ==> overlaps[k] == Flag(s1[k], p, thr)
    {
      var s := s1[i];
      var found := false;
      var order := SearchOrder(startm, |p|);
      SearchOrderVisitsAll(startm, |p|);
      for t := 0 to |order|
        invariant !found
        invariant forall t' :: 0 <= t' < t ==> LDist2(s, p[order[t']]) >= thr
      {
        var m := order[t];
        if LDist2(s, p[m]) < thr {
          found := true;
          startm := m;
          break;
        }
      }
      if found {
        overlaps := overlaps + [1];
      } else {
        assert !Near(s, p, thr) by {
          forall m | 0 <= m < |p|
            ensures LDist2(s, p[m]) >= thr
          {
            assert m in order;
            var t :| 0 <= t < |order| && order[t] == m;
          }
        }
        overlaps := overlaps + [0];
      }
    }
  }

  /** What `test_shape_overlap` returns: the list of 0/1 entries, or their
      mean. */
  datatype Score = Flags(flags: seq<int>) | Fraction(value: real)

  /** The outcome of `test_shape_overlap(s1, s2, tol, return_list)`, with `h`
      the half tolerance in degrees: `s2` is densified with tolerance `h` and
      a point of `s1` counts when it is closer than `h` to a densified point.
      An empty `s1` divides by zero when the mean is asked for. */
  function OverlapScore(s1: seq<LatLon>, s2: seq<LatLon>, h: real, returnList: bool): Result<Score>
    requires h >= 0.0
  {
    match Interpolated(s2, h)
    case Err(e) => Err(e)
    case Ok(p) =>
      var flags := seq(|s1|, i requires 0 <= i < |s1| => Flag(s1[i], p, Square(h)));
      if returnList then Ok(Flags(flags))
      else if |s1| == 0 then Err(ZeroDivisionError)
      else Ok(Fraction(Sum(flags) as real / |s1| as real))
  }

  /** util.test_shape_overlap. */
  method TestShapeOverlap(s1: seq<LatLon>, s2: seq<LatLon>, h: real, returnList: bool) returns (r: Result<Score>)
    requires h >= 0.0
    ensures r == OverlapScore(s1, s2, h, returnList)
  {
    var p := InterpShape(s2, h);
    if p.Err? {
      return Err(p.error);
    }
    var ltol2 := Square(h);
    var overlaps := Overlaps(s1, p.value, ltol2);
    assert overlaps == seq(|s1|, i requires 0 <= i < |s1| => Flag(s1[i], p.value, Square(h)));
    if returnList {
      return Ok(Flags(overlaps));
    }
    if |s1| == 0 {
      return Err(ZeroDivisionError);
    }
    r := Ok(Fraction(Sum(overlaps) as real / |s1| as real));
  }

  lemma {:induction false} FractionBounds(a: int, b: int)
    requires 0 <= a <= b && b > 0
    ensures 0.0 <= a as real / b as real <= 1.0
    ensures a == b ==> a as real / b as real == 1.0
  {
  }

  /** The list form has one 0/1 entry per point of `s1`; the mean lies in
      [0, 1] and needs at least one point. */
  lemma {:induction false} ScoreBounds(s1: seq<LatLon>, s2: seq<LatLon>, h: real)
    requires h >= 0.0 && Interpolated(s2, h).Ok?
    ensures OverlapScore(s1, s2, h, true).Ok? && OverlapScore(s1, s2, h, true).value.Flags?
    ensures var f := OverlapScore(s1, s2, h, true).value.flags;
      |f| == |s1| && forall i :: 0 <= i < |f| ==> f[i] == 0 || f[i] == 1
    ensures OverlapScore(s1, s2, h, false).Ok? <==> |s1| > 0
    ensures OverlapScore(s1, s2, h, false).Ok? ==>
      OverlapScore(s1, s2, h, false).value.Fraction? &&
      0.0 <= OverlapScore(s1, s2, h, false).value.value <= 1.0
  {
    var f := OverlapScore(s1, s2, h, true).value.flags;
    SumOfFlags(f);
    if |s1| > 0 {
      FractionBounds(Sum(f), |s1|);
    }
  }

  /** With a positive tolerance a shape overlaps itself completely: every
      point of it is kept by the densification and is at distance 0 from
      itself. */
  lemma {:induction false} SelfOverlap(s: seq<LatLon>, h: real)
    requires |s| > 0 && h > 0.0
    ensures OverlapScore(s, s, h, false) == Ok(Fraction(1.0))
  {
    var p := Densify(s, h);
    DensifyKeepsPoints(s, h);
    MulPositive(h, h);
    var f := seq(|s|, i requires 0 <= i < |s| => Flag(s[i], p, Square(h)));
    forall i | 0 <= i < |s|
      ensures f[i] == 1
    {
      assert LDist2(s[i], p[Pos(s, h, i)]) < Square(h);
    }
    SumOfOnes(f);
    FractionBounds(|s|, |s|);
  }

  /** With a zero tolerance a reference shape of two or more points divides
      by zero, and a one-point reference matches nothing. */
  lemma {:induction false} ZeroTolerance(s1: seq<LatLon>, s2: seq<LatLon>)
    requires |s2| > 0
    ensures |s2| >= 2 ==> OverlapScore(s1, s2, 0.0, true) == Err(ZeroDivisionError)
    ensures |s2| == 1 ==> OverlapScore(s1, s2, 0.0, true) == Ok(Flags(seq(|s1|, _ => 0)))
  {
    if |s2| == 1 {
      var p := Densify(s2, 0.0);
      var f := seq(|s1|, i requires 0 <= i < |s1| => Flag(s1[i], p, Square(0.0)));
      assert forall i :: 0 <= i < |s1| ==> !Near(s1[i], p, Square(0.0));
      assert f == seq(|s1|, _ => 0);
    }
  }
}
