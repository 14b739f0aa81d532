/** taival.match_shapes: pairing up two lists of route shapes by the distance
    between their end points. */
module ShapeMatch {

  import opened Outcomes
  import opened Seqs
  import opened Geo

  /** A route shape: a list of latlon pairs. */
  type Shape = seq<LatLon>

  /** The pair of index maps returned to the caller: element 0 maps shapes1
      to shapes2, element 1 maps shapes2 back to shapes1. */
  type Maps = (seq<Option<nat>>, seq<Option<nat>>)

  /** The starting value of `mind`: any pairing at least this far apart is
      never chosen, and index 0 is kept. */
  const InitialBound: real := 10000000000.0

  predicate NonEmptyShapes(s: seq<Shape>)
  {
    forall j :: 0 <= j < |s| ==> |s[j]| > 0
  }

  /** Start-to-start plus end-to-end squared distance of two shapes. */
  function EndsDist(a: Shape, b: Shape): (d: real)
    requires |a| > 0 && |b| > 0
    ensures d >= 0.0
    ensures a[0] == b[0] && Last(a) == Last(b) ==> d == 0.0
  {
    LDist2(a[0], b[0]) + LDist2(Last(a), Last(b))
  }

  /** The `(mind, minind)` pair after the inner loop has looked at the first
      `n` candidates: the strict `<` keeps the earliest of equally near
      candidates, and nothing at or beyond the initial bound is taken. */
  function Scan(c: Shape, s2: seq<Shape>, n: nat): (r: (real, nat))
    requires |c| > 0 && n <= |s2| && forall j :: 0 <= j < n ==> |s2[j]| > 0
    ensures r.0 <= InitialBound
    ensures (r.0 == InitialBound && r.1 == 0) || (r.1 < n && r.0 == EndsDist(c, s2[r.1]) < InitialBound)
    ensures forall j :: 0 <= j < n ==> r.0 <= EndsDist(c, s2[j])
    ensures forall j :: 0 <= j < r.1 ==> r.0 < EndsDist(c, s2[j])
  {
    if n == 0 then (InitialBound, 0)
    else
      var prev := Scan(c, s2, n - 1);
      var d := EndsDist(c, s2[n - 1]);
      if d < prev.0 then (d, n - 1) else prev
  }

  /** The index `c` is mapped to: the earliest nearest candidate, or 0 when
      every candidate is at least `InitialBound` away. */
  function Nearest(c: Shape, s2: seq<Shape>): (j: nat)
    requires |c| > 0 && NonEmptyShapes(s2)
    ensures j < |s2| || j == 0
  {
    Scan(c, s2, |s2|).1
  }

  /** The arg-min property of `Nearest`, in terms of the distances alone. */
  lemma {:induction false} NearestIsArgMin(c: Shape, s2: seq<Shape>)
    requires |c| > 0 && NonEmptyShapes(s2)
    ensures var j := Nearest(c, s2);
      (exists k :: 0 <= k < |s2| && EndsDist(c, s2[k]) < InitialBound) ==>
        j < |s2| &&
        (forall k :: 0 <= k < |s2| ==> EndsDist(c, s2[j]) <= EndsDist(c, s2[k])) &&
        (forall k :: 0 <= k < j ==> EndsDist(c, s2[j]) < EndsDist(c, s2[k]))
    ensures (forall k :: 0 <= k < |s2| ==> EndsDist(c, s2[k]) >= InitialBound) ==> Nearest(c, s2) == 0
  {
    var r := Scan(c, s2, |s2|);
    if exists k :: 0 <= k < |s2| && EndsDist(c, s2[k]) < InitialBound {
      var k :| 0 <= k < |s2| && EndsDist(c, s2[k]) < InitialBound;
      assert r.0 < InitialBound;
    }
  }

  predicate NonEmptyBefore(s1: seq<Shape>, n: int)
    requires n <= |s1|
  {
    forall k :: 0 <= k < n ==> |s1[k]| > 0
  }

  /** How many entries of the forward map the outer loop fills: up to and
      including the first empty shape, where it breaks, or all of them. */
  function Filled(s1: seq<Shape>): (n: nat)
    ensures n <= |s1|
    ensures NonEmptyBefore(s1, n - 1)
    ensures n < |s1| ==> n > 0 && |s1[n - 1]| == 0
  {
    FilledFrom(s1, 0)
  }

  function FilledFrom(s1: seq<Shape>, i: nat): (n: nat)
    requires i <= |s1| && NonEmptyBefore(s1, i)
    ensures i <= n <= |s1|
    ensures NonEmptyBefore(s1, n - 1)
    ensures n < |s1| ==> n > i && |s1[n - 1]| == 0
    decreases |s1| - i
  {
    if i == |s1| then i
    else if |s1[i]| == 0 then i + 1
    else FilledFrom(s1, i + 1)
  }

  /** `Filled` is the only count with its two properties. */
  lemma {:induction false} FilledIs(s1: seq<Shape>, n: nat)
    requires n <= |s1| && NonEmptyBefore(s1, n - 1)
    requires n < |s1| ==> n > 0 && |s1[n - 1]| == 0
    ensures Filled(s1) == n
  {
  }

  /** The forward map is only cut short when an empty shape stands before the
      last position. */
  lemma {:induction false} FilledAll(s1: seq<Shape>)
    ensures Filled(s1) == |s1| <==> NonEmptyBefore(s1, |s1| - 1)
  {
    var n := Filled(s1);
    if n < |s1| {
      assert |s1[n - 1]| == 0 && n - 1 < |s1| - 1;
    }
  }

  /** Position `k` of the forward map holds the nearest candidate to `s1[k]`. */
  predicate MapsToNearest(s1: seq<Shape>, s2: seq<Shape>, k: nat, v: Option<nat>)
    requires k < |s1|
  {
    |s1[k]| > 0 && NonEmptyShapes(s2) && v == Some(Nearest(s1[k], s2))
  }

  /** The value the outer loop stores at position `k`. */
  function Pick(s1: seq<Shape>, s2: seq<Shape>, k: nat): nat
    requires k < |s1| && (|s1[k]| > 0 ==> NonEmptyShapes(s2))
  {
    if |s1[k]| == 0 then 0 else Nearest(s1[k], s2)
  }

  /** The filled part of `m1to2` for a call that raised no IndexError. */
  function Forward(s1: seq<Shape>, s2: seq<Shape>): (f: seq<nat>)
    requires |s1| <= |s2|
    requires |s1| > 0 && |s1[0]| > 0 ==> NonEmptyShapes(s2)
    ensures |f| == Filled(s1)
    ensures forall k :: 0 <= k < |f| ==> f[k] < |s2|
  {
    seq(Filled(s1), k requires 0 <= k < Filled(s1) => Pick(s1, s2, k))
  }

  /** `m2to1` after the inverting loop over `f`: each target records the last
      position that maps to it, and untargeted positions stay `None`. */
  function Inverse(f: seq<nat>, n: nat): (r: seq<Option<nat>>)
    requires forall k :: 0 <= k < |f| ==> f[k] < n
    ensures |r| == n
    ensures forall j :: 0 <= j < n ==> (r[j] == None <==> j !in f)
    ensures forall j :: 0 <= j < n && r[j].Some? ==>
      r[j].value < |f| && f[r[j].value] == j &&
      forall i :: r[j].value < i < |f| ==> f[i] != j
  {
    if |f| == 0 then seq(n, _ => None)
    else
      var prev := Inverse(f[..|f| - 1], n);
      assert f == f[..|f| - 1] + [Last(f)];
      prev[Last(f) := Some(|f| - 1)]
  }

  function Somes(f: seq<nat>): (r: seq<Option<nat>>)
    ensures |r| == |f| && forall k :: 0 <= k < |f| ==> r[k] == Some(f[k])
  {
    seq(|f|, k requires 0 <= k < |f| => Some(f[k]))
  }

  /** The outcome of the matching with `s1` as the shorter ("from") side. */
  function OneWay(s1: seq<Shape>, s2: seq<Shape>): Result<Maps>
    requires |s1| <= |s2|
  {
    if |s1| > 0 && |s1[0]| > 0 && !NonEmptyShapes(s2) then Err(IndexError)
    else if Filled(s1) < |s1| then Err(TypeError)
    else
      var f := Forward(s1, s2);
      Ok((Somes(f), Inverse(f, |s2|)))
  }

  function Swapped(r: Result<Maps>): Result<Maps>
  {
    if r.Ok? then Ok((r.value.1, r.value.0)) else r
  }

  /** The outcome of `match_shapes(shapes1, shapes2)`: the shorter list (on a
      tie, `shapes1`) is matched onto the longer one, and the pair is put back
      into the caller's order. */
  function Matching(shapes1: seq<Shape>, shapes2: seq<Shape>): Result<Maps>
  {
    if |shapes1| > |shapes2| then Swapped(OneWay(shapes2, shapes1))
    else OneWay(shapes1, shapes2)
  }

  /** taival.match_shapes. */
  method MatchShapes(shapes1: seq<Shape>, shapes2: seq<Shape>) returns (r: Result<Maps>)
    ensures r == Matching(shapes1, shapes2)
  {
    var swap := |shapes1| > |shapes2|;
    var s1, s2 := shapes1, shapes2;
    if swap {
      s1, s2 := shapes2, shapes1;
    }
    var m1to2 := MapForward(s1, s2);
    if m1to2.None? {
      return Err(IndexError);
    }
    ghost var f := Forward(s1, s2);
    var m2to1 := Invert(m1to2.value, f, |s2|);
    if m2to1.None? {
      return Err(TypeError);
    }
    assert m1to2.value == Somes(f);
    if swap {
      r := Ok((m2to1.value, m1to2.value));
    } else {
      r := Ok((m1to2.value, m2to1.value));
    }
  }

  /** The outer loop of taival.match_shapes, filling `m1to2` in place; `None`
      stands for the IndexError raised on an empty shape of `s2`. */
  method MapForward(s1: seq<Shape>, s2: seq<Shape>) returns (r: Option<seq<Option<nat>>>)
    requires |s1| <= |s2|
    ensures r.None? <==> |s1| > 0 && |s1[0]| > 0 && !NonEmptyShapes(s2)
    ensures r.Some? ==> |r.value| == |s1|
    ensures r.Some? ==> forall k :: 0 <= k < |s1| ==>
      r.value[k] == if k < Filled(s1) then Some(Forward(s1, s2)[k]) else None
  {
    var m1to2: seq<Option<nat>> := seq(|s1|, _ => None);
    var i := 0;
    while i < |s1|
      invariant i <= |s1| == |m1to2| && NonEmptyBefore(s1, i)
      invariant i > 0 ==> NonEmptyShapes(s2)
      invariant forall k :: 0 <= k < i ==> MapsToNearest(s1, s2, k, m1to2[k])
      invariant forall k :: i <= k < |s1| ==> m1to2[k] == None
    {
      if |s1[i]| == 0 {
        m1to2 := m1to2[i := Some(0)];
        i := i + 1;
        break;
      }
      var minind := FindNearest(s1[i], s2);
      if minind.None? {
        return None;
      }
      m1to2 := m1to2[i := minind];
      i := i + 1;
    }
    FilledIs(s1, i);
    r := Some(m1to2);
  }

  /** The inner loop of taival.match_shapes, from `cbeg`/`cend` to `minind`;
      `None` stands for the IndexError raised on an empty candidate. */
  method FindNearest(c: Shape, s2: seq<Shape>) returns (r: Option<nat>)
    requires |c| > 0
    ensures r.None? <==> !NonEmptyShapes(s2)
    ensures r.Some? ==> NonEmptyShapes(s2) && r.value == Nearest(c, s2)
  {
    var mind, minind := InitialBound, 0;
    var cbeg, cend := c[0], Last(c);
    var j := 0;
    while j < |s2|
      invariant j <= |s2| && forall k :: 0 <= k < j ==> |s2[k]| > 0
      invariant (mind, minind) == Scan(c, s2, j)
    {
      if |s2[j]| == 0 {
        return None;
      }
      var d := LDist2(cbeg, s2[j][0]) + LDist2(cend, Last(s2[j]));
      if d < mind {
        mind, minind := d, j;
      }
      j := j + 1;
    }
    r := Some(minind);
  }

  /** The inverting loop of taival.match_shapes: `m2to1[m1to2[i]] = i` for
      every `i`, where the `None` left behind by an early break raises
      TypeError (here `None`). `f` is the filled part of `m1to2`. */
  method Invert(m1to2: seq<Option<nat>>, ghost f: seq<nat>, n: nat) returns (r: Option<seq<Option<nat>>>)
    requires |f| <= |m1to2|
    requires forall k :: 0 <= k < |m1to2| ==> m1to2[k] == if k < |f| then Some(f[k]) else None
    requires forall k :: 0 <= k < |f| ==> f[k] < n
    ensures r.None? <==> |f| < |m1to2|
    ensures r.Some? ==> r.value == Inverse(f, n)
  {
    var m2to1 := new Option<nat>[n](_ => None);
    assert m2to1[..] == Inverse([], n);
    for i := 0 to |m1to2|
      invariant i <= |f|
      invariant m2to1[..] == Inverse(f[..i], n)
    {
      if m1to2[i] == None {
        return None;
      }
      m2to1[m1to2[i].value] := Some(i);
      assert f[..i + 1][..i] == f[..i];
    }
    assert f[..|m1to2|] == f;
    r := Some(m2to1[..]);
  }

  /** `inv` is the inverse map of the total map `fwd`: every entry of `fwd`
      is an index of `inv` that got an entry, every entry of `inv` points back
      to a position of `fwd` holding it (`m1to2[m2to1[j]] == j`), and an
      untouched entry of `inv` is not a value of `fwd`. */
  predicate InverseOf(fwd: seq<Option<nat>>, inv: seq<Option<nat>>)
  {
    (forall i :: 0 <= i < |fwd| ==> fwd[i].Some? && fwd[i].value < |inv| && inv[fwd[i].value].Some?) &&
    (forall j :: 0 <= j < |inv| && inv[j].Some? ==> inv[j].value < |fwd| && fwd[inv[j].value] == Some(j)) &&
    (forall j :: 0 <= j < |inv| && inv[j].None? ==> Some(j) !in fwd)
  }

  lemma {:induction false} SomesInverse(f: seq<nat>, n: nat)
    requires forall k :: 0 <= k < |f| ==> f[k] < n
    ensures InverseOf(Somes(f), Inverse(f, n))
  {
    var a, b := Somes(f), Inverse(f, n);
    forall i | 0 <= i < |a|
      ensures b[f[i]].Some?
    {
      assert f[i] in f;
    }
  }

  /** The lengths of the two maps, and which of them is the inverse of the
      other: the shorter list's map is total and the longer list's map is
      its inverse, in whichever order the caller passed the lists. */
  lemma {:induction false} MatchingInverse(shapes1: seq<Shape>, shapes2: seq<Shape>)
    requires Matching(shapes1, shapes2).Ok?
    ensures var m := Matching(shapes1, shapes2).value;
      |m.0| == |shapes1| && |m.1| == |shapes2| &&
      (if |shapes1| <= |shapes2| then InverseOf(m.0, m.1) else InverseOf(m.1, m.0))
  {
    if |shapes1| > |shapes2| {
      FilledAll(shapes2);
      SomesInverse(Forward(shapes2, shapes1), |shapes1|);
    } else {
      FilledAll(shapes1);
      SomesInverse(Forward(shapes1, shapes2), |shapes2|);
    }
  }

  predicate Injective(fwd: seq<Option<nat>>)
  {
    forall i, i' :: 0 <= i < i' < |fwd| ==> fwd[i] != fwd[i']
  }

  /** With no two positions mapped to the same target, the inverse map undoes
      the forward map: `m2to1[m1to2[i]] == i`. */
  lemma {:induction false} InjectiveRoundTrip(fwd: seq<Option<nat>>, inv: seq<Option<nat>>)
    requires InverseOf(fwd, inv) && Injective(fwd)
    ensures forall i :: 0 <= i < |fwd| ==> inv[fwd[i].value] == Some(i)
  {
    forall i | 0 <= i < |fwd|
      ensures inv[fwd[i].value] == Some(i)
    {
      var i' := inv[fwd[i].value].value;
      assert fwd[i'] == fwd[i];
    }
  }

  /** `match_shapes` raises TypeError exactly when no shape of the longer list
      is empty (or the shorter list starts with an empty shape) and the
      shorter list has an empty shape before its last position; it raises
      IndexError exactly when the shorter list starts with a non-empty shape
      and some shape of the longer list is empty. */
  lemma {:induction false} MatchingErrors(shapes1: seq<Shape>, shapes2: seq<Shape>)
    ensures var (s1, s2) := if |shapes1| > |shapes2| then (shapes2, shapes1) else (shapes1, shapes2);
      (Matching(shapes1, shapes2) == Err(IndexError) <==>
        |s1| > 0 && |s1[0]| > 0 && !NonEmptyShapes(s2)) &&
      (Matching(shapes1, shapes2) == Err(TypeError) <==>
        !(|s1| > 0 && |s1[0]| > 0 && !NonEmptyShapes(s2)) &&
        exists k :: 0 <= k < |s1| - 1 && |s1[k]| == 0) &&
      (Matching(shapes1, shapes2).Ok? || Matching(shapes1, shapes2) == Err(IndexError) ||
        Matching(shapes1, shapes2) == Err(TypeError))
  {
    FilledAll(shapes1);
    FilledAll(shapes2);
  }
}
