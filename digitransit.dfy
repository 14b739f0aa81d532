/** The pure parts of the Digitransit client: hour windows and Reittiopas
    links. */
module Digitransit {

  import opened Outcomes
  import opened Strs

  /** An hour window `(start, end)`; it runs past midnight when start > end. */
  type Window = (int, int)

  /** The accepted range: a start in [0, 24), an end in [0, 24]. */
  predicate ValidWindow(v: Window)
  {
    0 <= v.0 < 24 && 0 <= v.1 <= 24
  }

  predicate Wraps(v: Window)
  {
    v.0 > v.1
  }

  /** What one window becomes: a window past midnight is cut there. */
  function Pieces(v: Window): (r: seq<Window>)
    ensures |r| == if Wraps(v) then 2 else 1
  {
    if Wraps(v) then [(v.0, 24), (0, v.1)] else [v]
  }

  /** The pieces of the first `n` windows, in order. */
  function PiecesOf(hours: seq<Window>, n: nat): seq<Window>
    requires n <= |hours|
  {
    if n == 0 then [] else PiecesOf(hours, n - 1) + Pieces(hours[n - 1])
  }

  /** The value `normalize_hours` returns. `None` (the constructor's default)
      cannot be iterated: TypeError. */
  function NormalizedHours(hours: Option<seq<Window>>): Result<seq<Window>>
  {
    match hours
    case None => Err(TypeError)
    case Some(h) =>
      if forall i :: 0 <= i < |h| ==> ValidWindow(h[i]) then Ok(PiecesOf(h, |h|))
      else Err(ValueError)
  }

  /** Digitransit.normalize_hours. */
  method NormalizeHours(hours: Option<seq<Window>>) returns (r: Result<seq<Window>>)
    ensures r == NormalizedHours(hours)
  {
    if hours.None? {
      return Err(TypeError);
    }
    var h := hours.value;
    var outhours := [];
    for i := 0 to |h|
      invariant outhours == PiecesOf(h, i)
      invariant forall j :: 0 <= j < i ==> ValidWindow(h[j])
    {
      var v := h[i];
      if !(v.0 < 24 && v.0 >= 0 && v.1 <= 24 && v.1 >= 0) {
        return Err(ValueError);
      }
      if v.0 > v.1 {
        outhours := outhours + [(v.0, 24)];
        outhours := outhours + [(0, v.1)];
      } else {
        outhours := outhours + [v];
      }
    }
    return Ok(outhours);
  }

  /** The number of windows among the first `n` that run past midnight. */
  function WrapCount(hours: seq<Window>, n: nat): nat
    requires n <= |hours|
  {
    if n == 0 then 0 else WrapCount(hours, n - 1) + (if Wraps(hours[n - 1]) then 1 else 0)
  }

  /** The hour `t` of the day lies in window `v`, read with midnight
      wrap-around. */
  predicate Covers(v: Window, t: int)
  {
    if Wraps(v) then v.0 <= t || t <= v.1 else v.0 <= t <= v.1
  }

  predicate InWindow(t: int, w: Window)
  {
    w.0 <= t <= w.1
  }

  /** Each window gives one piece, a window past midnight two. */
  lemma {:induction false} PiecesOfLength(hours: seq<Window>, n: nat)
    requires n <= |hours|
    ensures |PiecesOf(hours, n)| == n + WrapCount(hours, n)
  {
    if n > 0 {
      PiecesOfLength(hours, n - 1);
    }
  }

  /** The pieces of valid windows do not wrap and lie inside the day. */
  lemma {:induction false} PiecesOfBounds(hours: seq<Window>, n: nat)
    requires n <= |hours|
    requires forall i :: 0 <= i < n ==> ValidWindow(hours[i])
    ensures forall k :: 0 <= k < |PiecesOf(hours, n)| ==>
      0 <= PiecesOf(hours, n)[k].0 <= PiecesOf(hours, n)[k].1 <= 24
  {
    if n > 0 {
      PiecesOfBounds(hours, n - 1);
      var prev := PiecesOf(hours, n - 1);
      var last := Pieces(hours[n - 1]);
      assert PiecesOf(hours, n) == prev + last;
      assert ValidWindow(hours[n - 1]);
    }
  }

  /** An hour in one of the pieces lies in one of the windows. */
  lemma {:induction false} PieceCovered(hours: seq<Window>, n: nat, t: int, k: nat)
    requires n <= |hours| && k < |PiecesOf(hours, n)| && InWindow(t, PiecesOf(hours, n)[k])
    ensures exists i :: 0 <= i < n && Covers(hours[i], t)
  {
    var prev, last := PiecesOf(hours, n - 1), Pieces(hours[n - 1]);
    assert PiecesOf(hours, n) == prev + last;
    if k < |prev| {
      assert PiecesOf(hours, n)[k] == prev[k];
      PieceCovered(hours, n - 1, t, k);
    } else {
      assert PiecesOf(hours, n)[k] == last[k - |prev|];
      assert Covers(hours[n - 1], t);
    }
  }

  /** An hour of the day in one of the windows lies in one of its pieces. */
  lemma {:induction false} WindowCovered(hours: seq<Window>, n: nat, t: int, i: nat)
    requires i < n <= |hours| && 0 <= t <= 24 && Covers(hours[i], t)
    ensures exists k :: 0 <= k < |PiecesOf(hours, n)| && InWindow(t, PiecesOf(hours, n)[k])
  {
    PiecesOfOrder(hours, i, n);
    var a, p, c := PiecesOf(hours, i), Pieces(hours[i]), PiecesOf(hours, n);
    var j := if Wraps(hours[i]) && t < hours[i].0 then 1 else 0;
    assert InWindow(t, p[j]);
    assert c[|a| + j] == c[..|a + p|][|a| + j] == p[j];
  }

  /** An hour of the day lies in some piece exactly when it lies in some
      window, read with wrap-around. */
  lemma {:induction false} PiecesOfCovers(hours: seq<Window>, n: nat, t: int)
    requires n <= |hours| && 0 <= t <= 24
    ensures (exists k :: 0 <= k < |PiecesOf(hours, n)| && InWindow(t, PiecesOf(hours, n)[k])) <==>
      (exists i :: 0 <= i < n && Covers(hours[i], t))
  {
    if exists k :: 0 <= k < |PiecesOf(hours, n)| && InWindow(t, PiecesOf(hours, n)[k]) {
      var k :| 0 <= k < |PiecesOf(hours, n)| && InWindow(t, PiecesOf(hours, n)[k]);
      PieceCovered(hours, n, t, k);
    }
    if exists i :: 0 <= i < n && Covers(hours[i], t) {
      var i :| 0 <= i < n && Covers(hours[i], t);
      WindowCovered(hours, n, t, i);
    }
  }

  /** A well-formed list is normalized to non-wrapping windows inside the
      day: one more window for each window past midnight, and an hour of the
      day lies in an output window exactly when it lies in an input window,
      read with wrap-around. Any window out of range gives ValueError. */
  lemma {:induction false} NormalizedHoursSpec(hours: seq<Window>, t: int)
    requires 0 <= t <= 24
    ensures NormalizedHours(Some(hours)).Err? <==> exists i :: 0 <= i < |hours| && !ValidWindow(hours[i])
    ensures NormalizedHours(Some(hours)).Err? ==> NormalizedHours(Some(hours)).error == ValueError
    ensures NormalizedHours(Some(hours)).Ok? ==>
      var out := NormalizedHours(Some(hours)).value;
      |out| == |hours| + WrapCount(hours, |hours|) &&
      (forall k :: 0 <= k < |out| ==> 0 <= out[k].0 <= out[k].1 <= 24) &&
      ((exists k :: 0 <= k < |out| && InWindow(t, out[k])) <==>
       (exists i :: 0 <= i < |hours| && Covers(hours[i], t)))
  {
    if forall i :: 0 <= i < |hours| ==> ValidWindow(hours[i]) {
      PiecesOfLength(hours, |hours|);
      PiecesOfBounds(hours, |hours|);
      PiecesOfCovers(hours, |hours|, t);
    }
  }

  /** The pieces of the first `m` windows begin the pieces of the first `n`. */
  lemma {:induction false} PiecesOfPrefix(hours: seq<Window>, m: nat, n: nat)
    requires m <= n <= |hours|
    ensures |PiecesOf(hours, m)| <= |PiecesOf(hours, n)|
    ensures PiecesOf(hours, n)[..|PiecesOf(hours, m)|] == PiecesOf(hours, m)
  {
    if m < n {
      PiecesOfPrefix(hours, m, n - 1);
      var b := PiecesOf(hours, n - 1);
      var c := PiecesOf(hours, n);
      assert c == b + Pieces(hours[n - 1]);
      assert c[..|b|] == b;
      Seqs.PrefixTransitive(PiecesOf(hours, m), b, c);
    }
  }

  /** The output keeps the input order: the output begins with the pieces
      of the windows before window `i` followed by the pieces of window `i`. */
  lemma {:induction false} PiecesOfOrder(hours: seq<Window>, i: nat, n: nat)
    requires i < n <= |hours|
    ensures |PiecesOf(hours, i) + Pieces(hours[i])| <= |PiecesOf(hours, n)|
    ensures PiecesOf(hours, n)[..|PiecesOf(hours, i) + Pieces(hours[i])|] == PiecesOf(hours, i) + Pieces(hours[i])
  {
    PiecesOfPrefix(hours, i + 1, n);
    assert PiecesOf(hours, i + 1) == PiecesOf(hours, i) + Pieces(hours[i]);
  }

  // ------------------------------------------------------------------ links

  const LinesBase := "https://www.reittiopas.fi/linjat/"

  /** Digitransit.gtfsid2url. */
  function GtfsId2Url(gtfs: string): (r: string)
    ensures |r| == |LinesBase| + |gtfs|
    ensures r[..|LinesBase|] == LinesBase && r[|LinesBase|..] == gtfs
  {
    LinesBase + gtfs
  }

  /** The route id of a pattern code: its first two `:`-separated fields
      rejoined, "HSL:1001" for "HSL:1001:0:01". */
  function PatternRoute(code: string): string
  {
    var fields := Split(code, ':');
    Join(fields[..if |fields| < 2 then |fields| else 2], ":")
  }

  /** Digitransit.pattern2url. */
  function Pattern2Url(code: string): string
  {
    GtfsId2Url(PatternRoute(code)) + "/pysakit/" + code
  }

  /** The pattern link reads back: after the lines base comes the start of
      the pattern code up to its second `:`, and the link ends with the whole
      code. */
  lemma {:induction false} Pattern2UrlReadBack(code: string)
    ensures var r := Pattern2Url(code);
      var b := |LinesBase|;
      var route := PatternRoute(code);
      |r| == b + |route| + 9 + |code| && r[..b] == LinesBase &&
      |route| <= |code| && r[b..b + |route|] == code[..|route|] &&
      r[b + |route|..|r| - |code|] == "/pysakit/" && r[|r| - |code|..] == code
  {
    PatternRouteSpec(code);
    FourParts(LinesBase, PatternRoute(code), "/pysakit/", code);
  }

  /** Each of four concatenated strings can be sliced back out. */
  lemma {:induction false} FourParts(a: string, b: string, c: string, d: string)
    ensures var r := a + b + c + d;
      |r| == |a| + |b| + |c| + |d| && r[..|a|] == a && r[|a|..|a| + |b|] == b &&
      r[|a| + |b|..|r| - |d|] == c && r[|r| - |d|..] == d
  {
    var r := a + b + c + d;
    assert r[..|a|] == a;
    assert r[|a|..|a| + |b|] == b;
    assert r[|a| + |b|..|r| - |d|] == c;
  }

  /** The join of the first two fields, followed by the join of the rest. */
  lemma {:induction false} JoinTwo(fields: seq<string>, sep: string)
    requires |fields| > 2
    ensures Join(fields, sep) == Join(fields[..2], sep) + sep + Join(fields[2..], sep)
    ensures Join(fields[..2], sep) == fields[0] + sep + fields[1]
  {
    assert fields[..2][1..] == [fields[1]];
    assert fields[1..][1..] == fields[2..];
  }

  /** Two colon-free fields joined by `:` hold exactly one colon. */
  lemma {:induction false} OneColon(a: string, b: string)
    requires CountChar(a, ':') == 0 && CountChar(b, ':') == 0
    ensures CountChar(a + ":" + b, ':') == 1
  {
    CountCharConcat(a, ":", ':');
    CountCharConcat(a + ":", b, ':');
    assert ":"[..0] == [];
  }

  /** A colon after `a` adds one to the count. */
  lemma {:induction false} ColonAfter(a: string, rest: string)
    ensures CountChar(a + ":" + rest, ':') >= CountChar(a, ':') + 1
  {
    CountCharConcat(a, ":", ':');
    CountCharConcat(a + ":", rest, ':');
    assert ":"[..0] == [];
  }

  /** The route id is the pattern code cut just before its second `:` (or
      the whole code when it has fewer than two): a prefix of the code that
      holds at most one `:`, followed in the code by `:` or by nothing. */
  lemma {:induction false} PatternRouteSpec(code: string)
    ensures var route := PatternRoute(code);
      |route| <= |code| && code[..|route|] == route &&
      (|route| < |code| ==> code[|route|] == ':') &&
      CountChar(route, ':') <= 1 &&
      (CountChar(code, ':') <= 1 ==> route == code)
  {
    var fields := Split(code, ':');
    var route := PatternRoute(code);
    JoinSplit(code, ':');
    SplitFieldsFree(code, ':');
    if |fields| > 2 {
      JoinTwo(fields, ":");
      var rest := Join(fields[2..], ":");
      assert route == fields[0] + ":" + fields[1];
      assert code == route + ":" + rest;
      OneColon(fields[0], fields[1]);
      ColonAfter(route, rest);
      assert code[..|route|] == route;
    } else {
      assert fields[..|fields|] == fields;
      if |fields| == 2 {
        assert route == fields[0] + ":" + fields[1];
        OneColon(fields[0], fields[1]);
      }
    }
  }
}
