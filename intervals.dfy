/** util.arrivals2intervals: service intervals at a stop, split into normal,
    peak and night hours. */
module Intervals {

  import opened Seqs

  /** An hour window `(start, end)`, both ends included. */
  type Window = (int, int)

  /** The three lists of intervals, in minutes. */
  datatype Split = Split(normal: seq<int>, peak: seq<int>, night: seq<int>)

  datatype Class = Normal | Peak | Night

  const SecondsPerHour := 3600
  const SecondsPerDay := 24 * 3600

  /** `[(3600*h[0], 3600*h[1]) for h in hours]`: windows in seconds. */
  function InSeconds(hours: seq<Window>): seq<Window>
  {
    seq(|hours|, k requires 0 <= k < |hours| => (SecondsPerHour * hours[k].0, SecondsPerHour * hours[k].1))
  }

  predicate InWindow(t: int, w: Window)
  {
    w.0 <= t <= w.1
  }

  predicate InAny(t: int, windows: seq<Window>)
  {
    exists k :: 0 <= k < |windows| && InWindow(t, windows[k])
  }

  /** An arrival time of the next day (at or after 24:00) taken back into
      the day. */
  function TimeOfDay(arrival: int): int
  {
    if arrival < SecondsPerDay then arrival else arrival - SecondsPerDay
  }

  /** Peak windows are tried before night windows; an interval in neither
      is normal. An empty window list matches nothing. */
  function Classify(t: int, peakhours: seq<Window>, nighthours: seq<Window>): (c: Class)
    ensures c == Peak <==> InAny(t, InSeconds(peakhours))
    ensures c == Night <==> !InAny(t, InSeconds(peakhours)) && InAny(t, InSeconds(nighthours))
  {
    if InAny(t, InSeconds(peakhours)) then Peak
    else if InAny(t, InSeconds(nighthours)) then Night
    else Normal
  }

  /** Interval `i` in whole minutes. Python's `//` rounds toward minus
      infinity, which for the positive divisor 60 is Dafny's `/`. */
  function Interval(arrivals: seq<int>, i: nat): int
    requires i + 1 < |arrivals|
  {
    (arrivals[i + 1] - arrivals[i]) / 60
  }

  function ClassOf(arrivals: seq<int>, i: nat, peakhours: seq<Window>, nighthours: seq<Window>): Class
    requires i < |arrivals|
  {
    Classify(TimeOfDay(arrivals[i]), peakhours, nighthours)
  }

  /** The intervals among the first `n` whose class is `c`, in arrival order. */
  function Bucket(arrivals: seq<int>, n: nat, peakhours: seq<Window>, nighthours: seq<Window>, c: Class): (r: seq<int>)
    requires n < |arrivals| || n == 0
    ensures |r| <= n
  {
    if n == 0 then []
    else
      if ClassOf(arrivals, n - 1, peakhours, nighthours) == c
      then Bucket(arrivals, n - 1, peakhours, nighthours, c) + [Interval(arrivals, n - 1)]
      else Bucket(arrivals, n - 1, peakhours, nighthours, c)
  }

  /** All intervals, in arrival order. */
  function AllIntervals(arrivals: seq<int>, n: nat): (r: seq<int>)
    requires n < |arrivals| || n == 0
    ensures |r| == n
  {
    if n == 0 then [] else AllIntervals(arrivals, n - 1) + [Interval(arrivals, n - 1)]
  }

  function Count(arrivals: seq<int>): nat
  {
    if |arrivals| == 0 then 0 else |arrivals| - 1
  }

  /** The value `arrivals2intervals` returns: each list sorted ascending. */
  function Intervals(arrivals: seq<int>, peakhours: seq<Window>, nighthours: seq<Window>): Split
  {
    var n := Count(arrivals);
    Split(SortAscending(Bucket(arrivals, n, peakhours, nighthours, Normal)),
          SortAscending(Bucket(arrivals, n, peakhours, nighthours, Peak)),
          SortAscending(Bucket(arrivals, n, peakhours, nighthours, Night)))
  }

  /** util.arrivals2intervals. `None` for the hours is the empty list: the
      source treats both alike. */
  method Arrivals2Intervals(arrivals: seq<int>, peakhours: seq<Window>, nighthours: seq<Window>)
    returns (r: Split)
    ensures r == Intervals(arrivals, peakhours, nighthours)
  {
    var peak := InSeconds(peakhours);
    var night := InSeconds(nighthours);
    var inorms, ipeaks, inights := [], [], [];
    for i := 0 to Count(arrivals)
      invariant inorms == Bucket(arrivals, i, peakhours, nighthours, Normal)
      invariant ipeaks == Bucket(arrivals, i, peakhours, nighthours, Peak)
      invariant inights == Bucket(arrivals, i, peakhours, nighthours, Night)
    {
      var ival := (arrivals[i + 1] - arrivals[i]) / 60;
      var tval := if arrivals[i] < SecondsPerDay then arrivals[i] else arrivals[i] - SecondsPerDay;
      if |peak| > 0 && exists k :: 0 <= k < |peak| && InWindow(tval, peak[k]) {
        ipeaks := ipeaks + [ival];
      } else if |night| > 0 && exists k :: 0 <= k < |night| && InWindow(tval, night[k]) {
        inights := inights + [ival];
      } else {
        inorms := inorms + [ival];
      }
    }
    r := Split(SortAscending(inorms), SortAscending(ipeaks), SortAscending(inights));
  }

  /** Every interval lands in exactly one of the three lists: together they
      are the intervals between consecutive arrivals, so their lengths add up
      to one less than the number of arrivals. */
  lemma {:induction false} BucketsPartition(arrivals: seq<int>, n: nat, peakhours: seq<Window>, nighthours: seq<Window>)
    requires n < |arrivals| || n == 0
    ensures multiset(Bucket(arrivals, n, peakhours, nighthours, Normal)) +
            multiset(Bucket(arrivals, n, peakhours, nighthours, Peak)) +
            multiset(Bucket(arrivals, n, peakhours, nighthours, Night)) ==
            multiset(AllIntervals(arrivals, n))
  {
    if n > 0 {
      BucketsPartition(arrivals, n - 1, peakhours, nighthours);
      var x := Interval(arrivals, n - 1);
      MultisetExtendOne(Bucket(arrivals, n - 1, peakhours, nighthours, Normal),
                        Bucket(arrivals, n - 1, peakhours, nighthours, Peak),
                        Bucket(arrivals, n - 1, peakhours, nighthours, Night),
                        AllIntervals(arrivals, n - 1),
                        Bucket(arrivals, n, peakhours, nighthours, Normal),
                        Bucket(arrivals, n, peakhours, nighthours, Peak),
                        Bucket(arrivals, n, peakhours, nighthours, Night), x);
    }
  }

  /** Appending `x` to one of three parts of a multiset appends it to the
      whole. */
  lemma {:induction false} MultisetExtendOne(a: seq<int>, b: seq<int>, c: seq<int>, all: seq<int>,
                                             a': seq<int>, b': seq<int>, c': seq<int>, x: int)
    requires multiset(a) + multiset(b) + multiset(c) == multiset(all)
    requires (a' == a + [x] && b' == b && c' == c) || (a' == a && b' == b + [x] && c' == c) ||
             (a' == a && b' == b && c' == c + [x])
    ensures multiset(a') + multiset(b') + multiset(c') == multiset(all + [x])
  {
  }

  /** The three returned lists are sorted, hold between them every interval
      exactly once, and number `max(0, len(arrivals) - 1)` in total. */
  lemma {:induction false} IntervalsPartition(arrivals: seq<int>, peakhours: seq<Window>, nighthours: seq<Window>)
    ensures var r := Intervals(arrivals, peakhours, nighthours);
      Ascending(r.normal) && Ascending(r.peak) && Ascending(r.night) &&
      multiset(r.normal) + multiset(r.peak) + multiset(r.night) == multiset(AllIntervals(arrivals, Count(arrivals))) &&
      |r.normal| + |r.peak| + |r.night| == Count(arrivals)
  {
    var r := Intervals(arrivals, peakhours, nighthours);
    var n := Count(arrivals);
    BucketsPartition(arrivals, n, peakhours, nighthours);
    assert |multiset(r.normal)| == |r.normal| && |multiset(r.peak)| == |r.peak| && |multiset(r.night)| == |r.night|;
    assert |multiset(AllIntervals(arrivals, n))| == n;
  }

  /** Without peak hours the peak list is empty (not `None`), and likewise
      for night hours. */
  lemma {:induction false} NoHoursEmptyBucket(arrivals: seq<int>, n: nat, peakhours: seq<Window>, nighthours: seq<Window>)
    requires n < |arrivals| || n == 0
    ensures |peakhours| == 0 ==> Bucket(arrivals, n, peakhours, nighthours, Peak) == []
    ensures |nighthours| == 0 ==> Bucket(arrivals, n, peakhours, nighthours, Night) == []
  {
    if n > 0 {
      NoHoursEmptyBucket(arrivals, n - 1, peakhours, nighthours);
    }
  }

  lemma {:induction false} NoHoursEmpty(arrivals: seq<int>, peakhours: seq<Window>, nighthours: seq<Window>)
    ensures |peakhours| == 0 ==> Intervals(arrivals, peakhours, nighthours).peak == []
    ensures |nighthours| == 0 ==> Intervals(arrivals, peakhours, nighthours).night == []
  {
    NoHoursEmptyBucket(arrivals, Count(arrivals), peakhours, nighthours);
  }

  /** An interval goes to the list of its class: a value in the peak list is
      the interval after an arrival in a peak window. */
  lemma {:induction false} BucketMembers(arrivals: seq<int>, n: nat, peakhours: seq<Window>, nighthours: seq<Window>, c: Class)
    requires n < |arrivals| || n == 0
    ensures forall x :: x in Bucket(arrivals, n, peakhours, nighthours, c) ==>
      exists i :: 0 <= i < n && ClassOf(arrivals, i, peakhours, nighthours) == c && Interval(arrivals, i) == x
  {
    if n > 0 {
      BucketMembers(arrivals, n - 1, peakhours, nighthours, c);
    }
  }
}
