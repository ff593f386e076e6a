/** Arclength along a walked branch, the number of resampled segments, and
    the nearest-node sample selection. */
module Arclength {

  /** Straight-line distance between two coordinate rows (the Euclidean
      square root is outside the model, so the metric is a parameter). */
  type Metric = (int, int) -> real

  /** Cumulative length along points: entry i is the length of the polyline
      points[0..i], entry 0 is 0. */
  function Cumulative(points: seq<int>, dist: Metric): (cum: seq<real>)
    ensures |cum| == if |points| == 0 then 1 else |points|
    ensures cum[0] == 0.0
    decreases |points|
  {
    if |points| <= 1 then [0.0]
    else
      var pre := Cumulative(points[..|points| - 1], dist);
      pre + [pre[|pre| - 1] + dist(points[|points| - 2], points[|points| - 1])]
  }

  /** Each entry adds the length of one more segment. */
  lemma {:induction false} CumulativeStep(points: seq<int>, dist: Metric, i: nat)
    requires i + 1 < |points|
    ensures Cumulative(points, dist)[i + 1] == Cumulative(points, dist)[i] + dist(points[i], points[i + 1])
    decreases |points|
  {
    var n := |points|;
    var pre := points[..n - 1];
    if i + 2 < n {
      CumulativeStep(pre, dist, i);
      assert Cumulative(points, dist)[..n - 1] == Cumulative(pre, dist);
    }
  }

  /** With nonnegative segment lengths the cumulative list is nondecreasing. */
  lemma {:induction false} CumulativeNondecreasing(points: seq<int>, dist: Metric)
    requires forall i :: 0 <= i < |points| - 1 ==> dist(points[i], points[i + 1]) >= 0.0
    ensures forall i, j :: 0 <= i <= j < |Cumulative(points, dist)| ==> Cumulative(points, dist)[i] <= Cumulative(points, dist)[j]
    decreases |points|
  {
    var cum := Cumulative(points, dist);
    if |points| > 1 {
      var n := |points|;
      var pre := points[..n - 1];
      CumulativeNondecreasing(pre, dist);
      assert cum[..n - 1] == Cumulative(pre, dist);
      CumulativeStep(points, dist, n - 2);
    }
  }

  /** The arclength loop: cum is the cumulative list of points and length is
      its last entry, the total length of the branch. */
  method CumulativeLengths(points: seq<int>, dist: Metric) returns (cum: seq<real>, length: real)
    requires |points| >= 1
    ensures cum == Cumulative(points, dist)
    ensures length == cum[|cum| - 1]
  {
    length := 0.0;
    cum := [0.0];
    for i := 0 to |points| - 1
      invariant cum == Cumulative(points[..i + 1], dist)
      invariant length == cum[|cum| - 1]
    {
      length := length + dist(points[i], points[i + 1]);
      cum := cum + [length];
      assert points[..i + 2][..i + 1] == points[..i + 1];
    }
    assert points[..|points|] == points;
  }

  /** How the sample count is rounded: floor (dense ids) or ceiling (sparse ids). */
  datatype Rounding = Floor | Ceil

  /** reducedElementCount: the total length divided by the target length,
      rounded down or up (a negative quotient rounds the same way). */
  function SampleCount(mode: Rounding, length: real, target: real): (count: int)
    requires target != 0.0
    ensures mode == Floor ==> count as real <= length / target < (count + 1) as real
    ensures mode == Ceil ==> (count - 1) as real < length / target <= count as real
  {
    match mode
    case Floor => (length / target).Floor
    case Ceil => -((-(length / target)).Floor)
  }

  /** Floor rounding: a branch shorter than one target length gets no
      samples, a longer one at least one. */
  lemma FloorCount(length: real, target: real)
    requires target > 0.0 && length >= 0.0
    ensures SampleCount(Floor, length, target) >= 0
    ensures SampleCount(Floor, length, target) > 0 <==> length >= target
  {
    var q := length / target;
    assert q * target == length;
    if q >= 1.0 {
      assert q * target >= 1.0 * target;
    } else {
      assert q * target < 1.0 * target;
    }
  }

  /** Ceiling rounding: only a branch of length 0 gets no samples. */
  lemma CeilCount(length: real, target: real)
    requires target > 0.0 && length >= 0.0
    ensures SampleCount(Ceil, length, target) >= 0
    ensures SampleCount(Ceil, length, target) == 0 <==> length == 0.0
  {
    var q := length / target;
    assert q * target == length;
  }

  function Abs(x: real): real {
    if x < 0.0 then -x else x
  }

  /** The first index among the first n entries of cum whose distance to d
      is smallest (diff.index(min(diff)) over a prefix). */
  function FirstNearest(cum: seq<real>, d: real, n: nat): (k: nat)
    requires 0 < n <= |cum|
    ensures k < n
    ensures forall i :: 0 <= i < n ==> Abs(cum[k] - d) <= Abs(cum[i] - d)
    ensures forall i :: 0 <= i < k ==> Abs(cum[k] - d) < Abs(cum[i] - d)
    decreases n
  {
    if n == 1 then 0
    else
      var k := FirstNearest(cum, d, n - 1);
      if Abs(cum[n - 1] - d) < Abs(cum[k] - d) then n - 1 else k
  }

  /** The branch position retained for target distance d. */
  function Nearest(cum: seq<real>, d: real): nat
    requires |cum| > 0
  {
    FirstNearest(cum, d, |cum|)
  }

  /** diff.index(min(diff)): one pass keeping the first strictly nearer
      position. */
  method NearestIndex(cum: seq<real>, d: real) returns (k: nat)
    requires |cum| > 0
    ensures k == Nearest(cum, d)
  {
    k := 0;
    for i := 1 to |cum|
      invariant k == FirstNearest(cum, d, i)
    {
      if Abs(cum[i] - d) < Abs(cum[k] - d) {
        k := i;
      }
    }
  }

  /** A position lying exactly at the target distance is found: the first one. */
  lemma NearestExactHit(cum: seq<real>, d: real, i: nat)
    requires i < |cum| && cum[i] == d
    ensures cum[Nearest(cum, d)] == d
    ensures forall j :: 0 <= j < Nearest(cum, d) ==> cum[j] != d
  {
    var k := Nearest(cum, d);
    assert Abs(cum[k] - d) <= Abs(cum[i] - d) == 0.0;
  }

  /** The target distance of sample n when count samples share the length:
      0 for the first sample, and within the branch for samples 0 .. count. */
  function SampleDistance(length: real, count: int, n: int): (d: real)
    requires count > 0
    ensures n == 0 ==> d == 0.0
    ensures length >= 0.0 && 0 <= n <= count ==> 0.0 <= d <= length
  {
    var step := length / count as real;
    assert length >= 0.0 && 0 <= n <= count ==> step * n as real <= step * count as real == length;
    step * n as real
  }

  /** The retained nodes of a walked branch, in emission order: the branch
      start, then (when count > 0) the nearest node to each of the count
      sample distances 0, L/count, ..., and last the branch's terminal node. */
  function Retained(nodes: seq<int>, cum: seq<real>, count: int): (path: seq<int>)
    requires |nodes| == |cum| >= 1
    ensures |path| == if count > 0 then count + 2 else 2
    ensures path[0] == nodes[0] && path[|path| - 1] == nodes[|nodes| - 1]
    ensures forall i :: 0 <= i < |path| ==> path[i] in nodes
  {
    if count > 0 then [nodes[0]] + Samples(nodes, cum, count, count) + [nodes[|nodes| - 1]]
    else [nodes[0], nodes[|nodes| - 1]]
  }

  /** The nodes chosen for the first n of count samples. */
  function Samples(nodes: seq<int>, cum: seq<real>, count: int, n: nat): (s: seq<int>)
    requires |nodes| == |cum| >= 1 && 0 < count && n <= count
    ensures |s| == n
    ensures forall i :: 0 <= i < n ==> s[i] in nodes
  {
    if n == 0 then []
    else Samples(nodes, cum, count, n - 1) + [nodes[Nearest(cum, SampleDistance(cum[|cum| - 1], count, n - 1))]]
  }

  /** Sample i of Samples is the node nearest to the i-th sample distance. */
  lemma {:induction false} SamplesIndex(nodes: seq<int>, cum: seq<real>, count: int, n: nat, i: nat)
    requires |nodes| == |cum| >= 1 && 0 < count && i < n <= count
    ensures Samples(nodes, cum, count, n)[i] == nodes[Nearest(cum, SampleDistance(cum[|cum| - 1], count, i))]
    decreases n
  {
    if i < n - 1 {
      SamplesIndex(nodes, cum, count, n - 1, i);
    }
  }

  /** Sample 0 has target distance 0, which the start (cumulative length 0)
      meets exactly: a resampled branch retains its start twice, so its first
      emitted element joins the start to itself. */
  lemma FirstSampleIsStart(nodes: seq<int>, cum: seq<real>, count: int)
    requires |nodes| == |cum| >= 1 && cum[0] == 0.0 && count > 0
    ensures Retained(nodes, cum, count)[1] == nodes[0]
  {
    SamplesIndex(nodes, cum, count, count, 0);
    assert SampleDistance(cum[|cum| - 1], count, 0) == 0.0;
    NearestExactHit(cum, 0.0, 0);
  }

  /** The sampling loop of a walked branch: the start, the node nearest to
      each sample distance, the terminal node. */
  method SampleNodes(nodes: seq<int>, cum: seq<real>, count: int) returns (path: seq<int>)
    requires |nodes| == |cum| >= 1
    ensures path == Retained(nodes, cum, count)
  {
    if count > 0 {
      var length := cum[|cum| - 1];
      path := [nodes[0]];
      for n := 0 to count
        invariant path == [nodes[0]] + Samples(nodes, cum, count, n)
      {
        var k := NearestIndex(cum, SampleDistance(length, count, n));
        path := path + [nodes[k]];
      }
      path := path + [nodes[|nodes| - 1]];
    } else {
      path := [nodes[0], nodes[|nodes| - 1]];
    }
  }
}
