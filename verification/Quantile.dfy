/** Quantile estimation from cumulative histogram buckets
    (llm_nephio_oran/observability/pipeline_metrics.py, lines 278-318), over exact reals. */
module Quantile {
  import opened Wrappers

  datatype Bound = Finite(value: real) | Infinity

  datatype Bucket = Bucket(upper: Bound, cumulative: nat)

  predicate Before(a: Bound, b: Bound) {
    a.Finite? && (b.Infinity? || a.value < b.value)
  }

  // --- sorted(buckets, key=upper bound) -----------------------------------------------------

  function Insert(b: Bucket, s: seq<Bucket>): (r: seq<Bucket>)
    ensures multiset(r) == multiset(s) + multiset{b}
  {
    if s == [] then [b]
    else if Before(s[0].upper, b.upper) then
      assert s == [s[0]] + s[1..];
      [s[0]] + Insert(b, s[1..])
    else [b] + s
  }

  function SortBuckets(s: seq<Bucket>): (r: seq<Bucket>)
    ensures multiset(r) == multiset(s)
  {
    if s == [] then []
    else
      assert s == [s[0]] + s[1..];
      Insert(s[0], SortBuckets(s[1..]))
  }

  predicate Ascending(s: seq<Bucket>) {
    forall i, j :: 0 <= i < j < |s| ==> !Before(s[j].upper, s[i].upper)
  }

  predicate StrictlyAscending(s: seq<Bucket>) {
    forall i, j :: 0 <= i < j < |s| ==> Before(s[i].upper, s[j].upper)
  }

  lemma {:induction false} InsertAscending(b: Bucket, s: seq<Bucket>)
    requires Ascending(s)
    ensures Ascending(Insert(b, s))
    decreases |s|
  {
    if s != [] && Before(s[0].upper, b.upper) {
      InsertAscending(b, s[1..]);
      var r := Insert(b, s[1..]);
      forall j | 0 <= j < |r| ensures !Before(r[j].upper, s[0].upper) {
        assert r[j] in multiset(r);
        assert r[j] == b || r[j] in s[1..];
      }
    }
  }

  lemma {:induction false} SortAscending(s: seq<Bucket>)
    ensures Ascending(SortBuckets(s))
    decreases |s|
  {
    if s != [] {
      SortAscending(s[1..]);
      InsertAscending(s[0], SortBuckets(s[1..]));
    }
  }

  lemma {:induction false} AscendingUnique(a: seq<Bucket>, b: seq<Bucket>)
    requires Ascending(a) && StrictlyAscending(b) && multiset(a) == multiset(b)
    ensures a == b
    decreases |b|
  {
    assert |a| == |multiset(a)| == |multiset(b)| == |b|;
    if b != [] {
      assert a[0] in multiset(b) && b[0] in multiset(a);
      assert a[0] == b[0];
      assert a == [a[0]] + a[1..] && b == [b[0]] + b[1..];
      assert multiset(a[1..]) == multiset(a) - multiset{a[0]};
      AscendingUnique(a[1..], b[1..]);
    }
  }

  /** Whatever order the buckets arrive in, sorting gives the one strictly ascending listing. */
  lemma SortsAnyOrder(s: seq<Bucket>, sorted: seq<Bucket>)
    requires StrictlyAscending(sorted) && multiset(s) == multiset(sorted)
    ensures SortBuckets(s) == sorted
  {
    SortAscending(s);
    AscendingUnique(SortBuckets(s), sorted);
  }

  // --- The scan -----------------------------------------------------------------------------

  /** The part of a bucket of width `w` that lies below its `t`-th of `d` observations. */
  function Share(t: real, d: real, w: real): real
    requires d != 0.0
  {
    t / d * w
  }

  function Interpolate(target: real, prevBound: real, prevCount: nat, upper: real, count: nat): real
    requires count > prevCount
  {
    prevBound + Share(target - prevCount as real, (count - prevCount) as real, upper - prevBound)
  }

  /** What the loop returns from bucket `i` on. */
  function Scan(target: real, bs: seq<Bucket>, i: nat, prevBound: real, prevCount: nat): Option<real>
    requires i <= |bs|
    decreases |bs| - i
  {
    if i == |bs| then (if prevBound > 0.0 then Some(prevBound) else None)
    else match bs[i].upper
      case Infinity =>
        if prevCount as real < target && prevBound > 0.0 then Some(prevBound)
        else Scan(target, bs, i + 1, prevBound, prevCount)
      case Finite(upper) =>
        var count := bs[i].cumulative;
        if count as real >= target then
          if count > prevCount then Some(Interpolate(target, prevBound, prevCount, upper, count)) else Some(upper)
        else Scan(target, bs, i + 1, upper, count)
  }

  /** `_histogram_quantile`. */
  method HistogramQuantile(q: real, buckets: seq<Bucket>, total: nat) returns (r: Option<real>)
    ensures r == Estimate(q, buckets, total)
    ensures total == 0 || buckets == [] ==> r == None
  {
    if total == 0 || buckets == [] {
      return None;
    }
    var sorted := SortBuckets(buckets);
    var target := Target(q, total);
    var prevBound, prevCount := 0.0, 0;
    var i := 0;
    while i < |sorted|
      invariant 0 <= i <= |sorted| && prevCount >= 0
      invariant Scan(target, sorted, 0, 0.0, 0) == Scan(target, sorted, i, prevBound, prevCount)
    {
      var b := sorted[i];
      if b.upper.Infinity? {
        if prevCount as real < target && prevBound > 0.0 {
          return Some(prevBound);
        }
      } else {
        if b.cumulative as real >= target {
          var bucketCount := b.cumulative - prevCount;
          if bucketCount > 0 {
            var fraction := (target - prevCount as real) / bucketCount as real;
            var estimate := prevBound + fraction * (b.upper.value - prevBound);
            assert fraction * (b.upper.value - prevBound)
                == Share(target - prevCount as real, bucketCount as real, b.upper.value - prevBound);
            assert estimate == Interpolate(target, prevBound, prevCount, b.upper.value, b.cumulative);
            return Some(estimate);
          }
          return Some(b.upper.value);
        }
        prevBound := b.upper.value;
        prevCount := b.cumulative;
      }
      i := i + 1;
    }
    r := if prevBound > 0.0 then Some(prevBound) else None;
  }

  function Target(q: real, total: nat): real {
    q * total as real
  }

  function Estimate(q: real, buckets: seq<Bucket>, total: nat): Option<real> {
    if total == 0 || buckets == [] then None
    else Scan(Target(q, total), SortBuckets(buckets), 0, 0.0, 0)
  }

  // --- Observations -------------------------------------------------------------------------

  /** `c` is the number of observations that are at most `u`, in an ascending listing. */
  ghost predicate CountsUpTo(obs: seq<real>, u: real, c: nat) {
    && c <= |obs|
    && (forall i :: 0 <= i < c ==> obs[i] <= u)
    && (forall i :: c <= i < |obs| ==> obs[i] > u)
  }

  /** A histogram of these observations: positive bounds, ascending, each with its cumulative count. */
  ghost predicate HistogramOf(bs: seq<Bucket>, obs: seq<real>) {
    && StrictlyAscending(bs)
    && (forall i :: 0 <= i < |bs| && bs[i].upper.Finite? ==>
          bs[i].upper.value > 0.0 && CountsUpTo(obs, bs[i].upper.value, bs[i].cumulative))
    && (forall i :: 0 <= i < |obs| ==> obs[i] >= 0.0)
  }

  function LowerBound(bs: seq<Bucket>, i: nat): real
    requires i <= |bs|
  {
    if i > 0 && bs[i - 1].upper.Finite? then bs[i - 1].upper.value else 0.0
  }

  function CountBefore(bs: seq<Bucket>, i: nat): nat
    requires i <= |bs|
  {
    if i > 0 then bs[i - 1].cumulative else 0
  }

  /** Estimate and observation are in bucket `k`, whose first bucket reaches down to zero. */
  ghost predicate BothIn(bs: seq<Bucket>, k: nat, estimate: real, v: real) {
    && k < |bs| && bs[k].upper.Finite?
    && LowerBound(bs, k) < estimate <= bs[k].upper.value
    && (if k == 0 then 0.0 <= v else LowerBound(bs, k) < v) && v <= bs[k].upper.value
  }

  /** In one bucket, with the estimate where linear interpolation puts it. */
  ghost predicate InOneBucket(bs: seq<Bucket>, target: real, estimate: real, v: real) {
    exists k: nat :: BothIn(bs, k, estimate, v) && Linear(bs, k, target, estimate)
  }

  /** The observation is above every finite bound; the estimate is the largest of them, if any. */
  ghost predicate AboveAll(bs: seq<Bucket>, estimate: Option<real>, v: real) {
    && (forall i :: 0 <= i < |bs| && bs[i].upper.Finite? ==> v > bs[i].upper.value)
    && (estimate.None? <==> forall i :: 0 <= i < |bs| ==> bs[i].upper.Infinity?)
    && (estimate.Some? ==> exists i :: 0 <= i < |bs| && bs[i].upper == Finite(estimate.value)
                                       && forall j :: i < j < |bs| ==> bs[j].upper.Infinity?)
  }

  /** `rank` is the ceiling of `target`. */
  predicate IsCeiling(rank: int, target: real) {
    (rank - 1) as real < target <= rank as real
  }

  /** The estimate divides its bucket in the same ratio as the target divides the bucket's count. */
  ghost predicate Linear(bs: seq<Bucket>, k: nat, target: real, estimate: real) {
    && k < |bs| && bs[k].upper.Finite?
    && Proportional(estimate - LowerBound(bs, k), (bs[k].cumulative - CountBefore(bs, k)) as real,
                    target - CountBefore(bs, k) as real, bs[k].upper.value - LowerBound(bs, k))
  }

  predicate Proportional(a: real, b: real, c: real, d: real) {
    a * b == c * d
  }

  lemma ShareIs(t: real, d: real, w: real)
    requires d != 0.0
    ensures Share(t, d, w) * d == t * w
  {
    var f := t / d;
    assert f * d == t;
    assert (f * w) * d == (f * d) * w;
  }

  lemma InterpolateIs(target: real, prevBound: real, prevCount: nat, upper: real, count: nat)
    requires count > prevCount
    ensures Proportional(Interpolate(target, prevBound, prevCount, upper, count) - prevBound, (count - prevCount) as real,
                         target - prevCount as real, upper - prevBound)
  {
    assert Interpolate(target, prevBound, prevCount, upper, count) - prevBound
        == Share(target - prevCount as real, (count - prevCount) as real, upper - prevBound);
    ShareIs(target - prevCount as real, (count - prevCount) as real, upper - prevBound);
  }

  lemma InterpolateInside(target: real, prevBound: real, prevCount: nat, upper: real, count: nat)
    requires prevCount as real < target <= count as real && prevBound < upper
    ensures count > prevCount
    ensures prevBound < Interpolate(target, prevBound, prevCount, upper, count) <= upper
  {
    var d := (count - prevCount) as real;
    assert d > 0.0;
    FractionInside(target - prevCount as real, d, upper - prevBound);
  }

  lemma FractionInside(t: real, d: real, w: real)
    requires 0.0 < t <= d && w > 0.0
    ensures 0.0 < Share(t, d, w) <= w
  {
    var f := t / d;
    assert f * d == t;
    assert 0.0 < f by {
      assert f <= 0.0 ==> f * d <= 0.0;
    }
    assert f <= 1.0 by {
      assert f > 1.0 ==> (f - 1.0) * d > 0.0;
    }
    assert f * w <= w by {
      assert (1.0 - f) * w >= 0.0;
    }
  }

  lemma {:induction false} ScanFindsBucket(target: real, bs: seq<Bucket>, obs: seq<real>, rank: int, i: nat)
    requires HistogramOf(bs, obs) && IsCeiling(rank, target) && 1 <= rank <= |obs|
    requires i <= |bs| && (forall j :: 0 <= j < i ==> bs[j].upper.Finite?)
    requires CountBefore(bs, i) as real < target
    ensures var e := Scan(target, bs, i, LowerBound(bs, i), CountBefore(bs, i));
            (e.Some? && InOneBucket(bs, target, e.value, obs[rank - 1])) || AboveAll(bs, e, obs[rank - 1])
    decreases |bs| - i
  {
    var v := obs[rank - 1];
    var lower, before := LowerBound(bs, i), CountBefore(bs, i);
    var e := Scan(target, bs, i, lower, before);
    assert before < rank;
    assert i > 0 ==> v > bs[i - 1].upper.value && CountsUpTo(obs, bs[i - 1].upper.value, before);
    if i == |bs| || bs[i].upper.Infinity? {
      assert i + 1 >= |bs| by {
        assert i + 1 < |bs| ==> Before(bs[i].upper, bs[i + 1].upper);
      }
      assert forall j :: 0 <= j < i ==> v > bs[j].upper.value by {
        assert forall j :: 0 <= j < i - 1 ==> Before(bs[j].upper, bs[i - 1].upper);
      }
      if i > 0 {
        assert e == Some(lower) && bs[i - 1].upper == Finite(lower);
      } else {
        assert i < |bs| ==> Scan(target, bs, i + 1, lower, before) == None;
        assert e == None;
      }
      assert AboveAll(bs, e, v);
    } else if bs[i].cumulative as real >= target {
      assert CountsUpTo(obs, bs[i].upper.value, bs[i].cumulative);
      assert rank <= bs[i].cumulative;
      assert i > 0 ==> Before(bs[i - 1].upper, bs[i].upper);
      InterpolateInside(target, lower, before, bs[i].upper.value, bs[i].cumulative);
      InterpolateIs(target, lower, before, bs[i].upper.value, bs[i].cumulative);
      assert BothIn(bs, i, e.value, v) && Linear(bs, i, target, e.value);
    } else {
      ScanFindsBucket(target, bs, obs, rank, i + 1);
    }
  }

  /** Quantile correctness: for the histogram of any non-negative observations, whatever order its
      buckets come in, and 0 < q <= 1, the estimate lies in the same bucket as the true observation of
      rank ceil(q * n), and divides that bucket as q * n divides its count; and when that observation is above every finite bound, the estimate is the
      largest finite bound, or absent if there is none. */
  lemma EstimateInSameBucket(q: real, buckets: seq<Bucket>, bs: seq<Bucket>, obs: seq<real>, rank: int)
    requires 0.0 < q <= 1.0 && obs != [] && buckets != []
    requires multiset(buckets) == multiset(bs) && HistogramOf(bs, obs)
    requires IsCeiling(rank, Target(q, |obs|))
    ensures 1 <= rank <= |obs|
    ensures var e := Estimate(q, buckets, |obs|);
            (e.Some? && InOneBucket(bs, Target(q, |obs|), e.value, obs[rank - 1])) || AboveAll(bs, e, obs[rank - 1])
  {
    SortsAnyOrder(buckets, bs);
    TargetInRange(q, |obs|);
    ScanFindsBucket(Target(q, |obs|), bs, obs, rank, 0);
  }

  lemma TargetInRange(q: real, n: nat)
    requires 0.0 < q <= 1.0 && n >= 1
    ensures 0.0 < Target(q, n) <= n as real
  {
    assert (1.0 - q) * n as real >= 0.0;
  }

  // --- Monotonicity -------------------------------------------------------------------------

  lemma {:induction false} ScanAtLeast(target: real, bs: seq<Bucket>, i: nat, prevBound: real, prevCount: nat)
    requires StrictlyAscending(bs) && i <= |bs| && prevCount as real < target && prevBound >= 0.0
    requires i < |bs| && bs[i].upper.Finite? ==> prevBound < bs[i].upper.value
    ensures var e := Scan(target, bs, i, prevBound, prevCount);
            (e.Some? ==> e.value >= prevBound) && (prevBound > 0.0 ==> e.Some?)
    decreases |bs| - i
  {
    if i < |bs| {
      assert i + 1 < |bs| ==> Before(bs[i].upper, bs[i + 1].upper);
      if bs[i].upper.Finite? {
        if bs[i].cumulative as real >= target {
          InterpolateInside(target, prevBound, prevCount, bs[i].upper.value, bs[i].cumulative);
        } else {
          ScanAtLeast(target, bs, i + 1, bs[i].upper.value, bs[i].cumulative);
        }
      } else {
        ScanAtLeast(target, bs, i + 1, prevBound, prevCount);
      }
    }
  }

  lemma {:induction false} ScanMonotone(t1: real, t2: real, bs: seq<Bucket>, i: nat, prevBound: real, prevCount: nat)
    requires StrictlyAscending(bs) && i <= |bs| && prevCount as real < t1 <= t2 && prevBound >= 0.0
    requires i < |bs| && bs[i].upper.Finite? ==> prevBound < bs[i].upper.value
    ensures var e1, e2 := Scan(t1, bs, i, prevBound, prevCount), Scan(t2, bs, i, prevBound, prevCount);
            e1.Some? ==> e2.Some? && e1.value <= e2.value
    decreases |bs| - i
  {
    if i < |bs| {
      assert i + 1 < |bs| ==> Before(bs[i].upper, bs[i + 1].upper);
      if bs[i].upper.Infinity? {
        ScanMonotone(t1, t2, bs, i + 1, prevBound, prevCount);
      } else {
        var upper, count := bs[i].upper.value, bs[i].cumulative;
        if count as real >= t2 {
          InterpolateMonotone(t1, t2, prevBound, prevCount, upper, count);
        } else if count as real >= t1 {
          InterpolateInside(t1, prevBound, prevCount, upper, count);
          ScanAtLeast(t2, bs, i + 1, upper, count);
        } else {
          ScanMonotone(t1, t2, bs, i + 1, upper, count);
        }
      }
    }
  }

  lemma InterpolateMonotone(t1: real, t2: real, prevBound: real, prevCount: nat, upper: real, count: nat)
    requires prevCount as real < t1 <= t2 <= count as real && prevBound < upper
    ensures count > prevCount
    ensures Interpolate(t1, prevBound, prevCount, upper, count) <= Interpolate(t2, prevBound, prevCount, upper, count)
  {
    FractionMonotone(t1 - prevCount as real, t2 - prevCount as real, (count - prevCount) as real, upper - prevBound);
  }

  lemma FractionMonotone(a: real, b: real, d: real, w: real)
    requires 0.0 < a <= b && d > 0.0 && w > 0.0
    ensures Share(a, d, w) <= Share(b, d, w)
  {
    var f, g := a / d, b / d;
    assert f * d == a && g * d == b;
    assert f <= g by {
      assert f > g ==> (f - g) * d > 0.0;
    }
    assert (g - f) * w >= 0.0;
  }

  /** A higher quantile never has a lower estimate. */
  lemma EstimateMonotone(q1: real, q2: real, buckets: seq<Bucket>, bs: seq<Bucket>, total: nat)
    requires 0.0 < q1 <= q2 && StrictlyAscending(bs) && multiset(buckets) == multiset(bs)
    requires forall i :: 0 <= i < |bs| && bs[i].upper.Finite? ==> bs[i].upper.value > 0.0
    ensures var e1, e2 := Estimate(q1, buckets, total), Estimate(q2, buckets, total);
            e1.Some? ==> e2.Some? && e1.value <= e2.value
  {
    if total > 0 && buckets != [] {
      SortsAnyOrder(buckets, bs);
      TargetMonotone(q1, q2, total);
      ScanMonotone(Target(q1, total), Target(q2, total), bs, 0, 0.0, 0);
    }
  }

  lemma TargetMonotone(q1: real, q2: real, n: nat)
    requires 0.0 < q1 <= q2 && n >= 1
    ensures 0.0 < Target(q1, n) <= Target(q2, n)
  {
    assert (q2 - q1) * n as real >= 0.0;
  }
}
