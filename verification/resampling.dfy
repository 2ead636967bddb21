/** `df.set_index('Timestamp').resample(width).mean().reset_index()`.

  pandas cuts the time axis into left-closed buckets `[label, label + width)`
  on a grid anchored at the midnight of the first row's day (its default
  `origin='start_day'`), labels each bucket by its left edge, and emits one
  row for EVERY bucket from the first row's to the last row's, holding the
  mean of the bucket's members, or NaN when the bucket is empty.
 */
module Resampling {
  import opened Wrappers
  import opened Statistics
  import opened TimeSeries

  /** A resampled row: the bucket's left edge and its mean (NaN when empty). */
  datatype Bucket = Bucket(t: int, mean: Option<real>)

  datatype ResampleError = NonPositiveWidth

  const SecondsPerDay: int := 86400
  const SecondsPerMinute: int := 60

  /** The midnight at or before `t`. */
  function StartOfDay(t: int): (r: int)
    ensures r <= t < r + SecondsPerDay
    ensures r % SecondsPerDay == 0
  {
    t - t % SecondsPerDay
  }

  /** The left edge of bucket `k` of the grid anchored at `origin`. */
  function Label(origin: int, k: int, width: int): int
  {
    origin + k * width
  }

  /** The index of the bucket holding `t`: floor((t - origin) / width). */
  function BucketIndex(t: int, origin: int, width: int): int
    requires 0 < width
  {
    (t - origin) / width
  }

  lemma MulMonotone(a: int, b: int, width: int)
    requires a <= b
    requires 0 < width
    ensures a * width <= b * width
  {
  }

  lemma LabelStep(origin: int, k: int, width: int)
    ensures Label(origin, k + 1, width) == Label(origin, k, width) + width
  {
  }

  /** Bucket labels strictly increase with the bucket index. */
  lemma LabelIncreasing(origin: int, a: int, b: int, width: int)
    requires 0 < width
    requires a < b
    ensures Label(origin, a, width) + width <= Label(origin, b, width)
  {
    MulMonotone(a + 1, b, width);
  }

  /** `BucketIndex(t)` names the one bucket whose half-open interval holds `t`. */
  lemma BucketIndexBounds(t: int, origin: int, width: int, k: int)
    requires 0 < width
    ensures k == BucketIndex(t, origin, width) <==>
            Label(origin, k, width) <= t < Label(origin, k, width) + width
  {
    var q := BucketIndex(t, origin, width);
    assert Label(origin, q, width) <= t < Label(origin, q, width) + width;
    if k < q {
      LabelIncreasing(origin, k, q, width);
    } else if k > q {
      LabelIncreasing(origin, q, k, width);
    }
  }

  function EarliestTime(s: seq<Sample>): int
    requires 0 < |s|
  {
    if |s| == 1 then s[0].t
    else
      var m := EarliestTime(s[1..]);
      if s[0].t <= m then s[0].t else m
  }

  function LatestTime(s: seq<Sample>): int
    requires 0 < |s|
  {
    if |s| == 1 then s[0].t
    else
      var m := LatestTime(s[1..]);
      if m <= s[0].t then s[0].t else m
  }

  /** `EarliestTime` is the least timestamp and `LatestTime` the greatest. */
  lemma {:induction false} TimeRange(s: seq<Sample>)
    requires 0 < |s|
    ensures forall i :: 0 <= i < |s| ==> EarliestTime(s) <= s[i].t <= LatestTime(s)
    ensures exists i :: 0 <= i < |s| && s[i].t == EarliestTime(s)
    ensures exists i :: 0 <= i < |s| && s[i].t == LatestTime(s)
  {
    if |s| > 1 {
      TimeRange(s[1..]);
      assert forall i :: 1 <= i < |s| ==> s[i] == s[1..][i - 1];
      var a :| 0 <= a < |s| - 1 && s[1..][a].t == EarliestTime(s[1..]);
      var b :| 0 <= b < |s| - 1 && s[1..][b].t == LatestTime(s[1..]);
      assert s[a + 1].t == EarliestTime(s[1..]);
      assert s[b + 1].t == LatestTime(s[1..]);
    }
  }

  /** The values of the rows with `lo <= t < lo + width`, in row order. */
  function Members(s: seq<Sample>, lo: int, width: int): seq<real>
  {
    if |s| == 0 then []
    else
      (if lo <= s[0].t < lo + width then [s[0].v] else []) + Members(s[1..], lo, width)
  }

  /** An interval has members exactly when some row's timestamp falls in it. */
  lemma {:induction false} MembersNonEmpty(s: seq<Sample>, lo: int, width: int)
    ensures 0 < |Members(s, lo, width)| <==> exists i :: 0 <= i < |s| && lo <= s[i].t < lo + width
  {
    if |s| != 0 {
      MembersNonEmpty(s[1..], lo, width);
      assert forall i :: 1 <= i < |s| ==> s[i] == s[1..][i - 1];
      if exists i :: 0 <= i < |s| && lo <= s[i].t < lo + width {
        var i :| 0 <= i < |s| && lo <= s[i].t < lo + width;
        if i != 0 {
          assert lo <= s[1..][i - 1].t < lo + width;
        }
      }
    }
  }

  /** The indices from `i` on of the rows with `lo <= t < lo + width`:
      every such row once, in row order, and nothing else. */
  function BucketRowsFrom(s: seq<Sample>, lo: int, width: int, i: nat): (r: seq<nat>)
    requires i <= |s|
    ensures forall j :: 0 <= j < |r| ==> i <= r[j] < |s| && lo <= s[r[j]].t < lo + width
    ensures forall j, k :: 0 <= j < k < |r| ==> r[j] < r[k]
    ensures forall q :: i <= q < |s| && lo <= s[q].t < lo + width ==> q in r
    decreases |s| - i
  {
    if i == |s| then []
    else
      var rest := BucketRowsFrom(s, lo, width, i + 1);
      if lo <= s[i].t < lo + width then [i] + rest else rest
  }

  /** The indices of the rows of a bucket, in row order. */
  function BucketRows(s: seq<Sample>, lo: int, width: int): (r: seq<nat>)
    ensures forall j :: 0 <= j < |r| ==> r[j] < |s| && lo <= s[r[j]].t < lo + width
    ensures forall j, k :: 0 <= j < k < |r| ==> r[j] < r[k]
    ensures forall q :: 0 <= q < |s| && lo <= s[q].t < lo + width ==> q in r
  {
    BucketRowsFrom(s, lo, width, 0)
  }

  /** The values of the rows at `idx`, in that order. */
  function RowValues(s: seq<Sample>, idx: seq<nat>): (r: seq<real>)
    requires forall j :: 0 <= j < |idx| ==> idx[j] < |s|
    ensures |r| == |idx|
    ensures forall j :: 0 <= j < |idx| ==> r[j] == s[idx[j]].v
  {
    seq(|idx|, j requires 0 <= j < |idx| => s[idx[j]].v)
  }

  /** Peeling row `i` off the suffix that starts there. */
  lemma MembersStep(s: seq<Sample>, lo: int, width: int, i: nat)
    requires i < |s|
    ensures Members(s[i..], lo, width) ==
            (if lo <= s[i].t < lo + width then [s[i].v] else []) + Members(s[i + 1..], lo, width)
  {
    assert s[i..][0] == s[i];
    assert s[i..][1..] == s[i + 1..];
  }

  lemma RowValuesCons(s: seq<Sample>, i: nat, rest: seq<nat>)
    requires i < |s|
    requires forall j :: 0 <= j < |rest| ==> rest[j] < |s|
    ensures RowValues(s, [i] + rest) == [s[i].v] + RowValues(s, rest)
  {
    var a, b := RowValues(s, [i] + rest), [s[i].v] + RowValues(s, rest);
    forall j | 0 <= j < |a|
      ensures a[j] == b[j]
    {
      if j != 0 {
        assert ([i] + rest)[j] == rest[j - 1];
      }
    }
  }

  lemma {:induction false} MembersFrom(s: seq<Sample>, lo: int, width: int, i: nat)
    requires i <= |s|
    ensures Members(s[i..], lo, width) == RowValues(s, BucketRowsFrom(s, lo, width, i))
    decreases |s| - i
  {
    if i < |s| {
      MembersFrom(s, lo, width, i + 1);
      MembersStep(s, lo, width, i);
      var rest := BucketRowsFrom(s, lo, width, i + 1);
      if lo <= s[i].t < lo + width {
        assert BucketRowsFrom(s, lo, width, i) == [i] + rest;
        RowValuesCons(s, i, rest);
      } else {
        assert BucketRowsFrom(s, lo, width, i) == rest;
      }
    } else {
      assert s[i..] == [];
    }
  }

  /** The members of a bucket are the values of its rows, in row order. */
  lemma MembersAreBucketRows(s: seq<Sample>, lo: int, width: int)
    ensures Members(s, lo, width) == RowValues(s, BucketRows(s, lo, width))
  {
    MembersFrom(s, lo, width, 0);
    assert s[0..] == s;
  }

  /** pandas `mean` of a bucket: NaN for an empty one, and otherwise the
      number whose `|xs|` copies add up to the members' sum. */
  function MeanOrNaN(xs: seq<real>): (r: Option<real>)
    ensures r.Some? <==> 0 < |xs|
    ensures r.Some? ==> r.value * |xs| as real == Sum(xs)
  {
    if |xs| == 0 then None else Some(Mean(xs))
  }

  /** Bucket `k` of the grid, holding the mean of its members. */
  function BucketAt(s: seq<Sample>, origin: int, width: int, k: int): Bucket
  {
    Bucket(Label(origin, k, width), MeanOrNaN(Members(s, Label(origin, k, width), width)))
  }

  /** Buckets `k`, `k + 1`, ..., `k + n - 1` of the grid. */
  function Grid(s: seq<Sample>, origin: int, width: int, k: int, n: nat): (r: seq<Bucket>)
    ensures |r| == n
    decreases n
  {
    if n == 0 then [] else [BucketAt(s, origin, width, k)] + Grid(s, origin, width, k + 1, n - 1)
  }

  lemma {:induction false} GridAt(s: seq<Sample>, origin: int, width: int, k: int, n: nat, j: int)
    requires 0 <= j < n
    ensures Grid(s, origin, width, k, n)[j] == BucketAt(s, origin, width, k + j)
    decreases n
  {
    if j != 0 {
      GridAt(s, origin, width, k + 1, n - 1, j - 1);
    }
  }

  /** The grid buckets `[lo, lo + n)` cover every row, and the first and the
      last of them are occupied. */
  ghost predicate Spans(s: seq<Sample>, origin: int, width: int, lo: int, n: nat)
  {
    && 0 < n
    && (forall i :: 0 <= i < |s| ==> Label(origin, lo, width) <= s[i].t < Label(origin, lo + n, width))
    && (exists i :: 0 <= i < |s| && Label(origin, lo, width) <= s[i].t < Label(origin, lo, width) + width)
    && (exists i :: 0 <= i < |s| && Label(origin, lo + n - 1, width) <= s[i].t < Label(origin, lo + n, width))
  }

  function FirstBucket(s: seq<Sample>, origin: int, width: int): int
    requires 0 < width
    requires 0 < |s|
  {
    BucketIndex(EarliestTime(s), origin, width)
  }

  /** The number of grid buckets from the earliest row's to the latest row's. */
  function BucketCount(s: seq<Sample>, origin: int, width: int): nat
    requires 0 < width
    requires 0 < |s|
  {
    var n := BucketIndex(LatestTime(s), origin, width) - FirstBucket(s, origin, width) + 1;
    if n < 0 then 0 else n
  }

  /** The resampled frame on the grid `origin + k * width`. */
  function ResampleOn(s: seq<Sample>, origin: int, width: int): (r: seq<Bucket>)
    requires 0 < width
  {
    if |s| == 0 then []
    else Grid(s, origin, width, FirstBucket(s, origin, width), BucketCount(s, origin, width))
  }

  /** `resample(width).mean()` with pandas' default origin. An empty frame
      resamples to an empty one before the width is looked at; on any other
      frame a non-positive width is rejected. */
  function Resample(s: seq<Sample>, width: int): (r: Result<seq<Bucket>, ResampleError>)
    ensures r.Err? <==> width <= 0 && 0 < |s|
    ensures |s| == 0 ==> r == Ok([])
  {
    if |s| == 0 then Ok([])
    else if width <= 0 then Err(NonPositiveWidth)
    else Ok(ResampleOn(s, StartOfDay(EarliestTime(s)), width))
  }

  /** The buckets of a non-empty frame run from the earliest row's to the
      latest row's. */
  lemma ResampleSpans(s: seq<Sample>, origin: int, width: int)
    requires 0 < width
    requires 0 < |s|
    ensures Spans(s, origin, width, FirstBucket(s, origin, width), BucketCount(s, origin, width))
  {
    var e, l := EarliestTime(s), LatestTime(s);
    var lo, hi := BucketIndex(e, origin, width), BucketIndex(l, origin, width);
    TimeRange(s);
    BucketIndexBounds(e, origin, width, lo);
    BucketIndexBounds(l, origin, width, hi);
    if hi < lo {
      LabelIncreasing(origin, hi, lo, width);
      assert false;
    }
    var n := hi - lo + 1;
    assert BucketCount(s, origin, width) == n;
    LabelStep(origin, hi, width);
    assert lo + n == hi + 1;
    var a :| 0 <= a < |s| && s[a].t == e;
    var b :| 0 <= b < |s| && s[b].t == l;
    assert Label(origin, lo + n - 1, width) <= s[b].t < Label(origin, lo + n, width);
  }

  /** Labels on the grid anchored at `origin`, rising by exactly one width
      per row, hence strictly increasing: no timestamp occurs twice. */
  ghost predicate RegularLabels(r: seq<Bucket>, origin: int, width: int)
  {
    && (forall j :: 0 <= j < |r| ==> exists q :: r[j].t == Label(origin, q, width))
    && (forall j :: 0 < j < |r| ==> r[j].t == r[j - 1].t + width)
    && (forall i, j :: 0 <= i < j < |r| ==> r[i].t < r[j].t)
  }

  /** On any grid, labels rise by exactly one width per bucket. */
  lemma GridLabels(s: seq<Sample>, origin: int, width: int, k: int, n: nat)
    requires 0 < width
    ensures var r := Grid(s, origin, width, k, n);
            && (forall j :: 0 <= j < n ==> r[j].t == Label(origin, k + j, width))
            && RegularLabels(r, origin, width)
  {
    var r := Grid(s, origin, width, k, n);
    forall j | 0 <= j < n
      ensures r[j].t == Label(origin, k + j, width)
    {
      GridAt(s, origin, width, k, n, j);
    }
    forall j | 0 < j < n
      ensures r[j].t == r[j - 1].t + width
    {
      LabelStep(origin, k + j - 1, width);
    }
    forall i, j | 0 <= i < j < n
      ensures r[i].t < r[j].t
    {
      LabelIncreasing(origin, k + i, k + j, width);
    }
  }

  /** Labels strictly increase down the frame. */
  predicate Increasing(r: seq<Bucket>)
  {
    forall i, j :: 0 <= i < j < |r| ==> r[i].t < r[j].t
  }

  /** `t` falls in bucket `q` of the grid anchored at `origin`. */
  predicate InBucket(origin: int, width: int, q: int, t: int)
  {
    Label(origin, q, width) <= t < Label(origin, q, width) + width
  }

  /** Between the first and the last edge of a grid every instant falls in
      one of its buckets. */
  lemma {:induction false} GridCovers(origin: int, width: int, k: int, n: nat, t: int)
    requires 0 < width
    requires Label(origin, k, width) <= t < Label(origin, k + n, width)
    ensures exists q :: k <= q < k + n && InBucket(origin, width, q, t)
    decreases n
  {
    LabelStep(origin, k, width);
    if t < Label(origin, k + 1, width) {
      assert InBucket(origin, width, k, t);
    } else if n <= 1 {
      MulMonotone(k + n, k + 1, width);
      assert false;
    } else {
      GridCovers(origin, width, k + 1, n - 1, t);
    }
  }

  /** Output labels lie on the grid, rise by exactly one width per row, and
      so are strictly increasing: each timestamp occurs at most once. */
  lemma ResampleGrid(s: seq<Sample>, origin: int, width: int)
    requires 0 < width
    ensures RegularLabels(ResampleOn(s, origin, width), origin, width)
  {
    if |s| != 0 {
      GridLabels(s, origin, width, FirstBucket(s, origin, width), BucketCount(s, origin, width));
    }
  }

  /** Every frame `Resample` returns has strictly increasing labels. */
  lemma ResampleIncreasing(s: seq<Sample>, width: int)
    ensures Resample(s, width).Ok? ==> Increasing(Resample(s, width).value)
  {
    if |s| != 0 && 0 < width {
      ResampleGrid(s, StartOfDay(EarliestTime(s)), width);
    }
  }

  lemma GridDefinedIffOccupied(s: seq<Sample>, origin: int, width: int, k: int, n: nat, j: int)
    requires 0 <= j < n
    ensures var b := Grid(s, origin, width, k, n)[j];
            && b.t == Label(origin, k + j, width)
            && (b.mean.Some? <==> exists i :: 0 <= i < |s| && b.t <= s[i].t < b.t + width)
  {
    GridAt(s, origin, width, k, n, j);
    MembersNonEmpty(s, Label(origin, k + j, width), width);
  }

  /** A bucket holds a number exactly when some row falls in it; empty
      buckets inside the range are kept as NaN rows, not dropped. The number
      is the mean of the values of the rows that fall in the bucket, taken
      in row order. */
  lemma ResampleDefinedIffOccupied(s: seq<Sample>, origin: int, width: int, j: int)
    requires 0 < width
    requires 0 <= j < |ResampleOn(s, origin, width)|
    ensures var b := ResampleOn(s, origin, width)[j];
            b.mean.Some? <==> exists i :: 0 <= i < |s| && b.t <= s[i].t < b.t + width
    ensures var b := ResampleOn(s, origin, width)[j];
            var xs := RowValues(s, BucketRows(s, b.t, width));
            b.mean.Some? ==> 0 < |xs| && b.mean.value == Mean(xs)
  {
    var lo, n := FirstBucket(s, origin, width), BucketCount(s, origin, width);
    assert ResampleOn(s, origin, width) == Grid(s, origin, width, lo, n);
    GridDefinedIffOccupied(s, origin, width, lo, n, j);
    GridAt(s, origin, width, lo, n, j);
    MembersAreBucketRows(s, Label(origin, lo + j, width), width);
  }

  lemma GridCoversTime(s: seq<Sample>, origin: int, width: int, lo: int, n: nat, t: int)
    requires 0 < width
    requires exists i :: 0 <= i < |s| && s[i].t == t
    requires Label(origin, lo, width) <= t < Label(origin, lo + n, width)
    ensures var r := Grid(s, origin, width, lo, n);
            exists j :: 0 <= j < n && r[j].t <= t < r[j].t + width && r[j].mean.Some?
  {
    var r := Grid(s, origin, width, lo, n);
    GridCovers(origin, width, lo, n, t);
    var q :| lo <= q < lo + n && InBucket(origin, width, q, t);
    GridDefinedIffOccupied(s, origin, width, lo, n, q - lo);
    assert r[q - lo].t == Label(origin, q, width);
  }

  lemma GridEndsDefined(s: seq<Sample>, origin: int, width: int, lo: int, n: nat)
    requires 0 < width
    requires Spans(s, origin, width, lo, n)
    ensures Grid(s, origin, width, lo, n)[0].mean.Some?
    ensures Grid(s, origin, width, lo, n)[n - 1].mean.Some?
  {
    var i :| 0 <= i < |s| && Label(origin, lo, width) <= s[i].t < Label(origin, lo, width) + width;
    GridDefinedIffOccupied(s, origin, width, lo, n, 0);
    assert Label(origin, lo + 0, width) == Label(origin, lo, width);
    var l :| 0 <= l < |s| && Label(origin, lo + n - 1, width) <= s[l].t < Label(origin, lo + n, width);
    LabelStep(origin, lo + n - 1, width);
    GridDefinedIffOccupied(s, origin, width, lo, n, n - 1);
  }

  /** Some bucket of `r` that holds a number contains the instant `t`. */
  ghost predicate CoveredBy(r: seq<Bucket>, width: int, t: int)
  {
    exists j :: 0 <= j < |r| && r[j].t <= t < r[j].t + width && r[j].mean.Some?
  }

  lemma GridRowsCovered(s: seq<Sample>, origin: int, width: int, lo: int, n: nat)
    requires 0 < width
    requires forall i :: 0 <= i < |s| ==> Label(origin, lo, width) <= s[i].t < Label(origin, lo + n, width)
    ensures forall i :: 0 <= i < |s| ==> CoveredBy(Grid(s, origin, width, lo, n), width, s[i].t)
  {
    forall i | 0 <= i < |s|
      ensures CoveredBy(Grid(s, origin, width, lo, n), width, s[i].t)
    {
      GridCoversTime(s, origin, width, lo, n, s[i].t);
    }
  }

  lemma GridCoversRows(s: seq<Sample>, origin: int, width: int, lo: int, n: nat)
    requires 0 < width
    requires Spans(s, origin, width, lo, n)
    ensures var r := Grid(s, origin, width, lo, n);
            && r[0].mean.Some?
            && r[n - 1].mean.Some?
            && forall i :: 0 <= i < |s| ==>
                 exists j :: 0 <= j < n && r[j].t <= s[i].t < r[j].t + width && r[j].mean.Some?
  {
    GridEndsDefined(s, origin, width, lo, n);
    GridRowsCovered(s, origin, width, lo, n);
    var r := Grid(s, origin, width, lo, n);
    forall i | 0 <= i < |s|
      ensures exists j :: 0 <= j < n && r[j].t <= s[i].t < r[j].t + width && r[j].mean.Some?
    {
      assert CoveredBy(r, width, s[i].t);
    }
  }

  /** A non-empty frame resamples to a non-empty frame whose first and last
      buckets hold numbers, and every row lands in a bucket of the output
      that holds a number. */
  lemma ResampleCoversRows(s: seq<Sample>, origin: int, width: int)
    requires 0 < width
    requires 0 < |s|
    ensures var r := ResampleOn(s, origin, width);
            && 0 < |r|
            && r[0].mean.Some?
            && r[|r| - 1].mean.Some?
            && forall i :: 0 <= i < |s| ==>
                 exists j :: 0 <= j < |r| && r[j].t <= s[i].t < r[j].t + width && r[j].mean.Some?
  {
    var lo, n := FirstBucket(s, origin, width), BucketCount(s, origin, width);
    assert ResampleOn(s, origin, width) == Grid(s, origin, width, lo, n);
    ResampleSpans(s, origin, width);
    GridCoversRows(s, origin, width, lo, n);
  }

  /** A bucket's mean multiplied by `k` (NaN stays NaN). */
  function ScaleBucket(b: Bucket, k: real): (r: Bucket)
    ensures r.t == b.t
    ensures r.mean.Some? == b.mean.Some?
    ensures b.mean.Some? ==> r.mean.value == b.mean.value * k
  {
    Bucket(b.t, if b.mean.Some? then Some(Times(b.mean.value, k)) else None)
  }

  /** Every bucket mean multiplied by `k`. */
  function ScaleBuckets(r: seq<Bucket>, k: real): (r': seq<Bucket>)
    ensures |r'| == |r|
    ensures forall j :: 0 <= j < |r| ==> r'[j] == ScaleBucket(r[j], k)
  {
    seq(|r|, j requires 0 <= j < |r| => ScaleBucket(r[j], k))
  }

  lemma {:induction false} MembersScale(s: seq<Sample>, lo: int, width: int, k: real)
    ensures Members(ScaleSamples(s, k), lo, width) == ScaleAll(Members(s, lo, width), k)
  {
    if |s| != 0 {
      MembersScale(s[1..], lo, width, k);
      ScaleSamplesTail(s, k);
      assert ScaleSamples(s, k)[0] == Sample(s[0].t, s[0].v * k);
      var rest := Members(s[1..], lo, width);
      if lo <= s[0].t < lo + width {
        ScaleAllConcat([s[0].v], rest, k);
      }
    }
  }

  lemma BucketAtScales(s: seq<Sample>, origin: int, width: int, q: int, k: real)
    ensures BucketAt(ScaleSamples(s, k), origin, width, q) == ScaleBucket(BucketAt(s, origin, width, q), k)
  {
    var xs := Members(s, Label(origin, q, width), width);
    MembersScale(s, Label(origin, q, width), width, k);
    if |xs| != 0 {
      MeanScales(xs, k);
      assert MeanOrNaN(ScaleAll(xs, k)) == Some(Mean(xs) * k);
    } else {
      assert ScaleAll(xs, k) == [];
      assert MeanOrNaN(ScaleAll(xs, k)) == None;
    }
    var lbl := Label(origin, q, width);
    assert BucketAt(ScaleSamples(s, k), origin, width, q) == Bucket(lbl, MeanOrNaN(ScaleAll(xs, k)));
    assert BucketAt(s, origin, width, q) == Bucket(lbl, MeanOrNaN(xs));
  }

  lemma GridScalesAt(s: seq<Sample>, origin: int, width: int, b: int, n: nat, k: real, j: int)
    requires 0 <= j < n
    ensures Grid(ScaleSamples(s, k), origin, width, b, n)[j] == ScaleBucket(Grid(s, origin, width, b, n)[j], k)
  {
    GridAt(s, origin, width, b, n, j);
    GridAt(ScaleSamples(s, k), origin, width, b, n, j);
    BucketAtScales(s, origin, width, b + j, k);
  }

  lemma GridScales(s: seq<Sample>, origin: int, width: int, b: int, n: nat, k: real)
    ensures Grid(ScaleSamples(s, k), origin, width, b, n) == ScaleBuckets(Grid(s, origin, width, b, n), k)
  {
    forall j | 0 <= j < n
      ensures Grid(ScaleSamples(s, k), origin, width, b, n)[j] == ScaleBuckets(Grid(s, origin, width, b, n), k)[j]
    {
      GridScalesAt(s, origin, width, b, n, k, j);
    }
  }

  lemma {:induction false} EarliestScaled(s: seq<Sample>, k: real)
    requires 0 < |s|
    ensures EarliestTime(ScaleSamples(s, k)) == EarliestTime(s)
    ensures LatestTime(ScaleSamples(s, k)) == LatestTime(s)
  {
    if |s| > 1 {
      EarliestScaled(s[1..], k);
      ScaleSamplesTail(s, k);
    }
  }

  /** Multiplying every value by `k` before or after bucketing gives the same
      frame: bucket means are linear and the grid depends on timestamps only. */
  lemma ResampleScales(s: seq<Sample>, width: int, k: real)
    ensures Resample(ScaleSamples(s, k), width).Ok? == Resample(s, width).Ok?
    ensures Resample(s, width).Ok? ==>
            Resample(ScaleSamples(s, k), width).value == ScaleBuckets(Resample(s, width).value, k)
  {
    if 0 < width && 0 < |s| {
      EarliestScaled(s, k);
      var origin := StartOfDay(EarliestTime(s));
      GridScales(s, origin, width, FirstBucket(s, origin, width), BucketCount(s, origin, width), k);
    }
  }
}
