/** Two-column frames keyed by timestamp, and the row-level operations the
  scripts apply to them before any statistics: `sort_values('Timestamp')`,
  the `>= start_date` filter, and `pd.to_numeric(..., errors='coerce')`
  followed by `dropna`.

  Timestamps are whole seconds on a naive (time-zone free) clock.
 */
module TimeSeries {
  import opened Wrappers
  import opened Statistics

  /** One row of a frame: a timestamp and a numeric column. */
  datatype Sample = Sample(t: int, v: real)

  /** One raw row of the ATM IV log: the `ATM IV` column either parses as a
      number (`Some`) or does not (`None`, what `to_numeric` turns into NaN). */
  datatype RawRow = RawRow(t: int, iv: Option<real>)

  /** Midnight 2024-07-18, the `start_date` of the historical-volatility script. */
  const StartDate: int := 1721260800

  ghost predicate SortedByTime(s: seq<Sample>) {
    forall i, j :: 0 <= i < j < |s| ==> s[i].t <= s[j].t
  }

  /** Places `x` in front of the first row that is not earlier than it. */
  function Insert(x: Sample, s: seq<Sample>): (r: seq<Sample>)
    requires SortedByTime(s)
    ensures SortedByTime(r)
    ensures multiset(r) == multiset(s) + multiset{x}
    ensures r[0] == x || (0 < |s| && r[0] == s[0])
  {
    if |s| == 0 || x.t <= s[0].t then [x] + s
    else
      assert s == [s[0]] + s[1..];
      [s[0]] + Insert(x, s[1..])
  }

  /** `sort_values('Timestamp')`, as a stable insertion sort. */
  function SortByTime(s: seq<Sample>): (r: seq<Sample>)
    ensures SortedByTime(r)
    ensures multiset(r) == multiset(s)
    ensures |r| == |s|
  {
    if |s| == 0 then []
    else
      assert s == [s[0]] + s[1..];
      Insert(s[0], SortByTime(s[1..]))
  }

  /** Sorting a frame that is already in time order leaves it unchanged. */
  lemma {:induction false} SortKeepsSorted(s: seq<Sample>)
    requires SortedByTime(s)
    ensures SortByTime(s) == s
  {
    if |s| != 0 {
      SortKeepsSorted(s[1..]);
    }
  }

  /** Sorting moves rows without changing them. */
  lemma SortedRowIn(s: seq<Sample>, i: int)
    requires 0 <= i < |SortByTime(s)|
    ensures SortByTime(s)[i] in s
  {
    assert SortByTime(s)[i] in multiset(s);
  }

  /** The rows at or after `start`, in their original order. */
  function Since(s: seq<Sample>, start: int): (r: seq<Sample>)
    ensures |r| <= |s|
    ensures forall i :: 0 <= i < |r| ==> start <= r[i].t
    ensures forall x :: x in r <==> x in s && start <= x.t
  {
    if |s| == 0 then []
    else if start <= s[0].t then [s[0]] + Since(s[1..], start)
    else Since(s[1..], start)
  }

  /** A frame whose rows all lie at or after `start` passes the filter whole. */
  lemma {:induction false} SinceKeepsLaterRows(s: seq<Sample>, start: int)
    requires forall i :: 0 <= i < |s| ==> start <= s[i].t
    ensures Since(s, start) == s
  {
    if |s| != 0 {
      SinceKeepsLaterRows(s[1..], start);
    }
  }

  /** The `>= start` filter on raw rows, in their original order. */
  function RawSince(rows: seq<RawRow>, start: int): (r: seq<RawRow>)
    ensures forall x :: x in r <==> x in rows && start <= x.t
  {
    if |rows| == 0 then []
    else
      assert forall x :: x in rows <==> x == rows[0] || x in rows[1..];
      (if start <= rows[0].t then [rows[0]] else []) + RawSince(rows[1..], start)
  }

  /** `to_numeric(errors='coerce')` then `dropna`: the rows whose IV parsed. */
  function Numeric(rows: seq<RawRow>): (r: seq<Sample>)
    ensures |r| <= |rows|
    ensures forall t, v :: Sample(t, v) in r <==> RawRow(t, Some(v)) in rows
  {
    if |rows| == 0 then []
    else
      var rest := Numeric(rows[1..]);
      assert forall x :: x in rows <==> x == rows[0] || x in rows[1..];
      match rows[0].iv
      case Some(v) => [Sample(rows[0].t, v)] + rest
      case None => rest
  }

  /** Every value multiplied by `k`; timestamps untouched. */
  function ScaleSamples(s: seq<Sample>, k: real): (r: seq<Sample>)
    ensures |r| == |s|
    ensures forall i :: 0 <= i < |s| ==> r[i] == Sample(s[i].t, s[i].v * k)
  {
    seq(|s|, i requires 0 <= i < |s| => Sample(s[i].t, Times(s[i].v, k)))
  }

  lemma ScaleSamplesTail(s: seq<Sample>, k: real)
    requires 0 < |s|
    ensures ScaleSamples(s, k)[1..] == ScaleSamples(s[1..], k)
  {
    assert forall i :: 0 <= i < |s| - 1 ==> ScaleSamples(s, k)[1..][i] == ScaleSamples(s[1..], k)[i];
  }

  /** Filtering by date and dropping unparsed rows commute: both keep or drop
      each row on its own, so their order does not change the result. */
  lemma {:induction false} NumericSinceCommute(rows: seq<RawRow>, start: int)
    ensures Numeric(RawSince(rows, start)) == Since(Numeric(rows), start)
  {
    if |rows| != 0 {
      NumericSinceCommute(rows[1..], start);
      var head := if start <= rows[0].t then [rows[0]] else [];
      NumericConcat(head, RawSince(rows[1..], start));
    }
  }

  lemma {:induction false} NumericConcat(a: seq<RawRow>, b: seq<RawRow>)
    ensures Numeric(a + b) == Numeric(a) + Numeric(b)
  {
    if |a| != 0 {
      assert (a + b)[0] == a[0];
      assert (a + b)[1..] == a[1..] + b;
      NumericConcat(a[1..], b);
      match a[0].iv
      case Some(v) =>
        assert Numeric(a + b) == [Sample(a[0].t, v)] + (Numeric(a[1..]) + Numeric(b));
        assert Numeric(a) == [Sample(a[0].t, v)] + Numeric(a[1..]);
      case None =>
        assert Numeric(a + b) == Numeric(a[1..] + b);
        assert Numeric(a) == Numeric(a[1..]);
    } else {
      assert a + b == b;
    }
  }
}
