/** The option side of the IV collector (`get_atm_iv_ETH.py`): the options
  that expire tomorrow, and among them the one whose strike lies nearest the
  index price. Tomorrow's bounds come from the wall clock in the script; here
  they are the parameters `start` and `end` (milliseconds since the epoch).
 */
module AtmOptions {
  import opened Wrappers
  import opened RealMath

  datatype Instrument = Instrument(name: string, expiration: int, strike: real)

  datatype AtmError = NoInstruments  // `min` of an empty list

  /** The half-open window `start <= expiration < end`. */
  predicate InWindow(x: Instrument, start: int, end: int)
  {
    start <= x.expiration < end
  }

  /** The window filter of a whole list, read to its end. */
  function WindowFilter(xs: seq<Instrument>, start: int, end: int): (r: seq<Instrument>)
    ensures forall x :: x in r <==> x in xs && InWindow(x, start, end)
    decreases |xs|
  {
    if |xs| == 0 then []
    else
      var init, last := xs[..|xs| - 1], xs[|xs| - 1];
      assert xs == init + [last];
      WindowFilter(init, start, end) + (if InWindow(last, start, end) then [last] else [])
  }

  /** `a` is `b` with some elements left out and the rest in their order. */
  predicate IsSubsequence(a: seq<Instrument>, b: seq<Instrument>)
    decreases |b|
  {
    if |a| == 0 then true
    else if |b| == 0 then false
    else (a[0] == b[0] && IsSubsequence(a[1..], b[1..])) || IsSubsequence(a, b[1..])
  }

  /** Extending the longer list keeps a subsequence a subsequence. */
  lemma {:induction false} SubsequenceAppend(a: seq<Instrument>, b: seq<Instrument>, c: seq<Instrument>)
    requires IsSubsequence(a, b)
    ensures IsSubsequence(a, b + c)
    decreases |b|
  {
    if |a| != 0 {
      assert (b + c)[1..] == b[1..] + c;
      if a[0] == b[0] && IsSubsequence(a[1..], b[1..]) {
        SubsequenceAppend(a[1..], b[1..], c);
      } else {
        SubsequenceAppend(a, b[1..], c);
      }
    }
  }

  /** Appending an element to both lists keeps a subsequence one. */
  lemma {:induction false} SubsequenceSnoc(a: seq<Instrument>, b: seq<Instrument>, x: Instrument)
    requires IsSubsequence(a, b)
    ensures IsSubsequence(a + [x], b + [x])
    decreases |b|
  {
    if |a| == 0 {
      SubsequenceOfSelf([x]);
      SubsequenceSuffix([x], b);
      assert a + [x] == [x];
    } else {
      assert (a + [x])[1..] == a[1..] + [x];
      assert (b + [x])[1..] == b[1..] + [x];
      if a[0] == b[0] && IsSubsequence(a[1..], b[1..]) {
        SubsequenceSnoc(a[1..], b[1..], x);
      } else {
        SubsequenceSnoc(a, b[1..], x);
      }
    }
  }

  lemma {:induction false} SubsequenceOfSelf(a: seq<Instrument>)
    ensures IsSubsequence(a, a)
    decreases |a|
  {
    if |a| != 0 {
      SubsequenceOfSelf(a[1..]);
    }
  }

  /** A list is a subsequence of itself with anything in front. */
  lemma {:induction false} SubsequenceSuffix(a: seq<Instrument>, b: seq<Instrument>)
    requires IsSubsequence(a, a)
    ensures IsSubsequence(a, b + a)
    decreases |b|
  {
    if |b| != 0 {
      SubsequenceSuffix(a, b[1..]);
      assert (b + a)[1..] == b[1..] + a;
    } else {
      assert b + a == a;
    }
  }

  /** The filter keeps the survivors in their order. */
  lemma {:induction false} FilterIsSubsequence(xs: seq<Instrument>, start: int, end: int)
    ensures IsSubsequence(WindowFilter(xs, start, end), xs)
    decreases |xs|
  {
    if |xs| != 0 {
      var init, last := xs[..|xs| - 1], xs[|xs| - 1];
      assert xs == init + [last];
      FilterIsSubsequence(init, start, end);
      if InWindow(last, start, end) {
        SubsequenceSnoc(WindowFilter(init, start, end), init, last);
      } else {
        SubsequenceAppend(WindowFilter(init, start, end), init, [last]);
        assert WindowFilter(xs, start, end) == WindowFilter(init, start, end);
      }
    }
  }

  /** Where the scan stops: the first instrument expiring at or after `end`,
      or the length of the list when there is none. */
  function StopIndex(xs: seq<Instrument>, end: int): (r: nat)
    ensures r <= |xs|
    ensures forall j :: 0 <= j < r ==> xs[j].expiration < end
    ensures r < |xs| ==> end <= xs[r].expiration
    decreases |xs|
  {
    if |xs| == 0 then 0
    else if end <= xs[0].expiration then 0
    else 1 + StopIndex(xs[1..], end)
  }

  /** `get_tomorrows_instruments`: scan the list, keep the instruments inside
      the window, stop at the first one expiring at or after its end. */
  method TomorrowsInstruments(xs: seq<Instrument>, start: int, end: int) returns (r: seq<Instrument>)
    ensures r == WindowFilter(xs[..StopIndex(xs, end)], start, end)
  {
    r := [];
    var i := 0;
    while i < |xs|
      invariant 0 <= i <= |xs|
      invariant forall j :: 0 <= j < i ==> xs[j].expiration < end
      invariant r == WindowFilter(xs[..i], start, end)
    {
      var x := xs[i];
      assert xs[..i + 1] == xs[..i] + [x];
      if start <= x.expiration < end {
        r := r + [x];
      } else if x.expiration >= end {
        break;
      }
      i := i + 1;
    }
  }

  /** What the scan returns: instruments of the window only, in list order,
      and none from the first late instrument on. */
  lemma TomorrowsFacts(xs: seq<Instrument>, start: int, end: int)
    ensures var r := WindowFilter(xs[..StopIndex(xs, end)], start, end);
            && (forall x :: x in r ==> InWindow(x, start, end))
            && IsSubsequence(r, xs[..StopIndex(xs, end)])
            && IsSubsequence(r, xs)
  {
    var k := StopIndex(xs, end);
    FilterIsSubsequence(xs[..k], start, end);
    SubsequenceAppend(WindowFilter(xs[..k], start, end), xs[..k], xs[k..]);
    assert xs[..k] + xs[k..] == xs;
  }

  predicate SortedByExpiration(xs: seq<Instrument>)
  {
    forall i, j :: 0 <= i < j < |xs| ==> xs[i].expiration <= xs[j].expiration
  }

  /** Dropping a tail none of which lies in the window does not change the
      filter. */
  lemma {:induction false} FilterIgnoresLateTail(xs: seq<Instrument>, k: nat, start: int, end: int)
    requires k <= |xs|
    requires forall j :: k <= j < |xs| ==> end <= xs[j].expiration
    ensures WindowFilter(xs[..k], start, end) == WindowFilter(xs, start, end)
    decreases |xs|
  {
    if k < |xs| {
      var init := xs[..|xs| - 1];
      assert init[..k] == xs[..k];
      FilterIgnoresLateTail(init, k, start, end);
    } else {
      assert xs[..k] == xs;
    }
  }

  /** On a list sorted by expiration the early stop loses nothing: the scan
      returns exactly the window filter of the whole list. */
  lemma SortedScanIsFilter(xs: seq<Instrument>, start: int, end: int)
    requires SortedByExpiration(xs)
    ensures WindowFilter(xs[..StopIndex(xs, end)], start, end) == WindowFilter(xs, start, end)
  {
    FilterIgnoresLateTail(xs, StopIndex(xs, end), start, end);
  }

  /** The distance `abs(strike - price)` that `min` compares. */
  function Distance(x: Instrument, price: real): real
  {
    Abs(x.strike - price)
  }

  /** `get_atm_option_iv`: Python's `min` with a key, which keeps the first
      of equally near instruments. */
  method AtmOption(xs: seq<Instrument>, price: real) returns (r: Result<Instrument, AtmError>)
    ensures r.Err? <==> |xs| == 0
    ensures r.Ok? ==> exists i :: 0 <= i < |xs| && xs[i] == r.value &&
                                  forall j :: 0 <= j < i ==> Distance(r.value, price) < Distance(xs[j], price)
    ensures r.Ok? ==> forall j :: 0 <= j < |xs| ==> Distance(r.value, price) <= Distance(xs[j], price)
  {
    if |xs| == 0 {
      return Err(NoInstruments);
    }
    var best := 0;
    var i := 1;
    while i < |xs|
      invariant 0 <= best < i <= |xs|
      invariant forall j :: 0 <= j < i ==> Distance(xs[best], price) <= Distance(xs[j], price)
      invariant forall j :: 0 <= j < best ==> Distance(xs[best], price) < Distance(xs[j], price)
    {
      if Distance(xs[i], price) < Distance(xs[best], price) {
        best := i;
      }
      i := i + 1;
    }
    return Ok(xs[best]);
  }

  /** One round of the collector up to the order-book request: the options
      expiring tomorrow, then the nearest of them; there is none exactly when
      the scan finds no option in the window. */
  method AtmOfTomorrow(xs: seq<Instrument>, start: int, end: int, price: real) returns (r: Result<Instrument, AtmError>)
    ensures r.Err? <==> forall j :: 0 <= j < StopIndex(xs, end) ==> !InWindow(xs[j], start, end)
    ensures r.Ok? ==> r.value in xs && InWindow(r.value, start, end)
  {
    var options := TomorrowsInstruments(xs, start, end);
    r := AtmOption(options, price);
    var k := StopIndex(xs, end);
    if r.Err? {
      forall j | 0 <= j < k
        ensures !InWindow(xs[j], start, end)
      {
        assert xs[..k][j] == xs[j];
      }
    } else {
      assert r.value in options;
    }
    if exists j :: 0 <= j < k && InWindow(xs[j], start, end) {
      var j :| 0 <= j < k && InWindow(xs[j], start, end);
      assert xs[..k][j] == xs[j];
      assert xs[j] in options;
    }
  }
}
