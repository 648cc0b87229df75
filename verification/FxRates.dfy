/**
 * The currency rules: a flow converts at the mean of the period's mids, a stock at the last mid on or
 * before the period end. A decimal is its integer number of units of a fixed power of ten, the same
 * for all mids and for the quotient; the division rounds half to even as `Decimal` does.
 */
module FxRates {
  import opened Options
  import opened CalendarDates

  datatype Rate = Rate(date: string, mid: int)

  predicate InWindow(date: string, start: string, end: string) {
    StringLessEqual(start, date) && StringLessEqual(date, end)
  }

  // ---- Strings are totally ordered --------------------------------------------------------

  lemma {:induction false} StringLessTrans(a: string, b: string, c: string)
    requires StringLess(a, b) && StringLess(b, c)
    ensures StringLess(a, c)
  {
    if a != [] && a[0] == b[0] == c[0] { StringLessTrans(a[1..], b[1..], c[1..]); }
  }

  lemma {:induction false} StringTrichotomy(a: string, b: string)
    ensures StringLess(a, b) || a == b || StringLess(b, a)
    ensures !(StringLess(a, b) && StringLess(b, a)) && !StringLess(a, a)
  {
    if a != [] && b != [] && a[0] == b[0] {
      StringTrichotomy(a[1..], b[1..]);
      assert a == [a[0]] + a[1..] && b == [b[0]] + b[1..];
    }
    if a != [] { StringTrichotomy(a[1..], a[1..]); }
  }

  /** On canonical dates the window of strings is the window of the calendar. */
  lemma WindowIsCalendarWindow(y: int, m: nat, d: nat, y0: int, m0: nat, d0: nat, y1: int, m1: nat, d1: nat)
    requires IsDate(y, m, d) && IsDate(y0, m0, d0) && IsDate(y1, m1, d1)
    ensures InWindow(IsoText(y, m, d), IsoText(y0, m0, d0), IsoText(y1, m1, d1)) <==>
      !Earlier(y, m, d, y0, m0, d0) && !Earlier(y1, m1, d1, y, m, d)
  {
    StringOrderIsCalendarOrder(y0, m0, d0, y, m, d);
    StringOrderIsCalendarOrder(y, m, d, y1, m1, d1);
  }

  // ---- The period average -----------------------------------------------------------------

  function Sum(rates: seq<Rate>, start: string, end: string): int {
    if rates == [] then 0
    else
      var r := rates[|rates| - 1];
      Sum(rates[..|rates| - 1], start, end) + if InWindow(r.date, start, end) then r.mid else 0
  }

  function Count(rates: seq<Rate>, start: string, end: string): nat {
    if rates == [] then 0
    else Count(rates[..|rates| - 1], start, end) + if InWindow(rates[|rates| - 1].date, start, end) then 1 else 0
  }

  /** Division to the nearest unit, a tie going to the even one. */
  function RoundHalfEven(n: int, d: nat): int
    requires d > 0
  {
    var q, r := n / d, n % d;
    if 2 * r < d || (2 * r == d && q % 2 == 0) then q else q + 1
  }

  function AverageMid(rates: seq<Rate>, start: string, end: string): Option<int> {
    if Count(rates, start, end) == 0
      then None else Some(RoundHalfEven(Sum(rates, start, end), Count(rates, start, end)))
  }

  method PeriodAverageMid(rates: seq<Rate>, start: string, end: string) returns (r: Option<int>)
    ensures r == AverageMid(rates, start, end)
  {
    var sum, count := 0, 0;
    for i := 0 to |rates|
      invariant sum == Sum(rates[..i], start, end) && count == Count(rates[..i], start, end)
    {
      assert rates[..i + 1][..i] == rates[..i];
      if StringLessEqual(start, rates[i].date) && StringLessEqual(rates[i].date, end) {
        sum := sum + rates[i].mid;
        count := count + 1;
      }
    }
    assert rates[..|rates|] == rates;
    if count == 0 { return None; }
    return Some(RoundHalfEven(sum, count));
  }

  lemma ProductGrows(a: int, b: int, d: nat)
    requires a <= b
    ensures a * d <= b * d && (a - 1) * d + d == a * d
  {
  }

  /** Nearest to n / d, and even where two integers are equally near. */
  ghost predicate IsNearestEven(n: int, d: nat, q: int) {
    && -(d as int) <= 2 * (n - q * d) <= d
    && (2 * (n - q * d) in {-(d as int), d as int} ==> q % 2 == 0)
  }

  /** The rounded quotient is the one integer that is nearest, ties going to the even one. */
  lemma RoundsHalfEven(n: int, d: nat, q: int)
    requires d > 0
    ensures IsNearestEven(n, d, q) <==> q == RoundHalfEven(n, d)
  {
    var low, rest := n / d, n % d;
    Gap(q - low, d);
    Apart(n, d, low, rest, q);
  }

  lemma Apart(n: int, d: nat, low: int, rest: int, q: int)
    requires n == low * d + rest
    ensures n - q * d == rest - (q - low) * d
  {
  }

  lemma Gap(gap: int, d: nat)
    ensures (gap == 0 ==> gap * d == 0) && (gap == 1 ==> gap * d == d)
    ensures (gap >= 2 ==> gap * d >= 2 * d) && (gap <= -1 ==> gap * d <= 0 - d)
  {
  }

  lemma RoundingStaysWithin(n: int, d: nat, lo: int, hi: int)
    requires d > 0 && lo * d <= n <= hi * d
    ensures lo <= RoundHalfEven(n, d) <= hi
  {
    var q, r := n / d, n % d;
    assert n == q * d + r;
    assert lo <= q by { if q + 1 <= lo { ProductGrows(q + 1, lo, d); } }
    assert q <= hi && (q == hi ==> r == 0) by { if hi + 1 <= q { ProductGrows(hi + 1, q, d); } }
  }

  lemma {:induction false} SumWithin(rates: seq<Rate>, start: string, end: string, lo: int, hi: int)
    requires forall r | r in rates && InWindow(r.date, start, end) :: lo <= r.mid <= hi
    ensures lo * Count(rates, start, end) <= Sum(rates, start, end) <= hi * Count(rates, start, end)
  {
    if rates != [] {
      var n := |rates| - 1;
      SumWithin(rates[..n], start, end, lo, hi);
      assert rates[n] in rates;
      OneMoreWithin(lo, hi, Count(rates[..n], start, end), Sum(rates[..n], start, end), rates[n].mid);
    }
  }

  lemma OneMoreWithin(lo: int, hi: int, count: nat, sum: int, mid: int)
    requires lo * count <= sum <= hi * count
    ensures lo <= mid <= hi ==> lo * (count + 1) <= sum + mid <= hi * (count + 1)
  {
    assert lo * (count + 1) == lo * count + lo && hi * (count + 1) == hi * count + hi;
  }

  /** The average, rounded as it is, never leaves the range of the mids it averages. */
  lemma AverageWithinRange(rates: seq<Rate>, start: string, end: string, lo: int, hi: int)
    requires AverageMid(rates, start, end).Some?
    requires forall r | r in rates && InWindow(r.date, start, end) :: lo <= r.mid <= hi
    ensures lo <= AverageMid(rates, start, end).value <= hi
  {
    SumWithin(rates, start, end, lo, hi);
    RoundingStaysWithin(Sum(rates, start, end), Count(rates, start, end), lo, hi);
  }

  lemma {:induction false} SumOfParts(a: seq<Rate>, b: seq<Rate>, start: string, end: string)
    ensures Sum(a + b, start, end) == Sum(a, start, end) + Sum(b, start, end)
    ensures Count(a + b, start, end) == Count(a, start, end) + Count(b, start, end)
  {
    if b == [] {
      assert a + b == a;
    } else {
      assert (a + b)[..|a + b| - 1] == a + b[..|b| - 1];
      SumOfParts(a, b[..|b| - 1], start, end);
    }
  }

  function Without(rates: seq<Rate>, i: nat): (rest: seq<Rate>)
    requires i < |rates|
    ensures multiset(rest) == multiset(rates) - multiset{rates[i]}
  {
    assert rates == rates[..i] + [rates[i]] + rates[i + 1..];
    rates[..i] + rates[i + 1..]
  }

  lemma SumWithout(rates: seq<Rate>, i: nat, start: string, end: string)
    requires i < |rates|
    ensures Sum(rates, start, end) == Sum(Without(rates, i), start, end) + Sum([rates[i]], start, end)
    ensures Count(rates, start, end) == Count(Without(rates, i), start, end) + Count([rates[i]], start, end)
  {
    assert rates == rates[..i] + [rates[i]] + rates[i + 1..];
    SumOfParts(rates[..i], rates[i + 1..], start, end);
    SumOfParts(rates[..i], [rates[i]], start, end);
    SumOfParts(rates[..i] + [rates[i]], rates[i + 1..], start, end);
  }

  /** The order of the rows does not matter to the average. */
  lemma {:induction false} AverageIgnoresOrder(rates: seq<Rate>, other: seq<Rate>, start: string, end: string)
    requires multiset(rates) == multiset(other)
    ensures Sum(rates, start, end) == Sum(other, start, end) && Count(rates, start, end) == Count(other, start, end)
    ensures AverageMid(rates, start, end) == AverageMid(other, start, end)
    decreases |rates|
  {
    hide Sum, Count;
    if rates == [] {
      assert |multiset(other)| == 0;
    } else {
      assert rates[0] in multiset(other);
      var i :| 0 <= i < |other| && other[i] == rates[0];
      SumWithout(rates, 0, start, end);
      SumWithout(other, i, start, end);
      AverageIgnoresOrder(Without(rates, 0), Without(other, i), start, end);
    }
  }

  /**
   * Averages over a split window are combined by their counts: of [start, end], the rates up to `mid`
   * and those behind it add up exactly.
   */
  lemma {:induction false} WindowSplits(rates: seq<Rate>, start: string, mid: string, next: string, end: string)
    requires StringLessEqual(start, mid) && StringLess(mid, next) && StringLessEqual(next, end)
    requires forall r | r in rates :: !(StringLess(mid, r.date) && StringLess(r.date, next))
    ensures Sum(rates, start, end) == Sum(rates, start, mid) + Sum(rates, next, end)
    ensures Count(rates, start, end) == Count(rates, start, mid) + Count(rates, next, end)
  {
    if rates != [] {
      var r := rates[|rates| - 1];
      WindowSplits(rates[..|rates| - 1], start, mid, next, end);
      assert r in rates;
      OneSide(r.date, start, mid, next, end);
    }
  }

  lemma OneSide(date: string, start: string, mid: string, next: string, end: string)
    requires StringLessEqual(start, mid) && StringLess(mid, next) && StringLessEqual(next, end)
    requires !(StringLess(mid, date) && StringLess(date, next))
    ensures InWindow(date, start, end) <==> (InWindow(date, start, mid) || InWindow(date, next, end))
    ensures !(InWindow(date, start, mid) && InWindow(date, next, end))
  {
    LessEqualTrans(start, mid, next);
    LessEqualTrans(start, next, date);
    LessEqualTrans(date, mid, next);
    LessEqualTrans(date, next, end);
    LessEqualTrans(next, date, mid);
    StringTrichotomy(date, mid);
    StringTrichotomy(date, next);
    StringTrichotomy(mid, next);
  }

  lemma LessEqualTrans(a: string, b: string, c: string)
    ensures StringLessEqual(a, b) && StringLessEqual(b, c) ==> StringLessEqual(a, c)
  {
    if StringLess(a, b) && StringLess(b, c) { StringLessTrans(a, b, c); }
  }

  // ---- The stock rate ---------------------------------------------------------------------

  /** `max_by` over the dates up to `end`: of equal dates the last one wins. */
  function Latest(rates: seq<Rate>, end: string): Option<Rate> {
    if rates == [] then None
    else
      var best, r := Latest(rates[..|rates| - 1], end), rates[|rates| - 1];
      if StringLessEqual(r.date, end) && (best.None? || !StringLess(r.date, best.value.date)) then Some(r) else best
  }

  function LatestMidOnOrBefore(rates: seq<Rate>, end: string): Option<int> {
    var latest := Latest(rates, end);
    if latest.Some? then Some(latest.value.mid) else None
  }

  /** A row dated on or before `end`, and none of the rows up to `end` is later. */
  ghost predicate IsLatest(rates: seq<Rate>, end: string, r: Rate) {
    && r in rates && StringLessEqual(r.date, end)
    && forall q | q in rates && StringLessEqual(q.date, end) :: StringLessEqual(q.date, r.date)
  }

  lemma {:induction false} LatestIsLatest(rates: seq<Rate>, end: string)
    ensures Latest(rates, end).None? <==> forall r | r in rates :: !StringLessEqual(r.date, end)
    ensures Latest(rates, end).Some? ==> IsLatest(rates, end, Latest(rates, end).value)
  {
    if rates != [] {
      var n := |rates| - 1;
      var before, r := rates[..n], rates[n];
      LatestIsLatest(before, end);
      assert forall q :: q in rates <==> q in before || q == r;
      var best := Latest(before, end);
      if best.Some? {
        StringTrichotomy(r.date, best.value.date);
        forall q | q in before && StringLessEqual(q.date, end)
          ensures StringLessEqual(best.value.date, r.date) ==> StringLessEqual(q.date, r.date) {
          LessEqualTrans(q.date, best.value.date, r.date);
        }
      }
    }
  }

  /** Row `i` is of the latest date up to `end`, and the last row of that date. */
  ghost predicate IsLastOfLatest(rates: seq<Rate>, end: string, i: nat) {
    && i < |rates| && StringLessEqual(rates[i].date, end)
    && forall j | 0 <= j < |rates| && StringLessEqual(rates[j].date, end) ::
      if j <= i then StringLessEqual(rates[j].date, rates[i].date) else StringLess(rates[j].date, rates[i].date)
  }

  /** Of the rows of the latest date the last one is taken. */
  lemma {:induction false} LatestIsTheLastOne(rates: seq<Rate>, end: string) returns (i: nat)
    requires Latest(rates, end).Some?
    ensures IsLastOfLatest(rates, end, i) && rates[i] == Latest(rates, end).value
  {
    var n := |rates| - 1;
    var before, r := rates[..n], rates[n];
    if Latest(before, end).None? {
      LatestIsLatest(before, end);
      i := n;
      forall j | 0 <= j < n ensures !StringLessEqual(rates[j].date, end) { assert rates[j] in before; }
    } else {
      i := LatestIsTheLastOne(before, end);
      StringTrichotomy(r.date, rates[i].date);
      if StringLessEqual(r.date, end) && !StringLess(r.date, rates[i].date) {
        forall j | 0 <= j < n && StringLessEqual(rates[j].date, end) ensures StringLessEqual(rates[j].date, r.date) {
          assert before[j] == rates[j];
          LessEqualTrans(rates[j].date, rates[i].date, r.date);
        }
        i := n;
      } else {
        assert forall j | 0 <= j < n :: before[j] == rates[j];
      }
    }
  }

  lemma LastWins(rates: seq<Rate>, end: string, r: Rate)
    requires IsLatest(rates + [r], end, r)
    ensures Latest(rates + [r], end) == Some(r)
  {
    assert (rates + [r])[..|rates|] == rates;
    LatestIsLatest(rates, end);
    var best := Latest(rates, end);
    if best.Some? {
      assert best.value in rates + [r];
      StringTrichotomy(best.value.date, r.date);
    }
  }

  /** The row `r` moved to the end. */
  lemma MovedLast(rates: seq<Rate>, end: string, r: Rate) returns (moved: seq<Rate>)
    requires IsLatest(rates, end, r)
    ensures multiset(moved) == multiset(rates) && Latest(moved, end) == Some(r)
  {
    var i :| 0 <= i < |rates| && rates[i] == r;
    var rest := rates[..i] + rates[i + 1..];
    assert rates == rates[..i] + [r] + rates[i + 1..];
    moved := rest + [r];
    forall q ensures q in moved <==> q in rates { assert q in multiset(moved) <==> q in multiset(rates); }
    LastWins(rest, end, r);
  }

  /**
   * The stock rate is independent of the order of the rows exactly when all rows of the latest date
   * carry the same mid; with two different mids on that date the last row decides.
   */
  lemma StockRateIgnoresOrderIff(rates: seq<Rate>, end: string)
    ensures (forall other | multiset(other) == multiset(rates) ::
      LatestMidOnOrBefore(other, end) == LatestMidOnOrBefore(rates, end))
      <==> (forall a, b | IsLatest(rates, end, a) && IsLatest(rates, end, b) :: a.mid == b.mid)
  {
    if forall a, b | IsLatest(rates, end, a) && IsLatest(rates, end, b) :: a.mid == b.mid {
      forall other | multiset(other) == multiset(rates)
        ensures LatestMidOnOrBefore(other, end) == LatestMidOnOrBefore(rates, end) {
        LatestIsLatest(rates, end);
        LatestIsLatest(other, end);
        forall q ensures q in other <==> q in rates { assert q in multiset(other) <==> q in multiset(rates); }
      }
    } else {
      var a, b :| IsLatest(rates, end, a) && IsLatest(rates, end, b) && a.mid != b.mid;
      var x := MovedLast(rates, end, a);
      var y := MovedLast(rates, end, b);
      assert LatestMidOnOrBefore(x, end) != LatestMidOnOrBefore(y, end);
    }
  }

  // ---- Conversion -------------------------------------------------------------------------

  datatype MeasureWindow = Flow | Stock
  datatype Basis = PeriodAverage | LatestOnOrBefore | NativePln
  datatype Conversion = Converted(value: real, mid: real, basis: Basis) | MissingRate

  predicate IsPln(currency: string) {
    |currency| == 3 && currency[0] in {'P', 'p'} && currency[1] in {'L', 'l'} && currency[2] in {'N', 'n'}
  }

  function ResolveMid(rates: seq<Rate>, window: MeasureWindow, start: string, end: string): Option<(int, Basis)> {
    match window
    case Flow =>
      var mid := AverageMid(rates, start, end);
      if mid.Some? then Some((mid.value, PeriodAverage)) else None
    case Stock =>
      var mid := LatestMidOnOrBefore(rates, end);
      if mid.Some? then Some((mid.value, LatestOnOrBefore)) else None
  }

  /** `unit` is how many units make 1; amount and product are exact. */
  function ConvertToPln(amount: real, currency: string, rates: seq<Rate>, unit: nat, window: MeasureWindow,
    start: string, end: string): Conversion
    requires unit > 0
  {
    if IsPln(currency) then Converted(amount, 1.0, NativePln)
    else
      var resolved := ResolveMid(rates, window, start, end);
      if resolved.None? then MissingRate
      else
        var mid := resolved.value.0 as real / unit as real;
        Converted(amount * mid, mid, resolved.value.1)
  }

  /** A rate the basis of `window` can use. */
  predicate Usable(r: Rate, window: MeasureWindow, start: string, end: string) {
    if window.Flow? then InWindow(r.date, start, end) else StringLessEqual(r.date, end)
  }

  lemma {:induction false} CountsUsable(rates: seq<Rate>, start: string, end: string)
    ensures Count(rates, start, end) == 0 <==> forall r | r in rates :: !InWindow(r.date, start, end)
  {
    if rates != [] {
      var n := |rates| - 1;
      CountsUsable(rates[..n], start, end);
      assert forall q :: q in rates <==> q in rates[..n] || q == rates[n];
    }
  }

  /** A conversion succeeds exactly when the amount is in PLN or some usable rate exists; never by a guess. */
  lemma ConvertsIff(amount: real, currency: string, rates: seq<Rate>, unit: nat, window: MeasureWindow, start: string,
    end: string)
    requires unit > 0
    ensures ConvertToPln(amount, currency, rates, unit, window, start, end).Converted? <==>
      IsPln(currency) || exists r :: r in rates && Usable(r, window, start, end)
  {
    CountsUsable(rates, start, end);
    LatestIsLatest(rates, end);
  }

  /** `currency` is PLN, each letter in either case. */
  lemma PlnInAnyCase(currency: string)
    ensures IsPln(currency) <==>
      |currency| == 3 && forall i | 0 <= i < 3 :: currency[i] == "PLN"[i] || currency[i] == "pln"[i]
  {
    if |currency| == 3 && forall i | 0 <= i < 3 :: currency[i] == "PLN"[i] || currency[i] == "pln"[i] {
      assert currency[0] in {'P', 'p'} && currency[1] in {'L', 'l'} && currency[2] in {'N', 'n'};
    }
  }

  /** The mid, in units, that a basis stands for: the last row of the latest date, or the nearest to the mean. */
  ghost predicate IsMidFor(mid: int, basis: Basis, rates: seq<Rate>, window: MeasureWindow, start: string, end: string)
  {
    match window
    case Stock => basis == LatestOnOrBefore && exists i: nat :: IsLastOfLatest(rates, end, i) && rates[i].mid == mid
    case Flow =>
      && basis == PeriodAverage && Count(rates, start, end) > 0
      && IsNearestEven(Sum(rates, start, end), Count(rates, start, end), mid)
  }

  /**
   * What a conversion answers: a PLN amount itself with mid 1; any other amount times the mid of its
   * basis, never a multiplier of its own making.
   */
  lemma ConvertedAmount(amount: real, currency: string, rates: seq<Rate>, unit: nat, window: MeasureWindow,
    start: string, end: string)
    requires unit > 0 && ConvertToPln(amount, currency, rates, unit, window, start, end).Converted?
    ensures var r := ConvertToPln(amount, currency, rates, unit, window, start, end);
      if IsPln(currency) then r.value == amount && r.mid == 1.0 && r.basis == NativePln
      else r.value == amount * r.mid && exists mid ::
        IsMidFor(mid, r.basis, rates, window, start, end) && r.mid * unit as real == mid as real
  {
    if !IsPln(currency) {
      var mid := ResolveMid(rates, window, start, end).value.0;
      if window.Stock? {
        var i := LatestIsTheLastOne(rates, end);
      } else {
        RoundsHalfEven(Sum(rates, start, end), Count(rates, start, end), mid);
      }
      assert IsMidFor(mid, ResolveMid(rates, window, start, end).value.1, rates, window, start, end);
      Divided(mid as real, unit as real);
    }
  }

  lemma Divided(a: real, b: real)
    requires b != 0.0
    ensures a / b * b == a
  {
  }
}
