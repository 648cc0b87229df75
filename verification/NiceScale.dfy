/**
 * Chart axes over exact reals. `toPrecision(12)` and IEEE rounding, which only hide float drift, are
 * idealised away.
 */
module NiceScale {
  import opened PowersOfTen

  // ---- Decades ----------------------------------------------------------------------------

  /** `Math.floor(Math.log10(x))`. */
  function FloorLog10(x: real): (k: int)
    requires x > 0.0
    ensures Pow10(k) <= x < 10.0 * Pow10(k)
    decreases if x < 1.0 then 1 else 0, if x < 1.0 then (1.0 / x).Floor else x.Floor
  {
    if x < 1.0 then
      Below(x);
      Pow10Next(FloorLog10(10.0 * x) - 1);
      FloorLog10(10.0 * x) - 1
    else if x < 10.0 then 0
    else
      Above(x);
      Pow10Next(FloorLog10(x / 10.0));
      FloorLog10(x / 10.0) + 1
  }

  lemma Below(x: real)
    requires 0.0 < x < 1.0
    ensures 10.0 * x > 0.0 && (10.0 * x < 1.0 ==> 0 <= (1.0 / (10.0 * x)).Floor < (1.0 / x).Floor)
  {
    if 10.0 * x < 1.0 {
      var inverse := 1.0 / x;
      InverseAbove(x, inverse);
      assert 1.0 / (10.0 * x) == inverse / 10.0 by { assert (inverse / 10.0) * (10.0 * x) == 1.0; }
    }
  }

  lemma InverseAbove(x: real, inverse: real)
    requires 0.0 < 10.0 * x < 1.0 && inverse * x == 1.0
    ensures inverse > 10.0
  {
    var excess := inverse - 10.0;
    assert excess * x == inverse * x - 10.0 * x > 0.0;
    assert excess > 0.0;
  }

  lemma Above(x: real)
    requires x >= 10.0
    ensures 1.0 <= x / 10.0 && 0 <= (x / 10.0).Floor < x.Floor
  {
  }

  // ---- The step ---------------------------------------------------------------------------

  function Factor(normalized: real): real {
    if normalized <= 1.0 then 1.0 else if normalized <= 2.0 then 2.0 else if normalized <= 2.5 then 2.5
    else if normalized <= 5.0 then 5.0 else 10.0
  }

  function NiceStep(raw: real): (step: real)
    requires raw > 0.0
    ensures step > 0.0
  {
    var magnitude := Pow10(FloorLog10(raw));
    Factor(raw / magnitude) * magnitude
  }

  /** A step is at least what was asked for and less than twice that. */
  lemma NiceStepBounds(raw: real)
    requires raw > 0.0
    ensures raw <= NiceStep(raw) < 2.0 * raw
  {
    var magnitude := Pow10(FloorLog10(raw));
    var normalized := raw / magnitude;
    assert normalized * magnitude == raw;
    NormalizedBounds(raw, magnitude, normalized);
    ScaledBounds(raw, magnitude, normalized, Factor(normalized));
  }

  lemma SignOf(a: real, m: real)
    requires m > 0.0
    ensures (a < 0.0 <==> a * m < 0.0) && (a > 0.0 <==> a * m > 0.0)
  {
  }

  lemma NormalizedBounds(raw: real, magnitude: real, normalized: real)
    requires normalized * magnitude == raw && 0.0 < magnitude <= raw < 10.0 * magnitude
    ensures 1.0 <= normalized < 10.0
  {
    SignOf(normalized - 1.0, magnitude);
    SignOf(10.0 - normalized, magnitude);
  }

  lemma ScaledBounds(raw: real, magnitude: real, normalized: real, factor: real)
    requires normalized * magnitude == raw && magnitude > 0.0 && normalized <= factor < 2.0 * normalized
    ensures raw <= factor * magnitude < 2.0 * raw
  {
    assert (factor - normalized) * magnitude == factor * magnitude - raw;
    assert (2.0 * normalized - factor) * magnitude == 2.0 * raw - factor * magnitude;
  }

  /** 1, 2, 2.5 or 5 times a power of ten. */
  ghost predicate IsNice(x: real) { exists k, f :: IsNiceAt(x, k, f) }

  ghost predicate IsNiceAt(x: real, k: int, f: real) { f in {1.0, 2.0, 2.5, 5.0} && x == f * Pow10(k) }

  /** A step is the least nice number that is not below what was asked for. */
  lemma NiceStepIsLeast(raw: real)
    requires raw > 0.0
    ensures IsNice(NiceStep(raw)) && raw <= NiceStep(raw)
    ensures forall x | IsNice(x) && raw <= x :: NiceStep(raw) <= x
  {
    hide NiceStep, Pow10, Factor;
    var k, normalized := StepParts(raw);
    NiceStepBounds(raw);
    FactorIsNice(normalized, k);
    forall x | IsNice(x) && raw <= x ensures NiceStep(raw) <= x {
      var j, g :| IsNiceAt(x, j, g);
      NoSmallerStep(raw, k, normalized, x, j, g);
    }
  }

  lemma StepParts(raw: real) returns (k: int, normalized: real)
    requires raw > 0.0
    ensures normalized * Pow10(k) == raw && 1.0 <= normalized < 10.0
    ensures NiceStep(raw) == Factor(normalized) * Pow10(k)
  {
    hide Pow10, Factor;
    k := FloorLog10(raw);
    normalized := raw / Pow10(k);
    Divided(raw, Pow10(k));
    NormalizedBounds(raw, Pow10(k), normalized);
  }

  lemma FactorIsNice(normalized: real, k: int)
    ensures IsNice(Factor(normalized) * Pow10(k))
  {
    hide Pow10;
    Pow10Next(k);
    var f := Factor(normalized);
    assert if f == 10.0 then IsNiceAt(f * Pow10(k), k + 1, 1.0) else IsNiceAt(f * Pow10(k), k, f);
  }

  lemma NoSmallerStep(raw: real, k: int, normalized: real, x: real, j: int, g: real)
    requires normalized * Pow10(k) == raw && 1.0 <= normalized < 10.0
    requires IsNiceAt(x, j, g) && raw <= x
    ensures Factor(normalized) * Pow10(k) <= x
  {
    hide Pow10;
    if j == k {
      Order(normalized, g, Pow10(k), raw, x);
      Order(Factor(normalized), g, Pow10(k), Factor(normalized) * Pow10(k), x);
    } else if j > k {
      Pow10Grows(k, j);
      Order(Factor(normalized), 10.0, Pow10(k), Factor(normalized) * Pow10(k), 10.0 * Pow10(k));
      Order(1.0, g, Pow10(j), Pow10(j), x);
    } else {
      Pow10Grows(j, k);
      Order(g, 5.0, Pow10(j), x, 5.0 * Pow10(j));
      Order(1.0, normalized, Pow10(k), Pow10(k), raw);
      assert false;
    }
  }

  // ---- The linear axis --------------------------------------------------------------------

  datatype Scale = Scale(min: real, max: real, ticks: seq<real>)

  function Ceil(x: real): (n: int)
    ensures x <= n as real < x + 1.0
  {
    -(-x).Floor
  }

  /** `Array.from({ length }, (_, index) => min + index * step)`. */
  function Spread(min: real, length: int, step: real): seq<real> {
    seq(if length < 0 then 0 else length, i => min + i as real * step)
  }

  function FlatRaw(dataMin: real): (raw: real)
    ensures raw > 0.0
  {
    var size := if dataMin < 0.0 then -dataMin / 10.0 else dataMin / 10.0;
    if size < 0.000001 then 0.000001 else size
  }

  function AxisBetween(dataMin: real, dataMax: real, step: real): Scale
    requires step > 0.0
  {
    var min, max := (dataMin / step).Floor as real * step, Ceil(dataMax / step) as real * step;
    var count := ((max - min) / step + 0.5).Floor;
    Scale(min, max, Spread(min, count + 1, step))
  }

  function FlatBetween(value: real, step: real): Scale
    requires step > 0.0
  {
    var min := (value / step).Floor as real * step - step;
    Scale(min, min + 2.0 * step, [min, min + step, min + 2.0 * step])
  }

  /** `niceScale` with its four intervals. */
  function NiceScale(dataMin: real, dataMax: real): Scale {
    if dataMax <= dataMin then FlatBetween(dataMin, NiceStep(FlatRaw(dataMin)))
    else AxisBetween(dataMin, dataMax, NiceStep((dataMax - dataMin) / 4.0))
  }

  ghost predicate Increasing(s: seq<real>) { forall i, j | 0 <= i < j < |s| :: s[i] < s[j] }

  ghost predicate Inside(s: seq<real>, lo: real, hi: real) { forall x | x in s :: lo <= x <= hi }

  /** Consecutive multiples of `step`, from `first` times it on. */
  ghost predicate Multiples(s: seq<real>, first: int, step: real) {
    forall i | 0 <= i < |s| :: s[i] == (first + i) as real * step
  }

  /** A span of at most four and more than two steps, divided by the step. */
  lemma StepsApart(distance: real, step: real, span: real)
    requires step > 0.0 && distance * step == span && span <= 4.0 * step && 2.0 * step < span
    ensures 2.0 < distance <= 4.0
  {
    SignOf(distance - 2.0, step);
    SignOf(distance - 4.0, step);
  }

  lemma QuotientIs(x: real, n: real, step: real)
    requires step > 0.0 && x == n * step
    ensures x / step == n
  {
    var q := x / step;
    Divided(x, step);
    Difference(q, n, step);
    SignOf(q - n, step);
  }

  lemma Divided(x: real, step: real)
    requires step > 0.0
    ensures x / step * step == x
  {
  }

  lemma Difference(x: real, y: real, m: real)
    ensures x * m - y * m == (x - y) * m
  {
  }

  lemma CountIsExact(first: int, last: int, step: real, min: real, max: real)
    requires step > 0.0 && min == first as real * step && max == last as real * step
    ensures ((max - min) / step + 0.5).Floor == last - first
  {
    var n := (last - first) as real;
    Difference(last as real, first as real, step);
    assert last as real - first as real == n;
    QuotientIs(max - min, n, step);
  }

  lemma SpreadIsMultiples(first: int, length: nat, step: real, min: real)
    requires min == first as real * step
    ensures |Spread(min, length, step)| == length && Multiples(Spread(min, length, step), first, step)
  {
    var s := Spread(min, length, step);
    forall i | 0 <= i < |s| ensures s[i] == (first + i) as real * step {
      assert (first + i) as real == first as real + i as real;
    }
  }

  lemma MultiplesIncrease(s: seq<real>, first: int, step: real)
    requires step > 0.0 && Multiples(s, first, step)
    ensures Increasing(s)
  {
    forall i, j | 0 <= i < j < |s| ensures s[i] < s[j] {
      Order((first + i) as real, (first + j) as real, step, s[i], s[j]);
    }
  }

  lemma Order(a: real, b: real, m: real, x: real, y: real)
    requires m > 0.0 && x == a * m && y == b * m
    ensures (a < b <==> x < y) && (a <= b <==> x <= y)
  {
    Difference(b, a, m);
    SignOf(b - a, m);
  }

  /** What a reader expects of an axis: it covers the data with evenly spaced multiples of a step. */
  ghost predicate Axis(s: Scale, dataMin: real, dataMax: real, step: real) {
    && s.min <= dataMin && dataMax <= s.max
    && |s.ticks| >= 2 && s.ticks[0] == s.min && s.ticks[|s.ticks| - 1] == s.max
    && Increasing(s.ticks)
    && exists first :: Multiples(s.ticks, first, step)
  }

  /**
   * For a positive span the axis covers the data with four to six ticks: consecutive multiples of one
   * step that is at least a quarter and less than half of the span, from the axis' minimum to its
   * maximum, all but the two ends within the data.
   */
  lemma NiceScaleCovers(dataMin: real, dataMax: real)
    requires dataMin < dataMax
    ensures var s, step := NiceScale(dataMin, dataMax), NiceStep((dataMax - dataMin) / 4.0);
      && Axis(s, dataMin, dataMax, step) && 4 <= |s.ticks| <= 6
      && dataMax - dataMin <= 4.0 * step < 2.0 * (dataMax - dataMin)
      && forall i | 1 <= i < |s.ticks| - 1 :: dataMin <= s.ticks[i] <= dataMax
  {
    hide NiceStep;
    NiceStepBounds((dataMax - dataMin) / 4.0);
    AxisOfStep(dataMin, dataMax, NiceStep((dataMax - dataMin) / 4.0));
  }

  lemma AxisOfStep(dataMin: real, dataMax: real, step: real)
    requires step > 0.0 && dataMax - dataMin <= 4.0 * step < 2.0 * (dataMax - dataMin)
    ensures var s := AxisBetween(dataMin, dataMax, step);
      && Axis(s, dataMin, dataMax, step) && 4 <= |s.ticks| <= 6
      && forall i | 1 <= i < |s.ticks| - 1 :: dataMin <= s.ticks[i] <= dataMax
  {
    hide Axis, Spread;
    Divided(dataMin, step);
    Divided(dataMax, step);
    var first, last, s := (dataMin / step).Floor, Ceil(dataMax / step), AxisBetween(dataMin, dataMax, step);
    CountIsExact(first, last, step, s.min, s.max);
    AxisFrom(dataMin, dataMax, step, dataMin / step, dataMax / step, first, last, s);
  }

  lemma AxisFrom(dataMin: real, dataMax: real, step: real, a: real, b: real, first: int, last: int, s: Scale)
    requires step > 0.0 && dataMax - dataMin <= 4.0 * step < 2.0 * (dataMax - dataMin)
    requires a * step == dataMin && b * step == dataMax
    requires first as real <= a < first as real + 1.0 && b <= last as real < b + 1.0
    requires s.min == first as real * step && s.max == last as real * step
    requires s.ticks == Spread(s.min, last - first + 1, step)
    ensures Axis(s, dataMin, dataMax, step) && 4 <= |s.ticks| <= 6
    ensures forall i | 1 <= i < |s.ticks| - 1 :: dataMin <= s.ticks[i] <= dataMax
  {
    hide Multiples, Increasing, Spread, Axis;
    Difference(b, a, step);
    StepsApart(b - a, step, dataMax - dataMin);
    SpreadIsMultiples(first, last - first + 1, step, s.min);
    AxisAround(dataMin, dataMax, step, a, b, first, last, s);
  }

  /** The axis for the data from `a` to `b` steps. */
  lemma AxisAround(dataMin: real, dataMax: real, step: real, a: real, b: real, first: int, last: int, s: Scale)
    requires step > 0.0 && 2.0 < b - a <= 4.0 && a * step == dataMin && b * step == dataMax
    requires first as real <= a < first as real + 1.0 && b <= last as real < b + 1.0
    requires s.min == first as real * step && s.max == last as real * step
    requires |s.ticks| == last - first + 1 && Multiples(s.ticks, first, step)
    ensures Axis(s, dataMin, dataMax, step) && 4 <= |s.ticks| <= 6
    ensures forall i | 1 <= i < |s.ticks| - 1 :: dataMin <= s.ticks[i] <= dataMax
  {
    Order(first as real, a, step, s.min, dataMin);
    Order(b, last as real, step, dataMax, s.max);
    MultiplesIncrease(s.ticks, first, step);
    forall i | 1 <= i < |s.ticks| - 1 ensures dataMin <= s.ticks[i] <= dataMax {
      Order(a, (first + i) as real, step, dataMin, s.ticks[i]);
      Order((first + i) as real, b, step, s.ticks[i], dataMax);
    }
  }

  /** At least `raw`, and no other nice number lies between. */
  ghost predicate IsStepFor(step: real, raw: real) {
    IsNice(step) && raw <= step && forall x | IsNice(x) && raw <= x :: step <= x
  }

  /**
   * A flat or reversed series is padded: its value lies in the upper interval of three ticks, which are
   * apart by the nice step for a tenth of the value, or for a millionth if that is more.
   */
  lemma FlatScaleCovers(dataMin: real, dataMax: real) returns (step: real)
    requires dataMax <= dataMin
    ensures var tenth := (if dataMin < 0.0 then -dataMin else dataMin) / 10.0;
      IsStepFor(step, if tenth < 0.000001 then 0.000001 else tenth)
    ensures var s := NiceScale(dataMin, dataMax);
      Axis(s, dataMin, dataMin, step) && |s.ticks| == 3 && s.ticks[1] <= dataMin < s.ticks[2]
  {
    NiceStepIsLeast(FlatRaw(dataMin));
    step := NiceStep(FlatRaw(dataMin));
    hide NiceStep, FlatRaw;
    FlatAxis(dataMin, NiceStep(FlatRaw(dataMin)));
  }

  lemma FlatAxis(value: real, step: real)
    requires step > 0.0
    ensures var s := FlatBetween(value, step);
      Axis(s, value, value, step) && |s.ticks| == 3 && s.ticks[1] <= value < s.ticks[2]
  {
    hide Axis;
    Divided(value, step);
    FlatAxisFrom(value, step, value / step, (value / step).Floor, FlatBetween(value, step));
  }

  lemma FlatAxisFrom(value: real, step: real, a: real, n: int, s: Scale)
    requires step > 0.0 && a * step == value && n as real <= a < n as real + 1.0
    requires s.min == n as real * step - step && s.max == s.min + 2.0 * step
    requires s.ticks == [s.min, s.min + step, s.min + 2.0 * step]
    ensures Axis(s, value, value, step) && s.ticks[1] <= value < s.ticks[2]
  {
    Next(n - 1, step);
    Next(n, step);
    Order(n as real, a, step, s.min + step, value);
    Order(a, (n + 1) as real, step, value, s.max);
    assert Multiples(s.ticks, n - 1, step);
  }

  lemma Next(n: int, step: real)
    ensures (n + 1) as real * step == n as real * step + step
  {
    assert (n + 1) as real == n as real + 1.0;
  }

  // ---- The logarithmic axis ---------------------------------------------------------------

  const LOG_MANTISSAS: seq<real> := [1.0, 2.0, 5.0]

  /** 1, 2 and 5 times every power of ten from 10^low to 10^(low + decades - 1). */
  function Candidates(low: int, decades: nat): seq<real> {
    if decades == 0 then []
    else
      var p := Pow10(low + decades - 1);
      Candidates(low, decades - 1) + [p, 2.0 * p, 5.0 * p]
  }

  function Within(s: seq<real>, lo: real, hi: real): seq<real> {
    if s == [] then []
    else
      var x := s[|s| - 1];
      Within(s[..|s| - 1], lo, hi) + if lo <= x <= hi then [x] else []
  }

  function EveryOther(s: seq<real>): seq<real> {
    seq((|s| + 1) / 2, i requires 0 <= i < (|s| + 1) / 2 => s[2 * i])
  }

  /** Every `d`-th element, the first one included. */
  ghost function Strided(s: seq<real>, d: nat): seq<real>
    requires d > 0
  {
    seq((|s| + d - 1) / d, i requires 0 <= i < (|s| + d - 1) / d => (StrideInside(|s|, d, i); s[i * d]))
  }

  lemma StrideInside(n: nat, d: nat, i: nat)
    requires d > 0 && i < (n + d - 1) / d
    ensures i * d < n
  {
    var q, r := (n + d - 1) / d, (n + d - 1) % d;
    assert n + d - 1 == q * d + r;
    Multiplied(i + 1, q, d);
  }

  lemma Multiplied(a: nat, b: nat, d: nat)
    requires a <= b
    ensures a * d <= b * d && (a - 1) * d == a * d - d
  {
  }

  ghost function Two(k: nat): (d: nat)
    ensures d > 0
  {
    if k == 0 then 1 else 2 * Two(k - 1)
  }

  lemma StridedOnce(s: seq<real>)
    ensures Strided(s, Two(0)) == s
  {
  }

  lemma Halves(n: nat, d: nat)
    requires d > 0
    ensures ((n + d - 1) / d + 1) / 2 == (n + 2 * d - 1) / (2 * d)
  {
    var q, r := (n + d - 1) / d, (n + d - 1) % d;
    assert n + d - 1 == q * d + r;
    var p, t := (q + 1) / 2, (q + 1) % 2;
    assert n + 2 * d - 1 == (q + 1) * d + r;
    assert (q + 1) * d == 2 * p * d + t * d;
    assert 0 <= t * d + r < 2 * d;
    assert p * (2 * d) == 2 * p * d;
    Quotient(n + 2 * d - 1, 2 * d, p, t * d + r);
  }

  lemma Quotient(n: int, d: nat, q: int, r: int)
    requires n == q * d + r && 0 <= r < d
    ensures n / d == q
  {
    var rest, gap := n % d, n / d - q;
    assert n == (n / d) * d + rest;
    assert gap * d == (n / d) * d - q * d;
    Shifted(gap, d);
    SignOfProduct(gap - 1, d);
    SignOfProduct(gap + 1, d);
  }

  lemma Shifted(a: int, d: nat)
    ensures (a - 1) * d == a * d - d && (a + 1) * d == a * d + d
  {
  }

  lemma SignOfProduct(a: int, d: nat)
    requires d > 0
    ensures (a < 0 <==> a * d < 0) && (a > 0 <==> a * d > 0)
  {
  }

  /** Taking every other one of every `d`-th is taking every one at twice the distance. */
  lemma EveryOtherDoubles(s: seq<real>, k: nat)
    ensures EveryOther(Strided(s, Two(k))) == Strided(s, Two(k + 1))
  {
    var d := Two(k);
    Halves(|s|, d);
    var once, twice := Strided(s, d), Strided(s, 2 * d);
    StridedAt(s, d);
    StridedAt(s, 2 * d);
    hide Strided, Two;
    forall i | 0 <= i < |twice| ensures EveryOther(once)[i] == twice[i] { Twofold(i, d); }
  }

  lemma Twofold(i: nat, d: nat)
    ensures (2 * i) * d == i * (2 * d)
  {
  }

  lemma StridedAt(s: seq<real>, d: nat)
    requires d > 0
    ensures |Strided(s, d)| == (|s| + d - 1) / d
    ensures forall i | 0 <= i < |Strided(s, d)| :: i * d < |s| && Strided(s, d)[i] == s[i * d]
  {
    forall i | 0 <= i < |Strided(s, d)| ensures i * d < |s| { StrideInside(|s|, d, i); }
  }

  lemma {:induction false} CandidatesIncrease(low: int, decades: nat)
    ensures Increasing(Candidates(low, decades))
    ensures forall x | x in Candidates(low, decades) :: x < Pow10(low + decades)
    decreases decades
  {
    if decades > 0 {
      CandidatesIncrease(low, decades - 1);
      Pow10Next(low + decades - 1);
      var before, p := Candidates(low, decades - 1), Pow10(low + decades - 1);
      AppendIncreasing(before, p);
    }
  }

  lemma AppendIncreasing(s: seq<real>, p: real)
    requires Increasing(s) && p > 0.0 && forall x | x in s :: x < p
    ensures Increasing(s + [p, 2.0 * p, 5.0 * p])
  {
    var all := s + [p, 2.0 * p, 5.0 * p];
    forall i, j | 0 <= i < j < |all| ensures all[i] < all[j] {
      if i < |s| { assert s[i] in s; }
    }
  }

  ghost predicate HasDecade(s: seq<real>, p: real) { p in s && 2.0 * p in s && 5.0 * p in s }

  lemma {:induction false} CandidatesHold(low: int, decades: nat, k: int)
    requires low <= k < low + decades
    ensures HasDecade(Candidates(low, decades), Pow10(k))
    decreases decades
  {
    hide Pow10;
    var before, p := Candidates(low, decades - 1), Pow10(low + decades - 1);
    if k < low + decades - 1 {
      CandidatesHold(low, decades - 1, k);
      DecadeStays(before, [p, 2.0 * p, 5.0 * p], Pow10(k));
    } else {
      LastDecade(before, p);
    }
  }

  lemma DecadeStays(s: seq<real>, t: seq<real>, p: real)
    requires HasDecade(s, p)
    ensures HasDecade(s + t, p)
  {
  }

  lemma LastDecade(s: seq<real>, p: real)
    ensures HasDecade(s + [p, 2.0 * p, 5.0 * p], p)
  {
    var all := s + [p, 2.0 * p, 5.0 * p];
    assert all[|s|] == p && all[|s| + 1] == 2.0 * p && all[|s| + 2] == 5.0 * p;
  }

  lemma {:induction false} WithinFacts(s: seq<real>, lo: real, hi: real)
    requires Increasing(s)
    ensures Increasing(Within(s, lo, hi)) && Inside(Within(s, lo, hi), lo, hi)
    ensures forall x :: x in Within(s, lo, hi) <==> x in s && lo <= x <= hi
  {
    if s != [] {
      var before, x := s[..|s| - 1], s[|s| - 1];
      WithinFacts(before, lo, hi);
      assert forall y :: y in s <==> y in before || y == x;
      assert forall y | y in before :: y < x;
      if lo <= x <= hi { OneMore(Within(before, lo, hi), x); }
    }
  }

  lemma OneMore(s: seq<real>, x: real)
    requires Increasing(s) && forall y | y in s :: y < x
    ensures Increasing(s + [x])
  {
    forall i, j | 0 <= i < j < |s + [x]| ensures (s + [x])[i] < (s + [x])[j] {
      assert s[i] in s;
    }
  }

  lemma EveryOtherFacts(s: seq<real>, lo: real, hi: real)
    requires Increasing(s) && Inside(s, lo, hi)
    ensures Increasing(EveryOther(s)) && Inside(EveryOther(s), lo, hi)
    ensures forall x | x in EveryOther(s) :: x in s
  {
    forall x | x in EveryOther(s) ensures x in s {}
  }

  ghost predicate RoundAt(x: real, k: int) { x == Pow10(k) || x == 2.0 * Pow10(k) || x == 5.0 * Pow10(k) }

  /** Is `x` a round price: 1, 2 or 5 times a power of ten? */
  ghost predicate IsRound(x: real) { exists k :: RoundAt(x, k) }

  /** The round prices in the data, as the filter finds them among the candidates. */
  function RoundWithin(dataMin: real, dataMax: real): seq<real>
    requires 0.0 < dataMin < dataMax
  {
    Ordered(dataMin, dataMax);
    var low := FloorLog10(dataMin) - 1;
    Within(Candidates(low, FloorLog10(dataMax) + 2 - low), dataMin, dataMax)
  }

  lemma Ordered(x: real, y: real)
    requires 0.0 < x <= y
    ensures FloorLog10(x) <= FloorLog10(y)
  {
    if FloorLog10(y) < FloorLog10(x) { Pow10Grows(FloorLog10(y), FloorLog10(x)); }
  }

  /** The filter finds exactly the round prices in the data: no decade is missing at either end. */
  lemma RoundWithinIsComplete(dataMin: real, dataMax: real, x: real)
    requires 0.0 < dataMin < dataMax
    ensures x in RoundWithin(dataMin, dataMax) <==> dataMin <= x <= dataMax && IsRound(x)
  {
    hide FloorLog10, Pow10, Within, Candidates, Increasing;
    Ordered(dataMin, dataMax);
    var low := FloorLog10(dataMin) - 1;
    var decades := FloorLog10(dataMax) + 2 - low;
    CandidatesIncrease(low, decades);
    WithinFacts(Candidates(low, decades), dataMin, dataMax);
    CandidatesAreRound(low, decades);
    if dataMin <= x <= dataMax && IsRound(x) {
      var k :| RoundAt(x, k);
      DecadeInRange(dataMin, dataMax, x, k);
      CandidatesHold(low, decades, k);
    }
  }

  lemma DecadeInRange(dataMin: real, dataMax: real, x: real, k: int)
    requires 0.0 < dataMin <= x <= dataMax && RoundAt(x, k)
    ensures FloorLog10(dataMin) <= k <= FloorLog10(dataMax)
  {
    hide FloorLog10, Pow10;
    if k < FloorLog10(dataMin) { Pow10Grows(k, FloorLog10(dataMin)); }
    if FloorLog10(dataMax) < k { Pow10Grows(FloorLog10(dataMax), k); }
  }

  lemma {:induction false} CandidatesAreRound(low: int, decades: nat)
    ensures forall x | x in Candidates(low, decades) :: IsRound(x)
    decreases decades
  {
    hide Pow10;
    if decades > 0 {
      CandidatesAreRound(low, decades - 1);
      var k := low + decades - 1;
      forall x | x in Candidates(low, decades) ensures IsRound(x) {
        assert x in Candidates(low, decades - 1) || RoundAt(x, k);
      }
    }
  }

  ghost predicate NiceLogTicks(ticks: seq<real>, dataMin: real, dataMax: real) {
    2 <= |ticks| <= 6 && Increasing(ticks) && Inside(ticks, dataMin, dataMax)
  }

  /** Two ticks of the linear axis are within the data, so the last resort is dead code. */
  lemma LinearTicksWithin(dataMin: real, dataMax: real)
    requires 0.0 < dataMin < dataMax
    ensures NiceLogTicks(Within(NiceScale(dataMin, dataMax).ticks, dataMin, dataMax), dataMin, dataMax)
  {
    hide NiceScale, NiceStep;
    NiceScaleCovers(dataMin, dataMax);
    var nice := NiceScale(dataMin, dataMax).ticks;
    WithinFacts(nice, dataMin, dataMax);
    WithinShrinks(nice, dataMin, dataMax);
    var inner := Within(nice, dataMin, dataMax);
    assert nice[1] in inner && nice[2] in inner && nice[1] < nice[2];
    var i :| 0 <= i < |inner| && inner[i] == nice[1];
    var j :| 0 <= j < |inner| && inner[j] == nice[2];
    assert i != j;
  }

  lemma {:induction false} WithinShrinks(s: seq<real>, lo: real, hi: real)
    ensures |Within(s, lo, hi)| <= |s|
  {
    if s != [] { WithinShrinks(s[..|s| - 1], lo, hi); }
  }

  /**
   * For a positive range: two to six strictly increasing ticks within the data. When there are three
   * round prices or more, they are every one of them, or every second, or every fourth and so on, as
   * the first of these that leaves at most six; the last resort of showing the raw ends is never taken.
   */
  method NiceLogScale(dataMin: real, dataMax: real) returns (r: Scale, ghost halvings: nat)
    ensures !(0.0 < dataMin < dataMax) ==> r == NiceScale(dataMin, dataMax)
    ensures 0.0 < dataMin < dataMax ==> r.min == dataMin && r.max == dataMax && NiceLogTicks(r.ticks, dataMin, dataMax)
    ensures 0.0 < dataMin < dataMax && |RoundWithin(dataMin, dataMax)| >= 3 ==>
      && r.ticks == Strided(RoundWithin(dataMin, dataMax), Two(halvings))
      && (halvings > 0 ==> |r.ticks| >= 4 && |Strided(RoundWithin(dataMin, dataMax), Two(halvings - 1))| > 6)
    ensures 0.0 < dataMin < dataMax && |RoundWithin(dataMin, dataMax)| < 3 ==>
      r.ticks == Within(NiceScale(dataMin, dataMax).ticks, dataMin, dataMax)
  {
    hide NiceScale, FloorLog10, Pow10, Strided, Two, Within, Increasing, Inside;
    halvings := 0;
    if !(dataMin > 0.0) || !(dataMax > dataMin) { return NiceScale(dataMin, dataMax), 0; }
    var lowDecade, highDecade := FloorLog10(dataMin) - 1, FloorLog10(dataMax) + 1;
    Ordered(dataMin, dataMax);
    var candidates: seq<real> := [];
    var decade := lowDecade;
    while decade <= highDecade
      invariant lowDecade <= decade <= highDecade + 1 && candidates == Candidates(lowDecade, decade - lowDecade)
    {
      ghost var before := candidates;
      ghost var all := [Pow10(decade), 2.0 * Pow10(decade), 5.0 * Pow10(decade)];
      for m := 0 to 3
        invariant candidates == before + all[..m]
      {
        assert LOG_MANTISSAS[m] * Pow10(decade) == all[m];
        assert all[..m + 1] == all[..m] + [all[m]];
        candidates := candidates + [LOG_MANTISSAS[m] * Pow10(decade)];
      }
      decade := decade + 1;
    }
    CandidatesIncrease(lowDecade, highDecade + 1 - lowDecade);
    WithinFacts(candidates, dataMin, dataMax);
    var ticks := Within(candidates, dataMin, dataMax);
    ghost var round := ticks;
    assert round == RoundWithin(dataMin, dataMax);
    StridedOnce(round);
    while |ticks| > 6
      invariant Increasing(ticks) && Inside(ticks, dataMin, dataMax) && ticks == Strided(round, Two(halvings))
      invariant if halvings == 0 then ticks == round
        else |round| > 6 && |ticks| >= 4 && |Strided(round, Two(halvings - 1))| > 6
      decreases |ticks|
    {
      EveryOtherFacts(ticks, dataMin, dataMax);
      EveryOtherDoubles(round, halvings);
      ticks := EveryOther(ticks);
      halvings := halvings + 1;
    }
    if |ticks| < 3 {
      LinearTicksWithin(dataMin, dataMax);
      ticks := Within(NiceScale(dataMin, dataMax).ticks, dataMin, dataMax);
    }
    if |ticks| < 2 { assert false; ticks := [dataMin, dataMax]; }
    return Scale(dataMin, dataMax, ticks), halvings;
  }
}
