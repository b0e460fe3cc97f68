/** The client-history analytics: growth over the period, the variance of the
    month-to-month changes behind the volatility figure, the peak and low
    months, per-bucket averages and least-squares trends, and the share of
    months that carry predictions. */
module Analytics {
  import opened Common
  import opened Aging
  import opened Numbers
  import opened MonthComparison

  /** One month's summary row. */
  datatype MonthStat = MonthStat(month: Month, total: int, historicalCount: int, predictedCount: int, hasPredictions: bool)

  /** Average and least-squares slope of one bucket's values. */
  datatype Trend = Trend(trend: real, avg: real, values: seq<int>)

  datatype Analytics = Analytics(
    totalGrowth: int,
    avgMonthlyGrowth: real,
    growthRate: real,
    trends: map<Bucket, Trend>,
    predictionAccuracy: real,
    variance: real,
    peakMonth: Option<Month>,
    lowMonth: Option<Month>,
    monthlyStats: seq<MonthStat>,
    totalMonths: nat,
    avgMonthlyTotal: real)

  /** The result for a missing or empty history: everything zero, no peak or low
      month, no trends. */
  const NoAnalytics := Analytics(0, 0.0, 0.0, map[], 0.0, 0.0, None, None, [], 0, 0.0)

  /** The buckets a trend is computed for (not the total). */
  const TrendBuckets: set<Bucket> := {Current, Days0To30, Days31To60, Days61To90, Days90Plus}

  function MonthlyStats(h: seq<Snapshot>): (r: seq<MonthStat>)
    ensures |r| == |h|
    ensures forall i :: 0 <= i < |h| ==> r[i].month == h[i].month && r[i].total == h[i].totalAmount
  {
    seq(|h|, i requires 0 <= i < |h| =>
      MonthStat(h[i].month, h[i].totalAmount, h[i].historicalCount, h[i].predictedCount, h[i].hasPredictions))
  }

  function Totals(h: seq<Snapshot>): (r: seq<int>)
    ensures |r| == |h|
    ensures forall i :: 0 <= i < |h| ==> r[i] == h[i].totalAmount
  {
    seq(|h|, i requires 0 <= i < |h| => h[i].totalAmount)
  }

  /** Arithmetic mean, 0 for no values (`sum / length || 0`). */
  function Mean(s: seq<int>): real
  {
    if |s| == 0 then 0.0 else Sum(s) as real / |s| as real
  }

  /** The month-to-month changes of a sequence of totals. */
  function MonthlyChanges(t: seq<int>): (r: seq<int>)
    ensures |t| > 0 ==> |r| == |t| - 1
    ensures |t| == 0 ==> r == []
    ensures forall i :: 0 <= i < |r| ==> r[i] == t[i + 1] - t[i]
  {
    if |t| == 0 then [] else seq(|t| - 1, i requires 0 <= i < |t| - 1 => t[i + 1] - t[i])
  }

  /** The changes telescope: together they add up to the growth over the period. */
  lemma {:induction false} ChangesTelescope(t: seq<int>)
    requires |t| > 0
    ensures Sum(MonthlyChanges(t)) == t[|t| - 1] - t[0]
  {
    if |t| > 1 {
      var n := |t| - 1;
      var c := MonthlyChanges(t);
      var front := t[..n];
      ChangesTelescope(front);
      assert c[..n - 1] == MonthlyChanges(front);
      assert Sum(c) == Sum(c[..n - 1]) + c[n - 1];
      assert c[n - 1] == t[n] - t[n - 1];
      assert front[n - 1] == t[n - 1] && front[0] == t[0];
    }
  }

  /** Growth divided over the months between the first and the last (0 for one month). */
  function AvgMonthlyGrowth(t: seq<int>): real
    requires |t| > 0
  {
    if |t| > 1 then (t[|t| - 1] - t[0]) as real / (|t| - 1) as real else 0.0
  }

  /** The average monthly growth is the mean month-to-month change. */
  lemma AvgMonthlyGrowthIsMeanChange(t: seq<int>)
    requires |t| > 0
    ensures AvgMonthlyGrowth(t) == Mean(MonthlyChanges(t))
  {
    ChangesTelescope(t);
  }

  /** `(x - mean)²` for a mean `total / n`, written as `(n x - total)² / n²`:
      the same number, with the only division done last. */
  function SquaredDeviation(x: int, total: int, n: nat): real
    requires n > 0
  {
    ((n * x - total) * (n * x - total)) as real / (n * n) as real
  }

  /** The scaled form is the square of the deviation from the mean. */
  lemma SquaredDeviationIsSquare(x: int, total: int, n: nat)
    requires n > 0
    ensures SquaredDeviation(x, total, n) == (x as real - total as real / n as real) * (x as real - total as real / n as real)
  {
  }

  lemma SquaredDeviationSign(x: int, total: int, n: nat)
    requires n > 0
    ensures SquaredDeviation(x, total, n) >= 0.0
    ensures n * x != total ==> SquaredDeviation(x, total, n) > 0.0
  {
    var e := n * x - total;
    if e != 0 {
      assert e * e > 0;
    }
  }

  /** Each change's squared deviation from the mean change. */
  function SquaredDeviations(d: seq<int>): (r: seq<real>)
    requires |d| > 0
    ensures |r| == |d|
    ensures forall i :: 0 <= i < |d| ==> r[i] == SquaredDeviation(d[i], Sum(d), |d|)
  {
    seq(|d|, i requires 0 <= i < |d| => SquaredDeviation(d[i], Sum(d), |d|))
  }

  lemma SquaredDeviationsNonNegative(d: seq<int>)
    requires |d| > 0
    ensures forall i :: 0 <= i < |d| ==> SquaredDeviations(d)[i] >= 0.0
  {
    forall i | 0 <= i < |d| ensures SquaredDeviations(d)[i] >= 0.0 {
      SquaredDeviationSign(d[i], Sum(d), |d|);
    }
  }

  /** Population variance of the changes, 0 for none (`/ length || 0`); the
      volatility shown is its square root. */
  function Variance(d: seq<int>): (r: real)
    ensures r >= 0.0
  {
    if |d| == 0 then 0.0
    else
      var sq := SquaredDeviations(d);
      SquaredDeviationsNonNegative(d);
      SumNonNegative(sq);
      SumReal(sq) / |d| as real
  }

  lemma ScaleInjective(n: int, a: int, b: int)
    requires n > 0 && a != b
    ensures n * a != n * b
  {
    if a < b {
      assert n * b - n * a == n * (b - a);
    } else {
      assert n * a - n * b == n * (a - b);
    }
  }

  lemma VarianceZeroWhenSteady(d: seq<int>)
    requires forall i :: 0 <= i < |d| ==> d[i] == d[0]
    ensures Variance(d) == 0.0
  {
    if |d| > 0 {
      var sq := SquaredDeviations(d);
      SumIntConstant(d, d[0]);
      forall i | 0 <= i < |d| ensures sq[i] == 0.0 {
        assert |d| * d[i] - Sum(d) == 0;
      }
      SumConstant(sq, 0.0);
    }
  }

  /** Two different changes make the variance positive. */
  lemma VariancePositiveWhenUneven(d: seq<int>, i: nat, j: nat)
    requires i < |d| && j < |d| && d[i] != d[j]
    ensures Variance(d) > 0.0
  {
    var n := |d|;
    var sq := SquaredDeviations(d);
    var k := if n * d[i] != Sum(d) then i else j;
    ScaleInjective(n, d[i], d[j]);
    SquaredDeviationSign(d[k], Sum(d), n);
    SquaredDeviationsNonNegative(d);
    SumPositive(sq, k);
  }

  /** The variance is zero exactly when all changes are equal: volatility measures
      how unevenly the totals move, not how much. */
  lemma VarianceZeroIffSteady(d: seq<int>)
    ensures Variance(d) == 0.0 <==> forall i :: 0 <= i < |d| ==> d[i] == d[0]
  {
    if Variance(d) == 0.0 && exists i :: 0 <= i < |d| && d[i] != d[0] {
      var i :| 0 <= i < |d| && d[i] != d[0];
      VariancePositiveWhenUneven(d, i, 0);
    }
    if forall i :: 0 <= i < |d| ==> d[i] == d[0] {
      VarianceZeroWhenSteady(d);
    }
  }

  /** `Math.max(...t)`. */
  function MaxOf(t: seq<int>): (r: int)
    requires |t| > 0
    ensures r in t
    ensures forall i :: 0 <= i < |t| ==> t[i] <= r
  {
    if |t| == 1 then t[0]
    else
      var m := MaxOf(t[..|t| - 1]);
      assert forall i :: 0 <= i < |t| - 1 ==> t[i] == t[..|t| - 1][i];
      if t[|t| - 1] > m then t[|t| - 1] else m
  }

  /** `Math.min(...t)`. */
  function MinOf(t: seq<int>): (r: int)
    requires |t| > 0
    ensures r in t
    ensures forall i :: 0 <= i < |t| ==> r <= t[i]
  {
    if |t| == 1 then t[0]
    else
      var m := MinOf(t[..|t| - 1]);
      assert forall i :: 0 <= i < |t| - 1 ==> t[i] == t[..|t| - 1][i];
      if t[|t| - 1] < m then t[|t| - 1] else m
  }

  /** `totals.indexOf(Math.max(...totals))`. */
  function PeakIndex(t: seq<int>): nat
    requires |t| > 0
  {
    IndexOf(t, MaxOf(t))
  }

  /** `totals.indexOf(Math.min(...totals))`. */
  function LowIndex(t: seq<int>): nat
    requires |t| > 0
  {
    IndexOf(t, MinOf(t))
  }

  /** The peak month is the first month whose total is the largest: ties go to
      the earliest month. */
  lemma PeakIsFirstMaximum(t: seq<int>)
    requires |t| > 0
    ensures PeakIndex(t) < |t|
    ensures forall j :: 0 <= j < |t| ==> t[j] <= t[PeakIndex(t)]
    ensures forall j :: 0 <= j < PeakIndex(t) ==> t[j] < t[PeakIndex(t)]
  {
  }

  /** The low month is the first month whose total is the smallest. */
  lemma LowIsFirstMinimum(t: seq<int>)
    requires |t| > 0
    ensures LowIndex(t) < |t|
    ensures forall j :: 0 <= j < |t| ==> t[LowIndex(t)] <= t[j]
    ensures forall j :: 0 <= j < LowIndex(t) ==> t[LowIndex(t)] < t[j]
  {
  }

  /** All records of all months, month by month in history order. */
  function FlattenRecords(h: seq<Snapshot>): seq<Record>
  {
    if |h| == 0 then [] else FlattenRecords(h[..|h| - 1]) + h[|h| - 1].records
  }

  /** Number of records over all months. */
  function RecordCount(h: seq<Snapshot>): nat
  {
    if |h| == 0 then 0 else RecordCount(h[..|h| - 1]) + |h[|h| - 1].records|
  }

  /** A bucket's values hold one entry per record of every month, in order. */
  lemma {:induction false} BucketValuesLength(h: seq<Snapshot>, b: Bucket)
    ensures |Column(FlattenRecords(h), b)| == RecordCount(h)
    ensures |h| > 0 ==> Column(FlattenRecords(h), b)[RecordCount(h) - |h[|h| - 1].records|..] == Column(h[|h| - 1].records, b)
  {
    if |h| > 0 {
      BucketValuesLength(h[..|h| - 1], b);
    }
  }

  /** `n (n - 1) / 2`, the source's closed form for the sum of the indices. */
  function XSum(n: nat): int
  {
    (n * (n - 1)) / 2
  }

  /** `n (n - 1) (2n - 1) / 6`, the closed form for the sum of the squared indices. */
  function XSquaredSum(n: nat): int
  {
    (n * (n - 1) * (2 * n - 1)) / 6
  }

  /** The sums those closed forms stand for. */
  function SumIndices(n: nat): int
  {
    if n == 0 then 0 else SumIndices(n - 1) + (n - 1)
  }

  function SumSquaredIndices(n: nat): int
  {
    if n == 0 then 0 else SumSquaredIndices(n - 1) + (n - 1) * (n - 1)
  }

  /** `Σ values[i] * i`. */
  function XYSum(v: seq<int>): int
  {
    if |v| == 0 then 0 else XYSum(v[..|v| - 1]) + v[|v| - 1] * (|v| - 1)
  }

  lemma {:induction false} SumIndicesTwice(n: nat)
    ensures 2 * SumIndices(n) == n * (n - 1)
  {
    if n > 0 {
      SumIndicesTwice(n - 1);
    }
  }

  lemma {:induction false} SumSquaredIndicesSixTimes(n: nat)
    ensures 6 * SumSquaredIndices(n) == n * (n - 1) * (2 * n - 1)
  {
    if n > 0 {
      SumSquaredIndicesSixTimes(n - 1);
      var m := n - 1;
      assert 6 * SumSquaredIndices(n) == m * (m - 1) * (2 * m - 1) + 6 * m * m;
      assert m * (m - 1) * (2 * m - 1) + 6 * m * m == n * (n - 1) * (2 * n - 1) by {
        assert n == m + 1;
      }
    }
  }

  /** The closed forms are the sums of the indices and of their squares. */
  lemma ClosedFormsAreSums(n: nat)
    ensures XSum(n) == SumIndices(n)
    ensures XSquaredSum(n) == SumSquaredIndices(n)
  {
    SumIndicesTwice(n);
    SumSquaredIndicesSixTimes(n);
  }

  /** The slope's denominator, `n Σi² - (Σi)²`. */
  function SlopeDenominator(n: nat): int
  {
    n * XSquaredSum(n) - XSum(n) * XSum(n)
  }

  /** The denominator is `n² (n² - 1) / 12`, so it is positive whenever a trend is
      computed (two or more values): the slope is never a division by zero. */
  lemma SlopeDenominatorPositive(n: nat)
    requires n >= 2
    ensures 12 * SlopeDenominator(n) == n * n * (n * n - 1)
    ensures SlopeDenominator(n) > 0
  {
    ClosedFormsAreSums(n);
    SumIndicesTwice(n);
    SumSquaredIndicesSixTimes(n);
    var x := XSum(n);
    var q := XSquaredSum(n);
    assert 2 * x == n * (n - 1) && 6 * q == n * (n - 1) * (2 * n - 1);
    ScaledDenominator(n, x, q);
    DenominatorPolynomial(n);
    QuarticBound(n);
  }

  lemma ScaledDenominator(n: int, x: int, q: int)
    ensures 12 * (n * q - x * x) == 2 * n * (6 * q) - 3 * (2 * x) * (2 * x)
  {
  }

  lemma DenominatorPolynomial(n: int)
    ensures 2 * n * (n * (n - 1) * (2 * n - 1)) - 3 * (n * (n - 1)) * (n * (n - 1)) == n * n * (n * n - 1)
  {
  }

  lemma QuarticBound(n: int)
    requires n >= 2
    ensures n * n * (n * n - 1) >= 12
  {
    var m := n * n;
    assert m >= 4;
    assert m * (m - 1) >= 4 * 3;
  }

  /** Least-squares slope of the values against their index. */
  function Slope(v: seq<int>): real
    requires |v| >= 2
  {
    var n := |v|;
    SlopeDenominatorPositive(n);
    (n * XYSum(v) - XSum(n) * Sum(v)) as real / SlopeDenominator(n) as real
  }

  /** Values on a line. */
  function Linear(a: int, b: int, n: nat): (r: seq<int>)
    ensures |r| == n
    ensures forall i :: 0 <= i < n ==> r[i] == a + b * i
  {
    seq(n, i requires 0 <= i < n => a + b * i)
  }

  lemma {:induction false} LinearSum(a: int, b: int, n: nat)
    ensures Sum(Linear(a, b, n)) == a * n + b * SumIndices(n)
  {
    if n > 0 {
      var v := Linear(a, b, n);
      LinearSum(a, b, n - 1);
      assert v[..n - 1] == Linear(a, b, n - 1);
      assert Sum(v) == Sum(v[..n - 1]) + v[n - 1];
      assert v[n - 1] == a + b * (n - 1);
      assert a * (n - 1) + a == a * n;
      assert b * SumIndices(n - 1) + b * (n - 1) == b * SumIndices(n);
    }
  }

  lemma {:induction false} LinearXYSum(a: int, b: int, n: nat)
    ensures XYSum(Linear(a, b, n)) == a * SumIndices(n) + b * SumSquaredIndices(n)
  {
    if n > 0 {
      var k := n - 1;
      var v := Linear(a, b, n);
      LinearXYSum(a, b, k);
      assert v[..k] == Linear(a, b, k);
      assert XYSum(v) == XYSum(v[..k]) + v[k] * k;
      assert v[k] == a + b * k;
      XYStep(a, b, k, SumIndices(k), SumSquaredIndices(k));
    }
  }

  lemma XYStep(a: int, b: int, k: int, x: int, q: int)
    ensures (a * x + b * q) + (a + b * k) * k == a * (x + k) + b * (q + k * k)
  {
  }

  lemma NumeratorOfLine(a: int, b: int, n: int, x: int, q: int)
    ensures n * (a * x + b * q) - x * (a * n + b * x) == b * (n * q - x * x)
  {
  }

  /** Dividing a multiple of a positive number by it. */
  lemma DivideMultiple(b: int, d: int)
    requires d > 0
    ensures (b * d) as real / d as real == b as real
  {
    assert (b * d) as real == (b as real) * (d as real);
  }

  /** The trend of values growing by `b` per step is `b`: the slope is that of the
      least-squares line through the values. */
  lemma LinearTrend(a: int, b: int, n: nat)
    requires n >= 2
    ensures Slope(Linear(a, b, n)) == b as real
  {
    var v := Linear(a, b, n);
    LinearSum(a, b, n);
    LinearXYSum(a, b, n);
    ClosedFormsAreSums(n);
    SlopeDenominatorPositive(n);
    var x := SumIndices(n);
    var q := SumSquaredIndices(n);
    var d := SlopeDenominator(n);
    var num := n * XYSum(v) - XSum(n) * Sum(v);
    assert num == n * (a * x + b * q) - x * (a * n + b * x);
    NumeratorOfLine(a, b, n, x, q);
    assert n * q - x * x == d;
    DivideMultiple(b, d);
  }

  /** A bucket's average and trend: no trend below two values, no average for none. */
  function BucketTrend(values: seq<int>): (r: Trend)
    ensures r.values == values
    ensures |values| < 2 ==> r.trend == 0.0
    ensures r.avg * (|values| as real) == Sum(values) as real
  {
    Trend(if |values| > 1 then Slope(values) else 0.0, Mean(values), values)
  }

  function HasPredictions(s: Snapshot): bool
  {
    s.hasPredictions
  }

  /** A part of a whole, in percent, lies between 0 and 100. */
  lemma PercentOfWholeBounds(part: nat, whole: nat)
    requires 0 < whole && part <= whole
    ensures 0.0 <= (part as real / whole as real) * 100.0 <= 100.0
  {
    var r := part as real / whole as real;
    assert r * whole as real == part as real;
  }

  /** The percentage is 100 exactly for the whole and 0 exactly for nothing. */
  lemma PercentOfWholeExtremes(part: nat, whole: nat)
    requires 0 < whole && part <= whole
    ensures (part as real / whole as real) * 100.0 == 100.0 <==> part == whole
    ensures (part as real / whole as real) * 100.0 == 0.0 <==> part == 0
  {
    var r := part as real / whole as real;
    assert r * whole as real == part as real;
  }

  /** Share of months with predictions, in percent. */
  function PredictionAccuracy(h: seq<Snapshot>): (r: real)
    ensures 0.0 <= r <= 100.0
  {
    var count := Count(h, HasPredictions);
    if count > 0 then PercentOfWholeBounds(count, |h|); (count as real / |h| as real) * 100.0 else 0.0
  }

  /** The accuracy is 100 exactly when every month has predictions, and 0 exactly
      when none has (or there are no months). */
  lemma PredictionAccuracyExtremes(h: seq<Snapshot>)
    ensures PredictionAccuracy(h) == 100.0 <==> |h| > 0 && forall i :: 0 <= i < |h| ==> h[i].hasPredictions
    ensures PredictionAccuracy(h) == 0.0 <==> forall i :: 0 <= i < |h| ==> !h[i].hasPredictions
  {
    CountAllIff(h, HasPredictions);
    CountZeroIff(h, HasPredictions);
    if |h| > 0 {
      PercentOfWholeExtremes(Count(h, HasPredictions), |h|);
    }
  }

  /** The per-bucket average and trend over all records of all months. */
  function BucketTrends(records: seq<Record>): (r: map<Bucket, Trend>)
    ensures r.Keys == TrendBuckets
    ensures forall b :: b in r ==> r[b].values == Column(records, b)
  {
    map[Current := BucketTrend(Column(records, Current)),
        Days0To30 := BucketTrend(Column(records, Days0To30)),
        Days31To60 := BucketTrend(Column(records, Days31To60)),
        Days61To90 := BucketTrend(Column(records, Days61To90)),
        Days90Plus := BucketTrend(Column(records, Days90Plus))]
  }

  /** `calculateAnalytics`. */
  function CalculateAnalytics(history: Option<seq<Snapshot>>): (r: Analytics)
    ensures history.None? || |history.value| == 0 ==> r == NoAnalytics
    ensures history.Some? && |history.value| > 0 ==>
              && r.totalMonths == |history.value|
              && r.totalGrowth == history.value[|history.value| - 1].totalAmount - history.value[0].totalAmount
              && r.peakMonth == Some(history.value[PeakIndex(Totals(history.value))].month)
              && r.lowMonth == Some(history.value[LowIndex(Totals(history.value))].month)
              && r.trends.Keys == TrendBuckets
    ensures history.Some? && |history.value| > 0 && history.value[0].totalAmount > 0 ==>
              r.growthRate == Percent(r.totalGrowth, history.value[0].totalAmount)
    ensures history.Some? && |history.value| > 0 && history.value[0].totalAmount <= 0 ==> r.growthRate == 0.0
    ensures history.Some? && |history.value| > 0 ==>
              && r.variance == Variance(MonthlyChanges(Totals(history.value)))
              && r.trends == BucketTrends(FlattenRecords(history.value))
              && r.predictionAccuracy == PredictionAccuracy(history.value)
    ensures r.variance >= 0.0
    ensures 0.0 <= r.predictionAccuracy <= 100.0
  {
    if history.None? || |history.value| == 0 then NoAnalytics
    else
      var h := history.value;
      var totals := Totals(h);
      var first := totals[0];
      var growth := totals[|totals| - 1] - first;
      var records := FlattenRecords(h);
      Analytics(
        growth,
        AvgMonthlyGrowth(totals),
        if first > 0 then Percent(growth, first) else 0.0,
        BucketTrends(records),
        PredictionAccuracy(h),
        Variance(MonthlyChanges(totals)),
        Some(h[PeakIndex(totals)].month),
        Some(h[LowIndex(totals)].month),
        MonthlyStats(h),
        |h|,
        Mean(totals))
  }

  /** The average growth is the mean month-to-month change. */
  lemma AnalyticsAverageGrowth(h: seq<Snapshot>)
    requires |h| > 0
    ensures CalculateAnalytics(Some(h)).avgMonthlyGrowth == Mean(MonthlyChanges(Totals(h)))
  {
    AvgMonthlyGrowthIsMeanChange(Totals(h));
  }

  /** The peak month is the first month whose total is the largest. */
  lemma AnalyticsPeak(h: seq<Snapshot>)
    requires |h| > 0
    ensures exists i :: 0 <= i < |h| && CalculateAnalytics(Some(h)).peakMonth == Some(h[i].month)
              && (forall j :: 0 <= j < |h| ==> h[j].totalAmount <= h[i].totalAmount)
              && (forall j :: 0 <= j < i ==> h[j].totalAmount < h[i].totalAmount)
  {
    var i := PeakMonthIndex(h);
    assert CalculateAnalytics(Some(h)).peakMonth == Some(h[i].month);
  }

  lemma PeakMonthIndex(h: seq<Snapshot>) returns (i: nat)
    requires |h| > 0
    ensures i == PeakIndex(Totals(h)) && i < |h|
    ensures forall j :: 0 <= j < |h| ==> h[j].totalAmount <= h[i].totalAmount
    ensures forall j :: 0 <= j < i ==> h[j].totalAmount < h[i].totalAmount
  {
    PeakIsFirstMaximum(Totals(h));
    i := PeakIndex(Totals(h));
  }

  /** The low month is the first month whose total is the smallest. */
  lemma AnalyticsLow(h: seq<Snapshot>)
    requires |h| > 0
    ensures exists i :: 0 <= i < |h| && CalculateAnalytics(Some(h)).lowMonth == Some(h[i].month)
              && (forall j :: 0 <= j < |h| ==> h[i].totalAmount <= h[j].totalAmount)
              && (forall j :: 0 <= j < i ==> h[i].totalAmount < h[j].totalAmount)
  {
    var i := LowMonthIndex(h);
    assert CalculateAnalytics(Some(h)).lowMonth == Some(h[i].month);
  }

  lemma LowMonthIndex(h: seq<Snapshot>) returns (i: nat)
    requires |h| > 0
    ensures i == LowIndex(Totals(h)) && i < |h|
    ensures forall j :: 0 <= j < |h| ==> h[i].totalAmount <= h[j].totalAmount
    ensures forall j :: 0 <= j < i ==> h[i].totalAmount < h[j].totalAmount
  {
    LowIsFirstMinimum(Totals(h));
    i := LowIndex(Totals(h));
  }
}
