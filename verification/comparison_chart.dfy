/** The month-comparison chart of the history view: per aging bucket, one
    point per description of either month, with this month's value against
    last month's value under the bucket-shift rule, largest first. */
module ComparisonChart {
  import opened Common
  import opened Aging

  /** The last record of `records` with description `d`. */
  function LastWith(records: seq<Record>, d: string): (r: Option<Record>)
    ensures r.Some? ==> r.value in records && r.value.description == d
    ensures r.None? <==> forall i :: 0 <= i < |records| ==> records[i].description != d
    ensures r.Some? ==> exists i :: 0 <= i < |records| && records[i] == r.value
                          && forall j :: i < j < |records| ==> records[j].description != d
  {
    if |records| == 0 then None
    else
      var n := |records| - 1;
      if records[n].description == d then Some(records[n])
      else
        var front := LastWith(records[..n], d);
        assert forall i :: 0 <= i < n ==> records[..n][i] == records[i];
        front
  }

  /** `createDescriptionMap`: each description mapped to bucket `b` of its record,
      later records overwriting earlier ones. */
  function DescriptionMap(records: seq<Record>, b: Bucket): (r: map<string, int>)
    ensures forall d :: d in r <==> LastWith(records, d).Some?
    ensures forall d :: d in r ==> r[d] == LastWith(records, d).value.amounts.Get(b)
  {
    if |records| == 0 then map[]
    else
      var n := |records| - 1;
      DescriptionMap(records[..n], b)[records[n].description := records[n].amounts.Get(b)]
  }

  /** `map.get(d) || 0`. */
  function Lookup(m: map<string, int>, d: string): int
  {
    if d in m then m[d] else 0
  }

  /** The descriptions of a month's records, in order. */
  function Descriptions(records: seq<Record>): (r: seq<string>)
    ensures |r| == |records|
    ensures forall i :: 0 <= i < |records| ==> r[i] == records[i].description
  {
    seq(|records|, i requires 0 <= i < |records| => records[i].description)
  }

  /** The distinct elements of `s` in order of first occurrence, as a JavaScript
      `Set` or `Map` lists its keys. */
  function Distinct(s: seq<string>): (r: seq<string>)
    ensures forall x :: x in r <==> x in s
    ensures forall i, j :: 0 <= i < j < |r| ==> r[i] != r[j]
    ensures forall i, j :: 0 <= i < j < |r| ==> IndexOf(s, r[i]) < IndexOf(s, r[j])
  {
    if |s| == 0 then []
    else
      var n := |s| - 1;
      var front := Distinct(s[..n]);
      assert forall i :: 0 <= i < |front| ==> front[i] in s[..n];
      DistinctStep(s, front);
      if s[n] in front then front else front + [s[n]]
  }

  /** The last element of `s` extends the distinct elements of the rest when it
      is new among them. */
  lemma DistinctStep(s: seq<string>, front: seq<string>)
    requires |s| > 0
    requires forall x :: x in front <==> x in s[..|s| - 1]
    requires forall i, j :: 0 <= i < j < |front| ==> front[i] != front[j]
    requires forall i :: 0 <= i < |front| ==> front[i] in s[..|s| - 1]
    requires forall i, j :: 0 <= i < j < |front| ==> IndexOf(s[..|s| - 1], front[i]) < IndexOf(s[..|s| - 1], front[j])
    ensures var r := if s[|s| - 1] in front then front else front + [s[|s| - 1]];
            && (forall x :: x in r <==> x in s)
            && (forall i, j :: 0 <= i < j < |r| ==> r[i] != r[j])
            && (forall i, j :: 0 <= i < j < |r| ==> IndexOf(s, r[i]) < IndexOf(s, r[j]))
  {
    var n := |s| - 1;
    assert s == s[..n] + [s[n]];
    DistinctStepOrder(s, front);
    if s[n] !in front {
      DistinctAppendOrder(s, front);
    }
  }

  /** Positions in the prefix are positions in `s`. */
  lemma DistinctStepOrder(s: seq<string>, front: seq<string>)
    requires |s| > 0
    requires forall i :: 0 <= i < |front| ==> front[i] in s[..|s| - 1]
    requires forall i, j :: 0 <= i < j < |front| ==> IndexOf(s[..|s| - 1], front[i]) < IndexOf(s[..|s| - 1], front[j])
    ensures forall i :: 0 <= i < |front| ==> IndexOf(s, front[i]) < |s| - 1
    ensures forall i, j :: 0 <= i < j < |front| ==> IndexOf(s, front[i]) < IndexOf(s, front[j])
  {
    var n := |s| - 1;
    forall i | 0 <= i < |front|
      ensures IndexOf(s, front[i]) == IndexOf(s[..n], front[i])
    {
      IndexOfPrefix(s, front[i]);
    }
    forall i, j | 0 <= i < j < |front|
      ensures IndexOf(s, front[i]) < IndexOf(s, front[j])
    {
      IndexOfPrefix(s, front[i]);
      IndexOfPrefix(s, front[j]);
    }
  }

  /** A new last element comes after everything before it. */
  lemma DistinctAppendOrder(s: seq<string>, front: seq<string>)
    requires |s| > 0 && s[|s| - 1] !in s[..|s| - 1]
    requires forall i :: 0 <= i < |front| ==> front[i] in s && IndexOf(s, front[i]) < |s| - 1
    requires forall i, j :: 0 <= i < j < |front| ==> IndexOf(s, front[i]) < IndexOf(s, front[j])
    ensures var r := front + [s[|s| - 1]];
            forall i, j :: 0 <= i < j < |r| ==> IndexOf(s, r[i]) < IndexOf(s, r[j])
  {
    var n := |s| - 1;
    var r := front + [s[n]];
    assert IndexOf(s, s[n]) == n;
    forall i, j | 0 <= i < j < |r|
      ensures IndexOf(s, r[i]) < IndexOf(s, r[j])
    {
      assert r[i] == front[i];
      if j < |front| {
        assert r[j] == front[j];
      } else {
        assert r[j] == s[n];
      }
    }
  }

  /** The bucket of last month compared with bucket `b` (all but 90+, which adds
      two buckets). */
  function PreviousKey(b: Bucket): (r: Bucket)
    ensures b != Days90Plus ==> forall a: Amounts :: a.Get(r) == ShiftedPrevious(a, b)
  {
    match b
    case Days31To60 => Days0To30
    case Days61To90 => Days31To60
    case _ => b
  }

  /** A map of last month's records, empty when there is no last month. */
  function PreviousMap(previous: Option<seq<Record>>, b: Bucket): map<string, int>
  {
    if previous.Some? then DescriptionMap(previous.value, b) else map[]
  }

  /** The descriptions of last month, none when there is no last month. */
  function PreviousDescriptions(previous: Option<seq<Record>>): seq<string>
  {
    if previous.Some? then Descriptions(previous.value) else []
  }

  /** Last month's value for description `d` in the chart of bucket `b`. */
  function PreviousValue(previous: Option<seq<Record>>, b: Bucket, d: string): int
  {
    if b == Days90Plus then Lookup(PreviousMap(previous, Days61To90), d) + Lookup(PreviousMap(previous, Days90Plus), d)
    else Lookup(PreviousMap(previous, PreviousKey(b)), d)
  }

  /** Every description of either month, in the order the chart first meets them. */
  function ChartNames(current: seq<Record>, previous: Option<seq<Record>>, b: Bucket): seq<string>
  {
    var p := PreviousDescriptions(previous);
    if b == Days90Plus then Distinct(Descriptions(current) + p + p)
    else Distinct(Descriptions(current) + p)
  }

  datatype ChartPoint = ChartPoint(name: string, current: int, previous: int)

  function PointOf(current: seq<Record>, previous: Option<seq<Record>>, b: Bucket): string -> ChartPoint
  {
    (d: string) => ChartPoint(d, Lookup(DescriptionMap(current, b), d), PreviousValue(previous, b, d))
  }

  /** The chart points before sorting. */
  function Points(current: seq<Record>, previous: Option<seq<Record>>, b: Bucket): seq<ChartPoint>
  {
    Map(ChartNames(current, previous, b), PointOf(current, previous, b))
  }

  predicate SortedByCurrent(s: seq<ChartPoint>)
  {
    forall i, j :: 0 <= i < j < |s| ==> s[i].current >= s[j].current
  }

  /** Inserts `x` before the first point with a smaller value, so after equal ones. */
  function InsertByCurrent(x: ChartPoint, s: seq<ChartPoint>): (r: seq<ChartPoint>)
    ensures multiset(r) == multiset(s) + multiset{x}
  {
    if |s| == 0 then [x]
    else if s[0].current < x.current then [x] + s
    else
      assert s == [s[0]] + s[1..];
      [s[0]] + InsertByCurrent(x, s[1..])
  }

  lemma {:induction false} InsertByCurrentSorted(x: ChartPoint, s: seq<ChartPoint>)
    requires SortedByCurrent(s)
    ensures SortedByCurrent(InsertByCurrent(x, s))
  {
    if |s| > 0 && s[0].current >= x.current {
      var t := InsertByCurrent(x, s[1..]);
      InsertByCurrentSorted(x, s[1..]);
      var r := [s[0]] + t;
      forall i, j | 0 <= i < j < |r| ensures r[i].current >= r[j].current {
        if i == 0 {
          assert r[j] == t[j - 1];
          assert t[j - 1] in multiset(s[1..]) + multiset{x};
          if t[j - 1] != x {
            var k :| 0 <= k < |s[1..]| && s[1..][k] == t[j - 1];
            assert s[k + 1] == t[j - 1];
          }
        } else {
          assert r[i] == t[i - 1] && r[j] == t[j - 1];
        }
      }
    }
  }

  /** `sort((a, b) => b.current - a.current)`: a stable sort, largest value first. */
  function SortByCurrent(s: seq<ChartPoint>): (r: seq<ChartPoint>)
    ensures SortedByCurrent(r)
    ensures multiset(r) == multiset(s)
  {
    if |s| == 0 then []
    else
      var n := |s| - 1;
      assert s == s[..n] + [s[n]];
      var sortedFront := SortByCurrent(s[..n]);
      InsertByCurrentSorted(s[n], sortedFront);
      InsertByCurrent(s[n], sortedFront)
  }

  /** `createChartData`. */
  function CreateChartData(current: seq<Record>, previous: Option<seq<Record>>, b: Bucket): (r: seq<ChartPoint>)
    ensures SortedByCurrent(r)
    ensures multiset(r) == multiset(Points(current, previous, b))
  {
    SortByCurrent(Points(current, previous, b))
  }

  /** Last month's figure for a description follows the shift rule applied to the
      last record of that description, and is 0 when last month lacks it. */
  lemma PreviousValueIsShifted(previous: Option<seq<Record>>, b: Bucket, d: string)
    ensures previous.None? ==> PreviousValue(previous, b, d) == 0
    ensures previous.Some? ==> PreviousValue(previous, b, d) ==
                                 (match LastWith(previous.value, d)
                                  case None => 0
                                  case Some(rec) => ShiftedPrevious(rec.amounts, b))
  {
  }

  /** In a sequence without repetitions every element occurs once. */
  lemma {:induction false} DistinctOccursOnce<T>(s: seq<T>, x: T)
    requires forall i, j :: 0 <= i < j < |s| ==> s[i] != s[j]
    requires x in s
    ensures multiset(s)[x] == 1
  {
    assert s == [s[0]] + s[1..];
    if s[0] == x {
      assert x !in s[1..];
    } else {
      DistinctOccursOnce(s[1..], x);
    }
  }

  /** An element at two positions occurs at least twice. */
  lemma TwiceAtTwoPositions<T>(s: seq<T>, i: nat, j: nat)
    requires i < j < |s| && s[i] == s[j]
    ensures multiset(s)[s[i]] >= 2
  {
    assert s == s[..j] + [s[j]] + s[j + 1..];
    assert s[i] in s[..j];
  }

  /** A point of the chart is the point of its own description. */
  lemma PointOfItsName(current: seq<Record>, previous: Option<seq<Record>>, b: Bucket, p: ChartPoint)
    requires p in Points(current, previous, b)
    ensures p == PointOf(current, previous, b)(p.name)
    ensures p.name in ChartNames(current, previous, b)
  {
  }

  /** Every point of the chart is the point of its own description. */
  lemma ChartPointsAreOwnPoints(current: seq<Record>, previous: Option<seq<Record>>, b: Bucket)
    ensures var r := CreateChartData(current, previous, b);
            forall i :: 0 <= i < |r| ==> r[i] in Points(current, previous, b) && r[i] == PointOf(current, previous, b)(r[i].name)
  {
    var r := CreateChartData(current, previous, b);
    forall i | 0 <= i < |r| ensures r[i] in Points(current, previous, b) && r[i] == PointOf(current, previous, b)(r[i].name) {
      assert r[i] in multiset(r);
      PointOfItsName(current, previous, b, r[i]);
    }
  }

  /** Each point shows the last record of its description this month (0 when
      absent) against last month's figure for it. */
  lemma ChartPointValues(current: seq<Record>, previous: Option<seq<Record>>, b: Bucket)
    ensures var r := CreateChartData(current, previous, b);
            forall i :: 0 <= i < |r| ==>
              && r[i].current == Lookup(DescriptionMap(current, b), r[i].name)
              && r[i].previous == PreviousValue(previous, b, r[i].name)
  {
    ChartPointsAreOwnPoints(current, previous, b);
  }

  /** The chart's descriptions are those of either month. */
  lemma ChartNamesAreDescriptions(current: seq<Record>, previous: Option<seq<Record>>, b: Bucket, d: string)
    ensures d in ChartNames(current, previous, b) <==> d in Descriptions(current) || d in PreviousDescriptions(previous)
  {
  }

  /** The chart has a point for each description found in either month and for
      no other. */
  lemma ChartCoversDescriptions(current: seq<Record>, previous: Option<seq<Record>>, b: Bucket)
    ensures var r := CreateChartData(current, previous, b);
            forall d :: (exists i :: 0 <= i < |r| && r[i].name == d) <==>
              (d in Descriptions(current) || d in PreviousDescriptions(previous))
  {
    var r := CreateChartData(current, previous, b);
    var names := ChartNames(current, previous, b);
    forall d ensures (exists i :: 0 <= i < |r| && r[i].name == d) <==>
                       (d in Descriptions(current) || d in PreviousDescriptions(previous)) {
      ChartNamesAreDescriptions(current, previous, b, d);
      if d in names {
        NamedPointInChart(current, previous, b, d);
      }
      if exists i :: 0 <= i < |r| && r[i].name == d {
        var i :| 0 <= i < |r| && r[i].name == d;
        ChartPointIsNamed(current, previous, b, i);
      }
    }
  }

  lemma NamedPointInChart(current: seq<Record>, previous: Option<seq<Record>>, b: Bucket, d: string)
    requires d in ChartNames(current, previous, b)
    ensures var r := CreateChartData(current, previous, b);
            exists i :: 0 <= i < |r| && r[i].name == d
  {
    var r := CreateChartData(current, previous, b);
    var pts := Points(current, previous, b);
    var names := ChartNames(current, previous, b);
    var k :| 0 <= k < |names| && names[k] == d;
    var point := pts[k];
    assert point.name == d;
    InPermutation(point, r, pts);
    var i :| 0 <= i < |r| && r[i] == point;
  }

  lemma ChartPointIsNamed(current: seq<Record>, previous: Option<seq<Record>>, b: Bucket, i: nat)
    requires i < |CreateChartData(current, previous, b)|
    ensures CreateChartData(current, previous, b)[i].name in ChartNames(current, previous, b)
  {
    var r := CreateChartData(current, previous, b);
    assert r[i] in multiset(Points(current, previous, b));
    PointOfItsName(current, previous, b, r[i]);
  }

  /** A permutation of a sequence without repetitions has none either. */
  lemma PermutationKeepsDistinct<T>(r: seq<T>, s: seq<T>)
    requires multiset(r) == multiset(s)
    requires forall u, v :: 0 <= u < v < |s| ==> s[u] != s[v]
    ensures forall i, j :: 0 <= i < j < |r| ==> r[i] != r[j]
  {
    forall i, j | 0 <= i < j < |r| ensures r[i] != r[j] {
      if r[i] == r[j] {
        TwiceAtTwoPositions(r, i, j);
        assert r[i] in multiset(s);
        DistinctOccursOnce(s, r[i]);
        assert false;
      }
    }
  }

  /** The unsorted points are pairwise different, since their names are. */
  lemma PointsDistinct(current: seq<Record>, previous: Option<seq<Record>>, b: Bucket)
    ensures var pts := Points(current, previous, b);
            forall u, v :: 0 <= u < v < |pts| ==> pts[u] != pts[v]
  {
    var pts := Points(current, previous, b);
    var names := ChartNames(current, previous, b);
    forall u, v | 0 <= u < v < |pts| ensures pts[u] != pts[v] {
      assert pts[u].name == names[u] && pts[v].name == names[v];
    }
  }

  /** No description has two points. */
  lemma ChartNamesDistinct(current: seq<Record>, previous: Option<seq<Record>>, b: Bucket)
    ensures var r := CreateChartData(current, previous, b);
            forall i, j :: 0 <= i < j < |r| ==> r[i].name != r[j].name
  {
    var r := CreateChartData(current, previous, b);
    PointsDistinct(current, previous, b);
    PermutationKeepsDistinct(r, Points(current, previous, b));
    ChartPointsAreOwnPoints(current, previous, b);
  }

  /** Without last month's data every previous value is 0. */
  lemma NoPreviousMonth(current: seq<Record>, b: Bucket)
    ensures forall i :: 0 <= i < |CreateChartData(current, None, b)| ==> CreateChartData(current, None, b)[i].previous == 0
  {
    ChartPointValues(current, None, b);
  }
}
