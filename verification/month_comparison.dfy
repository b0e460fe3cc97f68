/** Month-over-month comparison in the history view: the column sums of a
    month against those of the chronologically previous month, and one line
    item against its counterpart in the previous month, both under the
    bucket-shift rule. */
module MonthComparison {
  import opened Common
  import opened Aging
  import opened Matcher

  /** `calculateBucketTotals`: the column sums of a month's records, records
      added in order. */
  function BucketTotals(records: seq<Record>): Amounts
  {
    if |records| == 0 then Zero
    else BucketTotals(records[..|records| - 1]).Plus(records[|records| - 1].amounts)
  }

  /** One column of a month's records. */
  function Column(records: seq<Record>, b: Bucket): (r: seq<int>)
    ensures |r| == |records|
    ensures forall i :: 0 <= i < |records| ==> r[i] == records[i].amounts.Get(b)
  {
    seq(|records|, i requires 0 <= i < |records| => records[i].amounts.Get(b))
  }

  /** Each column sum is the sum of that column: in particular the month total is
      the sum of the records' own totals, not of their buckets. */
  lemma {:induction false} BucketTotalsAreColumnSums(records: seq<Record>, b: Bucket)
    ensures BucketTotals(records).Get(b) == Sum(Column(records, b))
  {
    if |records| > 0 {
      var n := |records| - 1;
      BucketTotalsAreColumnSums(records[..n], b);
      assert Column(records, b)[..n] == Column(records[..n], b);
    }
  }

  /** Column sums of two record lists add up. */
  lemma {:induction false} BucketTotalsAppend(a: seq<Record>, b: seq<Record>)
    ensures BucketTotals(a + b) == BucketTotals(a).Plus(BucketTotals(b))
    decreases |b|
  {
    if |b| == 0 {
      assert a + b == a;
    } else {
      var n := |b| - 1;
      assert (a + b)[..|a + b| - 1] == a + b[..n];
      BucketTotalsAppend(a, b[..n]);
    }
  }

  /** Every earlier element's month is not after every later element's month. */
  predicate SortedByMonth(s: seq<Snapshot>)
  {
    forall i, j :: 0 <= i < j < |s| ==> MonthNotAfter(s[i].month, s[j].month)
  }

  /** Inserts `x` before the first element of a later month (so after equal months). */
  function InsertByMonth(x: Snapshot, s: seq<Snapshot>): (r: seq<Snapshot>)
    ensures multiset(r) == multiset(s) + multiset{x}
  {
    if |s| == 0 then [x]
    else if MonthBefore(x.month, s[0].month) then [x] + s
    else
      assert s == [s[0]] + s[1..];
      [s[0]] + InsertByMonth(x, s[1..])
  }

  /** Every element of the insertion is `x` or an element of `s`. */
  lemma {:induction false} InsertByMonthElements(x: Snapshot, s: seq<Snapshot>)
    ensures forall k :: 0 <= k < |InsertByMonth(x, s)| ==> InsertByMonth(x, s)[k] == x || InsertByMonth(x, s)[k] in s
  {
    var r := InsertByMonth(x, s);
    forall k | 0 <= k < |r| ensures r[k] == x || r[k] in s {
      assert r[k] in multiset(s) + multiset{x};
    }
  }

  /** Insertion keeps a sorted list sorted. */
  lemma {:induction false} InsertByMonthSorted(x: Snapshot, s: seq<Snapshot>)
    requires SortedByMonth(s)
    ensures SortedByMonth(InsertByMonth(x, s))
  {
    if |s| > 0 && !MonthBefore(x.month, s[0].month) {
      var t := InsertByMonth(x, s[1..]);
      InsertByMonthSorted(x, s[1..]);
      InsertByMonthElements(x, s[1..]);
      var r := [s[0]] + t;
      forall i, j | 0 <= i < j < |r| ensures MonthNotAfter(r[i].month, r[j].month) {
        if i == 0 {
          assert r[j] == t[j - 1];
          if t[j - 1] != x {
            var k :| 0 <= k < |s[1..]| && s[1..][k] == t[j - 1];
            assert s[k + 1] == t[j - 1];
          }
        } else {
          assert r[i] == t[i - 1] && r[j] == t[j - 1];
        }
      }
    }
  }

  /** A sorted list whose first month is later than `m` has no snapshot of `m`. */
  lemma NoSnapshotOfEarlierMonth(s: seq<Snapshot>, m: Month)
    requires SortedByMonth(s) && |s| > 0 && MonthBefore(m, s[0].month)
    ensures Filter(s, InMonth(m)) == []
  {
    forall j | 0 <= j < |s| ensures !InMonth(m)(s[j]) {
      assert j == 0 || MonthNotAfter(s[0].month, s[j].month);
    }
    CountZeroIff(s, InMonth(m));
  }

  /** Inserting `x` into a sorted list puts it after every snapshot of its own
      month. */
  lemma {:induction false} InsertByMonthAfterEqual(x: Snapshot, s: seq<Snapshot>, m: Month)
    requires SortedByMonth(s)
    ensures Filter(InsertByMonth(x, s), InMonth(m))
            == Filter(s, InMonth(m)) + (if x.month == m then [x] else [])
  {
    var tail: seq<Snapshot> := if x.month == m then [x] else [];
    if |s| == 0 {
      assert Filter([x], InMonth(m)) == tail + Filter([], InMonth(m));
    } else if MonthBefore(x.month, s[0].month) {
      InsertedFirstAfterEqual(x, s, m);
    } else {
      InsertByMonthAfterEqual(x, s[1..], m);
      InsertedLaterAfterEqual(x, s, m);
    }
  }

  /** The case of `InsertByMonthAfterEqual` where `x` goes in front. */
  lemma InsertedFirstAfterEqual(x: Snapshot, s: seq<Snapshot>, m: Month)
    requires SortedByMonth(s) && |s| > 0 && MonthBefore(x.month, s[0].month)
    ensures Filter([x] + s, InMonth(m)) == Filter(s, InMonth(m)) + (if x.month == m then [x] else [])
  {
    var r := [x] + s;
    assert r[0] == x && r[1..] == s;
    FilterFront(r, InMonth(m));
    if x.month == m {
      NoSnapshotOfEarlierMonth(s, m);
    }
  }

  /** The case of `InsertByMonthAfterEqual` where `x` goes after the head,
      given the property for the tail. */
  lemma InsertedLaterAfterEqual(x: Snapshot, s: seq<Snapshot>, m: Month)
    requires |s| > 0
    requires Filter(InsertByMonth(x, s[1..]), InMonth(m))
             == Filter(s[1..], InMonth(m)) + (if x.month == m then [x] else [])
    ensures Filter([s[0]] + InsertByMonth(x, s[1..]), InMonth(m))
            == Filter(s, InMonth(m)) + (if x.month == m then [x] else [])
  {
    var tail: seq<Snapshot> := if x.month == m then [x] else [];
    var rest := InsertByMonth(x, s[1..]);
    var r := [s[0]] + rest;
    assert r[0] == s[0] && r[1..] == rest;
    var head: seq<Snapshot> := if s[0].month == m then [s[0]] else [];
    FilterFront(r, InMonth(m));
    FilterFront(s, InMonth(m));
    ConcatAssociative(head, Filter(s[1..], InMonth(m)), tail);
  }

  /** The chronological sort the comparisons apply to the history: a stable
      insertion sort by month. */
  function SortByMonth(h: seq<Snapshot>): (r: seq<Snapshot>)
    ensures SortedByMonth(r)
    ensures multiset(r) == multiset(h)
  {
    if |h| == 0 then []
    else
      var n := |h| - 1;
      assert h == h[..n] + [h[n]];
      var sortedFront := SortByMonth(h[..n]);
      InsertByMonthSorted(h[n], sortedFront);
      InsertByMonth(h[n], sortedFront)
  }

  /** The sort is stable: the snapshots of any one month keep their order. */
  lemma {:induction false} SortByMonthStable(h: seq<Snapshot>, m: Month)
    ensures Filter(SortByMonth(h), InMonth(m)) == Filter(h, InMonth(m))
  {
    if |h| > 0 {
      var n := |h| - 1;
      assert h == h[..n] + [h[n]];
      var front := SortByMonth(h[..n]);
      assert SortByMonth(h) == InsertByMonth(h[n], front);
      SortByMonthStable(h[..n], m);
      InsertByMonthAfterEqual(h[n], front, m);
      FilterAppend(h[..n], [h[n]], InMonth(m));
      FilterFront([h[n]], InMonth(m));
      assert [h[n]][1..] == [];
    }
  }

  function InMonth(m: Month): Snapshot -> bool
  {
    (s: Snapshot) => s.month == m
  }

  /** `p` is a snapshot of the latest month before `m` in `h`. */
  predicate LatestBefore(h: seq<Snapshot>, p: Snapshot, m: Month)
  {
    && p in h
    && MonthBefore(p.month, m)
    && forall q :: q in h && MonthBefore(q.month, m) ==> MonthNotAfter(q.month, p.month)
  }

  /** The snapshot of month `m` and the one just before it in chronological order,
      or `None` when `m` is absent or first (`currentIndex <= 0`). */
  function AdjacentMonths(m: Month, h: seq<Snapshot>): Option<(Snapshot, Snapshot)>
  {
    var sorted := SortByMonth(h);
    match FindFirst(sorted, InMonth(m))
    case None => None
    case Some(i) => if i == 0 then None else Some((sorted[i], sorted[i - 1]))
  }

  /** Sorting keeps the same snapshots. */
  lemma SortedSameElements(h: seq<Snapshot>)
    ensures forall x :: x in h <==> x in SortByMonth(h)
  {
    var sorted := SortByMonth(h);
    forall x ensures x in h <==> x in sorted {
      assert x in h <==> x in multiset(h);
      assert x in sorted <==> x in multiset(sorted);
    }
  }

  lemma AbsentMonth(m: Month, s: seq<Snapshot>)
    requires forall j :: 0 <= j < |s| ==> !InMonth(m)(s[j])
    ensures forall x :: x in s ==> x.month != m
  {
    forall x | x in s ensures x.month != m {
      var k :| 0 <= k < |s| && s[k] == x;
      assert !InMonth(m)(s[k]);
    }
  }

  /** Nothing in a sorted history precedes its first month. */
  lemma FirstOfSorted(m: Month, s: seq<Snapshot>)
    requires SortedByMonth(s) && |s| > 0 && s[0].month == m
    ensures forall x :: x in s ==> !MonthBefore(x.month, m)
  {
    forall x | x in s ensures !MonthBefore(x.month, m) {
      var k :| 0 <= k < |s| && s[k] == x;
      if k > 0 {
        assert MonthNotAfter(s[0].month, s[k].month);
      }
    }
  }

  /** In a sorted history, the snapshot just before the first one of month `m` is
      of the latest month before `m`. */
  lemma PredecessorIsLatest(m: Month, s: seq<Snapshot>, i: nat)
    requires SortedByMonth(s) && 0 < i < |s| && s[i].month == m
    requires forall j :: 0 <= j < i ==> !InMonth(m)(s[j])
    ensures LatestBefore(s, s[i - 1], m)
  {
    var p := s[i - 1];
    assert !InMonth(m)(p);
    assert MonthNotAfter(p.month, s[i].month);
    forall q | q in s && MonthBefore(q.month, m) ensures MonthNotAfter(q.month, p.month) {
      var k :| 0 <= k < |s| && s[k] == q;
      if k >= i {
        assert false;
      } else if k < i - 1 {
        assert MonthNotAfter(s[k].month, s[i - 1].month);
      }
    }
  }

  lemma LatestBeforeSameElements(h: seq<Snapshot>, s: seq<Snapshot>, p: Snapshot, m: Month)
    requires forall x :: x in h <==> x in s
    requires LatestBefore(s, p, m)
    ensures LatestBefore(h, p, m)
  {
  }

  /** The pair exists exactly when `m` is present and some month precedes it; the
      earlier snapshot is then of the latest month before `m`. */
  lemma AdjacentMonthsSpec(m: Month, h: seq<Snapshot>)
    ensures AdjacentMonths(m, h).None? <==>
              (forall s :: s in h ==> s.month != m) || (forall s :: s in h ==> !MonthBefore(s.month, m))
    ensures AdjacentMonths(m, h).Some? ==>
              var (c, p) := AdjacentMonths(m, h).value;
              c in h && c.month == m && LatestBefore(h, p, m)
  {
    var sorted := SortByMonth(h);
    SortedSameElements(h);
    match FindFirst(sorted, InMonth(m))
    case None =>
      AbsentMonth(m, sorted);
    case Some(i) =>
      assert InMonth(m)(sorted[i]);
      assert sorted[i] in h;
      if i == 0 {
        FirstOfSorted(m, sorted);
      } else {
        PredecessorIsLatest(m, sorted, i);
        LatestBeforeSameElements(h, sorted, sorted[i - 1], m);
        assert sorted[i - 1] in h && MonthBefore(sorted[i - 1].month, m);
      }
  }

  /** Of several snapshots of month `m`, the comparison takes the first in
      history order. */
  lemma AdjacentMonthsTakesFirstOfMonth(m: Month, h: seq<Snapshot>)
    ensures AdjacentMonths(m, h).Some? ==>
              |Filter(h, InMonth(m))| > 0 && AdjacentMonths(m, h).value.0 == Filter(h, InMonth(m))[0]
  {
    var sorted := SortByMonth(h);
    if FindFirst(sorted, InMonth(m)).Some? {
      FindFirstIsFilterHead(sorted, InMonth(m));
      SortByMonthStable(h, m);
    }
  }

  /** Of several snapshots of the previous month, the comparison takes the last
      in history order. */
  lemma AdjacentMonthsTakesLastOfPrevious(m: Month, h: seq<Snapshot>)
    ensures AdjacentMonths(m, h).Some? ==>
              var p := AdjacentMonths(m, h).value.1;
              var same := Filter(h, InMonth(p.month));
              |same| > 0 && same[|same| - 1] == p
  {
    var sorted := SortByMonth(h);
    var found := FindFirst(sorted, InMonth(m));
    if found.Some? && found.value > 0 {
      var i := found.value;
      var p := sorted[i - 1];
      assert AdjacentMonths(m, h) == Some((sorted[i], p));
      assert sorted[i].month == m && !InMonth(m)(p);
      assert MonthNotAfter(p.month, sorted[i].month);
      LastOfItsMonth(sorted, i, p.month);
      SortByMonthStable(h, p.month);
      assert Filter(h, InMonth(p.month)) == Filter(sorted, InMonth(p.month));
    }
  }

  /** In a sorted list, `s[i - 1]` is the last snapshot of its month when `s[i]`
      is of a later month. */
  lemma LastOfItsMonth(s: seq<Snapshot>, i: nat, pm: Month)
    requires SortedByMonth(s) && 0 < i < |s| && s[i - 1].month == pm && MonthBefore(pm, s[i].month)
    ensures var same := Filter(s, InMonth(pm));
            |same| > 0 && same[|same| - 1] == s[i - 1]
  {
    assert s == s[..i - 1] + [s[i - 1]] + s[i..];
    NoSnapshotOfEarlierMonth(s[i..], pm);
    FilterAppend(s[..i - 1] + [s[i - 1]], s[i..], InMonth(pm));
    FilterAppend(s[..i - 1], [s[i - 1]], InMonth(pm));
    assert Filter([s[i - 1]], InMonth(pm)) == [s[i - 1]];
  }

  /** `getMonthComparison`: this month's column sums against the previous month's,
      `None` without history or without a previous month. */
  function GetMonthComparison(m: Month, history: Option<seq<Snapshot>>): Option<Comparison>
  {
    if history.None? then None
    else match AdjacentMonths(m, history.value)
      case None => None
      case Some((c, p)) => Some(Compare(BucketTotals(c.records), BucketTotals(p.records)))
  }

  /** `getRecordComparison`: one line item against its counterpart in the previous
      month, found by the three-rule matcher. */
  function GetRecordComparison(record: Record, m: Month, history: Option<seq<Snapshot>>): Option<Comparison>
  {
    if history.None? then None
    else match AdjacentMonths(m, history.value)
      case None => None
      case Some((_, p)) =>
        match FindPrevious(record.description, p.records)
        case None => None
        case Some(prev) => Some(Compare(record.amounts, prev.amounts))
  }

  /** The month comparison is present exactly when the history holds month `m` and
      an earlier month; it then compares `m`'s column sums with those of the
      latest earlier month. */
  lemma MonthComparisonSpec(m: Month, history: Option<seq<Snapshot>>)
    ensures GetMonthComparison(m, history).None? <==>
              || history.None?
              || (forall s :: s in history.value ==> s.month != m)
              || (forall s :: s in history.value ==> !MonthBefore(s.month, m))
    ensures GetMonthComparison(m, history).Some? ==>
              exists c, p :: c in history.value && c.month == m && LatestBefore(history.value, p, m)
                && GetMonthComparison(m, history).value == Compare(BucketTotals(c.records), BucketTotals(p.records))
  {
    if history.Some? {
      AdjacentMonthsSpec(m, history.value);
    }
  }

  /** The record comparison is absent without history, without month `m` or an
      earlier month, or when no record of the previous month matches; when present
      it compares the item with its best match in a latest earlier month. */
  lemma RecordComparisonSpec(record: Record, m: Month, history: Option<seq<Snapshot>>)
    ensures (|| history.None?
             || (forall s :: s in history.value ==> s.month != m)
             || (forall s :: s in history.value ==> !MonthBefore(s.month, m)))
            ==> GetRecordComparison(record, m, history).None?
    ensures GetRecordComparison(record, m, history).Some? ==>
              exists p, prev :: LatestBefore(history.value, p, m)
                && FindPrevious(record.description, p.records) == Some(prev)
                && GetRecordComparison(record, m, history).value == Compare(record.amounts, prev.amounts)
    ensures history.Some? && GetRecordComparison(record, m, history).None? ==>
              || (forall s :: s in history.value ==> s.month != m)
              || (forall s :: s in history.value ==> !MonthBefore(s.month, m))
              || exists p :: LatestBefore(history.value, p, m) && FindPrevious(record.description, p.records).None?
  {
    if history.Some? {
      AdjacentMonthsSpec(m, history.value);
    }
  }
}
