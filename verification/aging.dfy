/** The accounts-receivable aging data model and the bucket-shift rule.

    A receivable ages one bucket per month, so this month's 31-60 bucket is
    compared with last month's 0-30, 61-90 with last month's 31-60, and 90+
    with last month's 61-90 and 90+ together; `current`, 0-30 and the total
    are compared with the same field. */
module Aging {
  import opened Numbers

  /** The six columns the components read, in table order. */
  datatype Bucket = Current | Days0To30 | Days31To60 | Days61To90 | Days90Plus | Total

  /** Amounts of one line item, one forecast row or one month's column sums,
      in whole currency units. A missing field on the wire reads as 0. */
  datatype Amounts = Amounts(current: int, d0To30: int, d31To60: int, d61To90: int, d90Plus: int, total: int)
  {
    function Get(b: Bucket): int
    {
      match b
      case Current => current
      case Days0To30 => d0To30
      case Days31To60 => d31To60
      case Days61To90 => d61To90
      case Days90Plus => d90Plus
      case Total => total
    }

    /** Sum of the four aged buckets (`current` mirrors 0-30 and is not added). */
    function AgedSum(): int
    {
      d0To30 + d31To60 + d61To90 + d90Plus
    }

    /** `current || 0_30`: the current amount, or 0-30 when `current` is 0. */
    function CurrentOr0To30(): int
    {
      if current != 0 then current else d0To30
    }

    /** These amounts as the forecast table reads a record: `current` replaced by
        `current || 0_30`, every other column as it is. */
    function WithCurrentFallback(): (r: Amounts)
      ensures r.current == CurrentOr0To30()
      ensures forall b :: b != Current ==> r.Get(b) == Get(b)
    {
      With(Current, CurrentOr0To30())
    }

    /** These amounts with column `b` set to `v`. */
    function With(b: Bucket, v: int): (r: Amounts)
      ensures r.Get(b) == v
      ensures forall c :: c != b ==> r.Get(c) == Get(c)
    {
      match b
      case Current => this.(current := v)
      case Days0To30 => this.(d0To30 := v)
      case Days31To60 => this.(d31To60 := v)
      case Days61To90 => this.(d61To90 := v)
      case Days90Plus => this.(d90Plus := v)
      case Total => this.(total := v)
    }

    function Plus(other: Amounts): (r: Amounts)
      ensures forall b :: r.Get(b) == Get(b) + other.Get(b)
    {
      Amounts(current + other.current, d0To30 + other.d0To30, d31To60 + other.d31To60,
              d61To90 + other.d61To90, d90Plus + other.d90Plus, total + other.total)
    }
  }

  const Zero := Amounts(0, 0, 0, 0, 0, 0)

  /** A year-month (`YYYY-MM` on the wire). */
  datatype Month = Month(year: int, month: int)

  /** Chronological order on months; for well-formed `YYYY-MM` strings it is their
      lexicographic order. */
  predicate MonthBefore(a: Month, b: Month)
  {
    a.year < b.year || (a.year == b.year && a.month < b.month)
  }

  predicate MonthNotAfter(a: Month, b: Month)
  {
    !MonthBefore(b, a)
  }

  /** One historical or predicted line item of a client month. */
  datatype Record = Record(description: string, amounts: Amounts, predicted: bool)

  /** One client month as the history endpoint returns it. */
  datatype Snapshot = Snapshot(month: Month, records: seq<Record>, totalAmount: int,
                               historicalCount: int, predictedCount: int, hasPredictions: bool)

  /** The previous month's figure a bucket is compared against. */
  function ShiftedPrevious(prev: Amounts, b: Bucket): int
  {
    match b
    case Current => prev.current
    case Days0To30 => prev.d0To30
    case Days31To60 => prev.d0To30
    case Days61To90 => prev.d31To60
    case Days90Plus => prev.d61To90 + prev.d90Plus
    case Total => prev.total
  }

  /** One bucket's month-over-month change. */
  datatype Change = Change(absolute: int, percentage: real, previousValue: int)

  /** A change per column. */
  datatype Comparison = Comparison(current: Change, d0To30: Change, d31To60: Change,
                                   d61To90: Change, d90Plus: Change, total: Change)
  {
    function Get(b: Bucket): Change
    {
      match b
      case Current => current
      case Days0To30 => d0To30
      case Days31To60 => d31To60
      case Days61To90 => d61To90
      case Days90Plus => d90Plus
      case Total => total
    }
  }

  /** `value - previous`, and the percentage with the zero-denominator rule. */
  function Difference(value: int, previous: int): (r: Change)
    ensures r.previousValue == previous
    ensures r.absolute + previous == value
    ensures previous == 0 ==> r.percentage == 0.0
    ensures previous != 0 ==> r.percentage * (previous as real) == (r.absolute as real) * 100.0
  {
    Change(value - previous, Percent(value - previous, previous), previous)
  }

  /** Compares this month's figures with last month's, bucket by bucket, ageing
      last month's figures one bucket forward. */
  function Compare(cur: Amounts, prev: Amounts): (r: Comparison)
    ensures forall b :: r.Get(b) == Difference(cur.Get(b), ShiftedPrevious(prev, b))
  {
    Comparison(
      Difference(cur.current, prev.current),
      Difference(cur.d0To30, prev.d0To30),
      Difference(cur.d31To60, prev.d0To30),
      Difference(cur.d61To90, prev.d31To60),
      Difference(cur.d90Plus, prev.d61To90 + prev.d90Plus),
      Difference(cur.total, prev.total))
  }

  /** Last month's figures aged by one month, with `newAmount` new 0-30 receivables
      (and `current` mirroring them) and the given total. */
  function AgeOneMonth(prev: Amounts, newAmount: int, total: int): Amounts
  {
    Amounts(newAmount, newAmount, prev.d0To30, prev.d31To60, prev.d61To90 + prev.d90Plus, total)
  }

  /** When nothing was collected, every aged bucket shows no change: the shift rule
      is exactly the inverse of ageing. */
  lemma PureAgeingShowsNoChange(prev: Amounts, newAmount: int, total: int)
    ensures var c := Compare(AgeOneMonth(prev, newAmount, total), prev);
            c.d31To60.absolute == 0 && c.d61To90.absolute == 0 && c.d90Plus.absolute == 0
  {
  }

  /** Conversely, zero change in the three aged buckets means this month's aged
      buckets are last month's, aged by one month. */
  lemma NoChangeMeansPureAgeing(cur: Amounts, prev: Amounts)
    requires var c := Compare(cur, prev);
             c.d31To60.absolute == 0 && c.d61To90.absolute == 0 && c.d90Plus.absolute == 0
    ensures cur == AgeOneMonth(prev, cur.d0To30, cur.total).(current := cur.current)
  {
  }

  /** The worked example: 0-30 = 100, 31-60 = 50, 61-90 = 30, 90+ = 20 last month,
      and 31-60 = 100, 61-90 = 50, 90+ = 45 this month. */
  lemma ShiftExample()
    ensures var c := Compare(Amounts(0, 0, 100, 50, 45, 195), Amounts(100, 100, 50, 30, 20, 200));
            c.d31To60.absolute == 0 && c.d61To90.absolute == 0 && c.d90Plus.absolute == -5
            && c.d90Plus.previousValue == 50
  {
  }
}
