/** The editable forecast table: cell edits that keep each row's total equal
    to the sum of its aged buckets, column totals, last month's column totals
    under the bucket-shift rule, the per-cell difference against last month,
    and the classification of rows by origin. */
module ForecastTable {
  import opened Common
  import opened Text
  import opened Numbers
  import opened Aging
  import opened Matcher
  import opened MonthComparison

  /** One forecast row; `isOverride` marks amounts the user supplied. */
  datatype Prediction = Prediction(description: string, amounts: Amounts, isOverride: bool)

  /** The four aged buckets, whose sum is a row's total. */
  predicate Aged(b: Bucket)
  {
    b == Days0To30 || b == Days31To60 || b == Days61To90 || b == Days90Plus
  }

  /** A row after any accepted edit: the total is the sum of the aged buckets and
      `current` shows the total. */
  predicate Consistent(a: Amounts)
  {
    a.total == a.AgedSum() && a.current == a.total
  }

  /** The whole number a typed cell value stands for: `Math.round(parseFloat(v) || 0)`. */
  function CellValue(value: string): int
  {
    Round(OrZero(ParseFloat(value)))
  }

  /** Typing back the numeral a cell shows gives the same amount. */
  lemma CellValueOfNumeral(n: int)
    ensures CellValue(IntToString(n)) == n
  {
    ParseFloatOfInt(n);
  }

  /** The amounts of a row after an accepted edit of `field` to `v`: the edited
      bucket (and 0-30 with `current`) takes the value, then the total is
      recomputed and `current` shows it. */
  function EditAmounts(a: Amounts, field: Bucket, v: int): (r: Amounts)
    requires field != Total
    ensures Consistent(r)
    ensures Aged(field) ==> r.Get(field) == v && forall b :: Aged(b) && b != field ==> r.Get(b) == a.Get(b)
    ensures field == Current ==> r.d0To30 == v && forall b :: Aged(b) && b != Days0To30 ==> r.Get(b) == a.Get(b)
  {
    var edited := match field
      case Current => a.(current := v, d0To30 := v)
      case Days0To30 => a.(d0To30 := v)
      case Days31To60 => a.(d31To60 := v)
      case Days61To90 => a.(d61To90 := v)
      case Days90Plus => a.(d90Plus := v)
      case Total => a;
    var total := edited.AgedSum();
    edited.(total := total, current := total)
  }

  /** `handleCellChange`: `None` when the edit is ignored (the total column, or
      `current` on a user-supplied row); otherwise the new rows. The row index
      must exist unless the edit is to the total, which is ignored before the row
      is looked at. */
  function HandleCellChange(rows: seq<Prediction>, i: nat, field: Bucket, value: string): (r: Option<seq<Prediction>>)
    requires field == Total || i < |rows|
    ensures r.None? <==> field == Total || (field == Current && rows[i].isOverride)
    ensures r.Some? ==> |r.value| == |rows| && forall j :: 0 <= j < |rows| && j != i ==> r.value[j] == rows[j]
    ensures r.Some? ==> && r.value[i].description == rows[i].description
                        && r.value[i].isOverride == rows[i].isOverride
                        && Consistent(r.value[i].amounts)
    ensures r.Some? && Aged(field) ==>
              && r.value[i].amounts.Get(field) == CellValue(value)
              && forall b :: Aged(b) && b != field ==> r.value[i].amounts.Get(b) == rows[i].amounts.Get(b)
    ensures r.Some? && field == Current ==>
              && r.value[i].amounts.d0To30 == CellValue(value)
              && forall b :: Aged(b) && b != Days0To30 ==> r.value[i].amounts.Get(b) == rows[i].amounts.Get(b)
  {
    var v := CellValue(value);
    if field == Total then None
    else if field == Current && rows[i].isOverride then None
    else
      Some(rows[i := rows[i].(amounts := EditAmounts(rows[i].amounts, field, v))])
  }

  /** Repeating an accepted edit changes nothing more. */
  lemma CellChangeIdempotent(rows: seq<Prediction>, i: nat, field: Bucket, value: string)
    requires field == Total || i < |rows|
    requires HandleCellChange(rows, i, field, value).Some?
    ensures HandleCellChange(HandleCellChange(rows, i, field, value).value, i, field, value)
            == HandleCellChange(rows, i, field, value)
  {
    var v := CellValue(value);
    var edited := rows[i].(amounts := EditAmounts(rows[i].amounts, field, v));
    var once := rows[i := edited];
    assert HandleCellChange(rows, i, field, value) == Some(once);
    EditAmountsIdempotent(rows[i].amounts, field, v);
    assert once[i] == edited;
    assert edited.(amounts := EditAmounts(edited.amounts, field, v)) == edited;
    assert once[i := edited] == once;
  }

  /** Editing a row's amounts twice to the same value is editing them once. */
  lemma EditAmountsIdempotent(a: Amounts, field: Bucket, v: int)
    requires field != Total
    ensures EditAmounts(EditAmounts(a, field, v), field, v) == EditAmounts(a, field, v)
  {
  }

  /** Replacing one row replaces one entry of every column. */
  lemma ColumnAfterUpdate(rows: seq<Prediction>, i: nat, p: Prediction, b: Bucket)
    requires i < |rows|
    ensures PredictionColumn(rows[i := p], b) == PredictionColumn(rows, b)[i := p.amounts.Get(b)]
  {
  }

  /** One column of the table. */
  function PredictionColumn(rows: seq<Prediction>, b: Bucket): (r: seq<int>)
    ensures |r| == |rows|
    ensures forall j :: 0 <= j < |rows| ==> r[j] == rows[j].amounts.Get(b)
  {
    seq(|rows|, j requires 0 <= j < |rows| => rows[j].amounts.Get(b))
  }

  /** `calculateColumnTotal`. */
  function ColumnTotal(rows: seq<Prediction>, b: Bucket): int
  {
    Sum(PredictionColumn(rows, b))
  }

  /** An accepted edit moves the grand total by exactly the change in the edited
      row's total. */
  lemma GrandTotalAfterEdit(rows: seq<Prediction>, i: nat, field: Bucket, value: string)
    requires field == Total || i < |rows|
    requires HandleCellChange(rows, i, field, value).Some?
    ensures var r := HandleCellChange(rows, i, field, value).value;
            ColumnTotal(r, Total) == ColumnTotal(rows, Total) - rows[i].amounts.total + r[i].amounts.total
  {
    var r := HandleCellChange(rows, i, field, value).value;
    assert r == rows[i := r[i]];
    GrandTotalAfterRowChange(rows, i, r[i]);
  }

  lemma GrandTotalAfterRowChange(rows: seq<Prediction>, i: nat, p: Prediction)
    requires i < |rows|
    ensures ColumnTotal(rows[i := p], Total) == ColumnTotal(rows, Total) - rows[i].amounts.total + p.amounts.total
  {
    ColumnAfterUpdate(rows, i, p, Total);
    SumUpdate(PredictionColumn(rows, Total), i, p.amounts.total);
  }

  /** When every row is consistent, the grand total is the sum of the four aged
      column totals. */
  lemma {:induction false} GrandTotalOfConsistentRows(rows: seq<Prediction>)
    requires forall j :: 0 <= j < |rows| ==> Consistent(rows[j].amounts)
    ensures ColumnTotal(rows, Total) == ColumnTotal(rows, Days0To30) + ColumnTotal(rows, Days31To60)
                                        + ColumnTotal(rows, Days61To90) + ColumnTotal(rows, Days90Plus)
  {
    if |rows| > 0 {
      var n := |rows| - 1;
      GrandTotalOfConsistentRows(rows[..n]);
      forall b | true ensures PredictionColumn(rows, b)[..n] == PredictionColumn(rows[..n], b) {
      }
    }
  }

  /** The previous-month figure one record contributes to a column: the shift
      rule, with `current` falling back to 0-30 when it is 0. */
  function LastMonthValue(previous: Amounts, b: Bucket): (r: int)
    ensures b != Current ==> r == ShiftedPrevious(previous, b)
    ensures b == Current ==> r == if previous.current != 0 then previous.current else previous.d0To30
  {
    match b
    case Current => previous.CurrentOr0To30()
    case Days0To30 => previous.d0To30
    case Days31To60 => previous.d0To30
    case Days61To90 => previous.d31To60
    case Days90Plus => previous.d61To90 + previous.d90Plus
    case Total => previous.total
  }

  /** A record's previous-month figure is the history view's shift rule applied
      to the record as the table reads it. */
  lemma LastMonthValueIsShifted(previous: Amounts, b: Bucket)
    ensures LastMonthValue(previous, b) == ShiftedPrevious(previous.WithCurrentFallback(), b)
  {
  }

  /** Last month's records as the table reads them: `current || 0_30`. */
  function AsShown(records: seq<Record>): (r: seq<Record>)
    ensures |r| == |records|
    ensures forall j :: 0 <= j < |records| ==> r[j] == records[j].(amounts := records[j].amounts.WithCurrentFallback())
  {
    seq(|records|, j requires 0 <= j < |records| => records[j].(amounts := records[j].amounts.WithCurrentFallback()))
  }

  /** `calculateLastMonthColumnTotal`: 0 without last month's data. */
  function LastMonthColumnTotal(lastMonth: seq<Record>, b: Bucket): int
  {
    if |lastMonth| == 0 then 0
    else LastMonthColumnTotal(lastMonth[..|lastMonth| - 1], b) + LastMonthValue(lastMonth[|lastMonth| - 1].amounts, b)
  }

  /** The footer's previous-month figures are the history view's column sums of
      last month, as the table reads its records, under the same shift rule. */
  lemma {:induction false} LastMonthColumnTotalIsShifted(lastMonth: seq<Record>, b: Bucket)
    ensures LastMonthColumnTotal(lastMonth, b) == ShiftedPrevious(BucketTotals(AsShown(lastMonth)), b)
  {
    if |lastMonth| > 0 {
      var n := |lastMonth| - 1;
      LastMonthColumnTotalIsShifted(lastMonth[..n], b);
      assert AsShown(lastMonth)[..n] == AsShown(lastMonth[..n]);
      var before := BucketTotals(AsShown(lastMonth[..n]));
      var last := lastMonth[n].amounts;
      assert BucketTotals(AsShown(lastMonth)) == before.Plus(last.WithCurrentFallback());
      LastMonthValueIsShifted(last, b);
    }
  }

  /** Without a record relying on the fallback, the footer compares with last
      month's plain column sums. */
  lemma {:induction false} AsShownWithoutFallback(lastMonth: seq<Record>)
    requires forall j :: 0 <= j < |lastMonth| ==> lastMonth[j].amounts.current != 0
    ensures AsShown(lastMonth) == lastMonth
  {
    forall j | 0 <= j < |lastMonth|
      ensures AsShown(lastMonth)[j] == lastMonth[j]
    {
      var a := lastMonth[j].amounts;
      assert a.WithCurrentFallback() == a;
    }
  }

  /** How a difference is shown: the change, its sign, and whether it counts as
      no change (`|diff| < 0.01` and `|percentage| < 0.1`). */
  datatype DiffDisplay = DiffDisplay(change: Change, positive: bool, zero: bool)

  function ShowDifference(value: int, previous: int): (r: DiffDisplay)
    ensures r.change.absolute == value - previous && r.change.previousValue == previous
    ensures r.positive <==> value >= previous
    ensures r.zero <==> value == previous
  {
    var c := Difference(value, previous);
    PercentOfZero(previous);
    DiffDisplay(c, c.absolute >= 0, Abs(c.absolute as real) < 0.01 && Abs(c.percentage) < 0.1)
  }

  /** The description the footer row passes for its column totals. */
  const FooterDescription := "TOTAL"

  /** `DifferenceDisplay`: nothing without last month's data or, for a line item,
      without a matching record. The footer compares with last month's column
      sums, a line item with its matching record, both as the table reads them
      and aged one bucket forward. */
  function DifferenceDisplay(lastMonth: seq<Record>, description: string, value: int, field: Bucket): (r: Option<DiffDisplay>)
    ensures r.None? <==> |lastMonth| == 0 || (description != FooterDescription && FindLastMonthRecord(lastMonth, description).None?)
    ensures r.Some? ==> r.value == ShowDifference(value, r.value.change.previousValue)
    ensures r.Some? && description == FooterDescription ==>
              r.value.change.previousValue == ShiftedPrevious(BucketTotals(AsShown(lastMonth)), field)
    ensures r.Some? && description != FooterDescription ==>
              r.value.change.previousValue
              == ShiftedPrevious(FindLastMonthRecord(lastMonth, description).value.amounts.WithCurrentFallback(), field)
  {
    if |lastMonth| == 0 then None
    else if description == FooterDescription then
      LastMonthColumnTotalIsShifted(lastMonth, field);
      Some(ShowDifference(value, LastMonthColumnTotal(lastMonth, field)))
    else match FindLastMonthRecord(lastMonth, description)
      case None => None
      case Some(previous) =>
        LastMonthValueIsShifted(previous.amounts, field);
        Some(ShowDifference(value, LastMonthValue(previous.amounts, field)))
  }

  /** The figure a line item passes for one of its cells: `current || 0_30` for
      `current`, the cell itself otherwise. */
  function DisplayedValue(row: Prediction, field: Bucket): int
  {
    row.amounts.WithCurrentFallback().Get(field)
  }

  /** For a line item the table shows the same change as the history view's
      bucket comparison of the row against its matched record, both read with
      the `current || 0_30` fallback. */
  lemma DifferenceDisplayAgreesWithCompare(lastMonth: seq<Record>, row: Prediction, field: Bucket)
    requires row.description != FooterDescription
    requires FindLastMonthRecord(lastMonth, row.description).Some?
    ensures var previous := FindLastMonthRecord(lastMonth, row.description).value;
            var shown := DifferenceDisplay(lastMonth, row.description, DisplayedValue(row, field), field);
            && shown.Some?
            && shown.value.change == Compare(row.amounts.WithCurrentFallback(), previous.amounts.WithCurrentFallback()).Get(field)
  {
  }

  /** The footer's figures: `calculateColumnTotal` for every column. */
  function TableTotals(rows: seq<Prediction>): (r: Amounts)
    ensures forall b :: r.Get(b) == ColumnTotal(rows, b)
  {
    Amounts(ColumnTotal(rows, Current), ColumnTotal(rows, Days0To30), ColumnTotal(rows, Days31To60),
            ColumnTotal(rows, Days61To90), ColumnTotal(rows, Days90Plus), ColumnTotal(rows, Total))
  }

  /** The footer shows the same change as the history view's month comparison
      of the table's column totals against last month's column sums. */
  lemma FooterDifferenceAgreesWithCompare(lastMonth: seq<Record>, rows: seq<Prediction>, field: Bucket)
    requires |lastMonth| > 0
    ensures var shown := DifferenceDisplay(lastMonth, FooterDescription, ColumnTotal(rows, field), field);
            && shown.Some?
            && shown.value.change == Compare(TableTotals(rows), BucketTotals(AsShown(lastMonth))).Get(field)
  {
  }

  /** Where a row comes from. */
  datatype RowType = Carried | UserAdded | UserSet | Generated

  /** `getRowType`: user-supplied or not, and with or without a counterpart in
      last month's data. */
  function GetRowType(lastMonth: seq<Record>, row: Prediction): (r: RowType)
    ensures (r == UserSet || r == UserAdded) <==> row.isOverride
    ensures (r == UserSet || r == Carried) <==> FindLastMonthRecord(lastMonth, row.description).Some?
  {
    var found := FindLastMonthRecord(lastMonth, row.description).Some?;
    if row.isOverride then (if found then UserSet else UserAdded)
    else if found then Carried else Generated
  }

  function OfType(lastMonth: seq<Record>, t: RowType): Prediction -> bool
  {
    (row: Prediction) => GetRowType(lastMonth, row) == t
  }

  /** The row-type summary: how many rows of each type. */
  function TypeCount(lastMonth: seq<Record>, rows: seq<Prediction>, t: RowType): nat
  {
    Count(rows, OfType(lastMonth, t))
  }

  /** Every row has exactly one type, so the summary accounts for every row. */
  lemma {:induction false} TypeCountsCoverRows(lastMonth: seq<Record>, rows: seq<Prediction>)
    ensures TypeCount(lastMonth, rows, Carried) + TypeCount(lastMonth, rows, UserAdded)
            + TypeCount(lastMonth, rows, UserSet) + TypeCount(lastMonth, rows, Generated) == |rows|
  {
    if |rows| > 0 {
      TypeCountsCoverRows(lastMonth, rows[1..]);
    }
  }

  /** The grand total shown above the table. */
  function GrandTotal(rows: seq<Prediction>): int
  {
    ColumnTotal(rows, Total)
  }

  /** `isTargetMatched`: within a cent of the target. */
  predicate TargetMatched(grandTotal: int, target: real)
  {
    Abs(grandTotal as real - target) < 0.01
  }

  /** For a whole-number target the check is plain equality. */
  lemma TargetMatchedIffEqual(grandTotal: int, target: int)
    ensures TargetMatched(grandTotal, target as real) <==> grandTotal == target
  {
  }
}
