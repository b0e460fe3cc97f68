/** The forecast export: the CSV text with a header line, one line per row
    and a totals line, and the column totals the CSV and the Excel export
    share. */
module Export {
  import opened Common
  import opened Text
  import opened Numbers
  import opened Aging
  import opened ForecastTable

  /** A row as exported: `current` falls back to 0-30 when it is 0. */
  function ExportedRow(p: Prediction): (r: Prediction)
    ensures r.description == p.description && r.isOverride == p.isOverride
    ensures r.amounts.current == p.amounts.CurrentOr0To30()
    ensures forall b :: b != Current ==> r.amounts.Get(b) == p.amounts.Get(b)
  {
    p.(amounts := p.amounts.WithCurrentFallback())
  }

  function ExportedRowOf(): Prediction -> Prediction
  {
    (p: Prediction) => ExportedRow(p)
  }

  /** The grand totals of the export, rows added in order. */
  function ExportTotals(preds: seq<Prediction>): Amounts
  {
    if |preds| == 0 then Zero
    else ExportTotals(preds[..|preds| - 1]).Plus(ExportedRow(preds[|preds| - 1]).amounts)
  }

  /** Each export total is the column total of the exported rows. */
  lemma {:induction false} ExportTotalsAreColumnTotals(preds: seq<Prediction>, b: Bucket)
    ensures ExportTotals(preds).Get(b) == ColumnTotal(Map(preds, ExportedRowOf()), b)
  {
    if |preds| > 0 {
      var n := |preds| - 1;
      var rows := Map(preds, ExportedRowOf());
      ExportTotalsAreColumnTotals(preds[..n], b);
      assert Map(preds[..n], ExportedRowOf()) == rows[..n];
      assert PredictionColumn(rows, b)[..n] == PredictionColumn(rows[..n], b);
    }
  }

  /** The export's totals agree with the table's column totals; for `current`
      when no row relies on the fallback. */
  lemma ExportTotalsMatchTable(preds: seq<Prediction>, b: Bucket)
    requires b == Current ==> forall j :: 0 <= j < |preds| ==> preds[j].amounts.current != 0
    ensures ExportTotals(preds).Get(b) == ColumnTotal(preds, b)
  {
    ExportTotalsAreColumnTotals(preds, b);
    assert PredictionColumn(Map(preds, ExportedRowOf()), b) == PredictionColumn(preds, b);
  }

  const HeaderFields := ["Description", "Current", "0-30 Days", "31-60 Days", "61-90 Days", "90+ Days", "Total"]

  /** The six amounts of a line after its first field. */
  function AmountFields(a: Amounts): seq<string>
  {
    [IntToString(a.current), IntToString(a.d0To30), IntToString(a.d31To60),
     IntToString(a.d61To90), IntToString(a.d90Plus), IntToString(a.total)]
  }

  /** The fields of one data line: the quoted description, then the amounts. */
  function RowFields(p: Prediction): (r: seq<string>)
    ensures |r| == 7
  {
    ["\"" + p.description + "\""] + AmountFields(ExportedRow(p).amounts)
  }

  function RowLine(p: Prediction): string
  {
    Join(RowFields(p), ',')
  }

  function RowLineOf(): Prediction -> string
  {
    (p: Prediction) => RowLine(p)
  }

  function TotalsLine(t: Amounts): string
  {
    Join(["Total"] + AmountFields(t), ',')
  }

  /** `downloadCSV`: nothing for an empty forecast; otherwise the header, the rows
      in order and the totals, one per line. */
  function DownloadCsv(preds: seq<Prediction>): (r: Option<string>)
    ensures r.None? <==> |preds| == 0
  {
    if |preds| == 0 then None
    else Some(Join([Join(HeaderFields, ',')] + Map(preds, RowLineOf()) + [TotalsLine(ExportTotals(preds))], '\n'))
  }

  /** A numeral contains neither separator. */
  lemma NumeralHasNoSeparator(i: int, c: char)
    requires !IsDigit(c) && c != '-'
    ensures c !in IntToString(i)
  {
  }

  /** Joining parts that avoid `c` with a separator other than `c` avoids `c`. */
  lemma {:induction false} JoinAvoids(parts: seq<string>, sep: char, c: char)
    requires c != sep
    requires forall i :: 0 <= i < |parts| ==> c !in parts[i]
    ensures c !in Join(parts, sep)
  {
    if |parts| > 1 {
      JoinAvoids(parts[1..], sep, c);
    }
  }

  lemma AmountFieldsAvoid(a: Amounts, c: char)
    requires !IsDigit(c) && c != '-'
    ensures forall i :: 0 <= i < 6 ==> c !in AmountFields(a)[i]
  {
    NumeralHasNoSeparator(a.current, c);
    NumeralHasNoSeparator(a.d0To30, c);
    NumeralHasNoSeparator(a.d31To60, c);
    NumeralHasNoSeparator(a.d61To90, c);
    NumeralHasNoSeparator(a.d90Plus, c);
    NumeralHasNoSeparator(a.total, c);
  }

  /** The lines of the CSV, before they are joined. */
  function CsvLineList(preds: seq<Prediction>): seq<string>
  {
    [Join(HeaderFields, ',')] + Map(preds, RowLineOf()) + [TotalsLine(ExportTotals(preds))]
  }

  lemma RowLineIsSingleLine(p: Prediction)
    requires '\n' !in p.description
    ensures '\n' !in RowLine(p)
  {
    AmountFieldsAvoid(ExportedRow(p).amounts, '\n');
    assert '\n' !in "\"" + p.description + "\"";
    JoinAvoids(RowFields(p), ',', '\n');
  }

  lemma FixedLinesAreSingleLines(t: Amounts)
    ensures '\n' !in Join(HeaderFields, ',')
    ensures '\n' !in TotalsLine(t)
  {
    HeaderIsSingleLine();
    TotalsLineIsSingleLine(t);
  }

  lemma HeaderIsSingleLine()
    ensures '\n' !in Join(HeaderFields, ',')
  {
    JoinAvoids(HeaderFields, ',', '\n');
  }

  lemma TotalsLineIsSingleLine(t: Amounts)
    ensures '\n' !in TotalsLine(t)
  {
    AmountFieldsAvoid(t, '\n');
    JoinAvoids(["Total"] + AmountFields(t), ',', '\n');
  }

  /** No line of the CSV holds a line break when no description does. */
  lemma CsvLinesAreSingleLines(preds: seq<Prediction>)
    requires forall j :: 0 <= j < |preds| ==> '\n' !in preds[j].description
    ensures forall i :: 0 <= i < |CsvLineList(preds)| ==> '\n' !in CsvLineList(preds)[i]
  {
    FixedLinesAreSingleLines(ExportTotals(preds));
    RowLinesAreSingleLines(preds);
    FramedLinesAvoid(Join(HeaderFields, ','), Map(preds, RowLineOf()), TotalsLine(ExportTotals(preds)), '\n');
  }

  /** Lines framed by a first and a last line avoid `c` when all of them do. */
  lemma FramedLinesAvoid(first: string, middle: seq<string>, last: string, c: char)
    requires c !in first && c !in last
    requires forall j :: 0 <= j < |middle| ==> c !in middle[j]
    ensures forall i :: 0 <= i < |[first] + middle + [last]| ==> c !in ([first] + middle + [last])[i]
  {
    var lines := [first] + middle + [last];
    forall i | 0 <= i < |lines| ensures c !in lines[i] {
      if 0 < i < |lines| - 1 {
        assert lines[i] == middle[i - 1];
      }
    }
  }

  lemma RowLinesAreSingleLines(preds: seq<Prediction>)
    requires forall j :: 0 <= j < |preds| ==> '\n' !in preds[j].description
    ensures forall j :: 0 <= j < |preds| ==> '\n' !in Map(preds, RowLineOf())[j]
  {
    forall j | 0 <= j < |preds| ensures '\n' !in Map(preds, RowLineOf())[j] {
      RowLineIsSingleLine(preds[j]);
    }
  }

  /** When no description spans lines, the CSV splits back into the header, one
      line per row in order and the totals line: the row count plus two lines. */
  lemma CsvLines(preds: seq<Prediction>)
    requires |preds| > 0
    requires forall j :: 0 <= j < |preds| ==> '\n' !in preds[j].description
    ensures var lines := Split(DownloadCsv(preds).value, '\n');
            && lines == [Join(HeaderFields, ',')] + Map(preds, RowLineOf()) + [TotalsLine(ExportTotals(preds))]
            && |lines| == |preds| + 2
  {
    CsvLinesAreSingleLines(preds);
    SplitJoin(CsvLineList(preds), '\n');
  }

  /** The amount fields follow the header's column order. */
  lemma AmountFieldsInHeaderOrder(a: Amounts, k: int)
    requires 1 <= k < 7
    ensures AmountFields(a)[k - 1] == IntToString(a.Get(HeaderBucket(k)))
  {
  }

  /** A data line reads back, field by field, as the exported row: the quoted
      description and the six amounts, `current` after the fallback (for a
      description without commas). */
  lemma RowLineReadsBack(p: Prediction)
    requires ',' !in p.description
    ensures var fields := Split(RowLine(p), ',');
            && |fields| == 7
            && fields[0] == "\"" + p.description + "\""
            && forall k :: 1 <= k < 7 ==> ParseFloat(fields[k]) == Some(ExportedRow(p).amounts.Get(HeaderBucket(k)) as real)
  {
    var a := ExportedRow(p).amounts;
    var fields := RowFields(p);
    AmountFieldsAvoid(a, ',');
    assert ',' !in "\"" + p.description + "\"";
    SplitJoin(fields, ',');
    forall k | 1 <= k < 7 ensures ParseFloat(fields[k]) == Some(a.Get(HeaderBucket(k)) as real) {
      var v := a.Get(HeaderBucket(k));
      AmountFieldsInHeaderOrder(a, k);
      assert fields[k] == IntToString(v);
      ParseFloatOfInt(v);
    }
  }

  /** The column of the `k`-th amount field (1 to 6), in header order. */
  function HeaderBucket(k: int): Bucket
  {
    if k <= 1 then Current
    else if k == 2 then Days0To30
    else if k == 3 then Days31To60
    else if k == 4 then Days61To90
    else if k == 5 then Days90Plus
    else Total
  }
}
