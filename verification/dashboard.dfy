/** The forecasting page's own logic: the target-month guard, the loop guard
    on mismatch reports from the table, the validation and payload of a
    generation request, and whether the forecast meets the column targets. */
module Dashboard {
  import opened Common
  import opened Text
  import opened Numbers
  import opened ForecastTable
  import opened ClientList
  import opened Entries

  /** The month picker: the chosen month, the earliest month allowed (`""` for
      no minimum) and the client whose month was last set automatically. */
  datatype MonthPicker = MonthPicker(targetMonth: string, minTargetMonth: string, monthSetFor: Option<int>)

  /** The chosen month is not before the minimum, when there is one. */
  predicate NotBeforeMinimum(p: MonthPicker)
  {
    p.minTargetMonth == "" || !StrLess(p.targetMonth, p.minTargetMonth)
  }

  /** `handleTargetMonthChange`: a month before the minimum is ignored; any other
      month is taken and frees the automatic month for the next client. */
  function TargetMonthChange(p: MonthPicker, newMonth: string): (r: MonthPicker)
    ensures p.minTargetMonth != "" && StrLess(newMonth, p.minTargetMonth) ==> r == p
    ensures !(p.minTargetMonth != "" && StrLess(newMonth, p.minTargetMonth)) ==>
              r.targetMonth == newMonth && r.minTargetMonth == p.minTargetMonth && r.monthSetFor.None?
    ensures NotBeforeMinimum(p) ==> NotBeforeMinimum(r)
  {
    if p.minTargetMonth != "" && StrLess(newMonth, p.minTargetMonth) then p
    else MonthPicker(newMonth, p.minTargetMonth, None)
  }

  /** The mismatch banner: shown or not, and the totals it quotes. The target is
      `None` when it is NaN. */
  datatype Mismatch = Mismatch(show: bool, grandTotal: int, targetTotal: Option<real>)

  const NoMismatch := Mismatch(false, 0, Some(0.0))

  /** Two totals within a cent of each other; NaN is near nothing, itself included. */
  predicate Near(a: Option<real>, b: Option<real>)
  {
    a.Some? && b.Some? && Abs(a.value - b.value) < 0.01
  }

  /** The report says nothing new: the previous state is kept as it is. */
  predicate Redundant(prev: Mismatch, isMismatched: bool, grand: int, target: Option<real>)
  {
    prev.show == isMismatched && Abs((prev.grandTotal - grand) as real) < 0.01 && Near(prev.targetTotal, target)
  }

  /** `handleTargetMismatch`: the state after the table reports whether the grand
      total misses the target. */
  function ReportMismatch(prev: Mismatch, isMismatched: bool, grand: int, target: Option<real>): (r: Mismatch)
    ensures r == prev || r == Mismatch(isMismatched, grand, target)
    ensures r.show == isMismatched && r.grandTotal == grand
    ensures target.Some? ==> r.targetTotal.Some? && Abs(r.targetTotal.value - target.value) < 0.01
  {
    if Redundant(prev, isMismatched, grand, target) then prev
    else Mismatch(isMismatched, grand, target)
  }

  /** Repeating a report with a number as target is recognised as redundant, so
      the table's report does not trigger itself again. */
  lemma ReportMismatchIdempotent(prev: Mismatch, isMismatched: bool, grand: int, target: Option<real>)
    requires target.Some?
    ensures Redundant(ReportMismatch(prev, isMismatched, grand, target), isMismatched, grand, target)
    ensures ReportMismatch(ReportMismatch(prev, isMismatched, grand, target), isMismatched, grand, target)
            == ReportMismatch(prev, isMismatched, grand, target)
  {
  }

  /** With a NaN target no report is ever redundant: every report replaces the
      state. */
  lemma NaNTargetNeverRedundant(prev: Mismatch, isMismatched: bool, grand: int)
    ensures !Redundant(prev, isMismatched, grand, None)
    ensures ReportMismatch(prev, isMismatched, grand, None) == Mismatch(isMismatched, grand, None)
  {
  }

  /** The four column targets as typed. */
  datatype ColumnTargets = ColumnTargets(b0To30: string, b31To60: string, b61To90: string, b90Plus: string)

  /** `parseFloat(x || 0)`: an empty input counts as 0, anything else is parsed. */
  function TargetValue(s: string): (r: Option<real>)
    ensures r == ParseFloat(if s == "" then "0" else s)
    ensures s == "" ==> r == Some(0.0)
  {
    if s == "" then (ParseFloatOfInt(0); Some(0.0)) else ParseFloat(s)
  }

  /** The four parsed targets, as sent in `column_targets`. */
  datatype ColumnValues = ColumnValues(b0To30: Option<real>, b31To60: Option<real>, b61To90: Option<real>, b90Plus: Option<real>)

  function ParseTargets(ct: ColumnTargets): ColumnValues
  {
    ColumnValues(TargetValue(ct.b0To30), TargetValue(ct.b31To60), TargetValue(ct.b61To90), TargetValue(ct.b90Plus))
  }

  /** JavaScript addition, where NaN absorbs everything. */
  function AddNumbers(a: Option<real>, b: Option<real>): (r: Option<real>)
    ensures r.Some? <==> a.Some? && b.Some?
    ensures r.Some? ==> r.value == a.value + b.value
  {
    if a.Some? && b.Some? then Some(a.value + b.value) else None
  }

  /** The sum of the four column values, NaN if any is NaN. */
  function ValuesTotal(v: ColumnValues): (r: Option<real>)
    ensures r.Some? <==> v.b0To30.Some? && v.b31To60.Some? && v.b61To90.Some? && v.b90Plus.Some?
  {
    AddNumbers(AddNumbers(AddNumbers(v.b0To30, v.b31To60), v.b61To90), v.b90Plus)
  }

  /** `targetTotal` / `calculatedTargetTotal`. */
  function TargetTotal(ct: ColumnTargets): (r: Option<real>)
    ensures ct == ColumnTargets("", "", "", "") ==> r == Some(0.0)
  {
    ValuesTotal(ParseTargets(ct))
  }

  /** An additional entry as sent: trimmed description and parsed amount. */
  datatype AdditionalEntry = AdditionalEntry(description: string, amount: real)

  function ToAdditional(): Entry -> AdditionalEntry
  {
    (e: Entry) => AdditionalEntry(Trim(e.description), OrZero(ParseFloat(e.amount)))
  }

  function Sendable(): AdditionalEntry -> bool
  {
    (a: AdditionalEntry) => a.description != "" && a.amount > 0.0
  }

  /** `validEntries`: the entries with content, trimmed and parsed, keeping those
      with a description and a positive amount. */
  function ValidEntries(es: seq<Entry>): (r: seq<AdditionalEntry>)
    ensures |r| <= ValidCount(es)
    ensures forall k :: 0 <= k < |r| ==> r[k].description != "" && r[k].amount > 0.0
  {
    var withContent := Filter(es, Filled());
    var parsed := Map(withContent, ToAdditional());
    assert |parsed| == ValidCount(es);
    Filter(parsed, Sendable())
  }

  /** An entry that ends up in the request. */
  predicate Usable(e: Entry)
  {
    Trim(e.description) != "" && OrZero(ParseFloat(e.amount)) > 0.0
  }

  function UsableEntry(): Entry -> bool
  {
    (e: Entry) => Usable(e)
  }

  /** The three passes are one: exactly the usable entries, in their order, each
      trimmed and parsed. */
  lemma {:induction false} ValidEntriesSinglePass(es: seq<Entry>)
    ensures ValidEntries(es) == Map(Filter(es, UsableEntry()), ToAdditional())
  {
    if |es| > 0 {
      var e := es[0];
      ValidEntriesSinglePass(es[1..]);
      var tail := Filter(es[1..], Filled());
      var ptail := Map(tail, ToAdditional());
      if Filled()(e) {
        assert Filter(es, Filled()) == [e] + tail;
        assert ([e] + tail)[1..] == tail;
        assert Map([e] + tail, ToAdditional()) == [ToAdditional()(e)] + ptail;
        assert ([ToAdditional()(e)] + ptail)[1..] == ptail;
        if Usable(e) {
          assert Filter(es, UsableEntry()) == [e] + Filter(es[1..], UsableEntry());
          assert ([e] + Filter(es[1..], UsableEntry()))[1..] == Filter(es[1..], UsableEntry());
        }
      } else {
        assert !Usable(e);
      }
    }
  }

  /** Why a generation request is refused. */
  datatype GenerateError = MissingFields | NoColumnTarget

  /** The prediction request. */
  datatype Payload = Payload(
    clientId: int,
    targetMonth: string,
    targetTotal: Option<real>,
    carryThreshold: real,
    additionalEntries: seq<AdditionalEntry>,
    columnTargets: ColumnValues)

  /** `handleGenerate` up to the request: refused without a client or month, or
      when the column targets sum to zero or less (a NaN sum is not refused). */
  function Generate(client: Option<Client>, targetMonth: string, ct: ColumnTargets, carryThreshold: real,
                    entries: seq<Entry>): (r: Result<Payload, GenerateError>)
    ensures r == Failure(MissingFields) <==> client.None? || targetMonth == ""
    ensures r == Failure(NoColumnTarget) <==>
              client.Some? && targetMonth != "" && TargetTotal(ct).Some? && TargetTotal(ct).value <= 0.0
    ensures r.Success? ==>
              && r.value.clientId == client.value.id
              && r.value.targetMonth == targetMonth
              && r.value.carryThreshold == carryThreshold
              && r.value.additionalEntries == ValidEntries(entries)
              && r.value.targetTotal == ValuesTotal(r.value.columnTargets)
              && (r.value.targetTotal.None? || r.value.targetTotal.value > 0.0)
  {
    if client.None? || targetMonth == "" then Failure(MissingFields)
    else
      var total := TargetTotal(ct);
      if total.Some? && total.value <= 0.0 then Failure(NoColumnTarget)
      else Success(Payload(client.value.id, targetMonth, total, carryThreshold, ValidEntries(entries), ParseTargets(ct)))
  }

  /** With every column target left empty a request is always refused. */
  lemma EmptyTargetsRefused(client: Option<Client>, targetMonth: string, carryThreshold: real, entries: seq<Entry>)
    ensures Generate(client, targetMonth, ColumnTargets("", "", "", ""), carryThreshold, entries).Failure?
  {
  }

  /** `isTargetMatched`: the forecast's grand total is within a cent of the
      targets' sum; a NaN target is never met. */
  function IsTargetMatched(rows: seq<Prediction>, ct: ColumnTargets): (r: bool)
    ensures TargetTotal(ct).None? ==> !r
    ensures TargetTotal(ct).Some? ==> (r <==> TargetMatched(GrandTotal(rows), TargetTotal(ct).value))
  {
    var t := TargetTotal(ct);
    t.Some? && Abs(GrandTotal(rows) as real - t.value) < 0.01
  }

  /** For whole-number targets the forecast meets them exactly when its grand
      total equals their sum. */
  lemma TargetMatchedIffWholeSum(rows: seq<Prediction>, ct: ColumnTargets, t: int)
    requires TargetTotal(ct) == Some(t as real)
    ensures IsTargetMatched(rows, ct) <==> GrandTotal(rows) == t
  {
    TargetMatchedIffEqual(GrandTotal(rows), t);
  }

  /** After the table reports the current match, the banner shows exactly when
      the targets are missed and quotes the current grand total. */
  lemma BannerReflectsMatch(prev: Mismatch, rows: seq<Prediction>, ct: ColumnTargets)
    ensures var s := ReportMismatch(prev, !IsTargetMatched(rows, ct), GrandTotal(rows), TargetTotal(ct));
            s.show == !IsTargetMatched(rows, ct) && s.grandTotal == GrandTotal(rows)
  {
  }
}
