/** The client list of the history view: case-insensitive search by name, the
    years offered by the chart's year filter, and which points of the history
    chart get an axis label. */
module ClientList {
  import opened Common
  import opened Text
  import opened Analytics

  datatype Client = Client(id: int, name: string)

  function NameMatches(term: string): Client -> bool
  {
    (c: Client) => Contains(ToLower(c.name), ToLower(term))
  }

  /** The clients whose lower-cased name contains the lower-cased search term, in
      list order; no list at all gives no clients. */
  function FilterClients(clients: Option<seq<Client>>, term: string): (r: seq<Client>)
    ensures clients.None? ==> r == []
    ensures forall i :: 0 <= i < |r| ==> Contains(ToLower(r[i].name), ToLower(term))
    ensures clients.Some? ==> forall i :: 0 <= i < |clients.value| && Contains(ToLower(clients.value[i].name), ToLower(term))
                                ==> clients.value[i] in r
    ensures clients.Some? ==> (forall i :: 0 <= i < |r| ==> r[i] in clients.value) && IsSubsequence(r, clients.value)
  {
    match clients
    case None => []
    case Some(cs) =>
      var r := Filter(cs, NameMatches(term));
      assert forall i :: 0 <= i < |r| ==> NameMatches(term)(r[i]);
      FilterIsSubsequence(cs, NameMatches(term));
      r
  }

  /** Every string contains the empty one. */
  lemma ContainsEmpty(s: string)
    ensures Contains(s, "")
  {
    assert OccursAt(s, "", 0);
  }

  /** An empty search keeps the whole list. */
  lemma {:induction false} EmptySearchKeepsAll(cs: seq<Client>)
    ensures FilterClients(Some(cs), "") == cs
  {
    if |cs| > 0 {
      ContainsEmpty(ToLower(cs[0].name));
      assert NameMatches("")(cs[0]);
      EmptySearchKeepsAll(cs[1..]);
      assert FilterClients(Some(cs[1..]), "") == Filter(cs[1..], NameMatches(""));
    }
  }

  predicate StrictlyDescending(s: seq<int>)
  {
    forall i, j :: 0 <= i < j < |s| ==> s[i] > s[j]
  }

  /** Adds `y` to a strictly descending list unless it is already there. */
  function InsertDescending(y: int, s: seq<int>): (r: seq<int>)
    requires StrictlyDescending(s)
    ensures StrictlyDescending(r)
    ensures forall x :: x in r <==> x in s || x == y
  {
    if |s| == 0 then [y]
    else if y > s[0] then [y] + s
    else if y == s[0] then s
    else
      var t := InsertDescending(y, s[1..]);
      assert s == [s[0]] + s[1..];
      assert forall k :: 0 <= k < |t| ==> t[k] < s[0] by {
        forall k | 0 <= k < |t| ensures t[k] < s[0] {
          assert t[k] in t;
          if t[k] != y {
            var m :| 0 <= m < |s[1..]| && s[1..][m] == t[k];
            assert s[m + 1] == t[k];
          }
        }
      }
      [s[0]] + t
  }

  /** `getAvailableYears`: each year of the history once, most recent first. */
  function AvailableYears(stats: seq<MonthStat>): (r: seq<int>)
    ensures StrictlyDescending(r)
    ensures forall y :: y in r <==> exists i :: 0 <= i < |stats| && stats[i].month.year == y
  {
    if |stats| == 0 then []
    else
      var n := |stats| - 1;
      var front := AvailableYears(stats[..n]);
      assert forall i :: 0 <= i < n ==> stats[..n][i] == stats[i];
      InsertDescending(stats[n].month.year, front)
  }

  /** Every how many points an axis label is shown. */
  function LabelStride(totalPoints: nat): (r: nat)
    ensures 1 <= r <= 4
  {
    if totalPoints <= 12 then 1
    else if totalPoints <= 24 then 2
    else if totalPoints <= 36 then 3
    else 4
  }

  /** Whether the point at `index` of `totalPoints` gets a label. */
  predicate ShowLabel(index: nat, totalPoints: nat)
  {
    var byDensity :=
      if totalPoints <= 12 then true
      else if totalPoints <= 24 then index % 2 == 0
      else if totalPoints <= 36 then index % 3 == 0
      else index % 4 == 0;
    byDensity || index == 0 || index == totalPoints - 1
  }

  /** The first and last points are always labelled, and every point is within one
      stride after a labelled point, so no gap between labels exceeds the stride. */
  lemma LabelsCoverAxis(index: nat, totalPoints: nat)
    requires index < totalPoints
    ensures ShowLabel(0, totalPoints) && ShowLabel(totalPoints - 1, totalPoints)
    ensures exists j: nat :: index - LabelStride(totalPoints) < j <= index && ShowLabel(j, totalPoints)
  {
    var s := LabelStride(totalPoints);
    var j := index - index % s;
    assert j % s == 0;
    assert ShowLabel(j, totalPoints);
  }

  /** Up to twelve points, every point is labelled. */
  lemma ShortAxisFullyLabelled(index: nat, totalPoints: nat)
    requires index < totalPoints <= 12
    ensures ShowLabel(index, totalPoints)
  {
  }
}
