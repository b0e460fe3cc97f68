/** The list of additional entries the user types next to the client picker:
    edits, additions and removals, and the count of entries that hold
    anything. */
module Entries {
  import opened Common
  import opened Text

  /** One typed entry; both fields are the raw text of their inputs. */
  datatype Entry = Entry(description: string, amount: string)

  datatype EntryField = Description | Amount

  const EmptyEntry := Entry("", "")

  /** The list starts as one empty entry. */
  const InitialEntries: seq<Entry> := [EmptyEntry]

  /** `handleEntryChange`: field `f` of entry `i` takes the typed value. */
  function EntryChange(es: seq<Entry>, i: nat, f: EntryField, value: string): (r: seq<Entry>)
    requires i < |es|
    ensures |r| == |es|
    ensures forall j :: 0 <= j < |es| && j != i ==> r[j] == es[j]
    ensures f == Description ==> r[i].description == value && r[i].amount == es[i].amount
    ensures f == Amount ==> r[i].amount == value && r[i].description == es[i].description
  {
    es[i := match f
      case Description => es[i].(description := value)
      case Amount => es[i].(amount := value)]
  }

  /** `addEntry`: one more empty entry at the end. */
  function AddEntry(es: seq<Entry>): (r: seq<Entry>)
    ensures |r| == |es| + 1 && r[..|es|] == es && r[|es|] == EmptyEntry
  {
    es + [EmptyEntry]
  }

  /** The elements whose position is not `i` (`filter((_, k) => k !== i)`). */
  function DropIndex<T>(s: seq<T>, i: int): (r: seq<T>)
    ensures 0 <= i < |s| ==> r == s[..i] + s[i + 1..]
    ensures !(0 <= i < |s|) ==> r == s
  {
    if |s| == 0 then []
    else
      var rest := DropIndex(s[1..], i - 1);
      assert s == [s[0]] + s[1..];
      assert 0 < i < |s| ==> s[1..][..i - 1] == s[1..i] && s[1..][i..] == s[i + 1..];
      (if i == 0 then [] else [s[0]]) + rest
  }

  /** `removeEntry`: drops entry `i` unless it is the only one. */
  function RemoveEntry(es: seq<Entry>, i: nat): (r: seq<Entry>)
    ensures |es| > 1 && i < |es| ==> |r| == |es| - 1
    ensures |es| > 1 && i < |es| ==> forall j :: 0 <= j < |r| ==> r[j] == (if j < i then es[j] else es[j + 1])
    ensures |es| <= 1 || i >= |es| ==> r == es
  {
    if |es| > 1 then DropIndex(es, i) else es
  }

  /** No operation ever empties a non-empty list, so starting from the initial
      list there is always an entry to type into. */
  lemma EntriesNeverEmpty(es: seq<Entry>, i: nat, f: EntryField, value: string)
    requires |es| >= 1
    ensures i < |es| ==> |EntryChange(es, i, f, value)| >= 1
    ensures |AddEntry(es)| >= 1
    ensures |RemoveEntry(es, i)| >= 1
  {
  }

  /** An entry with anything typed in either field. */
  predicate HasContent(e: Entry)
  {
    Trim(e.description) != "" || Trim(e.amount) != ""
  }

  function Filled(): Entry -> bool
  {
    (e: Entry) => HasContent(e)
  }

  /** `getValidEntriesCount`. */
  function ValidCount(es: seq<Entry>): (r: nat)
    ensures r <= |es|
    ensures r == 0 <==> forall i :: 0 <= i < |es| ==> !HasContent(es[i])
    ensures r == |es| <==> forall i :: 0 <= i < |es| ==> HasContent(es[i])
  {
    CountZeroIff(es, Filled());
    CountAllIff(es, Filled());
    Count(es, Filled())
  }

  /** `Total entries` shown under the picker. */
  function TotalEntries(lastMonthEntriesCount: nat, es: seq<Entry>): (r: nat)
    ensures lastMonthEntriesCount <= r <= lastMonthEntriesCount + |es|
  {
    lastMonthEntriesCount + ValidCount(es)
  }

  lemma EmptyEntryHasNoContent()
    ensures !HasContent(EmptyEntry)
  {
    assert |Trim("")| == 0;
  }

  lemma EmptyEntryNotFilled()
    ensures !Filled()(EmptyEntry)
  {
    EmptyEntryHasNoContent();
  }

  /** The initial list counts no entries. */
  lemma InitialEntriesCountNothing()
    ensures ValidCount(InitialEntries) == 0
  {
    EmptyEntryNotFilled();
    CountZeroIff(InitialEntries, Filled());
  }

  /** Adding an empty entry does not change the count. */
  lemma AddEntryKeepsCount(es: seq<Entry>)
    ensures ValidCount(AddEntry(es)) == ValidCount(es)
  {
    EmptyEntryNotFilled();
    CountAppendNonMatching(es, EmptyEntry, Filled());
  }


}
