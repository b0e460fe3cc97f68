/** Finding last month's counterpart of a line item by its free-text description.

    The history view tries, in order: the same description, the same description
    after normalisation (lower-case, white space collapsed, periods and commas
    removed, trimmed), and the same description after normalisation plus a fixed
    table of spelling corrections. The forecast table uses a weaker normaliser
    with only the `sloutions` correction. */
module Matcher {
  import opened Common
  import opened Text
  import opened Aging

  /** The shared first steps: lower-case, collapse white space, strip periods
      and commas. */
  function Stripped(s: string): string
  {
    RemoveChar(RemoveChar(CollapseSpaces(ToLower(s)), '.'), ',')
  }

  /** What the shared steps keep: the lower-cased description's non-space
      characters, in order, without periods and commas, separated by plain
      spaces only. */
  lemma StrippedContent(s: string)
    ensures NonSpace(Stripped(s)) == NonSpace(RemoveChar(RemoveChar(ToLower(s), '.'), ','))
    ensures forall c :: c in Stripped(s) && IsSpace(c) ==> c == ' '
    ensures '.' !in Stripped(s) && ',' !in Stripped(s)
    ensures forall c :: c in Stripped(s) ==> !IsUpper(c)
  {
    StrippedNonSpace(s);
    StrippedChars(s);
  }

  lemma StrippedNonSpace(s: string)
    ensures NonSpace(Stripped(s)) == NonSpace(RemoveChar(RemoveChar(ToLower(s), '.'), ','))
  {
    var lower := ToLower(s);
    PunctuationIsNotSpace();
    NonSpaceWithoutPunctuation(CollapseSpaces(lower));
    NonSpaceWithoutPunctuation(lower);
  }

  lemma PunctuationIsNotSpace()
    ensures !IsSpace('.') && !IsSpace(',')
  {
  }

  /** Dropping periods and commas commutes with dropping white space. */
  lemma NonSpaceWithoutPunctuation(t: string)
    ensures NonSpace(RemoveChar(RemoveChar(t, '.'), ',')) == RemoveChar(RemoveChar(NonSpace(t), '.'), ',')
  {
    PunctuationIsNotSpace();
    NonSpaceRemoveChar(t, '.');
    NonSpaceRemoveChar(RemoveChar(t, '.'), ',');
  }

  lemma StrippedChars(s: string)
    ensures forall c :: c in Stripped(s) ==> c in CollapseSpaces(ToLower(s))
    ensures forall c :: c in Stripped(s) && IsSpace(c) ==> c == ' '
    ensures '.' !in Stripped(s) && ',' !in Stripped(s)
    ensures forall c :: c in Stripped(s) ==> !IsUpper(c)
  {
    var collapsed := CollapseSpaces(ToLower(s));
    CollapseSpacesChars(ToLower(s));
    forall c | c in Stripped(s) && IsSpace(c) ensures c == ' ' {
      assert c in collapsed;
      var i :| 0 <= i < |collapsed| && collapsed[i] == c;
    }
  }

  /** Lower-case, collapse white space, strip periods and commas, trim. */
  function Normalize(s: string): (r: string)
    ensures '.' !in r && ',' !in r
    ensures forall c :: c in r ==> !IsUpper(c)
    ensures |r| > 0 ==> !IsSpace(r[0]) && !IsSpace(r[|r| - 1])
  {
    StrippedContent(s);
    TrimChars(Stripped(s));
    Trim(Stripped(s))
  }

  /** Normalising keeps the lower-cased description's non-space characters, in
      order, less periods and commas, and puts only plain spaces between them. */
  lemma NormalizeContent(s: string)
    ensures NonSpace(Normalize(s)) == NonSpace(RemoveChar(RemoveChar(ToLower(s), '.'), ','))
    ensures forall c :: c in Normalize(s) && IsSpace(c) ==> c == ' '
  {
    StrippedContent(s);
    TrimChars(Stripped(s));
    TrimKeepsNonSpace(Stripped(s));
  }

  /** The characters of a normalised description: every character of the
      lower-cased description but white space, periods and commas survives,
      and nothing else appears but plain spaces. */
  lemma NormalizeCharacters(s: string)
    ensures forall c :: c in Normalize(s) ==> c == ' ' || (c in ToLower(s) && c != '.' && c != ',')
    ensures forall c :: c in ToLower(s) && !IsSpace(c) && c != '.' && c != ',' ==> c in Normalize(s)
  {
    NormalizeAddsOnlySpaces(s);
    NormalizeKeepsCharacters(s);
  }

  lemma NormalizeAddsOnlySpaces(s: string)
    ensures forall c :: c in Normalize(s) ==> c == ' ' || (c in ToLower(s) && c != '.' && c != ',')
  {
    var r := Normalize(s);
    var kept := RemoveChar(RemoveChar(ToLower(s), '.'), ',');
    NormalizeContent(s);
    SameNonSpaceMembers(r, kept);
    forall c | c in r && c != ' ' ensures c in ToLower(s) && c != '.' && c != ',' {
      assert !IsSpace(c);
      assert c in kept;
      KeptCharacter(ToLower(s), c);
    }
  }

  lemma KeptCharacter(t: string, c: char)
    requires c in RemoveChar(RemoveChar(t, '.'), ',')
    ensures c in t && c != '.' && c != ','
  {
    assert c in RemoveChar(t, '.');
  }

  lemma NormalizeKeepsCharacters(s: string)
    ensures forall c :: c in ToLower(s) && !IsSpace(c) && c != '.' && c != ',' ==> c in Normalize(s)
  {
    var lower := ToLower(s);
    var kept := RemoveChar(RemoveChar(lower, '.'), ',');
    NormalizeContent(s);
    SameNonSpaceMembers(Normalize(s), kept);
    forall c | c in lower && !IsSpace(c) && c != '.' && c != ',' ensures c in Normalize(s) {
      assert c in RemoveChar(lower, '.');
      assert c in kept;
    }
  }

  /** `replace(/solutions?/g, 'solutions')`: singular and plural both become plural. */
  function PluralSolutions(s: string): string
    decreases |s|
  {
    if |s| < 8 then s
    else if s[..8] == "solution" then
      var rest := if |s| > 8 && s[8] == 's' then s[9..] else s[8..];
      "solutions" + PluralSolutions(rest)
    else [s[0]] + PluralSolutions(s[1..])
  }

  /** The plural rewrite introduces no character beyond those of `solutions`. */
  lemma {:induction false} PluralSolutionsChars(s: string)
    ensures forall c :: c in PluralSolutions(s) ==> c in s || c in "solutions"
    decreases |s|
  {
    if |s| >= 8 {
      if s[..8] == "solution" {
        var rest := if |s| > 8 && s[8] == 's' then s[9..] else s[8..];
        PluralSolutionsChars(rest);
        assert forall c :: c in rest ==> c in s;
      } else {
        PluralSolutionsChars(s[1..]);
        assert forall c :: c in s[1..] ==> c in s;
      }
    }
  }

  /** Without a `solution` in it, the plural rewrite changes nothing. */
  lemma {:induction false} PluralSolutionsAbsent(s: string)
    requires !Contains(s, "solution")
    ensures PluralSolutions(s) == s
    decreases |s|
  {
    if |s| >= 8 {
      assert !OccursAt(s, "solution", 0);
      forall i | 0 <= i <= |s[1..]| - 8 && OccursAt(s[1..], "solution", i)
        ensures false
      {
        assert s[1..][i..i + 8] == s[i + 1..i + 9];
        assert OccursAt(s, "solution", i + 1);
      }
      PluralSolutionsAbsent(s[1..]);
      assert s == [s[0]] + s[1..];
    }
  }

  /** The spelling corrections applied after the shared steps. */
  function Corrected(stripped: string): string
  {
    var corrected := ReplaceAll(PluralSolutions(ReplaceAll(stripped, "sloutions", "solutions")),
                                "transportation", "transport");
    ReplaceAll(corrected, "logistics", "logistics")
  }

  /** The normaliser with the correction table: the `sloutions` misspelling,
      singular/plural `solution(s)`, `transportation` shortened to `transport`,
      and `logistics` (replaced by itself). */
  function NormalizeCorrected(s: string): string
  {
    Trim(Corrected(Stripped(s)))
  }

  /** The corrected normaliser adds no character but those of the corrected
      words, and its result has the plain normaliser's shape: plain spaces
      only, no periods, commas or capitals, nothing blank at either end. */
  lemma NormalizeCorrectedShape(s: string)
    ensures var r := NormalizeCorrected(s);
            && (forall c :: c in r ==> c in Stripped(s) || c in "solutions" || c in "transport")
            && (forall c :: c in r && IsSpace(c) ==> c == ' ')
            && '.' !in r && ',' !in r
            && (forall c :: c in r ==> !IsUpper(c))
            && (|r| > 0 ==> !IsSpace(r[0]) && !IsSpace(r[|r| - 1]))
  {
    NormalizeCorrectedChars(s);
    NormalizeCorrectedCharShape(s);
  }

  lemma NormalizeCorrectedChars(s: string)
    ensures forall c :: c in NormalizeCorrected(s) ==> c in Stripped(s) || c in "solutions" || c in "transport"
  {
    CorrectedChars(Stripped(s));
    TrimChars(Corrected(Stripped(s)));
  }

  lemma NormalizeCorrectedCharShape(s: string)
    ensures forall c :: c in NormalizeCorrected(s) ==>
              (IsSpace(c) ==> c == ' ') && c != '.' && c != ',' && !IsUpper(c)
  {
    NormalizeCorrectedChars(s);
    forall c | c in NormalizeCorrected(s)
      ensures (IsSpace(c) ==> c == ' ') && c != '.' && c != ',' && !IsUpper(c)
    {
      CorrectedCharShape(s, c);
    }
  }

  lemma CorrectedCharShape(s: string, c: char)
    requires c in Stripped(s) || c in "solutions" || c in "transport"
    ensures (IsSpace(c) ==> c == ' ') && c != '.' && c != ',' && !IsUpper(c)
  {
    StrippedChars(s);
    CorrectionWordsAreLowerCase();
  }

  /** The corrections bring in no character but those of the corrected words. */
  lemma CorrectedChars(stripped: string)
    ensures forall c :: c in Corrected(stripped) ==> c in stripped || c in "solutions" || c in "transport"
  {
    var first := ReplaceAll(stripped, "sloutions", "solutions");
    ReplaceAllChars(stripped, "sloutions", "solutions");
    PluralSolutionsChars(first);
    var second := ReplaceAll(PluralSolutions(first), "transportation", "transport");
    ReplaceAllChars(PluralSolutions(first), "transportation", "transport");
    LogisticsCorrectionIsIdentity(second);
  }

  /** The words the corrections write are lower-case letters only. */
  lemma CorrectionWordsAreLowerCase()
    ensures forall c :: c in "solutions" ==> 'a' <= c <= 'z'
    ensures forall c :: c in "transport" ==> 'a' <= c <= 'z'
  {
  }

  /** A description with none of the corrected spellings normalises the same
      way with and without the correction table. */
  lemma CorrectionsOnlyTouchTheirWords(s: string)
    requires !Contains(Stripped(s), "sloutions")
    requires !Contains(Stripped(s), "solution")
    requires !Contains(Stripped(s), "transportation")
    ensures NormalizeCorrected(s) == Normalize(s)
  {
    var stripped := Stripped(s);
    ReplaceAllAbsent(stripped, "sloutions", "solutions");
    PluralSolutionsAbsent(stripped);
    ReplaceAllAbsent(stripped, "transportation", "transport");
    LogisticsCorrectionIsIdentity(stripped);
  }

  /** The `logistics` entry of the correction table changes nothing. */
  lemma LogisticsCorrectionIsIdentity(s: string)
    ensures ReplaceAll(s, "logistics", "logistics") == s
  {
    ReplaceAllSelf(s, "logistics");
  }

  /** The best rule by which `candidate` matches `desc`: 0 the same text,
      1 the same after normalisation, 2 the same after correction, 3 none. */
  function Rank(desc: string, candidate: string): (r: nat)
    ensures r <= 3
    ensures r == 0 <==> candidate == desc
  {
    if candidate == desc then 0
    else if Normalize(candidate) == Normalize(desc) then 1
    else if NormalizeCorrected(candidate) == NormalizeCorrected(desc) then 2
    else 3
  }

  /** `records[i]` is the earliest record of the best rank present. */
  predicate BestMatchAt(desc: string, records: seq<Record>, i: int)
  {
    && 0 <= i < |records|
    && Rank(desc, records[i].description) < 3
    && forall j :: 0 <= j < |records| ==>
         || Rank(desc, records[i].description) < Rank(desc, records[j].description)
         || (Rank(desc, records[i].description) == Rank(desc, records[j].description) && i <= j)
  }

  /** Last month's record matching `desc` in the history view (Clients.js), or
      `None` when no record matches under any of the three rules. */
  function FindPrevious(desc: string, records: seq<Record>): Option<Record>
  {
    match FindFirst(records, Described(desc))
    case Some(i) => Some(records[i])
    case None =>
      match FindFirst(records, NormalizedAs(Normalize(desc)))
      case Some(i) => Some(records[i])
      case None =>
        match FindFirst(records, CorrectedAs(NormalizeCorrected(desc)))
        case None => None
        case Some(i) => Find(records, Described(records[i].description))
  }

  /** The search conditions of the three rules. */
  function Described(desc: string): Record -> bool
  {
    (rec: Record) => rec.description == desc
  }

  function NormalizedAs(n: string): Record -> bool
  {
    (rec: Record) => Normalize(rec.description) == n
  }

  function CorrectedAs(c: string): Record -> bool
  {
    (rec: Record) => NormalizeCorrected(rec.description) == c
  }

  /** A record of rank `rank` that is the first of that rank, with no better rank
      present, is the best match. */
  lemma BestAtRank(desc: string, records: seq<Record>, i: nat, rank: nat)
    requires i < |records| && Rank(desc, records[i].description) == rank < 3
    requires forall j :: 0 <= j < |records| ==> Rank(desc, records[j].description) >= rank
    requires forall j :: 0 <= j < i ==> Rank(desc, records[j].description) != rank
    ensures BestMatchAt(desc, records, i)
  {
  }

  /** The matcher returns the earliest record of the best rule present: an exact
      description whenever one exists, else a normalised match, else a corrected
      one, and `None` exactly when nothing matches. */
  lemma FindPreviousIsBestMatch(desc: string, records: seq<Record>)
    ensures FindPrevious(desc, records).None? <==>
              forall j :: 0 <= j < |records| ==> Rank(desc, records[j].description) == 3
    ensures FindPrevious(desc, records).Some? ==>
              exists i :: BestMatchAt(desc, records, i) && records[i] == FindPrevious(desc, records).value
  {
    if FindFirst(records, Described(desc)).Some? {
      ExactStage(desc, records);
    } else if FindFirst(records, NormalizedAs(Normalize(desc))).Some? {
      NormalizedStage(desc, records);
    } else {
      CorrectedStage(desc, records);
    }
  }

  /** The first rule: an exact description is present. */
  lemma ExactStage(desc: string, records: seq<Record>)
    requires FindFirst(records, Described(desc)).Some?
    ensures FindPrevious(desc, records).Some?
    ensures exists i :: BestMatchAt(desc, records, i) && records[i] == FindPrevious(desc, records).value
  {
    var i := FindFirst(records, Described(desc)).value;
    BestAtRank(desc, records, i, 0);
    assert FindPrevious(desc, records) == Some(records[i]);
  }

  /** The second rule, reached when no exact description is present. */
  lemma NormalizedStage(desc: string, records: seq<Record>)
    requires FindFirst(records, Described(desc)).None?
    requires FindFirst(records, NormalizedAs(Normalize(desc))).Some?
    ensures FindPrevious(desc, records).Some?
    ensures exists i :: BestMatchAt(desc, records, i) && records[i] == FindPrevious(desc, records).value
  {
    NoExactMatch(desc, records);
    var i := FindFirst(records, NormalizedAs(Normalize(desc))).value;
    assert FindPrevious(desc, records) == Some(records[i]);
    NoNormalizedMatchBefore(desc, records, i);
    BestAtRank(desc, records, i, 1);
  }

  /** Without an exact description every record ranks 1 or worse. */
  lemma NoExactMatch(desc: string, records: seq<Record>)
    requires FindFirst(records, Described(desc)).None?
    ensures forall j :: 0 <= j < |records| ==> Rank(desc, records[j].description) >= 1
  {
    forall j | 0 <= j < |records| ensures Rank(desc, records[j].description) >= 1 {
      assert records[j].description != desc by {
        assert !Described(desc)(records[j]);
      }
    }
  }

  lemma NoNormalizedMatchBefore(desc: string, records: seq<Record>, i: nat)
    requires i <= |records|
    requires forall j :: 0 <= j < i ==> !NormalizedAs(Normalize(desc))(records[j])
    ensures forall j :: 0 <= j < i ==> Rank(desc, records[j].description) != 1
  {
    forall j | 0 <= j < i ensures Rank(desc, records[j].description) != 1 {
      assert !NormalizedAs(Normalize(desc))(records[j]);
    }
  }

  /** The third rule, reached when neither an exact nor a normalised match exists. */
  lemma CorrectedStage(desc: string, records: seq<Record>)
    requires FindFirst(records, Described(desc)).None?
    requires FindFirst(records, NormalizedAs(Normalize(desc))).None?
    ensures FindPrevious(desc, records).None? <==>
              forall j :: 0 <= j < |records| ==> Rank(desc, records[j].description) == 3
    ensures FindPrevious(desc, records).Some? ==>
              exists i :: BestMatchAt(desc, records, i) && records[i] == FindPrevious(desc, records).value
  {
    NoExactMatch(desc, records);
    NoNormalizedMatchBefore(desc, records, |records|);
    var corrected := FindFirst(records, CorrectedAs(NormalizeCorrected(desc)));
    if corrected.Some? {
      var i := corrected.value;
      var again := FindFirst(records, Described(records[i].description));
      assert Described(records[i].description)(records[i]);
      assert again.Some?;
      assert again.value <= i;
      assert again.value == i;
      forall j | 0 <= j < i ensures Rank(desc, records[j].description) != 2 {
        assert !CorrectedAs(NormalizeCorrected(desc))(records[j]);
      }
      BestAtRank(desc, records, i, 2);
      assert FindPrevious(desc, records) == Some(records[i]);
    } else {
      forall j | 0 <= j < |records| ensures Rank(desc, records[j].description) == 3 {
        assert !CorrectedAs(NormalizeCorrected(desc))(records[j]);
      }
    }
  }

  /** The forecast table's normaliser: the history normaliser followed by the
      `sloutions` correction only. */
  function NormalizeTable(s: string): string
  {
    ReplaceAll(Normalize(s), "sloutions", "solutions")
  }

  /** The best rule in the forecast table: 0 the same text, 1 the same after its
      normaliser, 2 none. */
  function TableRank(desc: string, candidate: string): (r: nat)
    ensures r <= 2
  {
    if candidate == desc then 0
    else if NormalizeTable(candidate) == NormalizeTable(desc) then 1
    else 2
  }

  predicate BestTableMatchAt(desc: string, records: seq<Record>, i: int)
  {
    && 0 <= i < |records|
    && TableRank(desc, records[i].description) < 2
    && forall j :: 0 <= j < |records| ==>
         || TableRank(desc, records[i].description) < TableRank(desc, records[j].description)
         || (TableRank(desc, records[i].description) == TableRank(desc, records[j].description) && i <= j)
  }

  /** `findLastMonthRecord`: last month's record for a forecast row. */
  function FindLastMonthRecord(lastMonth: seq<Record>, desc: string): (r: Option<Record>)
    ensures |lastMonth| == 0 ==> r.None?
    ensures r.None? <==> forall j :: 0 <= j < |lastMonth| ==> TableRank(desc, lastMonth[j].description) == 2
    ensures r.Some? ==> exists i :: BestTableMatchAt(desc, lastMonth, i) && lastMonth[i] == r.value
  {
    if |lastMonth| == 0 then None
    else
      match FindFirst(lastMonth, (rec: Record) => rec.description == desc)
      case Some(i) =>
        ExactMatchIsBest(desc, lastMonth, i);
        Some(lastMonth[i])
      case None =>
        var n := NormalizeTable(desc);
        match FindFirst(lastMonth, (rec: Record) => NormalizeTable(rec.description) == n)
        case Some(i) =>
          NormalizedMatchIsBest(desc, lastMonth, i);
          Some(lastMonth[i])
        case None =>
          NoTableMatch(desc, lastMonth);
          None
  }

  /** The first exact match ranks best. */
  lemma ExactMatchIsBest(desc: string, records: seq<Record>, i: nat)
    requires i < |records| && records[i].description == desc
    requires forall j :: 0 <= j < i ==> records[j].description != desc
    ensures BestTableMatchAt(desc, records, i)
  {
  }

  /** Without an exact match, the first match after normalising ranks best. */
  lemma NormalizedMatchIsBest(desc: string, records: seq<Record>, i: nat)
    requires forall j :: 0 <= j < |records| ==> records[j].description != desc
    requires i < |records| && NormalizeTable(records[i].description) == NormalizeTable(desc)
    requires forall j :: 0 <= j < i ==> NormalizeTable(records[j].description) != NormalizeTable(desc)
    ensures BestTableMatchAt(desc, records, i)
  {
  }

  lemma NoTableMatch(desc: string, records: seq<Record>)
    requires forall j :: 0 <= j < |records| ==> records[j].description != desc
    requires forall j :: 0 <= j < |records| ==> NormalizeTable(records[j].description) != NormalizeTable(desc)
    ensures forall j :: 0 <= j < |records| ==> TableRank(desc, records[j].description) == 2
  {
  }

  /** The table's normaliser is the history view's one plus the `sloutions`
      correction: where that misspelling does not occur they agree. */
  lemma TableNormalizerOnlyFixesSloutions(s: string)
    requires !Contains(Normalize(s), "sloutions")
    ensures NormalizeTable(s) == Normalize(s)
  {
    ReplaceAllAbsent(Normalize(s), "sloutions", "solutions");
  }
}
