/** The string primitives the components call: `\s` and `trim` whitespace,
    `toLowerCase`, whitespace collapsing (`replace(/\s+/g, ' ')`), character
    stripping, literal global replacement, `split`/`join`, `includes`,
    JavaScript's string `<`, and the decimal rendering of integers that
    template literals and `join` produce. */
module Text {
  import opened Common

  /** The characters JavaScript's `\s` class and `String.prototype.trim`
      treat as white space (WhiteSpace and LineTerminator of ECMA-262). */
  predicate IsSpace(c: char)
  {
    c in SpaceChars || '\U{2000}' <= c <= '\U{200A}'
  }

  const SpaceChars: set<char> := {' ', '\t', '\n', '\r', '\U{000B}', '\U{000C}', '\U{00A0}', '\U{1680}',
                                  '\U{2028}', '\U{2029}', '\U{202F}', '\U{205F}', '\U{3000}', '\U{FEFF}'}

  predicate IsDigit(c: char)
  {
    '0' <= c <= '9'
  }

  predicate IsUpper(c: char)
  {
    'A' <= c <= 'Z'
  }

  function LowerChar(c: char): char
  {
    if IsUpper(c) then (c as int + 32) as char else c
  }

  /** `toLowerCase`, restricted to the ASCII letters. */
  function ToLower(s: string): (r: string)
    ensures |r| == |s|
    ensures forall i :: 0 <= i < |s| ==> r[i] == LowerChar(s[i])
    ensures forall c :: c in r ==> !IsUpper(c)
  {
    seq(|s|, i requires 0 <= i < |s| => LowerChar(s[i]))
  }

  /** The characters of `s` that are not white space, in order. */
  function NonSpace(s: string): string
  {
    if |s| == 0 then []
    else (if IsSpace(s[0]) then [] else [s[0]]) + NonSpace(s[1..])
  }

  /** `s` without its leading white space. */
  function TrimStart(s: string): (r: string)
    ensures |r| <= |s| && r == s[|s| - |r|..]
    ensures |r| > 0 ==> !IsSpace(r[0])
    ensures forall i :: 0 <= i < |s| - |r| ==> IsSpace(s[i])
  {
    if |s| > 0 && IsSpace(s[0]) then
      var r := TrimStart(s[1..]);
      assert s[1..][|s[1..]| - |r|..] == s[|s| - |r|..];
      r
    else s
  }

  lemma {:induction false} TrimStartKeepsNonSpace(s: string)
    ensures NonSpace(TrimStart(s)) == NonSpace(s)
  {
    if |s| > 0 && IsSpace(s[0]) {
      TrimStartKeepsNonSpace(s[1..]);
    }
  }

  /** `s` without its trailing white space. */
  function TrimEnd(s: string): (r: string)
    ensures |r| <= |s| && r == s[..|r|]
    ensures |r| > 0 ==> !IsSpace(r[|r| - 1])
    ensures forall i :: |r| <= i < |s| ==> IsSpace(s[i])
  {
    if |s| > 0 && IsSpace(s[|s| - 1]) then TrimEnd(s[..|s| - 1]) else s
  }

  /** `trim`: the slice of `s` between its leading and trailing white space. */
  function Trim(s: string): (r: string)
    ensures exists i, j ::
              && 0 <= i <= j <= |s| && r == s[i..j]
              && (forall k :: 0 <= k < i ==> IsSpace(s[k]))
              && (forall k :: j <= k < |s| ==> IsSpace(s[k]))
    ensures |r| > 0 ==> !IsSpace(r[0]) && !IsSpace(r[|r| - 1])
  {
    var t := TrimStart(s);
    var u := TrimEnd(t);
    var i := |s| - |t|;
    assert u == s[i..i + |u|];
    u
  }

  /** Trimming introduces no character. */
  lemma TrimChars(s: string)
    ensures forall c :: c in Trim(s) ==> c in s
  {
    var t := TrimStart(s);
    var u := TrimEnd(t);
    assert Trim(s) == u;
    SliceMembers(s, |s| - |t|, |s|);
    SliceMembers(t, 0, |u|);
  }

  /** The non-space characters of a concatenation are those of each part. */
  lemma {:induction false} NonSpaceAppend(a: string, b: string)
    ensures NonSpace(a + b) == NonSpace(a) + NonSpace(b)
  {
    if |a| == 0 {
      assert a + b == b;
    } else {
      var head: string := if IsSpace(a[0]) then [] else [a[0]];
      assert (a + b)[0] == a[0];
      assert (a + b)[1..] == a[1..] + b;
      assert NonSpace(a + b) == head + NonSpace(a[1..] + b);
      NonSpaceAppend(a[1..], b);
      assert NonSpace(a) == head + NonSpace(a[1..]);
      ConcatAssociative(head, NonSpace(a[1..]), NonSpace(b));
    }
  }

  lemma {:induction false} NonSpaceOfBlank(s: string)
    requires forall k :: 0 <= k < |s| ==> IsSpace(s[k])
    ensures NonSpace(s) == []
  {
    if |s| > 0 {
      NonSpaceOfBlank(s[1..]);
    }
  }

  /** A character survives in the non-space characters exactly when it is in
      the string and is not white space. */
  lemma {:induction false} NonSpaceMembers(s: string)
    ensures forall c :: c in NonSpace(s) <==> c in s && !IsSpace(c)
  {
    if |s| > 0 {
      NonSpaceMembers(s[1..]);
      assert s == [s[0]] + s[1..];
    }
  }

  /** Strings with the same non-space characters agree on which non-space
      characters they contain. */
  lemma SameNonSpaceMembers(a: string, b: string)
    requires NonSpace(a) == NonSpace(b)
    ensures forall c :: !IsSpace(c) ==> (c in a <==> c in b)
  {
    NonSpaceMembers(a);
    NonSpaceMembers(b);
  }

  lemma {:induction false} TrimEndKeepsNonSpace(s: string)
    ensures NonSpace(TrimEnd(s)) == NonSpace(s)
  {
    if |s| > 0 && IsSpace(s[|s| - 1]) {
      var n := |s| - 1;
      TrimEndKeepsNonSpace(s[..n]);
      assert s == s[..n] + [s[n]];
      NonSpaceAppend(s[..n], [s[n]]);
      assert NonSpace([s[n]]) == [];
    }
  }

  /** Trimming removes white space only. */
  lemma TrimKeepsNonSpace(s: string)
    ensures NonSpace(Trim(s)) == NonSpace(s)
  {
    TrimStartKeepsNonSpace(s);
    TrimEndKeepsNonSpace(TrimStart(s));
  }

  /** Trimming twice trims nothing more. */
  lemma TrimIdempotent(s: string)
    ensures Trim(Trim(s)) == Trim(s)
  {
    var r := Trim(s);
    assert TrimStart(r) == r;
    assert TrimEnd(r) == r;
  }

  /** A string is blank when trimming leaves nothing: then every character is white space. */
  lemma TrimEmptyIffBlank(s: string)
    ensures Trim(s) == [] <==> forall k :: 0 <= k < |s| ==> IsSpace(s[k])
  {
    if forall k :: 0 <= k < |s| ==> IsSpace(s[k]) {
      BlankTrimsToEmpty(s);
    }
  }

  lemma {:induction false} BlankTrimsToEmpty(s: string)
    requires forall k :: 0 <= k < |s| ==> IsSpace(s[k])
    ensures TrimStart(s) == []
  {
    if |s| > 0 {
      BlankTrimsToEmpty(s[1..]);
    }
  }

  /** `replace(/\s+/g, ' ')`: every run of white space becomes one space. */
  function CollapseSpaces(s: string): (r: string)
    ensures Collapsed(r)
    ensures NonSpace(r) == NonSpace(s)
    ensures (|r| > 0 && IsSpace(r[0])) <==> (|s| > 0 && IsSpace(s[0]))
    ensures |r| == 0 <==> |s| == 0
    decreases |s|
  {
    if |s| == 0 then []
    else if IsSpace(s[0]) then
      var rest := CollapseSpaces(TrimStart(s[1..]));
      TrimStartKeepsNonSpace(s[1..]);
      CollapsedCons(' ', rest);
      [' '] + rest
    else
      var rest := CollapseSpaces(s[1..]);
      CollapsedCons(s[0], rest);
      [s[0]] + rest
  }

  /** One character in front of a collapsed string keeps it collapsed unless it
      is white space other than a space, or a space before white space. */
  lemma CollapsedCons(c: char, t: string)
    requires Collapsed(t)
    requires IsSpace(c) ==> c == ' ' && (|t| == 0 || !IsSpace(t[0]))
    ensures Collapsed([c] + t)
    ensures NonSpace([c] + t) == (if IsSpace(c) then [] else [c]) + NonSpace(t)
  {
    var r := [c] + t;
    assert r[1..] == t;
    forall i | 0 <= i < |r| - 1
      ensures !(IsSpace(r[i]) && IsSpace(r[i + 1]))
    {
      assert r[i + 1] == t[i];
      if i > 0 {
        assert r[i] == t[i - 1];
      }
    }
  }

  /** No white space other than single spaces, and no two white-space characters in a row. */
  predicate Collapsed(s: string)
  {
    && (forall i :: 0 <= i < |s| && IsSpace(s[i]) ==> s[i] == ' ')
    && (forall i :: 0 <= i < |s| - 1 ==> !(IsSpace(s[i]) && IsSpace(s[i + 1])))
  }

  lemma CollapsedTail(s: string)
    requires |s| > 0 && Collapsed(s)
    ensures Collapsed(s[1..])
    ensures IsSpace(s[0]) ==> s[0] == ' ' && (|s| == 1 || !IsSpace(s[1]))
  {
    var t := s[1..];
    forall i | 0 <= i < |t| - 1
      ensures !(IsSpace(t[i]) && IsSpace(t[i + 1]))
    {
      assert t[i] == s[i + 1] && t[i + 1] == s[i + 2];
    }
  }

  /** Collapsing introduces no character other than the space. */
  lemma {:induction false} CollapseSpacesChars(s: string)
    ensures forall c :: c in CollapseSpaces(s) ==> c == ' ' || c in s
    decreases |s|
  {
    if |s| > 0 {
      if IsSpace(s[0]) {
        var t := TrimStart(s[1..]);
        CollapseSpacesChars(t);
        assert forall c :: c in t ==> c in s[1..];
      } else {
        CollapseSpacesChars(s[1..]);
      }
    }
  }

  /** Collapsing is idempotent: a collapsed string has no run left to collapse. */
  lemma {:induction false} CollapseSpacesIdempotent(s: string)
    requires Collapsed(s)
    ensures CollapseSpaces(s) == s
  {
    if |s| > 0 {
      var t := s[1..];
      CollapsedTail(s);
      CollapseSpacesIdempotent(t);
      if IsSpace(s[0]) {
        assert s == [' '] + t;
        CollapseSpacesAfterSpace(t);
      } else {
        CollapseSpacesAfterNonSpace(s);
      }
    }
  }

  lemma CollapseSpacesAfterSpace(t: string)
    requires |t| == 0 || !IsSpace(t[0])
    requires CollapseSpaces(t) == t
    ensures CollapseSpaces([' '] + t) == [' '] + t
  {
    var s := [' '] + t;
    assert s[0] == ' ' && s[1..] == t;
    assert IsSpace(s[0]);
    assert TrimStart(t) == t;
  }

  lemma CollapseSpacesAfterNonSpace(s: string)
    requires |s| > 0 && !IsSpace(s[0])
    requires CollapseSpaces(s[1..]) == s[1..]
    ensures CollapseSpaces(s) == s
  {
    assert s == [s[0]] + s[1..];
  }

  /** `replace(/c/g, '')`: `s` without any occurrence of `c`. */
  function RemoveChar(s: string, c: char): (r: string)
    ensures c !in r
    ensures |r| <= |s|
    ensures forall x :: x != c ==> (x in r <==> x in s)
  {
    if |s| == 0 then []
    else (if s[0] == c then [] else [s[0]]) + RemoveChar(s[1..], c)
  }

  lemma {:induction false} RemoveCharAppend(a: string, b: string, c: char)
    ensures RemoveChar(a + b, c) == RemoveChar(a, c) + RemoveChar(b, c)
  {
    if |a| == 0 {
      assert a + b == b;
    } else {
      RemoveCharAppend(a[1..], b, c);
      var kept: string := if a[0] == c then [] else [a[0]];
      assert (a + b)[0] == a[0] && (a + b)[1..] == a[1..] + b;
      assert RemoveChar(a + b, c) == kept + RemoveChar(a[1..] + b, c);
      assert RemoveChar(a, c) == kept + RemoveChar(a[1..], c);
      ConcatAssociative(kept, RemoveChar(a[1..], c), RemoveChar(b, c));
    }
  }

  /** Removing a non-space character commutes with dropping the white space. */
  lemma {:induction false} NonSpaceRemoveChar(s: string, c: char)
    requires !IsSpace(c)
    ensures NonSpace(RemoveChar(s, c)) == RemoveChar(NonSpace(s), c)
  {
    if |s| > 0 {
      NonSpaceRemoveChar(s[1..], c);
      var kept: string := if s[0] == c then [] else [s[0]];
      NonSpaceAppend(kept, RemoveChar(s[1..], c));
      var shown: string := if IsSpace(s[0]) then [] else [s[0]];
      RemoveCharAppend(shown, NonSpace(s[1..]), c);
      assert NonSpace(kept) == RemoveChar(shown, c);
    }
  }

  /** `replace(/pat/g, rep)` for a literal pattern: occurrences are replaced
      left to right, the scan resuming after each replaced occurrence. */
  function ReplaceAll(s: string, pat: string, rep: string): (r: string)
    requires |pat| > 0
    decreases |s|
  {
    if |s| < |pat| then s
    else if s[..|pat|] == pat then rep + ReplaceAll(s[|pat|..], pat, rep)
    else [s[0]] + ReplaceAll(s[1..], pat, rep)
  }

  /** Replacing a pattern by itself changes nothing. */
  lemma {:induction false} ReplaceAllSelf(s: string, pat: string)
    requires |pat| > 0
    ensures ReplaceAll(s, pat, pat) == s
    decreases |s|
  {
    if |s| >= |pat| {
      if s[..|pat|] == pat {
        ReplaceAllSelf(s[|pat|..], pat);
        assert s == s[..|pat|] + s[|pat|..];
      } else {
        ReplaceAllSelf(s[1..], pat);
      }
    }
  }

  /** Replacing introduces no character beyond those of the replacement. */
  lemma {:induction false} ReplaceAllChars(s: string, pat: string, rep: string)
    requires |pat| > 0
    ensures forall c :: c in ReplaceAll(s, pat, rep) ==> c in s || c in rep
    decreases |s|
  {
    if |s| >= |pat| {
      if s[..|pat|] == pat {
        ReplaceAllChars(s[|pat|..], pat, rep);
        assert forall c :: c in s[|pat|..] ==> c in s;
      } else {
        ReplaceAllChars(s[1..], pat, rep);
        assert forall c :: c in s[1..] ==> c in s;
      }
    }
  }

  /** A pattern that does not occur is not replaced. */
  lemma {:induction false} ReplaceAllAbsent(s: string, pat: string, rep: string)
    requires |pat| > 0 && !Contains(s, pat)
    ensures ReplaceAll(s, pat, rep) == s
    decreases |s|
  {
    if |s| >= |pat| {
      assert !OccursAt(s, pat, 0);
      forall i | 0 <= i <= |s[1..]| - |pat| && OccursAt(s[1..], pat, i)
        ensures false
      {
        assert s[1..][i..i + |pat|] == s[i + 1..i + 1 + |pat|];
        assert OccursAt(s, pat, i + 1);
      }
      ReplaceAllAbsent(s[1..], pat, rep);
      assert s == [s[0]] + s[1..];
    }
  }

  /** `includes`: `sub` occurs somewhere in `s`. */
  predicate Contains(s: string, sub: string)
  {
    exists i :: 0 <= i <= |s| - |sub| && OccursAt(s, sub, i)
  }

  /** `sub` occurs in `s` starting at index `i`. */
  predicate OccursAt(s: string, sub: string, i: int)
  {
    0 <= i <= |s| - |sub| && s[i..i + |sub|] == sub
  }

  /** `split(sep)` on a single-character separator. */
  function Split(s: string, sep: char): (r: seq<string>)
    ensures |r| >= 1
    ensures forall i :: 0 <= i < |r| ==> sep !in r[i]
    decreases |s|
  {
    if |s| == 0 then [""]
    else if s[0] == sep then [""] + Split(s[1..], sep)
    else
      var t := Split(s[1..], sep);
      [[s[0]] + t[0]] + t[1..]
  }

  /** `join(sep)`. */
  function Join(parts: seq<string>, sep: char): string
  {
    if |parts| == 0 then ""
    else if |parts| == 1 then parts[0]
    else parts[0] + [sep] + Join(parts[1..], sep)
  }

  lemma {:induction false} SplitNoSeparator(s: string, sep: char)
    requires sep !in s
    ensures Split(s, sep) == [s]
    decreases |s|
  {
    if |s| > 0 {
      SplitNoSeparator(s[1..], sep);
      assert [s[0]] + s[1..] == s;
    }
  }

  lemma {:induction false} SplitAtSeparator(p: string, sep: char, rest: string)
    requires sep !in p
    ensures Split(p + [sep] + rest, sep) == [p] + Split(rest, sep)
    decreases |p|
  {
    if |p| == 0 {
      assert p + [sep] + rest == [sep] + rest;
      assert ([sep] + rest)[1..] == rest;
    } else {
      var s := p + [sep] + rest;
      assert s[1..] == p[1..] + [sep] + rest;
      SplitAtSeparator(p[1..], sep, rest);
      assert [p[0]] + p[1..] == p;
    }
  }

  /** Splitting a joined list gives the list back when no part holds the separator. */
  lemma {:induction false} SplitJoin(parts: seq<string>, sep: char)
    requires |parts| >= 1
    requires forall i :: 0 <= i < |parts| ==> sep !in parts[i]
    ensures Split(Join(parts, sep), sep) == parts
    decreases |parts|
  {
    if |parts| == 1 {
      SplitNoSeparator(parts[0], sep);
    } else {
      SplitJoin(parts[1..], sep);
      SplitAtSeparator(parts[0], sep, Join(parts[1..], sep));
      assert [parts[0]] + parts[1..] == parts;
    }
  }

  /** `split(sep).pop()`: the text after the last separator, or all of `s`. */
  function LastSegment(s: string, sep: char): (r: string)
    ensures sep !in r
  {
    var parts := Split(s, sep);
    parts[|parts| - 1]
  }

  /** After a separator that does not reappear, the last segment is exactly the tail. */
  lemma {:induction false} LastSegmentAfterSeparator(stem: string, sep: char, tail: string)
    requires sep !in tail
    ensures LastSegment(stem + [sep] + tail, sep) == tail
    decreases |stem|
  {
    if |stem| == 0 {
      assert stem + [sep] + tail == [sep] + tail;
      assert ([sep] + tail)[1..] == tail;
      SplitNoSeparator(tail, sep);
    } else {
      var s := stem + [sep] + tail;
      assert s[1..] == stem[1..] + [sep] + tail;
      LastSegmentAfterSeparator(stem[1..], sep, tail);
      SplitHasTwoParts(stem[1..], sep, tail);
    }
  }

  lemma {:induction false} SplitHasTwoParts(stem: string, sep: char, tail: string)
    ensures |Split(stem + [sep] + tail, sep)| >= 2
    decreases |stem|
  {
    if |stem| == 0 {
      assert stem + [sep] + tail == [sep] + tail;
      assert ([sep] + tail)[1..] == tail;
    } else {
      var s := stem + [sep] + tail;
      assert s[1..] == stem[1..] + [sep] + tail;
      SplitHasTwoParts(stem[1..], sep, tail);
    }
  }

  /** JavaScript's `<` on strings: lexicographic order on characters. */
  predicate StrLess(a: string, b: string)
  {
    if |b| == 0 then false
    else if |a| == 0 then true
    else if a[0] != b[0] then a[0] < b[0]
    else StrLess(a[1..], b[1..])
  }

  lemma {:induction false} StrLessIrreflexive(a: string)
    ensures !StrLess(a, a)
  {
    if |a| > 0 {
      StrLessIrreflexive(a[1..]);
    }
  }

  lemma {:induction false} StrLessTransitive(a: string, b: string, c: string)
    requires StrLess(a, b) && StrLess(b, c)
    ensures StrLess(a, c)
  {
    if |a| > 0 && a[0] == b[0] && b[0] == c[0] {
      StrLessTransitive(a[1..], b[1..], c[1..]);
    }
  }

  lemma {:induction false} StrLessTotal(a: string, b: string)
    ensures a == b || StrLess(a, b) || StrLess(b, a)
  {
    if |a| > 0 && |b| > 0 && a[0] == b[0] {
      StrLessTotal(a[1..], b[1..]);
      if a[1..] == b[1..] {
        assert a == [a[0]] + a[1..] && b == [b[0]] + b[1..];
      }
    }
  }

  function DigitChar(d: nat): char
    requires d < 10
  {
    ('0' as int + d) as char
  }

  /** The decimal numeral of `n`, without leading zeros. */
  function NatToString(n: nat): (r: string)
    ensures |r| >= 1
    ensures forall i :: 0 <= i < |r| ==> IsDigit(r[i])
    ensures r[0] != '0' || n == 0
  {
    if n < 10 then [DigitChar(n)] else NatToString(n / 10) + [DigitChar(n % 10)]
  }

  /** How JavaScript renders an integer-valued number in a template literal or `join`. */
  function IntToString(i: int): (r: string)
    ensures |r| >= 1
    ensures i >= 0 ==> r == NatToString(i)
    ensures i < 0 ==> r == "-" + NatToString(-i)
  {
    if i < 0 then "-" + NatToString(-i) else NatToString(i)
  }
}
