/** Number handling shared by the components: `Math.round`, `parseFloat`
    (with NaN as `None`), the `|| 0` fallback for NaN, and the percentage
    change with its zero-denominator convention. */
module Numbers {
  import opened Common
  import opened Text

  /** `Math.round`: the nearest integer, halves rounded towards +infinity. */
  function Round(x: real): (r: int)
    ensures (r as real) - 0.5 <= x < (r as real) + 0.5
  {
    (x + 0.5).Floor
  }

  /** `Math.abs` on reals. */
  function Abs(x: real): (r: real)
    ensures r >= 0.0
    ensures r == x || r == -x
  {
    if x < 0.0 then -x else x
  }

  /** `x || 0` for a parsed number: NaN (and zero) give zero. */
  function OrZero(x: Option<real>): (r: real)
    ensures x.Some? ==> r == x.value
    ensures x.None? ==> r == 0.0
  {
    match x
    case None => 0.0
    case Some(v) => v
  }

  /** Percentage change against a previous value: `absolute / previous * 100`,
      and 0 when the previous value is 0 (a display convention, not a limit). */
  function Percent(absolute: int, previous: int): (r: real)
    ensures previous == 0 ==> r == 0.0
    ensures previous != 0 ==> r * (previous as real) == (absolute as real) * 100.0
  {
    if previous != 0 then (absolute as real / previous as real) * 100.0 else 0.0
  }

  /** No change is no percentage change. */
  lemma PercentOfZero(previous: int)
    ensures Percent(0, previous) == 0.0
  {
  }

  function DigitValue(c: char): (r: nat)
    requires IsDigit(c)
    ensures r < 10
  {
    c as int - '0' as int
  }

  predicate AllDigits(s: string)
  {
    forall i :: 0 <= i < |s| ==> IsDigit(s[i])
  }

  /** The value of a string of decimal digits, most significant first. */
  function DigitsValue(s: string): nat
    requires AllDigits(s)
  {
    if |s| == 0 then 0 else DigitsValue(s[..|s| - 1]) * 10 + DigitValue(s[|s| - 1])
  }

  /** The longest prefix of `s` made of decimal digits. */
  function DigitPrefix(s: string): (r: string)
    ensures |r| <= |s| && r == s[..|r|]
    ensures AllDigits(r)
    ensures |r| < |s| ==> !IsDigit(s[|r|])
  {
    if |s| > 0 && IsDigit(s[0]) then [s[0]] + DigitPrefix(s[1..]) else []
  }

  /** The value of the digits after a decimal point: `0.d1d2...`. */
  function FractionValue(s: string): real
    requires AllDigits(s)
  {
    if |s| == 0 then 0.0 else (DigitValue(s[0]) as real + FractionValue(s[1..])) / 10.0
  }

  /** `x * 10^e` for a possibly negative exponent, one power of ten at a time. */
  function Scale10(x: real, e: int): real
    decreases if e >= 0 then e else -e
  {
    if e == 0 then x
    else if e > 0 then Scale10(x * 10.0, e - 1)
    else Scale10(x / 10.0, e + 1)
  }

  /** An exponent part `e`/`E`, optional sign, at least one digit, at the start of `s`. */
  function ExponentPart(s: string): Option<int>
  {
    if |s| >= 2 && (s[0] == 'e' || s[0] == 'E') then
      var signed := s[1..];
      var neg := signed[0] == '-';
      var body := if signed[0] == '-' || signed[0] == '+' then signed[1..] else signed;
      var d := DigitPrefix(body);
      if |d| == 0 then None
      else Some(if neg then -(DigitsValue(d) as int) else DigitsValue(d) as int)
    else None
  }

  /** `s` after leading white space and one optional sign character. */
  function Unsigned(s: string): string
  {
    var t := TrimStart(s);
    if |t| > 0 && (t[0] == '-' || t[0] == '+') then t[1..] else t
  }

  /** The number an unsigned numeral at the start of `u` stands for: digits with
      an optional fraction, then an optional exponent; whatever follows is
      ignored. `None` when no digit comes before or just after the point. */
  function UnsignedValue(u: string): (r: Option<real>)
    ensures r.Some? <==> (|u| > 0 && IsDigit(u[0])) || (|u| > 1 && u[0] == '.' && IsDigit(u[1]))
  {
    var whole := DigitPrefix(u);
    var afterWhole := u[|whole|..];
    var hasPoint := |afterWhole| > 0 && afterWhole[0] == '.';
    var frac := if hasPoint then DigitPrefix(afterWhole[1..]) else [];
    if |whole| == 0 && |frac| == 0 then None
    else
      var rest := if hasPoint then afterWhole[1 + |frac|..] else afterWhole;
      var mantissa := DigitsValue(whole) as real + FractionValue(frac);
      match ExponentPart(rest)
      case None => Some(mantissa)
      case Some(e) => Some(Scale10(mantissa, e))
  }

  /** The number `parseFloat` reads from the start of `s`: leading white space,
      an optional sign, digits with an optional fraction, an optional
      exponent; whatever follows is ignored. `None` is NaN. */
  function ParseFloat(s: string): (r: Option<real>)
    ensures r.Some? <==> (|Unsigned(s)| > 0 && IsDigit(Unsigned(s)[0]))
                         || (|Unsigned(s)| > 1 && Unsigned(s)[0] == '.' && IsDigit(Unsigned(s)[1]))
  {
    var t := TrimStart(s);
    var neg := |t| > 0 && t[0] == '-';
    match UnsignedValue(Unsigned(s))
    case None => None
    case Some(magnitude) => Some(if neg then -magnitude else magnitude)
  }

  lemma {:induction false} DigitsOfNat(n: nat)
    ensures AllDigits(NatToString(n))
    ensures DigitsValue(NatToString(n)) == n
  {
    var s := NatToString(n);
    if n >= 10 {
      DigitsOfNat(n / 10);
      assert s[..|s| - 1] == NatToString(n / 10);
    }
  }

  lemma {:induction false} DigitPrefixOfDigits(s: string)
    requires AllDigits(s)
    ensures DigitPrefix(s) == s
  {
    if |s| > 0 {
      DigitPrefixOfDigits(s[1..]);
      assert [s[0]] + s[1..] == s;
    }
  }

  /** The digit prefix stops at the first non-digit. */
  lemma {:induction false} DigitPrefixBeforeNonDigit(d: string, rest: string)
    requires AllDigits(d)
    requires |rest| > 0 && !IsDigit(rest[0])
    ensures DigitPrefix(d + rest) == d
  {
    if |d| == 0 {
      assert d + rest == rest;
    } else {
      DigitPrefixBeforeNonDigit(d[1..], rest);
      assert (d + rest)[1..] == d[1..] + rest;
      assert [d[0]] + d[1..] == d;
    }
  }

  /** A plain run of digits reads as its decimal value. */
  lemma UnsignedValueOfDigits(s: string)
    requires |s| > 0 && AllDigits(s)
    ensures UnsignedValue(s) == Some(DigitsValue(s) as real)
  {
    DigitPrefixOfDigits(s);
    assert s[|s|..] == [];
    var empty: string := [];
    assert ExponentPart(empty) == None;
    assert FractionValue(empty) == 0.0;
  }

  /** The numeral a table cell shows for a whole amount parses back to that amount. */
  lemma ParseFloatOfNumeral(n: nat)
    ensures ParseFloat(NatToString(n)) == Some(n as real)
  {
    var s := NatToString(n);
    DigitsOfNat(n);
    assert TrimStart(s) == s by {
      assert !IsSpace(s[0]);
    }
    assert Unsigned(s) == s;
    UnsignedValueOfDigits(s);
  }

  /** A leading minus sign negates the number that follows it. */
  lemma ParseFloatNegative(u: string, v: real)
    requires UnsignedValue(u) == Some(v)
    ensures ParseFloat("-" + u) == Some(-v)
  {
    MinusUnsigned(u);
  }

  /** After a leading minus sign, the unsigned part is the rest of the numeral. */
  lemma MinusUnsigned(u: string)
    ensures TrimStart("-" + u) == "-" + u
    ensures Unsigned("-" + u) == u
  {
    var m := "-" + u;
    assert m[0] == '-' && m[1..] == u;
    assert !IsSpace(m[0]);
  }

  /** Together: every integer rendered by JavaScript parses back to itself. */
  lemma ParseFloatOfInt(i: int)
    ensures ParseFloat(IntToString(i)) == Some(i as real)
  {
    if i >= 0 {
      assert IntToString(i) == NatToString(i);
      ParseFloatOfNumeral(i);
    } else {
      var n: nat := -i;
      var digits := NatToString(n);
      DigitsOfNat(n);
      UnsignedValueOfDigits(digits);
      ParseFloatNegative(digits, n as real);
      assert IntToString(i) == "-" + digits;
      assert i as real == -(n as real);
    }
  }
}
