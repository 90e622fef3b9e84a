/**
 * Float literals: the over-matching pattern of the `FLOAT_VALUE` rule, the ordered
 * cascade of four structural checks its validator applies to the matched text, and
 * the strict pattern that `get_original_length` re-matches. Only a lower-case `e`
 * marks an exponent in the rule and the validator.
 */
module FloatLiterals {
  import opened Wrappers
  import opened Text
  import opened Tokens

  predicate IsSign(c: char) { c == '+' || c == '-' }

  /** `[+-]?` at index `i`: the index after the sign, if there is one. */
  function SignEnd(s: string, i: nat): (j: nat)
    requires i <= |s|
    ensures i <= j <= |s|
  {
    if i < |s| && IsSign(s[i]) then i + 1 else i
  }

  /** `(\.\d+)?` at index `m`: a dot is taken only together with at least one digit. */
  function OptionalFraction(s: string, m: nat): (e: nat)
    requires m <= |s|
    ensures m <= e <= |s|
  {
    if m < |s| && s[m] == '.' && RunEnd(s, m + 1, Digit) > m + 1 then RunEnd(s, m + 1, Digit) else m
  }

  /** `[+-]?\d*(\.\d+)?`, the part of the pattern after the exponent marker at `i - 1`. */
  function ExponentBody(s: string, i: nat): (e: nat)
    requires i <= |s|
    ensures i <= e <= |s|
  {
    OptionalFraction(s, RunEnd(s, SignEnd(s, i), Digit))
  }

  /** `([e][+-]?\d*(\.\d+)?)?` at index `f`. */
  function OptionalExponent(s: string, f: nat): (e: nat)
    requires f <= |s|
    ensures f <= e <= |s|
  {
    if f < |s| && s[f] == 'e' then ExponentBody(s, f + 1) else f
  }

  /**
   * The length of the text the `FLOAT_VALUE` pattern
   * `\d+\.\d*([e][+-]?\d*(\.\d+)?)?|\d+[e][+-]?\d*(\.\d+)?|\.\d+` matches at the start
   * of `s`. The first alternative applies when the leading digits are followed by a
   * dot, the second when they are followed by `e`; after that every element is
   * optional and greedy.
   */
  function MatchFloat(s: string): (r: Option<nat>)
    ensures r.Some? <==>
      (RunEnd(s, 0, Digit) > 0 && RunEnd(s, 0, Digit) < |s| && s[RunEnd(s, 0, Digit)] in {'.', 'e'})
      || (|s| > 1 && s[0] == '.' && IsDigit(s[1]))
    ensures r.Some? ==> 0 < r.value <= |s|
  {
    var d := RunEnd(s, 0, Digit);
    if d > 0 && d < |s| && s[d] == '.' then Some(OptionalExponent(s, RunEnd(s, d + 1, Digit)))
    else if d > 0 && d < |s| && s[d] == 'e' then Some(ExponentBody(s, d + 1))
    else if |s| > 0 && s[0] == '.' && RunEnd(s, 1, Digit) > 1 then Some(RunEnd(s, 1, Digit))
    else None
  }

  /** `s` starts with digits, and the first character after them, at `d`, is a dot. */
  predicate DigitsDot(s: string, d: nat) {
    0 < d < |s| && d == RunEnd(s, 0, Digit) && s[d] == '.'
  }

  const Signs: set<char> := {'+', '-'}

  /** Second check: there is a dot, and nothing but an exponent follows it. */
  predicate FractionMissing(lexeme: string) {
    '.' in lexeme && FieldBefore(SecondField(lexeme, '.'), 'e') == []
  }

  /** Third check: there is an `e`, and nothing or only a sign follows it. */
  predicate ExponentIncomplete(lexeme: string) {
    'e' in lexeme && (var p := SecondField(lexeme, 'e'); p == [] || p == "+" || p == "-")
  }

  /** Fourth check: the exponent, its sign stripped, holds a dot. */
  predicate ExponentFractional(lexeme: string) {
    'e' in lexeme && '.' in LStrip(SecondField(lexeme, 'e'), Signs)
  }

  /**
   * The `FLOAT_VALUE` validator: the first of the four checks that fails names the
   * error; a literal that passes all four is accepted as it stands.
   */
  function ValidateFloat(lexeme: string): (r: Result<string, ErrorKind>)
    ensures r == Err(MissingIntegerPart) <==> StartsWith(lexeme, ".")
    ensures r.Ok? ==> r.value == lexeme
  {
    if StartsWith(lexeme, ".") then Err(MissingIntegerPart)
    else if FractionMissing(lexeme) then Err(MissingDecimalPart)
    else if ExponentIncomplete(lexeme) then Err(IncompleteExponent)
    else if ExponentFractional(lexeme) then Err(NonIntegerExponent)
    else Ok(lexeme)
  }

  /** An exponent marker of the strict pattern: `e`, and also `E` when `upper` holds. */
  predicate IsMarker(c: char, upper: bool) { c == 'e' || (upper && c == 'E') }

  /** `[+-]?\d+` at `i`: fails when no digit follows the optional sign. */
  function SignedDigits(s: string, i: nat): (r: Option<nat>)
    requires i <= |s|
    ensures r.Some? ==> i < r.value <= |s| && IsDigit(s[r.value - 1])
  {
    var j := SignEnd(s, i);
    var m := RunEnd(s, j, Digit);
    if m > j then Some(m) else None
  }

  /**
   * The strict float pattern of `get_original_length`,
   * `\d+\.\d+([eE][+-]?\d+)?|\d+[eE][+-]?\d+` (with `upper`) or the same with `[e]`
   * alone: the length it matches at the start of `s`.
   */
  function StrictFloatLen(s: string, upper: bool): (r: Option<nat>)
    ensures r.Some? ==> 0 < r.value <= |s| && IsDigit(s[0]) && IsDigit(s[r.value - 1])
  {
    var d := RunEnd(s, 0, Digit);
    if d > 0 && d < |s| && s[d] == '.' && RunEnd(s, d + 1, Digit) > d + 1 then
      var f := RunEnd(s, d + 1, Digit);
      if f < |s| && IsMarker(s[f], upper) && SignedDigits(s, f + 1).Some? then Some(SignedDigits(s, f + 1).value)
      else Some(f)
    else if d > 0 && d < |s| && IsMarker(s[d], upper) && SignedDigits(s, d + 1).Some? then
      Some(SignedDigits(s, d + 1).value)
    else None
  }

  /**
   * The as-written strict pattern, whose marker is `[eE]`, matches wherever the
   * `[e]` pattern does, so `get_original_length` never falls back to `str(value)` on a
   * text the corrected pattern matches.
   */
  lemma UpperMarkerMatches(s: string)
    ensures StrictFloatLen(s, false).Some? ==> StrictFloatLen(s, true).Some?
  {
    var d := RunEnd(s, 0, Digit);
    if d > 0 && d < |s| && IsMarker(s[d], false) {
      assert IsMarker(s[d], true);
    }
  }

  /** The characters an exponent body after the marker at `f` can hold: a leading sign, digits, one dot. */
  lemma ExponentBodyChars(s: string, f: nat)
    requires f < |s|
    ensures forall q :: f < q < ExponentBody(s, f + 1) ==> s[q] != 'e' && s[q] != '\n'
    ensures forall q :: f + 1 < q < ExponentBody(s, f + 1) ==> !IsSign(s[q])
  {
  }

  /** The exponent field `split('e')[1]` of a text whose only `e` is at `f`. */
  lemma ExponentField(s: string, f: nat)
    requires f < |s| && s[f] == 'e'
    requires forall q :: 0 <= q < f ==> s[q] != 'e'
    requires forall q :: f < q < |s| ==> s[q] != 'e'
    ensures SecondField(s, 'e') == s[f + 1..]
  {
    IndexOfIs(s, 'e', f);
    var x := s[f + 1..];
    assert forall q :: 0 <= q < |x| ==> x[q] == s[f + 1 + q];
    IndexOfIs(x, 'e', |x|);
  }

  /** The sign-stripped exponent is the text after the optional sign. */
  lemma StrippedExponent(s: string, f: nat)
    requires f < |s| && ExponentBody(s, f + 1) == |s|
    ensures LStrip(s[f + 1..], Signs) == s[SignEnd(s, f + 1)..]
  {
    var x := s[f + 1..];
    var j := SignEnd(s, f + 1);
    ExponentBodyChars(s, f);
    var r := LStrip(x, Signs);
    LStripFacts(x, Signs);
    if j == f + 2 {
      assert x[0] in Signs;
      if |x| > 1 {
        assert x[1] == s[f + 2];
        assert x[1] !in Signs;
      }
      assert |x| - |r| == 1;
    } else {
      assert |x| - |r| == 0;
    }
  }

  /** The exponent holds a dot exactly when the body took its `.digits` part. */
  lemma ExponentDot(s: string, f: nat)
    requires f < |s| && ExponentBody(s, f + 1) == |s|
    ensures var m := RunEnd(s, SignEnd(s, f + 1), Digit);
            '.' in s[SignEnd(s, f + 1)..] <==> |s| > m
  {
    var j := SignEnd(s, f + 1);
    var m := RunEnd(s, j, Digit);
    var r := s[j..];
    if |s| > m {
      assert r[m - j] == '.';
    } else {
      assert forall q :: 0 <= q < |r| ==> r[q] == s[j + q];
    }
  }

  /** The exponent is empty or a lone sign exactly when the body ends after the sign. */
  lemma ExponentEmpty(s: string, f: nat)
    requires f < |s| && ExponentBody(s, f + 1) == |s|
    ensures var x := s[f + 1..]; (x == [] || x == "+" || x == "-") <==> |s| == SignEnd(s, f + 1)
  {
    var x := s[f + 1..];
    if x == "+" || x == "-" {
      assert x[0] == s[f + 1];
    }
  }

  /**
   * The exponent checks, on a text that is `e` at `f` followed by a whole exponent body:
   * incomplete exactly when the body ends after its optional sign, fractional exactly
   * when the body took a `.digits` part.
   */
  lemma ExponentChecks(s: string, f: nat)
    requires f < |s| && s[f] == 'e'
    requires forall q :: 0 <= q < f ==> s[q] != 'e'
    requires ExponentBody(s, f + 1) == |s|
    ensures var j := SignEnd(s, f + 1);
            var m := RunEnd(s, j, Digit);
            && (ExponentIncomplete(s) <==> |s| == j)
            && (ExponentFractional(s) <==> |s| > m)
  {
    ExponentBodyChars(s, f);
    ExponentField(s, f);
    StrippedExponent(s, f);
    ExponentDot(s, f);
    ExponentEmpty(s, f);
  }

  /** Both exponent checks pass exactly when a signed digit run fills the text after the marker at `f`. */
  lemma ExponentVerdict(s: string, f: nat)
    requires f < |s| && s[f] == 'e'
    requires forall q :: 0 <= q < f ==> s[q] != 'e'
    requires ExponentBody(s, f + 1) == |s|
    ensures (!ExponentIncomplete(s) && !ExponentFractional(s)) <==> WholeSignedDigits(s, f)
  {
    ExponentChecks(s, f);
  }

  /** Where the second field of a dot-free text ends when it is split on `e`. */
  lemma FractionField(s: string, d: nat, f: nat)
    requires d < f <= |s| && s[d] == '.'
    requires forall q :: 0 <= q < d ==> s[q] != '.'
    requires forall q :: d < q < f ==> IsDigit(s[q])
    requires f < |s| ==> s[f] == 'e'
    ensures FractionMissing(s) <==> f == d + 1
  {
    IndexOfIs(s, '.', d);
    var x := s[d + 1..];
    var p := IndexOf(x, '.');
    IndexOfFacts(x, '.');
    assert forall q :: 0 <= q < f - d - 1 ==> x[q] == s[d + 1 + q];
    assert p >= f - d - 1;
    var y := x[..p];
    if f < |s| {
      assert x[f - d - 1] == 'e';
      assert p > f - d - 1;
      IndexOfIs(y, 'e', f - d - 1);
    } else {
      IndexOfIs(y, 'e', f - d - 1);
    }
  }

  /** The exponent shape both acceptance conditions reduce to: a sign-optional digit run. */
  predicate WholeSignedDigits(s: string, f: nat)
    requires f < |s|
  {
    var j := SignEnd(s, f + 1);
    RunEnd(s, j, Digit) > j && RunEnd(s, j, Digit) == |s|
  }

  /** The validator accepts exactly when none of its four checks fails. */
  lemma ValidateFloatOk(lexeme: string)
    ensures ValidateFloat(lexeme).Ok? <==>
      !StartsWith(lexeme, ".") && !FractionMissing(lexeme) && !ExponentIncomplete(lexeme) && !ExponentFractional(lexeme)
  {
  }

  /** The digits, the dot and the fraction digits before `f` hold no `e`. */
  lemma NoMarkerBefore(s: string, d: nat, f: nat)
    requires 0 < d < f <= |s| && d == RunEnd(s, 0, Digit) && s[d] == '.' && f == RunEnd(s, d + 1, Digit)
    ensures forall q :: 0 <= q < f ==> s[q] != 'e'
    ensures forall q :: 0 <= q < d ==> s[q] != '.'
  {
  }

  /** The validator on a text the first alternative (`digits.`) matched in full. */
  lemma ValidateWithDot(s: string, d: nat)
    requires 0 < d < |s| && d == RunEnd(s, 0, Digit) && s[d] == '.'
    requires OptionalExponent(s, RunEnd(s, d + 1, Digit)) == |s|
    ensures var f := RunEnd(s, d + 1, Digit);
            (!FractionMissing(s) && !ExponentIncomplete(s) && !ExponentFractional(s))
              <==> f > d + 1 && (f == |s| || WholeSignedDigits(s, f))
  {
    var f := RunEnd(s, d + 1, Digit);
    if f < |s| {
      ValidateDotExponent(s, d, f);
    } else {
      ValidateDotPlain(s, d);
    }
  }

  /** ValidateWithDot on `digits.digits`, without an exponent. */
  lemma ValidateDotPlain(s: string, d: nat)
    requires DigitsDot(s, d) && RunEnd(s, d + 1, Digit) == |s|
    ensures (!FractionMissing(s) && !ExponentIncomplete(s) && !ExponentFractional(s)) <==> |s| > d + 1
  {
    DotFraction(s, d);
    NoExponent(s, d);
  }

  /** ValidateWithDot on `digits.digits` followed by an exponent. */
  lemma ValidateDotExponent(s: string, d: nat, f: nat)
    requires DigitsDot(s, d) && f == RunEnd(s, d + 1, Digit) && f < |s| && OptionalExponent(s, f) == |s|
    ensures (!FractionMissing(s) && !ExponentIncomplete(s) && !ExponentFractional(s))
              <==> f > d + 1 && WholeSignedDigits(s, f)
  {
    DotFraction(s, d);
    NoMarkerBefore(s, d, f);
    ExponentVerdict(s, f);
  }

  /** A text that starts with a digit does not start with a dot. */
  lemma LeadingDigit(s: string, d: nat)
    requires 0 < d <= |s| && d == RunEnd(s, 0, Digit)
    ensures !StartsWith(s, ".")
  {
    assert s[..1] == [s[0]];
  }

  /** The second check on `digits.digits...`: it fails exactly when there are no fraction digits. */
  lemma DotFraction(s: string, d: nat)
    requires DigitsDot(s, d) && OptionalExponent(s, RunEnd(s, d + 1, Digit)) == |s|
    ensures FractionMissing(s) <==> RunEnd(s, d + 1, Digit) == d + 1
  {
    var f := RunEnd(s, d + 1, Digit);
    NoMarkerBefore(s, d, f);
    FractionField(s, d, f);
  }

  /** A `digits.digits` text without an exponent passes the exponent checks. */
  lemma NoExponent(s: string, d: nat)
    requires DigitsDot(s, d) && RunEnd(s, d + 1, Digit) == |s|
    ensures !ExponentIncomplete(s) && !ExponentFractional(s)
  {
    NoMarkerBefore(s, d, |s|);
    assert 'e' !in s;
  }

  /** The strict pattern on a text the first alternative (`digits.`) matched in full. */
  lemma StrictWithDot(s: string, d: nat)
    requires 0 < d < |s| && d == RunEnd(s, 0, Digit) && s[d] == '.'
    requires OptionalExponent(s, RunEnd(s, d + 1, Digit)) == |s|
    ensures var f := RunEnd(s, d + 1, Digit);
            StrictFloatLen(s, false) == Some(|s|) <==> f > d + 1 && (f == |s| || WholeSignedDigits(s, f))
  {
    var f := RunEnd(s, d + 1, Digit);
    if f == d + 1 {
      StrictNoFraction(s, d);
    } else if f < |s| {
      StrictDotExponent(s, d, f);
      WholeSignedDigitsIs(s, f);
    }
  }

  /** Without fraction digits after the dot the strict pattern matches nothing. */
  lemma StrictNoFraction(s: string, d: nat)
    requires 0 < d < |s| && d == RunEnd(s, 0, Digit) && s[d] == '.' && RunEnd(s, d + 1, Digit) == d + 1
    ensures StrictFloatLen(s, false).None?
  {
  }

  /** A signed digit run that fills the rest of the text is what `[+-]?\d+` matches there in full. */
  lemma WholeSignedDigitsIs(s: string, f: nat)
    requires f < |s|
    ensures WholeSignedDigits(s, f) <==> SignedDigits(s, f + 1) == Some(|s|)
  {
  }

  /** A `digits e` literal never lacks its decimal part: any dot in it is followed by digits. */
  lemma FractionPresentAfterMarker(s: string, d: nat)
    requires 0 < d < |s| && d == RunEnd(s, 0, Digit) && s[d] == 'e'
    requires ExponentBody(s, d + 1) == |s|
    ensures !FractionMissing(s)
  {
    if '.' in s {
      var m := RunEnd(s, SignEnd(s, d + 1), Digit);
      ExponentBodyChars(s, d);
      assert forall q :: 0 <= q < d ==> IsDigit(s[q]);
      IndexOfIs(s, '.', m);
      var x := s[m + 1..];
      assert forall q :: 0 <= q < |x| ==> x[q] == s[m + 1 + q] && IsDigit(x[q]);
      IndexOfIs(x, '.', |x|);
      IndexOfIs(x, 'e', |x|);
    }
  }

  /** The validator on a text the second alternative (`digits e`) matched in full. */
  lemma ValidateWithoutDot(s: string, d: nat)
    requires 0 < d < |s| && d == RunEnd(s, 0, Digit) && s[d] == 'e'
    requires ExponentBody(s, d + 1) == |s|
    ensures ValidateFloat(s).Ok? <==> WholeSignedDigits(s, d)
  {
    assert s[..1] == [s[0]];
    ValidateFloatOk(s);
    assert forall q :: 0 <= q < d ==> IsDigit(s[q]);
    ExponentChecks(s, d);
    FractionPresentAfterMarker(s, d);
  }

  /**
   * On a text the `FLOAT_VALUE` pattern matched in full, the four checks accept exactly
   * what the strict pattern (with the lower-case marker only) matches in full:
   * `digits.digits`, optionally followed by `e`, an optional sign and digits, or
   * `digits e`, an optional sign and digits.
   */
  lemma FloatAcceptance(lexeme: string)
    requires MatchFloat(lexeme) == Some(|lexeme|)
    ensures ValidateFloat(lexeme).Ok? <==> StrictFloatLen(lexeme, false) == Some(|lexeme|)
  {
    var s := lexeme;
    var d := RunEnd(s, 0, Digit);
    if d > 0 && d < |s| && s[d] == '.' {
      ValidateFloatOk(s);
      LeadingDigit(s, d);
      ValidateWithDot(s, d);
      StrictWithDot(s, d);
    } else if d > 0 && d < |s| && s[d] == 'e' {
      ValidateWithoutDot(s, d);
    } else {
      assert s[..1] == ".";
    }
  }

  /** An exponent body measured inside the prefix that ends where the body ends is unchanged. */
  lemma ExponentBodyPrefix(s: string, n: nat, f: nat)
    requires f < n <= |s| && ExponentBody(s, f + 1) == n
    ensures ExponentBody(s[..n], f + 1) == n
  {
    var L := s[..n];
    ExponentDigitsBound(s, f);
    SignEndPrefix(s, n, f);
    var j := SignEnd(s, f + 1);
    var m := RunEnd(s, j, Digit);
    RunEndPrefix(s, n, j, Digit);
    if m < n {
      assert L[m] == s[m];
      RunEndPrefixAfter(s, n, m, Digit);
    }
  }

  /**
   * The text the pattern matched, taken alone, is matched in full again, and it holds
   * no line break.
   */
  lemma MatchFloatLexeme(s: string, n: nat)
    requires MatchFloat(s) == Some(n)
    ensures MatchFloat(s[..n]) == Some(n)
    ensures '\n' !in s[..n]
  {
    var d := RunEnd(s, 0, Digit);
    RunEndPrefix(s, n, 0, Digit);
    if d > 0 && d < |s| && s[d] == '.' {
      DotLexeme(s, n, d);
    } else if d > 0 && d < |s| && s[d] == 'e' {
      MarkerLexeme(s, n, d);
    } else {
      RunEndPrefix(s, n, 1, Digit);
    }
    FloatMatchOnOneLine(s, n);
    assert forall q :: 0 <= q < n ==> s[..n][q] == s[q];
  }

  /** The first alternative (`digits.`) as the pattern reads it. */
  lemma MatchWithDot(s: string, d: nat)
    requires 0 < d < |s| && d == RunEnd(s, 0, Digit) && s[d] == '.'
    ensures MatchFloat(s) == Some(OptionalExponent(s, RunEnd(s, d + 1, Digit)))
  {
  }

  /** MatchFloatLexeme for the first alternative (`digits.`). */
  lemma DotLexeme(s: string, n: nat, d: nat)
    requires 0 < d < |s| && d == RunEnd(s, 0, Digit) && s[d] == '.'
    requires n == OptionalExponent(s, RunEnd(s, d + 1, Digit))
    ensures MatchFloat(s[..n]) == Some(n)
  {
    var f := RunEnd(s, d + 1, Digit);
    DotLexemeStart(s, n, d);
    OptionalExponentLexeme(s, n, f);
    MatchWithDot(s[..n], d);
  }

  /** The optional exponent at `f` that ends at `n` is found again in the prefix `s[..n]`. */
  lemma OptionalExponentLexeme(s: string, n: nat, f: nat)
    requires f <= |s| && n == OptionalExponent(s, f)
    ensures OptionalExponent(s[..n], f) == n
  {
    if f < n {
      ExponentLexeme(s, n, f);
    }
  }

  /** An exponent that starts at `f` and ends at `n` is found again in the prefix `s[..n]`. */
  lemma ExponentLexeme(s: string, n: nat, f: nat)
    requires f < n <= |s| && s[f] == 'e' && ExponentBody(s, f + 1) == n
    ensures OptionalExponent(s[..n], f) == n
  {
    assert s[..n][f] == s[f];
    ExponentBodyPrefix(s, n, f);
  }

  /** The digits, the dot and the fraction digits keep their places in the lexeme. */
  lemma DotLexemeStart(s: string, n: nat, d: nat)
    requires 0 < d < |s| && d == RunEnd(s, 0, Digit) && s[d] == '.'
    requires RunEnd(s, d + 1, Digit) <= n <= |s|
    ensures var L := s[..n]; RunEnd(L, 0, Digit) == d && L[d] == '.' && RunEnd(L, d + 1, Digit) == RunEnd(s, d + 1, Digit)
  {
    RunEndPrefix(s, n, 0, Digit);
    RunEndPrefixAfter(s, n, d, Digit);
  }

  /** MatchFloatLexeme for the second alternative (`digits e`). */
  lemma MarkerLexeme(s: string, n: nat, d: nat)
    requires 0 < d < |s| && d == RunEnd(s, 0, Digit) && s[d] == 'e'
    requires n == ExponentBody(s, d + 1)
    ensures MatchFloat(s[..n]) == Some(n)
  {
    var L := s[..n];
    RunEndPrefix(s, n, 0, Digit);
    assert L[d] == s[d];
    ExponentBodyPrefix(s, n, d);
  }

  /** A float match spans no line break. */
  lemma FloatMatchOnOneLine(s: string, n: nat)
    requires MatchFloat(s) == Some(n)
    ensures forall q :: 0 <= q < n ==> s[q] != '\n'
  {
    var d := RunEnd(s, 0, Digit);
    if d > 0 && d < |s| && s[d] == '.' {
      DotMatchOnOneLine(s, n, d);
    } else if d > 0 && d < |s| && s[d] == 'e' {
      ExponentBodyChars(s, d);
    }
  }

  /** FloatMatchOnOneLine for the first alternative (`digits.`). */
  lemma DotMatchOnOneLine(s: string, n: nat, d: nat)
    requires DigitsDot(s, d) && n == OptionalExponent(s, RunEnd(s, d + 1, Digit))
    ensures forall q :: 0 <= q < n ==> s[q] != '\n'
  {
    var f := RunEnd(s, d + 1, Digit);
    forall q | 0 <= q < n ensures s[q] != '\n' {
      if q < d {
        assert InClass(s[q], Digit);
      } else if d < q < f {
        assert InClass(s[q], Digit);
      } else if f < q {
        ExponentBodyChars(s, f);
      }
    }
  }

  /**
   * Where the float pattern matched `n` characters and the strict pattern with the
   * lower-case marker matches that literal in full, the strict pattern re-matched on
   * any part of the remaining text at least `n` long finds exactly the literal again.
   */
  lemma StrictFloatRematch(s: string, n: nat, k: nat)
    requires MatchFloat(s) == Some(n) && StrictFloatLen(s[..n], false) == Some(n)
    requires n <= k <= |s|
    ensures StrictFloatLen(s[..k], false) == Some(n)
  {
    var d := RunEnd(s, 0, Digit);
    StrictStartsWithDigit(s, n);
    if s[d] == '.' {
      RematchWithDot(s, n, k, d);
    } else {
      RematchMarker(s, n, k, d);
    }
  }

  /** A literal the strict pattern matches starts with a digit, so the float pattern took its first or second alternative. */
  lemma StrictStartsWithDigit(s: string, n: nat)
    requires MatchFloat(s) == Some(n) && StrictFloatLen(s[..n], false) == Some(n)
    ensures var d := RunEnd(s, 0, Digit); 0 < d < |s| && s[d] in {'.', 'e'}
  {
    assert s[..n][0] == s[0];
  }

  /** StrictFloatRematch for a literal the first alternative (`digits.`) matched. */
  lemma RematchWithDot(s: string, n: nat, k: nat, d: nat)
    requires DigitsDot(s, d)
    requires n == OptionalExponent(s, RunEnd(s, d + 1, Digit)) && n <= k <= |s|
    requires StrictFloatLen(s[..n], false) == Some(n)
    ensures StrictFloatLen(s[..k], false) == Some(n)
  {
    var f := RunEnd(s, d + 1, Digit);
    FractionOfLexeme(s, n, d);
    if f < n {
      DotExponentShape(s, n, d, f);
      ExponentInPrefix(s, n, k, d, f);
    } else {
      FractionInPrefix(s, n, k, d);
    }
  }


  /**
   * What the strict pattern matching a `digits.` literal `s[..n]` in full says about `s`
   * when the literal goes on past its fraction digits: an exponent marker, then a signed
   * digit run that ends at `n`.
   */
  lemma DotExponentShape(s: string, n: nat, d: nat, f: nat)
    requires DigitsDot(s, d) && f == RunEnd(s, d + 1, Digit) && d + 1 < f < n
    requires n == OptionalExponent(s, f)
    requires StrictFloatLen(s[..n], false) == Some(n)
    ensures s[f] == 'e' && SignedDigits(s, f + 1) == Some(n)
  {
    assert s[f] == 'e';
    ExponentInLexeme(s, n, d, f);
    ExponentDigitsBound(s, f);
    ExponentOfLexeme(s, n, f);
  }

  /** A text the strict pattern matches through its first alternative has fraction digits. */
  lemma StrictHasFraction(x: string, d: nat)
    requires 0 < d < |x| && d == RunEnd(x, 0, Digit) && x[d] == '.' && StrictFloatLen(x, false).Some?
    ensures RunEnd(x, d + 1, Digit) > d + 1
  {
  }

  /** An accepted literal `s[..n]` that starts with `digits.` has fraction digits. */
  lemma FractionOfLexeme(s: string, n: nat, d: nat)
    requires 0 < d < |s| && d == RunEnd(s, 0, Digit) && s[d] == '.'
    requires RunEnd(s, d + 1, Digit) <= n <= |s| && StrictFloatLen(s[..n], false) == Some(n)
    ensures RunEnd(s, d + 1, Digit) > d + 1
  {
    DotLexemeStart(s, n, d);
    StrictHasFraction(s[..n], d);
  }

  /** The strict pattern's first alternative on a text whose fraction digits are not followed by `e`. */
  lemma StrictDotFraction(x: string, d: nat, f: nat)
    requires 0 < d && d + 1 < f <= |x| && RunEnd(x, 0, Digit) == d && x[d] == '.' && RunEnd(x, d + 1, Digit) == f
    requires f < |x| ==> x[f] != 'e'
    ensures StrictFloatLen(x, false) == Some(f)
  {
  }

  /** StrictFloatRematch when the literal ends with its fraction digits. */
  lemma FractionInPrefix(s: string, n: nat, k: nat, d: nat)
    requires DigitsDot(s, d) && RunEnd(s, d + 1, Digit) == n && d + 1 < n <= k <= |s|
    requires n < |s| ==> s[n] != 'e'
    ensures StrictFloatLen(s[..k], false) == Some(n)
  {
    DotLexemeStart(s, k, d);
    assert n < k ==> s[..k][n] == s[n];
    StrictDotFraction(s[..k], d, n);
  }

  /** StrictFloatRematch for a literal the second alternative (`digits e`) matched. */
  lemma RematchMarker(s: string, n: nat, k: nat, d: nat)
    requires 0 < d < |s| && d == RunEnd(s, 0, Digit) && s[d] == 'e'
    requires n == ExponentBody(s, d + 1) && n <= k <= |s|
    requires StrictFloatLen(s[..n], false) == Some(n)
    ensures StrictFloatLen(s[..k], false) == Some(n)
  {
    ExponentDigitsBound(s, d);
    MarkerOfLexeme(s, n, d);
    MarkerInPrefix(s, n, k, d);
  }

  /** The digits and the marker keep their places in a prefix that extends past the marker. */
  lemma MarkerStart(s: string, k: nat, d: nat)
    requires 0 < d < k <= |s| && d == RunEnd(s, 0, Digit) && s[d] == 'e'
    ensures RunEnd(s[..k], 0, Digit) == d && s[..k][d] == 'e'
  {
    RunEndPrefix(s, k, 0, Digit);
  }

  /** The strict pattern's second alternative: the marker and a signed digit run. */
  lemma StrictMarkerAt(x: string, d: nat)
    requires 0 < d < |x| && d == RunEnd(x, 0, Digit) && x[d] == 'e'
    ensures StrictFloatLen(x, false) == SignedDigits(x, d + 1)
  {
  }

  /** The exponent of an accepted `digits e` literal `s[..n]` is a signed digit run that ends at `n`. */
  lemma MarkerOfLexeme(s: string, n: nat, d: nat)
    requires 0 < d < n <= |s| && d == RunEnd(s, 0, Digit) && s[d] == 'e'
    requires RunEnd(s, SignEnd(s, d + 1), Digit) <= n
    requires StrictFloatLen(s[..n], false) == Some(n)
    ensures SignedDigits(s, d + 1) == Some(n)
  {
    MarkerStart(s, n, d);
    StrictMarkerAt(s[..n], d);
    SignedDigitsWithin(s, n, d);
  }

  /** The strict pattern finds the same `digits e` literal in any longer prefix. */
  lemma MarkerInPrefix(s: string, n: nat, k: nat, d: nat)
    requires 0 < d < n <= k <= |s| && d == RunEnd(s, 0, Digit) && s[d] == 'e'
    requires SignedDigits(s, d + 1) == Some(n)
    ensures StrictFloatLen(s[..k], false) == Some(n)
  {
    MarkerStart(s, k, d);
    SignedDigitsWithin(s, k, d);
    StrictMarkerAt(s[..k], d);
  }

  /** The digits of an exponent body end no later than the body. */
  lemma ExponentDigitsBound(s: string, f: nat)
    requires f < |s|
    ensures SignEnd(s, f + 1) <= RunEnd(s, SignEnd(s, f + 1), Digit) <= ExponentBody(s, f + 1)
  {
  }

  /** The exponent of an accepted literal `s[..n]` is a signed digit run that ends at `n`. */
  lemma ExponentOfLexeme(s: string, n: nat, f: nat)
    requires f < n <= |s| && RunEnd(s, SignEnd(s, f + 1), Digit) <= n
    requires SignedDigits(s[..n], f + 1) == Some(n)
    ensures SignedDigits(s, f + 1) == Some(n)
  {
    SignedDigitsWithin(s, n, f);
  }

  /** ExponentOfLexeme, read inside the literal. */
  lemma ExponentInLexeme(s: string, n: nat, d: nat, f: nat)
    requires 0 < d && d + 1 < f < n <= |s| && d == RunEnd(s, 0, Digit) && s[d] == '.' && f == RunEnd(s, d + 1, Digit)
    requires s[f] == 'e' && StrictFloatLen(s[..n], false) == Some(n)
    ensures SignedDigits(s[..n], f + 1) == Some(n)
  {
    DotLexemeStart(s, n, d);
    assert s[..n][f] == s[f];
    LexemeExponent(s[..n], d, f);
  }

  /** The strict pattern finds the same exponent in any longer prefix. */
  lemma ExponentInPrefix(s: string, n: nat, k: nat, d: nat, f: nat)
    requires DigitsDot(s, d) && f == RunEnd(s, d + 1, Digit) && d + 1 < f < n <= k <= |s|
    requires s[f] == 'e' && SignedDigits(s, f + 1) == Some(n)
    ensures StrictFloatLen(s[..k], false) == Some(n)
  {
    DotLexemeStart(s, k, d);
    assert s[..k][f] == s[f];
    SignedDigitsWithin(s, k, f);
    StrictDotExponent(s[..k], d, f);
  }

  /** The strict pattern's first alternative on a text with an `e` right after its fraction digits. */
  lemma StrictDotExponent(x: string, d: nat, f: nat)
    requires 0 < d && d + 1 < f < |x| && RunEnd(x, 0, Digit) == d && x[d] == '.' && RunEnd(x, d + 1, Digit) == f
    requires x[f] == 'e'
    ensures StrictFloatLen(x, false) == if SignedDigits(x, f + 1).Some? then SignedDigits(x, f + 1) else Some(f)
  {
  }

  /** A literal the strict pattern matches in full, exponent included, ends with the exponent's digits. */
  lemma LexemeExponent(x: string, d: nat, f: nat)
    requires 0 < d && d + 1 < f < |x| && RunEnd(x, 0, Digit) == d && x[d] == '.' && RunEnd(x, d + 1, Digit) == f
    requires x[f] == 'e' && StrictFloatLen(x, false) == Some(|x|)
    ensures SignedDigits(x, f + 1) == Some(|x|)
  {
    StrictDotExponent(x, d, f);
  }

  /** `[+-]?\d+` after the marker at `f`, measured inside a prefix that holds the whole digit run. */
  lemma SignedDigitsWithin(s: string, k: nat, f: nat)
    requires f < k <= |s| && RunEnd(s, SignEnd(s, f + 1), Digit) <= k
    ensures SignedDigits(s[..k], f + 1) == SignedDigits(s, f + 1)
  {
    SignEndPrefix(s, k, f);
    RunEndPrefix(s, k, SignEnd(s, f + 1), Digit);
  }

  /** The optional sign after the marker at `f`, read inside a prefix that holds it. */
  lemma SignEndPrefix(s: string, k: nat, f: nat)
    requires f < k <= |s| && SignEnd(s, f + 1) <= k
    ensures SignEnd(s[..k], f + 1) == SignEnd(s, f + 1)
  {
    if f + 1 < k {
      assert s[..k][f + 1] == s[f + 1];
    }
  }
}
