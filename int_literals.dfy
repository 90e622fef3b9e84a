/**
 * Integer literals: the deliberately over-matching pattern of the `INT_VALUE` rule,
 * the validator that classifies the matched text as binary, hexadecimal, octal or
 * decimal and either decodes it or names one error, and the strict pattern that
 * `get_original_length` re-matches against the source line.
 */
module IntLiterals {
  import opened Wrappers
  import opened Text
  import opened Numerals
  import opened Tokens

  /** A delimiter the stray-character slots exclude besides `\s`: `;`, `,`, `)`, `}`. */
  predicate IsCloser(c: char) { c == ';' || c == ',' || c == ')' || c == '}' }

  /**
   * The single stray character `[^01\s;,\)\}]` (binary) or `[^0-9A-F\s;,\)\}]` (hex)
   * the pattern admits after the run of valid digits.
   */
  predicate StrayAllowed(c: char, hex: bool) {
    !(InClass(c, if hex then HexUpper else Bin) || IsSpace(c) || IsCloser(c))
  }

  /** `[^...]?[0-9a-zA-Z]*` taken greedily after the digit run that ends at `j`. */
  function AfterDigits(s: string, j: nat, hex: bool): (e: nat)
    requires j <= |s|
    ensures j <= e <= |s|
  {
    var k := if j < |s| && StrayAllowed(s[j], hex) then j + 1 else j;
    RunEnd(s, k, Alnum)
  }

  /**
   * The length of the text the `INT_VALUE` pattern matches at the start of `s`:
   * `0b[01]*[^01\s;,\)\}]?[0-9a-zA-Z]*`, `0x[0-9A-F]*[^0-9A-F\s;,\)\}]?[0-9a-zA-Z]*`,
   * `0[0-7]*[89]?[0-9a-zA-Z]*`, `0`, `[1-9][0-9]*`, first alternative first. Every
   * element after the first is optional, so the first alternative whose prefix is
   * present succeeds with every quantifier taken greedily. The fourth alternative `0`
   * is never reached: the third matches whenever `s` starts with `0`.
   */
  function MatchInt(s: string): (r: Option<nat>)
    ensures r.Some? <==> |s| > 0 && IsDigit(s[0])
    ensures r.Some? ==> 0 < r.value <= |s| && '\n' !in s[..r.value]
  {
    if StartsWith(s, "0b") then Some(AfterDigits(s, RunEnd(s, 2, Bin), false))
    else if StartsWith(s, "0x") then Some(AfterDigits(s, RunEnd(s, 2, HexUpper), true))
    else if |s| > 0 && s[0] == '0' then
      var o := RunEnd(s, 1, Oct);
      var e := if o < |s| && (s[o] == '8' || s[o] == '9') then o + 1 else o;
      Some(RunEnd(s, e, Alnum))
    else if |s| > 0 && '1' <= s[0] <= '9' then Some(RunEnd(s, 1, Digit))
    else None
  }

  /**
   * After the valid digits of a `0b` or `0x` literal the pattern takes one stray
   * character the digit class and the delimiters exclude, then any letters and digits:
   * `0b+`, `0x1A.` and `0x1a;` are matched with the stray character inside.
   */
  lemma PrefixedStray(hex: bool, d: string, c: char, a: string, rest: string)
    requires AllIn(d, if hex then HexUpper else Bin) && StrayAllowed(c, hex) && AllIn(a, Alnum)
    requires rest == [] || !InClass(rest[0], Alnum)
    ensures MatchInt((if hex then "0x" else "0b") + d + [c] + a + rest) == Some(3 + |d| + |a|)
  {
    var p := if hex then "0x" else "0b";
    var s := p + d + [c] + a + rest;
    var j := 2 + |d|;
    assert StartsWith(s, p) && (StartsWith(s, "0b") <==> !hex) by {
      assert s[..2] == p;
      assert s[..2][1] == s[1] == p[1];
    }
    StrayRuns(hex, d, c, a, rest);
    assert AfterDigits(s, j, hex) == j + 1 + |a| by {
      assert s[j] == c;
    }
  }

  /** The runs PrefixedStray measures: the digits end at the stray character, the letters and digits after it at `rest`. */
  lemma StrayRuns(hex: bool, d: string, c: char, a: string, rest: string)
    requires AllIn(d, if hex then HexUpper else Bin) && StrayAllowed(c, hex) && AllIn(a, Alnum)
    requires rest == [] || !InClass(rest[0], Alnum)
    ensures var s := (if hex then "0x" else "0b") + d + [c] + a + rest; var j := 2 + |d|;
      RunEnd(s, 2, if hex then HexUpper else Bin) == j && RunEnd(s, j + 1, Alnum) == j + 1 + |a|
  {
    var cls := if hex then HexUpper else Bin;
    var s := (if hex then "0x" else "0b") + d + [c] + a + rest;
    var j := 2 + |d|;
    assert RunEnd(s, 2, cls) == j by {
      assert forall m :: 2 <= m < j ==> s[m] == d[m - 2];
      assert s[j] == c;
      RunEndIs(s, 2, j, cls);
    }
    assert RunEnd(s, j + 1, Alnum) == j + 1 + |a| by {
      assert forall m :: j + 1 <= m < j + 1 + |a| ==> s[m] == a[m - j - 1];
      assert j + 1 + |a| == |s| || s[j + 1 + |a|] == rest[0];
      RunEndIs(s, j + 1, j + 1 + |a|, Alnum);
    }
  }

  /**
   * A `0b` or `0x` literal whose digits are followed by a space or a delimiter, or by
   * nothing, ends with its digits.
   */
  lemma PrefixedPlain(hex: bool, d: string, rest: string)
    requires AllIn(d, if hex then HexUpper else Bin)
    requires rest == [] || IsSpace(rest[0]) || IsCloser(rest[0])
    ensures MatchInt((if hex then "0x" else "0b") + d + rest) == Some(2 + |d|)
  {
    var p := if hex then "0x" else "0b";
    var s := p + d + rest;
    var j := 2 + |d|;
    assert s[..2] == p;
    assert StartsWith(s, "0b") <==> !hex by {
      assert s[..2][1] == s[1] == p[1];
    }
    assert forall m :: 2 <= m < j ==> s[m] == d[m - 2];
    assert j == |s| || s[j] == rest[0];
    RunEndIs(s, 2, j, if hex then HexUpper else Bin);
    RunEndIs(s, j, j, Alnum);
  }

  /**
   * After the octal digits of a literal starting with `0` the pattern takes one `8` or
   * `9`, then any letters and digits: `089` is matched in full.
   */
  lemma OctalStray(o: string, c: char, a: string, rest: string)
    requires AllIn(o, Oct) && (c == '8' || c == '9') && AllIn(a, Alnum)
    requires rest == [] || !InClass(rest[0], Alnum)
    ensures MatchInt("0" + o + [c] + a + rest) == Some(2 + |o| + |a|)
  {
    var s := "0" + o + [c] + a + rest;
    var j := 1 + |o|;
    assert s[0] == '0';
    assert forall m :: 1 <= m < j ==> s[m] == o[m - 1];
    assert s[j] == c;
    assert !StartsWith(s, "0b") && !StartsWith(s, "0x") by {
      assert s[..2][1] == s[1];
      assert '0' <= s[1] <= '9' by {
        if j > 1 {
          assert InClass(o[0], Oct);
        }
      }
    }
    RunEndIs(s, 1, j, Oct);
    assert forall m :: j + 1 <= m < j + 1 + |a| ==> s[m] == a[m - j - 1];
    assert j + 1 + |a| == |s| || s[j + 1 + |a|] == rest[0];
    RunEndIs(s, j + 1, j + 1 + |a|, Alnum);
  }

  /**
   * After a `0` that does not start a `0b` or `0x` prefix, the octal alternative takes
   * every letter and digit that follows, whether or not they are octal digits: `017)`
   * is matched up to the bracket and `0abc;` up to the semicolon.
   */
  lemma OctalPlain(o: string, a: string, rest: string)
    requires AllIn(o, Oct) && AllIn(a, Alnum)
    requires o != [] || a == [] || (a[0] != 'b' && a[0] != 'x')
    requires rest == [] || !InClass(rest[0], Alnum)
    ensures MatchInt("0" + o + a + rest) == Some(1 + |o| + |a|)
  {
    var s := "0" + o + a + rest;
    var n := 1 + |o| + |a|;
    assert forall m :: 1 <= m < 1 + |o| ==> s[m] == o[m - 1];
    assert forall m :: 1 + |o| <= m < n ==> s[m] == a[m - 1 - |o|];
    assert n == |s| || s[n] == rest[0];
    assert s[0] == '0';
    assert !StartsWith(s, "0b") && !StartsWith(s, "0x") by {
      if |s| >= 2 {
        assert s[..2][1] == s[1];
        if o != [] {
          assert s[1] == o[0] && InClass(o[0], Oct);
        } else if a != [] {
          assert s[1] == a[0];
        } else {
          assert s[1] == rest[0];
        }
      }
    }
    var j := RunEnd(s, 1, Oct);
    assert j <= n;
    var e := if j < |s| && (s[j] == '8' || s[j] == '9') then j + 1 else j;
    assert e <= n;
    RunEndIs(s, e, n, Alnum);
  }

  /** A lone `0` before anything but a letter or digit is matched by itself. */
  lemma ZeroLength(rest: string)
    requires |rest| > 0 && rest[0] == '0' && (|rest| == 1 || !InClass(rest[1], Alnum))
    ensures MatchInt(rest) == Some(1)
  {
    assert rest == "0" + [] + [] + rest[1..];
    OctalPlain([], [], rest[1..]);
  }

  /** A numeral that does not start with `0` is matched up to the first character that is no digit. */
  lemma NonzeroLength(rest: string, m: nat)
    requires 0 < m <= |rest| && '1' <= rest[0] <= '9' && RunEnd(rest, 0, Digit) == m
    ensures MatchInt(rest) == Some(m)
  {
    assert !StartsWith(rest, "0b") && !StartsWith(rest, "0x");
    RunEndIs(rest, 1, m, Digit);
  }

  /**
   * The validator's last branch calls `int(lexeme)`, which succeeds only on a
   * non-empty string of decimal digits; the other three branches accept any text.
   */
  predicate Decodable(lexeme: string) {
    StartsWith(lexeme, "0b") || StartsWith(lexeme, "0x")
    || (StartsWith(lexeme, "0") && |lexeme| > 1)
    || (|lexeme| > 0 && AllIn(lexeme, Digit))
  }

  /**
   * The `INT_VALUE` validator: the decoded value, or the first error that applies. A
   * bare prefix is the incomplete error of its base, a leading `00` is always the
   * non-significant-zeros error, and a decimal text or a lone `0` is never rejected.
   */
  function ValidateInt(lexeme: string): (r: Result<nat, ErrorKind>)
    requires Decodable(lexeme)
    ensures r == Err(BinaryIncomplete) <==> lexeme == "0b"
    ensures r == Err(HexIncomplete) <==> lexeme == "0x"
    ensures r == Err(NonSignificantZeros) <==> StartsWith(lexeme, "00")
    ensures r.Err? ==> StartsWith(lexeme, "0") && |lexeme| > 1
  {
    if StartsWith(lexeme, "0b") then
      var digits := lexeme[2..];
      if digits == [] then Err(BinaryIncomplete)
      else if !AllIn(digits, Bin) then Err(BinaryInvalid)
      else Ok(ReadBase(2, digits))
    else if StartsWith(lexeme, "0x") then
      var digits := lexeme[2..];
      if digits == [] then Err(HexIncomplete)
      else if !AllIn(digits, HexUpper) then Err(HexInvalid)
      else Ok(ReadBase(16, digits))
    else if StartsWith(lexeme, "0") && |lexeme| > 1 then
      var digits := lexeme[1..];
      if digits[0] == '0' then Err(NonSignificantZeros)
      else if !AllIn(digits, Oct) then Err(OctalInvalid)
      else Ok(ReadBase(8, digits))
    else
      Ok(ReadBase(10, lexeme))
  }

  /**
   * `0b` followed by any non-empty text: the binary reading of the text when every
   * character is `0` or `1`, the invalid-binary error otherwise.
   */
  lemma BinaryDigits(d: string)
    requires |d| > 0
    ensures Decodable("0b" + d)
    ensures AllIn(d, Bin) ==> IsNumeral(d, 2) && ValidateInt("0b" + d) == Ok(ReadBase(2, d))
    ensures !AllIn(d, Bin) ==> ValidateInt("0b" + d) == Err(BinaryInvalid)
  {
    var L := "0b" + d;
    assert L[..2] == "0b" && L[2..] == d;
  }

  /**
   * `0x` followed by any non-empty text: the hexadecimal reading of the text when every
   * character is one of `0-9A-F`, the invalid-hex error otherwise (so `0x1a` is invalid).
   */
  lemma HexDigits(d: string)
    requires |d| > 0
    ensures Decodable("0x" + d)
    ensures AllIn(d, HexUpper) ==> IsNumeral(d, 16) && ValidateInt("0x" + d) == Ok(ReadBase(16, d))
    ensures !AllIn(d, HexUpper) ==> ValidateInt("0x" + d) == Err(HexInvalid)
  {
    var L := "0x" + d;
    assert L[..2] == "0x" && L[2..] == d;
    assert !StartsWith(L, "0b") by {
      assert L[..2][1] == 'x';
    }
  }

  /**
   * `0` followed by any non-empty text that does not start a `0b` or `0x` prefix: the
   * non-significant-zeros error when the text starts with `0`, else the octal reading
   * when every character is one of `0-7`, else the invalid-octal error.
   */
  lemma OctalDigits(d: string)
    requires |d| > 0 && d[0] != 'b' && d[0] != 'x'
    ensures Decodable("0" + d)
    ensures d[0] == '0' ==> ValidateInt("0" + d) == Err(NonSignificantZeros)
    ensures d[0] != '0' && AllIn(d, Oct) ==> IsNumeral(d, 8) && ValidateInt("0" + d) == Ok(ReadBase(8, d))
    ensures d[0] != '0' && !AllIn(d, Oct) ==> ValidateInt("0" + d) == Err(OctalInvalid)
  {
    var L := "0" + d;
    assert L[..1] == "0" && L[1..] == d;
    assert L[1] == d[0];
    assert !StartsWith(L, "0b") && !StartsWith(L, "0x") by {
      assert L[..2][1] == d[0];
    }
  }

  /**
   * A decimal numeral with no leading zero, or the lone `0`, takes the last branch and
   * is accepted with its decimal reading.
   */
  lemma DecimalDigits(d: string)
    requires |d| > 0 && AllIn(d, Digit) && (d[0] != '0' || |d| == 1)
    ensures Decodable(d) && IsNumeral(d, 10)
    ensures ValidateInt(d) == Ok(ReadBase(10, d))
  {
    assert forall i :: 0 <= i < |d| ==> DigitValue(d[i]) < 10 by {
      forall i | 0 <= i < |d| ensures DigitValue(d[i]) < 10 {
        assert InClass(d[i], Digit);
      }
    }
    assert !StartsWith(d, "0b") && !StartsWith(d, "0x") by {
      if |d| >= 2 {
        assert d[..2][0] == d[0] && d[..2][1] == d[1];
        assert InClass(d[1], Digit);
      }
    }
  }

  /**
   * The strict integer pattern of `get_original_length`,
   * `0b[01]+|0x[0-9A-F]+|0[0-7]+|0|[1-9][0-9]*`: the length it matches at the start of
   * `s`. An alternative whose `+` finds no digit fails and the next one is tried.
   */
  function StrictIntLen(s: string): (r: Option<nat>)
    ensures r.Some? <==> |s| > 0 && IsDigit(s[0])
    ensures r.Some? ==> 0 < r.value <= |s|
  {
    if StartsWith(s, "0b") && RunEnd(s, 2, Bin) > 2 then Some(RunEnd(s, 2, Bin))
    else if StartsWith(s, "0x") && RunEnd(s, 2, HexUpper) > 2 then Some(RunEnd(s, 2, HexUpper))
    else if |s| > 0 && s[0] == '0' && RunEnd(s, 1, Oct) > 1 then Some(RunEnd(s, 1, Oct))
    else if |s| > 0 && s[0] == '0' then Some(1)
    else if |s| > 0 && '1' <= s[0] <= '9' then Some(RunEnd(s, 1, Digit))
    else None
  }

  /**
   * The validator accepts exactly the texts the strict pattern matches in full, less
   * those that start with `00` (a zero the octal branch calls non-significant).
   */
  lemma IntAcceptance(lexeme: string)
    requires Decodable(lexeme)
    ensures ValidateInt(lexeme).Ok? <==> StrictIntLen(lexeme) == Some(|lexeme|) && !StartsWith(lexeme, "00")
  {
    var L := lexeme;
    if StartsWith(L, "0b") {
      RunEndAll(L, 2, Bin);
    } else if StartsWith(L, "0x") {
      RunEndAll(L, 2, HexUpper);
    } else if StartsWith(L, "0") && |L| > 1 {
      RunEndAll(L, 1, Oct);
      assert L[1..][0] == L[1];
      assert L[1..2] == [L[1]];
    } else {
      RunEndAll(L, 1, Digit);
      assert L[..1] == [L[0]];
      if L[0] != '0' {
        assert forall i :: 1 <= i < |L| ==> L[1..][i - 1] == L[i];
      }
    }
  }

  /** A numeral in base 2, 8, 10 or 16 is made of the characters of that base's class. */
  lemma NumeralClass(s: string, base: nat, k: CharClass)
    requires IsNumeral(s, base)
    requires (base == 2 && k == Bin) || (base == 8 && k == Oct) || (base == 10 && k == Digit) || (base == 16 && k == HexUpper)
    ensures AllIn(s, k)
  {
    forall i | 0 <= i < |s| ensures InClass(s[i], k) {
      assert DigitValue(s[i]) < base;
    }
  }

  /** `0b` followed by the binary numeral of `n` decodes to `n`. */
  lemma BinaryRoundTrip(n: nat)
    ensures Decodable("0b" + ShowBase(2, n))
    ensures ValidateInt("0b" + ShowBase(2, n)) == Ok(n)
  {
    var digits := ShowBase(2, n);
    var L := "0b" + digits;
    assert L[..2] == "0b" && L[2..] == digits;
    ReadShow(2, n);
    NumeralClass(digits, 2, Bin);
  }

  /** `0x` followed by the upper-case hexadecimal numeral of `n` decodes to `n`. */
  lemma HexRoundTrip(n: nat)
    ensures Decodable("0x" + ShowBase(16, n))
    ensures ValidateInt("0x" + ShowBase(16, n)) == Ok(n)
  {
    var digits := ShowBase(16, n);
    var L := "0x" + digits;
    assert L[..2] == "0x" && L[2..] == digits;
    ReadShow(16, n);
    NumeralClass(digits, 16, HexUpper);
  }

  /**
   * `0` followed by the octal numeral of a positive `n` decodes to `n`; zero written
   * this way, `00`, is the non-significant-zeros error.
   */
  lemma OctalRoundTrip(n: nat)
    ensures Decodable("0" + ShowBase(8, n))
    ensures ValidateInt("0" + ShowBase(8, n)) == if n == 0 then Err(NonSignificantZeros) else Ok(n)
  {
    var digits := ShowBase(8, n);
    var L := "0" + digits;
    assert L[..1] == "0" && L[1..] == digits;
    NumeralClass(digits, 8, Oct);
    assert DigitValue(L[1]) < 8;
    assert L[..2] != "0b" && L[..2] != "0x" by {
      assert L[..2][1] == L[1];
    }
    ReadShow(8, n);
  }

  /** The decimal numeral of `n`, as `str(n)` writes it, decodes to `n`. */
  lemma DecimalRoundTrip(n: nat)
    ensures Decodable(ShowBase(10, n))
    ensures ValidateInt(ShowBase(10, n)) == Ok(n)
  {
    var L := ShowBase(10, n);
    ReadShow(10, n);
    if n == 0 {
      assert L == "0";
    } else {
      DecimalNumeral(L);
    }
  }

  /** A decimal numeral without a leading zero takes the validator's last branch. */
  lemma DecimalNumeral(L: string)
    requires |L| > 0 && L[0] != '0' && IsNumeral(L, 10)
    ensures Decodable(L) && ValidateInt(L) == Ok(ReadBase(10, L))
  {
    assert L[..1] != "0" by {
      assert L[..1][0] == L[0];
    }
    assert !StartsWith(L, "0b") && !StartsWith(L, "0x") && !StartsWith(L, "0");
    NumeralClass(L, 10, Digit);
  }

  /**
   * The text the pattern matched, taken alone, is matched in full again, and the
   * validator's last branch can decode it.
   */
  lemma MatchIntLexeme(s: string, n: nat)
    requires MatchInt(s) == Some(n)
    ensures MatchInt(s[..n]) == Some(n)
    ensures Decodable(s[..n])
  {
    if StartsWith(s, "0b") {
      PrefixedLexeme(s, n, false);
    } else if StartsWith(s, "0x") {
      PrefixedLexeme(s, n, true);
    } else if s[0] == '0' {
      ZeroLexeme(s, n);
    } else {
      DecimalLexeme(s, n);
    }
  }

  /** MatchIntLexeme for a binary (`hex` false) or hexadecimal literal. */
  lemma PrefixedLexeme(s: string, n: nat, hex: bool)
    requires StartsWith(s, if hex then "0x" else "0b") && (hex || !StartsWith(s, "0x"))
    requires n == AfterDigits(s, RunEnd(s, 2, if hex then HexUpper else Bin), hex)
    ensures MatchInt(s[..n]) == Some(n)
    ensures Decodable(s[..n])
  {
    var L := s[..n];
    var k := if hex then HexUpper else Bin;
    var b := RunEnd(s, 2, k);
    var j := if b < |s| && StrayAllowed(s[b], hex) then b + 1 else b;
    assert StartsWith(L, if hex then "0x" else "0b") && (StartsWith(L, "0b") <==> !hex) by {
      assert L[..2] == s[..2];
      assert L[..2][1] == s[..2][1];
    }
    assert RunEnd(L, 2, k) == b by {
      RunEndPrefix(s, n, 2, k);
    }
    assert AfterDigits(L, b, hex) == n by {
      if b < n {
        assert L[b] == s[b];
      }
      RunEndPrefix(s, n, j, Alnum);
    }
  }

  /** MatchIntLexeme for a literal the `0[0-7]*[89]?[0-9a-zA-Z]*` alternative matched. */
  lemma ZeroLexeme(s: string, n: nat)
    requires |s| > 0 && s[0] == '0' && !StartsWith(s, "0b") && !StartsWith(s, "0x")
    requires MatchInt(s) == Some(n)
    ensures MatchInt(s[..n]) == Some(n)
    ensures Decodable(s[..n])
  {
    var L := s[..n];
    var o := RunEnd(s, 1, Oct);
    var e := if o < |s| && (s[o] == '8' || s[o] == '9') then o + 1 else o;
    assert n == RunEnd(s, e, Alnum);
    assert L[0] == '0';
    if n >= 2 {
      assert L[..2] == s[..2];
    }
    RunEndPrefix(s, n, 1, Oct);
    if o < n {
      assert L[o] == s[o];
    }
    RunEndPrefix(s, n, e, Alnum);
    assert L[..1] == "0";
    if n == 1 {
      assert AllIn(L, Digit);
    }
  }

  /** MatchIntLexeme for a literal the `[1-9][0-9]*` alternative matched. */
  lemma DecimalLexeme(s: string, n: nat)
    requires |s| > 0 && '1' <= s[0] <= '9'
    requires n == RunEnd(s, 1, Digit)
    ensures MatchInt(s[..n]) == Some(n)
    ensures Decodable(s[..n])
  {
    var L := s[..n];
    RunEndPrefix(s, n, 1, Digit);
    assert L[..1] != "0";
    assert AllIn(L, Digit);
  }

  /**
   * Where the scanner accepted an integer literal of length `n`, the strict pattern
   * re-matched on any part of the remaining text at least `n` long finds exactly the
   * literal again.
   */
  lemma StrictIntRematch(s: string, n: nat, k: nat)
    requires MatchInt(s) == Some(n)
    requires Decodable(s[..n]) && ValidateInt(s[..n]).Ok?
    requires n <= k <= |s|
    ensures StrictIntLen(s[..k]) == Some(n)
  {
    IntAcceptance(s[..n]);
    if StartsWith(s, "0b") {
      RematchPrefixed(s, n, k, false);
    } else if StartsWith(s, "0x") {
      RematchPrefixed(s, n, k, true);
    } else if s[0] == '0' {
      RematchZero(s, n, k);
    } else {
      var t := s[..k];
      assert t[..1] == s[..1];
      RunEndPrefix(s, k, 1, Digit);
      if k >= 2 {
        assert t[..2][0] == t[0];
      }
    }
  }

  /** StrictIntRematch for a binary (`hex` false) or hexadecimal literal. */
  lemma RematchPrefixed(s: string, n: nat, k: nat, hex: bool)
    requires StartsWith(s, if hex then "0x" else "0b")
    requires MatchInt(s) == Some(n) && n <= k <= |s|
    requires StrictIntLen(s[..n]) == Some(n)
    ensures StrictIntLen(s[..k]) == Some(n)
  {
    PrefixedRun(s, n, hex);
    PrefixedStrict(s, n, k, hex);
  }

  /** An accepted binary or hexadecimal literal is its prefix and a digit run that ends at its end. */
  lemma PrefixedRun(s: string, n: nat, hex: bool)
    requires StartsWith(s, if hex then "0x" else "0b")
    requires MatchInt(s) == Some(n) && StrictIntLen(s[..n]) == Some(n)
    ensures 2 < n && RunEnd(s, 2, if hex then HexUpper else Bin) == n
  {
    var L := s[..n];
    var cls := if hex then HexUpper else Bin;
    assert n >= 2;
    assert L[..2] == s[..2];
    RunEndPrefix(s, n, 2, cls);
  }

  /** The strict pattern on a prefix of at least `n` characters of a text whose digit run after `0b` or `0x` ends at `n`. */
  lemma PrefixedStrict(s: string, n: nat, k: nat, hex: bool)
    requires StartsWith(s, if hex then "0x" else "0b")
    requires 2 < n <= k <= |s| && RunEnd(s, 2, if hex then HexUpper else Bin) == n
    ensures StrictIntLen(s[..k]) == Some(n)
  {
    var t := s[..k];
    assert t[..2] == s[..2];
    RunEndPrefix(s, k, 2, if hex then HexUpper else Bin);
  }

  /** StrictIntRematch for a literal the `0[0-7]*[89]?[0-9a-zA-Z]*` alternative matched. */
  lemma RematchZero(s: string, n: nat, k: nat)
    requires |s| > 0 && s[0] == '0' && !StartsWith(s, "0b") && !StartsWith(s, "0x")
    requires MatchInt(s) == Some(n) && n <= k <= |s|
    requires StrictIntLen(s[..n]) == Some(n) && !StartsWith(s[..n], "00")
    ensures StrictIntLen(s[..k]) == Some(n)
  {
    var L, t := s[..n], s[..k];
    var o := RunEnd(s, 1, Oct);
    RunEndPrefix(s, k, 1, Oct);
    RunEndPrefix(s, n, 1, Oct);
    if n >= 2 {
      assert L[..2] == s[..2];
    }
    if k >= 2 {
      assert t[..2] == s[..2];
    }
  }
}
