/**
 * The scanner: one step of the scan loop at the cursor, the pull of the next token,
 * and a Scanner object whose cursor fields the steps update in place.
 *
 * A step skips an ignored character, reports an illegal one and skips it, or runs the
 * rule that wins at the cursor. A literal rule whose validator fails reports a
 * diagnostic in place of a token; the comment and line-break rules produce nothing.
 * Either way the cursor moves past the whole matched text.
 */
module Lexing {
  import opened Wrappers
  import opened Text
  import opened Tokens
  import opened Rules
  import IntLiterals
  import FloatLiterals
  import CharLiterals
  import Positions

  /** The characters skipped between tokens: space, tab, carriage return. */
  const Ignored: set<char> := {' ', '\t', '\r'}

  /** The shared cursor: the offset of the next character and the line counter. */
  datatype Cursor = Cursor(pos: nat, line: nat)

  /** What one step produced. */
  datatype Outcome =
    | Skipped
    | Emitted(tok: Token)
    | Discarded(rule: Rule)
    | Rejected(diag: Diagnostic)

  datatype Stepped = Stepped(next: Cursor, outcome: Outcome)

  /** The result of pulling a token: the cursor after it, the token, the diagnostics on the way. */
  datatype Pulled = Pulled(next: Cursor, token: Option<Token>, diagnostics: seq<Diagnostic>)

  /**
   * What the rule that matched the first `n` characters of `rest` at cursor `c`
   * produces: the token it returns, the diagnostic its validator reports, or nothing.
   */
  function Apply(rule: Rule, rest: string, n: nat, c: Cursor): (o: Outcome)
    requires MatchRule(rule, rest) == Some(n)
    ensures o.Emitted? ==> o.tok.line == c.line && o.tok.lexpos == c.pos
    ensures o.Rejected? ==> o.diag.line == c.line && o.diag.text == rest[..n] && o.diag.kind != IllegalCharacter
    ensures o.Discarded? <==> rule in {BlockComment, LineComment, Newlines}
  {
    var text := rest[..n];
    match rule
    case Symbol(o) => Emitted(Token(Op(o), TextVal(text), None, c.line, c.pos))
    case FloatLit =>
      (match FloatLiterals.ValidateFloat(text)
       case Ok(_) => Emitted(Token(FloatValue, FloatVal(text), Some(text), c.line, c.pos))
       case Err(k) => Rejected(Diagnostic(k, text, c.line)))
    case IntLit =>
      IntLiterals.MatchIntLexeme(rest, n);
      (match IntLiterals.ValidateInt(text)
       case Ok(v) => Emitted(Token(IntValue, IntVal(v), Some(text), c.line, c.pos))
       case Err(k) => Rejected(Diagnostic(k, text, c.line)))
    case CharLit =>
      (match CharLiterals.ValidateChar(text)
       case Ok(ch) => Emitted(Token(CharValue, CharVal(ch), Some(text), c.line, c.pos))
       case Err(k) => Rejected(Diagnostic(k, text, c.line)))
    case Ident => Emitted(Token(ClassifyWord(text), TextVal(text), Some(text), c.line, c.pos))
    case _ => Discarded(rule)
  }

  /** The lines a rule adds to the counter: the breaks in a block comment, the length of a run of breaks. */
  function LinesAdded(rule: Rule, text: string): (n: nat)
    ensures n <= |text|
    ensures rule != Newlines ==> n <= CountOf(text, '\n')
    ensures rule == Newlines && AllIn(text, NewlineChar) ==> n == CountOf(text, '\n')
  {
    match rule
    case BlockComment => CountOf(text, '\n')
    case Newlines => NewlineRunCount(text); |text|
    case _ => 0
  }

  /** A run of line breaks holds as many line breaks as characters. */
  lemma NewlineRunCount(text: string)
    ensures AllIn(text, NewlineChar) ==> CountOf(text, '\n') == |text|
  {
    if AllIn(text, NewlineChar) {
      CountOfUniform(text, '\n');
    }
  }

  /**
   * What each rule's action makes of its match: an operator always emits a token of its
   * own type, an identifier always emits its reserved type or `ID`, each literal rule
   * emits exactly when its validator accepts, with the decoded value, and otherwise
   * reports the validator's error.
   */
  lemma ApplyOutcome(rule: Rule, rest: string, n: nat, c: Cursor)
    requires MatchRule(rule, rest) == Some(n)
    ensures var o := Apply(rule, rest, n, c); var text := rest[..n];
      && (rule.Symbol? ==> o.Emitted? && o.tok.kind == Op(rule.op) && o.tok.value == TextVal(text))
      && (rule == Ident ==> o.Emitted? && o.tok.kind == ClassifyWord(text) && o.tok.lexeme == Some(text))
      && (rule == FloatLit ==> (o.Emitted? <==> FloatLiterals.ValidateFloat(text).Ok?))
      && (rule == FloatLit && o.Emitted? ==> o.tok.kind == FloatValue && o.tok.value == FloatVal(text))
      && (rule == FloatLit && o.Rejected? ==> o.diag.kind == FloatLiterals.ValidateFloat(text).error)
      && (rule == CharLit ==> (o.Emitted? <==> CharLiterals.ValidateChar(text).Ok?))
      && (rule == CharLit && o.Emitted? ==> o.tok.kind == CharValue && o.tok.value == CharVal(CharLiterals.ValidateChar(text).value))
      && (rule == CharLit && o.Rejected? ==> o.diag.kind == CharLiterals.ValidateChar(text).error)
    ensures rule == IntLit ==> var o := Apply(rule, rest, n, c); var text := rest[..n];
      && IntLiterals.Decodable(text)
      && (o.Emitted? <==> IntLiterals.ValidateInt(text).Ok?)
      && (o.Emitted? ==> o.tok.kind == IntValue && o.tok.value == IntVal(IntLiterals.ValidateInt(text).value))
      && (o.Rejected? ==> o.diag.kind == IntLiterals.ValidateInt(text).error)
  {
    if rule == IntLit {
      IntLiterals.MatchIntLexeme(rest, n);
    }
  }

  /** One step of the scan loop at cursor `c`; it always consumes at least one character. */
  function StepAt(source: string, c: Cursor): (r: Stepped)
    requires c.pos < |source|
    ensures c.pos < r.next.pos <= |source|
  {
    var rest := source[c.pos..];
    if rest[0] in Ignored then Stepped(Cursor(c.pos + 1, c.line), Skipped)
    else match Dispatch(rest)
      case None => Stepped(Cursor(c.pos + 1, c.line), Rejected(Diagnostic(IllegalCharacter, [rest[0]], c.line)))
      case Some((rule, n)) =>
        Stepped(Cursor(c.pos + n, c.line + LinesAdded(rule, rest[..n])), Apply(rule, rest, n, c))
  }

  /**
   * The next token from cursor `c`: steps until one emits a token or the text ends,
   * collecting the diagnostics reported on the way.
   */
  function NextFrom(source: string, c: Cursor): (r: Pulled)
    requires c.pos <= |source|
    ensures c.pos <= r.next.pos <= |source|
    ensures r.token.None? ==> r.next.pos == |source|
    ensures r.token.Some? ==> c.pos <= r.token.value.lexpos < r.next.pos
    decreases |source| - c.pos
  {
    if c.pos == |source| then Pulled(c, None, [])
    else
      var st := StepAt(source, c);
      match st.outcome
      case Emitted(tok) => Pulled(st.next, Some(tok), [])
      case Rejected(d) =>
        var p := NextFrom(source, st.next);
        Pulled(p.next, p.token, [d] + p.diagnostics)
      case _ => NextFrom(source, st.next)
  }

  /**
   * The line counter grows by exactly the line breaks a step consumes, except in a
   * step at an apostrophe: a character literal may hold a line break that nothing counts.
   */
  lemma StepLines(source: string, c: Cursor)
    requires c.pos < |source|
    ensures StepAt(source, c).next.line ==
      c.line + if source[c.pos] == '\'' then 0 else CountOf(source[c.pos..StepAt(source, c).next.pos], '\n')
  {
    var r := StepAt(source, c);
    var rest := source[c.pos..];
    var consumed := source[c.pos..r.next.pos];
    if rest[0] in Ignored || Dispatch(rest).None? {
      assert consumed == [rest[0]];
      if Dispatch(rest).None? {
        DispatchFails(rest);
      }
    } else {
      var (rule, n) := Dispatch(rest).value;
      assert consumed == rest[..n];
      RuleLines(rule, rest, n);
    }
  }

  /** StepLines for one rule: the breaks in the matched text, against the lines the rule adds. */
  lemma RuleLines(rule: Rule, rest: string, n: nat)
    requires MatchRule(rule, rest) == Some(n)
    ensures LinesAdded(rule, rest[..n]) == if rule == CharLit then 0 else CountOf(rest[..n], '\n')
    ensures rule == CharLit <==> rest[0] == '\''
  {
    var text := rest[..n];
    match rule
    case Symbol(o) =>
      assert text == OpText(o);
    case FloatLit =>
      FloatLiterals.MatchFloatLexeme(rest, n);
    case Ident =>
      forall q | 0 <= q < n ensures text[q] != '\n' {
        assert InClass(text[q], IdChar);
      }
    case Newlines =>
      CountOfUniform(text, '\n');
    case BlockComment =>
      assert text[0] == '/';
    case LineComment =>
      assert text[0] == '/';
    case _ =>
  }

  /**
   * Whitespace and illegal characters move the cursor one character and leave the line
   * counter alone; so does a line comment, which stops before the line break.
   */
  lemma QuietSteps(source: string, c: Cursor)
    requires c.pos < |source|
    ensures StepAt(source, c).outcome == Skipped <==> source[c.pos] in Ignored
    ensures StepAt(source, c).outcome.Skipped? ==> StepAt(source, c).next == Cursor(c.pos + 1, c.line)
    ensures StepAt(source, c).outcome.Rejected? && StepAt(source, c).outcome.diag.kind == IllegalCharacter ==>
      StepAt(source, c).next == Cursor(c.pos + 1, c.line) && StepAt(source, c).outcome.diag.text == [source[c.pos]]
    ensures StepAt(source, c).outcome == Discarded(LineComment) ==>
      StepAt(source, c).next.line == c.line && (StepAt(source, c).next.pos == |source| || source[StepAt(source, c).next.pos] == '\n')
  {
    var rest := source[c.pos..];
    if !(rest[0] in Ignored) && Dispatch(rest).Some? {
      var (rule, n) := Dispatch(rest).value;
      if rule == LineComment {
        assert rest[n..] == source[c.pos + n..];
        if c.pos + n < |source| {
          assert rest[n] == source[c.pos + n];
        }
      }
    }
  }

  /**
   * A token the scanner emits lies in the source text where its lexeme says: from its
   * offset, its original length long, ending where the cursor stops, and on the line
   * and at the offset of the cursor it was scanned at.
   */
  lemma EmittedSpan(source: string, c: Cursor)
    requires c.pos < |source| && StepAt(source, c).outcome.Emitted?
    ensures var r := StepAt(source, c); var tok := r.outcome.tok;
      && tok.lexpos == c.pos && tok.line == c.line
      && c.pos + Positions.OriginalLength(tok, source) == r.next.pos
      && source[c.pos..r.next.pos] == Lexeme(tok)
  {
    var rest := source[c.pos..];
    var (rule, n) := Dispatch(rest).value;
    AppliedSpan(source, c, rule, n);
  }

  /** EmittedSpan for the rule that won at the cursor, stated on what the rule produces. */
  lemma AppliedSpan(source: string, c: Cursor, rule: Rule, n: nat)
    requires c.pos < |source| && MatchRule(rule, source[c.pos..]) == Some(n)
    requires Apply(rule, source[c.pos..], n, c).Emitted?
    ensures var tok := Apply(rule, source[c.pos..], n, c).tok;
      && Positions.OriginalLength(tok, source) == n
      && c.pos + n <= |source| && source[c.pos..c.pos + n] == Lexeme(tok)
  {
    if rule == IntLit {
      IntTokenSpan(source, c, n);
    } else if rule == FloatLit {
      FloatTokenSpan(source, c, n);
    } else {
      OtherTokenSpan(source, c, rule, n);
    }
  }

  /** AppliedSpan for an integer literal. */
  lemma IntTokenSpan(source: string, c: Cursor, n: nat)
    requires c.pos < |source| && MatchRule(IntLit, source[c.pos..]) == Some(n)
    requires Apply(IntLit, source[c.pos..], n, c).Emitted?
    ensures var tok := Apply(IntLit, source[c.pos..], n, c).tok;
      && Positions.OriginalLength(tok, source) == n
      && c.pos + n <= |source| && source[c.pos..c.pos + n] == Lexeme(tok)
  {
    var rest := source[c.pos..];
    var text := rest[..n];
    IntLiterals.MatchIntLexeme(rest, n);
    assert IntLiterals.ValidateInt(text).Ok?;
    var tok := Token(IntValue, IntVal(IntLiterals.ValidateInt(text).value), Some(text), c.line, c.pos);
    assert Apply(IntLit, rest, n, c) == Emitted(tok);
    assert source[c.pos..c.pos + n] == text;
    SegmentAt(source, c.pos);
    IntSpan(rest, n, IndexOf(rest, '\n'));
    IntLength(tok, source, n);
  }

  /** AppliedSpan for a float literal. */
  lemma FloatTokenSpan(source: string, c: Cursor, n: nat)
    requires c.pos < |source| && MatchRule(FloatLit, source[c.pos..]) == Some(n)
    requires Apply(FloatLit, source[c.pos..], n, c).Emitted?
    ensures var tok := Apply(FloatLit, source[c.pos..], n, c).tok;
      && Positions.OriginalLength(tok, source) == n
      && c.pos + n <= |source| && source[c.pos..c.pos + n] == Lexeme(tok)
  {
    var rest := source[c.pos..];
    var text := rest[..n];
    assert FloatLiterals.ValidateFloat(text).Ok?;
    var tok := Token(FloatValue, FloatVal(text), Some(text), c.line, c.pos);
    assert Apply(FloatLit, rest, n, c) == Emitted(tok);
    assert source[c.pos..c.pos + n] == text;
    SegmentAt(source, c.pos);
    FloatSpan(rest, n, IndexOf(rest, '\n'));
    FloatLength(tok, source, false, n);
  }

  /** AppliedSpan for the rules whose token length does not depend on the line: a character literal, an operator, a word. */
  lemma OtherTokenSpan(source: string, c: Cursor, rule: Rule, n: nat)
    requires c.pos < |source| && rule != IntLit && rule != FloatLit && MatchRule(rule, source[c.pos..]) == Some(n)
    requires Apply(rule, source[c.pos..], n, c).Emitted?
    ensures var tok := Apply(rule, source[c.pos..], n, c).tok;
      && Positions.OriginalLength(tok, source) == n
      && c.pos + n <= |source| && source[c.pos..c.pos + n] == Lexeme(tok)
  {
    var rest := source[c.pos..];
    assert source[c.pos..c.pos + n] == rest[..n];
  }

  /** The line segment at `p` is the rest of the text up to its first line break. */
  lemma SegmentAt(source: string, p: nat)
    requires p <= |source|
    ensures Positions.Segment(source, p) == source[p..][..IndexOf(source[p..], '\n')]
  {
    assert source[p..Positions.LineEnd(source, p)] == source[p..][..IndexOf(source[p..], '\n')];
  }

  /** EmittedSpan for an accepted integer literal: the strict pattern finds it again on its line. */
  lemma IntSpan(rest: string, n: nat, k: nat)
    requires IntLiterals.MatchInt(rest) == Some(n) && k == IndexOf(rest, '\n')
    requires IntLiterals.Decodable(rest[..n]) && IntLiterals.ValidateInt(rest[..n]).Ok?
    ensures IntLiterals.StrictIntLen(rest[..k]) == Some(n)
  {
    IndexOfFacts(rest, '\n');
    IntLiterals.MatchIntLexeme(rest, n);
    IntLiterals.StrictIntRematch(rest, n, k);
  }

  /** EmittedSpan for an accepted float literal. */
  lemma FloatSpan(rest: string, n: nat, k: nat)
    requires FloatLiterals.MatchFloat(rest) == Some(n) && k == IndexOf(rest, '\n')
    requires FloatLiterals.ValidateFloat(rest[..n]).Ok?
    ensures FloatLiterals.StrictFloatLen(rest[..k], false) == Some(n)
  {
    IndexOfFacts(rest, '\n');
    FloatLiterals.MatchFloatLexeme(rest, n);
    FloatLiterals.FloatAcceptance(rest[..n]);
    FloatLiterals.StrictFloatRematch(rest, n, k);
  }

  /** EmittedSpan carried over to the token NextFrom pulls. */
  lemma {:induction false} NextTokenSpan(source: string, c: Cursor)
    requires c.pos <= |source| && NextFrom(source, c).token.Some?
    ensures var r := NextFrom(source, c); var tok := r.token.value;
      && tok.lexpos + Positions.OriginalLength(tok, source) == r.next.pos
      && source[tok.lexpos..r.next.pos] == Lexeme(tok)
    decreases |source| - c.pos
  {
    var st := StepAt(source, c);
    if st.outcome.Emitted? {
      EmittedSpan(source, c);
    } else {
      NextTokenSpan(source, st.next);
    }
  }

  /**
   * `>=`, `<=`, `==`, `&&` and `||` scan as one token of the two-character operator, and
   * the scan resumes after both characters.
   */
  lemma OperatorStep(source: string, c: Cursor, o: Operator)
    requires c.pos < |source| && o in {Ge, Le, Eq, And, Or} && StartsWith(source[c.pos..], OpText(o))
    ensures StepAt(source, c) ==
      Stepped(Cursor(c.pos + 2, c.line), Emitted(Token(Op(o), TextVal(OpText(o)), None, c.line, c.pos)))
  {
    var rest := source[c.pos..];
    TwoCharOperatorsWin(rest, o);
    assert rest[0] == rest[..2][0];
    assert rest[..2] == OpText(o);
    RuleStep(source, c, Symbol(o), 2);
  }

  /**
   * A quoted character other than the apostrophe scans as one `CHAR_VALUE` token holding
   * that character, with the three quoted characters as lexeme; the scan resumes after
   * the closing apostrophe and the line counter does not move, even for a quoted line break.
   */
  lemma CharStep(source: string, c: Cursor, x: char)
    requires c.pos + 3 <= |source| && source[c.pos..c.pos + 3] == ['\'', x, '\''] && x != '\''
    ensures StepAt(source, c) ==
      Stepped(Cursor(c.pos + 3, c.line), Emitted(Token(CharValue, CharVal(x), Some(['\'', x, '\'']), c.line, c.pos)))
  {
    var rest := source[c.pos..];
    var q := ['\'', x, '\''];
    assert rest == q + rest[3..] by {
      assert rest[..3] == source[c.pos..c.pos + 3];
    }
    CharLiterals.CharRoundTrip(x, rest[3..]);
    assert '\'' in rest[1..] by {
      assert rest[1..][1] == '\'';
    }
    CharWins(rest);
    assert rest[..3] == q;
    RuleStep(source, c, CharLit, 3);
  }

  /**
   * An identifier-shaped word that the text does not continue scans as one token of
   * the word's reserved type, or `ID`, holding the word itself.
   */
  lemma WordStep(source: string, c: Cursor, w: string)
    requires c.pos < |source| && IsIdentifier(w) && StartsWith(source[c.pos..], w)
    requires c.pos + |w| == |source| || !InClass(source[c.pos + |w|], IdChar)
    ensures StepAt(source, c) ==
      Stepped(Cursor(c.pos + |w|, c.line), Emitted(Token(ClassifyWord(w), TextVal(w), Some(w), c.line, c.pos)))
  {
    WordMatch(source[c.pos..], w);
    RuleStep(source, c, Ident, |w|);
  }

  lemma WordMatch(rest: string, w: string)
    requires IsIdentifier(w) && StartsWith(rest, w)
    requires |w| == |rest| || !InClass(rest[|w|], IdChar)
    ensures Dispatch(rest) == Some((Ident, |w|)) && rest[..|w|] == w
  {
    assert rest[0] == w[0];
    IdentWins(rest);
    forall m | 0 <= m < |w| ensures InClass(rest[m], IdChar) {
      assert rest[m] == w[m];
    }
    RunEndIs(rest, 1, |w|, IdChar);
  }

  /** StepAt where the rule `rule` wins with `n` characters. */
  lemma RuleStep(source: string, c: Cursor, rule: Rule, n: nat)
    requires c.pos < |source| && source[c.pos] !in Ignored
    requires Dispatch(source[c.pos..]) == Some((rule, n))
    ensures StepAt(source, c) ==
      Stepped(Cursor(c.pos + n, c.line + LinesAdded(rule, source[c.pos..][..n])), Apply(rule, source[c.pos..], n, c))
  {
  }

  /**
   * The decimal numeral of `n` scans as one integer token of value `n` whose lexeme is
   * the numeral whenever the next character cannot extend it: for `n > 0` anything but a
   * digit, a dot or `e` (so `12a` gives the integer `12` and then the word `a`), for
   * `0` anything but a letter, a digit or a dot.
   */
  lemma DecimalStep(source: string, c: Cursor, n: nat)
    requires c.pos < |source| && StartsWith(source[c.pos..], Numerals.ShowBase(10, n))
    requires var e := c.pos + |Numerals.ShowBase(10, n)|;
      e == |source| || Stops(source[e], n == 0)
    ensures var d := Numerals.ShowBase(10, n);
      StepAt(source, c) == Stepped(Cursor(c.pos + |d|, c.line), Emitted(Token(IntValue, IntVal(n), Some(d), c.line, c.pos)))
  {
    var d := Numerals.ShowBase(10, n);
    DecimalMatch(source[c.pos..], n);
    DecimalApply(source[c.pos..], c, n);
    RuleStep(source, c, IntLit, |d|);
  }

  /** The integer rule applied to a canonical decimal numeral yields its value. */
  lemma DecimalApply(rest: string, c: Cursor, n: nat)
    requires var d := Numerals.ShowBase(10, n);
      Dispatch(rest) == Some((IntLit, |d|)) && rest[..|d|] == d
    ensures var d := Numerals.ShowBase(10, n);
      Apply(IntLit, rest, |d|, c) == Emitted(Token(IntValue, IntVal(n), Some(d), c.line, c.pos))
  {
    IntLiterals.DecimalRoundTrip(n);
  }

  /**
   * A character that ends a decimal numeral's token: it starts neither a fraction nor an
   * exponent nor more digits, and after a lone `0` no letter the octal alternative would take.
   */
  predicate Stops(c: char, zero: bool) {
    !IsDigit(c) && c != '.' && c != 'e' && (zero ==> !IsLetter(c))
  }

  lemma DecimalMatch(rest: string, n: nat)
    requires StartsWith(rest, Numerals.ShowBase(10, n))
    requires var e := |Numerals.ShowBase(10, n)|;
      e == |rest| || Stops(rest[e], n == 0)
    ensures var d := Numerals.ShowBase(10, n);
      Dispatch(rest) == Some((IntLit, |d|)) && rest[..|d|] == d
  {
    var d := Numerals.ShowBase(10, n);
    DecimalPrefix(rest, d);
    IntWhenNotFloat(rest);
    DecimalLength(rest, d, n == 0);
    assert rest[..|d|] == d;
  }

  /** MatchInt on a text that starts with a canonical decimal numeral and then stops. */
  lemma DecimalLength(rest: string, d: string, zero: bool)
    requires |d| > 0 && StartsWith(rest, d) && RunEnd(rest, 0, Digit) == |d|
    requires zero <==> d[0] == '0'
    requires zero ==> |d| == 1 && (|rest| == 1 || !InClass(rest[1], Alnum))
    ensures IntLiterals.MatchInt(rest) == Some(|d|)
  {
    assert rest[0] == d[0];
    if zero {
      IntLiterals.ZeroLength(rest);
    } else {
      IntLiterals.NonzeroLength(rest, |d|);
    }
  }

  /** The digit run at the start of a text that begins with a numeral and then stops. */
  lemma DecimalPrefix(rest: string, d: string)
    requires |d| > 0 && StartsWith(rest, d) && Numerals.IsNumeral(d, 10)
    requires |d| == |rest| || (!IsDigit(rest[|d|]) && rest[|d|] != '.' && rest[|d|] != 'e')
    ensures RunEnd(rest, 0, Digit) == |d| && IsDigit(rest[0])
    ensures FloatLiterals.MatchFloat(rest).None?
  {
    forall q | 0 <= q < |d| ensures IsDigit(rest[q]) {
      assert rest[q] == d[q];
      assert Numerals.DigitValue(d[q]) < 10;
    }
    RunEndIs(rest, 0, |d|, Digit);
  }

  /**
   * The strict float pattern of `get_original_length` as written also accepts an
   * upper-case exponent marker, which the scanner's own pattern does not: on `1.5E3`
   * the scanner emits the float `1.5`, three characters long, while the as-written
   * length reaches over `E3` to 5. The corrected length is 3.
   */
  lemma UpperCaseExponentOverreach()
    ensures var source := "1.5E3"; var r := StepAt(source, Cursor(0, 1));
      && r == Stepped(Cursor(3, 1), Emitted(Token(FloatValue, FloatVal("1.5"), Some("1.5"), 1, 0)))
      && Positions.OriginalLengthAsWritten(r.outcome.tok, source) == 5
      && Positions.OriginalLength(r.outcome.tok, source) == 3
  {
    OverreachStep();
    OverreachLength();
  }

  lemma OverreachStep()
    ensures StepAt("1.5E3", Cursor(0, 1)) == Stepped(Cursor(3, 1), Emitted(Token(FloatValue, FloatVal("1.5"), Some("1.5"), 1, 0)))
  {
    var source := "1.5E3";
    OverreachMatch();
    FloatBeforeInt(source);
    OverreachValid();
    assert source[0..] == source;
    assert source[..3] == "1.5";
  }

  lemma OverreachLength()
    ensures var tok := Token(FloatValue, FloatVal("1.5"), Some("1.5"), 1, 0);
      Positions.OriginalLengthAsWritten(tok, "1.5E3") == 5 && Positions.OriginalLength(tok, "1.5E3") == 3
  {
    var source := "1.5E3";
    var tok := Token(FloatValue, FloatVal("1.5"), Some("1.5"), 1, 0);
    OverreachStrict();
    assert Positions.Segment(source, 0) == source by {
      IndexOfIs(source, '\n', 5);
      assert source[0..] == source;
    }
    FloatLength(tok, source, true, 5);
    FloatLength(tok, source, false, 3);
  }

  /** An integer token's length is what the strict pattern matches on the rest of its line. */
  lemma IntLength(tok: Token, source: string, n: nat)
    requires tok.kind == IntValue && IntLiterals.StrictIntLen(Positions.Segment(source, tok.lexpos)) == Some(n)
    ensures Positions.OriginalLength(tok, source) == n
  {
  }

  /** A float token's length is what the strict pattern matches on the rest of its line. */
  lemma FloatLength(tok: Token, source: string, upper: bool, n: nat)
    requires tok.kind == FloatValue && FloatLiterals.StrictFloatLen(Positions.Segment(source, tok.lexpos), upper) == Some(n)
    ensures Positions.OriginalLengthWith(tok, source, upper) == n
  {
  }

  lemma OverreachMatch()
    ensures FloatLiterals.MatchFloat("1.5E3") == Some(3)
  {
    var s := "1.5E3";
    RunEndIs(s, 0, 1, Digit);
    RunEndIs(s, 2, 3, Digit);
  }

  lemma OverreachValid()
    ensures FloatLiterals.ValidateFloat("1.5") == Ok("1.5")
  {
    var L := "1.5";
    IndexOfIs(L, '.', 1);
    IndexOfIs(L, 'e', 3);
    IndexOfIs(L[2..], '.', 1);
    IndexOfIs(L[2..], 'e', 1);
  }

  lemma OverreachStrict()
    ensures FloatLiterals.StrictFloatLen("1.5E3", true) == Some(5)
    ensures FloatLiterals.StrictFloatLen("1.5E3", false) == Some(3)
  {
    var s := "1.5E3";
    RunEndIs(s, 0, 1, Digit);
    RunEndIs(s, 2, 3, Digit);
    RunEndIs(s, 4, 5, Digit);
  }

  /** NextFrom at a cursor before the end, in terms of the step taken there. */
  lemma NextAfterStep(source: string, c: Cursor)
    requires c.pos < |source|
    ensures var st := StepAt(source, c); var p := NextFrom(source, st.next);
      NextFrom(source, c) == match st.outcome
        case Emitted(tok) => Pulled(st.next, Some(tok), [])
        case Rejected(d) => Pulled(p.next, p.token, [d] + p.diagnostics)
        case _ => p
  {
  }

  /**
   * The count of line breaks consumed so far, less those inside character literals,
   * keeps up with a line counter that advances as StepLines says across the
   * text from `p` to `e`.
   */
  lemma CountAcross(source: string, p: nat, e: nat, line: nat, line2: nat, quoted: nat)
    requires p < e <= |source| && line + quoted == 1 + CountOf(source[..p], '\n')
    requires line2 == line + if source[p] == '\'' then 0 else CountOf(source[p..e], '\n')
    ensures line2 + quoted + (if source[p] == '\'' then CountOf(source[p..e], '\n') else 0)
      == 1 + CountOf(source[..e], '\n')
  {
    assert source[..e] == source[..p] + source[p..e];
    CountOfAppend(source[..p], source[p..e], '\n');
  }

  /**
   * The line breaks a step consumes inside a character literal, which the line counter
   * misses: all those consumed by a step at an apostrophe, none otherwise.
   */
  function StepQuotedBreaks(source: string, c: Cursor): (n: nat)
    requires c.pos < |source|
    ensures n <= CountOf(source[c.pos..StepAt(source, c).next.pos], '\n')
    ensures source[c.pos] != '\'' ==> n == 0
  {
    if source[c.pos] == '\'' then CountOf(source[c.pos..StepAt(source, c).next.pos], '\n') else 0
  }

  /** StepQuotedBreaks summed over the steps NextFrom takes from `c`. */
  function PullQuotedBreaks(source: string, c: Cursor): nat
    requires c.pos <= |source|
    decreases |source| - c.pos
  {
    if c.pos == |source| then 0
    else
      var st := StepAt(source, c);
      StepQuotedBreaks(source, c) + if st.outcome.Emitted? then 0 else PullQuotedBreaks(source, st.next)
  }

  /**
   * The breaks a pull consumes inside character literals are among the breaks it
   * consumes, so the line counter never runs ahead of the text.
   */
  lemma {:induction false} PullQuotedBound(source: string, c: Cursor)
    requires c.pos <= |source|
    ensures PullQuotedBreaks(source, c) <= CountOf(source[c.pos..NextFrom(source, c).next.pos], '\n')
    decreases |source| - c.pos
  {
    if c.pos < |source| {
      var st := StepAt(source, c);
      NextStop(source, c);
      if !st.outcome.Emitted? {
        PullQuotedBound(source, st.next);
        SplitCount(source, c.pos, st.next.pos, NextFrom(source, st.next).next.pos);
      }
    }
  }

  /** Where the pull from `c` stops, in terms of the step taken at `c`. */
  lemma NextStop(source: string, c: Cursor)
    requires c.pos < |source|
    ensures var st := StepAt(source, c);
      NextFrom(source, c).next == if st.outcome.Emitted? then st.next else NextFrom(source, st.next).next
  {
  }

  /** Line breaks counted across a split point. */
  lemma SplitCount(s: string, p: nat, m: nat, e: nat)
    requires p <= m <= e <= |s|
    ensures CountOf(s[p..e], '\n') == CountOf(s[p..m], '\n') + CountOf(s[m..e], '\n')
  {
    assert s[p..e] == s[p..m] + s[m..e];
    CountOfAppend(s[p..m], s[m..e], '\n');
  }

  class Scanner {
    /** The text being scanned; it never changes. */
    const source: string
    /** `lexer.lexpos`: the offset of the next character to scan. */
    var pos: nat
    /** `lexer.lineno`: the current line, starting at 1. */
    var lineno: nat
    /** The line breaks consumed inside character literals, which the line counter misses. */
    ghost var quotedBreaks: nat

    /**
     * The cursor stays within the text, and the line counter is one more than the line
     * breaks consumed so far, less those inside character literals.
     */
    ghost predicate Valid()
      reads this
    {
      pos <= |source| && lineno + quotedBreaks == 1 + CountOf(source[..pos], '\n')
    }

    function At(): Cursor
      reads this
    {
      Cursor(pos, lineno)
    }

    /** `lexer.input(text)`: scanning starts at offset 0 on line 1. */
    constructor (text: string)
      ensures source == text && pos == 0 && lineno == 1 && quotedBreaks == 0
      ensures Valid()
    {
      source := text;
      pos := 0;
      lineno := 1;
      quotedBreaks := 0;
    }

    /**
     * One step: skip an ignored character; on no match report the character and skip
     * it; otherwise run the winning rule, move past its text and add the lines it counts.
     */
    method Step() returns (outcome: Outcome)
      requires Valid() && pos < |source|
      modifies this
      ensures Valid()
      ensures StepAt(source, old(At())) == Stepped(At(), outcome)
      ensures quotedBreaks == old(quotedBreaks) + StepQuotedBreaks(source, old(At()))
    {
      ghost var before := At();
      var rest := source[pos..];
      if rest[0] in Ignored {
        pos := pos + 1;
        outcome := Skipped;
      } else {
        var rule := Dispatch(rest);
        if rule.None? {
          outcome := Rejected(Diagnostic(IllegalCharacter, [rest[0]], lineno));
          pos := pos + 1;
        } else {
          var (r, n) := rule.value;
          outcome := Apply(r, rest, n, At());
          lineno := lineno + LinesAdded(r, rest[..n]);
          pos := pos + n;
        }
      }
      assert StepAt(source, before) == Stepped(At(), outcome);
      StepLines(source, before);
      CountAcross(source, before.pos, pos, before.line, lineno, quotedBreaks);
      if source[before.pos] == '\'' {
        quotedBreaks := quotedBreaks + CountOf(source[before.pos..pos], '\n');
      }
    }

    /**
     * `lexer.token()`: step until a rule emits a token or the text ends; the
     * diagnostics reported on the way are returned in order.
     */
    method Next() returns (token: Option<Token>, diagnostics: seq<Diagnostic>)
      requires Valid()
      modifies this
      ensures Valid()
      ensures NextFrom(source, old(At())) == Pulled(At(), token, diagnostics)
      ensures quotedBreaks == old(quotedBreaks) + PullQuotedBreaks(source, old(At()))
    {
      ghost var start := At();
      ghost var quoted := quotedBreaks;
      token := None;
      diagnostics := [];
      while pos < |source|
        invariant Valid()
        invariant var p := NextFrom(source, At()); NextFrom(source, start) == Pulled(p.next, p.token, diagnostics + p.diagnostics)
        invariant quoted + PullQuotedBreaks(source, start) == quotedBreaks + PullQuotedBreaks(source, At())
        decreases |source| - pos
      {
        ghost var before := At();
        var outcome := Step();
        NextAfterStep(source, before);
        match outcome {
          case Emitted(tok) =>
            token := Some(tok);
            return;
          case Rejected(d) =>
            diagnostics := diagnostics + [d];
          case _ =>
        }
      }
    }
  }
}
