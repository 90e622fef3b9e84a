/**
 * The lexical rules and their dispatch. Each rule is a matcher giving the length of
 * the text it matches at the start of the remaining input; the dispatcher tries the
 * rules in a fixed order and the first one that matches wins, whether or not a later
 * rule would match more.
 */
module Rules {
  import opened Wrappers
  import opened Text
  import opened Tokens
  import IntLiterals
  import FloatLiterals
  import CharLiterals

  datatype Rule =
    | Symbol(op: Operator)
    | FloatLit | IntLit | CharLit | Ident
    | BlockComment | LineComment | Newlines

  /** The exact text of each operator and delimiter. */
  function OpText(o: Operator): (t: string)
    ensures 1 <= |t| <= 2
  {
    match o
    case Ge => ">=" case Le => "<=" case Eq => "==" case And => "&&" case Or => "||"
    case Plus => "+" case Minus => "-" case Mult => "*" case Div => "/" case Not => "!"
    case Gt => ">" case Lt => "<" case Assign => "="
    case Semicolon => ";" case Comma => "," case LParen => "(" case RParen => ")"
    case LBrace => "{" case RBrace => "}" case Dot => "."
  }

  /**
   * The rule order: the rules written as functions in the order they are defined
   * (the five two-character operators, the three literals, identifiers, the two
   * comments, line breaks), then the one-character operators and delimiters.
   */
  const RuleOrder: seq<Rule> := [
    Symbol(Ge), Symbol(Le), Symbol(Eq), Symbol(And), Symbol(Or),
    FloatLit, IntLit, CharLit, Ident, BlockComment, LineComment, Newlines,
    Symbol(Plus), Symbol(Minus), Symbol(Mult), Symbol(Div), Symbol(Not),
    Symbol(Gt), Symbol(Lt), Symbol(Assign), Symbol(Semicolon), Symbol(Comma),
    Symbol(LParen), Symbol(RParen), Symbol(LBrace), Symbol(RBrace), Symbol(Dot)
  ]

  /** `[a-zA-Z_][a-zA-Z0-9_]*`. */
  function MatchIdent(s: string): (r: Option<nat>)
    ensures r.Some? <==> |s| > 0 && IsIdStart(s[0])
    ensures r.Some? ==> 0 < r.value <= |s| && IsIdentifier(s[..r.value])
    ensures r.Some? ==> r.value == |s| || !InClass(s[r.value], IdChar)
  {
    if |s| > 0 && IsIdStart(s[0]) then Some(RunEnd(s, 1, IdChar)) else None
  }

  /** The end of the first star-slash pair that starts at index `i` or later, if there is one. */
  function CloseAfter(s: string, i: nat): (r: Option<nat>)
    requires i <= |s|
    ensures r.Some? ==> i + 2 <= r.value <= |s| && s[r.value - 2] == '*' && s[r.value - 1] == '/'
    ensures forall j :: i <= j && (r.None? || j < r.value - 2) && j + 1 < |s| ==> !(s[j] == '*' && s[j + 1] == '/')
    decreases |s| - i
  {
    if i + 1 >= |s| then None
    else if s[i] == '*' && s[i + 1] == '/' then Some(i + 2)
    else CloseAfter(s, i + 1)
  }

  /**
   * The block-comment pattern: slash-star, then any text taken lazily, then star-slash.
   * The lazy body stops at the first star-slash after the opening slash-star.
   */
  function MatchBlockComment(s: string): (r: Option<nat>)
    ensures r.Some? ==> StartsWith(s, "/*") && 4 <= r.value <= |s| && s[r.value - 2] == '*' && s[r.value - 1] == '/'
    ensures r.Some? ==> forall j :: 2 <= j < r.value - 2 ==> !(s[j] == '*' && s[j + 1] == '/')
    ensures StartsWith(s, "/*") && r.None? ==> forall j :: 2 <= j < |s| - 1 ==> !(s[j] == '*' && s[j + 1] == '/')
  {
    if StartsWith(s, "/*") then CloseAfter(s, 2) else None
  }

  /** `//[^\n]*`: the comment stops before the line break. */
  function MatchLineComment(s: string): (r: Option<nat>)
    ensures r.Some? <==> StartsWith(s, "//")
    ensures r.Some? ==> 2 <= r.value <= |s| && '\n' !in s[..r.value]
    ensures r.Some? ==> r.value == |s| || s[r.value] == '\n'
  {
    if StartsWith(s, "//") then
      var e := RunEnd(s, 2, NotNewline);
      assert forall q :: 0 <= q < 2 ==> s[q] == s[..2][q];
      Some(e)
    else None
  }

  /** `\n+`. */
  function MatchNewlines(s: string): (r: Option<nat>)
    ensures r.Some? <==> |s| > 0 && s[0] == '\n'
    ensures r.Some? ==> 0 < r.value <= |s| && forall q :: 0 <= q < r.value ==> s[q] == '\n'
    ensures r.Some? ==> r.value == |s| || s[r.value] != '\n'
  {
    if |s| > 0 && s[0] == '\n' then Some(RunEnd(s, 1, NewlineChar)) else None
  }

  function MatchRule(rule: Rule, s: string): (r: Option<nat>)
    ensures r.Some? ==> 0 < r.value <= |s|
  {
    match rule
    case Symbol(o) => if StartsWith(s, OpText(o)) then Some(|OpText(o)|) else None
    case FloatLit => FloatLiterals.MatchFloat(s)
    case IntLit => IntLiterals.MatchInt(s)
    case CharLit => CharLiterals.MatchChar(s)
    case Ident => MatchIdent(s)
    case BlockComment => MatchBlockComment(s)
    case LineComment => MatchLineComment(s)
    case Newlines => MatchNewlines(s)
  }

  /** What each rule of RuleOrder matches at the start of `s`, in rule order. */
  function Attempts(s: string): (r: seq<Option<nat>>)
    ensures |r| == |RuleOrder|
  {
    seq(|RuleOrder|, j requires 0 <= j < |RuleOrder| => MatchRule(RuleOrder[j], s))
  }

  /**
   * The index of the first attempt from index `i` on that matched: every attempt
   * before it failed, and none at all matched when there is no such index.
   */
  function FirstMatch(attempts: seq<Option<nat>>, i: nat): (r: Option<nat>)
    requires i <= |attempts|
    ensures r.Some? ==> i <= r.value < |attempts| && attempts[r.value].Some?
    ensures r.Some? ==> forall j :: i <= j < r.value ==> attempts[j].None?
    ensures r.None? ==> forall j :: i <= j < |attempts| ==> attempts[j].None?
    decreases |attempts| - i
  {
    if i == |attempts| then None
    else if attempts[i].Some? then Some(i)
    else FirstMatch(attempts, i + 1)
  }

  /** The rule that wins at the start of `s`, with the length of the text it matched. */
  function Dispatch(s: string): (r: Option<(Rule, nat)>)
    ensures r.Some? ==> 0 < r.value.1 <= |s| && MatchRule(r.value.0, s) == Some(r.value.1)
  {
    var attempts := Attempts(s);
    match FirstMatch(attempts, 0)
    case Some(i) => Some((RuleOrder[i], attempts[i].value))
    case None => None
  }

  /** The rule at `k` wins when it matches and every rule before it fails. */
  lemma DispatchIs(s: string, k: nat)
    requires k < |RuleOrder| && MatchRule(RuleOrder[k], s).Some?
    requires forall j :: 0 <= j < k ==> MatchRule(RuleOrder[j], s).None?
    ensures Dispatch(s) == Some((RuleOrder[k], MatchRule(RuleOrder[k], s).value))
  {
    var attempts := Attempts(s);
    assert forall j :: 0 <= j < k ==> attempts[j].None?;
    assert attempts[k].Some?;
  }

  /** No rule wins exactly when every rule fails. */
  lemma DispatchNone(s: string)
    ensures Dispatch(s).None? <==> forall j :: 0 <= j < |RuleOrder| ==> MatchRule(RuleOrder[j], s).None?
  {
    var attempts := Attempts(s);
    assert forall j :: 0 <= j < |RuleOrder| ==> attempts[j] == MatchRule(RuleOrder[j], s);
  }

  /**
   * The text at which no rule matches, stated on its first characters: not an operator
   * or delimiter, digit, letter, underscore or line break, not a lone `&` or `|` that
   * the next character would double, and not an apostrophe that is closed later.
   */
  predicate NoRuleApplies(s: string)
    requires |s| > 0
  {
    var c := s[0];
    && !StartsWith(s, "&&") && !StartsWith(s, "||")
    && c !in {'+', '-', '*', '/', '!', '>', '<', '=', ';', ',', '(', ')', '{', '}', '.'}
    && !IsDigit(c) && !IsIdStart(c) && c != '\n'
    && !(c == '\'' && '\'' in s[1..])
  }

  /** The dispatcher finds no rule exactly where NoRuleApplies holds. */
  lemma DispatchFails(s: string)
    requires |s| > 0
    ensures Dispatch(s).None? <==> NoRuleApplies(s)
  {
    DispatchNone(s);
    if NoRuleApplies(s) {
      forall j | 0 <= j < |RuleOrder| ensures MatchRule(RuleOrder[j], s).None? {
        NoRuleAt(s, j);
      }
    } else {
      var j := SomeRuleAt(s);
      assert MatchRule(RuleOrder[j], s).Some?;
    }
  }

  lemma NoRuleAt(s: string, j: nat)
    requires |s| > 0 && NoRuleApplies(s) && j < |RuleOrder|
    ensures MatchRule(RuleOrder[j], s).None?
  {
    assert s[..1] == [s[0]];
    if j < 5 && |s| >= 2 {
      assert s[..2][0] == s[0];
    }
  }

  lemma SomeRuleAt(s: string) returns (j: nat)
    requires |s| > 0 && !NoRuleApplies(s)
    ensures j < |RuleOrder| && MatchRule(RuleOrder[j], s).Some?
  {
    var c := s[0];
    assert s[..1] == [c];
    if StartsWith(s, "&&") {
      j := 3;
    } else if StartsWith(s, "||") {
      j := 4;
    } else if IsDigit(c) {
      j := 6;
    } else if c == '\'' && '\'' in s[1..] {
      j := 7;
    } else if IsIdStart(c) {
      j := 8;
    } else if c == '\n' {
      j := 11;
    } else {
      j := SingleRuleAt(s);
    }
  }

  lemma SingleRuleAt(s: string) returns (j: nat)
    requires |s| > 0 && s[0] in {'+', '-', '*', '/', '!', '>', '<', '=', ';', ',', '(', ')', '{', '}', '.'}
    ensures j < |RuleOrder| && MatchRule(RuleOrder[j], s).Some?
  {
    var c := s[0];
    assert s[..1] == [c];
    j := if c == '+' then 12 else if c == '-' then 13 else if c == '*' then 14
      else if c == '/' then 15 else if c == '!' then 16 else if c == '>' then 17
      else if c == '<' then 18 else if c == '=' then 19 else if c == ';' then 20
      else if c == ',' then 21 else if c == '(' then 22 else if c == ')' then 23
      else if c == '{' then 24 else if c == '}' then 25 else 26;
    assert OpText(RuleOrder[j].op) == [c];
  }

  /**
   * `>=`, `<=`, `==`, `&&` and `||` always scan as one two-character operator, never as
   * a one-character operator followed by another.
   */
  lemma TwoCharOperatorsWin(s: string, o: Operator)
    requires o in {Ge, Le, Eq, And, Or} && StartsWith(s, OpText(o))
    ensures Dispatch(s) == Some((Symbol(o), 2))
  {
    assert s[..2][0] == s[0] && s[..2][1] == s[1];
    var i := match o case Ge => 0 case Le => 1 case Eq => 2 case And => 3 case Or => 4 case _ => 0;
    assert RuleOrder[i] == Symbol(o);
    assert MatchRule(RuleOrder[i], s).Some?;
    forall j | 0 <= j < i ensures MatchRule(RuleOrder[j], s).None? {
      assert s[..2] == OpText(o);
    }
    DispatchIs(s, i);
  }

  /**
   * A number is scanned as a float whenever the float pattern matches, however long an
   * integer reading would be (so `3.14` is one literal, not `3`, `.`, `14`).
   */
  lemma FloatBeforeInt(s: string)
    requires FloatLiterals.MatchFloat(s).Some?
    ensures Dispatch(s) == Some((FloatLit, FloatLiterals.MatchFloat(s).value))
  {
    assert MatchRule(RuleOrder[5], s).Some?;
    assert IsDigit(s[0]) || s[0] == '.';
    forall j | 0 <= j < 5 ensures MatchRule(RuleOrder[j], s).None? {
      if |s| >= 2 {
        assert s[..2][0] == s[0];
      }
    }
    DispatchIs(s, 5);
  }

  /** Where the float pattern fails, a leading digit starts an integer literal. */
  lemma IntWhenNotFloat(s: string)
    requires FloatLiterals.MatchFloat(s).None? && |s| > 0 && IsDigit(s[0])
    ensures Dispatch(s) == Some((IntLit, IntLiterals.MatchInt(s).value))
  {
    assert MatchRule(RuleOrder[6], s).Some?;
    forall j | 0 <= j < 6 ensures MatchRule(RuleOrder[j], s).None? {
      if |s| >= 2 {
        assert s[..2][0] == s[0];
      }
    }
    DispatchIs(s, 6);
  }

  /**
   * A letter or underscore always starts an identifier or reserved word: no earlier
   * rule can start with one (so `e5` is a name, not an exponent).
   */
  lemma IdentWins(s: string)
    requires |s| > 0 && IsIdStart(s[0])
    ensures Dispatch(s) == Some((Ident, MatchIdent(s).value))
  {
    assert MatchRule(RuleOrder[8], s).Some?;
    forall j | 0 <= j < 8 ensures MatchRule(RuleOrder[j], s).None? {
      if |s| >= 2 {
        assert s[..2][0] == s[0];
      }
    }
    DispatchIs(s, 8);
  }

  /**
   * `//` always starts a line comment, and slash-star closed by a later star-slash always starts
   * a block comment: neither is split into the `/` and `*` operators.
   */
  lemma CommentsWin(s: string)
    ensures StartsWith(s, "//") ==> Dispatch(s) == Some((LineComment, MatchLineComment(s).value))
    ensures StartsWith(s, "/*") && (exists j :: 2 <= j < |s| - 1 && s[j] == '*' && s[j + 1] == '/') ==>
      Dispatch(s) == Some((BlockComment, MatchBlockComment(s).value))
  {
    if StartsWith(s, "//") {
      SlashRulesFail(s, 10);
      DispatchIs(s, 10);
    }
    if StartsWith(s, "/*") && (exists j :: 2 <= j < |s| - 1 && s[j] == '*' && s[j + 1] == '/') {
      assert MatchBlockComment(s).Some?;
      SlashRulesFail(s, 9);
      DispatchIs(s, 9);
    }
  }

  /** Every rule before the comments fails on a text starting with `/`. */
  lemma SlashRulesFail(s: string, k: nat)
    requires |s| >= 2 && s[0] == '/' && k <= 10
    requires k == 10 ==> s[1] == '/'
    ensures forall j :: 0 <= j < k ==> MatchRule(RuleOrder[j], s).None?
  {
    assert s[..2][0] == '/';
    if k == 10 {
      assert !StartsWith(s, "/*") by {
        assert s[..2][1] == '/';
      }
    }
  }

  /** A line break always starts the run-of-line-breaks rule. */
  lemma NewlinesWin(s: string)
    requires |s| > 0 && s[0] == '\n'
    ensures Dispatch(s) == Some((Newlines, MatchNewlines(s).value))
  {
    assert MatchRule(RuleOrder[11], s).Some?;
    forall j | 0 <= j < 11 ensures MatchRule(RuleOrder[j], s).None? {
      if |s| >= 2 {
        assert s[..2][0] == s[0];
      }
    }
    DispatchIs(s, 11);
  }

  /** An apostrophe closed later always starts a character literal. */
  lemma CharWins(s: string)
    requires |s| > 0 && s[0] == '\'' && '\'' in s[1..]
    ensures Dispatch(s) == Some((CharLit, CharLiterals.MatchChar(s).value))
  {
    assert MatchRule(RuleOrder[7], s).Some?;
    forall j | 0 <= j < 7 ensures MatchRule(RuleOrder[j], s).None? {
      if |s| >= 2 {
        assert s[..2][0] == s[0];
      }
    }
    DispatchIs(s, 7);
  }
}
