/**
 * The tokens of the lava language: their categories, the reserved-word table that
 * reclassifies identifiers, the decoded values tokens carry, and the diagnostics the
 * scanner reports instead of a token.
 */
module Tokens {
  import opened Wrappers
  import opened Text
  import Numerals

  datatype Keyword =
    | True | False | Int | Float | Char | Boolean | Void | Return
    | If | Else | Do | While | Print | New | Record | Break

  datatype Operator =
    | Ge | Le | Eq | And | Or
    | Plus | Minus | Mult | Div | Not | Gt | Lt | Assign
    | Semicolon | Comma | LParen | RParen | LBrace | RBrace | Dot

  /** A token's type: `ID`, a literal kind, an operator or delimiter, or a reserved word. */
  datatype TokenType = Id | IntValue | FloatValue | CharValue | Op(op: Operator) | Kw(word: Keyword)

  /**
   * A token's value. A float literal's binary value is not modelled; the literal text
   * stands in for it.
   */
  datatype Value = IntVal(n: nat) | FloatVal(literal: string) | CharVal(c: char) | TextVal(text: string)

  /**
   * A token as the rules leave it: `lexeme` is present exactly when the rule stored
   * the matched text on the token.
   */
  datatype Token = Token(kind: TokenType, value: Value, lexeme: Option<string>, line: nat, lexpos: nat)

  datatype ErrorKind =
    | IllegalCharacter
    | BinaryIncomplete | BinaryInvalid
    | HexIncomplete | HexInvalid
    | NonSignificantZeros | OctalInvalid
    | MissingIntegerPart | MissingDecimalPart | IncompleteExponent | NonIntegerExponent
    | EmptyChar | MultiChar

  /** A reported lexical error: its kind, the offending text and the line it was found on. */
  datatype Diagnostic = Diagnostic(kind: ErrorKind, text: string, line: nat)

  /** The reserved-word table: sixteen words, each keyed by its exact spelling. */
  const Reserved: map<string, Keyword> := map[
    "true" := True, "false" := False,
    "int" := Int, "float" := Float, "char" := Char, "boolean" := Boolean, "void" := Void,
    "return" := Return, "if" := If, "else" := Else, "do" := Do, "while" := While,
    "print" := Print, "new" := New, "record" := Record, "break" := Break
  ]

  /**
   * The type of an identifier-shaped text: its reserved word if it has one, else `ID`.
   * A reserved word's type is the keyword spelled exactly as the text.
   */
  function ClassifyWord(text: string): (t: TokenType)
    ensures t == Id <==> text !in Reserved
    ensures text in Reserved ==> t == Kw(Reserved[text])
    ensures t.Kw? ==> Spelling(t.word) == text
  {
    if text in Reserved then ReservedWord(text); Kw(Reserved[text]) else Id
  }

  /** Identifier shape: `[a-zA-Z_][a-zA-Z0-9_]*` over the whole text. */
  predicate IsIdentifier(s: string) {
    |s| > 0 && IsIdStart(s[0]) && AllIn(s, IdChar)
  }

  /** The spelling of each reserved word, one per keyword. */
  function Spelling(k: Keyword): string {
    match k
    case True => "true"
    case False => "false"
    case Int => "int"
    case Float => "float"
    case Char => "char"
    case Boolean => "boolean"
    case Void => "void"
    case Return => "return"
    case If => "if"
    case Else => "else"
    case Do => "do"
    case While => "while"
    case Print => "print"
    case New => "new"
    case Record => "record"
    case Break => "break"
  }

  /**
   * The table pairs each of the sixteen keywords with exactly one word, its spelling,
   * and nothing else is reserved.
   */
  lemma ReservedTable()
    ensures forall k: Keyword :: Spelling(k) in Reserved && Reserved[Spelling(k)] == k
    ensures forall w :: w in Reserved ==> Spelling(Reserved[w]) == w
  {
    forall k: Keyword ensures Spelling(k) in Reserved && Reserved[Spelling(k)] == k {
      ReservedEntry(k);
    }
    forall w | w in Reserved ensures Spelling(Reserved[w]) == w {
      ReservedWord(w);
    }
  }

  lemma ReservedEntry(k: Keyword)
    ensures Spelling(k) in Reserved && Reserved[Spelling(k)] == k
  {
    match k
    case True => case False => case Int => case Float => case Char => case Boolean =>
    case Void => case Return => case If => case Else => case Do => case While =>
    case Print => case New => case Record => case Break =>
  }

  lemma ReservedWord(w: string)
    requires w in Reserved
    ensures Spelling(Reserved[w]) == w
  {
    if w == Spelling(True) {
      ReservedEntry(True);
    } else if w == Spelling(False) {
      ReservedEntry(False);
    } else if w == Spelling(Int) {
      ReservedEntry(Int);
    } else if w == Spelling(Float) {
      ReservedEntry(Float);
    } else if w == Spelling(Char) {
      ReservedEntry(Char);
    } else if w == Spelling(Boolean) {
      ReservedEntry(Boolean);
    } else if w == Spelling(Void) {
      ReservedEntry(Void);
    } else if w == Spelling(Return) {
      ReservedEntry(Return);
    } else if w == Spelling(If) {
      ReservedEntry(If);
    } else if w == Spelling(Else) {
      ReservedEntry(Else);
    } else if w == Spelling(Do) {
      ReservedEntry(Do);
    } else if w == Spelling(While) {
      ReservedEntry(While);
    } else if w == Spelling(Print) {
      ReservedEntry(Print);
    } else if w == Spelling(New) {
      ReservedEntry(New);
    } else if w == Spelling(Record) {
      ReservedEntry(Record);
    } else {
      assert w == Spelling(Break);
      ReservedEntry(Break);
    }
  }

  /** Every reserved word is an all-lower-case identifier, so the identifier rule can produce it. */
  lemma ReservedAreLowerIdentifiers()
    ensures forall w :: w in Reserved ==> IsIdentifier(w) && forall i :: 0 <= i < |w| ==> 'a' <= w[i] <= 'z'
  {
    forall w | w in Reserved ensures IsIdentifier(w) && forall i :: 0 <= i < |w| ==> 'a' <= w[i] <= 'z' {
      ReservedWord(w);
      LowerSpelling(Reserved[w]);
    }
  }

  lemma LowerSpelling(k: Keyword)
    ensures var w := Spelling(k); IsIdentifier(w) && forall i :: 0 <= i < |w| ==> 'a' <= w[i] <= 'z'
  {
    LowerIsIdentifier(Spelling(k));
  }

  lemma LowerIsIdentifier(w: string)
    requires |w| > 0 && forall i :: 0 <= i < |w| ==> 'a' <= w[i] <= 'z'
    ensures IsIdentifier(w)
  {
  }

  /**
   * The lookup is case-sensitive: a text holding any upper-case letter is an `ID`
   * (`If`, `WHILE`), whatever it spells.
   */
  lemma UpperCaseIsIdentifier(text: string, i: nat)
    requires i < |text| && 'A' <= text[i] <= 'Z'
    ensures ClassifyWord(text) == Id
  {
    ReservedAreLowerIdentifiers();
  }

  /**
   * `str(value)`: the value's printed form. An integer prints as a decimal numeral
   * that reads back as the integer, with a leading zero only for zero.
   */
  function Display(v: Value): (s: string)
    ensures v.IntVal? ==> |s| > 0 && Numerals.IsNumeral(s, 10) && Numerals.ReadBase(10, s) == v.n && (s[0] == '0' <==> v.n == 0)
    ensures v.CharVal? ==> |s| == 1
  {
    match v
    case IntVal(n) => Numerals.ReadShow(10, n); Numerals.ShowBase(10, n)
    case FloatVal(literal) => literal
    case CharVal(c) => [c]
    case TextVal(text) => text
  }

  /**
   * `get_lexeme`: the stored lexeme when the rule kept one, otherwise the printed value.
   */
  function Lexeme(tok: Token): (s: string)
    ensures tok.lexeme.Some? ==> s == tok.lexeme.value
    ensures tok.lexeme.None? && tok.value.IntVal? ==> Numerals.IsNumeral(s, 10) && Numerals.ReadBase(10, s) == tok.value.n
  {
    if tok.lexeme.Some? then tok.lexeme.value else Display(tok.value)
  }
}
