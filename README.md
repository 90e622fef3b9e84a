# A verified model of the lava scanner

This project models the scanner of the lava language (`lexer.py`), a PLY lexer, and proves
properties of the model. It covers:

- **Token rules.** The rules for operators and delimiters, integer, float and character
  literals, identifiers and reserved words, block and line comments, and line breaks.
- **Rule dispatch.** The order in which PLY tries the rules. The first rule that matches
  wins, even when a later one would match more.
- **Validators.** The literal rules' checks, which either decode the matched text or name
  one error.
- **Cursor.** The shared cursor (`lexpos`, `lineno`) that the rules advance.
- **Position helpers.** `find_column`, `get_lexeme` and `get_original_length`.

Modules, one file each:

- `Wrappers`: `Option` and `Result`.
- `Text`: character classes and greedy runs, plus `find`, `split`, `lstrip`, `rfind` and
  `count` over strings.
- `Numerals`: digit strings in bases 2, 8, 10 and 16, and their readings.
- `Tokens`: token types, the reserved-word table, token values, diagnostics and
  `get_lexeme`.
- `IntLiterals`, `FloatLiterals`, `CharLiterals`: each literal rule's pattern, written as a
  greedy matcher, with its validator and the strict pattern `get_original_length`
  re-matches.
- `Rules`: one matcher per rule, and the leftmost-first dispatch over the fixed rule order.
- `Positions`: `find_column`, the current line's segment, and `get_original_length`.
- `Lexing`: one scan step and the pull of the next token. These are stated as functions
  on a cursor value. A `Scanner` class holds `pos` and `lineno`, and its `Step` and `Next`
  methods update them in place, proved against those functions.
- `ScanExamples`: concrete literals and what the validators make of them.

Each regular expression becomes a hand-written matcher that returns the length matched at
the start of the remaining text. Python's backtracking is worked out for each alternative,
as the comments say. Every optional element after a pattern's first one is taken greedily.
The lazy comment body stops at the first `*/`.

## Model

| member | source | states |
|---|---|---|
| Tokens.ReservedTable | lexer.py:6-11 | the table pairs each of the sixteen keywords with exactly one word, its spelling, and reserves no other word |
| Tokens.ReservedAreLowerIdentifiers | lexer.py:6-11 | every reserved word is an all-lower-case identifier, so the identifier rule can produce each one |
| Tokens.ClassifyWord | lexer.py:173 | `reserved.get(text, 'ID')`: a text gets type `ID` exactly when it is not in the table, and a reserved word gets `Kw(Reserved[text])`, the keyword spelled as the text |
| Tokens.Display | lexer.py:223 | `str(value)`: an integer prints as a decimal numeral that reads back as the integer, with a leading `0` only for zero; a character prints as one character |
| Tokens.Lexeme | lexer.py:219-223 | `get_lexeme`: the stored lexeme when there is one; otherwise, for an integer, a decimal numeral that reads back as the value |
| Tokens.UpperCaseIsIdentifier | lexer.py:173 | the lookup is case-sensitive: a text holding an upper-case letter is classified `ID` |
| Numerals.ShowBase | lexer.py:223 | `str(n)` and its base-2/8/16 analogues: a non-empty numeral of the base, starting with `0` exactly when `n` is 0 |
| Numerals.ReadShow | lexer.py:122-147 | `int(digits, base)` reads the canonical numeral of `n` back as `n` |
| Numerals.LeadingZero | lexer.py:122-144 | `int(digits, base)` gives the same value with a leading `0` added, so `0b0011` and `0b11` both decode to 3 |
| IntLiterals.MatchInt | lexer.py:110 | the `INT_VALUE` pattern matches exactly when the text starts with a digit; the match is non-empty and holds no line break; PrefixedStray, PrefixedPlain, OctalStray, OctalPlain, ZeroLength and NonzeroLength below say where every alternative stops |
| IntLiterals.PrefixedStray | lexer.py:110 | after the valid digits of a `0b` or `0x` literal, the pattern takes one stray character that is neither a valid digit, whitespace nor one of `;,)}`, then every letter and digit after it |
| IntLiterals.PrefixedPlain | lexer.py:110 | a `0b` or `0x` literal whose valid digits are followed by whitespace, one of `;,)}`, or the end of the text stops after its digits |
| IntLiterals.OctalStray | lexer.py:110 | after the octal digits of a literal starting with `0`, the pattern takes one `8` or `9`, then every letter and digit after it |
| IntLiterals.OctalPlain | lexer.py:110 | after a `0` that does not begin `0b` or `0x`, the pattern takes every following letter and digit and stops before anything else: `017)` gives 3, `0abc;` gives 4 |
| IntLiterals.ZeroLength | lexer.py:110 | a lone `0` before anything but a letter or digit is matched alone |
| IntLiterals.NonzeroLength | lexer.py:110 | a literal starting with `1`-`9` is matched up to the first character that is not a digit |
| IntLiterals.ValidateInt | lexer.py:113-147 | the validator gives the incomplete-binary error exactly for `0b`, the incomplete-hex error exactly for `0x`, and the non-significant-zeros error exactly for texts starting with `00`; it never rejects a lone `0` or a decimal text (Python's 4300-digit limit on `int()` is not modelled, see Left out); BinaryDigits, HexDigits, OctalDigits and DecimalDigits give the value or the error for every text of each branch |
| IntLiterals.BinaryDigits | lexer.py:114-122 | `0b` followed by any non-empty text decodes to the text's base-2 reading when it is all `0`/`1`, and is the invalid-binary error otherwise |
| IntLiterals.HexDigits | lexer.py:124-133 | `0x` followed by any non-empty text decodes to its base-16 reading when it is all `0-9A-F`, and is the invalid-hex error otherwise, lower-case letters included |
| IntLiterals.OctalDigits | lexer.py:135-144 | `0` followed by any non-empty text not starting with `b` or `x`: the non-significant-zeros error when the text starts with `0`, else its base-8 reading when it is all `0-7`, else the invalid-octal error |
| IntLiterals.DecimalDigits | lexer.py:146-147 | a digit string with no leading zero, or the lone `0`, takes the last branch and decodes to its decimal reading |
| IntLiterals.StrictIntLen | lexer.py:237 | the strict pattern matches exactly when the text starts with a digit, and the match fits in the text |
| IntLiterals.IntAcceptance | lexer.py:113-147 | on any text the last branch can decode, the validator accepts exactly the texts the strict pattern of lexer.py:237 matches in full, except those starting with `00` |
| IntLiterals.BinaryRoundTrip | lexer.py:114-122 | `0b` followed by the binary numeral of `n` is accepted with value `n` |
| IntLiterals.HexRoundTrip | lexer.py:124-133 | `0x` followed by the upper-case hexadecimal numeral of `n` is accepted with value `n` |
| IntLiterals.OctalRoundTrip | lexer.py:135-144 | `0` followed by the octal numeral of `n` is accepted with value `n` when `n > 0`; for `n == 0` (`00`) it is the non-significant-zeros error |
| IntLiterals.DecimalRoundTrip | lexer.py:146-147 | the decimal numeral of `n` takes the last branch and is accepted with value `n` |
| IntLiterals.MatchIntLexeme | lexer.py:110-111 | the matched text, taken alone, is matched in full again, and `int(lexeme)` in the last branch can decode it |
| IntLiterals.StrictIntRematch | lexer.py:235-238 | for an accepted integer literal, the strict pattern re-matched on any longer prefix of the remaining text finds exactly that literal |
| FloatLiterals.MatchFloat | lexer.py:76 | the `FLOAT_VALUE` pattern matches exactly when leading digits are followed by `.` or `e`, or a dot is followed by a digit; the match is non-empty and fits in the text |
| FloatLiterals.ValidateFloat | lexer.py:79-107 | the missing-integer-part error is reported exactly for a text starting with `.`; an accepted literal is kept as its own text |
| FloatLiterals.StrictFloatLen | lexer.py:241 | a strict float match is non-empty, fits in the text, and starts and ends with a digit |
| FloatLiterals.UpperMarkerMatches | lexer.py:241 | the as-written `[eE]` pattern matches every text the `[e]` pattern matches, so neither falls back to `str(value)` where the corrected one re-matches |
| FloatLiterals.ExponentChecks | lexer.py:94-103 | after the first `e`, the exponent is incomplete exactly when nothing but an optional sign follows, and fractional exactly when the exponent took a `.digits` part |
| FloatLiterals.FractionField | lexer.py:85-91 | the missing-decimal-part check fails exactly when no digit lies between the dot and the exponent marker or the end |
| FloatLiterals.ValidateWithDot | lexer.py:84-103 | on a matched `digits.` literal, the last three checks pass exactly when fraction digits are present and any exponent is a signed digit run that fills the rest |
| FloatLiterals.ValidateWithoutDot | lexer.py:79-103 | on a matched `digits e` literal, the validator accepts exactly when a signed digit run fills the rest |
| FloatLiterals.FloatAcceptance | lexer.py:75-107 | on a text the pattern matched in full, the validator accepts exactly when the strict pattern with the scanner's lower-case `e` matches it in full |
| FloatLiterals.MatchFloatLexeme | lexer.py:76-77 | the matched text, taken alone, is matched in full again, and it holds no line break |
| FloatLiterals.StrictFloatRematch | lexer.py:239-242 | for a literal the strict lower-case pattern accepts, that pattern re-matched on any longer prefix of the remaining text finds exactly that literal |
| CharLiterals.MatchChar | lexer.py:153 | the `'[^']*'` pattern matches exactly when an apostrophe is later closed; the match ends at the first closing apostrophe |
| CharLiterals.ValidateChar | lexer.py:154-169 | accepted exactly when the literal is 3 long, with the middle character as value; empty-char error exactly when 2 long or shorter; multi-char error exactly when longer than 3 |
| CharLiterals.CharRoundTrip | lexer.py:152-169 | any character but the apostrophe, quoted, is matched as a 3-character literal whatever follows, and decodes to itself |
| Rules.MatchIdent | lexer.py:172 | matches exactly when the text starts with a letter or underscore; the match is an identifier that the text does not continue |
| Rules.MatchBlockComment | lexer.py:180-181 | a block comment starts with `/*`, ends with the first `*/` after it, and is at least 4 long; after an unclosed `/*` no `*/` follows |
| Rules.CloseAfter | lexer.py:181 | the lazy block-comment body ends at the first `*/` after the opening `/*`; no `*/` lies before it |
| Rules.MatchLineComment | lexer.py:186 | the pattern matches exactly at `//`; a line comment holds no line break and stops at the line break or at the end of the text |
| Rules.MatchNewlines | lexer.py:193 | the pattern matches exactly at a line break; a line-break run holds only line breaks and is not followed by another |
| Rules.FirstMatch | lexer.py:33-194 | the first rule in order that matches wins: every earlier rule fails, and nothing wins when every rule fails |
| Rules.Dispatch | lexer.py:33-194 | the winning rule matches the text with the length reported |
| Rules.DispatchFails | lexer.py:204-206 | no rule matches exactly at an illegal character: not an operator or delimiter, digit, letter, underscore or line break, not a doubled `&` or `\|`, and not an apostrophe that is closed later |
| Rules.TwoCharOperatorsWin | lexer.py:33-51 | `>=`, `<=`, `==`, `&&` and `\|\|` always scan as one two-character operator |
| Rules.FloatBeforeInt | lexer.py:75-76 | a number is a float whenever the float pattern matches, whatever an integer reading would give |
| Rules.IntWhenNotFloat | lexer.py:109-110 | where the float pattern fails, a leading digit starts an integer literal |
| Rules.IdentWins | lexer.py:171-172 | a letter or underscore always starts an identifier or reserved word |
| Rules.CommentsWin | lexer.py:180-187 | `//` always dispatches to the line-comment rule, and `/*` closed later to the block-comment rule, never to the `/` and `*` operators |
| Rules.NewlinesWin | lexer.py:192-194 | a line break always dispatches to the line-break rule |
| Rules.CharWins | lexer.py:152-153 | an apostrophe closed later always dispatches to the character-literal rule |
| Positions.FindColumn | lexer.py:212-216 | the column is at most `lexpos`; the text from the column's start to `lexpos` holds no line break and starts the text or follows one; the column is 0 exactly at the text's start or right after a line break |
| Positions.ColumnAdvance | lexer.py:212-216 | along a stretch without line breaks the column grows by the distance travelled |
| Positions.LineEnd | lexer.py:230-232 | `source.find('\n', lexpos)`, with a missing break read as the text's length: no break before it, and a break or the end at it |
| Positions.Segment | lexer.py:230-233 | `source[lexpos:line_end]`: a part of the text with no line break, ending at a line break or at the end of the text |
| Positions.OriginalLengthWith | lexer.py:226-246 | a character literal is 3 long; a non-literal token is as long as its printed value; a re-matched literal length lies on the token's line |
| Positions.OriginalLengthAsWritten | lexer.py:226-246 | the `[eE]` version agrees with the corrected one on every token that is not a float |
| Positions.OriginalLength | lexer.py:243-244 | the corrected length; a character literal is 3 long |
| Lexing.Apply | lexer.py:75-194 | a token carries the cursor's line and offset; a diagnostic carries the matched text and the line; exactly the comment and line-break rules produce nothing; ApplyOutcome states what every other rule produces |
| Lexing.ApplyOutcome | lexer.py:33-175 | an operator rule always emits a token of its own type holding its text; the ID rule always emits `reserved.get(text, 'ID')` with the text as lexeme; each literal rule emits exactly when its validator accepts, with the validator's value, and otherwise reports the validator's error |
| Lexing.StepAt | lexer.py:199-206 | every step consumes at least one character and stays within the text |
| Lexing.NextFrom | lexer.py:199-206 | the pull stops at a token that starts where scanning resumed or later, or at the end of the text when there is none |
| Lexing.NewlineRunCount | lexer.py:194 | a run of line breaks holds as many line breaks as characters, so `len(t.value)` counts them |
| Lexing.LinesAdded | lexer.py:182-194 | a rule never adds more lines than its text is long; for a run of line breaks, `len(t.value)` is its count of line breaks; any other rule adds at most the line breaks in its text |
| Lexing.StepLines | lexer.py:180-206 | a step adds to the line counter exactly the line breaks it consumes, except a step at an apostrophe, which adds none |
| Lexing.RuleLines | lexer.py:180-194 | the lines each rule adds are the line breaks in its matched text, except for a character literal, the rule that starts with an apostrophe |
| Lexing.QuietSteps | lexer.py:185-206 | whitespace and illegal characters move the cursor one character and leave the line alone; a skipped whitespace step happens exactly at an ignored character; a line comment stops before the line break |
| Lexing.EmittedSpan | lexer.py:219-246 | an emitted token starts at the cursor on the cursor's line; its original length reaches exactly to where the scan stopped; the source text it covers is `get_lexeme` of the token |
| Lexing.NextTokenSpan | lexer.py:219-246 | EmittedSpan for every token the pull returns |
| Lexing.OperatorStep | lexer.py:33-51 | `>=`, `<=`, `==`, `&&` and `||` each scan as one token of that operator, and the scan resumes two characters on |
| Lexing.CharStep | lexer.py:152-169 | a quoted character other than the apostrophe scans as one `CHAR_VALUE` token holding the character, with the three characters as lexeme; the scan resumes three characters on and the line counter stays put |
| Lexing.WordStep | lexer.py:171-175 | an identifier-shaped word that the text does not continue scans as one token of its reserved type or `ID`, holding the word as value and lexeme |
| Lexing.DecimalStep | lexer.py:110-150 | the decimal numeral of `n` scans as one integer token of value `n` whose lexeme is the numeral when the next character is not a digit, a dot or `e` (and, after a lone `0`, not a letter): `12a` gives the integer `12` |
| Lexing.UpperCaseExponentOverreach | lexer.py:241 | on `1.5E3` the scanner emits the float `1.5`; the length as written is 5, the corrected length 3 |
| Lexing.Scanner.constructor | lexer.py:209 | scanning starts at offset 0 on line 1 |
| Lexing.StepQuotedBreaks | lexer.py:153 | the line breaks a step hides inside a character literal are among those it consumes, and only a step at an apostrophe hides any |
| Lexing.PullQuotedBound | lexer.py:153 | the line breaks a pull hides inside character literals are among those it consumes |
| Lexing.Scanner.Step | lexer.py:180-206 | one step updates `pos` and `lineno` as StepAt says; the ghost count of hidden line breaks grows by StepQuotedBreaks; the line counter is then 1 plus the line breaks consumed, less the hidden ones |
| Lexing.Scanner.Next | lexer.py:199-206 | the loop steps until a token is emitted or the text ends, returning the diagnostics in order, as NextFrom says; the hidden-break count grows by PullQuotedBreaks |
| Text.IndexOfFacts | lexer.py:230 | `find` returns the first occurrence, or the length when there is none |
| Text.LStripFacts | lexer.py:100 | `lstrip('+-')` removes the longest prefix of signs |
| Text.LastIndexBefore | lexer.py:213 | `rfind('\n', 0, lexpos)` is the last index below `lexpos` that holds a line break, or -1 |
| ScanExamples.IntegerValues | lexer.py:114-144 | `0b1010` is 10, `0x1A` is 26, `017` is 15 |
| ScanExamples.IntegerErrors | lexer.py:124-143 | `0x1a` is hex-invalid, `007` is non-significant zeros, `089` is octal-invalid |
| ScanExamples.LeadingZeroDigits | lexer.py:114-133 | `0b0011` decodes to 3 and `0x00FF` to 255 |
| ScanExamples.OctalMatches | lexer.py:110-144 | `017)` matches 3 characters, `0abc;` 4 and `017abc` 6, and `017abc` is then octal-invalid |
| ScanExamples.StrayCharacters | lexer.py:110 | `0b+` matches 3 characters, `0x1A.` 5, `0x1a;` 4, `089` 3, `0b1;` 3, and `0b1+` 4 |
| ScanExamples.HexStrayStep | lexer.py:109-133 | a scan step at `0x1A.` reports `0x1A.` as hexadecimal-invalid on line 1 and resumes at offset 5 |
| ScanExamples.BinaryStrayStep | lexer.py:109-122 | a scan step at `0b+` reports `0b+` as binary-invalid on line 1 and resumes at offset 3 |
| ScanExamples.FloatErrors | lexer.py:80-103 | `.5`, `5.`, `5e` and `5e1.2` each fail a different one of the four float checks |
| ScanExamples.CharacterLiterals | lexer.py:155-169 | `'a'` is accepted as `a`; `''` is empty; `'ab'` has several characters |

## Left out

- main.py is not part of this model. It is the command-line driver: argument checks, file
  reading and writing, and the `.token` output lines.
- PLY itself (`lex.lex()`, the master regular expression, `lexer.input`, `lexer.token`) is
  a library. Its behaviour on this rule set is restated: function rules in definition
  order, then the one-character string rules, first match wins, `t_ignore` checked first,
  `t_error` skipping one character. PLY sorts the string rules by decreasing pattern
  length. All of them match distinct single characters, so their order is not modelled
  and changes nothing.
- `float(lexeme)` (lexer.py:106): no floating point. A float token's `FloatVal` keeps the
  literal text.
  - So `str(tok.value)` for a float is the literal, not Python's printing of the number.
  - This matters only where the source falls back to `str(tok.value)` for a float.
  - That never happens for an emitted token: every float token stores its lexeme, and
    EmittedSpan shows the corrected strict pattern always re-matches it, and
    FloatLiterals.UpperMarkerMatches shows the as-written `[eE]` pattern matches wherever
    the corrected one does.
- The `print` diagnostics become `Diagnostic` values carrying the error kind, the matched
  text and the line. Their wording is not modelled.
- `\d` is modelled as the ASCII digits `0-9`. Python's `\d` on `str` also matches other
  Unicode decimal digits.
- `\s` in the integer pattern's stray-character slot is modelled as the characters
  Python's `\s` matches.
- `col_start` (lexer.py:228) is computed and never used, so it is not modelled.
- Nothing in the repository calls `get_original_length`. It is modelled as written and
  corrected; see Findings.
- Dispatch is first-match in rule order (lexer.py:33-194): a later rule's longer match
  never wins.
- The reserved-word table holds sixteen words (lexer.py:6-11).
- An unterminated `/*` fails the block-comment rule (lexer.py:181) and scans as `DIV`,
  then `MULT`, then whatever follows.
- Lexing.StepLines: a character literal may hold a raw line break (`'[^']*'` admits one)
  that lexer.py does not count. The `Scanner` invariant keeps a ghost count of such
  breaks, and `Step` and `Next` state how that count grows.
- Character-level Unicode handling: strings are sequences of `char`, with no
  normalisation.
- ValidateInt: decodes a decimal text of any length. Since Python 3.11, `int(lexeme)`
  (lexer.py:147) raises `ValueError` on a decimal string of more than 4300 digits, and
  nothing in lexer.py catches it, so the scan stops. Bases 2, 8 and 16 have no such limit.
  The limit is a setting of the interpreter, not of lexer.py, so it is not modelled.
- DecimalDigits: decodes a decimal numeral of any length; the 4300-digit limit of the
  line above is not modelled.
- DecimalRoundTrip: holds for every `n`, including those whose decimal numeral has more
  than 4300 digits, where Python's `int()` would raise.
- DecimalStep: scans a decimal numeral of any length as one token; past 4300 digits
  Python's `int()` would stop the scan instead.

## Findings

| source | as written | input that shows it | evidently intended | confidence | as-written member | corrected member |
|---|---|---|---|---|---|---|
| lexer.py:241 | the strict float pattern of `get_original_length` uses `[eE]`, while the scanner's float pattern (lexer.py:76) and validator accept only `e` | source `1.5E3`: the scanner emits the float `1.5` (3 characters) and leaves `E3`, but the length as written is 5, reaching over `E3` | the marker set `[e]`, so the length is the 3 characters the token occupies | not executed | Positions.OriginalLengthAsWritten, with Lexing.UpperCaseExponentOverreach | Positions.OriginalLength, with Lexing.EmittedSpan |
