/**
 * Character literals: the `'[^']*'` pattern and the validator that accepts exactly one
 * character between the quotes.
 */
module CharLiterals {
  import opened Wrappers
  import opened Text
  import opened Tokens

  /**
   * `'[^']*'`: an apostrophe, every following non-apostrophe, and the next apostrophe;
   * no match when the literal is never closed.
   */
  function MatchChar(s: string): (r: Option<nat>)
    ensures r.Some? <==> |s| > 0 && s[0] == '\'' && '\'' in s[1..]
    ensures r.Some? ==> 2 <= r.value <= |s| && s[r.value - 1] == '\''
    ensures r.Some? ==> forall q :: 0 < q < r.value - 1 ==> s[q] != '\''
  {
    if |s| > 0 && s[0] == '\'' then
      var q := RunEnd(s, 1, NotQuote);
      if q < |s| then Some(q + 1)
      else
        assert forall m :: 0 <= m < |s[1..]| ==> s[1..][m] == s[m + 1];
        None
    else None
  }

  /**
   * The `CHAR_VALUE` validator on the matched text: the text between the first and
   * the last character (Python's `lexeme[1:-1]`) must be exactly one character.
   */
  function ValidateChar(lexeme: string): (r: Result<char, ErrorKind>)
    ensures r.Ok? <==> |lexeme| == 3
    ensures r.Ok? ==> r.value == lexeme[1]
    ensures r == Err(EmptyChar) <==> |lexeme| <= 2
    ensures r == Err(MultiChar) <==> |lexeme| > 3
  {
    var content := if |lexeme| >= 2 then lexeme[1..|lexeme| - 1] else [];
    if |content| == 0 then Err(EmptyChar)
    else if |content| > 1 then Err(MultiChar)
    else Ok(content[0])
  }

  /**
   * Any character but the apostrophe, quoted, is matched as a three-character literal
   * and decodes to itself, whatever text follows.
   */
  lemma CharRoundTrip(c: char, rest: string)
    requires c != '\''
    ensures MatchChar(['\'', c, '\''] + rest) == Some(3)
    ensures ValidateChar(['\'', c, '\'']) == Ok(c)
  {
    var s := ['\'', c, '\''] + rest;
    assert s[1..][1] == '\'';
  }
}
