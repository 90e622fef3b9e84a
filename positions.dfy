/**
 * Position helpers over the whole source text: the column of an offset, and the
 * length a token occupies in the source text.
 */
module Positions {
  import opened Wrappers
  import opened Text
  import opened Tokens
  import IntLiterals
  import FloatLiterals

  /**
   * `find_column`: the distance from the character after the last line break before
   * `lexpos` (or from the start of the text) to `lexpos`. Python's `rfind` already
   * reports a missing line break as -1, so the source's guard for that case changes
   * nothing.
   */
  function FindColumn(source: string, lexpos: nat): (col: nat)
    ensures col <= lexpos
    ensures lexpos <= |source| ==> '\n' !in source[lexpos - col..lexpos]
    ensures lexpos <= |source| ==> lexpos - col == 0 || source[lexpos - col - 1] == '\n'
    ensures col == 0 <==> lexpos == 0 || (lexpos <= |source| && source[lexpos - 1] == '\n')
  {
    var lastBreak := LastIndexBefore(source, '\n', lexpos);
    lexpos - lastBreak - 1
  }

  /**
   * Along a stretch of text without line breaks the column grows with the offset, so
   * a token that does not cross a line ends `length` columns after it starts.
   */
  lemma ColumnAdvance(source: string, p: nat, q: nat)
    requires p <= q <= |source| && '\n' !in source[p..q]
    ensures FindColumn(source, q) == FindColumn(source, p) + (q - p)
  {
    var a, b := LastIndexBefore(source, '\n', p), LastIndexBefore(source, '\n', q);
    forall m | p <= m < q ensures source[m] != '\n' {
      assert source[p..q][m - p] == source[m];
    }
    assert a >= 0 ==> source[a] == '\n';
    assert b >= 0 ==> source[b] == '\n';
    assert b < p;
    assert a == b;
  }

  /** `source.find('\n', p)`, or the length of the text when no line break follows `p`. */
  function LineEnd(source: string, p: nat): (e: nat)
    ensures p <= |source| ==> p <= e <= |source| && '\n' !in source[p..e]
    ensures p <= |source| ==> e == |source| || source[e] == '\n'
    ensures p > |source| ==> e == |source|
  {
    if p <= |source| then
      var k := IndexOf(source[p..], '\n');
      IndexOfFacts(source[p..], '\n');
      assert source[p..p + k] == source[p..][..k];
      p + k
    else |source|
  }

  /** The rest of the line from `p`: `source[p:line_end]`, empty when `p` is past the end. */
  function Segment(source: string, p: nat): (seg: string)
    ensures p <= |source| ==> seg == source[p..LineEnd(source, p)]
    ensures p > |source| ==> seg == []
    ensures '\n' !in seg
    ensures p <= |source| ==> p + |seg| == |source| || source[p + |seg|] == '\n'
  {
    if p <= |source| then source[p..LineEnd(source, p)] else []
  }

  /**
   * `get_original_length` with the float pattern's exponent marker set chosen by
   * `upper` (the source uses `[eE]`): an integer or float literal is re-matched with
   * the strict pattern on the rest of its line, a character literal is 3 long, and
   * anything else, or a literal the strict pattern does not match, is as long as its
   * printed value.
   */
  function OriginalLengthWith(tok: Token, source: string, upper: bool): (n: nat)
    ensures tok.kind == CharValue ==> n == 3
    ensures tok.kind !in {IntValue, FloatValue, CharValue} ==> n == |Display(tok.value)|
    ensures tok.kind in {IntValue, FloatValue} && tok.lexpos <= |source| && n != |Display(tok.value)| ==>
      0 < n && tok.lexpos + n <= |source| && '\n' !in source[tok.lexpos..tok.lexpos + n]
  {
    var segment := Segment(source, tok.lexpos);
    var strict := match tok.kind
      case IntValue => IntLiterals.StrictIntLen(segment)
      case FloatValue => FloatLiterals.StrictFloatLen(segment, upper)
      case _ => None;
    if tok.kind == CharValue then 3
    else if strict.Some? then
      if tok.lexpos <= |source| then
        StayOnLine(source, tok.lexpos, strict.value);
        strict.value
      else strict.value
    else |Display(tok.value)|
  }

  /** A prefix of the line segment at `p` holds no line break. */
  lemma StayOnLine(source: string, p: nat, n: nat)
    requires p <= |source| && n <= |Segment(source, p)|
    ensures p + n <= |source| && '\n' !in source[p..p + n]
  {
    var line, prefix := source[p..LineEnd(source, p)], source[p..p + n];
    forall m | 0 <= m < n ensures prefix[m] != '\n' {
      assert prefix[m] == line[m];
    }
  }

  /** `get_original_length` as written, with `[eE]` in the strict float pattern. */
  function OriginalLengthAsWritten(tok: Token, source: string): (n: nat)
    ensures tok.kind != FloatValue ==> n == OriginalLengthWith(tok, source, false)
  {
    OriginalLengthWith(tok, source, true)
  }

  /**
   * `get_original_length` with the strict float pattern's marker agreeing with the
   * scanner's (`e` only).
   */
  function OriginalLength(tok: Token, source: string): (n: nat)
    ensures tok.kind == CharValue ==> n == 3
  {
    OriginalLengthWith(tok, source, false)
  }
}
