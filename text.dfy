/**
 * The string primitives the lexer relies on: the character classes its regular
 * expressions use, the greedy "maximal run" that a starred class matches, and the
 * Python string methods `find`, `rfind`, `count`, `startswith` and `split`.
 */
module Text {

  /** The character classes that appear in the rules' patterns. */
  datatype CharClass =
    | Digit        // [0-9]  (\d restricted to ASCII)
    | Bin          // [01]
    | Oct          // [0-7]
    | HexUpper     // [0-9A-F]
    | Alnum        // [0-9a-zA-Z]
    | IdChar       // [a-zA-Z0-9_]
    | NotQuote     // [^']
    | NotNewline   // [^\n]
    | NewlineChar  // \n

  predicate IsDigit(c: char) { '0' <= c <= '9' }

  predicate IsLetter(c: char) { 'a' <= c <= 'z' || 'A' <= c <= 'Z' }

  /** The first character of an identifier: [a-zA-Z_]. */
  predicate IsIdStart(c: char) { IsLetter(c) || c == '_' }

  /**
   * Python's `\s` on text: exactly the characters for which `str.isspace()` holds.
   */
  predicate IsSpace(c: char) {
    c == '\t' || c == '\n' || c == '\U{B}' || c == '\U{C}' || c == '\r'
    || ('\U{1C}' <= c <= '\U{1F}') || c == ' ' || c == '\U{85}' || c == '\U{A0}'
    || c == '\U{1680}' || ('\U{2000}' <= c <= '\U{200A}') || c == '\U{2028}'
    || c == '\U{2029}' || c == '\U{202F}' || c == '\U{205F}' || c == '\U{3000}'
  }

  predicate InClass(c: char, k: CharClass) {
    match k
    case Digit => IsDigit(c)
    case Bin => c == '0' || c == '1'
    case Oct => '0' <= c <= '7'
    case HexUpper => IsDigit(c) || 'A' <= c <= 'F'
    case Alnum => IsDigit(c) || IsLetter(c)
    case IdChar => IsDigit(c) || IsIdStart(c)
    case NotQuote => c != '\''
    case NotNewline => c != '\n'
    case NewlineChar => c == '\n'
  }

  /** Every character of `s` belongs to class `k` (Python's `all(c in ... for c in s)`). */
  predicate AllIn(s: string, k: CharClass) {
    forall i :: 0 <= i < |s| ==> InClass(s[i], k)
  }

  /**
   * Where a greedy `[k]*` that starts at index `i` of `s` stops: the first index at or
   * after `i` that is the end of `s` or holds a character outside `k`.
   */
  function RunEnd(s: string, i: nat, k: CharClass): (j: nat)
    requires i <= |s|
    ensures i <= j <= |s|
    ensures forall m :: i <= m < j ==> InClass(s[m], k)
    ensures j == |s| || !InClass(s[j], k)
    decreases |s| - i
  {
    if i == |s| || !InClass(s[i], k) then i else RunEnd(s, i + 1, k)
  }

  /** The two conditions of RunEnd's contract determine its result. */
  lemma RunEndIs(s: string, i: nat, j: nat, k: CharClass)
    requires i <= j <= |s|
    requires forall m :: i <= m < j ==> InClass(s[m], k)
    requires j == |s| || !InClass(s[j], k)
    ensures RunEnd(s, i, k) == j
  {
  }

  /** A run measured inside a prefix `s[..n]` stops where the full run stops, or at `n`. */
  lemma RunEndPrefix(s: string, n: nat, i: nat, k: CharClass)
    requires i <= n <= |s|
    ensures RunEnd(s[..n], i, k) == if RunEnd(s, i, k) < n then RunEnd(s, i, k) else n
  {
    var j := RunEnd(s, i, k);
    var t := s[..n];
    if j < n {
      RunEndIs(t, i, j, k);
    } else {
      RunEndIs(t, i, n, k);
    }
  }

  /** RunEndPrefix for a run that starts right after index `i`. */
  lemma RunEndPrefixAfter(s: string, n: nat, i: nat, k: CharClass)
    requires i < n <= |s|
    ensures RunEnd(s[..n], i + 1, k) == if RunEnd(s, i + 1, k) < n then RunEnd(s, i + 1, k) else n
  {
    RunEndPrefix(s, n, i + 1, k);
  }

  /** A run reaches the end of `s` exactly when the whole tail from `i` is in the class. */
  lemma RunEndAll(s: string, i: nat, k: CharClass)
    requires i <= |s|
    ensures RunEnd(s, i, k) == |s| <==> AllIn(s[i..], k)
  {
    var j := RunEnd(s, i, k);
    if j < |s| {
      assert s[i..][j - i] == s[j];
    }
  }

  predicate StartsWith(s: string, p: string) {
    |p| <= |s| && s[..|p|] == p
  }

  /**
   * Index of the first occurrence of `c` in `s`, or `|s|` when there is none
   * (Python's `find`, with "absent" reported as the length).
   */
  function IndexOf(s: string, c: char): (k: nat)
    ensures k <= |s|
  {
    if s == [] then 0
    else if s[0] == c then 0
    else 1 + IndexOf(s[1..], c)
  }

  /** IndexOf finds the first `c`: none comes before it, and it is `|s|` exactly when there is none. */
  lemma {:induction false} IndexOfFacts(s: string, c: char)
    ensures var k := IndexOf(s, c);
            && (forall m :: 0 <= m < k ==> s[m] != c)
            && (k < |s| ==> s[k] == c)
            && (k == |s| <==> c !in s)
  {
    if s != [] && s[0] != c {
      IndexOfFacts(s[1..], c);
      assert forall m :: 1 <= m < |s| ==> s[m] == s[1..][m - 1];
      assert s == [s[0]] + s[1..];
    }
  }

  /** The two conditions of IndexOf's contract determine its result. */
  lemma IndexOfIs(s: string, c: char, k: nat)
    requires k <= |s|
    requires forall m :: 0 <= m < k ==> s[m] != c
    requires k < |s| ==> s[k] == c
    ensures IndexOf(s, c) == k
  {
    IndexOfFacts(s, c);
  }

  /** `s.split(c)[0]`: the text before the first `c`. */
  function FieldBefore(s: string, c: char): string {
    s[..IndexOf(s, c)]
  }

  /** `s.split(c)[1]`: the text between the first and the second `c`. */
  function SecondField(s: string, c: char): string
    requires c in s
  {
    IndexOfFacts(s, c);
    FieldBefore(s[IndexOf(s, c) + 1..], c)
  }

  /** `s.lstrip(cs)`: `s` without its longest prefix of characters from `cs`. */
  function LStrip(s: string, cs: set<char>): (r: string)
    ensures |r| <= |s|
  {
    if s != [] && s[0] in cs then LStrip(s[1..], cs) else s
  }

  /** LStrip removes a prefix of characters from `cs`, and what it leaves does not start with one. */
  lemma {:induction false} LStripFacts(s: string, cs: set<char>)
    ensures var r := LStrip(s, cs);
            && r == s[|s| - |r|..]
            && (r == [] || r[0] !in cs)
            && (forall m :: 0 <= m < |s| - |r| ==> s[m] in cs)
  {
    if s != [] && s[0] in cs {
      LStripFacts(s[1..], cs);
      assert forall m :: 1 <= m < |s| ==> s[m] == s[1..][m - 1];
    }
  }

  /**
   * `s.rfind(c, 0, end)`: the greatest index below `end` (clamped to `|s|`) that holds
   * `c`, or -1 when there is none.
   */
  function LastIndexBefore(s: string, c: char, end: nat): (k: int)
    ensures -1 <= k < end && k < |s|
    ensures k >= 0 ==> s[k] == c
    ensures forall m :: k < m < end && m < |s| ==> s[m] != c
    decreases end
  {
    if end == 0 then -1
    else if end - 1 < |s| && s[end - 1] == c then end - 1
    else LastIndexBefore(s, c, end - 1)
  }

  /** `s.count(c)`: the number of occurrences of `c` in `s`. */
  function CountOf(s: string, c: char): (n: nat)
    ensures n <= |s|
    ensures n == 0 <==> c !in s
  {
    if s == [] then 0 else (if s[0] == c then 1 else 0) + CountOf(s[1..], c)
  }

  /** Counting distributes over concatenation. */
  lemma {:induction false} CountOfAppend(a: string, b: string, c: char)
    ensures CountOf(a + b, c) == CountOf(a, c) + CountOf(b, c)
  {
    if a == [] {
      assert a + b == b;
    } else {
      assert (a + b)[1..] == a[1..] + b;
      CountOfAppend(a[1..], b, c);
    }
  }

  /** A run of `c` alone holds as many `c` as characters. */
  lemma {:induction false} CountOfUniform(s: string, c: char)
    requires forall m :: 0 <= m < |s| ==> s[m] == c
    ensures CountOf(s, c) == |s|
  {
    if s != [] {
      CountOfUniform(s[1..], c);
    }
  }
}
