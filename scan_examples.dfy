/**
 * Literal texts and what the patterns and validators make of them, alone and in one
 * scan step.
 */
module ScanExamples {
  import opened Wrappers
  import opened Text
  import opened Tokens
  import Numerals
  import IntLiterals
  import FloatLiterals
  import CharLiterals
  import Rules
  import Lexing

  /** Accepted integer literals decode in their own base. */
  lemma IntegerValues()
    ensures IntLiterals.ValidateInt("0b1010") == Ok(10)
    ensures IntLiterals.ValidateInt("0x1A") == Ok(26)
    ensures IntLiterals.ValidateInt("017") == Ok(15)
  {
    BinaryValue();
    HexValue();
    OctalValue();
  }

  lemma BinaryValue()
    ensures IntLiterals.ValidateInt("0b1010") == Ok(10)
  {
    IntLiterals.BinaryRoundTrip(10);
    assert Numerals.ShowBase(2, 10) == "1010";
  }

  lemma HexValue()
    ensures IntLiterals.ValidateInt("0x1A") == Ok(26)
  {
    IntLiterals.HexRoundTrip(26);
    assert Numerals.ShowBase(16, 26) == "1A";
  }

  lemma OctalValue()
    ensures IntLiterals.ValidateInt("017") == Ok(15)
  {
    IntLiterals.OctalRoundTrip(15);
    assert Numerals.ShowBase(8, 15) == "17";
  }

  /**
   * Lower-case hexadecimal digits are invalid, and a second leading zero is reported
   * before any digit is checked.
   */
  lemma IntegerErrors()
    ensures IntLiterals.ValidateInt("0x1a") == Err(HexInvalid)
    ensures IntLiterals.ValidateInt("007") == Err(NonSignificantZeros)
    ensures IntLiterals.ValidateInt("089") == Err(OctalInvalid)
  {
    assert "0x1a"[..2] == "0x" && "0x1a"[2..] == "1a";
    assert !InClass('a', HexUpper);
    assert "007"[..2] == "00" && "007"[1..] == "07";
    assert "089"[..2] == "08" && "089"[1..] == "89";
    assert !InClass('8', Oct);
  }

  /** Leading zeros after a `0b` or `0x` prefix are valid digits and add nothing to the value. */
  lemma LeadingZeroDigits()
    ensures IntLiterals.ValidateInt("0b0011") == Ok(3)
    ensures IntLiterals.ValidateInt("0x00FF") == Ok(255)
  {
    BinaryLeadingZeros();
    HexLeadingZeros();
  }

  lemma BinaryLeadingZeros()
    ensures IntLiterals.ValidateInt("0b0011") == Ok(3)
  {
    var d := Numerals.ShowBase(2, 3);
    assert d == "11";
    Numerals.ReadShow(2, 3);
    Numerals.LeadingZero(2, d);
    Numerals.LeadingZero(2, ['0'] + d);
    assert ['0'] + (['0'] + d) == "0011";
    IntLiterals.BinaryDigits("0011");
    assert "0b" + "0011" == "0b0011";
    assert AllIn("0011", Bin);
  }

  lemma HexLeadingZeros()
    ensures IntLiterals.ValidateInt("0x00FF") == Ok(255)
  {
    var d := Numerals.ShowBase(16, 255);
    assert d == "FF";
    Numerals.ReadShow(16, 255);
    Numerals.LeadingZero(16, d);
    Numerals.LeadingZero(16, ['0'] + d);
    assert ['0'] + (['0'] + d) == "00FF";
    IntLiterals.HexDigits("00FF");
    assert "0x" + "00FF" == "0x00FF";
    assert AllIn("00FF", HexUpper);
  }

  /**
   * The octal alternative stops at a delimiter and otherwise takes every letter and
   * digit: `017)` is matched up to the bracket, `0abc;` and `017abc` up to the end of
   * the word, and `017abc` is then an invalid octal literal.
   */
  lemma OctalMatches()
    ensures IntLiterals.MatchInt("017)") == Some(3)
    ensures IntLiterals.MatchInt("0abc;") == Some(4)
    ensures IntLiterals.MatchInt("017abc") == Some(6)
    ensures IntLiterals.ValidateInt("017abc") == Err(OctalInvalid)
  {
    OctalDelimited();
    OctalWord();
    OctalDigitsWord();
    OctalWordInvalid();
  }

  lemma OctalWordInvalid()
    ensures IntLiterals.ValidateInt("017abc") == Err(OctalInvalid)
  {
    IntLiterals.OctalDigits("17abc");
    assert "0" + "17abc" == "017abc";
    assert !InClass("17abc"[2], Oct);
  }

  lemma OctalDelimited()
    ensures IntLiterals.MatchInt("017)") == Some(3)
  {
    IntLiterals.OctalPlain("17", "", ")");
    assert "0" + "17" + "" + ")" == "017)";
  }

  lemma OctalWord()
    ensures IntLiterals.MatchInt("0abc;") == Some(4)
  {
    IntLiterals.OctalPlain("", "abc", ";");
    assert "0" + "" + "abc" + ";" == "0abc;";
  }

  lemma OctalDigitsWord()
    ensures IntLiterals.MatchInt("017abc") == Some(6)
  {
    IntLiterals.OctalPlain("17", "abc", "");
    assert "0" + "17" + "abc" + "" == "017abc";
  }

  /** One literal for each of the float validator's four errors. */
  lemma FloatErrors()
    ensures FloatLiterals.ValidateFloat(".5") == Err(MissingIntegerPart)
    ensures FloatLiterals.ValidateFloat("5.") == Err(MissingDecimalPart)
    ensures FloatLiterals.ValidateFloat("5e") == Err(IncompleteExponent)
    ensures FloatLiterals.ValidateFloat("5e1.2") == Err(NonIntegerExponent)
  {
    assert ".5"[..1] == ".";
    MissingFraction();
    MissingExponent();
    FractionalExponent();
  }

  lemma MissingFraction()
    ensures FloatLiterals.ValidateFloat("5.") == Err(MissingDecimalPart)
  {
    assert "5."[..1] == "5";
    IndexOfIs("5.", '.', 1);
    assert "5."[2..] == [];
  }

  lemma MissingExponent()
    ensures FloatLiterals.ValidateFloat("5e") == Err(IncompleteExponent)
  {
    assert "5e"[..1] == "5" && "5e"[1] == 'e';
    IndexOfIs("5e", '.', 2);
    IndexOfIs("5e", 'e', 1);
    assert "5e"[2..] == [];
  }

  lemma FractionalExponent()
    ensures FloatLiterals.ValidateFloat("5e1.2") == Err(NonIntegerExponent)
  {
    assert "5e1.2"[..1] == "5";
    FractionPresent();
    ExponentWithDot();
  }

  lemma FractionPresent()
    ensures !FloatLiterals.FractionMissing("5e1.2")
  {
    var lexeme := "5e1.2";
    IndexOfIs(lexeme, '.', 3);
    assert lexeme[4..] == "2";
    IndexOfIs("2", 'e', 1);
  }

  lemma ExponentWithDot()
    ensures SecondField("5e1.2", 'e') == "1.2"
    ensures !FloatLiterals.ExponentIncomplete("5e1.2") && FloatLiterals.ExponentFractional("5e1.2")
  {
    var lexeme := "5e1.2";
    IndexOfIs(lexeme, 'e', 1);
    assert lexeme[2..] == "1.2";
    IndexOfIs("1.2", 'e', 3);
    assert "1.2"[..3] == "1.2" && "1.2"[1] == '.';
  }

  /**
   * The integer pattern keeps one stray character after the valid digits of a `0b` or
   * `0x` literal, and one `8` or `9` after octal digits; a delimiter ends the literal.
   */
  lemma StrayCharacters()
    ensures IntLiterals.MatchInt("0b+") == Some(3)
    ensures IntLiterals.MatchInt("0x1A.") == Some(5)
    ensures IntLiterals.MatchInt("0x1a;") == Some(4)
    ensures IntLiterals.MatchInt("089") == Some(3)
    ensures IntLiterals.MatchInt("0b1;") == Some(3)
    ensures IntLiterals.MatchInt("0b1+") == Some(4)
  {
    BinaryStrayAfterDigit();
    BinaryStray();
    HexStray();
    LowerHexStray();
    OctalStrayDigit();
    BinaryDelimited();
  }

  /** After `0b1` the `+` is the stray character, not the end of the literal. */
  lemma BinaryStrayAfterDigit()
    ensures IntLiterals.MatchInt("0b1+") == Some(4)
  {
    IntLiterals.PrefixedStray(false, "1", '+', "", "");
    assert "0b" + "1" + ['+'] + "" + "" == "0b1+";
  }

  lemma BinaryStray()
    ensures IntLiterals.MatchInt("0b+") == Some(3)
  {
    IntLiterals.PrefixedStray(false, "", '+', "", "");
    assert "0b" + "" + ['+'] + "" + "" == "0b+";
  }

  lemma HexStray()
    ensures IntLiterals.MatchInt("0x1A.") == Some(5)
  {
    IntLiterals.PrefixedStray(true, "1A", '.', "", "");
    assert "0x" + "1A" + ['.'] + "" + "" == "0x1A.";
  }

  lemma LowerHexStray()
    ensures IntLiterals.MatchInt("0x1a;") == Some(4)
  {
    IntLiterals.PrefixedStray(true, "1", 'a', "", ";");
    assert "0x" + "1" + ['a'] + "" + ";" == "0x1a;";
  }

  lemma OctalStrayDigit()
    ensures IntLiterals.MatchInt("089") == Some(3)
  {
    IntLiterals.OctalStray("", '8', "9", "");
    assert "0" + "" + ['8'] + "9" + "" == "089";
  }

  lemma BinaryDelimited()
    ensures IntLiterals.MatchInt("0b1;") == Some(3)
  {
    IntLiterals.PrefixedPlain(false, "1", ";");
    assert "0b" + "1" + ";" == "0b1;";
  }

  /**
   * A scan step at `0x1A.` matches all five characters as one integer literal, which
   * the validator rejects as hexadecimal-invalid; scanning resumes after the dot.
   */
  lemma HexStrayStep()
    ensures Lexing.StepAt("0x1A.", Lexing.Cursor(0, 1))
      == Lexing.Stepped(Lexing.Cursor(5, 1), Lexing.Rejected(Diagnostic(HexInvalid, "0x1A.", 1)))
  {
    var s := "0x1A.";
    PrefixNotFloat(s);
    HexStray();
    HexStrayInvalid();
    assert s[..5] == s;
    IntRejected(s, 5, HexInvalid);
  }

  lemma HexStrayInvalid()
    ensures IntLiterals.ValidateInt("0x1A.") == Err(HexInvalid)
  {
    var s := "0x1A.";
    assert s[..2] == "0x" && s[2..] == "1A." && !InClass(s[2..][2], HexUpper);
  }

  /**
   * A scan step at `0b+` matches the sign as the stray character of a binary literal,
   * which the validator rejects as binary-invalid.
   */
  lemma BinaryStrayStep()
    ensures Lexing.StepAt("0b+", Lexing.Cursor(0, 1))
      == Lexing.Stepped(Lexing.Cursor(3, 1), Lexing.Rejected(Diagnostic(BinaryInvalid, "0b+", 1)))
  {
    var s := "0b+";
    PrefixNotFloat(s);
    BinaryStray();
    BinaryStrayInvalid();
    assert s[..3] == s;
    IntRejected(s, 3, BinaryInvalid);
  }

  lemma BinaryStrayInvalid()
    ensures IntLiterals.ValidateInt("0b+") == Err(BinaryInvalid)
  {
    var s := "0b+";
    assert s[..2] == "0x" || s[..2] == "0b";
    assert s[2..] == "+" && !InClass(s[2..][0], Bin);
  }

  /**
   * A first step at a text that starts with an integer literal the validator rejects
   * reports the literal and moves past it.
   */
  lemma IntRejected(s: string, n: nat, k: ErrorKind)
    requires FloatLiterals.MatchFloat(s).None? && |s| > 0 && IsDigit(s[0])
    requires IntLiterals.MatchInt(s) == Some(n)
    requires IntLiterals.Decodable(s[..n]) && IntLiterals.ValidateInt(s[..n]) == Err(k)
    ensures Lexing.StepAt(s, Lexing.Cursor(0, 1)) == Lexing.Stepped(Lexing.Cursor(n, 1), Lexing.Rejected(Diagnostic(k, s[..n], 1)))
  {
    Rules.IntWhenNotFloat(s);
    assert s[0..] == s;
    Lexing.RuleStep(s, Lexing.Cursor(0, 1), Rules.IntLit, n);
  }

  /** A text starting with `0b` or `0x` is not a float. */
  lemma PrefixNotFloat(s: string)
    requires |s| > 1 && s[0] == '0' && (s[1] == 'b' || s[1] == 'x')
    ensures FloatLiterals.MatchFloat(s).None?
  {
    RunEndIs(s, 0, 1, Digit);
  }

  /** Exactly one character between the quotes. */
  lemma CharacterLiterals()
    ensures CharLiterals.ValidateChar("'a'") == Ok('a')
    ensures CharLiterals.ValidateChar("''") == Err(EmptyChar)
    ensures CharLiterals.ValidateChar("'ab'") == Err(MultiChar)
  {
  }
}
