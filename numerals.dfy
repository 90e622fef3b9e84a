/**
 * Positional numerals in bases 2 to 16 with the digit set `0-9A-F`, as Python's
 * `int(digits, base)` reads them and as `str(n)` writes base 10.
 */
module Numerals {

  /** The value of a digit character; 16 for a character that is no digit in any base. */
  function DigitValue(c: char): nat {
    if '0' <= c <= '9' then c as nat - '0' as nat
    else if 'A' <= c <= 'F' then c as nat - 'A' as nat + 10
    else 16
  }

  /** The character of digit `d`, upper-case for 10 to 15. */
  function DigitChar(d: nat): (c: char)
    requires d < 16
    ensures DigitValue(c) == d
  {
    if d < 10 then ('0' as int + d) as char else ('A' as int + d - 10) as char
  }

  /** Every character of `s` is a digit of base `base`. */
  predicate IsNumeral(s: string, base: nat) {
    forall i :: 0 <= i < |s| ==> DigitValue(s[i]) < base
  }

  /** The number the digit string `s` denotes in base `base`, most significant digit first. */
  function ReadBase(base: nat, s: string): nat
    requires IsNumeral(s, base)
  {
    if s == [] then 0 else ReadBase(base, s[..|s| - 1]) * base + DigitValue(s[|s| - 1])
  }

  /**
   * The canonical numeral of `n` in base `base`: at least one digit, and a leading
   * `0` only for the number zero itself.
   */
  function ShowBase(base: nat, n: nat): (s: string)
    requires 2 <= base <= 16
    ensures |s| > 0 && IsNumeral(s, base)
    ensures s[0] == '0' <==> n == 0
    decreases n
  {
    if n < base then [DigitChar(n)]
    else
      DivModBounds(n, base);
      ShowBase(base, n / base) + [DigitChar(n % base)]
  }

  lemma DivModBounds(n: nat, base: nat)
    requires 2 <= base <= n
    ensures 0 < n / base < n && n % base < base && n == n / base * base + n % base
  {
  }

  /** Reading back the canonical numeral of `n` gives `n`. */
  lemma {:induction false} ReadShow(base: nat, n: nat)
    requires 2 <= base <= 16
    ensures ReadBase(base, ShowBase(base, n)) == n
    decreases n
  {
    var s := ShowBase(base, n);
    if n < base {
      assert s[..0] == [];
    } else {
      DivModBounds(n, base);
      ReadShow(base, n / base);
      assert s[..|s| - 1] == ShowBase(base, n / base);
    }
  }

  /** A leading `0` does not change the value: `int('0' + s, base) == int(s, base)`. */
  lemma {:induction false} LeadingZero(base: nat, s: string)
    requires 0 < base && IsNumeral(s, base)
    ensures IsNumeral(['0'] + s, base) && ReadBase(base, ['0'] + s) == ReadBase(base, s)
    decreases |s|
  {
    var z := ['0'] + s;
    assert forall i :: 0 < i < |z| ==> z[i] == s[i - 1];
    if s == [] {
      assert z[..0] == [];
    } else {
      var init := s[..|s| - 1];
      assert IsNumeral(init, base) by {
        assert forall i :: 0 <= i < |init| ==> init[i] == s[i];
      }
      LeadingZero(base, init);
      assert z[..|z| - 1] == ['0'] + init;
    }
  }
}
