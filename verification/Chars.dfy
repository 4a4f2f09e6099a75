/** Character classes of the C locale and hexadecimal digits. */
module Chars {

  /** std::isspace */
  predicate IsSpace(c: char) { c in {' ', '\t', '\n', '\U{B}', '\U{C}', '\r'} }

  /** The blank and the five characters from the tabulator to the carriage return. */
  lemma SpacesExactly(c: char)
    ensures IsSpace(c) <==> c as int == 32 || 9 <= c as int <= 13
  {
    assert ' ' as int == 32 && '\t' as int == 9 && '\n' as int == 10 && '\r' as int == 13;
  }

  /** The value of a hexadecimal digit of either case, or -1. */
  function HexValue(c: char): (r: int)
    ensures -1 <= r < 16
  {
    if '0' <= c <= '9' then c as int - '0' as int
    else if 'a' <= c <= 'f' then c as int - 'a' as int + 10
    else if 'A' <= c <= 'F' then c as int - 'A' as int + 10
    else -1
  }

  const LOWER_DIGITS := "0123456789abcdef"
  const UPPER_DIGITS := "0123456789ABCDEF"

  lemma HexValueExactly(c: char, d: nat)
    requires d < 16
    ensures HexValue(c) == d <==> c == LOWER_DIGITS[d] || c == UPPER_DIGITS[d]
  {
  }

  predicate IsHex(c: char) { HexValue(c) >= 0 }

  lemma HexDigitsExactly(c: char)
    ensures IsHex(c) <==> c in LOWER_DIGITS || c in UPPER_DIGITS
  {
    if IsHex(c) { HexValueExactly(c, HexValue(c)); }
    if c in LOWER_DIGITS {
      var d: nat :| d < 16 && LOWER_DIGITS[d] == c;
      HexValueExactly(c, d);
    }
    if c in UPPER_DIGITS {
      var d: nat :| d < 16 && UPPER_DIGITS[d] == c;
      HexValueExactly(c, d);
    }
  }

  predicate IsHexRun(s: string) { forall i | 0 <= i < |s| :: IsHex(s[i]) }

  /** The number a run of hexadecimal digits denotes; the empty run denotes 0. */
  function HexNumber(s: string): nat
    requires IsHexRun(s)
  {
    if s == [] then 0 else HexNumber(s[..|s| - 1]) * 16 + HexValue(s[|s| - 1])
  }

  /** An upper-case hexadecimal digit. */
  function HexDigit(d: int): char
    requires 0 <= d < 16
  {
    if d < 10 then ('0' as int + d) as char else ('A' as int + d - 10) as char
  }

  lemma HexDigitValue(d: int)
    requires 0 <= d < 16
    ensures HexValue(HexDigit(d)) == d
    ensures HexDigit(d) != '\\' && HexDigit(d) != '\"'
  {
  }

  /** `t` is the number `n` in hexadecimal digits of either case, with any number of leading zeros. */
  ghost predicate HexSpells(t: string, n: nat) {
    if t == [] then n == 0
    else
      var c := t[|t| - 1];
      HexSpells(t[..|t| - 1], n / 16) && (c == LOWER_DIGITS[n % 16] || c == UPPER_DIGITS[n % 16])
  }

  lemma {:induction false} HexNumberExactly(t: string, n: nat)
    ensures HexSpells(t, n) <==> IsHexRun(t) && HexNumber(t) == n
    decreases |t|
  {
    if t != [] {
      var k := |t| - 1;
      HexNumberExactly(t[..k], n / 16);
      HexValueExactly(t[k], n % 16);
      if IsHexRun(t) {
        assert IsHex(t[k]) && IsHexRun(t[..k]);
      }
      if HexSpells(t, n) {
        assert forall i | 0 <= i < |t| :: t[i] == if i < k then t[..k][i] else t[k];
      }
    }
  }

  /** The digits of a number, the shortest text for it. */
  function HexTextOf(n: nat, digits: string): string
    requires |digits| == 16
  {
    (if n < 16 then "" else HexTextOf(n / 16, digits)) + [digits[n % 16]]
  }

  lemma {:induction false} HexTextSpells(n: nat, digits: string)
    requires digits == LOWER_DIGITS || digits == UPPER_DIGITS
    ensures HexTextOf(n, digits) != [] && HexSpells(HexTextOf(n, digits), n)
  {
    var t := HexTextOf(n, digits);
    if n >= 16 {
      HexTextSpells(n / 16, digits);
      assert t[..|t| - 1] == HexTextOf(n / 16, digits);
    } else {
      assert t[..|t| - 1] == [] && n / 16 == 0;
    }
  }
}
