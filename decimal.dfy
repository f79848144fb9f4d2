/** Decimal digit strings: reading them as numbers (Python's `int` on an ASCII digit
    string) and writing numbers as zero-padded digit strings (`strftime`'s `%Y`,
    `%m`, `%d`). */
module Decimal {

  predicate IsDigit(c: char) {
    '0' <= c <= '9'
  }

  predicate AllDigits(s: string) {
    forall i :: 0 <= i < |s| ==> IsDigit(s[i])
  }

  /** A non-empty string of ASCII digits: the strings `str.isdigit` accepts in this model.
      An accepted string is the zero-padded rendering of its own number; a rejected
      one is empty or holds a character that is not a digit. */
  predicate IsDigitString(s: string)
    ensures IsDigitString(s) ==> s != [] && AllDigits(s) && Digits(Value(s), |s|) == s
    ensures !IsDigitString(s) ==> s == [] || exists i :: 0 <= i < |s| && !IsDigit(s[i])
  {
    if AllDigits(s) then DigitsOfValue(s); |s| > 0 else false
  }

  function DigitValue(c: char): (v: nat)
    requires IsDigit(c)
    ensures v < 10
  {
    c as int - '0' as int
  }

  function DigitChar(v: nat): (c: char)
    requires v < 10
    ensures IsDigit(c) && DigitValue(c) == v
  {
    ('0' as int + v) as char
  }

  function Pow10(k: nat): (p: nat)
    ensures p >= 1
  {
    if k == 0 then 1 else 10 * Pow10(k - 1)
  }

  lemma {:induction false} PowMonotone(a: nat, b: nat)
    requires a <= b
    ensures Pow10(a) <= Pow10(b)
    decreases b - a
  {
    if a < b { PowMonotone(a, b - 1); }
  }

  /** The number a digit string denotes, leading zeros allowed (`int("010") == 10`). */
  function Value(s: string): (n: nat)
    requires AllDigits(s)
    ensures n < Pow10(|s|)
    decreases |s|
  {
    if s == [] then 0 else Value(s[..|s| - 1]) * 10 + DigitValue(s[|s| - 1])
  }

  /** The last `width` decimal digits of `n`, zero-padded on the left. */
  function Digits(n: nat, width: nat): (s: string)
    ensures |s| == width && AllDigits(s)
    ensures n < Pow10(width) ==> Value(s) == n
  {
    if width == 0 then [] else
      var s := Digits(n / 10, width - 1) + [DigitChar(n % 10)];
      assert s[..|s| - 1] == Digits(n / 10, width - 1);
      s
  }

  /** Writing back what was read gives the same string: a digit string is the
      zero-padded rendering of its own value at its own width. */
  lemma {:induction false} DigitsOfValue(s: string)
    requires AllDigits(s)
    ensures Digits(Value(s), |s|) == s
  {
    if s != [] {
      var init, last := s[..|s| - 1], s[|s| - 1];
      assert AllDigits(init);
      DigitsOfValue(init);
      var n := Value(s);
      assert n / 10 == Value(init) && n % 10 == DigitValue(last);
      assert DigitChar(DigitValue(last)) == last;
      assert s == init + [last];
    }
  }

  /** Leading zeros do not change the value (`int("010") == int("10")`). */
  lemma {:induction false} ValueLeadingZero(s: string)
    requires AllDigits(s)
    ensures AllDigits("0" + s) && Value("0" + s) == Value(s)
  {
    var t := "0" + s;
    assert AllDigits(t) by {
      forall i | 0 <= i < |t| ensures IsDigit(t[i]) {
        if i > 0 { assert t[i] == s[i - 1]; }
      }
    }
    if s != [] {
      var init := s[..|s| - 1];
      assert t[..|t| - 1] == "0" + init;
      assert t[|t| - 1] == s[|s| - 1];
      ValueLeadingZero(init);
    }
  }
}
