/** `ParseDate.value`: the offset string read as a number of days, subtracted from
    today, and written `YYYY-MM-DD` (`strftime('%Y-%m-%d')`). The clock is left out:
    today's date is the parameter `today`. */
module ParseDate {
  import opened Wrappers
  import Decimal
  import opened Calendar

  /** `YYYY-MM-DD`, each field zero-padded to its width. */
  function Format(d: Date): (s: string)
    requires InRange(d)
    ensures |s| == 10 && s[4] == '-' && s[7] == '-'
    ensures Decimal.AllDigits(s[..4]) && Decimal.AllDigits(s[5..7]) && Decimal.AllDigits(s[8..])
    ensures Decimal.Value(s[..4]) == d.year
    ensures Decimal.Value(s[5..7]) == d.month && Decimal.Value(s[8..]) == d.day
  {
    assert Decimal.Pow10(4) == 10000 && Decimal.Pow10(2) == 100;
    var s := Decimal.Digits(d.year, 4) + "-" + Decimal.Digits(d.month, 2) + "-" + Decimal.Digits(d.day, 2);
    assert s[..4] == Decimal.Digits(d.year, 4);
    assert s[5..7] == Decimal.Digits(d.month, 2);
    assert s[8..] == Decimal.Digits(d.day, 2);
    s
  }

  /** Reading a `YYYY-MM-DD` string back: the inverse of `Format`. */
  function Parse(s: string): (r: Option<Date>)
    ensures r.Some? ==> InRange(r.value)
  {
    if |s| == 10 && s[4] == '-' && s[7] == '-'
       && Decimal.AllDigits(s[..4]) && Decimal.AllDigits(s[5..7]) && Decimal.AllDigits(s[8..])
    then
      var d := Date(Decimal.Value(s[..4]), Decimal.Value(s[5..7]), Decimal.Value(s[8..]));
      assert Decimal.Pow10(4) == 10000;
      if WellFormed(d) then Some(d) else None
    else None
  }

  lemma ParseFormat(d: Date)
    requires InRange(d)
    ensures Parse(Format(d)) == Some(d)
  {
  }

  lemma {:induction false} FormatParse(s: string)
    requires Parse(s).Some?
    ensures Format(Parse(s).value) == s
  {
    var d := Parse(s).value;
    var ys, ms, ds := s[..4], s[5..7], s[8..];
    assert d == Date(Decimal.Value(ys), Decimal.Value(ms), Decimal.Value(ds));
    Decimal.DigitsOfValue(ys);
    Decimal.DigitsOfValue(ms);
    Decimal.DigitsOfValue(ds);
    assert s == ys + "-" + ms + "-" + ds;
    assert Format(d) == Decimal.Digits(d.year, 4) + "-" + Decimal.Digits(d.month, 2) + "-" + Decimal.Digits(d.day, 2);
  }

  /** The resolved date for offset string `daysToCurrentDate`; no value where Python
      raises `OverflowError` (the date would fall before 0001-01-01). */
  function Value(daysToCurrentDate: string, today: Date): (r: Option<string>)
    requires Decimal.IsDigitString(daysToCurrentDate) && InRange(today)
    ensures r.Some? <==> Decimal.Value(daysToCurrentDate) < ToOrdinal(today)
    ensures r.Some? ==> Parse(r.value).Some?
    ensures r.Some? ==> ToOrdinal(Parse(r.value).value) + Decimal.Value(daysToCurrentDate) == ToOrdinal(today)
  {
    match SubtractDays(today, Decimal.Value(daysToCurrentDate))
    case None => None
    case Some(d) => ParseFormat(d); Some(Format(d))
  }

  /** The resolved date is `YYYY-MM-DD` of a real calendar day, and adding the
      offset back to it gives today. */
  lemma ValueRoundTrip(daysToCurrentDate: string, today: Date)
    requires Decimal.IsDigitString(daysToCurrentDate) && InRange(today)
    requires Decimal.Value(daysToCurrentDate) < ToOrdinal(today)
    ensures Value(daysToCurrentDate, today).Some?
    ensures var s := Value(daysToCurrentDate, today).value;
      |s| == 10 && s[4] == '-' && s[7] == '-'
      && var d := Parse(s).value;
      1 <= d.month <= 12 && 1 <= d.day <= DaysInMonth(d.year, d.month)
      && Format(d) == s
      && AddDays(d, Decimal.Value(daysToCurrentDate)) == today
  {
    var s := Value(daysToCurrentDate, today).value;
    FormatParse(s);
    var n := Decimal.Value(daysToCurrentDate);
    SubtractThenAdd(today, n);
    OrdinalInjective(Parse(s).value, SubtractDays(today, n).value);
  }

  /** Offset 0 (written with any number of zeros) resolves to today's own date. */
  lemma ValueZero(daysToCurrentDate: string, today: Date)
    requires Decimal.IsDigitString(daysToCurrentDate) && Decimal.Value(daysToCurrentDate) == 0
    requires InRange(today)
    ensures Value(daysToCurrentDate, today) == Some(Format(today))
  {
    SubtractZero(today);
  }

  /** Every offset the input check accepts resolves to a date once today is at least
      ten days after 0001-01-01. */
  lemma ValueDefinedForSmallOffsets(daysToCurrentDate: string, today: Date)
    requires Decimal.IsDigitString(daysToCurrentDate) && Decimal.Value(daysToCurrentDate) <= 10
    requires InRange(today) && ToOrdinal(today) > 10
    ensures Value(daysToCurrentDate, today).Some?
  {
  }

  /** The resolved date is made of digits and hyphens only, so it needs no escaping in a URL. */
  lemma ValueUrlSafe(daysToCurrentDate: string, today: Date)
    requires Decimal.IsDigitString(daysToCurrentDate) && InRange(today)
    requires Decimal.Value(daysToCurrentDate) < ToOrdinal(today)
    ensures forall i :: 0 <= i < 10 ==>
      var c := Value(daysToCurrentDate, today).value[i]; Decimal.IsDigit(c) || c == '-'
  {
    var d := SubtractDays(today, Decimal.Value(daysToCurrentDate)).value;
    var s := Format(d);
    assert Value(daysToCurrentDate, today).value == s;
    forall i | 0 <= i < 10 ensures Decimal.IsDigit(s[i]) || s[i] == '-' {
      if i < 4 { assert s[i] == s[..4][i]; }
      else if 4 < i < 7 { assert s[i] == s[5..7][i - 5]; }
      else if 7 < i { assert s[i] == s[8..][i - 8]; }
    }
  }

  /** Three days before 3 March of a leap year is its leap day. */
  lemma LeapDayExample(y: int)
    requires MIN_YEAR <= y <= MAX_YEAR && IsLeap(y)
    ensures Value("3", Date(y, 3, 3)) == Some(Format(Date(y, 2, 29)))
  {
    var leapDay, today := Date(y, 2, 29), Date(y, 3, 3);
    assert Decimal.Value("3") == 3 by { assert "3"[..0] == ""; }
    assert ToOrdinal(leapDay) + 3 == ToOrdinal(today);
    FromToOrdinal(leapDay);
    assert SubtractDays(today, 3) == Some(leapDay);
  }
}
