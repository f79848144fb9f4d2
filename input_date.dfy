/** `InputDate.value`: the check applied to the day offset the user types. The
    console prompt is left out; the typed line is the parameter `typed`. */
module InputDate {
  import opened Wrappers
  import Decimal

  /** How many days back a rate may be asked for (`THE_OLDEST_RATE`). */
  const THE_OLDEST_RATE := 10

  /** The two rejections, each reported with its own message. */
  datatype Rejection = NotANumber | TooOld

  /** The line printed for a rejection; only the too-old message names the limit,
      as the two digits before its closing " dni". */
  function Message(r: Rejection): (m: string)
    ensures |m| >= 6
    ensures m[|m| - 6..|m| - 4] == Decimal.Digits(THE_OLDEST_RATE, 2) <==> r == TooOld
  {
    match r
    case NotANumber => "podano błędną wartość"
    case TooOld => "Kurs waluty nie może być starszy niż sprzed 10 dni"
  }

  /** The branch the check takes: `Some` of the rejection that is reported, or
      `None` when the string is accepted. */
  function Check(typed: string): (r: Option<Rejection>)
    ensures r == Some(NotANumber) <==> !Decimal.IsDigitString(typed)
    ensures r == Some(TooOld) <==> Decimal.IsDigitString(typed) && Decimal.Value(typed) > THE_OLDEST_RATE
    ensures r == None <==> Decimal.IsDigitString(typed) && Decimal.Value(typed) <= THE_OLDEST_RATE
  {
    if !Decimal.IsDigitString(typed) then Some(NotANumber)
    else if Decimal.Value(typed) > THE_OLDEST_RATE then Some(TooOld)
    else None
  }

  /** The value returned: the typed string itself when it is accepted, nothing otherwise. */
  function Value(typed: string): (r: Option<string>)
    ensures r.Some? <==> Check(typed) == None
    ensures r.Some? ==> r.value == typed
  {
    if Check(typed) == None then Some(typed) else None
  }

  /** Every accepted offset is a digit string whose number lies in 0..10. */
  lemma AcceptedInRange(typed: string)
    requires Value(typed).Some?
    ensures Decimal.IsDigitString(Value(typed).value)
    ensures 0 <= Decimal.Value(Value(typed).value) <= THE_OLDEST_RATE
  {
  }

  /** Each offset 0..10 is accepted at any width of zero padding, and returned
      as typed (so "010" comes back as "010", not as "10"). */
  lemma {:induction false} AcceptsPaddedOffsets(n: nat, width: nat)
    requires n <= THE_OLDEST_RATE && width >= 2
    ensures Value(Decimal.Digits(n, width)) == Some(Decimal.Digits(n, width))
  {
    assert Decimal.Pow10(2) == 100;
    Decimal.PowMonotone(2, width);
  }

  /** Every number above 10, however written, is rejected as too old. */
  lemma {:induction false} RejectsOlder(n: nat, width: nat)
    requires n > THE_OLDEST_RATE && n < Decimal.Pow10(width)
    ensures Check(Decimal.Digits(n, width)) == Some(TooOld)
    ensures Value(Decimal.Digits(n, width)) == None
  {
  }


  /** The examples: "3" and "010" are accepted, "11" is too old, "abc" and the
      empty line are not numbers. */
  lemma Examples()
    ensures Value("3") == Some("3")
    ensures Value("010") == Some("010")
    ensures Check("11") == Some(TooOld)
    ensures Check("abc") == Some(NotANumber) && Check("") == Some(NotANumber)
  {
    assert Decimal.Value("3") == 3 by {
      assert "3"[..0] == "";
    }
    assert Decimal.Value("010") == 10 by {
      assert "010"[..2] == "01" && "01"[..1] == "0" && "0"[..0] == "";
    }
    assert Decimal.Value("11") == 11 by {
      assert "11"[..1] == "1" && "1"[..0] == "";
    }
    assert !Decimal.IsDigit("abc"[0]);
  }
}
