/** `main`: validate the typed offset, resolve the date, build the URL, fetch,
    filter. The clock is the parameter `today`; the HTTP fetch is the parameter
    `fetch`, which maps a URL to the decoded JSON or to no value. */
module Pipeline {
  import opened Wrappers
  import Decimal
  import Calendar
  import InputDate
  import ParseDate
  import ParseUrl
  import ParseJsonData

  /** The steps of `main` in order. It needs the typed offset to pass the input
      check and the resolved date to exist: otherwise `int(None)` or the date
      subtraction raises and the script stops before building a URL. */
  method Run(typed: string, today: Calendar.Date, fetch: string -> Option<seq<ParseJsonData.Table>>)
    returns (url: string, rates: Option<seq<ParseJsonData.Rate>>)
    requires Calendar.InRange(today)
    requires InputDate.Value(typed).Some?
    requires Decimal.Value(typed) < Calendar.ToOrdinal(today)
    ensures ParseDate.Value(typed, today).Some?
    ensures ParseUrl.DateOf(url, ParseUrl.URL_TO_NBP_API, ParseUrl.FORMAT_API) == ParseDate.Value(typed, today)
    ensures rates == ParseJsonData.Select(fetch(url), ParseJsonData.CURRENCIES)
    ensures rates.Some? ==> forall i :: 0 <= i < |rates.value| ==>
      rates.value[i].code == Some("USD") || rates.value[i].code == Some("EUR")
  {
    var date := InputDate.Value(typed).value;
    var dateOfRate := ParseDate.Value(date, today).value;
    url := ParseUrl.Value(ParseUrl.URL_TO_NBP_API, ParseUrl.FORMAT_API, dateOfRate);
    ParseUrl.DateOfValue(ParseUrl.URL_TO_NBP_API, ParseUrl.FORMAT_API, dateOfRate);
    var nbpData := fetch(url);
    rates := ParseJsonData.Value(nbpData, ParseJsonData.CURRENCIES);
    if rates.Some? {
      forall i | 0 <= i < |rates.value|
        ensures rates.value[i].code == Some("USD") || rates.value[i].code == Some("EUR")
      {
        ParseJsonData.MatchingMembers(nbpData.value[0].rates.value, ParseJsonData.CURRENCIES, rates.value[i]);
      }
    }
  }
}
