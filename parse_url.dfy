/** `ParseURL.value`: the request URL is the base URL, the date and the query
    suffix written one after the other, with no escaping. */
module ParseUrl {
  import opened Wrappers

  const URL_TO_NBP_API := "https://api.nbp.pl/api/exchangerates/tables/a/"
  const FORMAT_API := "?format=json"

  function Value(url: string, formatApi: string, dateOfRate: string): (r: string)
    ensures |r| == |url| + |dateOfRate| + |formatApi|
    ensures r[..|url|] == url
    ensures r[|url|..|url| + |dateOfRate|] == dateOfRate
    ensures r[|url| + |dateOfRate|..] == formatApi
  {
    url + dateOfRate + formatApi
  }

  /** The date part of a request URL: what lies between the base URL and the suffix. */
  function DateOf(r: string, url: string, formatApi: string): (d: Option<string>)
    ensures d.Some? ==> |d.value| + |url| + |formatApi| == |r|
  {
    if |url| + |formatApi| <= |r| && r[..|url|] == url && r[|r| - |formatApi|..] == formatApi
    then Some(r[|url|..|r| - |formatApi|])
    else None
  }

  /** The date can be recovered from the URL built for it. */
  lemma DateOfValue(url: string, formatApi: string, dateOfRate: string)
    ensures DateOf(Value(url, formatApi, dateOfRate), url, formatApi) == Some(dateOfRate)
  {
  }

  /** A URL with a recoverable date is the one built from that date. */
  lemma {:induction false} ValueOfDate(r: string, url: string, formatApi: string)
    requires DateOf(r, url, formatApi).Some?
    ensures Value(url, formatApi, DateOf(r, url, formatApi).value) == r
  {
    var d := DateOf(r, url, formatApi).value;
    assert r == r[..|url|] + r[|url|..|r| - |formatApi|] + r[|r| - |formatApi|..];
  }

  /** Building is injective in the date: different dates give different URLs. */
  lemma ValueInjective(url: string, formatApi: string, d1: string, d2: string)
    requires Value(url, formatApi, d1) == Value(url, formatApi, d2)
    ensures d1 == d2
  {
    DateOfValue(url, formatApi, d1);
    DateOfValue(url, formatApi, d2);
  }

  lemma Example()
    ensures Value("https://x/", "?format=json", "2024-01-01") == "https://x/2024-01-01?format=json"
  {
  }
}
