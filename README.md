# NBP exchange-rate script: a verified model of its value transformations

The script asks how many days back (0 to 10) the user wants the National Bank of
Poland's table A of average exchange rates. It computes that date, builds the
request URL `https://api.nbp.pl/api/exchangerates/tables/a/YYYY-MM-DD?format=json`
and fetches the JSON. Then it keeps the USD and EUR records of the first table's
`rates`. This project models the four value transformations of `main.py` in Dafny,
and the order in which `main` wires them:

- `input_date.dfy` (module `InputDate`): `InputDate.value` with the prompt removed.
  The typed string is rejected when it is not all digits, and rejected as too old
  when its number exceeds 10. Otherwise it is returned unchanged.
- `parse_date.dfy` (module `ParseDate`): `ParseDate.value`. The offset string is
  read as a number and that many days are subtracted from today. The result is
  written `YYYY-MM-DD`. Today's date is a parameter.
- `calendar.dfy` (module `Calendar`): the proleptic Gregorian calendar of Python's
  `datetime`. It has the same ordinal numbering (0001-01-01 is day 1). The days
  before a year are counted year by year and proved equal to the closed form
  that `datetime` uses. `ToOrdinal` (days from civil) and
  `FromOrdinal` (civil from days) are proved inverse.
- `decimal.dfy` (module `Decimal`): reading ASCII digit strings as numbers, and
  writing numbers zero-padded to a fixed width.
- `parse_url.dfy` (module `ParseUrl`): `ParseURL.value`, the concatenation
  `url + date + format_api`, and the two constants of the request URL.
- `parse_json_data.dfy` (module `ParseJsonData`): `ParseJsonData.value`. The loop
  over `json_data[0]['rates']` is a method. It is proved equal to a pure
  specification, and that specification's properties are proved as lemmas.
- `pipeline.dfy` (module `Pipeline`): the sequence of `main`. The HTTP fetch is a
  function parameter.
- `wrappers.dfy` (module `Wrappers`): `Option`, standing for Python's `None`
  versus a value.

The decoded JSON is a sequence of `Table`s. Each table has `rates`, which is
`None` when the key is missing, else a sequence of `Rate` records. Each `Rate`
has optional `code`, `currency` and `mid` fields. A response that the fetch did not
return (`None` in Python) is `None`.

## Model

| member | source | states |
|---|---|---|
| Decimal.IsDigitString | main.py:40 | what `str.isdigit` accepts: a non-empty string of ASCII digits, which is then the zero-padded rendering of its own number; a rejected string is empty or holds a non-digit |
| Decimal.Value | main.py:31 | the number `int` reads from a digit string, leading zeros allowed; it is below 10 to the power of the string's length, and `Digits` at that length writes it back (see `DigitsOfValue`) |
| Decimal.Digits | main.py:33 | a zero-padded field has exactly the requested width, holds only digits, and reads back as the number it renders when that number fits the width |
| Decimal.DigitsOfValue | main.py:31 | reading a digit string as a number and rendering it back at the same width gives the same string |
| Decimal.ValueLeadingZero | main.py:43 | a leading zero does not change the number a digit string denotes |
| InputDate.Message | main.py:41-44 | each rejection has its own non-empty line; the too-old line, and only it, names the 10-day limit |
| InputDate.Check | main.py:40-45 | a string that is empty or has a non-digit is rejected as not a number; a digit string whose number is above 10 is rejected as too old; every other string is accepted (each condition in both directions) |
| InputDate.Value | main.py:36-47 | a value is returned exactly when the check accepts, and it is the typed string itself |
| InputDate.AcceptedInRange | main.py:40-47 | every accepted string is a non-empty digit string whose number is in 0..10 |
| InputDate.AcceptsPaddedOffsets | main.py:43-47 | each offset 0..10, zero-padded to any width of at least two, is accepted and returned as typed |
| InputDate.RejectsOlder | main.py:43-45 | every number above 10, at any width, is rejected as too old |
| InputDate.Examples | main.py:40-47 | "3" and "010" are returned unchanged; "11" is too old; "abc" and "" are not numbers |
| Calendar.LeapCount | main.py:32 | a year has 366 days exactly when it is a multiple of 4 that is not a century, or a multiple of 400; 365 otherwise |
| Calendar.DaysBeforeYearClosedForm | main.py:32 | the days before year y, counted year by year, equal 365 per year plus one per fourth year, minus one per century, plus one per fourth century |
| Calendar.ToOrdinal | main.py:32 | a date's ordinal lies within its year's span of ordinals, and within its month's span inside that year |
| Calendar.FromOrdinal | main.py:32 | every ordinal from 1 up is the ordinal of a well-formed date, the one returned |
| Calendar.OrdinalInjective | main.py:32 | two well-formed dates with the same ordinal are the same date |
| Calendar.FromToOrdinal | main.py:32 | converting a date to its ordinal and back returns the date |
| Calendar.AddDays | main.py:32 | adding n days gives the well-formed date whose ordinal is n more |
| Calendar.SubtractDays | main.py:32 | subtracting n days gives a date exactly when n is below today's ordinal; that date is representable and its ordinal is n less than today's |
| Calendar.SubtractThenAdd | main.py:32 | adding n days to today minus n days gives today |
| Calendar.SubtractZero | main.py:32 | subtracting zero days gives today |
| Calendar.SubtractTwice | main.py:32 | subtracting a days and then b days equals subtracting a + b days |
| Calendar.LeapDayBeforeMarch | main.py:32 | in a leap year, one day before 1 March is 29 February |
| Calendar.NewYearsDayBack | main.py:32 | one day before 1 January is 31 December of the previous year |
| ParseDate.Format | main.py:33 | the formatted date has 10 characters, with hyphens at positions 4 and 7 and digit fields that read back as year, month and day |
| ParseDate.Parse | main.py:33 | a `YYYY-MM-DD` string is read back only as a representable calendar date |
| ParseDate.ParseFormat | main.py:33 | reading back a formatted date gives that date |
| ParseDate.FormatParse | main.py:33 | a string that reads back as a date is exactly that date's formatted form |
| ParseDate.Value | main.py:30-34 | a date string results exactly when the offset is below today's ordinal; it reads back as the date whose ordinal plus the offset is today's |
| ParseDate.ValueRoundTrip | main.py:30-34 | for an offset below today's ordinal a date results; it has the `YYYY-MM-DD` shape with a month in 1..12 and a day within that month; adding the offset to it gives today |
| ParseDate.ValueZero | main.py:31-33 | offset 0, however many zeros it is written with, gives today's date |
| ParseDate.ValueDefinedForSmallOffsets | main.py:31-32 | every offset up to 10 resolves to a date once today is more than ten days after 0001-01-01 |
| ParseDate.ValueUrlSafe | main.py:33 | the result has only digits and hyphens |
| ParseDate.LeapDayExample | main.py:30-34 | offset "3" from 3 March of a leap year gives its 29 February |
| ParseUrl.Value | main.py:22-24 | the URL is the base, then the date, then the suffix; its length is the sum of theirs |
| ParseUrl.DateOf | main.py:22-24 | the date recovered from a URL is as long as the URL minus the base and the suffix |
| ParseUrl.DateOfValue | main.py:22-24 | the date is recovered from the URL built for it |
| ParseUrl.ValueOfDate | main.py:22-24 | a URL with base and suffix is the one built from its recovered date |
| ParseUrl.ValueInjective | main.py:22-24 | different dates give different URLs |
| ParseUrl.Example | main.py:22-24 | "https://x/", "2024-01-01" and "?format=json" give "https://x/2024-01-01?format=json" |
| ParseJsonData.Matching | main.py:58-60 | the filtered records are never more than the source records |
| ParseJsonData.Select | main.py:54-64 | a value results exactly when the response is present and non-empty, its first table has `rates`, and every record has a `code` |
| ParseJsonData.Value | main.py:54-64 | the loop returns the specification's result: no value on any structural failure, else the matching records |
| ParseJsonData.MatchingIsSubsequence | main.py:57-61 | the result is a subsequence of the first table's records, in source order |
| ParseJsonData.MatchingCounts | main.py:58-60 | each record occurs in the result as often as in the source when its code is in the allow-list, and never otherwise |
| ParseJsonData.MatchingMembers | main.py:58-60 | a record is in the result exactly when it is in the source and its code is in the allow-list |
| ParseJsonData.MatchingLength | main.py:58-60 | the result's length is the number of source positions holding a wanted record |
| ParseJsonData.MatchingIdempotent | main.py:58-60 | filtering the result again leaves it unchanged |
| ParseJsonData.SelectFailures | main.py:56-64 | an absent or empty response, a first table without `rates`, or any record without `code` yields no value, even after earlier matches |
| ParseJsonData.Example | main.py:54-64 | a table of USD, GBP and EUR filtered by `CURRENCIES` gives the USD and EUR records in that order |
| Pipeline.Run | main.py:87-97 | the URL holds exactly the date resolved from the typed offset between the NBP base URL and the suffix; the rates are the filter of what was fetched for that URL, and every kept code is USD or EUR |

## Left out

- `import_data_json` (main.py:70-84): the aiohttp session, GET, status check and connection-error handling are network I/O. `Pipeline.Run` takes the fetch as a parameter.
- Console I/O: the `input()` prompt (main.py:38-39) and `print_msg` (main.py:67-68). The rejection messages are kept as `InputDate.Message`, but printing them is not modelled.
- The Windows event-loop policy (main.py:92-93) is platform plumbing.
- `datetime.today()` (main.py:32): the clock is the parameter `today`. Its time of day does not reach the formatted date, so only the calendar day is modelled.
- The `Parser` abstract base class (main.py:11-14) has no behaviour.
- `InputDate.Check`: only ASCII `'0'..'9'` count as digits. Python's `str.isdigit` also accepts other Unicode digits; `int` reads some of them and raises on others (superscripts).
- `InputDate.Check`: does not model the limit on the length of a decimal string that `int` reads (4300 digits by default since Python 3.11 and in the 2022 security releases of 3.7 to 3.10; leading zeros count). Above it `int` raises `ValueError` at main.py:43, and the script stops with neither message nor value. The model reads digit strings of every length, so `InputDate.RejectsOlder` and `InputDate.AcceptsPaddedOffsets` hold at every width. The same limit applies to `ParseDate.Value` (main.py:31), though there it is only reached by input the check would already have stopped.
- `Calendar.AddDays`: the year has no upper bound. Python's `date + timedelta` raises `OverflowError` past 9999-12-31. The model uses `AddDays` only as the inverse of subtraction, where the result is today's date, so that bound is never reached there.
- `ParseDate.Value`: takes only non-empty ASCII digit strings. Python's `int` also accepts a sign, surrounding whitespace and underscores, but the validated input in `main` never has them.
- `ParseDate.Value`: no value stands for the `OverflowError` Python raises when the date would fall before 0001-01-01. In the script that exception is not caught.
- `ParseDate.Format`: the year is written with four zero-padded digits. For years before 1000, what `strftime('%Y')` writes depends on the platform's C library.
- `Calendar.FromOrdinal` finds the year and month by a search, not by the 400-year-cycle arithmetic of `datetime`. It is proved to be the inverse of `ToOrdinal`, so the dates are the same.
- `Pipeline.Run`: requires an offset that passes the input check and a date that exists. When the check fails, `main` still calls `ParseDate(None)`, and `int(None)` raises `TypeError` (main.py:88-89). The model does not describe that crash; it only states the precondition.
- `ParseJsonData.Select`: the JSON shapes are narrowed. A record is an object with an optional `code`, and a table has optional `rates`. Other shapes also collapse to no value in the source: a non-list response, a first table that is not an object, or a record that is not an object. Two source cases are not representable at all: `rates` being an empty object or string (Python iterates it and returns `[]`), and `code` being a non-string, which never matches.
- `THE_OLDEST_RATE` (main.py:7) is defined in the source, but `InputDate.value` compares with the literal 10 (main.py:43). The model uses the constant, which has the same value.
