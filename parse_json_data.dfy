/** `ParseJsonData.value`: keep, in source order, the records of the first
    table's `rates` whose `code` is one of the wanted currencies. Any
    structural failure in the decoded JSON gives no value at all. */
module ParseJsonData {
  import opened Wrappers

  const CURRENCIES: seq<string> := ["USD", "EUR"]

  /** One record of a rate table; a field the JSON object lacks is `None`. */
  datatype Rate = Rate(code: Option<string>, currency: Option<string>, mid: Option<real>)

  /** One table of the response; `rates` is `None` when the key is missing. */
  datatype Table = Table(rates: Option<seq<Rate>>)

  /** A record that is kept: its code is in the allow-list. */
  predicate Wanted(rate: Rate, currencies: seq<string>) {
    rate.code.Some? && rate.code.value in currencies
  }

  predicate AllCoded(rates: seq<Rate>) {
    forall i :: 0 <= i < |rates| ==> rates[i].code.Some?
  }

  /** The wanted records of `rates`, in their order there. */
  function Matching(rates: seq<Rate>, currencies: seq<string>): (r: seq<Rate>)
    ensures |r| <= |rates|
    decreases |rates|
  {
    if rates == [] then []
    else
      var last := rates[|rates| - 1];
      Matching(rates[..|rates| - 1], currencies) + (if Wanted(last, currencies) then [last] else [])
  }

  /** The value of `ParseJsonData(jsonData, currencies).value()`. `jsonData` is
      `None` when the fetch gave no value. */
  function Select(jsonData: Option<seq<Table>>, currencies: seq<string>): (r: Option<seq<Rate>>)
    ensures r.Some? <==>
      jsonData.Some? && |jsonData.value| > 0 && jsonData.value[0].rates.Some?
      && AllCoded(jsonData.value[0].rates.value)
  {
    if jsonData.None? || |jsonData.value| == 0 then None
    else match jsonData.value[0].rates
      case None => None
      case Some(rates) => if AllCoded(rates) then Some(Matching(rates, currencies)) else None
  }

  /** The loop of `ParseJsonData.value`: the accumulator is the matching records of
      the prefix scanned so far; a record without a code stops the scan and
      discards what was collected. */
  method Value(jsonData: Option<seq<Table>>, currencies: seq<string>) returns (r: Option<seq<Rate>>)
    ensures r == Select(jsonData, currencies)
  {
    var searchedCurrencies: seq<Rate> := [];
    if jsonData.None? || |jsonData.value| == 0 {
      return None;
    }
    var listOfAllCurrencies := jsonData.value[0].rates;
    if listOfAllCurrencies.None? {
      return None;
    }
    var all := listOfAllCurrencies.value;
    var i := 0;
    while i < |all|
      invariant 0 <= i <= |all|
      invariant AllCoded(all[..i])
      invariant searchedCurrencies == Matching(all[..i], currencies)
    {
      var currency := all[i];
      assert all[..i + 1][..i] == all[..i];
      if currency.code.None? {
        return None;
      }
      if currency.code.value in currencies {
        searchedCurrencies := searchedCurrencies + [currency];
      }
      i := i + 1;
    }
    assert all[..i] == all;
    return Some(searchedCurrencies);
  }

  /** `sub` can be obtained from `s` by deleting elements. */
  predicate IsSubsequence(sub: seq<Rate>, s: seq<Rate>)
    decreases |s|
  {
    if sub == [] then true
    else if s == [] then false
    else if sub[|sub| - 1] == s[|s| - 1] then IsSubsequence(sub[..|sub| - 1], s[..|s| - 1])
    else IsSubsequence(sub, s[..|s| - 1])
  }

  /** A subsequence of `s` stays one when `s` grows at the end. */
  lemma {:induction false} SubsequenceExtend(sub: seq<Rate>, s: seq<Rate>, t: Rate)
    requires IsSubsequence(sub, s)
    ensures IsSubsequence(sub, s + [t])
    decreases |s|, 1
  {
    assert (s + [t])[..|s|] == s;
    if sub != [] && sub[|sub| - 1] == t {
      SubsequenceDropLast(sub, s);
    }
  }

  /** A subsequence stays one when its last element is dropped. */
  lemma {:induction false} SubsequenceDropLast(sub: seq<Rate>, s: seq<Rate>)
    requires sub != [] && IsSubsequence(sub, s)
    ensures IsSubsequence(sub[..|sub| - 1], s)
    decreases |s|, 0
  {
    var init, last := s[..|s| - 1], s[|s| - 1];
    assert s == init + [last];
    if sub[|sub| - 1] == last {
      SubsequenceExtend(sub[..|sub| - 1], init, last);
    } else {
      SubsequenceDropLast(sub, init);
      SubsequenceExtend(sub[..|sub| - 1], init, last);
    }
  }

  /** The result keeps the source order: it is a subsequence of the records. */
  lemma {:induction false} MatchingIsSubsequence(rates: seq<Rate>, currencies: seq<string>)
    ensures IsSubsequence(Matching(rates, currencies), rates)
    decreases |rates|
  {
    if rates != [] {
      var init, last := rates[..|rates| - 1], rates[|rates| - 1];
      MatchingIsSubsequence(init, currencies);
      var m := Matching(init, currencies);
      assert rates == init + [last];
      if Wanted(last, currencies) {
        var mm := m + [last];
        assert Matching(rates, currencies) == mm;
        assert mm[..|mm| - 1] == m && mm[|mm| - 1] == last;
        assert IsSubsequence(mm, rates);
      } else {
        assert Matching(rates, currencies) == m;
        SubsequenceExtend(m, init, last);
      }
      assert rates == init + [last];
    }
  }

  /** Every kept record is wanted, and each wanted record is kept exactly as often
      as it occurs among the records; unwanted records are dropped. */
  lemma {:induction false} MatchingCounts(rates: seq<Rate>, currencies: seq<string>, x: Rate)
    ensures multiset(Matching(rates, currencies))[x] == if Wanted(x, currencies) then multiset(rates)[x] else 0
    decreases |rates|
  {
    if rates != [] {
      var init, last := rates[..|rates| - 1], rates[|rates| - 1];
      MatchingCounts(init, currencies, x);
      assert rates == init + [last];
    }
  }

  /** Soundness and completeness in terms of membership. */
  lemma MatchingMembers(rates: seq<Rate>, currencies: seq<string>, x: Rate)
    ensures x in Matching(rates, currencies) <==> x in rates && Wanted(x, currencies)
  {
    MatchingCounts(rates, currencies, x);
    assert x in Matching(rates, currencies) <==> multiset(Matching(rates, currencies))[x] > 0;
    assert x in rates <==> multiset(rates)[x] > 0;
  }

  /** The number of records kept is the number of wanted records. */
  lemma {:induction false} MatchingLength(rates: seq<Rate>, currencies: seq<string>)
    ensures |Matching(rates, currencies)| == |set i | 0 <= i < |rates| && Wanted(rates[i], currencies)|
    decreases |rates|
  {
    if rates != [] {
      var n := |rates| - 1;
      var init := rates[..n];
      MatchingLength(init, currencies);
      var before := set i | 0 <= i < n && Wanted(init[i], currencies);
      var after := set i | 0 <= i < |rates| && Wanted(rates[i], currencies);
      assert before == set i | 0 <= i < n && Wanted(rates[i], currencies);
      if Wanted(rates[n], currencies) {
        assert after == before + {n};
      } else {
        assert after == before;
      }
    }
  }

  /** Filtering the result again changes nothing. */
  lemma {:induction false} MatchingIdempotent(rates: seq<Rate>, currencies: seq<string>)
    ensures Matching(Matching(rates, currencies), currencies) == Matching(rates, currencies)
    decreases |rates|
  {
    if rates != [] {
      var init, last := rates[..|rates| - 1], rates[|rates| - 1];
      MatchingIdempotent(init, currencies);
      var m := Matching(init, currencies);
      if Wanted(last, currencies) {
        var mm := m + [last];
        assert mm[..|mm| - 1] == m && mm[|mm| - 1] == last;
        assert Matching(rates, currencies) == mm;
        assert Matching(mm, currencies) == Matching(m, currencies) + [last];
      } else {
        assert Matching(rates, currencies) == m;
      }
    }
  }

  /** The whole-or-nothing failure: an absent or empty response, a first table
      without `rates`, or any record without a code gives no value, however many
      records matched before it. */
  lemma SelectFailures(jsonData: Option<seq<Table>>, currencies: seq<string>)
    requires jsonData.None? || |jsonData.value| == 0 || jsonData.value[0].rates.None?
      || exists i :: 0 <= i < |jsonData.value[0].rates.value| && jsonData.value[0].rates.value[i].code.None?
    ensures Select(jsonData, currencies) == None
  {
  }

  /** The example of a table with USD, GBP and EUR: USD and EUR are kept in that order. */
  lemma Example(usd: Rate, gbp: Rate, eur: Rate)
    requires usd.code == Some("USD") && gbp.code == Some("GBP") && eur.code == Some("EUR")
    ensures Select(Some([Table(Some([usd, gbp, eur]))]), CURRENCIES) == Some([usd, eur])
  {
    var rates := [usd, gbp, eur];
    assert rates[..2] == [usd, gbp] && [usd, gbp][..1] == [usd] && [usd][..0] == [];
    assert "GBP" != "USD" && "GBP" != "EUR" by {
      assert "GBP"[0] != "USD"[0] && "GBP"[0] != "EUR"[0];
    }
    assert !Wanted(gbp, CURRENCIES);
    assert Matching([usd], CURRENCIES) == [usd];
    assert Matching([usd, gbp], CURRENCIES) == [usd];
    assert Matching(rates, CURRENCIES) == [usd, eur];
  }
}
