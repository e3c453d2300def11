/** The market classifier: what kind of query the user typed into the search box. */
module Market {
  import opened Text

  /** `'US_TICKER'`, `'US_NAME'` and `'KR'`. */
  datatype Guess = UsTicker | UsName | Kr

  /** The pattern `[A-Z]{1,5}` matches the whole of `s`. */
  predicate IsTickerQuery(s: string) {
    1 <= |s| <= 5 && forall k :: 0 <= k < |s| ==> IsAsciiUpper(s[k])
  }

  /** One character of the class `[a-zA-Z\s\.\-&]`. */
  predicate IsNameChar(c: char) {
    IsAsciiLetter(c) || IsSpace(c) || c == '.' || c == '-' || c == '&'
  }

  /** The pattern `[a-zA-Z\s\.\-&]+` matches the whole of `s`. */
  predicate IsNameQuery(s: string) {
    |s| >= 1 && forall k :: 0 <= k < |s| ==> IsNameChar(s[k])
  }

  /** `detect_market`: trim the query, then try the ticker pattern, then the
      Latin-name pattern; anything else is a domestic name. The ticker is
      upper-cased, which leaves it as it is. */
  function DetectMarket(query: string): (r: (Guess, string))
    ensures r.1 == Strip(query)
    ensures r.0 == UsTicker <==> IsTickerQuery(Strip(query))
    ensures r.0 == UsName <==> !IsTickerQuery(Strip(query)) && IsNameQuery(Strip(query))
    ensures r.0 == Kr <==> !IsNameQuery(Strip(query))
  {
    var q := Strip(query);
    if IsTickerQuery(q) then
      UpperOfCapitals(q);
      (UsTicker, Upper(q))
    else if IsNameQuery(q) then (UsName, q)
    else (Kr, q)
  }

  /** Every ticker-shaped query is also name-shaped, so the order of the two
      tests is what sends `AAPL` down the ticker path. */
  lemma TickerShapeIsNameShape(s: string)
    requires IsTickerQuery(s)
    ensures IsNameQuery(s)
  {
  }

  /** A blank query (empty once trimmed) is classified as a domestic name. */
  lemma BlankQueryIsDomestic(query: string)
    requires AllSpace(query)
    ensures DetectMarket(query) == (Kr, [])
  {
    StripEmpty(query);
  }

  /** A query holding any character outside `[a-zA-Z\s.\-&]` (a Hangul
      syllable, a digit, a bracket) is classified as a domestic name. */
  lemma ForeignCharMeansDomestic(query: string, k: int)
    requires 0 <= k < |query| && !IsNameChar(query[k])
    ensures DetectMarket(query).0 == Kr
  {
    StrippedNotName(query, k);
  }

  /** A character outside the name class is not blank, so it survives the
      trim and spoils the name pattern. */
  lemma StrippedNotName(query: string, k: int)
    requires 0 <= k < |query| && !IsNameChar(query[k])
    ensures !IsNameQuery(Strip(query))
  {
    StripKeepsNonSpace(query, k);
  }

  /** Classifying the cleaned query again gives the same answer. */
  lemma DetectMarketIdempotent(query: string)
    ensures DetectMarket(DetectMarket(query).1) == DetectMarket(query)
  {
    StripTrimmed(Strip(query));
  }

  /** A Hangul name is a domestic name. */
  lemma HangulExample()
    ensures DetectMarket("삼성전자") == (Kr, "삼성전자")
  {
    HangulUnchanged();
    HangulDomestic();
  }

  lemma HangulUnchanged()
    ensures Strip("삼성전자") == "삼성전자"
  {
    StripTrimmed("삼성전자");
  }

  lemma HangulDomestic()
    ensures DetectMarket("삼성전자").0 == Kr
  {
    ForeignCharMeansDomestic("삼성전자", 0);
  }

  /** One to five capitals with blanks around them are taken as that ticker:
      `" AAPL "` is the ticker `AAPL`. */
  lemma PaddedTickerIsTicker(before: string, ticker: string, after: string)
    requires AllSpace(before) && AllSpace(after) && IsTickerQuery(ticker)
    ensures DetectMarket(before + ticker + after) == (UsTicker, ticker)
  {
    StripPadded(before, ticker, after);
    CleanedTicker(before + ticker + after, ticker);
  }

  lemma CleanedTicker(query: string, ticker: string)
    requires Strip(query) == ticker && IsTickerQuery(ticker)
    ensures DetectMarket(query) == (UsTicker, ticker)
  {
  }

  /** Trimmed Latin text that is not a bare ticker, because it is longer than
      five characters or holds something other than a capital, is a company
      name and is kept as typed: `"AT&T Inc."` is such a name. */
  lemma LatinNameIsUsName(name: string, k: int)
    requires IsTrimmed(name) && IsNameQuery(name)
    requires 0 <= k < |name| && (|name| > 5 || !IsAsciiUpper(name[k]))
    ensures DetectMarket(name) == (UsName, name)
  {
    StripTrimmed(name);
    NotTickerShaped(name, k);
    CleanedName(name, name);
  }

  lemma NotTickerShaped(name: string, k: int)
    requires 0 <= k < |name| && (|name| > 5 || !IsAsciiUpper(name[k]))
    ensures !IsTickerQuery(name)
  {
  }

  lemma CleanedName(query: string, name: string)
    requires Strip(query) == name && !IsTickerQuery(name) && IsNameQuery(name)
    ensures DetectMarket(query) == (UsName, name)
  {
  }

  /** `" AAPL "` is the ticker `AAPL`. */
  lemma TickerExample()
    ensures DetectMarket(" AAPL ") == (UsTicker, "AAPL")
  {
    assert " AAPL " == " " + "AAPL" + " ";
    PaddedTickerIsTicker(" ", "AAPL", " ");
  }

  /** `"AT&T Inc."` is a US company name, kept as typed. */
  lemma NameExample()
    ensures DetectMarket("AT&T Inc.") == (UsName, "AT&T Inc.")
  {
    LatinNameIsUsName("AT&T Inc.", 0);
  }
}
