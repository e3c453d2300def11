/**
 * The symbol resolver's pure tails: choosing a domestic listing from the rows
 * the local table returns (`get_ticker_from_db`) and choosing a foreign quote
 * from the candidates the search service returns (`get_us_ticker_by_name`).
 */
module Resolver {
  import opened Seqs
  import opened Text

  /** One row of the `stock_info` table: `(code, name, market)`. */
  datatype Row = Row(code: string, name: string, market: string)

  /** The `(ticker, name)` pair a successful lookup returns. */
  datatype Resolved = Resolved(ticker: string, name: string)

  /** `LIKE '%query%'`, taken as case-sensitive substring containment. */
  predicate NameMatches(r: Row, query: string) {
    Contains(r.name, query)
  }

  /** Row `i` is the one `min(results, key=len(name))` returns: it matches,
      no matching row has a shorter name, and no earlier matching row ties. */
  ghost predicate IsBestRow(rows: seq<Row>, query: string, i: int) {
    && 0 <= i < |rows|
    && NameMatches(rows[i], query)
    && (forall j :: 0 <= j < |rows| && NameMatches(rows[j], query) ==> |rows[i].name| <= |rows[j].name|)
    && (forall j :: 0 <= j < i && NameMatches(rows[j], query) ==> |rows[i].name| < |rows[j].name|)
  }

  /** The exchange suffix: `.KS` for KOSPI, `.KQ` for any other market. */
  function Suffix(market: string): string {
    if market == "KOSPI" then ".KS" else ".KQ"
  }

  /** Python's `min` over the first `n` rows, restricted to matching names:
      it keeps the first row seen and replaces it only by a strictly shorter name. */
  function BestRow(rows: seq<Row>, query: string, n: nat): (r: Option<nat>)
    requires n <= |rows|
    ensures r.None? <==> forall j :: 0 <= j < n ==> !NameMatches(rows[j], query)
    ensures r.Some? ==> r.value < n && NameMatches(rows[r.value], query)
    ensures r.Some? ==> forall j :: 0 <= j < n && NameMatches(rows[j], query) ==> |rows[r.value].name| <= |rows[j].name|
    ensures r.Some? ==> forall j :: 0 <= j < r.value && NameMatches(rows[j], query) ==> |rows[r.value].name| < |rows[j].name|
    decreases n
  {
    if n == 0 then None
    else
      var best := BestRow(rows, query, n - 1);
      if !NameMatches(rows[n - 1], query) then best
      else match best
        case None => Some(n - 1)
        case Some(b) => if |rows[n - 1].name| < |rows[b].name| then Some(n - 1) else best
  }

  /** The tail of `get_ticker_from_db`: no matching row gives `(None, None)`;
      otherwise the best row's code with its exchange suffix, and its name. */
  function SelectDomestic(rows: seq<Row>, query: string): (r: Option<Resolved>)
    ensures r.None? <==> forall j :: 0 <= j < |rows| ==> !NameMatches(rows[j], query)
    ensures r.Some? ==> exists i :: IsBestRow(rows, query, i) && r.value == Resolved(rows[i].code + Suffix(rows[i].market), rows[i].name)
  {
    match BestRow(rows, query, |rows|)
    case None => None
    case Some(i) =>
      assert IsBestRow(rows, query, i);
      Some(Resolved(rows[i].code + Suffix(rows[i].market), rows[i].name))
  }

  /** `get_ticker_from_db` once the table is read: `None` stands for a lookup
      that raised, which the source turns into `(None, None)`. */
  function LookupDomestic(table: Option<seq<Row>>, query: string): (r: Option<Resolved>)
    ensures table.None? ==> r.None?
    ensures table.Some? ==> r == SelectDomestic(table.value, query)
  {
    match table
    case None => None
    case Some(rows) => SelectDomestic(rows, query)
  }

  /** Only one row can be the best: the choice among equal-length names is the
      earliest one, so the result is determined by the row order. */
  lemma BestRowUnique(rows: seq<Row>, query: string, i: int, j: int)
    requires IsBestRow(rows, query, i) && IsBestRow(rows, query, j)
    ensures i == j
  {
  }

  /** `t` is the row's code followed by `.KS` exactly when the row is on
      KOSPI, and by `.KQ` exactly when it is not. */
  predicate ExchangeSuffixed(r: Row, t: string) {
    && (r.market == "KOSPI" <==> t == r.code + ".KS")
    && (r.market != "KOSPI" <==> t == r.code + ".KQ")
  }

  /** The returned ticker ends in `.KS` exactly for a KOSPI row and in `.KQ` otherwise. */
  lemma SuffixRule(rows: seq<Row>, query: string)
    requires SelectDomestic(rows, query).Some?
    ensures exists i :: IsBestRow(rows, query, i) && ExchangeSuffixed(rows[i], SelectDomestic(rows, query).value.ticker)
  {
    var i :| IsBestRow(rows, query, i) && SelectDomestic(rows, query).value == Resolved(rows[i].code + Suffix(rows[i].market), rows[i].name);
    var c := rows[i].code;
    assert (c + ".KS")[|c|..] == ".KS";
    assert (c + ".KQ")[|c|..] == ".KQ";
  }

  /** The returned name contains the query and is the shortest matching name. */
  lemma DomesticNameIsShortestMatch(rows: seq<Row>, query: string, j: int)
    requires SelectDomestic(rows, query).Some?
    requires 0 <= j < |rows| && NameMatches(rows[j], query)
    ensures Contains(SelectDomestic(rows, query).value.name, query)
    ensures |SelectDomestic(rows, query).value.name| <= |rows[j].name|
  {
  }

  /** A common share and its preferred share, in either table order: the
      query picks the exact, shorter name. */
  lemma PreferredShareExample(common: Row, preferred: Row)
    requires common == Row("005930", "삼성전자", "KOSPI")
    requires preferred == Row("005935", "삼성전자우", "KOSPI")
    ensures SelectDomestic([common, preferred], "삼성전자") == Some(Resolved("005930.KS", "삼성전자"))
    ensures SelectDomestic([preferred, common], "삼성전자") == Some(Resolved("005930.KS", "삼성전자"))
  {
    var q := "삼성전자";
    assert OccursAt(common.name, q, 0);
    assert OccursAt(preferred.name, q, 0);
    var expected := Some(Resolved("005930.KS", "삼성전자"));
    var rows := [common, preferred];
    assert IsBestRow(rows, q, 0);
    var i :| IsBestRow(rows, q, i) && SelectDomestic(rows, q).value == Resolved(rows[i].code + Suffix(rows[i].market), rows[i].name);
    BestRowUnique(rows, q, 0, i);
    assert "005930" + ".KS" == "005930.KS";
    var swapped := [preferred, common];
    assert IsBestRow(swapped, q, 1);
    var k :| IsBestRow(swapped, q, k) && SelectDomestic(swapped, q).value == Resolved(swapped[k].code + Suffix(swapped[k].market), swapped[k].name);
    BestRowUnique(swapped, q, 1, k);
  }

  /** One candidate of `yf.Search(...).quotes`; `None` is a missing key. */
  datatype Quote = Quote(
    quoteType: Option<string>,
    symbol: Option<string>,
    shortname: Option<string>,
    longname: Option<string>)

  /** `d.get(key, default)` */
  function GetOr(v: Option<string>, default: string): string {
    match v
    case Some(s) => s
    case None => default
  }

  /** `d.get(key) or fallback`: a missing or empty value falls through. */
  function OrElse(v: Option<string>, fallback: string): (r: string)
    ensures r == fallback || (v.Some? && r == v.value && r != [])
    ensures v.Some? && v.value != [] ==> r == v.value
  {
    if v.Some? && v.value != [] then v.value else fallback
  }

  /** `q.get('quoteType', '').upper() in ('EQUITY', 'ETF')` */
  predicate IsEquityOrEtf(q: Quote) {
    var t := Upper(GetOr(q.quoteType, []));
    t == "EQUITY" || t == "ETF"
  }

  function FirstEquityFrom(quotes: seq<Quote>, k: nat): (r: Option<nat>)
    requires k <= |quotes|
    ensures r.Some? ==> k <= r.value < |quotes| && IsEquityOrEtf(quotes[r.value])
    ensures r.Some? ==> forall j :: k <= j < r.value ==> !IsEquityOrEtf(quotes[j])
    ensures r.None? ==> forall j :: k <= j < |quotes| ==> !IsEquityOrEtf(quotes[j])
    decreases |quotes| - k
  {
    if k == |quotes| then None
    else if IsEquityOrEtf(quotes[k]) then Some(k)
    else FirstEquityFrom(quotes, k + 1)
  }

  /** The tail of `get_us_ticker_by_name`: the first equity or ETF, named by
      its short name, else its long name, else the query; failing that, the
      first candidate, named by its short name if the key is present at all. */
  function SelectForeign(quotes: seq<Quote>, query: string): (r: Option<Resolved>)
    ensures r.None? <==> |quotes| == 0
    ensures r.Some? ==> exists i :: 0 <= i < |quotes| && r.value.ticker == GetOr(quotes[i].symbol, [])
  {
    if |quotes| == 0 then None
    else match FirstEquityFrom(quotes, 0)
      case Some(i) =>
        var q := quotes[i];
        Some(Resolved(GetOr(q.symbol, []), OrElse(q.shortname, OrElse(q.longname, query))))
      case None =>
        var q := quotes[0];
        Some(Resolved(GetOr(q.symbol, []), GetOr(q.shortname, query)))
  }

  /** `get_us_ticker_by_name` once the search has answered: `None` stands for
      a search that raised. */
  function LookupForeign(search: Option<seq<Quote>>, query: string): (r: Option<Resolved>)
    ensures search.None? ==> r.None?
    ensures search.Some? ==> r == SelectForeign(search.value, query)
  {
    match search
    case None => None
    case Some(quotes) => SelectForeign(quotes, query)
  }

  /** When some candidate is an equity or an ETF, the earliest such one is
      chosen, under its short name, else its long name, else the query; that
      name is never empty unless the query is. */
  lemma ForeignPrefersFirstEquity(quotes: seq<Quote>, query: string, i: int)
    requires 0 <= i < |quotes| && IsEquityOrEtf(quotes[i])
    requires forall j :: 0 <= j < i ==> !IsEquityOrEtf(quotes[j])
    ensures SelectForeign(quotes, query).Some?
    ensures SelectForeign(quotes, query).value.ticker == GetOr(quotes[i].symbol, [])
    ensures SelectForeign(quotes, query).value.name == OrElse(quotes[i].shortname, OrElse(quotes[i].longname, query))
    ensures query != [] ==> SelectForeign(quotes, query).value.name != []
  {
    var r := FirstEquityFrom(quotes, 0);
    assert r == Some(i);
  }

  /** With no equity or ETF among the candidates, the first candidate is
      taken; a present but empty short name is kept as the name. */
  lemma ForeignFallsBackToFirst(quotes: seq<Quote>, query: string)
    requires |quotes| > 0
    requires forall j :: 0 <= j < |quotes| ==> !IsEquityOrEtf(quotes[j])
    ensures SelectForeign(quotes, query) == Some(Resolved(GetOr(quotes[0].symbol, []), GetOr(quotes[0].shortname, query)))
  {
  }

  /** The quote type is compared after upper-casing: `etf` and `Equity` qualify. */
  lemma QuoteTypeIgnoresCase(q: Quote)
    requires q.quoteType == Some("etf") || q.quoteType == Some("Equity")
    ensures IsEquityOrEtf(q)
  {
  }
}
