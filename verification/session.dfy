/**
 * The sidebar's search action: classify the query, resolve it with the
 * matching lookup, and update the session. The network and database answers
 * are parameters: `info` answers `yf.Ticker(t)` (its info and whether it has
 * recent prices), `search` answers `yf.Search(q)`, and `table` is the rows
 * the `stock_info` query returns; `None` in any of them is a call that raised.
 */
module Session {
  import opened Seqs
  import opened Text
  import opened Market
  import opened Resolver
  import Cards

  /** `'KR'` and `'US'` */
  datatype MarketType = KR | US

  /** A news search hit; the search action only ever clears these. */
  datatype NewsLink = NewsLink(title: string, url: string)

  /** The keys of `st.session_state` the application keeps. */
  datatype SessionState = SessionState(
    analyzed: bool,
    currentTicker: Option<string>,
    currentName: Option<string>,
    marketType: Option<MarketType>,
    newsResultText: Option<string>,
    newsLinks: Option<seq<NewsLink>>,
    lastQuery: Option<string>,
    page: string,
    recBeginner: Option<string>,
    recExpert: Option<string>,
    fxPeriod: string)

  const STOCK_PAGE: string := "주식 분석"
  const DEFAULT_FX_PERIOD: string := "3mo"

  /** The `defaults` a fresh session starts from. */
  const INITIAL: SessionState := SessionState(
    false, None, None, None, None, None, None, STOCK_PAGE, None, None, DEFAULT_FX_PERIOD)

  /** What the sidebar says after the button is pressed. */
  datatype Notice =
    | AskForName                                     // "종목명을 입력해주세요."
    | Found(flag: string, name: string, ticker: string) // "{flag} {name} ({ticker})"
    | NotFound                                       // "종목을 찾을 수 없습니다."

  /** The part of `yf.Ticker(t)` that `validate_us_ticker` reads. */
  datatype TickerInfo = TickerInfo(shortName: Option<string>, longName: Option<string>, hasRecentPrices: bool)

  /** `validate_us_ticker`: a ticker with prices in the last five days is
      confirmed under its short name, else its long name, else itself. */
  function ValidateForeign(info: Option<TickerInfo>, ticker: string): (r: Option<Resolved>)
    ensures r.Some? <==> info.Some? && info.value.hasRecentPrices
    ensures r.Some? ==> r.value.ticker == ticker
    ensures r.Some? && ticker != [] ==> r.value.name != []
  {
    match info
    case None => None
    case Some(i) =>
      if !i.hasRecentPrices then None
      else Some(Resolved(ticker, OrElse(i.shortName, OrElse(i.longName, ticker))))
  }

  /** The lookup the classifier's answer selects, and the market it implies. */
  function Resolve(guess: Guess, clean: string, info: string -> Option<TickerInfo>,
                   search: string -> Option<seq<Quote>>, table: Option<seq<Row>>): (r: (Option<Resolved>, MarketType))
    ensures r.1 == US <==> guess != Kr
    ensures guess == UsTicker ==> r.0 == ValidateForeign(info(clean), clean)
    ensures guess == UsName ==> r.0 == LookupForeign(search(clean), clean)
    ensures guess == Kr ==> r.0 == LookupDomestic(table, clean)
  {
    match guess
    case UsTicker => (ValidateForeign(info(clean), clean), US)
    case UsName => (LookupForeign(search(clean), clean), US)
    case Kr => (LookupDomestic(table, clean), KR)
  }

  function FlagOf(m: MarketType): (r: string)
    ensures Cards.IsFlag(r)
    ensures r == Cards.US_FLAG <==> m == US
  {
    if m == US then Cards.US_FLAG else Cards.KR_FLAG
  }

  /** Different markets are announced with different flags. */
  lemma FlagOfInjective(a: MarketType, b: MarketType)
    ensures FlagOf(a) == FlagOf(b) ==> a == b
  {
  }

  /** `if ticker:` — a missing ticker and an empty one both fail. */
  predicate Resolves(r: Option<Resolved>) {
    r.Some? && r.value.ticker != []
  }

  /** The button handler: an empty box only asks for a name; a resolved
      ticker becomes the current one and clears the news; anything else only
      clears `analyzed`. The page, the cached recommendations and the chart
      period are never touched. */
  function Search(s: SessionState, query: string, info: string -> Option<TickerInfo>,
                  search: string -> Option<seq<Quote>>, table: Option<seq<Row>>): (r: (SessionState, Notice))
    ensures query == [] ==> r == (s, AskForName)
    ensures r.0.page == s.page && r.0.recBeginner == s.recBeginner
    ensures r.0.recExpert == s.recExpert && r.0.fxPeriod == s.fxPeriod
    ensures r.1.NotFound? ==> r.0 == s.(analyzed := false)
    ensures r.1.Found? ==> && r.0.analyzed
                           && r.0.currentTicker == Some(r.1.ticker) && r.1.ticker != []
                           && r.0.currentName == Some(r.1.name)
                           && r.0.marketType.Some? && r.1.flag == FlagOf(r.0.marketType.value)
                           && r.0.newsResultText.None? && r.0.newsLinks.None? && r.0.lastQuery.None?
    ensures r.1.Found? ==> (r.0.marketType == Some(US) <==> DetectMarket(query).0 != Kr)
    ensures query != [] ==> !r.1.AskForName?
  {
    if query == [] then (s, AskForName)
    else
      var (guess, clean) := DetectMarket(query);
      var (res, market) := Resolve(guess, clean, info, search, table);
      if Resolves(res) then
        var t := res.value;
        (s.(analyzed := true, currentTicker := Some(t.ticker), currentName := Some(t.name),
            marketType := Some(market), newsResultText := None, newsLinks := None, lastQuery := None),
         Found(FlagOf(market), t.name, t.ticker))
      else (s.(analyzed := false), NotFound)
  }

  /** The search finds something exactly when the lookup its query selects
      answers with a non-empty ticker; what it finds is that answer. */
  lemma SearchFindsWhatLookupFinds(s: SessionState, query: string, info: string -> Option<TickerInfo>,
                                   search: string -> Option<seq<Quote>>, table: Option<seq<Row>>)
    requires query != []
    ensures var (guess, clean) := DetectMarket(query);
            var res := Resolve(guess, clean, info, search, table).0;
            && (Search(s, query, info, search, table).1.Found? <==> Resolves(res))
            && (Resolves(res) ==> Search(s, query, info, search, table).1 == Found(FlagOf(Resolve(guess, clean, info, search, table).1), res.value.name, res.value.ticker))
  {
  }

  /** A lookup that answers nothing, or an empty ticker, only clears `analyzed`. */
  lemma SearchFails(s: SessionState, query: string, info: string -> Option<TickerInfo>,
                    search: string -> Option<seq<Quote>>, table: Option<seq<Row>>)
    requires query != []
    requires !Resolves(Resolve(DetectMarket(query).0, DetectMarket(query).1, info, search, table).0)
    ensures Search(s, query, info, search, table) == (s.(analyzed := false), NotFound)
  {
  }

  /** A foreign search whose chosen candidate has no symbol fails, although
      the search answered. */
  lemma EmptySymbolFails(s: SessionState, query: string, info: string -> Option<TickerInfo>,
                         search: string -> Option<seq<Quote>>, table: Option<seq<Row>>, q: Quote)
    requires DetectMarket(query).0 == UsName
    requires search(DetectMarket(query).1) == Some([q])
    requires q.symbol.None? || q.symbol == Some([])
    ensures Search(s, query, info, search, table) == (s.(analyzed := false), NotFound)
  {
    NameQueryNotEmpty(query);
    SymbolMissing(DetectMarket(query).1, info, search, table, q);
    SearchFails(s, query, info, search, table);
  }

  lemma NameQueryNotEmpty(query: string)
    requires DetectMarket(query).0 == UsName
    ensures query != []
  {
    assert |Strip(query)| > 0;
  }

  lemma SymbolMissing(clean: string, info: string -> Option<TickerInfo>,
                      search: string -> Option<seq<Quote>>, table: Option<seq<Row>>, q: Quote)
    requires search(clean) == Some([q])
    requires q.symbol.None? || q.symbol == Some([])
    ensures !Resolves(Resolve(UsName, clean, info, search, table).0)
  {
    assert SelectForeign([q], clean).value.ticker == [];
  }

  /** A domestic query with no matching row fails and keeps the previous stock. */
  lemma UnknownDomesticNameKeepsStock(s: SessionState, query: string, info: string -> Option<TickerInfo>,
                                      search: string -> Option<seq<Quote>>, rows: seq<Row>)
    requires DetectMarket(query).0 == Kr && query != []
    requires forall j :: 0 <= j < |rows| ==> !NameMatches(rows[j], DetectMarket(query).1)
    ensures Search(s, query, info, search, Some(rows)).0 == s.(analyzed := false)
    ensures Search(s, query, info, search, Some(rows)).0.currentTicker == s.currentTicker
  {
    var clean := DetectMarket(query).1;
    assert LookupDomestic(Some(rows), clean).None?;
    SearchFails(s, query, info, search, Some(rows));
  }

  /** A ticker query that is confirmed becomes the current stock, as typed
      once trimmed, in the US market. */
  lemma ConfirmedTickerIsCurrent(s: SessionState, query: string, info: string -> Option<TickerInfo>,
                                 search: string -> Option<seq<Quote>>, table: Option<seq<Row>>)
    requires query != [] && IsTickerQuery(Strip(query))
    requires info(Strip(query)).Some? && info(Strip(query)).value.hasRecentPrices
    ensures Search(s, query, info, search, table).0.currentTicker == Some(Strip(query))
    ensures Search(s, query, info, search, table).0.marketType == Some(US)
  {
  }

  // ---------------------------------------------------------------------------
  // A query of blanks.

  /** Every name contains the empty query, so `LIKE '%%'` matches every row. */
  lemma EveryRowMatchesEmpty(rows: seq<Row>)
    ensures forall j :: 0 <= j < |rows| ==> NameMatches(rows[j], [])
  {
    forall j | 0 <= j < |rows|
      ensures NameMatches(rows[j], [])
    {
      assert OccursAt(rows[j].name, [], 0);
    }
  }

  /** As written: a query of blanks passes `if query:`, is trimmed to the
      empty string and classified as a domestic name, and the table lookup
      then matches every row, so the stock with the shortest name in the
      table becomes the current stock. */
  lemma BlankQueryPicksShortestName(s: SessionState, query: string, info: string -> Option<TickerInfo>,
                                    search: string -> Option<seq<Quote>>, rows: seq<Row>)
    requires query != [] && AllSpace(query) && |rows| > 0
    ensures Search(s, query, info, search, Some(rows)).1.Found?
    ensures forall j :: 0 <= j < |rows| ==>
      |Search(s, query, info, search, Some(rows)).1.name| <= |rows[j].name|
  {
    BlankQueryIsDomestic(query);
    EveryRowMatchesEmpty(rows);
    var r := SelectDomestic(rows, []);
    assert r.Some?;
    var i :| IsBestRow(rows, [], i) && r.value == Resolved(rows[i].code + Suffix(rows[i].market), rows[i].name);
    assert |r.value.ticker| >= |Suffix(rows[i].market)| > 0;
  }

  /** The handler with the emptiness test made on the trimmed query, so that a
      query of blanks is refused like an empty one. */
  function SearchTrimmed(s: SessionState, query: string, info: string -> Option<TickerInfo>,
                         search: string -> Option<seq<Quote>>, table: Option<seq<Row>>): (r: (SessionState, Notice))
    ensures AllSpace(query) ==> r == (s, AskForName)
    ensures !AllSpace(query) ==> r == Search(s, query, info, search, table)
  {
    StripEmpty(query);
    if Strip(query) == [] then (s, AskForName) else Search(s, query, info, search, table)
  }

  /** With the trimmed test, a search never looks a stock up under the
      empty name: whatever it finds was looked up under a non-empty query. */
  lemma TrimmedSearchNeedsAName(s: SessionState, query: string, info: string -> Option<TickerInfo>,
                                search: string -> Option<seq<Quote>>, table: Option<seq<Row>>)
    requires SearchTrimmed(s, query, info, search, table).1.Found?
    ensures DetectMarket(query).1 != []
  {
    StripEmpty(query);
  }
}
