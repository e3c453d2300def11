# iM AI stock analyst — the text logic, in Dafny

This project models the pure text logic of `app.py`, the Streamlit stock-analysis app, and proves properties of it. The logic covers four things:

- **Query classification.** `detect_market` decides whether what the user typed is a US ticker, a US company name or a Korean stock name.
- **Symbol resolution.** These are the selection tails of `get_ticker_from_db`, `get_us_ticker_by_name` and `validate_us_ticker`. Each one picks a listing from the candidates that the database, the search service or the quote service returns.
- **Recommendation parsing.** `parse_ticker_from_block` and the loop of `render_ai_recommendation_cards` cut the AI's answer into `---`-separated blocks. Each block becomes a card with a flag, name, ticker, summary, reason, risk and difficulty. The cards are then grouped into a domestic and a foreign section of at most three columns each (`render_stock_cards`).
- **The sidebar search action.** This is the session-state update made when the *분석 시작* button is pressed.

Also modelled: the `#RRGGBB` decode the chart helpers use for their fill colour.

Strings are `seq<char>` of Unicode scalars, so each flag emoji is two regional-indicator characters. Python's string operations are written out in `Text`:

- `strip()` and `\s` use the exact `str.isspace()` character set;
- `split`, `replace(x, '')`, `in`, `startswith` and `upper()`.

The regular expressions become character predicates with their matching semantics spelled out:

- leftmost match for `re.search`;
- whole-string match for `re.fullmatch`;
- left-to-right non-overlapping removal for `re.sub`.

External answers are parameters, where `None` stands for a call that raised:

- the `stock_info` rows;
- the `yf.Search` quotes;
- the `yf.Ticker` info.

Modules, one per file:

| file | module | contents |
|---|---|---|
| `seqs.dfy` | `Seqs` | `Option`, subsequences, list-comprehension filters, `s[:n]` |
| `text.dfy` | `Text` | Python string primitives and their laws |
| `market.dfy` | `Market` | `detect_market` |
| `resolver.dfy` | `Resolver` | domestic and foreign candidate selection |
| `ticker.dfy` | `TickerToken` | `parse_ticker_from_block` |
| `cards.dfy` | `Cards` | the block parser |
| `card_format.dfy` | `CardFormat` | the answer layout the prompt asks for, and the parser's round trip over it |
| `layout.dfy` | `Layout` | grouping, truncation and the raw-text fallback |
| `session.dfy` | `Session` | session defaults, `validate_us_ticker` and the search action |
| `colors.dfy` | `Colors` | the hex colour decode |

## Model

| member | source | states |
|---|---|---|
| Text.Strip | app.py:259 | the result has no blank at either end and is no longer than the input |
| Text.StripPads | app.py:259 | the input is the result padded with blanks on both sides |
| Text.StripUnique | app.py:259 | a non-empty text without blanks at its ends that the input pads in this way is the strip of the input, so these two facts determine `strip()` |
| Text.StripEmpty | app.py:613 | a text strips to the empty string exactly when it is all blanks, which is what `if b.strip()` drops |
| Text.Split | app.py:613 | `split` always yields at least one piece, so an answer with no `---` is one block |
| Text.SplitSingle | app.py:613 | the split is the text alone exactly when the separator does not occur in it |
| Text.SplitPieces | app.py:613 | no piece of `split(sep)` holds the separator, and every piece occurs in the text |
| Text.JoinSplit | app.py:613 | joining the pieces of a split with the separator gives back the original text |
| Text.SplitJoin | app.py:616 | splitting a joined text gives back the parts when the separator occurs only at the joins |
| Text.RemoveAll | app.py:629 | `replace(label, '')` never lengthens the text |
| Text.RemoveAllAbsent | app.py:625 | `replace` of a flag that does not occur leaves the text as it is |
| Text.RemoveAllIsSplitJoin | app.py:629 | `replace(label, '')` equals splitting on the label and gluing the pieces together |
| Text.RemoveAllAfter | app.py:629 | when a label's first occurrence follows a label-free prefix, `replace` keeps that prefix and continues after the label |
| Text.Upper | app.py:321 | `upper()` keeps the length, turns every ASCII letter into a capital and leaves every other character except the dotless i as it is |
| Text.UpperIdempotent | app.py:321 | upper-casing twice is upper-casing once |
| Text.UpperOfCapitals | app.py:261 | `upper()` leaves a string of capitals unchanged, so the ticker case returns the trimmed query as typed |
| Market.DetectMarket | app.py:258-264 | the cleaned query is the trimmed input; US_TICKER iff it is 1–5 ASCII capitals; US_NAME iff it is not that but is non-empty and made of Latin letters, blanks, `.`, `-`, `&`; KR iff it is not name-shaped, including when it is empty |
| Market.TickerShapeIsNameShape | app.py:260-263 | every ticker-shaped query also fits the name pattern, so only the order of the tests sends `AAPL` to the ticker branch |
| Market.BlankQueryIsDomestic | app.py:258-264 | an all-blank query is classified KR with the empty string |
| Market.ForeignCharMeansDomestic | app.py:262-264 | any character outside `[a-zA-Z\s.\-&]` anywhere in the query (a Hangul syllable, a digit) makes it KR |
| Market.DetectMarketIdempotent | app.py:258-264 | classifying the cleaned query again gives the same class and text |
| Market.PaddedTickerIsTicker | app.py:259-261 | one to five capitals with blanks around them are that ticker |
| Market.LatinNameIsUsName | app.py:259-263 | trimmed Latin text that is longer than five characters or holds a non-capital is a US company name, kept as typed |
| Market.TickerExample | app.py:259-261 | `" AAPL "` is the ticker `AAPL` |
| Market.NameExample | app.py:262-263 | `"AT&T Inc."` is a US company name, unchanged |
| Market.HangulExample | app.py:264 | `"삼성전자"` is a domestic name, unchanged |
| Resolver.BestRow | app.py:303 | Python's `min(..., key=len(name))` over the matching rows: none iff no row matches; otherwise a matching row whose name is no longer than any match and strictly shorter than every earlier match |
| Resolver.SelectDomestic | app.py:301-306 | `(None, None)` iff no name contains the query; otherwise the best row's code with its exchange suffix, and its name |
| Resolver.LookupDomestic | app.py:289-308 | a table read that raised gives `(None, None)`; otherwise the selection above |
| Resolver.BestRowUnique | app.py:303 | at most one row satisfies the `min` conditions, so ties are broken by table order and the answer is determined |
| Resolver.SuffixRule | app.py:305 | the ticker is `code + ".KS"` exactly when the chosen row's market is `KOSPI`, and `code + ".KQ"` exactly when it is not |
| Resolver.DomesticNameIsShortestMatch | app.py:302-306 | the returned name contains the query and is no longer than any matching name |
| Resolver.PreferredShareExample | app.py:302-306 | with a common share `삼성전자` and its preferred share `삼성전자우` in either order, the query `삼성전자` resolves to `005930.KS` |
| Resolver.OrElse | app.py:322 | `a or b` on strings: a missing or empty value falls through to the fallback, and any other value is kept |
| Resolver.FirstEquityFrom | app.py:320-321 | the first index from `k` whose upper-cased quote type is `EQUITY` or `ETF`; none iff there is no such index |
| Resolver.SelectForeign | app.py:318-324 | `(None, None)` iff the candidate list is empty; otherwise the ticker is some candidate's symbol, or `''` when the symbol is missing |
| Resolver.LookupForeign | app.py:315-326 | a search that raised gives `(None, None)`; otherwise the selection above |
| Resolver.ForeignPrefersFirstEquity | app.py:320-322 | when some candidate is an equity or ETF, the first one's symbol is returned, under its short name, else its long name, else the query, with a missing or empty value falling through; that name is non-empty when the query is |
| Resolver.ForeignFallsBackToFirst | app.py:323-324 | with no equity or ETF, the first candidate is returned under its short name; the query is used only when the key is absent, and a present empty name is kept |
| Resolver.QuoteTypeIgnoresCase | app.py:321 | quote types `etf` and `Equity` qualify |
| TickerToken.TokenAt | app.py:561 | the capture of a match of `\(([A-Z0-9.\-]{1,10})\)` at a given index, and it is the only capture possible there |
| TickerToken.SearchFrom | app.py:561 | the first match at or after an index, with no match between; none iff nothing matches from there on |
| TickerToken.ParseTicker | app.py:560-562 | the result is none iff nothing matches anywhere; otherwise a 1–10 character `[A-Z0-9.-]` string captured at the leftmost match |
| TickerToken.FirstBracketMatch | app.py:561-562 | a match with no `(` before it is the one returned |
| TickerToken.TickerInBrackets | app.py:561-562 | `"(" + result + ")"` occurs in the searched text |
| TickerToken.TitleTickerExample | app.py:561-562 | `"ABC (000001)"` gives `000001` |
| Cards.GroupAt | app.py:624 | the length of the match of `\([^)]+\)` at the start of the text, and no other prefix is such a group |
| Cards.RemoveParenGroups | app.py:624 | `re.sub` never lengthens the title |
| Cards.NoCloseFixed | app.py:624 | a title without `)` holds no group, so `re.sub` leaves it unchanged |
| Cards.RemoveParenGroupsGroupFree | app.py:624 | no slice of the result of `re.sub` matches `\([^)]+\)` |
| Cards.GroupFreeFixed | app.py:624 | text in which no slice matches the pattern is left unchanged |
| Cards.RemoveParenGroupsIdempotent | app.py:624 | removing the groups a second time changes nothing |
| Cards.TitleName | app.py:624-626 | the name has no blank at either end |
| Cards.TitleFlag | app.py:622-623 | a title holding 🇰🇷 gives 🇰🇷; a title holding 🇺🇸 but not 🇰🇷 gives 🇺🇸; a title with neither flag leaves the flag alone; a changed flag occurs in the title; a known flag stays a known flag |
| Cards.TitleTicker | app.py:627 | the title's ticker, or `''` when there is none, so the field is empty or ticker-shaped |
| Cards.FieldValue | app.py:629-635 | the field value has no blank at either end |
| Cards.KindOfIsMark | app.py:620-634 | a line takes a branch of the `elif` chain exactly when it starts with that branch's mark, because no line starts with two marks |
| Cards.ApplyLine | app.py:619-635 | one line of the loop keeps the card well-shaped: a known flag, trimmed fields, an empty or ticker-shaped ticker |
| Cards.ApplyLines | app.py:619-635 | the loop over a block's lines keeps the card well-shaped |
| Cards.StripAll | app.py:613 | the comprehension's result is made of non-empty trimmed texts, holds the stripped form of every piece that strips to something, as many times as the pieces strip to it, and is never longer than the pieces |
| Cards.StripAllIsFilter | app.py:613 | the result is the pieces stripped one by one, with the empty ones dropped, in order |
| Cards.StripAllPieces | app.py:613 | each kept text is some piece of the input, stripped |
| Cards.ChunkPieces | app.py:613 | every block is a non-empty trimmed part of the answer holding no `---` |
| Cards.LinePieces | app.py:616 | every line is a non-empty trimmed part of its block holding no newline |
| Cards.ParseChunk | app.py:616-635 | the record built from a block is well-shaped whatever the block says |
| Cards.ParseCards | app.py:613-637 | the cards are a subsequence of the parsed blocks, in block order, no more than there are non-empty blocks, each with a non-empty name, and every parsed block with a name is among them, as many times as it was parsed |
| Cards.KeepNamed | app.py:636-637 | the kept cards are a subsequence of the cards, each with a name, and every named card is kept as many times as it occurs |
| Cards.ParsedCardsWellShaped | app.py:617-637 | every kept card's flag is exactly 🇰🇷 or 🇺🇸, and its other fields are trimmed |
| Cards.LaterFieldOverwrites | app.py:628-635 | each labelled field holds the value from the last line carrying its label, or its default when no line does |
| Cards.LaterTitleOverwrites | app.py:620-627 | the name and ticker come from the last `### ` line, or keep their defaults when there is none |
| Cards.LaterFlagOverwrites | app.py:622-623 | the flag comes from the last heading that mentions a flag, with 🇰🇷 winning when it mentions both; a heading without a flag leaves it alone |
| Cards.DefaultStars | app.py:617-618 | a block without a difficulty line keeps the single star |
| Cards.NoTitleNoName | app.py:617-637 | a block without a `### ` line has no name, so it is dropped |
| Cards.ChunkWithoutHeading | app.py:616-636 | a block in which `### ` never occurs yields a nameless record |
| Cards.NoTitleLineNoCards | app.py:613-641 | an answer none of whose lines starts with `### ` yields no card, even when `### ` occurs inside a line |
| Cards.NoHeadingNoCards | app.py:613-641 | an answer in which `### ` never occurs yields no card, which is the raw-text case |
| CardFormat.KindOfFieldLine | app.py:628-635 | a line starting with one of the four labels takes that label's branch of the `elif` chain |
| CardFormat.FieldValueOfFieldLine | app.py:629-635 | the field read from `label + " " + value` is the value, when the value is trimmed and does not hold the label |
| CardFormat.RemoveParenGroupsKeeps | app.py:624 | `re.sub` leaves text without `(` unchanged |
| CardFormat.RemoveTickerGroup | app.py:624 | a bracketed ticker is removed entirely |
| CardFormat.TitleNameOfFormat | app.py:624-626 | the name read from `flag name (ticker)` is the name, when it has no `(`, no flag halves and no blanks at its ends |
| CardFormat.TitleTickerOfFormat | app.py:627 | the ticker read from `flag name (ticker)` is the ticker |
| CardFormat.TitleFlagOfFormat | app.py:622-623 | the flag read from the heading is the flag written there |
| CardFormat.LinesOfFormat | app.py:616 | the lines of a written block are the five lines it was written from |
| CardFormat.ParseFormatBlock | app.py:616-635 | reading a block laid out as the prompt asks (heading, then the four labelled lines) gives back the card it was written from |
| CardFormat.GuardedBlock | app.py:613 | with a newline on each side of a block, the `---` after it is the first one |
| CardFormat.ChunksOfAnswer | app.py:613 | the non-empty stripped `---` pieces of a written answer are the cards' blocks, in order |
| CardFormat.ParseFormatAnswer | app.py:613-637 | reading a written answer gives back exactly the cards it was written from, in order |
| Seqs.Filter | app.py:565-566 | the comprehension's result keeps the chosen elements in order: a subsequence, all chosen, and every chosen element kept as many times as it occurs |
| Seqs.FilterPartition | app.py:565-566 | two complementary filters split a list without losing or duplicating an element |
| Seqs.Take | app.py:571 | `items[:3]` is the first `min(len, 3)` elements |
| Layout.DomesticCards | app.py:565 | `kr_list` is the 🇰🇷 cards, in order, each as many times as it occurs |
| Layout.ForeignCards | app.py:566 | `us_list` is the 🇺🇸 cards, in order, each as many times as it occurs |
| Layout.Slots | app.py:571 | at most three cards are shown, the `i`-th in column `i < 3`, in list order |
| Layout.LayoutCards | app.py:568-571 | the domestic section comes first, then the foreign one, each with at most three cards |
| Layout.RenderRecommendations | app.py:639-642 | the raw answer is shown exactly when no card was parsed |
| Layout.FlagsExclusive | app.py:565-566 | a card with one of the two flags lands in exactly one group |
| Layout.GroupsPartition | app.py:565-566 | on parser output the two groups together hold each parsed card exactly once |
| Layout.PromptOrderLayout | app.py:565-566 | domestic cards followed by foreign cards, the order the prompt asks for, become the two groups unchanged |
| Layout.ExtraCardsHidden | app.py:571 | with more than three cards in a group, exactly the first three are shown |
| Layout.NoTitleLineShowsRawText | app.py:639-641 | an answer none of whose lines is a `### ` heading is shown as it came |
| Layout.NoHeadingShowsRawText | app.py:639-641 | an answer without `### ` is shown as it came |
| Layout.WrittenAnswerShowsGrid | app.py:639-642 | a non-empty written answer is shown as the grid of its cards |
| Session.FlagOf | app.py:732 | the flag is 🇰🇷 or 🇺🇸, and 🇺🇸 exactly for the US market |
| Session.FlagOfInjective | app.py:732 | different markets are announced with different flags |
| Session.ValidateForeign | app.py:328-338 | a ticker is confirmed iff the lookup answered and has recent prices; it is returned unchanged, under a non-empty name when it is non-empty |
| Session.Resolve | app.py:706-721 | the classification picks the lookup: a ticker is validated, a name is searched, anything else is looked up in the table; the market is US exactly for the first two |
| Session.Search | app.py:704-738 | an empty box changes nothing; a found ticker becomes current with its name and market, and the news and last query are cleared; otherwise only `analyzed` becomes false; page, cached recommendations and chart period are never touched; the market is US exactly when the query was not classified KR |
| Session.SearchFindsWhatLookupFinds | app.py:722-736 | the search succeeds exactly when the selected lookup answers with a non-empty ticker, and it reports that answer |
| Session.SearchFails | app.py:733-736 | a lookup with no answer or an empty ticker only clears `analyzed` |
| Session.EmptySymbolFails | app.py:713-722 | a search whose chosen candidate has no symbol fails, although the search answered |
| Session.UnknownDomesticNameKeepsStock | app.py:717-736 | a domestic query with no matching row keeps the previous stock and clears `analyzed` |
| Session.ConfirmedTickerIsCurrent | app.py:709-733 | a confirmed ticker query becomes the current stock as typed once trimmed, in the US market |
| Session.BlankQueryPicksShortestName | app.py:705-720 | as written, a query of blanks is looked up as the empty name, so the stock with the shortest name in the table becomes current |
| Session.SearchTrimmed | app.py:705-738 | with the emptiness test made on the trimmed query, a query of blanks is refused like an empty one |
| Session.TrimmedSearchNeedsAName | app.py:705-720 | with that test, whatever is found was looked up under a non-empty cleaned query |
| Colors.BlankDoesNotParse | app.py:360 | `int(s, 16)` fails on blank text |
| Colors.DigitsParse | app.py:360 | `int(s, 16)` reads a stripped run of hexadecimal digits as their value |
| Colors.ParsedHasDigit | app.py:360 | text that converts holds at least one hexadecimal digit |
| Colors.Slice | app.py:360 | `s[i:j]` is never longer than `j - i`, and is exactly the characters from `i` to `j` when `j` is within the text |
| Colors.DecodeTriple | app.py:360 | the decode succeeds iff all three two-character slices convert, and then gives their three values in order |
| Colors.DecodeHexColor | app.py:360 | `#` and six hexadecimal digits decode pairwise into three components, each in 0..255 |
| Colors.DecodeFormatHex | app.py:397 | three components written as `#RRGGBB` decode back to themselves |
| Colors.MintExample | app.py:40 | the brand mint decodes to (0, 180, 150), the colour the chart grid uses |
| Colors.UpExample | app.py:47 | the rising colour decodes to (11, 140, 94) |
| Colors.DownExample | app.py:48 | the falling colour decodes to (224, 92, 92) |
| Colors.SignedPairExample | app.py:360 | a signed pair such as `-1` converts too, so the 0..255 range comes from the `#RRGGBB` shape, not from `int` |
| Colors.SignedDigit | app.py:360 | a minus sign and one hexadecimal digit convert to that digit, negated |
| Colors.ShortColorFails | app.py:360 | a colour of at most five characters fails to decode |

## Left out

- `check_db.py` is not part of this model. It only prints what the database holds.
- `initialize_database` and the SQL query are left out: they are file and database I/O.
  - The rows a query returns are a parameter, in the order SQLite returns them.
  - `LIKE '%q%'` is taken as case-sensitive substring containment. SQLite's ASCII case-folding and the `%`/`_` wildcards inside the query are not modelled.
- The network services (`yf.Search`, `yf.Ticker`, Gemini, DuckDuckGo) are left out.
  - Their answers are parameters.
  - `get_stock_data`, the charts, `analyze_with_gemini` with its polling loop, `get_news_analysis` and `download_audio` are I/O and floating point.
- Streamlit rendering is left out: the CSS, markup, widgets, spinners and the clock badge. The search action's message is kept as a `Notice`.
- The per-key default fill at app.py:250-252 is modelled as the single record `Session.INITIAL`. All keys are set together on the first run and never removed.
- The up/down colour and arrow of a mini-chart are left out, because they depend on a floating-point return.
- Resolver.Quote: a key that is present with the value null is not modelled; `None` stands only for a missing key. In the source a null `quoteType` makes `.upper()` raise, and the lookup gives `(None, None)` (app.py:321, app.py:325-326). A null `shortname` in the fallback is returned as the name (app.py:324) and becomes `current_name` (app.py:726). A null `symbol` fails `if ticker:` as an empty one does.
- Text.Upper, Text.UpperChar: upper-cases ASCII letters and U+0131 only. No other character's `upper()` can yield text inside `EQUITY` or `ETF`, so the quote-type test is unaffected.
- Colors.ParseHex: does not model `0x` prefixes, underscores between digits or non-ASCII decimal digits. The first two cannot occur in a valid slice of two characters.
- CardFormat.ParseFormatAnswer: requires each written block to hold no `---` of its own, stated on the block rather than field by field. A `---` inside any field would be cut there by the split.

## Findings

| source | as written | input that shows it | evidently intended | confidence | as-written member | corrected member |
|---|---|---|---|---|---|---|
| app.py:705 | `if query:` tests the raw text box, and the query is trimmed only afterwards | the query `"   "` with any non-empty `stock_info` table: it is classified KR with the empty name, `LIKE '%%'` matches every row, and the shortest-named listing becomes the current stock | a query of blanks gets the "enter a stock name" warning, like an empty one | medium, not executed | Session.BlankQueryPicksShortestName | Session.SearchTrimmed |
