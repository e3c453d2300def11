/**
 * The parsing half of `render_ai_recommendation_cards`: the AI's answer is cut
 * into `---`-separated chunks, each chunk into trimmed lines, and each line is
 * folded into a card record; a card without a name is dropped.
 */
module Cards {
  import opened Seqs
  import opened Text
  import opened TickerToken

  /** 🇰🇷 and 🇺🇸: two regional-indicator scalars each. */
  const KR_FLAG: string := "\U{1F1F0}\U{1F1F7}"
  const US_FLAG: string := "\U{1F1FA}\U{1F1F8}"
  /** ⭐, the difficulty a card has when its chunk gives none. */
  const ONE_STAR: string := "\U{2B50}"

  const BLOCK_SEP: string := "---"
  const LINE_SEP: string := "\n"
  const TITLE_MARK: string := "### "
  const SUMMARY_LABEL: string := "**한 줄 요약:**"
  const REASON_LABEL: string := "**추천 이유:**"
  const RISK_LABEL: string := "**리스크:**"
  const DIFFICULTY_LABEL: string := "**난이도:**"

  /** The dict built per chunk: `flag`, `name`, `ticker`, `desc`, `reason`, `risk`, `stars`. */
  datatype Card = Card(
    flag: string,
    name: string,
    ticker: string,
    desc: string,
    reason: string,
    risk: string,
    stars: string)

  /** The record every chunk starts from. */
  const BLANK_CARD: Card := Card(US_FLAG, [], [], [], [], [], ONE_STAR)

  predicate IsFlag(f: string) {
    f == KR_FLAG || f == US_FLAG
  }

  /** What the parser can produce: a known flag, trimmed text fields, and a
      ticker that is empty or shaped like one. */
  predicate WellShaped(c: Card) {
    && IsFlag(c.flag)
    && IsTrimmed(c.name)
    && (c.ticker == [] || IsTicker(c.ticker))
    && IsTrimmed(c.desc)
    && IsTrimmed(c.reason)
    && IsTrimmed(c.risk)
    && IsTrimmed(c.stars)
  }

  /** Which branch of the `if`/`elif` chain a line takes. */
  datatype LineKind = Title | Summary | Reason | Risk | Difficulty | Other

  function KindOf(line: string): LineKind {
    if StartsWith(line, TITLE_MARK) then Title
    else if StartsWith(line, SUMMARY_LABEL) then Summary
    else if StartsWith(line, REASON_LABEL) then Reason
    else if StartsWith(line, RISK_LABEL) then Risk
    else if StartsWith(line, DIFFICULTY_LABEL) then Difficulty
    else Other
  }

  /** `line[4:]`: the title after the heading mark. */
  function TitleText(line: string): string {
    if |line| >= |TITLE_MARK| then line[|TITLE_MARK|..] else []
  }

  /** `\([^)]+\)` matches the whole of `g`. */
  predicate IsParenGroup(g: string) {
    |g| >= 3 && g[0] == '(' && g[|g| - 1] == ')' && forall k :: 1 <= k < |g| - 1 ==> g[k] != ')'
  }

  /** The index of the first `)` at or after `k`. */
  function CloseFrom(s: string, k: nat): (r: Option<nat>)
    ensures r.Some? ==> k <= r.value < |s| && s[r.value] == ')'
    ensures r.Some? ==> forall i :: k <= i < r.value ==> s[i] != ')'
    ensures r.None? ==> forall i :: k <= i < |s| ==> s[i] != ')'
    decreases |s| - k
  {
    if k >= |s| then None
    else if s[k] == ')' then Some(k)
    else CloseFrom(s, k + 1)
  }

  /** The length of the match of `\([^)]+\)` at the start of `s`, if it
      matches there; the greedy class stops at the first `)`. */
  function GroupAt(s: string): (r: Option<nat>)
    ensures r.Some? ==> r.value <= |s| && IsParenGroup(s[..r.value])
    ensures forall n :: 0 <= n <= |s| && IsParenGroup(s[..n]) ==> r == Some(n)
  {
    if |s| == 0 || s[0] != '(' then None
    else match CloseFrom(s, 1)
      case Some(j) =>
        if j >= 2 then
          assert IsParenGroup(s[..j + 1]);
          Some(j + 1)
        else None
      case None => None
  }

  /** `re.sub(r'\([^)]+\)', '', s)`: scanning left to right, every match is
      removed and scanning resumes after it. */
  function RemoveParenGroups(s: string): (r: string)
    ensures |r| <= |s|
    decreases |s|
  {
    if |s| == 0 then []
    else match GroupAt(s)
      case Some(n) => RemoveParenGroups(s[n..])
      case None => [s[0]] + RemoveParenGroups(s[1..])
  }

  /** The title with bracketed groups and both flags removed, then trimmed. */
  function TitleName(title: string): (r: string)
    ensures IsTrimmed(r)
  {
    Strip(RemoveAll(RemoveAll(RemoveParenGroups(title), KR_FLAG), US_FLAG))
  }

  /** `parse_ticker_from_block(title) or ''` */
  function TitleTicker(title: string): (r: string)
    ensures r == [] || IsTicker(r)
  {
    match ParseTicker(title)
    case Some(t) => t
    case None => []
  }

  /** 🇰🇷 if the title holds it, else 🇺🇸 if the title holds that, else unchanged. */
  function TitleFlag(title: string, current: string): (r: string)
    ensures IsFlag(current) ==> IsFlag(r)
    ensures r == current || Contains(title, r)
    ensures Contains(title, KR_FLAG) ==> r == KR_FLAG
    ensures !Contains(title, KR_FLAG) && Contains(title, US_FLAG) ==> r == US_FLAG
    ensures !Contains(title, KR_FLAG) && !Contains(title, US_FLAG) ==> r == current
  {
    if Contains(title, KR_FLAG) then KR_FLAG
    else if Contains(title, US_FLAG) then US_FLAG
    else current
  }

  /** `line.replace(label, '').strip()` */
  function FieldValue(line: string, tag: string): (r: string)
    requires |tag| > 0
    ensures IsTrimmed(r)
  {
    Strip(RemoveAll(line, tag))
  }

  /** One pass of the loop body over a line. */
  function ApplyLine(c: Card, line: string): (r: Card)
    ensures WellShaped(c) ==> WellShaped(r)
  {
    match KindOf(line)
    case Title =>
      var title := TitleText(line);
      c.(flag := TitleFlag(title, c.flag), name := TitleName(title), ticker := TitleTicker(title))
    case Summary => c.(desc := FieldValue(line, SUMMARY_LABEL))
    case Reason => c.(reason := FieldValue(line, REASON_LABEL))
    case Risk => c.(risk := FieldValue(line, RISK_LABEL))
    case Difficulty => c.(stars := FieldValue(line, DIFFICULTY_LABEL))
    case Other => c
  }

  /** The loop over a chunk's lines, first to last: the last line is applied
      to the card the lines before it built. */
  function ApplyLines(c: Card, lines: seq<string>): (r: Card)
    ensures WellShaped(c) ==> WellShaped(r)
    decreases |lines|
  {
    if |lines| == 0 then c else ApplyLine(ApplyLines(c, lines[..|lines| - 1]), lines[|lines| - 1])
  }

  /** `[p.strip() for p in pieces if p.strip()]`: every piece that strips to
      something is kept, stripped. */
  function StripAll(pieces: seq<string>): (r: seq<string>)
    ensures |r| <= |pieces|
    ensures AllTrimmedNonEmpty(r)
    ensures forall k :: 0 <= k < |pieces| && Strip(pieces[k]) != [] ==> Strip(pieces[k]) in r
    ensures forall x :: multiset(r)[x] == if x != [] then multiset(StripEach(pieces))[x] else 0
    decreases |pieces|
  {
    if |pieces| == 0 then []
    else
      var rest := StripAll(pieces[1..]);
      StripAllStep(pieces, rest);
      if Strip(pieces[0]) != [] then [Strip(pieces[0])] + rest else rest
  }

  /** One step of the comprehension keeps the three facts about its result. */
  lemma StripAllStep(pieces: seq<string>, rest: seq<string>)
    requires |pieces| > 0
    requires |rest| <= |pieces| - 1 && AllTrimmedNonEmpty(rest)
    requires forall k :: 0 <= k < |pieces[1..]| && Strip(pieces[1..][k]) != [] ==> Strip(pieces[1..][k]) in rest
    requires forall x :: multiset(rest)[x] == if x != [] then multiset(StripEach(pieces[1..]))[x] else 0
    ensures var r := if Strip(pieces[0]) != [] then [Strip(pieces[0])] + rest else rest;
      && |r| <= |pieces|
      && AllTrimmedNonEmpty(r)
      && (forall k :: 0 <= k < |pieces| && Strip(pieces[k]) != [] ==> Strip(pieces[k]) in r)
      && (forall x :: multiset(r)[x] == if x != [] then multiset(StripEach(pieces))[x] else 0)
  {
    var head := Strip(pieces[0]);
    var r := if head != [] then [head] + rest else rest;
    StripEachCons(pieces);
    var all := StripEach(pieces);
    assert all == [all[0]] + all[1..];
    assert multiset(all) == multiset{head} + multiset(StripEach(pieces[1..]));
    assert multiset(r) == if head != [] then multiset{head} + multiset(rest) else multiset(rest);
    forall k | 1 <= k < |pieces| && Strip(pieces[k]) != []
      ensures Strip(pieces[k]) in r
    {
      assert pieces[1..][k - 1] == pieces[k];
      assert Strip(pieces[k]) in rest;
    }
    if head != [] {
      ConsTrimmed(head, rest);
      assert head == r[0];
    }
  }

  predicate AllTrimmedNonEmpty(lines: seq<string>) {
    forall k :: 0 <= k < |lines| ==> lines[k] != [] && IsTrimmed(lines[k])
  }

  lemma ConsTrimmed(head: string, rest: seq<string>)
    requires head != [] && IsTrimmed(head) && AllTrimmedNonEmpty(rest)
    ensures AllTrimmedNonEmpty([head] + rest)
  {
  }

  /** `[p.strip() for p in pieces]` */
  function StripEach(pieces: seq<string>): (r: seq<string>)
    ensures |r| == |pieces|
    ensures forall i :: 0 <= i < |r| ==> r[i] == Strip(pieces[i])
  {
    seq(|pieces|, i requires 0 <= i < |pieces| => Strip(pieces[i]))
  }

  predicate NonBlank(s: string) {
    s != []
  }

  /** The recursive definition is the comprehension: strip every piece, then
      keep the non-empty results in order. */
  lemma {:induction false} StripAllIsFilter(pieces: seq<string>)
    ensures StripAll(pieces) == Filter(NonBlank, StripEach(pieces))
    decreases |pieces|
  {
    if |pieces| > 0 {
      StripAllIsFilter(pieces[1..]);
      StripEachCons(pieces);
      FilterStep(NonBlank, StripEach(pieces));
    }
  }

  lemma StripEachCons(pieces: seq<string>)
    requires |pieces| > 0
    ensures StripEach(pieces)[0] == Strip(pieces[0])
    ensures StripEach(pieces)[1..] == StripEach(pieces[1..])
  {
  }

  /** Every kept piece is one of the pieces, stripped. */
  lemma StripAllPieces(pieces: seq<string>)
    ensures MapsFrom(Strip, StripAll(pieces), pieces)
  {
    StripAllIsFilter(pieces);
    var r, t := StripAll(pieces), StripEach(pieces);
    forall k | 0 <= k < |r|
      ensures exists j :: 0 <= j < |pieces| && r[k] == Strip(pieces[j])
    {
      assert r[k] in t;
      var j :| 0 <= j < |t| && t[j] == r[k];
    }
  }

  /** The non-empty `---`-separated chunks of the answer, trimmed. */
  function Chunks(text: string): seq<string> {
    StripAll(Split(text, BLOCK_SEP))
  }

  /** The non-empty lines of a chunk, trimmed. */
  function Lines(chunk: string): seq<string> {
    StripAll(Split(chunk, LINE_SEP))
  }

  /** The card one chunk describes, before the name check. */
  function ParseChunk(chunk: string): (r: Card)
    ensures WellShaped(r)
  {
    BlankWellShaped();
    ApplyLines(BLANK_CARD, Lines(chunk))
  }

  /** The starting record is one the parser could produce. */
  lemma BlankWellShaped()
    ensures WellShaped(BLANK_CARD)
  {
  }

  /** Every chunk parsed, in chunk order. */
  function ParseEach(chunks: seq<string>): (r: seq<Card>)
    ensures |r| == |chunks|
    ensures forall i :: 0 <= i < |r| ==> r[i] == ParseChunk(chunks[i])
  {
    seq(|chunks|, i requires 0 <= i < |chunks| => ParseChunk(chunks[i]))
  }

  predicate HasName(c: Card) {
    c.name != []
  }

  /** The list `parsed`: the named cards, in the order of their chunks. An
      empty list is what sends the caller to the raw-text fallback. */
  function ParseCards(text: string): (r: seq<Card>)
    ensures |r| <= |Chunks(text)|
    ensures IsSubsequence(r, ParseEach(Chunks(text)))
    ensures forall k :: 0 <= k < |r| ==> r[k].name != []
    ensures forall k :: 0 <= k < |Chunks(text)| && ParseEach(Chunks(text))[k].name != [] ==> ParseEach(Chunks(text))[k] in r
    ensures forall c :: multiset(r)[c] == if c.name != [] then multiset(ParseEach(Chunks(text)))[c] else 0
  {
    KeepNamed(ParseEach(Chunks(text)))
  }

  /** `if card['name']: parsed.append(card)` over the cards in order. */
  function KeepNamed(cards: seq<Card>): (r: seq<Card>)
    ensures |r| <= |cards|
    ensures IsSubsequence(r, cards)
    ensures forall k :: 0 <= k < |r| ==> r[k].name != []
    ensures forall k :: 0 <= k < |cards| && cards[k].name != [] ==> cards[k] in r
    ensures forall c :: multiset(r)[c] == if c.name != [] then multiset(cards)[c] else 0
  {
    var r := Filter(HasName, cards);
    forall c
      ensures multiset(r)[c] == if c.name != [] then multiset(cards)[c] else 0
    {
      if c !in cards {
        assert c !in r;
      }
    }
    assert forall k :: 0 <= k < |r| ==> HasName(r[k]);
    assert forall k :: 0 <= k < |cards| && cards[k].name != [] ==> HasName(cards[k]);
    r
  }

  /** Every card the parser keeps has a known flag, trimmed fields and an
      empty or ticker-shaped ticker. */
  lemma ParsedCardsWellShaped(text: string)
    ensures forall k :: 0 <= k < |ParseCards(text)| ==> WellShaped(ParseCards(text)[k])
  {
    var parsed := ParseEach(Chunks(text));
    EachParsedWellShaped(Chunks(text));
    var r := ParseCards(text);
    forall k | 0 <= k < |r|
      ensures WellShaped(r[k])
    {
      assert r[k] in parsed;
    }
  }

  lemma EachParsedWellShaped(chunks: seq<string>)
    ensures forall c :: c in ParseEach(chunks) ==> WellShaped(c)
  {
  }

  // ---------------------------------------------------------------------------
  // Later lines overwrite earlier ones.

  /** The last line of the given kind, looking from the end. */
  function LastOfKind(lines: seq<string>, k: LineKind): (r: Option<string>)
    ensures r.Some? ==> r.value in lines && KindOf(r.value) == k
    ensures r.None? ==> forall i :: 0 <= i < |lines| ==> KindOf(lines[i]) != k
    decreases |lines|
  {
    if |lines| == 0 then None
    else if KindOf(lines[|lines| - 1]) == k then Some(lines[|lines| - 1])
    else LastOfKind(lines[..|lines| - 1], k)
  }

  /** The title of the last heading line that mentions a flag, looking from the end. */
  function LastFlagTitle(lines: seq<string>): Option<string>
    decreases |lines|
  {
    if |lines| == 0 then None
    else
      var l := lines[|lines| - 1];
      if KindOf(l) == Title && (Contains(TitleText(l), KR_FLAG) || Contains(TitleText(l), US_FLAG))
      then Some(TitleText(l))
      else LastFlagTitle(lines[..|lines| - 1])
  }

  function FieldOr(last: Option<string>, tag: string, default: string): string
    requires |tag| > 0
  {
    match last
    case Some(l) => FieldValue(l, tag)
    case None => default
  }

  /** The four labelled fields, by the kind of line that sets them. */
  predicate IsFieldKind(k: LineKind) {
    k == Summary || k == Reason || k == Risk || k == Difficulty
  }

  function FieldOf(c: Card, k: LineKind): string
    requires IsFieldKind(k)
  {
    match k
    case Summary => c.desc
    case Reason => c.reason
    case Risk => c.risk
    case Difficulty => c.stars
  }

  function TagOf(k: LineKind): (r: string)
    requires IsFieldKind(k)
    ensures |r| > 0
  {
    match k
    case Summary => SUMMARY_LABEL
    case Reason => REASON_LABEL
    case Risk => RISK_LABEL
    case Difficulty => DIFFICULTY_LABEL
  }

  /** One line sets a labelled field exactly when it carries that label. */
  lemma FieldAfterLine(d: Card, l: string, k: LineKind)
    requires IsFieldKind(k)
    ensures FieldOf(ApplyLine(d, l), k) == if KindOf(l) == k then FieldValue(l, TagOf(k)) else FieldOf(d, k)
  {
  }

  /** A labelled field comes from the last line with its label, or keeps its
      starting value when no line has it. */
  lemma {:induction false} LaterFieldOverwrites(c: Card, lines: seq<string>, k: LineKind)
    requires IsFieldKind(k)
    ensures FieldOf(ApplyLines(c, lines), k) == FieldOr(LastOfKind(lines, k), TagOf(k), FieldOf(c, k))
    decreases |lines|
  {
    if |lines| > 0 {
      var init := lines[..|lines| - 1];
      LaterFieldOverwrites(c, init, k);
      FieldAfterLine(ApplyLines(c, init), lines[|lines| - 1], k);
    }
  }

  /** The name and ticker come from the last heading line, or keep their
      starting values when there is none. */
  lemma {:induction false} LaterTitleOverwrites(c: Card, lines: seq<string>)
    ensures ApplyLines(c, lines).name ==
      (match LastOfKind(lines, Title) case Some(l) => TitleName(TitleText(l)) case None => c.name)
    ensures ApplyLines(c, lines).ticker ==
      (match LastOfKind(lines, Title) case Some(l) => TitleTicker(TitleText(l)) case None => c.ticker)
    decreases |lines|
  {
    if |lines| > 0 {
      LaterTitleOverwrites(c, lines[..|lines| - 1]);
    }
  }

  /** The flag comes from the last heading that mentions one, 🇰🇷 winning when
      it mentions both; a heading without a flag leaves it alone. */
  lemma {:induction false} LaterFlagOverwrites(c: Card, lines: seq<string>)
    ensures ApplyLines(c, lines).flag ==
      (match LastFlagTitle(lines) case Some(t) => (if Contains(t, KR_FLAG) then KR_FLAG else US_FLAG) case None => c.flag)
    decreases |lines|
  {
    if |lines| > 0 {
      LaterFlagOverwrites(c, lines[..|lines| - 1]);
    }
  }

  /** A chunk without a difficulty line keeps the one-star default. */
  lemma DefaultStars(chunk: string)
    requires forall i :: 0 <= i < |Lines(chunk)| ==> KindOf(Lines(chunk)[i]) != Difficulty
    ensures ParseChunk(chunk).stars == ONE_STAR
  {
    LaterFieldOverwrites(BLANK_CARD, Lines(chunk), Difficulty);
  }

  /** No line of the chunk takes the `### ` branch. */
  predicate NoTitleLine(chunk: string) {
    forall i :: 0 <= i < |Lines(chunk)| ==> KindOf(Lines(chunk)[i]) != Title
  }

  /** A chunk without a heading line has no name, so its card is dropped. */
  lemma NoTitleNoName(chunk: string)
    requires NoTitleLine(chunk)
    ensures ParseChunk(chunk).name == []
  {
    LaterTitleOverwrites(BLANK_CARD, Lines(chunk));
  }

  /** An answer none of whose lines is a `### ` heading yields no card, even
      when `### ` occurs inside a line. */
  lemma NoTitleLineNoCards(text: string)
    requires forall i :: 0 <= i < |Chunks(text)| ==> NoTitleLine(Chunks(text)[i])
    ensures ParseCards(text) == []
  {
    var chunks := Chunks(text);
    var parsed := ParseEach(chunks);
    forall i | 0 <= i < |parsed|
      ensures !HasName(parsed[i])
    {
      NoTitleNoName(chunks[i]);
    }
    FilterNone(HasName, parsed);
  }

  /** Every chunk is a piece of the answer, and every line a piece of its chunk. */
  lemma StripAllContained(s: string, pieces: seq<string>)
    requires forall j :: 0 <= j < |pieces| ==> Contains(s, pieces[j])
    ensures forall k :: 0 <= k < |StripAll(pieces)| ==> Contains(s, StripAll(pieces)[k])
  {
    var r := StripAll(pieces);
    StripAllPieces(pieces);
    forall k | 0 <= k < |r|
      ensures Contains(s, r[k])
    {
      StrippedPieceContained(s, pieces, r[k]);
    }
  }

  lemma StrippedPieceContained(s: string, pieces: seq<string>, x: string)
    requires forall j :: 0 <= j < |pieces| ==> Contains(s, pieces[j])
    requires exists j :: 0 <= j < |pieces| && x == Strip(pieces[j])
    ensures Contains(s, x)
  {
    var j :| 0 <= j < |pieces| && x == Strip(pieces[j]);
    StripContained(pieces[j]);
    ContainsTrans(s, pieces[j], x);
  }

  /** No line of a chunk without `### ` starts with it. */
  lemma LinesWithoutHeading(chunk: string)
    requires !Contains(chunk, TITLE_MARK)
    ensures forall j :: 0 <= j < |Lines(chunk)| ==> !StartsWith(Lines(chunk)[j], TITLE_MARK)
  {
    SplitPieces(chunk, LINE_SEP);
    StripAllContained(chunk, Split(chunk, LINE_SEP));
    var lines := Lines(chunk);
    forall j | 0 <= j < |lines|
      ensures !StartsWith(lines[j], TITLE_MARK)
    {
      if StartsWith(lines[j], TITLE_MARK) {
        StartsWithContains(lines[j], TITLE_MARK);
        ContainsTrans(chunk, lines[j], TITLE_MARK);
      }
    }
  }

  /** A chunk in which `### ` never occurs has no heading line, so no name. */
  lemma ChunkWithoutHeading(chunk: string)
    requires !Contains(chunk, TITLE_MARK)
    ensures ParseChunk(chunk).name == []
  {
    LinesWithoutHeading(chunk);
    var lines := Lines(chunk);
    forall j | 0 <= j < |lines|
      ensures KindOf(lines[j]) != Title
    {
      NotHeadingNotTitle(lines[j]);
    }
    NoTitleNoName(chunk);
  }

  lemma NotHeadingNotTitle(line: string)
    requires !StartsWith(line, TITLE_MARK)
    ensures KindOf(line) != Title
  {
  }

  /** No chunk of an answer without `### ` holds it either. */
  lemma ChunksWithoutHeading(text: string)
    requires !Contains(text, TITLE_MARK)
    ensures forall i :: 0 <= i < |Chunks(text)| ==> !Contains(Chunks(text)[i], TITLE_MARK)
  {
    var chunks := Chunks(text);
    SplitPieces(text, BLOCK_SEP);
    StripAllContained(text, Split(text, BLOCK_SEP));
    forall i | 0 <= i < |chunks|
      ensures !Contains(chunks[i], TITLE_MARK)
    {
      if Contains(chunks[i], TITLE_MARK) {
        ContainsTrans(text, chunks[i], TITLE_MARK);
      }
    }
  }

  /** An answer in which `### ` never occurs yields no card at all, so the
      raw text is shown instead. */
  lemma NoHeadingNoCards(text: string)
    requires !Contains(text, TITLE_MARK)
    ensures ParseCards(text) == []
  {
    var chunks := Chunks(text);
    var parsed := ParseEach(chunks);
    ChunksWithoutHeading(text);
    forall i | 0 <= i < |parsed|
      ensures !HasName(parsed[i])
    {
      ChunkWithoutHeading(chunks[i]);
    }
    FilterNone(HasName, parsed);
  }

  // ---------------------------------------------------------------------------
  // The order of the `elif` chain.

  /** The heading mark or label that sends a line down the branch of kind `k`. */
  function MarkOf(k: LineKind): string
    requires k != Other
  {
    if k == Title then TITLE_MARK else TagOf(k)
  }

  lemma StartsWithChars(line: string, m: string)
    requires StartsWith(line, m) && |m| >= 3
    ensures line[0] == m[0] && line[2] == m[2]
  {
    assert line[..|m|] == m;
  }

  /** The marks differ in their first or third character, so no line starts
      with two of them: a line takes a branch exactly when it starts with that
      branch's mark, whatever the order of the tests. */
  lemma KindOfIsMark(line: string, k: LineKind)
    requires k != Other
    ensures KindOf(line) == k <==> StartsWith(line, MarkOf(k))
  {
    var kind := KindOf(line);
    if StartsWith(line, MarkOf(k)) && kind != k {
      assert kind != Other;
      StartsWithChars(line, MarkOf(k));
      StartsWithChars(line, MarkOf(kind));
      assert false;
    }
  }

  // ---------------------------------------------------------------------------
  // `re.sub(r'\([^)]+\)', '', s)` leaves no match behind.

  /** No `)` anywhere in `s`. */
  predicate NoClose(s: string) {
    forall k :: 0 <= k < |s| ==> s[k] != ')'
  }

  /** No slice of `s` is a match of `\([^)]+\)`. */
  ghost predicate GroupFree(s: string) {
    forall i, j :: 0 <= i <= j <= |s| ==> !IsParenGroup(s[i..j])
  }

  /** Every `(` is followed at once by `)`, or by no `)` at all. */
  predicate ParensInert(s: string) {
    forall i :: 0 <= i < |s| && s[i] == '(' ==> (i + 1 < |s| && s[i + 1] == ')') || NoClose(s[i + 1..])
  }

  /** Text without `)` holds no group, so nothing is removed. */
  lemma {:induction false} NoCloseFixed(s: string)
    requires NoClose(s)
    ensures RemoveParenGroups(s) == s
    decreases |s|
  {
    if |s| > 0 {
      assert GroupAt(s).None?;
      assert NoClose(s[1..]);
      NoCloseFixed(s[1..]);
    }
  }

  lemma ConsInert(c: char, t: string)
    requires ParensInert(t)
    requires c == '(' ==> |t| > 0 && t[0] == ')'
    ensures ParensInert([c] + t)
  {
    var s := [c] + t;
    forall i | 0 < i < |s| && s[i] == '('
      ensures (i + 1 < |s| && s[i + 1] == ')') || NoClose(s[i + 1..])
    {
      assert s[i] == t[i - 1];
      assert s[i + 1..] == t[i..];
    }
  }

  /** What the scan keeps has every `(` left inert. */
  lemma {:induction false} RemoveParenGroupsInert(s: string)
    ensures ParensInert(RemoveParenGroups(s))
    decreases |s|
  {
    if |s| > 0 {
      match GroupAt(s)
      case Some(n) =>
        RemoveParenGroupsInert(s[n..]);
      case None =>
        if s[0] == '(' && CloseFrom(s, 1).None? {
          assert NoClose(s[1..]);
          NoCloseFixed(s[1..]);
          forall i | 0 <= i < |s| && s[i] == '('
            ensures NoClose(s[i + 1..])
          {
            var tail := s[i + 1..];
            forall k | 0 <= k < |tail|
              ensures tail[k] != ')'
            {
              assert tail[k] == s[1..][k + i];
            }
          }
        } else if s[0] == '(' {
          var t := s[1..];
          assert t[0] == ')' && GroupAt(t).None?;
          assert t[1..] == s[2..];
          RemoveParenGroupsInert(s[2..]);
          ConsInert(')', RemoveParenGroups(s[2..]));
          ConsInert('(', RemoveParenGroups(t));
        } else {
          RemoveParenGroupsInert(s[1..]);
          ConsInert(s[0], RemoveParenGroups(s[1..]));
        }
    }
  }

  lemma InertGroupFree(s: string)
    requires ParensInert(s)
    ensures GroupFree(s)
  {
    forall i, j | 0 <= i <= j <= |s|
      ensures !IsParenGroup(s[i..j])
    {
      var g := s[i..j];
      if |g| >= 3 && g[0] == '(' {
        assert s[i] == '(';
        if i + 1 < |s| && s[i + 1] == ')' {
          assert g[1] == ')';
        } else {
          assert g[|g| - 1] == s[i + 1..][j - 2 - i];
        }
      }
    }
  }

  /** The result of `re.sub` holds no match of its pattern. */
  lemma RemoveParenGroupsGroupFree(s: string)
    ensures GroupFree(RemoveParenGroups(s))
  {
    RemoveParenGroupsInert(s);
    InertGroupFree(RemoveParenGroups(s));
  }

  /** Text holding no match is left unchanged. */
  lemma {:induction false} GroupFreeFixed(s: string)
    requires GroupFree(s)
    ensures RemoveParenGroups(s) == s
    decreases |s|
  {
    if |s| > 0 {
      forall n | 0 <= n <= |s|
        ensures !IsParenGroup(s[..n])
      {
        assert s[..n] == s[0..n];
      }
      assert GroupAt(s).None?;
      forall i, j | 0 <= i <= j <= |s| - 1
        ensures !IsParenGroup(s[1..][i..j])
      {
        assert s[1..][i..j] == s[i + 1..j + 1];
      }
      GroupFreeFixed(s[1..]);
    }
  }

  /** Removing the groups a second time changes nothing. */
  lemma RemoveParenGroupsIdempotent(s: string)
    ensures RemoveParenGroups(RemoveParenGroups(s)) == RemoveParenGroups(s)
  {
    RemoveParenGroupsGroupFree(s);
    GroupFreeFixed(RemoveParenGroups(s));
  }

  // ---------------------------------------------------------------------------
  // Blocks and lines are pieces of the text they come from.

  /** A kept piece of a split is a trimmed, non-empty part of the text that
      does not hold the separator. */
  lemma StripAllOfSplit(s: string, sep: string)
    requires |sep| > 0
    ensures AllTrimmedNonEmpty(StripAll(Split(s, sep)))
    ensures forall k :: 0 <= k < |StripAll(Split(s, sep))| ==>
      Contains(s, StripAll(Split(s, sep))[k]) && !Contains(StripAll(Split(s, sep))[k], sep)
  {
    var pieces := Split(s, sep);
    var r := StripAll(pieces);
    SplitPieces(s, sep);
    StripAllPieces(pieces);
    forall k | 0 <= k < |r|
      ensures Contains(s, r[k]) && !Contains(r[k], sep)
    {
      var j :| 0 <= j < |pieces| && r[k] == Strip(pieces[j]);
      StripContained(pieces[j]);
      ContainsTrans(s, pieces[j], r[k]);
      if Contains(r[k], sep) {
        ContainsTrans(pieces[j], r[k], sep);
      }
    }
  }

  /** Every block is a trimmed, non-empty part of the answer without `---`. */
  lemma ChunkPieces(text: string)
    ensures AllTrimmedNonEmpty(Chunks(text))
    ensures forall i :: 0 <= i < |Chunks(text)| ==> Contains(text, Chunks(text)[i]) && !Contains(Chunks(text)[i], BLOCK_SEP)
  {
    StripAllOfSplit(text, BLOCK_SEP);
  }

  /** Every line is a trimmed, non-empty part of its block without a newline. */
  lemma LinePieces(chunk: string)
    ensures AllTrimmedNonEmpty(Lines(chunk))
    ensures forall i :: 0 <= i < |Lines(chunk)| ==> Contains(chunk, Lines(chunk)[i]) && !Contains(Lines(chunk)[i], LINE_SEP)
  {
    StripAllOfSplit(chunk, LINE_SEP);
  }
}
