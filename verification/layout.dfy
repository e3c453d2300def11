/**
 * `render_stock_cards` and the fallback in `render_ai_recommendation_cards`:
 * the parsed cards are grouped by flag into a domestic and a foreign
 * section, and each section shows at most three cards, one per column.
 */
module Layout {
  import opened Seqs
  import opened Text
  import opened Cards
  import opened CardFormat

  /** `'🇰🇷' in s['flag']` */
  predicate IsDomestic(c: Card) {
    Contains(c.flag, KR_FLAG)
  }

  /** `'🇺🇸' in s['flag']` */
  predicate IsForeign(c: Card) {
    Contains(c.flag, US_FLAG)
  }

  /** `kr_list`: the domestic cards, in their original order. */
  function DomesticCards(cards: seq<Card>): (r: seq<Card>)
    ensures IsSubsequence(r, cards)
    ensures forall k :: 0 <= k < |r| ==> IsDomestic(r[k])
    ensures forall k :: 0 <= k < |cards| && IsDomestic(cards[k]) ==> cards[k] in r
    ensures forall c :: multiset(r)[c] == if IsDomestic(c) then multiset(cards)[c] else 0
  {
    var r := Filter(IsDomestic, cards);
    forall c
      ensures multiset(r)[c] == if IsDomestic(c) then multiset(cards)[c] else 0
    {
      if c !in cards {
        assert c !in r;
      }
    }
    r
  }

  /** `us_list`: the foreign cards, in their original order. */
  function ForeignCards(cards: seq<Card>): (r: seq<Card>)
    ensures IsSubsequence(r, cards)
    ensures forall k :: 0 <= k < |r| ==> IsForeign(r[k])
    ensures forall k :: 0 <= k < |cards| && IsForeign(cards[k]) ==> cards[k] in r
    ensures forall c :: multiset(r)[c] == if IsForeign(c) then multiset(cards)[c] else 0
  {
    var r := Filter(IsForeign, cards);
    forall c
      ensures multiset(r)[c] == if IsForeign(c) then multiset(cards)[c] else 0
    {
      if c !in cards {
        assert c !in r;
      }
    }
    r
  }

  /** One card placed in column `column` of a section. */
  datatype Slot = Slot(column: nat, card: Card)

  /** `enumerate(items[:3])`: the first three cards, in columns 0, 1 and 2. */
  function Slots(items: seq<Card>): (r: seq<Slot>)
    ensures |r| == if |items| < 3 then |items| else 3
    ensures forall k :: 0 <= k < |r| ==> r[k].column == k < 3 && r[k].card == items[k]
  {
    var shown := Take(items, 3);
    seq(|shown|, i requires 0 <= i < |shown| => Slot(i, shown[i]))
  }

  const DOMESTIC_TITLE: string := "국내 종목"
  const FOREIGN_TITLE: string := "미국 종목"

  /** A section heading with the cards placed under it. */
  datatype Section = Section(title: string, slots: seq<Slot>)

  /** What the recommendation tab shows: the answer as it came when no card
      could be read from it, otherwise the two sections, domestic first. */
  datatype Rendering = RawText(text: string) | CardGrid(domestic: Section, foreign: Section)

  function LayoutCards(cards: seq<Card>): (r: Rendering)
    ensures r.CardGrid?
    ensures r.domestic.title == DOMESTIC_TITLE && r.foreign.title == FOREIGN_TITLE
    ensures |r.domestic.slots| <= 3 && |r.foreign.slots| <= 3
  {
    CardGrid(Section(DOMESTIC_TITLE, Slots(DomesticCards(cards))),
             Section(FOREIGN_TITLE, Slots(ForeignCards(cards))))
  }

  /** `render_ai_recommendation_cards`: the raw answer exactly when no card
      has a name. */
  function RenderRecommendations(text: string): (r: Rendering)
    ensures r.RawText? <==> ParseCards(text) == []
    ensures r.RawText? ==> r.text == text
  {
    var parsed := ParseCards(text);
    if parsed == [] then RawText(text) else LayoutCards(parsed)
  }

  /** A flag holds one of the two emoji and not the other. */
  lemma FlagsExclusive(c: Card)
    requires IsFlag(c.flag)
    ensures IsDomestic(c) != IsForeign(c)
  {
    assert OccursAt(c.flag, c.flag, 0);
  }

  /** On parser output the two groups split the cards: every card lands in
      exactly one of them. */
  lemma GroupsPartition(text: string)
    ensures multiset(DomesticCards(ParseCards(text))) + multiset(ForeignCards(ParseCards(text)))
      == multiset(ParseCards(text))
    ensures |DomesticCards(ParseCards(text))| + |ForeignCards(ParseCards(text))| == |ParseCards(text)|
  {
    var parsed := ParseCards(text);
    ParsedCardsWellShaped(text);
    forall x | x in parsed
      ensures IsDomestic(x) != IsForeign(x)
    {
      var k :| 0 <= k < |parsed| && parsed[k] == x;
      FlagsExclusive(x);
    }
    FilterPartition(IsDomestic, IsForeign, parsed);
  }

  /** An answer without `### ` is shown as it came. */
  lemma NoHeadingShowsRawText(text: string)
    requires !Contains(text, TITLE_MARK)
    ensures RenderRecommendations(text) == RawText(text)
  {
    NoHeadingNoCards(text);
  }

  /** An answer in which no line is a `### ` heading is shown as it came. */
  lemma NoTitleLineShowsRawText(text: string)
    requires forall i :: 0 <= i < |Chunks(text)| ==> NoTitleLine(Chunks(text)[i])
    ensures RenderRecommendations(text) == RawText(text)
  {
    NoTitleLineNoCards(text);
  }

  /** A written answer with at least one card is shown as the grid of its cards. */
  lemma WrittenAnswerShowsGrid(cards: seq<Card>)
    requires |cards| > 0
    requires forall i :: 0 <= i < |cards| ==> Framable(cards[i]) && cards[i].name != []
    ensures RenderRecommendations(FormatAnswer(cards)) == LayoutCards(cards)
  {
    ParseFormatAnswer(cards);
  }

  lemma DomesticFlag(c: Card)
    requires c.flag == KR_FLAG
    ensures IsDomestic(c) && !IsForeign(c)
  {
    FlagsExclusive(c);
    assert OccursAt(c.flag, KR_FLAG, 0);
  }

  lemma ForeignFlag(c: Card)
    requires c.flag == US_FLAG
    ensures IsForeign(c) && !IsDomestic(c)
  {
    FlagsExclusive(c);
    assert OccursAt(c.flag, US_FLAG, 0);
  }

  /** Domestic cards followed by foreign cards, the order the prompt asks
      for, fill the two groups in their original order. */
  lemma PromptOrderLayout(kr: seq<Card>, us: seq<Card>)
    requires forall i :: 0 <= i < |kr| ==> kr[i].flag == KR_FLAG
    requires forall i :: 0 <= i < |us| ==> us[i].flag == US_FLAG
    ensures DomesticCards(kr + us) == kr
    ensures ForeignCards(kr + us) == us
  {
    forall i | 0 <= i < |kr|
      ensures IsDomestic(kr[i]) && !IsForeign(kr[i])
    {
      DomesticFlag(kr[i]);
    }
    forall i | 0 <= i < |us|
      ensures IsForeign(us[i]) && !IsDomestic(us[i])
    {
      ForeignFlag(us[i]);
    }
    FilterConcat(IsDomestic, kr, us);
    FilterConcat(IsForeign, kr, us);
    FilterAll(IsDomestic, kr);
    FilterNone(IsDomestic, us);
    FilterNone(IsForeign, kr);
    FilterAll(IsForeign, us);
  }

  /** More than three cards of a region: only the first three are shown. */
  lemma ExtraCardsHidden(items: seq<Card>)
    requires |items| > 3
    ensures |Slots(items)| == 3
    ensures forall k :: 0 <= k < 3 ==> Slots(items)[k] == Slot(k, items[k])
  {
  }
}
