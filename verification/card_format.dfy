/**
 * The answer layout the recommendation prompt asks the model for: blocks
 * framed by `---`, each a `### ` heading with flag, name and bracketed
 * ticker, then the four labelled lines. Parsing a block written in this
 * layout gives back the card it was written from.
 */
module CardFormat {
  import opened Seqs
  import opened Text
  import opened TickerToken
  import opened Cards

  /** `### 🇰🇷 NAME (TICKER)` */
  function FormatTitle(c: Card): string {
    TITLE_MARK + c.flag + " " + c.name + " (" + c.ticker + ")"
  }

  /** `**LABEL:** value`, or the bare label for an empty value. */
  function FieldLine(tag: string, v: string): string {
    if v == [] then tag else tag + " " + v
  }

  function FormatLines(c: Card): seq<string> {
    [ FormatTitle(c),
      FieldLine(SUMMARY_LABEL, c.desc),
      FieldLine(REASON_LABEL, c.reason),
      FieldLine(RISK_LABEL, c.risk),
      FieldLine(DIFFICULTY_LABEL, c.stars) ]
  }

  /** One block of the answer, its lines joined by newlines. */
  function FormatBlock(c: Card): string {
    Join(FormatLines(c), LINE_SEP)
  }

  /** No character of `s` is `ch`. */
  predicate Lacks(s: string, ch: char) {
    forall k :: 0 <= k < |s| ==> s[k] != ch
  }

  /** A regional-indicator scalar, the halves of every flag emoji. */
  predicate IsRegional(ch: char) {
    '\U{1F1E6}' <= ch <= '\U{1F1FF}'
  }

  /** A name the heading can carry and give back: trimmed, on one line, with
      no opening bracket and no flag halves. */
  predicate PlainName(name: string) {
    && IsTrimmed(name)
    && forall k :: 0 <= k < |name| ==> name[k] != '\n' && name[k] != '(' && !IsRegional(name[k])
  }

  /** A value a labelled line can carry and give back: trimmed, on one line,
      and not holding its own label. */
  predicate PlainField(v: string, tag: string) {
    IsTrimmed(v) && Lacks(v, '\n') && !Contains(v, tag)
  }

  /** The cards the layout can express without loss. */
  predicate WellFormedCard(c: Card) {
    && IsFlag(c.flag)
    && PlainName(c.name)
    && IsTicker(c.ticker)
    && PlainField(c.desc, SUMMARY_LABEL)
    && PlainField(c.reason, REASON_LABEL)
    && PlainField(c.risk, RISK_LABEL)
    && PlainField(c.stars, DIFFICULTY_LABEL)
  }

  // ---------------------------------------------------------------------------
  // Characters of concatenations.

  lemma LacksConcat(a: string, b: string, ch: char)
    requires Lacks(a, ch) && Lacks(b, ch)
    ensures Lacks(a + b, ch)
  {
    forall k | 0 <= k < |a + b|
      ensures (a + b)[k] != ch
    {
      if k < |a| { assert (a + b)[k] == a[k]; } else { assert (a + b)[k] == b[k - |a|]; }
    }
  }

  lemma FlagChars(f: string)
    requires IsFlag(f)
    ensures |f| == 2 && IsRegional(f[0]) && IsRegional(f[1])
  {
  }

  // ---------------------------------------------------------------------------
  // The labelled lines.

  lemma LabelShapes()
    ensures TITLE_MARK[0] == '#'
    ensures forall k :: IsFieldKind(k) ==> |TagOf(k)| >= 3 && TagOf(k)[0] == '*' && TagOf(k)[1] == '*'
    ensures SUMMARY_LABEL[2] == '한' && REASON_LABEL[2] == '추' && RISK_LABEL[2] == '리' && DIFFICULTY_LABEL[2] == '난'
  {
  }

  lemma FieldLineStarts(tag: string, v: string)
    ensures StartsWith(FieldLine(tag, v), tag)
  {
    assert FieldLine(tag, v)[..|tag|] == tag;
  }

  /** A labelled line is sorted into its own branch of the `elif` chain. */
  lemma KindOfFieldLine(k: LineKind, v: string)
    requires IsFieldKind(k)
    ensures KindOf(FieldLine(TagOf(k), v)) == k
  {
    var line := FieldLine(TagOf(k), v);
    LabelShapes();
    FieldLineStarts(TagOf(k), v);
    assert line[..|TagOf(k)|] == TagOf(k);
    assert line[0] == '*' && line[2] == TagOf(k)[2];
  }

  /** Text that does not start with the label's first character holds the
      label only where the value does. */
  lemma NotContainsAfterChar(ch: char, v: string, tag: string)
    requires |tag| > 0 && tag[0] != ch && !Contains(v, tag)
    ensures !Contains([ch] + v, tag)
  {
    var rest := [ch] + v;
    forall i | 0 <= i <= |rest| - |tag|
      ensures !OccursAt(rest, tag, i)
    {
      assert rest[i..i + |tag|][0] == rest[i];
      if i == 0 {
        assert rest[0] == ch;
      } else {
        assert rest[i..i + |tag|] == v[i - 1..i - 1 + |tag|];
        assert !OccursAt(v, tag, i - 1);
      }
    }
  }

  lemma RemoveLabelOnly(tag: string)
    requires |tag| > 0
    ensures RemoveAll(tag, tag) == []
  {
    assert SepOnlyAtEnd([], tag);
    assert tag == [] + tag + [];
    RemoveAllAfter([], tag, []);
  }

  lemma RemoveLabelBefore(tag: string, rest: string)
    requires |tag| > 0 && !Contains(rest, tag)
    ensures RemoveAll(tag + rest, tag) == rest
  {
    assert SepOnlyAtEnd([], tag);
    assert tag + rest == [] + tag + rest;
    RemoveAllAfter([], tag, rest);
  }

  /** The label comes off and the value is what remains, trimmed. */
  lemma FieldValueOfFieldLine(tag: string, v: string)
    requires |tag| > 0 && tag[0] != ' ' && PlainField(v, tag)
    ensures FieldValue(FieldLine(tag, v), tag) == v
  {
    if v == [] {
      RemoveLabelOnly(tag);
      StripEmpty([]);
    } else {
      NotContainsAfterChar(' ', v, tag);
      RemoveLabelBefore(tag, " " + v);
      assert tag + " " + v == tag + (" " + v);
      assert " " + v == " " + v + [];
      StripPadded(" ", v, []);
    }
  }

  // ---------------------------------------------------------------------------
  // The heading line.

  /** The heading after `### `. */
  function TitleOf(c: Card): string {
    c.flag + " " + c.name + " (" + c.ticker + ")"
  }

  lemma TitleTextOfFormat(c: Card)
    ensures KindOf(FormatTitle(c)) == Title
    ensures TitleText(FormatTitle(c)) == TitleOf(c)
  {
    var line := FormatTitle(c);
    assert line == TITLE_MARK + TitleOf(c);
    assert line[..|TITLE_MARK|] == TITLE_MARK;
  }

  /** `re.sub` passes over text without an opening bracket unchanged. */
  lemma {:induction false} RemoveParenGroupsKeeps(a: string, b: string)
    requires Lacks(a, '(')
    ensures RemoveParenGroups(a + b) == a + RemoveParenGroups(b)
    decreases |a|
  {
    if |a| > 0 {
      assert Lacks(a[1..], '(') by {
        forall k | 0 <= k < |a| - 1
          ensures a[1..][k] != '('
        {
          assert a[1..][k] == a[k + 1];
        }
      }
      RemoveParenGroupsKeeps(a[1..], b);
      KeepsStep(a, b);
    } else {
      assert a + b == b;
    }
  }

  lemma KeepsStep(a: string, b: string)
    requires |a| > 0 && a[0] != '('
    requires RemoveParenGroups(a[1..] + b) == a[1..] + RemoveParenGroups(b)
    ensures RemoveParenGroups(a + b) == a + RemoveParenGroups(b)
  {
    ConsConcat(a, b);
    PlainCharKept(a + b);
    ConsAssoc(a[0], a[1..], RemoveParenGroups(b));
    assert [a[0]] + a[1..] == a;
  }

  /** A character other than `(` is copied through. */
  lemma PlainCharKept(s: string)
    requires |s| > 0 && s[0] != '('
    ensures RemoveParenGroups(s) == [s[0]] + RemoveParenGroups(s[1..])
  {
  }

  /** A bracketed ticker is one group and goes away entirely. */
  lemma RemoveTickerGroup(t: string)
    requires IsTicker(t)
    ensures RemoveParenGroups("(" + t + ")") == []
  {
    var g := "(" + t + ")";
    assert IsParenGroup(g[..|g|]) by {
      assert g[..|g|] == g;
      forall k | 1 <= k < |g| - 1
        ensures g[k] != ')'
      {
        assert g[k] == t[k - 1];
        assert IsTickerChar(t[k - 1]);
      }
    }
    assert GroupAt(g) == Some(|g|);
    assert g[|g|..] == [];
  }

  /** The flag, a space, the name and a space: what is left once the
      bracketed ticker is removed. */
  function HeadOf(c: Card): string {
    c.flag + " " + c.name + " "
  }

  lemma TitleGroupRemoved(c: Card)
    requires WellFormedCard(c)
    ensures RemoveParenGroups(TitleOf(c)) == HeadOf(c)
  {
    var head := HeadOf(c);
    var group := "(" + c.ticker + ")";
    assert TitleOf(c) == head + group;
    FlagChars(c.flag);
    assert Lacks(c.flag, '(');
    assert Lacks(c.name, '(');
    LacksConcat(c.flag, " ", '(');
    LacksConcat(c.flag + " ", c.name, '(');
    LacksConcat(c.flag + " " + c.name, " ", '(');
    RemoveParenGroupsKeeps(head, group);
    RemoveTickerGroup(c.ticker);
    assert head + [] == head;
  }

  /** The name with its two spaces, free of flag halves. */
  lemma PaddedNameLacksFlags(name: string)
    requires PlainName(name)
    ensures Lacks(" " + name + " ", KR_FLAG[0]) && Lacks(" " + name + " ", US_FLAG[0])
  {
    var inner := " " + name + " ";
    forall k | 0 <= k < |inner|
      ensures inner[k] != KR_FLAG[0] && inner[k] != US_FLAG[0]
    {
      if 1 <= k < |inner| - 1 {
        assert inner[k] == name[k - 1];
      }
    }
  }

  lemma FlagsRemoved(c: Card)
    requires WellFormedCard(c)
    ensures RemoveAll(RemoveAll(HeadOf(c), KR_FLAG), US_FLAG) == " " + c.name + " "
  {
    var inner := " " + c.name + " ";
    var head := HeadOf(c);
    PaddedNameLacksFlags(c.name);
    LacksFirstChar(inner, KR_FLAG);
    LacksFirstChar(inner, US_FLAG);
    assert head == c.flag + inner;
    if c.flag == KR_FLAG {
      RemoveLabelBefore(KR_FLAG, inner);
    } else {
      assert Lacks(c.flag, KR_FLAG[0]);
      LacksConcat(c.flag, inner, KR_FLAG[0]);
      LacksFirstChar(head, KR_FLAG);
      RemoveLabelBefore(US_FLAG, inner);
    }
  }

  /** The heading's name part: groups and flags removed, then trimmed. */
  lemma TitleNameOfFormat(c: Card)
    requires WellFormedCard(c)
    ensures TitleName(TitleOf(c)) == c.name
  {
    TitleGroupRemoved(c);
    FlagsRemoved(c);
    StripPadded(" ", c.name, " ");
  }

  /** The heading's ticker is the bracketed one: no bracket opens before it. */
  lemma TitleTickerOfFormat(c: Card)
    requires WellFormedCard(c)
    ensures TitleTicker(TitleOf(c)) == c.ticker
  {
    var s := TitleOf(c);
    var p := |c.flag| + 1 + |c.name| + 1;
    var t := c.ticker;
    FlagChars(c.flag);
    assert s[p] == '(';
    assert s[p + 1..p + 1 + |t|] == t;
    assert s[p + 1 + |t|] == ')';
    assert MatchAt(s, p, t);
    forall k | 0 <= k < p
      ensures s[k] != '('
    {
      if |c.flag| + 1 <= k < |c.flag| + 1 + |c.name| {
        assert s[k] == c.name[k - |c.flag| - 1];
      }
    }
    FirstBracketMatch(s, p, t);
  }

  /** The heading's flag: 🇰🇷 when the card's flag is 🇰🇷; otherwise the
      heading holds no 🇰🇷 and its 🇺🇸 is found. */
  lemma TitleFlagOfFormat(c: Card, current: string)
    requires WellFormedCard(c)
    ensures TitleFlag(TitleOf(c), current) == c.flag
  {
    var s := TitleOf(c);
    FlagChars(c.flag);
    assert s[..2] == c.flag;
    assert OccursAt(s, c.flag, 0);
    if c.flag == US_FLAG {
      forall k | 0 <= k < |s|
        ensures s[k] != KR_FLAG[0]
      {
        if 3 <= k < 3 + |c.name| {
          assert s[k] == c.name[k - 3];
        } else if k >= 3 + |c.name| + 2 && k < |s| - 1 {
          assert s[k] == c.ticker[k - 3 - |c.name| - 2];
          assert IsTickerChar(c.ticker[k - 3 - |c.name| - 2]);
        }
      }
      LacksFirstChar(s, KR_FLAG);
    }
  }

  // ---------------------------------------------------------------------------
  // The block.

  lemma FormatLinesShape(c: Card)
    requires WellFormedCard(c)
    ensures forall k :: 0 <= k < 5 ==> FormatLines(c)[k] != [] && IsTrimmed(FormatLines(c)[k])
    ensures forall k :: 0 <= k < 5 ==> Lacks(FormatLines(c)[k], '\n')
  {
    TitleLineShape(c);
    FieldLineShape(SUMMARY_LABEL, c.desc);
    FieldLineShape(REASON_LABEL, c.reason);
    FieldLineShape(RISK_LABEL, c.risk);
    FieldLineShape(DIFFICULTY_LABEL, c.stars);
  }

  lemma TitleLineShape(c: Card)
    requires WellFormedCard(c)
    ensures FormatTitle(c) != [] && IsTrimmed(FormatTitle(c)) && Lacks(FormatTitle(c), '\n')
  {
    FlagChars(c.flag);
    var title := FormatTitle(c);
    assert title[0] == '#' && title[|title| - 1] == ')';
    LacksConcat(TITLE_MARK + c.flag + " ", c.name, '\n');
    TickerLacksNewline(c.ticker);
    LacksConcat(TITLE_MARK + c.flag + " " + c.name + " (", c.ticker, '\n');
    LacksConcat(TITLE_MARK + c.flag + " " + c.name + " (" + c.ticker, ")", '\n');
  }

  lemma TickerLacksNewline(t: string)
    requires IsTicker(t)
    ensures Lacks(t, '\n')
  {
    forall k | 0 <= k < |t|
      ensures t[k] != '\n'
    {
      assert IsTickerChar(t[k]);
    }
  }

  lemma FieldLineShape(tag: string, v: string)
    requires |tag| > 0 && !IsSpace(tag[0]) && !IsSpace(tag[|tag| - 1]) && Lacks(tag, '\n')
    requires IsTrimmed(v) && Lacks(v, '\n')
    ensures FieldLine(tag, v) != [] && IsTrimmed(FieldLine(tag, v)) && Lacks(FieldLine(tag, v), '\n')
  {
    if v != [] {
      LacksConcat(tag, " ", '\n');
      LacksConcat(tag + " ", v, '\n');
    }
  }

  lemma StripAllKeepsHead(pieces: seq<string>)
    requires |pieces| > 0 && pieces[0] != [] && IsTrimmed(pieces[0])
    ensures StripAll(pieces) == [pieces[0]] + StripAll(pieces[1..])
  {
    StripTrimmed(pieces[0]);
  }

  /** Every piece trimmed and non-empty: the filter keeps them all, unchanged. */
  lemma {:induction false} StripAllKeeps(pieces: seq<string>)
    requires forall k :: 0 <= k < |pieces| ==> pieces[k] != [] && IsTrimmed(pieces[k])
    ensures StripAll(pieces) == pieces
    decreases |pieces|
  {
    if |pieces| > 0 {
      StripAllKeeps(pieces[1..]);
      StripAllKeepsStep(pieces);
    }
  }

  lemma StripAllKeepsStep(pieces: seq<string>)
    requires |pieces| > 0 && pieces[0] != [] && IsTrimmed(pieces[0])
    requires StripAll(pieces[1..]) == pieces[1..]
    ensures StripAll(pieces) == pieces
  {
    StripAllKeepsHead(pieces);
    assert pieces == [pieces[0]] + pieces[1..];
  }

  lemma LinesOfFormat(c: Card)
    requires WellFormedCard(c)
    ensures Lines(FormatBlock(c)) == FormatLines(c)
  {
    var lines := FormatLines(c);
    FormatLinesShape(c);
    forall k | 0 <= k < |lines|
      ensures SepOnlyAtEnd(lines[k], LINE_SEP) && !Contains(lines[k], LINE_SEP)
    {
      LacksFirstChar(lines[k], LINE_SEP);
    }
    SplitJoin(lines, LINE_SEP);
    StripAllKeeps(lines);
  }

  /** `d` with the field that lines of kind `k` set replaced by `v`. */
  function WithField(d: Card, k: LineKind, v: string): Card
    requires IsFieldKind(k)
  {
    match k
    case Summary => d.(desc := v)
    case Reason => d.(reason := v)
    case Risk => d.(risk := v)
    case Difficulty => d.(stars := v)
  }

  /** A written heading sets the flag, name and ticker it was written from. */
  lemma ApplyTitleLine(d: Card, c: Card)
    requires WellFormedCard(c)
    ensures ApplyLine(d, FormatTitle(c)) == d.(flag := c.flag, name := c.name, ticker := c.ticker)
  {
    TitleTextOfFormat(c);
    TitleNameOfFormat(c);
    TitleTickerOfFormat(c);
    TitleFlagOfFormat(c, d.flag);
  }

  /** A written labelled line sets its own field to the value it was written from. */
  lemma ApplyFieldLine(d: Card, k: LineKind, v: string)
    requires IsFieldKind(k) && PlainField(v, TagOf(k))
    ensures ApplyLine(d, FieldLine(TagOf(k), v)) == WithField(d, k, v)
  {
    LabelShapes();
    KindOfFieldLine(k, v);
    FieldValueOfFieldLine(TagOf(k), v);
  }

  lemma ApplyFormatLines(c: Card)
    requires WellFormedCard(c)
    ensures ApplyLines(BLANK_CARD, FormatLines(c)) == c
  {
    var lines := FormatLines(c);
    ApplyLinesFive(BLANK_CARD, lines);
    var c1 := ApplyLine(BLANK_CARD, lines[0]);
    ApplyTitleLine(BLANK_CARD, c);
    var c2 := ApplyLine(c1, lines[1]);
    ApplyFieldLine(c1, Summary, c.desc);
    var c3 := ApplyLine(c2, lines[2]);
    ApplyFieldLine(c2, Reason, c.reason);
    var c4 := ApplyLine(c3, lines[3]);
    ApplyFieldLine(c3, Risk, c.risk);
    ApplyFieldLine(c4, Difficulty, c.stars);
  }

  /** Reading a block back gives the card it was written from. */
  lemma ParseFormatBlock(c: Card)
    requires WellFormedCard(c)
    ensures ParseChunk(FormatBlock(c)) == c
  {
    LinesOfFormat(c);
    ApplyFormatLines(c);
  }

  lemma ApplyLinesFive(c: Card, lines: seq<string>)
    requires |lines| == 5
    ensures ApplyLines(c, lines) ==
      ApplyLine(ApplyLine(ApplyLine(ApplyLine(ApplyLine(c, lines[0]), lines[1]), lines[2]), lines[3]), lines[4])
  {
    assert lines[..0] == [];
    ApplyPrefixStep(c, lines, 1);
    ApplyPrefixStep(c, lines, 2);
    ApplyPrefixStep(c, lines, 3);
    ApplyPrefixStep(c, lines, 4);
    ApplyPrefixStep(c, lines, 5);
    assert lines[..5] == lines;
  }

  /** The loop over the first `n` lines is the loop over the first `n - 1`
      followed by line `n - 1`. */
  lemma ApplyPrefixStep(c: Card, lines: seq<string>, n: nat)
    requires 0 < n <= |lines|
    ensures ApplyLines(c, lines[..n]) == ApplyLine(ApplyLines(c, lines[..n - 1]), lines[n - 1])
  {
    assert lines[..n][..n - 1] == lines[..n - 1];
  }

  // ---------------------------------------------------------------------------
  // The whole answer.

  /** Each block preceded by a newline and followed by a newline and `---`. */
  function FramedBlocks(cards: seq<Card>): string
    decreases |cards|
  {
    if |cards| == 0 then []
    else LINE_SEP + FormatBlock(cards[0]) + LINE_SEP + BLOCK_SEP + FramedBlocks(cards[1..])
  }

  /** `---`, then every block framed as the prompt shows it:
      `---\n### …\n…\n---\n### …\n…\n---`. */
  function FormatAnswer(cards: seq<Card>): string {
    BLOCK_SEP + FramedBlocks(cards)
  }

  /** The blocks of the cards, in order. */
  function Blocks(cards: seq<Card>): (r: seq<string>)
    ensures |r| == |cards|
    ensures forall i :: 0 <= i < |r| ==> r[i] == FormatBlock(cards[i])
  {
    seq(|cards|, i requires 0 <= i < |cards| => FormatBlock(cards[i]))
  }

  /** A card the answer layout carries without loss: its block is readable
      and holds no `---` of its own. */
  predicate Framable(c: Card) {
    WellFormedCard(c) && !Contains(FormatBlock(c), BLOCK_SEP)
  }

  /** A block starts with `#` and ends with a non-blank character. */
  lemma FormatBlockTrimmed(c: Card)
    requires WellFormedCard(c)
    ensures FormatBlock(c) != [] && IsTrimmed(FormatBlock(c))
  {
    var l := FormatLines(c);
    FormatLinesShape(c);
    var tail := l[3] + LINE_SEP + l[4];
    assert Join(l[3..], LINE_SEP) == tail by {
      assert l[3..][1..] == [l[4]];
    }
    assert Join(l[2..], LINE_SEP) == l[2] + LINE_SEP + tail by {
      assert l[2..][1..] == l[3..];
    }
    assert Join(l[1..], LINE_SEP) == l[1] + LINE_SEP + (l[2] + LINE_SEP + tail) by {
      assert l[1..][1..] == l[2..];
    }
    var b := l[0] + LINE_SEP + (l[1] + LINE_SEP + (l[2] + LINE_SEP + tail));
    assert FormatBlock(c) == b;
    assert b[0] == l[0][0];
    assert b[|b| - 1] == l[4][|l[4]| - 1];
  }

  /** Newlines on both sides of a block guard `---`: the separator after the
      framed block is the first one. */
  lemma GuardedBlock(b: string)
    requires !Contains(b, BLOCK_SEP)
    ensures SepOnlyAtEnd(LINE_SEP + b + LINE_SEP, BLOCK_SEP)
  {
    var a := LINE_SEP + b + LINE_SEP;
    var s := a + BLOCK_SEP;
    forall i | 0 <= i < |a|
      ensures !OccursAt(s, BLOCK_SEP, i)
    {
      if i + 3 <= |s| {
        var w := s[i..i + 3];
        if i == 0 {
          assert w[0] == '\n';
        } else if i + 2 >= |b| + 1 {
          assert w[|b| + 1 - i] == s[|b| + 1] == '\n';
        } else {
          assert w == b[i - 1..i + 2];
          assert !OccursAt(b, BLOCK_SEP, i - 1);
        }
      }
    }
  }

  lemma StripAllDropsEmpty(rest: seq<string>)
    ensures StripAll([[]] + rest) == StripAll(rest)
  {
    var e: string := [];
    StripEmpty(e);
    StripAllCons(e, rest);
  }

  /** One more piece in front: kept, stripped, unless it strips to nothing. */
  lemma StripAllCons(x: string, rest: seq<string>)
    ensures StripAll([x] + rest) == if Strip(x) == [] then StripAll(rest) else [Strip(x)] + StripAll(rest)
  {
    assert ([x] + rest)[1..] == rest;
  }

  lemma StripAllFramed(b: string, rest: seq<string>)
    requires b != [] && IsTrimmed(b)
    ensures StripAll([LINE_SEP + b + LINE_SEP] + rest) == [b] + StripAll(rest)
  {
    StripPadded(LINE_SEP, b, LINE_SEP);
    StripAllCons(LINE_SEP + b + LINE_SEP, rest);
  }

  lemma FramedStep(c: Card, rest: string)
    requires Framable(c)
    ensures StripAll(Split(LINE_SEP + FormatBlock(c) + LINE_SEP + BLOCK_SEP + rest, BLOCK_SEP))
      == [FormatBlock(c)] + StripAll(Split(rest, BLOCK_SEP))
  {
    var b := FormatBlock(c);
    FormatBlockTrimmed(c);
    GuardedBlock(b);
    SplitAfter(LINE_SEP + b + LINE_SEP, BLOCK_SEP, rest);
    StripAllFramed(b, Split(rest, BLOCK_SEP));
  }

  lemma FramedUnfold(cards: seq<Card>)
    requires |cards| > 0
    ensures FramedBlocks(cards) == LINE_SEP + FormatBlock(cards[0]) + LINE_SEP + BLOCK_SEP + FramedBlocks(cards[1..])
  {
  }

  lemma BlocksUnfold(cards: seq<Card>)
    requires |cards| > 0
    ensures Blocks(cards) == [FormatBlock(cards[0])] + Blocks(cards[1..])
  {
  }

  lemma SplitEmpty(sep: string)
    requires |sep| > 0
    ensures Split([], sep) == [[]]
  {
  }

  /** The framed blocks split back into the blocks. */
  lemma {:induction false} FramedChunks(cards: seq<Card>)
    requires forall i :: 0 <= i < |cards| ==> Framable(cards[i])
    ensures StripAll(Split(FramedBlocks(cards), BLOCK_SEP)) == Blocks(cards)
    decreases |cards|
  {
    if |cards| == 0 {
      SplitEmpty(BLOCK_SEP);
      StripAllDropsEmpty([]);
    } else {
      var rest := cards[1..];
      assert forall i :: 0 <= i < |rest| ==> rest[i] == cards[i + 1];
      FramedChunks(rest);
      FramedUnfold(cards);
      FramedStep(cards[0], FramedBlocks(rest));
      BlocksUnfold(cards);
    }
  }

  /** The chunks of a written answer are the cards' blocks. */
  lemma ChunksOfAnswer(cards: seq<Card>)
    requires forall i :: 0 <= i < |cards| ==> Framable(cards[i])
    ensures Chunks(FormatAnswer(cards)) == Blocks(cards)
  {
    var f := FramedBlocks(cards);
    assert SepOnlyAtEnd([], BLOCK_SEP);
    assert FormatAnswer(cards) == [] + BLOCK_SEP + f;
    SplitAfter([], BLOCK_SEP, f);
    StripAllDropsEmpty(Split(f, BLOCK_SEP));
    FramedChunks(cards);
  }

  /** Reading a written answer gives back the cards it was written from,
      in order, when every card has a name. */
  lemma ParseFormatAnswer(cards: seq<Card>)
    requires forall i :: 0 <= i < |cards| ==> Framable(cards[i])
    requires forall i :: 0 <= i < |cards| ==> cards[i].name != []
    ensures ParseCards(FormatAnswer(cards)) == cards
  {
    AnswerParses(cards, FormatAnswer(cards));
  }

  lemma AnswerParses(cards: seq<Card>, text: string)
    requires text == FormatAnswer(cards)
    requires forall i :: 0 <= i < |cards| ==> Framable(cards[i])
    requires forall i :: 0 <= i < |cards| ==> cards[i].name != []
    ensures ParseCards(text) == cards
  {
    ChunksParse(cards, text);
    ParseThrough(text, cards);
  }

  /** The parser's last step keeps every parsed chunk when each has a name. */
  lemma ParseThrough(text: string, cards: seq<Card>)
    requires ParseEach(Chunks(text)) == cards
    requires forall i :: 0 <= i < |cards| ==> cards[i].name != []
    ensures ParseCards(text) == cards
  {
    KeepNamedAll(cards);
  }

  /** Each chunk of the answer parses back to its card. */
  lemma ChunksParse(cards: seq<Card>, text: string)
    requires text == FormatAnswer(cards)
    requires forall i :: 0 <= i < |cards| ==> Framable(cards[i])
    ensures ParseEach(Chunks(text)) == cards
  {
    var chunks := Chunks(text);
    assert chunks == Blocks(cards) by { ChunksOfText(cards, text); }
    ParseEachBlocks(cards, chunks);
  }

  lemma ChunksOfText(cards: seq<Card>, text: string)
    requires text == FormatAnswer(cards)
    requires forall i :: 0 <= i < |cards| ==> Framable(cards[i])
    ensures Chunks(text) == Blocks(cards)
  {
    ChunksOfAnswer(cards);
  }

  lemma ParseEachBlocks(cards: seq<Card>, blocks: seq<string>)
    requires blocks == Blocks(cards)
    requires forall i :: 0 <= i < |cards| ==> Framable(cards[i])
    ensures ParseEach(blocks) == cards
  {
    forall i | 0 <= i < |cards|
      ensures ParseChunk(blocks[i]) == cards[i]
    {
      ParseFormatBlock(cards[i]);
    }
  }

  lemma KeepNamedAll(cards: seq<Card>)
    requires forall i :: 0 <= i < |cards| ==> cards[i].name != []
    ensures KeepNamed(cards) == cards
  {
    FilterAll(HasName, cards);
  }
}
