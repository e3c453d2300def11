/** `parse_ticker_from_block`: the first parenthesised ticker in a card title. */
module TickerToken {
  import opened Seqs
  import opened Text

  /** One character of the class `[A-Z0-9\.\-]`. */
  predicate IsTickerChar(c: char) {
    IsAsciiUpper(c) || ('0' <= c <= '9') || c == '.' || c == '-'
  }

  /** 1 to 10 characters of the ticker class. */
  predicate IsTicker(t: string) {
    1 <= |t| <= 10 && forall k :: 0 <= k < |t| ==> IsTickerChar(t[k])
  }

  /** The pattern `\(([A-Z0-9\.\-]{1,10})\)` matches `s` at index `p`,
      capturing `t`. */
  predicate MatchAt(s: string, p: int, t: string) {
    && 0 <= p && p + |t| + 2 <= |s|
    && s[p] == '('
    && IsTicker(t)
    && s[p + 1..p + 1 + |t|] == t
    && s[p + 1 + |t|] == ')'
  }

  /** `p` is where `re.search` finds its match: nothing matches further left. */
  ghost predicate LeftmostMatch(s: string, p: int, t: string) {
    MatchAt(s, p, t) && forall q, u :: 0 <= q < p ==> !MatchAt(s, q, u)
  }

  /** Length of the longest run of ticker characters starting at `i`. */
  function RunLength(s: string, i: nat): (n: nat)
    requires i <= |s|
    ensures i + n <= |s|
    ensures forall k :: i <= k < i + n ==> IsTickerChar(s[k])
    ensures i + n == |s| || !IsTickerChar(s[i + n])
    decreases |s| - i
  {
    if i < |s| && IsTickerChar(s[i]) then 1 + RunLength(s, i + 1) else 0
  }

  /** The capture of a match at `p`, if the pattern matches there. The greedy
      `{1,10}` can only be followed by `)` at the end of the run of ticker
      characters, because `)` is not one of them. */
  function TokenAt(s: string, p: nat): (r: Option<string>)
    requires p <= |s|
    ensures r.Some? ==> MatchAt(s, p, r.value)
    ensures forall t :: MatchAt(s, p, t) ==> r == Some(t)
  {
    if p < |s| && s[p] == '(' then
      var n := RunLength(s, p + 1);
      if 1 <= n <= 10 && p + 1 + n < |s| && s[p + 1 + n] == ')' then
        RunIsCapture(s, p);
        Some(s[p + 1..p + 1 + n])
      else
        RunNotCapture(s, p);
        None
    else None
  }

  /** A closed run of one to ten ticker characters is the only capture. */
  lemma RunIsCapture(s: string, p: nat)
    requires p < |s| && s[p] == '('
    requires var n := RunLength(s, p + 1); 1 <= n <= 10 && p + 1 + n < |s| && s[p + 1 + n] == ')'
    ensures MatchAt(s, p, s[p + 1..p + 1 + RunLength(s, p + 1)])
    ensures forall u :: MatchAt(s, p, u) ==> u == s[p + 1..p + 1 + RunLength(s, p + 1)]
  {
    forall u | MatchAt(s, p, u)
      ensures u == s[p + 1..p + 1 + RunLength(s, p + 1)]
    {
      RunOfMatch(s, p, u);
    }
  }

  /** A run that is empty, too long or not closed by `)` captures nothing. */
  lemma RunNotCapture(s: string, p: nat)
    requires p < |s| && s[p] == '('
    requires var n := RunLength(s, p + 1); !(1 <= n <= 10 && p + 1 + n < |s| && s[p + 1 + n] == ')')
    ensures forall u :: !MatchAt(s, p, u)
  {
    forall u | MatchAt(s, p, u)
      ensures false
    {
      RunOfMatch(s, p, u);
    }
  }

  /** A match at `p` captures exactly the run of ticker characters after the
      bracket. */
  lemma RunOfMatch(s: string, p: nat, t: string)
    requires MatchAt(s, p, t)
    ensures RunLength(s, p + 1) == |t|
  {
  }

  /** `r` is what scanning from `p` finds: the capture of the first match at
      or after `p`, or `None` when nothing matches from there on. */
  ghost predicate FirstMatchFrom(s: string, p: nat, r: Option<string>) {
    && (r.Some? ==> exists q :: p <= q && MatchAt(s, q, r.value) && forall q', u :: p <= q' < q ==> !MatchAt(s, q', u))
    && (r.None? ==> forall q, u :: p <= q ==> !MatchAt(s, q, u))
  }

  function SearchFrom(s: string, p: nat): (r: Option<string>)
    requires p <= |s|
    ensures FirstMatchFrom(s, p, r)
    decreases |s| - p
  {
    match TokenAt(s, p)
    case Some(t) =>
      MatchHere(s, p, t);
      Some(t)
    case None =>
      if p == |s| then
        NothingAtEnd(s);
        None
      else
        var r := SearchFrom(s, p + 1);
        NoMatchHere(s, p, r);
        r
  }

  lemma MatchHere(s: string, p: nat, t: string)
    requires MatchAt(s, p, t)
    ensures FirstMatchFrom(s, p, Some(t))
  {
  }

  lemma NothingAtEnd(s: string)
    ensures FirstMatchFrom(s, |s|, None)
  {
  }

  /** Scanning past a position where nothing matches finds what scanning
      from the next position finds. */
  lemma NoMatchHere(s: string, p: nat, r: Option<string>)
    requires forall u :: !MatchAt(s, p, u)
    requires FirstMatchFrom(s, p + 1, r)
    ensures FirstMatchFrom(s, p, r)
  {
    if r.Some? {
      var q :| p + 1 <= q && MatchAt(s, q, r.value) && forall q', u :: p + 1 <= q' < q ==> !MatchAt(s, q', u);
      assert forall q', u :: p <= q' < q ==> !MatchAt(s, q', u);
    }
  }

  /** `re.search` for the ticker pattern, returning group 1 or `None`. */
  function ParseTicker(s: string): (r: Option<string>)
    ensures r.Some? ==> IsTicker(r.value) && exists p :: LeftmostMatch(s, p, r.value)
    ensures r.None? ==> forall p, t :: !MatchAt(s, p, t)
  {
    var r := SearchFrom(s, 0);
    assert r.Some? ==> IsTicker(r.value) && exists p :: LeftmostMatch(s, p, r.value) by {
      if r.Some? {
        var q :| 0 <= q && MatchAt(s, q, r.value) && forall q', u :: 0 <= q' < q ==> !MatchAt(s, q', u);
        assert LeftmostMatch(s, q, r.value);
      }
    }
    r
  }

  /** If a match sits at `p` and there is no opening bracket before it, that
      match is the one found. */
  lemma FirstBracketMatch(s: string, p: nat, t: string)
    requires MatchAt(s, p, t)
    requires forall k :: 0 <= k < p ==> s[k] != '('
    ensures ParseTicker(s) == Some(t)
  {
    match ParseTicker(s)
    case None =>
    case Some(u) =>
      var q :| LeftmostMatch(s, q, u);
      assert q == p;
      assert TokenAt(s, p) == Some(u);
  }

  /** A title in the prompt's shape `NAME (TICKER)` yields its ticker. */
  lemma TitleTickerExample()
    ensures ParseTicker("ABC (000001)") == Some("000001")
  {
    var s := "ABC (000001)";
    assert s[5..11] == "000001";
    assert MatchAt(s, 4, "000001");
    FirstBracketMatch(s, 4, "000001");
  }

  /** The bracketed ticker `"(" + t + ")"` occurs in the text. */
  lemma TickerInBrackets(s: string)
    requires ParseTicker(s).Some?
    ensures Contains(s, "(" + ParseTicker(s).value + ")")
  {
    var t := ParseTicker(s).value;
    var p :| LeftmostMatch(s, p, t);
    BracketedAt(s, p, t);
  }

  lemma BracketedAt(s: string, p: nat, t: string)
    requires MatchAt(s, p, t)
    ensures OccursAt(s, "(" + t + ")", p)
  {
    var g := "(" + t + ")";
    forall k | 0 <= k < |g|
      ensures s[p + k] == g[k]
    {
      if 0 < k < |g| - 1 {
        assert s[p + 1..p + 1 + |t|][k - 1] == s[p + k];
      }
    }
    assert s[p..p + |g|] == g;
  }
}
