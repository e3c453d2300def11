/**
 * The Python string primitives the application leans on, on `seq<char>`:
 * `str.isspace`, `str.strip`, `in`, `str.find`, `str.startswith`,
 * `str.split(sep)`, `sep.join`, `str.replace(old, '')` and `str.upper`.
 */
module Text {
  import opened Seqs

  /** The characters for which Python's `str.isspace()` holds; `\s` in a str
      pattern matches exactly these, and `strip()` removes exactly these. */
  predicate IsSpace(c: char) {
    || ('\t' <= c <= '\r')
    || ('\U{1C}' <= c <= '\U{1F}')
    || c == ' '
    || c == '\U{85}'
    || c == '\U{A0}'
    || c == '\U{1680}'
    || ('\U{2000}' <= c <= '\U{200A}')
    || c == '\U{2028}'
    || c == '\U{2029}'
    || c == '\U{202F}'
    || c == '\U{205F}'
    || c == '\U{3000}'
  }

  predicate AllSpace(s: string) {
    forall k :: 0 <= k < |s| ==> IsSpace(s[k])
  }

  /** Neither end of `s` is whitespace. */
  predicate IsTrimmed(s: string) {
    |s| == 0 || (!IsSpace(s[0]) && !IsSpace(s[|s| - 1]))
  }

  /** `s` is `r` with whitespace padding: `i` blanks before it, only blanks after it. */
  predicate Pads(s: string, r: string, i: int) {
    && 0 <= i && i + |r| <= |s|
    && s[i..i + |r|] == r
    && AllSpace(s[..i])
    && AllSpace(s[i + |r|..])
  }

  /** Python's `s.strip()`: the text between the leading and trailing whitespace. */
  function Strip(s: string): (r: string)
    ensures IsTrimmed(r)
    ensures |r| <= |s|
    decreases |s|
  {
    if |s| > 0 && IsSpace(s[0]) then Strip(s[1..])
    else if |s| > 0 && IsSpace(s[|s| - 1]) then Strip(s[..|s| - 1])
    else s
  }

  /** The stripped text sits in `s` between blanks. */
  lemma StripPads(s: string)
    ensures exists i :: Pads(s, Strip(s), i)
  {
    var i := StripPadsAt(s);
  }

  /** Where the stripped text starts in `s`. */
  lemma {:induction false} StripPadsAt(s: string) returns (i: int)
    ensures Pads(s, Strip(s), i)
    decreases |s|
  {
    if |s| > 0 && IsSpace(s[0]) {
      var j := StripPadsAt(s[1..]);
      PadsAddFirst(s, Strip(s[1..]), j);
      i := j + 1;
    } else if |s| > 0 && IsSpace(s[|s| - 1]) {
      i := StripPadsAt(s[..|s| - 1]);
      PadsAddLast(s, Strip(s[..|s| - 1]), i);
    } else {
      i := 0;
      assert s[0..|s|] == s;
    }
  }

  /** A blank in front of the padding is more padding. */
  lemma PadsAddFirst(s: string, r: string, j: int)
    requires |s| > 0 && IsSpace(s[0]) && Pads(s[1..], r, j)
    ensures Pads(s, r, j + 1)
  {
    var t := s[1..];
    assert s[j + 1..j + 1 + |r|] == t[j..j + |r|];
    var pre := s[..j + 1];
    forall k | 0 < k < |pre|
      ensures IsSpace(pre[k])
    {
      assert pre[k] == t[..j][k - 1];
    }
    assert s[j + 1 + |r|..] == t[j + |r|..];
  }

  /** A blank after the padding is more padding. */
  lemma PadsAddLast(s: string, r: string, j: int)
    requires |s| > 0 && IsSpace(s[|s| - 1]) && Pads(s[..|s| - 1], r, j)
    ensures Pads(s, r, j)
  {
    var t := s[..|s| - 1];
    assert s[j..j + |r|] == t[j..j + |r|];
    assert s[..j] == t[..j];
    var post := s[j + |r|..];
    forall k | 0 <= k < |post|
      ensures IsSpace(post[k])
    {
      if k < |post| - 1 {
        assert post[k] == t[j + |r|..][k];
      }
    }
  }

  /** Whatever trimmed text `s` pads is what `strip()` returns: the contract of
      `Strip` pins its result down completely. */
  lemma {:induction false} StripUnique(s: string, r: string, i: int)
    requires IsTrimmed(r) && |r| > 0 && Pads(s, r, i)
    ensures Strip(s) == r
    decreases |s|
  {
    if i > 0 {
      PadsDropFirst(s, r, i);
      StripUnique(s[1..], r, i - 1);
    } else if |r| < |s| {
      PadsDropLast(s, r);
      StripUnique(s[..|s| - 1], r, 0);
    } else {
      assert s == s[0..0 + |r|];
    }
  }

  /** A leading blank of the padding can be dropped. */
  lemma PadsDropFirst(s: string, r: string, i: int)
    requires Pads(s, r, i) && i > 0
    ensures IsSpace(s[0]) && Pads(s[1..], r, i - 1)
  {
    assert s[..i][0] == s[0];
    var t := s[1..];
    assert t[i - 1..i - 1 + |r|] == s[i..i + |r|];
    var pre := t[..i - 1];
    forall k | 0 <= k < |pre|
      ensures IsSpace(pre[k])
    {
      assert pre[k] == s[..i][k + 1];
    }
    assert t[i - 1 + |r|..] == s[i + |r|..];
  }

  /** With no leading padding, a trailing blank can be dropped. */
  lemma PadsDropLast(s: string, r: string)
    requires Pads(s, r, 0) && 0 < |r| < |s|
    ensures s[0] == r[0] && IsSpace(s[|s| - 1]) && Pads(s[..|s| - 1], r, 0)
  {
    assert s[0..|r|][0] == s[0];
    assert s[|r|..][|s| - 1 - |r|] == s[|s| - 1];
    var t := s[..|s| - 1];
    assert t[0..|r|] == s[0..|r|];
    assert t[..0] == [];
    forall k | 0 <= k < |t| - |r|
      ensures IsSpace(t[|r|..][k])
    {
      assert t[|r|..][k] == s[|r|..][k];
    }
  }

  /** `strip()` yields the empty string exactly for blank input. */
  lemma {:induction false} StripEmpty(s: string)
    ensures Strip(s) == [] <==> AllSpace(s)
    decreases |s|
  {
    if |s| > 0 && IsSpace(s[0]) {
      StripEmpty(s[1..]);
      assert AllSpace(s) <==> AllSpace(s[1..]) by {
        if AllSpace(s[1..]) {
          forall k | 0 < k < |s| ensures IsSpace(s[k]) { assert s[k] == s[1..][k - 1]; }
        }
      }
    } else if |s| > 0 && IsSpace(s[|s| - 1]) {
      var u := s[..|s| - 1];
      StripEmpty(u);
      assert u[0] == s[0];
    }
  }

  /** `strip()` is the identity on text that is already trimmed, so it is idempotent. */
  lemma StripTrimmed(s: string)
    requires IsTrimmed(s)
    ensures Strip(s) == s
  {
  }

  /** `t` occurs in `s` starting at index `i`. */
  predicate OccursAt(s: string, t: string, i: int) {
    0 <= i && i + |t| <= |s| && s[i..i + |t|] == t
  }

  /** Python's `t in s`. */
  predicate Contains(s: string, t: string) {
    exists i | 0 <= i <= |s| - |t| :: OccursAt(s, t, i)
  }

  /** Python's `s.startswith(p)`. */
  predicate StartsWith(s: string, p: string) {
    |p| <= |s| && s[..|p|] == p
  }

  function IndexFrom(s: string, t: string, k: nat): (r: Option<nat>)
    ensures r.Some? ==> k <= r.value && OccursAt(s, t, r.value)
    ensures r.Some? ==> forall j :: k <= j < r.value ==> !OccursAt(s, t, j)
    ensures r.None? ==> forall j :: k <= j ==> !OccursAt(s, t, j)
    decreases |s| - k
  {
    if k + |t| > |s| then None
    else if s[k..k + |t|] == t then Some(k)
    else IndexFrom(s, t, k + 1)
  }

  /** Python's `s.find(t)`, with `None` for -1: the leftmost occurrence. */
  function IndexOf(s: string, t: string): (r: Option<nat>)
    ensures r.Some? ==> OccursAt(s, t, r.value)
    ensures r.Some? ==> forall j :: 0 <= j < r.value ==> !OccursAt(s, t, j)
  {
    IndexFrom(s, t, 0)
  }

  /** `find` reports -1 exactly when the text does not occur. */
  lemma IndexOfNone(s: string, t: string)
    ensures IndexOf(s, t).None? <==> !Contains(s, t)
  {
  }

  lemma StartsWithContains(s: string, p: string)
    requires StartsWith(s, p)
    ensures Contains(s, p)
  {
    assert OccursAt(s, p, 0);
  }

  /** Containment is transitive: text found inside a piece of `s` is found in `s`. */
  lemma ContainsTrans(a: string, b: string, c: string)
    requires Contains(a, b) && Contains(b, c)
    ensures Contains(a, c)
  {
    var i :| 0 <= i <= |a| - |b| && OccursAt(a, b, i);
    var j :| 0 <= j <= |b| - |c| && OccursAt(b, c, j);
    assert b == a[i..i + |b|];
    forall k | 0 <= k < |c|
      ensures a[i + j + k] == c[k]
    {
      assert c[k] == b[j + k];
    }
    assert a[i + j..i + j + |c|] == c;
    assert OccursAt(a, c, i + j);
  }

  lemma ContainsSlice(s: string, i: int, j: int)
    requires 0 <= i <= j <= |s|
    ensures Contains(s, s[i..j])
  {
    assert OccursAt(s, s[i..j], i);
  }

  lemma StripContained(s: string)
    ensures Contains(s, Strip(s))
  {
    var r := Strip(s);
    StripPads(s);
    var i :| Pads(s, r, i);
    assert OccursAt(s, r, i);
  }

  /** An occurrence inside the prefix `s[..n]` is an occurrence in `s`. */
  lemma OccursInPrefix(s: string, t: string, n: int, j: int)
    requires 0 <= n <= |s| && OccursAt(s[..n], t, j)
    ensures OccursAt(s, t, j) && j + |t| <= n
  {
    assert s[..n][j..j + |t|] == s[j..j + |t|];
  }

  /** Python's `s.split(sep)` for a non-empty separator: the pieces between
      the leftmost non-overlapping occurrences of `sep`. */
  function Split(s: string, sep: string): (r: seq<string>)
    requires |sep| > 0
    ensures |r| >= 1
    decreases |s|
  {
    match IndexOf(s, sep)
    case None => [s]
    case Some(i) => [s[..i]] + Split(s[i + |sep|..], sep)
  }

  /** A split yields the text itself, as its only piece, exactly when the
      separator does not occur in it. */
  lemma SplitSingle(s: string, sep: string)
    requires |sep| > 0
    ensures |Split(s, sep)| == 1 <==> !Contains(s, sep)
    ensures !Contains(s, sep) ==> Split(s, sep) == [s]
  {
    IndexOfNone(s, sep);
  }

  /** No piece of a split holds the separator, and every piece is a piece of
      the original text. */
  lemma {:induction false} SplitPieces(s: string, sep: string)
    requires |sep| > 0
    ensures forall k :: 0 <= k < |Split(s, sep)| ==> !Contains(Split(s, sep)[k], sep)
    ensures forall k :: 0 <= k < |Split(s, sep)| ==> Contains(s, Split(s, sep)[k])
    decreases |s|
  {
    var r := Split(s, sep);
    match IndexOf(s, sep)
    case None =>
      assert r == [s];
      assert OccursAt(s, s, 0);
    case Some(i) =>
      var tail := s[i + |sep|..];
      var rest := Split(tail, sep);
      assert r == [s[..i]] + rest;
      SplitPieces(tail, sep);
      PrefixLacks(s, sep, i);
      ContainsSlice(s, 0, i);
      SuffixContained(s, i + |sep|);
      forall k | 0 <= k < |rest|
        ensures Contains(s, rest[k])
      {
        ContainsTrans(s, tail, rest[k]);
      }
  }

  /** The text before the leftmost occurrence does not hold the pattern. */
  lemma PrefixLacks(s: string, t: string, i: nat)
    requires |t| > 0 && IndexOf(s, t) == Some(i)
    ensures !Contains(s[..i], t)
  {
    forall j | 0 <= j <= i - |t|
      ensures !OccursAt(s[..i], t, j)
    {
      if OccursAt(s[..i], t, j) {
        OccursInPrefix(s, t, i, j);
      }
    }
  }

  lemma SuffixContained(s: string, i: int)
    requires 0 <= i <= |s|
    ensures Contains(s, s[i..])
  {
    assert s[i..] == s[i..|s|];
    ContainsSlice(s, i, |s|);
  }

  /** Python's `sep.join(parts)`. */
  function Join(parts: seq<string>, sep: string): string
    decreases |parts|
  {
    if |parts| == 0 then []
    else if |parts| == 1 then parts[0]
    else parts[0] + sep + Join(parts[1..], sep)
  }

  /** Splitting and re-joining with the same separator gives back the text. */
  lemma {:induction false} JoinSplit(s: string, sep: string)
    requires |sep| > 0
    ensures Join(Split(s, sep), sep) == s
    decreases |s|
  {
    match IndexOf(s, sep)
    case None =>
    case Some(i) =>
      JoinSplit(s[i + |sep|..], sep);
      JoinSplitStep(s, sep, i);
  }

  lemma JoinSplitStep(s: string, sep: string, i: nat)
    requires |sep| > 0 && IndexOf(s, sep) == Some(i)
    requires Join(Split(s[i + |sep|..], sep), sep) == s[i + |sep|..]
    ensures Join(Split(s, sep), sep) == s
  {
    var tail := s[i + |sep|..];
    var rest := Split(tail, sep);
    assert Split(s, sep) == [s[..i]] + rest;
    JoinCons(s[..i], rest, sep);
    assert s[i..i + |sep|] == sep;
    SliceAround(s, i, |sep|);
    assert Join(Split(s, sep), sep) == s[..i] + sep + tail;
  }

  lemma JoinCons(head: string, rest: seq<string>, sep: string)
    requires |rest| >= 1
    ensures Join([head] + rest, sep) == head + sep + Join(rest, sep)
  {
    assert ([head] + rest)[1..] == rest;
  }

  /** A text is its prefix, a middle part of length `n` and the rest. */
  lemma SliceAround(s: string, i: nat, n: nat)
    requires i + n <= |s|
    ensures s == s[..i] + s[i..i + n] + s[i + n..]
  {
  }

  /** Python's `s.replace(pat, '')`: every leftmost non-overlapping occurrence removed. */
  function RemoveAll(s: string, pat: string): (r: string)
    requires |pat| > 0
    ensures |r| <= |s|
    decreases |s|
  {
    match IndexOf(s, pat)
    case None => s
    case Some(i) => s[..i] + RemoveAll(s[i + |pat|..], pat)
  }

  /** Text in which the pattern does not occur is left as it is. */
  lemma RemoveAllAbsent(s: string, pat: string)
    requires |pat| > 0 && !Contains(s, pat)
    ensures RemoveAll(s, pat) == s
  {
    IndexOfNone(s, pat);
  }

  /** Removing a pattern is the same as splitting on it and gluing the pieces. */
  lemma {:induction false} RemoveAllIsSplitJoin(s: string, pat: string)
    requires |pat| > 0
    ensures RemoveAll(s, pat) == Join(Split(s, pat), [])
    decreases |s|
  {
    match IndexOf(s, pat)
    case None =>
    case Some(i) =>
      RemoveAllIsSplitJoin(s[i + |pat|..], pat);
      RemoveAllStep(s, pat, i);
  }

  lemma RemoveAllStep(s: string, pat: string, i: nat)
    requires |pat| > 0 && IndexOf(s, pat) == Some(i)
    requires RemoveAll(s[i + |pat|..], pat) == Join(Split(s[i + |pat|..], pat), [])
    ensures RemoveAll(s, pat) == Join(Split(s, pat), [])
  {
    var tail := s[i + |pat|..];
    RemoveAllUnfold(s, pat, i);
    SplitUnfold(s, pat, i);
    GlueStep(s[..i], Split(tail, pat), RemoveAll(tail, pat));
  }

  lemma RemoveAllUnfold(s: string, pat: string, i: nat)
    requires |pat| > 0 && IndexOf(s, pat) == Some(i)
    ensures RemoveAll(s, pat) == s[..i] + RemoveAll(s[i + |pat|..], pat)
  {
  }

  lemma SplitUnfold(s: string, sep: string, i: nat)
    requires |sep| > 0 && IndexOf(s, sep) == Some(i)
    ensures Split(s, sep) == [s[..i]] + Split(s[i + |sep|..], sep)
  {
  }

  /** Gluing a head onto glued pieces glues the longer list. */
  lemma GlueStep(head: string, rest: seq<string>, glued: string)
    requires |rest| >= 1 && glued == Join(rest, [])
    ensures head + glued == Join([head] + rest, [])
  {
    JoinCons(head, rest, []);
    assert head + [] == head;
  }

  /** The only occurrence of `sep` in `a + sep` is the final one. */
  predicate SepOnlyAtEnd(a: string, sep: string) {
    forall i :: 0 <= i < |a| ==> !OccursAt(a + sep, sep, i)
  }

  /** A separator preceded by text that holds no occurrence of it is the
      leftmost occurrence. */
  lemma IndexOfAfter(a: string, sep: string, b: string)
    requires SepOnlyAtEnd(a, sep)
    ensures IndexOf(a + sep + b, sep) == Some(|a|)
  {
    var s := a + sep + b;
    assert s[|a|..|a| + |sep|] == sep;
    assert OccursAt(s, sep, |a|);
    forall j | 0 <= j < |a|
      ensures !OccursAt(s, sep, j)
    {
      if OccursAt(s, sep, j) {
        assert (a + sep)[j..j + |sep|] == s[j..j + |sep|];
        assert OccursAt(a + sep, sep, j);
      }
    }
    var r := IndexOf(s, sep);
    assert r.Some?;
  }

  lemma SplitAfter(a: string, sep: string, b: string)
    requires |sep| > 0 && SepOnlyAtEnd(a, sep)
    ensures Split(a + sep + b, sep) == [a] + Split(b, sep)
  {
    var s := a + sep + b;
    IndexOfAfter(a, sep, b);
    assert s[..|a|] == a;
    assert s[|a| + |sep|..] == b;
  }

  lemma RemoveAllAfter(a: string, pat: string, b: string)
    requires |pat| > 0 && SepOnlyAtEnd(a, pat)
    ensures RemoveAll(a + pat + b, pat) == a + RemoveAll(b, pat)
  {
    var s := a + pat + b;
    IndexOfAfter(a, pat, b);
    assert s[..|a|] == a;
    assert s[|a| + |pat|..] == b;
  }

  /** Splitting a joined text gives the parts back when the separator occurs
      in it only where the join put it. */
  lemma {:induction false} SplitJoin(parts: seq<string>, sep: string)
    requires |sep| > 0 && |parts| >= 1
    requires forall k :: 0 <= k < |parts| - 1 ==> SepOnlyAtEnd(parts[k], sep)
    requires !Contains(parts[|parts| - 1], sep)
    ensures Split(Join(parts, sep), sep) == parts
    decreases |parts|
  {
    if |parts| == 1 {
      assert Join(parts, sep) == parts[0];
    } else {
      var rest := parts[1..];
      SplitJoin(rest, sep);
      assert Join(parts, sep) == parts[0] + sep + Join(rest, sep);
      SplitAfter(parts[0], sep, Join(rest, sep));
      assert parts == [parts[0]] + rest;
    }
  }

  /** Text in which the separator's first character never appears cannot
      hold the separator, not even with the separator appended, except at the end. */
  lemma LacksFirstChar(a: string, sep: string)
    requires |sep| > 0 && forall k :: 0 <= k < |a| ==> a[k] != sep[0]
    ensures SepOnlyAtEnd(a, sep)
    ensures !Contains(a, sep)
  {
    var s := a + sep;
    forall i | 0 <= i < |a|
      ensures !OccursAt(s, sep, i)
    {
      assert s[i] == a[i];
      if i + |sep| <= |s| {
        assert s[i..i + |sep|][0] == s[i];
      }
    }
    forall i | 0 <= i <= |a| - |sep|
      ensures !OccursAt(a, sep, i)
    {
      assert a[i..i + |sep|][0] == a[i];
    }
  }

  /** Stripping a trimmed text wrapped in whitespace gives the text. */
  lemma StripPadded(a: string, r: string, b: string)
    requires AllSpace(a) && AllSpace(b) && IsTrimmed(r)
    ensures Strip(a + r + b) == r
  {
    var s := a + r + b;
    if |r| > 0 {
      assert s[|a|..|a| + |r|] == r;
      assert s[..|a|] == a;
      assert s[|a| + |r|..] == b;
      assert Pads(s, r, |a|);
      StripUnique(s, r, |a|);
    } else {
      assert forall k :: 0 <= k < |s| ==> IsSpace(s[k]) by {
        forall k | 0 <= k < |s| ensures IsSpace(s[k]) {
          if k < |a| { assert s[k] == a[k]; } else { assert s[k] == b[k - |a|]; }
        }
      }
      StripEmpty(s);
    }
  }

  lemma SliceAt(s: string, i: int, e: int, k: int)
    requires 0 <= i <= e <= |s| && 0 <= k < e - i
    ensures s[i..e][k] == s[i + k]
  {
  }

  /** Every character of the stripped text is a character of the text. */
  lemma StrippedCharAt(s: string, k: int) returns (j: int)
    requires 0 <= k < |Strip(s)|
    ensures 0 <= j < |s| && s[j] == Strip(s)[k]
  {
    StripContained(s);
    j := CharOfContained(s, Strip(s), k);
  }

  /** Every character of a contained text is a character of the container. */
  lemma CharOfContained(s: string, r: string, k: int) returns (j: int)
    requires Contains(s, r) && 0 <= k < |r|
    ensures 0 <= j < |s| && s[j] == r[k]
  {
    var i :| 0 <= i <= |s| - |r| && OccursAt(s, r, i);
    j := i + k;
    SliceAt(s, i, i + |r|, k);
  }

  /** A character that is not blank survives `strip()`. */
  lemma StripKeepsNonSpace(s: string, k: int)
    requires 0 <= k < |s| && !IsSpace(s[k])
    ensures s[k] in Strip(s)
  {
    var r := Strip(s);
    StripPads(s);
    var i :| Pads(s, r, i);
    forall j | 0 <= j < i
      ensures IsSpace(s[j])
    {
      assert s[..i][j] == s[j];
    }
    forall j | i + |r| <= j < |s|
      ensures IsSpace(s[j])
    {
      assert s[i + |r|..][j - i - |r|] == s[j];
    }
    assert r[k - i] == s[k];
  }

  /** Python's `str.upper()` on one character, for ASCII letters and the
      dotless i (U+0131), the one lower-case letter outside ASCII whose
      capital is an ASCII letter. */
  function UpperChar(c: char): char {
    if 'a' <= c <= 'z' then (c as int - 32) as char
    else if c == '\U{131}' then 'I'
    else c
  }

  /** Python's `s.upper()`, character by character (see `UpperChar`). */
  function Upper(s: string): (r: string)
    ensures |r| == |s|
    ensures forall k :: 0 <= k < |s| ==> r[k] == UpperChar(s[k])
    ensures forall k :: 0 <= k < |s| && IsAsciiLetter(s[k]) ==> IsAsciiUpper(r[k])
    ensures forall k :: 0 <= k < |s| && !IsAsciiLetter(s[k]) && s[k] != '\U{131}' ==> r[k] == s[k]
  {
    seq(|s|, k requires 0 <= k < |s| => UpperChar(s[k]))
  }

  predicate IsAsciiUpper(c: char) {
    'A' <= c <= 'Z'
  }

  predicate IsAsciiLetter(c: char) {
    ('A' <= c <= 'Z') || ('a' <= c <= 'z')
  }

  /** `upper()` leaves a string of ASCII capitals unchanged. */
  lemma UpperOfCapitals(s: string)
    requires forall k :: 0 <= k < |s| ==> IsAsciiUpper(s[k])
    ensures Upper(s) == s
  {
  }

  /** Upper-casing twice is upper-casing once. */
  lemma UpperIdempotent(s: string)
    ensures Upper(Upper(s)) == Upper(s)
  {
  }
}
