/** The headline pattern of `DocumentParser::parse`, applied to one line:

      ^(\*+)\s (?:(\S+)\s\[\#(.)\]\s)? (.*?)\s* (:(?:[a-zA-Z0-9_@\#%]+:)+)? $

    `IsMatchOf` states what the regex engine (leftmost-first, greedy `+`,
    `?` and `*`, lazy `*?`) captures on a line; `MatchLine` computes it,
    and the lemma `MatchLineIsTheMatch` proves that the two agree. */
module HeadlineGrammar {
  import opened Wrappers
  import opened Strings

  // ---------------------------------------------------------------- TAGS

  /** `(?:[a-zA-Z0-9_@#%]+:)+` read one character at a time; `inToken`
      says whether the current token already has a character. */
  predicate TagRun(s: string, inToken: bool)
    decreases |s|
  {
    if |s| == 0 then false
    else if s[0] == ':' then inToken && (|s| == 1 || TagRun(s[1..], false))
    else IsTagChar(s[0]) && TagRun(s[1..], true)
  }

  /** The TAGS group: `:(?:[a-zA-Z0-9_@#%]+:)+`. */
  predicate IsTagBlock(s: string) {
    |s| >= 1 && s[0] == ':' && TagRun(s[1..], false)
  }

  /** One tag: a non-empty word of tag characters. */
  predicate IsTag(t: string) {
    |t| > 0 && forall i :: 0 <= i < |t| ==> IsTagChar(t[i])
  }

  /** The colon-separated pieces of a tag run: each is a tag, except that
      the first may be empty when its token has already begun. */
  ghost predicate TokensOk(parts: seq<string>, inToken: bool) {
    |parts| >= 1
    && (forall i :: 0 <= i < |parts| ==> forall j :: 0 <= j < |parts[i]| ==> IsTagChar(parts[i][j]))
    && (forall i :: 0 < i < |parts| ==> |parts[i]| > 0)
    && (inToken || |parts[0]| > 0)
  }

  /** A tag run is text ending in `:` whose colon-separated pieces before
      that colon are tags. */
  lemma {:induction false} TagRunTokens(s: string, inToken: bool)
    ensures TagRun(s, inToken) <==>
            (|s| >= 1 && s[|s| - 1] == ':' && TokensOk(Split(s[..|s| - 1], ':'), inToken))
    decreases |s|
  {
    if |s| == 1 {
      assert s[..0] == "";
    } else if |s| > 1 {
      var body := s[..|s| - 1];
      assert s[1..][..|s| - 2] == body[1..];
      TagRunTokens(s[1..], s[0] != ':');
      var rest := Split(body[1..], ':');
      var parts := Split(body, ':');
      if s[0] == ':' {
        assert parts == [""] + rest;
        TokensOkEmptyFirst(rest, inToken);
      } else {
        assert parts == [[s[0]] + rest[0]] + rest[1..];
        TokensOkCharFirst(s[0], rest, inToken);
      }
    }
  }

  /** A colon first: an empty piece, allowed only inside a begun token. */
  lemma TokensOkEmptyFirst(rest: seq<string>, inToken: bool)
    requires |rest| >= 1
    ensures TokensOk([""] + rest, inToken) <==> inToken && TokensOk(rest, false)
  {
    var parts := [""] + rest;
    assert forall i :: 0 < i < |parts| ==> parts[i] == rest[i - 1];
    if inToken && TokensOk(rest, false) {
      assert forall i :: 0 <= i < |parts| ==> forall j :: 0 <= j < |parts[i]| ==> IsTagChar(parts[i][j]);
    }
    if TokensOk(parts, inToken) {
      assert forall i :: 0 <= i < |rest| ==> rest[i] == parts[i + 1];
    }
  }

  /** A tag character first: it begins (or continues) the first piece. */
  lemma TokensOkCharFirst(c: char, rest: seq<string>, inToken: bool)
    requires |rest| >= 1
    ensures TokensOk([[c] + rest[0]] + rest[1..], inToken) <==> IsTagChar(c) && TokensOk(rest, true)
  {
    var parts := [[c] + rest[0]] + rest[1..];
    assert forall i :: 0 < i < |parts| ==> parts[i] == rest[i];
    assert forall j :: 0 < j < |parts[0]| ==> parts[0][j] == rest[0][j - 1];
    assert parts[0][0] == c;
    if IsTagChar(c) && TokensOk(rest, true) {
      assert forall i :: 0 <= i < |parts| ==> forall j :: 0 <= j < |parts[i]| ==> IsTagChar(parts[i][j]);
    }
    if TokensOk(parts, inToken) {
      assert forall j :: 0 <= j < |rest[0]| ==> rest[0][j] == parts[0][j + 1];
    }
  }

  /** Tags are colon-free, so they split back out of their join. */
  lemma TagsColonFree(tags: seq<string>)
    requires forall i :: 0 <= i < |tags| ==> IsTag(tags[i])
    ensures forall i :: 0 <= i < |tags| ==> ':' !in tags[i]
  {
  }

  /** `x[1..x.len()-1].split(':')` on the matched tag block `x`: the tags,
      each a non-empty word of tag characters, that the block lists
      between its colons. */
  function SplitTagBlock(block: string): (tags: seq<string>)
    requires IsTagBlock(block)
    ensures |tags| >= 1
    ensures forall i :: 0 <= i < |tags| ==> IsTag(tags[i])
    ensures ":" + Join(tags, ':') + ":" == block
  {
    TagRunTokens(block[1..], false);
    assert block[1..][..|block| - 2] == block[1..|block| - 1];
    var inner := block[1..|block| - 1];
    JoinSplit(inner, ':');
    assert block == ":" + inner + ":";
    Split(inner, ':')
  }

  /** Valid tags are the pieces a tag run may have. */
  lemma TagsAreTokens(tags: seq<string>)
    requires |tags| >= 1
    requires forall i :: 0 <= i < |tags| ==> IsTag(tags[i])
    ensures TokensOk(tags, false)
  {
  }

  /** Tags joined by colons, with a closing colon, are a tag run. */
  lemma TagsFormRun(tags: seq<string>)
    requires |tags| >= 1
    requires forall i :: 0 <= i < |tags| ==> IsTag(tags[i])
    ensures TagRun(Join(tags, ':') + ":", false)
  {
    var joined := Join(tags, ':');
    var run := joined + ":";
    assert Split(joined, ':') == tags by {
      TagsColonFree(tags);
      SplitJoin(tags, ':');
    }
    TagsAreTokens(tags);
    assert run[..|run| - 1] == joined;
    TagRunTokens(run, false);
  }

  /** Tags joined by colons between an outer pair of colons match TAGS. */
  lemma TagsFormBlock(tags: seq<string>)
    requires |tags| >= 1
    requires forall i :: 0 <= i < |tags| ==> IsTag(tags[i])
    ensures IsTagBlock(":" + Join(tags, ':') + ":")
  {
    var run := Join(tags, ':') + ":";
    TagsFormRun(tags);
    assert ":" + Join(tags, ':') + ":" == [':'] + run;
    assert ([':'] + run)[1..] == run;
  }

  /** Any non-empty list of tags is written as a tag block from which
      `SplitTagBlock` reads the same list back. */
  lemma TagBlockRoundTrip(tags: seq<string>)
    requires |tags| >= 1
    requires forall i :: 0 <= i < |tags| ==> IsTag(tags[i])
    ensures IsTagBlock(":" + Join(tags, ':') + ":")
    ensures SplitTagBlock(":" + Join(tags, ':') + ":") == tags
  {
    var joined := Join(tags, ':');
    var block := ":" + joined + ":";
    TagsFormBlock(tags);
    assert block[1..|block| - 1] == joined;
    TagsColonFree(tags);
    SplitJoin(tags, ':');
  }

  // -------------------------------------------------- `\s*` TAGS? `$`

  /** `\s*(TAGS)?$` as the regex reads it on the text after TITLE: some
      whitespace, then the end of the line or a tag block reaching it. */
  ghost predicate TailMatches(s: string) {
    exists w :: 0 <= w <= |s| && AllSpace(s[..w]) && (w == |s| || IsTagBlock(s[w..]))
  }

  /** The same test with the whitespace run taken whole. */
  predicate TailOk(s: string) {
    var w := Span(s, Space);
    w == |s| || IsTagBlock(s[w..])
  }

  /** A tag block starts with `:`, never with whitespace, so `\s*` can only
      succeed by taking the whole whitespace run. */
  lemma TailOkIff(s: string)
    ensures TailOk(s) <==> TailMatches(s)
  {
    var k := Span(s, Space);
    if TailOk(s) {
      assert AllSpace(s[..k]);
    }
    if TailMatches(s) {
      var w :| 0 <= w <= |s| && AllSpace(s[..w]) && (w == |s| || IsTagBlock(s[w..]));
      assert forall i :: 0 <= i < w ==> IsSpace(s[..w][i]);
      if w < |s| {
        assert s[w] == s[w..][0] == ':';
      }
      SpanIs(s, Space, w);
    }
  }

  /** `TailOk` of the text from column `m` on. */
  predicate TailOkAt(s: string, m: nat)
    requires m <= |s|
  {
    TailOk(s[m..])
  }

  /** `TailMatches` of the text from column `m` on. */
  ghost predicate TailMatchesAt(s: string, m: nat)
    requires m <= |s|
  {
    TailMatches(s[m..])
  }

  /** The lazy TITLE `(.*?)`: the first end position, from `n` on, after
      which the rest of the line satisfies `TailOk`. */
  function LazyEnd(s: string, n: nat): (e: nat)
    requires n <= |s|
    ensures n <= e <= |s| && TailOkAt(s, e)
    ensures forall m :: n <= m < e ==> !TailOkAt(s, m)
    decreases |s| - n
  {
    if TailOkAt(s, n) then n
    else
      LazyEnd(s, n + 1)
  }

  // -------------------------------------------------- KEYWORD PRIORITY

  /** The captures of the optional group `(\S+)\s\[\#(.)\]\s`. */
  datatype ExplicitGroup = ExplicitGroup(keyword: string, priority: char)

  /** Length of the text the group covers: the keyword, a whitespace
      character, `[#`, the priority, `]` and a whitespace character. */
  function GroupLength(g: Option<ExplicitGroup>): nat {
    match g
    case None => 0
    case Some(x) => |x.keyword| + 6
  }

  /** The group matches at column `p` of `line`, capturing `g`. */
  ghost predicate ExplicitAt(line: string, p: nat, g: ExplicitGroup) {
    var j := p + |g.keyword|;
    |g.keyword| >= 1 && j + 6 <= |line|
    && line[p..j] == g.keyword
    && (forall i :: p <= i < j ==> !IsSpace(line[i]))
    && IsSpace(line[j]) && line[j + 1] == '[' && line[j + 2] == '#'
    && line[j + 3] == g.priority && line[j + 4] == ']' && IsSpace(line[j + 5])
  }

  /** End of the run of non-space characters at column `p`. */
  function RunEnd(line: string, p: nat): (j: nat)
    requires p <= |line|
    ensures p <= j <= |line|
  {
    p + Span(line[p..], NonSpace)
  }

  /** The characters around the priority: a non-empty keyword run ending at
      `j`, then whitespace, `[#`, one character, `]` and whitespace. */
  predicate ExplicitShapeAt(line: string, p: nat, j: nat) {
    p < j && j + 6 <= |line| && IsSpace(line[j]) && line[j + 1] == '['
    && line[j + 2] == '#' && line[j + 4] == ']' && IsSpace(line[j + 5])
  }

  /** Wherever the group matches, its keyword is the whole run of
      non-space characters at `p`, and the priority is the character after
      the run, whitespace and `[#`. */
  lemma ExplicitKeywordIsRun(line: string, p: nat)
    requires p <= |line|
    ensures forall g :: ExplicitAt(line, p, g) ==>
              && ExplicitShapeAt(line, p, RunEnd(line, p))
              && g == ExplicitGroup(line[p..RunEnd(line, p)], line[RunEnd(line, p) + 3])
  {
    forall g | ExplicitAt(line, p, g)
      ensures && ExplicitShapeAt(line, p, RunEnd(line, p))
              && g == ExplicitGroup(line[p..RunEnd(line, p)], line[RunEnd(line, p) + 3])
    {
      var n := |g.keyword|;
      assert forall i :: 0 <= i < n ==> line[p..][i] == line[p + i];
      assert line[p..][n] == line[p + n];
      SpanIs(line[p..], NonSpace, n);
    }
  }

  /** When the characters around the priority are in place, the group
      matches with the run as its keyword. */
  lemma ExplicitFound(line: string, p: nat)
    requires p <= |line| && ExplicitShapeAt(line, p, RunEnd(line, p))
    ensures ExplicitAt(line, p, ExplicitGroup(line[p..RunEnd(line, p)], line[RunEnd(line, p) + 3]))
  {
    var j := RunEnd(line, p);
    assert forall i :: p <= i < j ==> line[i] == line[p..][i - p];
  }

  /** Try the group at column `p`: `\S+` takes the whole non-space run, as
      a shorter run would leave a non-space character for `\s`. The result
      is the group's match exactly when it has one. */
  function MatchExplicit(line: string, p: nat): (r: Option<ExplicitGroup>)
    requires p <= |line|
    ensures r.Some? ==> ExplicitAt(line, p, r.value)
    ensures forall g :: ExplicitAt(line, p, g) ==> r == Some(g)
  {
    ExplicitKeywordIsRun(line, p);
    var j := RunEnd(line, p);
    if ExplicitShapeAt(line, p, j) then
      ExplicitFound(line, p);
      Some(ExplicitGroup(line[p..j], line[j + 3]))
    else None
  }

  // ---------------------------------------------------------- the line

  /** The captures of one match of the pattern on a line. */
  datatype LineMatch = LineMatch(
    stars: nat,                      // length of group 1, `\*+`
    explicit: Option<ExplicitGroup>, // groups 2 and 3
    title: string,                   // group 4, untrimmed
    tags: Option<string>)            // group 5

  /** Column where TITLE starts: after the stars, one whitespace character
      and the KEYWORD PRIORITY group if it matched. */
  function TitleStart(m: LineMatch): nat {
    TitleColumn(m.stars, m.explicit)
  }

  function TitleColumn(stars: nat, explicit: Option<ExplicitGroup>): nat {
    stars + 1 + GroupLength(explicit)
  }

  /** What the optional TAGS group captures on the text `s` after TITLE. */
  ghost predicate TailCaptures(s: string, tags: Option<string>) {
    match tags
    case None => AllSpace(s)
    case Some(b) =>
      |b| <= |s| && IsTagBlock(b) && s[|s| - |b|..] == b && AllSpace(s[..|s| - |b|])
  }

  /** The optional group cannot match at column `p`. */
  ghost predicate NoExplicitAt(line: string, p: nat) {
    forall g :: !ExplicitAt(line, p, g)
  }

  /** `e` is what the optional group captures at column `p`: its match
      when it has one, and `None` when it cannot match there. */
  ghost predicate ExplicitCaptures(line: string, p: nat, e: Option<ExplicitGroup>) {
    match e
    case Some(g) => ExplicitAt(line, p, g)
    case None => NoExplicitAt(line, p)
  }

  /** `title` and `tags` are what `(.*?)\s*(TAGS)?$` captures on `rest`,
      the text after the optional group: TITLE is the shortest prefix
      after which the rest is accepted. */
  ghost predicate IsTitleSplit(rest: string, title: string, tags: Option<string>) {
    |title| <= |rest| && rest[..|title|] == title
    && TailCaptures(rest[|title|..], tags)
    && forall n :: 0 <= n < |title| ==> !TailMatchesAt(rest, n)
  }

  /** `m` is the match the regex engine reports on `line`: the star run
      ends in whitespace, the optional group is taken whenever it matches,
      and TITLE is as short as the rest of the pattern allows. */
  ghost predicate IsMatchOf(line: string, m: LineMatch) {
    && 1 <= m.stars < |line|
    && (forall i :: 0 <= i < m.stars ==> line[i] == '*')
    && IsSpace(line[m.stars])
    && ExplicitCaptures(line, m.stars + 1, m.explicit)
    && TitleStart(m) <= |line|
    && IsTitleSplit(line[TitleStart(m)..], m.title, m.tags)
  }

  /** TITLE and TAGS on the text after the optional group. */
  function SplitTitle(rest: string): (r: (string, Option<string>))
    ensures r.1.Some? ==> IsTagBlock(r.1.value)
  {
    var e := LazyEnd(rest, 0);
    var tail := rest[e..];
    var w := Span(tail, Space);
    (rest[..e], if w == |tail| then None else Some(tail[w..]))
  }

  /** `SplitTitle` computes the lazy TITLE and the TAGS capture. */
  lemma SplitTitleSound(rest: string)
    ensures IsTitleSplit(rest, SplitTitle(rest).0, SplitTitle(rest).1)
  {
    var e := LazyEnd(rest, 0);
    var tail := rest[e..];
    var w := Span(tail, Space);
    assert AllSpace(tail[..w]);
    assert w < |tail| ==> tail[|tail| - |tail[w..]|..] == tail[w..];
    forall n | 0 <= n < e ensures !TailMatchesAt(rest, n) {
      assert !TailOkAt(rest, n);
      TailOkIff(rest[n..]);
    }
  }

  /** `(.*?)\s*(TAGS)?$` has exactly one way to match `rest`. */
  lemma SplitTitleComplete(rest: string, title: string, tags: Option<string>)
    requires IsTitleSplit(rest, title, tags)
    ensures SplitTitle(rest) == (title, tags)
  {
    var e := LazyEnd(rest, 0);
    var n := |title|;
    TailCapturesUnique(rest[n..], tags);
    TailOkIff(rest[n..]);
    assert TailOkAt(rest, n);
    assert TailMatchesAt(rest, e) by {
      TailOkIff(rest[e..]);
    }
    assert e == n;
  }

  /** On text without a colon, `\s*(TAGS)?$` fails wherever a non-space
      character still follows: at every column before `z` when the
      character before `z` is not whitespace. */
  lemma NoTailBeforeLastWord(rest: string, z: nat)
    requires ':' !in rest
    requires z <= |rest| && (0 < z ==> !IsSpace(rest[z - 1]))
    ensures forall n :: 0 <= n < z ==> !TailOkAt(rest, n)
  {
    forall n | 0 <= n < z
      ensures !TailOkAt(rest, n)
    {
      var s := rest[n..];
      var w := Span(s, Space);
      assert s[z - 1 - n] == rest[z - 1];
      assert w < |s| && s[w] != ':';
    }
  }

  /** Trailing whitespace alone is accepted by `\s*(TAGS)?$`. */
  lemma TailOfTrailingSpace(rest: string, z: nat)
    requires z <= |rest|
    requires forall i :: z <= i < |rest| ==> IsSpace(rest[i])
    ensures Span(rest[z..], Space) == |rest| - z
    ensures TailOkAt(rest, z)
  {
    var s := rest[z..];
    assert forall i :: 0 <= i < |s| ==> s[i] == rest[z + i];
    SpanIs(s, Space, |s|);
  }

  /** Text without a colon has no TAGS capture: TITLE is all of it but
      the trailing whitespace. */
  lemma TitleWithoutColon(rest: string)
    requires ':' !in rest
    ensures SplitTitle(rest) == (rest[..|rest| - BackSpan(rest, Space)], None)
  {
    var z := |rest| - BackSpan(rest, Space);
    var e := LazyEnd(rest, 0);
    TailOfTrailingSpace(rest, z);
    NoTailBeforeLastWord(rest, z);
    assert e == z;
  }

  /** A tag block cannot start with whitespace, so the TAGS capture is fixed
      by the text after TITLE. */
  lemma TailCapturesUnique(s: string, tags: Option<string>)
    requires TailCaptures(s, tags)
    ensures TailMatches(s)
    ensures tags == (if Span(s, Space) == |s| then None else Some(s[Span(s, Space)..]))
  {
    match tags {
      case None =>
        assert s[..|s|] == s;
        SpanIs(s, Space, |s|);
      case Some(b) =>
        var w := |s| - |b|;
        assert s[w] == b[0] == ':';
        assert !IsSpace(':');
        assert forall i :: 0 <= i < w ==> s[..w][i] == s[i];
        SpanIs(s, Space, w);
    }
  }

  /** The line starts with a run of `*` followed by whitespace. */
  ghost predicate StartsHeadline(line: string) {
    exists k :: 1 <= k < |line| && (forall i :: 0 <= i < k ==> line[i] == '*') && IsSpace(line[k])
  }

  /** Such a run is the maximal run of `*`. */
  lemma StarsAreSpan(line: string, k: nat)
    requires 1 <= k < |line| && (forall i :: 0 <= i < k ==> line[i] == '*') && IsSpace(line[k])
    ensures Span(line, Star) == k
  {
    SpanIs(line, Star, k);
  }

  /** `MatchExplicit` computes the capture of the optional group. */
  lemma ExplicitComputed(line: string, p: nat)
    requires p <= |line|
    ensures ExplicitCaptures(line, p, MatchExplicit(line, p))
  {
  }

  /** The optional group has at most one capture at a column. */
  lemma ExplicitUnique(line: string, p: nat, e1: Option<ExplicitGroup>, e2: Option<ExplicitGroup>)
    requires p <= |line|
    requires ExplicitCaptures(line, p, e1) && ExplicitCaptures(line, p, e2)
    ensures e1 == e2
  {
    var r := MatchExplicit(line, p);
  }

  /** TITLE and TAGS have at most one pair of captures on a text. */
  lemma TitleSplitUnique(rest: string, t1: string, g1: Option<string>, t2: string, g2: Option<string>)
    requires IsTitleSplit(rest, t1, g1) && IsTitleSplit(rest, t2, g2)
    ensures t1 == t2 && g1 == g2
  {
    SplitTitleComplete(rest, t1, g1);
    SplitTitleComplete(rest, t2, g2);
  }

  /** The conjuncts of `IsMatchOf`, established one at a time. */
  lemma AssembleMatch(line: string, k: nat, explicit: Option<ExplicitGroup>, title: string, tags: Option<string>)
    requires 1 <= k < |line| && (forall i :: 0 <= i < k ==> line[i] == '*') && IsSpace(line[k])
    requires ExplicitCaptures(line, k + 1, explicit)
    requires TitleColumn(k, explicit) <= |line|
    requires IsTitleSplit(line[TitleColumn(k, explicit)..], title, tags)
    ensures IsMatchOf(line, LineMatch(k, explicit, title, tags))
  {
  }

  /** The pattern has at most one match on a line: the stars are the star
      run, the optional group has one capture there, and TITLE and TAGS
      have one split of the rest. */
  lemma MatchUnique(line: string, m1: LineMatch, m2: LineMatch)
    requires IsMatchOf(line, m1) && IsMatchOf(line, m2)
    ensures m1 == m2
  {
    MatchParts(line, m1);
    MatchParts(line, m2);
    PartsUnique(line, m1.stars, m1.explicit, m1.title, m1.tags, m2.explicit, m2.title, m2.tags);
  }

  /** A match's stars are the star run; its other captures are those of
      the optional group and of the title split after them. */
  lemma MatchParts(line: string, m: LineMatch)
    requires IsMatchOf(line, m)
    ensures m.stars == Span(line, Star) && m.stars + 1 <= |line|
    ensures ExplicitCaptures(line, m.stars + 1, m.explicit)
    ensures TitleColumn(m.stars, m.explicit) <= |line|
    ensures IsTitleSplit(line[TitleColumn(m.stars, m.explicit)..], m.title, m.tags)
  {
    StarsAreSpan(line, m.stars);
  }

  /** With the stars fixed, the rest of a match is fixed too. */
  lemma PartsUnique(line: string, k: nat, e1: Option<ExplicitGroup>, t1: string, g1: Option<string>,
                    e2: Option<ExplicitGroup>, t2: string, g2: Option<string>)
    requires k + 1 <= |line|
    requires ExplicitCaptures(line, k + 1, e1) && ExplicitCaptures(line, k + 1, e2)
    requires TitleColumn(k, e1) <= |line| && TitleColumn(k, e2) <= |line|
    requires IsTitleSplit(line[TitleColumn(k, e1)..], t1, g1)
    requires IsTitleSplit(line[TitleColumn(k, e2)..], t2, g2)
    ensures e1 == e2 && t1 == t2 && g1 == g2
  {
    ExplicitUnique(line, k + 1, e1, e2);
    TitleSplitUnique(line[TitleColumn(k, e1)..], t1, g1, t2, g2);
  }

  /** TITLE is a piece of the line: it has no character the line lacks. */
  lemma TitleFromLine(line: string, m: LineMatch, c: char)
    requires IsMatchOf(line, m)
    requires c !in line
    ensures c !in m.title
  {
    var rest := line[TitleStart(m)..];
    assert m.title == rest[..|m.title|];
  }

  /** The TAGS capture, when there is one, is where the line ends. */
  lemma TagsEndLine(line: string, m: LineMatch)
    requires IsMatchOf(line, m) && m.tags.Some?
    ensures |m.tags.value| <= |line| && line[|line| - |m.tags.value|..] == m.tags.value
  {
    var b := m.tags.value;
    var c := TitleStart(m) + |m.title|;
    var s := line[TitleStart(m)..][|m.title|..];
    assert s == line[c..];
    assert s[|s| - |b|..] == b;
    assert line[c..][|s| - |b|..] == line[|line| - |b|..];
  }

  /** Every match on the line is `m`. */
  lemma OnlyMatch(line: string, m: LineMatch)
    requires IsMatchOf(line, m)
    ensures forall m' :: IsMatchOf(line, m') ==> m' == m
  {
    forall m' | IsMatchOf(line, m') ensures m' == m {
      MatchUnique(line, m, m');
    }
  }

  /** Without leading stars and whitespace nothing matches. */
  lemma NoMatch(line: string)
    requires !StartsHeadline(line)
    ensures forall m :: !IsMatchOf(line, m)
  {
  }

  /** A line whose star run is empty, fills the line or is not followed
      by whitespace does not match. */
  lemma NotHeadline(line: string)
    requires var k := Span(line, Star); k == 0 || k == |line| || !IsSpace(line[k])
    ensures !StartsHeadline(line)
    ensures forall m :: !IsMatchOf(line, m)
  {
    if StartsHeadline(line) {
      var k :| 1 <= k < |line| && (forall i :: 0 <= i < k ==> line[i] == '*') && IsSpace(line[k]);
      StarsAreSpan(line, k);
    }
    NoMatch(line);
  }

  /** On a line that starts with stars and whitespace, the captures of
      the optional group and of TITLE and TAGS on the rest form its only
      match. */
  lemma HeadlineCase(line: string, k: nat, explicit: Option<ExplicitGroup>, title: string, tags: Option<string>)
    requires k == Span(line, Star) && 1 <= k < |line| && IsSpace(line[k])
    requires ExplicitCaptures(line, k + 1, explicit)
    requires TitleColumn(k, explicit) <= |line|
    requires IsTitleSplit(line[TitleColumn(k, explicit)..], title, tags)
    ensures StartsHeadline(line)
    ensures IsMatchOf(line, LineMatch(k, explicit, title, tags))
    ensures forall m' :: IsMatchOf(line, m') ==> m' == LineMatch(k, explicit, title, tags)
  {
    var m := LineMatch(k, explicit, title, tags);
    AssembleMatch(line, k, explicit, title, tags);
    OnlyMatch(line, m);
  }

  /** The pattern applied to one line: the captures of its match, if it
      has one. `MatchLineIsTheMatch` states that this is the regex's
      match; the TAGS capture is always a tag block. */
  function MatchLine(line: string): (r: Option<LineMatch>)
    ensures r.Some? && r.value.tags.Some? ==> IsTagBlock(r.value.tags.value)
  {
    var k := Span(line, Star);
    if k == 0 || k == |line| || !IsSpace(line[k]) then None
    else
      var explicit := MatchExplicit(line, k + 1);
      var split := SplitTitle(line[TitleColumn(k, explicit)..]);
      Some(LineMatch(k, explicit, split.0, split.1))
  }

  /** `MatchLine` finds the regex's match whenever there is one (and there
      is at most one), and gives `None` exactly when the line does not start
      with stars and whitespace. */
  lemma MatchLineIsTheMatch(line: string)
    ensures MatchLine(line).Some? ==> IsMatchOf(line, MatchLine(line).value)
    ensures MatchLine(line).None? <==> !StartsHeadline(line)
    ensures forall m :: IsMatchOf(line, m) ==> MatchLine(line) == Some(m)
  {
    var k := Span(line, Star);
    if k == 0 || k == |line| || !IsSpace(line[k]) {
      NotHeadline(line);
    } else {
      var explicit := MatchExplicit(line, k + 1);
      ExplicitComputed(line, k + 1);
      var rest := line[TitleColumn(k, explicit)..];
      SplitTitleSound(rest);
      HeadlineCase(line, k, explicit, SplitTitle(rest).0, SplitTitle(rest).1);
    }
  }
}
