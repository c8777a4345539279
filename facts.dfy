/** What `parse` promises about the headlines it returns, stated against the
    regex semantics of `HeadlineGrammar` and the string operations of
    `Strings`. */
module HeadlineFacts {
  import opened Wrappers
  import opened Strings
  import opened Org
  import opened HeadlineGrammar
  import opened Parser

  // -------------------------------------------------------- one line

  /** A headline line opens with its star run followed by whitespace; the
      level is the length of that run, truncated to 32 bits, so on a line
      shorter than 2^32 characters it is the run's length, at least 1. */
  lemma LevelIsStarRun(line: string, keywords: seq<string>)
    requires LineHeadline(line, keywords).Some?
    ensures StartsHeadline(line)
    ensures var k := Span(line, Star);
            && 1 <= k < |line| && IsSpace(line[k])
            && LineHeadline(line, keywords).value.level as int == k % U32_MODULUS
            && (|line| < U32_MODULUS ==> LineHeadline(line, keywords).value.level as int == k)
  {
    MatchLineIsTheMatch(line);
  }

  /** The priority is present exactly when the KEYWORD PRIORITY group
      matches after the stars, and then the keyword and the priority are
      that group's captures. */
  lemma PriorityIffExplicitGroup(line: string, keywords: seq<string>)
    requires LineHeadline(line, keywords).Some?
    ensures var h := LineHeadline(line, keywords).value;
            var p := Span(line, Star) + 1;
            && (h.priority.Some? ==> h.keyword.Some? && ExplicitAt(line, p, ExplicitGroup(h.keyword.value, h.priority.value)))
            && (h.priority.None? ==> NoExplicitAt(line, p))
  {
    MatchLineIsTheMatch(line);
    var m := MatchLine(line).value;
    assert m.stars == Span(line, Star);
    assert ExplicitCaptures(line, m.stars + 1, m.explicit);
  }

  /** A keyword written with a priority cookie is kept whatever the todo
      list holds: the list only matters to headlines without one. */
  lemma ExplicitKeywordIgnoresList(line: string, keywords1: seq<string>, keywords2: seq<string>)
    requires LineHeadline(line, keywords1).Some?
    requires LineHeadline(line, keywords1).value.priority.Some?
    ensures LineHeadline(line, keywords1) == LineHeadline(line, keywords2)
  {
  }

  /** With a priority cookie, the title is the TITLE capture, trimmed, and
      the keyword is the token before the cookie. */
  lemma ExplicitTitleIsCapture(line: string, keywords: seq<string>)
    requires LineHeadline(line, keywords).Some?
    requires LineHeadline(line, keywords).value.priority.Some?
    ensures var h := LineHeadline(line, keywords).value;
            var m := MatchLine(line).value;
            && m.explicit.Some?
            && h.title == Trim(m.title)
            && h.keyword == Some(m.explicit.value.keyword)
  {
  }

  /** Without a priority cookie, the keyword and the title are the todo
      fallback applied to the trimmed TITLE capture; a keyword found so is
      an entry of the list. */
  lemma FallbackWithoutCookie(line: string, keywords: seq<string>)
    requires LineHeadline(line, keywords).Some?
    requires LineHeadline(line, keywords).value.priority.None?
    ensures var h := LineHeadline(line, keywords).value;
            && (h.keyword, h.title) == Fallback(keywords, Trim(MatchLine(line).value.title))
            && (h.keyword.Some? ==> h.keyword.value in keywords)
  {
    var h := LineHeadline(line, keywords).value;
    var f := Fallback(keywords, Trim(MatchLine(line).value.title));
    if f.0.Some? {
      var i :| 0 <= i < |keywords| && keywords[i] == f.0.value;
    }
  }

  /** The title has no surrounding whitespace and no character that the
      line lacks; in particular, no newline. */
  lemma TitleTrimmedAndFromLine(line: string, keywords: seq<string>, c: char)
    requires LineHeadline(line, keywords).Some?
    requires c !in line
    ensures IsTrimmed(LineHeadline(line, keywords).value.title)
    ensures c !in LineHeadline(line, keywords).value.title
  {
    MatchLineIsTheMatch(line);
    var m := MatchLine(line).value;
    TitleFromLine(line, m, c);
    TrimKeepsOut(m.title, c);
    var title := Trim(m.title);
    var f := Fallback(keywords, title);
    if m.explicit.None? && f.0.Some? {
      var i :| 0 <= i < |keywords| && keywords[i] <= title && f.1 == Trim(title[|keywords[i]|..]);
      assert c !in title[|keywords[i]|..];
      TrimKeepsOut(title[|keywords[i]|..], c);
    }
  }

  /** Every tag is a non-empty word of tag characters; there are tags
      exactly when the TAGS group matched, and then the group's text is the
      tags joined by colons between an opening and a closing colon. */
  lemma TagsAreTheTagBlock(line: string, keywords: seq<string>)
    requires LineHeadline(line, keywords).Some?
    ensures var h := LineHeadline(line, keywords).value;
            var m := MatchLine(line).value;
            && (forall i :: 0 <= i < |h.tags| ==> IsTag(h.tags[i]))
            && (|h.tags| == 0 <==> m.tags.None?)
            && (m.tags.Some? ==> m.tags.value == ":" + Join(h.tags, ':') + ":")
  {
  }

  /** The TAGS capture, whose text `TagsAreTheTagBlock` relates to the
      tags, is the end of the line. */
  lemma TagBlockAtLineEnd(line: string)
    requires MatchLine(line).Some? && MatchLine(line).value.tags.Some?
    ensures var block := MatchLine(line).value.tags.value;
            |block| <= |line| && line[|line| - |block|..] == block
  {
    MatchLineIsTheMatch(line);
    TagsEndLine(line, MatchLine(line).value);
  }

  // ------------------------------------------------------ the document

  /** Headlines come out in the order of their lines: parsing two runs of
      lines one after the other is parsing each. */
  lemma {:induction false} HeadlinesOfAppend(a: seq<string>, b: seq<string>, keywords: seq<string>)
    ensures HeadlinesOf(a + b, keywords) == HeadlinesOf(a, keywords) + HeadlinesOf(b, keywords)
    decreases |b|
  {
    if |b| == 0 {
      assert a + b == a;
    } else {
      var b' := b[..|b| - 1];
      assert (a + b)[..|a + b| - 1] == a + b';
      assert (a + b)[|a + b| - 1] == b[|b| - 1];
      HeadlinesOfAppend(a, b', keywords);
    }
  }

  /** Every headline is the headline of one of the lines. */
  lemma {:induction false} HeadlinesComeFromLines(lines: seq<string>, keywords: seq<string>)
    ensures forall h :: h in HeadlinesOf(lines, keywords) ==>
              exists i :: 0 <= i < |lines| && LineHeadline(lines[i], keywords) == Some(h)
  {
    if |lines| > 0 {
      var init := lines[..|lines| - 1];
      HeadlinesComeFromLines(init, keywords);
      forall h | h in HeadlinesOf(lines, keywords)
        ensures exists i :: 0 <= i < |lines| && LineHeadline(lines[i], keywords) == Some(h)
      {
        if h in HeadlinesOf(init, keywords) {
          var i :| 0 <= i < |init| && LineHeadline(init[i], keywords) == Some(h);
          assert lines[i] == init[i];
        } else {
          assert LineHeadline(lines[|lines| - 1], keywords) == Some(h);
        }
      }
    }
  }

  /** Every headline line contributes its headline. */
  lemma {:induction false} LinesGiveHeadlines(lines: seq<string>, keywords: seq<string>)
    ensures forall i :: 0 <= i < |lines| && LineHeadline(lines[i], keywords).Some? ==>
              LineHeadline(lines[i], keywords).value in HeadlinesOf(lines, keywords)
  {
    if |lines| > 0 {
      var init := lines[..|lines| - 1];
      LinesGiveHeadlines(init, keywords);
      forall i | 0 <= i < |lines| - 1 && LineHeadline(lines[i], keywords).Some?
        ensures LineHeadline(lines[i], keywords).value in HeadlinesOf(lines, keywords)
      {
        assert lines[i] == init[i];
      }
    }
  }

  /** Each line of a text is at most as long as the text. */
  lemma {:induction false} LinesNoLongerThanText(s: string, sep: char)
    ensures forall i :: 0 <= i < |Split(s, sep)| ==> |Split(s, sep)[i]| <= |s|
  {
    if |s| > 0 {
      LinesNoLongerThanText(s[1..], sep);
    }
  }

  /** Every headline `parse` returns is a leaf without a section, with a
      trimmed one-line title and valid tags; on a text shorter than 2^32
      characters its level is at least 1. */
  lemma ParsedHeadlinesAreWellFormed(text: string, keywords: seq<string>)
    ensures forall h :: h in ParseHeadlines(text, keywords) ==>
              && h.section.None? && h.headlines == []
              && IsTrimmed(h.title) && '\n' !in h.title
              && (forall i :: 0 <= i < |h.tags| ==> IsTag(h.tags[i]))
              && (|text| < U32_MODULUS ==> h.level >= 1)
  {
    var lines := Split(text, '\n');
    HeadlinesComeFromLines(lines, keywords);
    LinesNoLongerThanText(text, '\n');
    forall h | h in ParseHeadlines(text, keywords)
      ensures && h.section.None? && h.headlines == []
              && IsTrimmed(h.title) && '\n' !in h.title
              && (forall i :: 0 <= i < |h.tags| ==> IsTag(h.tags[i]))
              && (|text| < U32_MODULUS ==> h.level >= 1)
    {
      var i :| 0 <= i < |lines| && LineHeadline(lines[i], keywords) == Some(h);
      LevelIsStarRun(lines[i], keywords);
      TitleTrimmedAndFromLine(lines[i], keywords, '\n');
      TagsAreTheTagBlock(lines[i], keywords);
    }
  }

  /** Headlines keep document order at the level of the text too: a text
      made of two parts joined by a newline parses to the headlines of the
      first part followed by those of the second. */
  lemma ParseAcrossNewline(a: string, b: string, keywords: seq<string>)
    ensures ParseHeadlines(a + "\n" + b, keywords) == ParseHeadlines(a, keywords) + ParseHeadlines(b, keywords)
  {
    SplitAround(a, b, '\n');
    HeadlinesOfAppend(Split(a, '\n'), Split(b, '\n'), keywords);
  }

  /** The lines `parse` reads are the text cut at its newlines: joined
      back, they give the text. */
  lemma LinesRebuildText(text: string)
    ensures Join(Split(text, '\n'), '\n') == text
  {
    JoinSplit(text, '\n');
  }

  // ------------------------------------------------ the todo fallback

  /** With no todo keywords the fallback never fires. */
  lemma FallbackEmptyList(title: string)
    ensures Fallback([], title) == (None, title)
  {
  }

  /** The earliest entry wins even when a later one is longer. */
  lemma FallbackFirstEntryWins()
    ensures Fallback(["TO", "TODO"], "TODO Buy milk") == (Some("TO"), "DO Buy milk")
  {
    assert "TO" <= "TODO Buy milk";
    var rest := "TODO Buy milk"[2..];
    assert rest == "DO Buy milk";
    assert Trim(rest) == rest by {
      TrimOfTrimmed(rest);
    }
  }

  /** An entry needs no word boundary after it: `DONE` takes the front of
      `DONEX`. */
  lemma FallbackNoWordBoundary()
    ensures Fallback(["DONE"], "DONEX") == (Some("DONE"), "X")
  {
    assert "DONE" <= "DONEX";
    assert "DONEX"[4..] == "X";
    TrimOfTrimmed("X");
  }

  /** The title `DONE` under the todo list `TODO`, `DONE` (as in `** DONE`):
      the second entry is the first the title starts with, and nothing of
      the title is left. */
  lemma DoneFallback()
    ensures Fallback(["TODO", "DONE"], "DONE") == (Some("DONE"), "")
  {
    assert FirstPrefix(["TODO", "DONE"], "DONE") == Some(1) by {
      assert "TODO"[0] != "DONE"[0];
      assert ["TODO", "DONE"][1..] == ["DONE"];
      assert FirstPrefix(["DONE"], "DONE") == Some(0);
    }
    assert "DONE"[4..] == "";
  }
}
