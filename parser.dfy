/** `DocumentParser`: the builder that holds the todo keywords and `parse`,
    which turns every headline line of a text into a `Headline`, in
    document order, and wraps them in a `Document`. */
module Parser {
  import opened Wrappers
  import opened Strings
  import opened Org
  import opened HeadlineGrammar

  const U32_MODULUS: int := 0x1_0000_0000

  // ------------------------------------------------------------ LEVEL

  /** `stars.len() as u32`: the star count, truncated to 32 bits. */
  function Level(stars: nat): (level: u32)
    ensures stars < U32_MODULUS ==> level as int == stars
    ensures (level as int - stars) % U32_MODULUS == 0
  {
    (stars % U32_MODULUS) as u32
  }

  // -------------------------------------------------- todo keywords

  /** Index of the first entry of `keywords` that `title` starts with. */
  function FirstPrefix(keywords: seq<string>, title: string): (r: Option<nat>)
    ensures r.Some? ==> r.value < |keywords| && keywords[r.value] <= title
    ensures r.Some? ==> forall j :: 0 <= j < r.value ==> !(keywords[j] <= title)
    ensures r.None? <==> forall j :: 0 <= j < |keywords| ==> !(keywords[j] <= title)
  {
    if |keywords| == 0 then None
    else if keywords[0] <= title then Some(0)
    else
      match FirstPrefix(keywords[1..], title)
      case None => None
      case Some(i) => Some(i + 1)
  }

  /** The todo-keyword fallback for a headline without an explicit keyword:
      the first entry the (trimmed) title starts with, and the title after
      it, trimmed again; no entry leaves the title as it is. An entry is
      a plain prefix: nothing has to follow it. */
  function Fallback(keywords: seq<string>, title: string): (r: (Option<string>, string))
    ensures r.0.None? <==> forall j :: 0 <= j < |keywords| ==> !(keywords[j] <= title)
    ensures r.0.None? ==> r.1 == title
    ensures r.0.Some? ==>
              exists i :: 0 <= i < |keywords| && keywords[i] == r.0.value
                          && keywords[i] <= title
                          && (forall j :: 0 <= j < i ==> !(keywords[j] <= title))
                          && r.1 == Trim(title[|keywords[i]|..])
  {
    match FirstPrefix(keywords, title)
    case None => (None, title)
    case Some(i) => (Some(keywords[i]), Trim(title[|keywords[i]|..]))
  }

  /** The search loop of `parse` over the todo keywords, stopping at the
      first entry the title starts with, then the reassignment of the
      title. */
  method ResolveKeyword(keywords: seq<string>, title: string) returns (keyword: Option<string>, newTitle: string)
    ensures (keyword, newTitle) == Fallback(keywords, title)
  {
    keyword := None;
    var i := 0;
    while i < |keywords|
      invariant 0 <= i <= |keywords|
      invariant keyword.None?
      invariant forall j :: 0 <= j < i ==> !(keywords[j] <= title)
    {
      if keywords[i] <= title {
        keyword := Some(keywords[i]);
        break;
      }
      i := i + 1;
    }
    newTitle := title;
    if keyword.Some? {
      assert FirstPrefix(keywords, title) == Some(i);
      newTitle := Trim(title[|keyword.value|..]);
    }
  }

  // -------------------------------------------------------- headlines

  /** The `Headline` that `parse` builds from one match: a leaf with no
      section and a trimmed title, a priority exactly when the KEYWORD
      PRIORITY group matched, and the tags read from the TAGS capture.
      With the group, keyword and title are its keyword and the trimmed
      TITLE; without it, they are the todo fallback on the trimmed TITLE. */
  function HeadlineOf(m: LineMatch, keywords: seq<string>): (h: Headline)
    requires m.tags.Some? ==> IsTagBlock(m.tags.value)
    ensures h.section.None? && h.headlines == []
    ensures h.priority.Some? <==> m.explicit.Some?
    ensures h.priority.Some? ==> h.keyword.Some?
    ensures m.explicit.Some? ==>
              h.keyword == Some(m.explicit.value.keyword) && h.title == Trim(m.title)
    ensures m.explicit.None? ==> (h.keyword, h.title) == Fallback(keywords, Trim(m.title))
    ensures IsTrimmed(h.title)
    ensures forall i :: 0 <= i < |h.tags| ==> IsTag(h.tags[i])
    ensures |h.tags| == 0 <==> m.tags.None?
    ensures m.tags.Some? ==> m.tags.value == ":" + Join(h.tags, ':') + ":"
  {
    var title := Trim(m.title);
    var found := Fallback(keywords, title);
    Headline(
      Level(m.stars),
      match m.explicit
      case Some(g) => Some(g.keyword)
      case None => found.0,
      match m.explicit
      case Some(g) => Some(g.priority)
      case None => None,
      if m.explicit.Some? then title else found.1,
      match m.tags
      case Some(block) => SplitTagBlock(block)
      case None => [],
      None,
      [])
  }

  /** The headline of one line, if the line is one. */
  function LineHeadline(line: string, keywords: seq<string>): Option<Headline> {
    match MatchLine(line)
    case None => None
    case Some(m) => Some(HeadlineOf(m, keywords))
  }

  /** A line has a headline exactly when it starts with stars followed by
      whitespace. */
  lemma LineHeadlineIffStars(line: string, keywords: seq<string>)
    ensures LineHeadline(line, keywords).Some? <==> StartsHeadline(line)
  {
    MatchLineIsTheMatch(line);
  }

  /** The headlines of `lines`, in order: at most one per line. */
  function HeadlinesOf(lines: seq<string>, keywords: seq<string>): (hs: seq<Headline>)
    ensures |hs| <= |lines|
  {
    if |lines| == 0 then []
    else
      HeadlinesOf(lines[..|lines| - 1], keywords)
      + match LineHeadline(lines[|lines| - 1], keywords)
        case None => []
        case Some(h) => [h]
  }

  /** One more line adds its headline, if it has one, at the end. */
  lemma HeadlinesOfPrefix(lines: seq<string>, i: nat, keywords: seq<string>)
    requires i < |lines|
    ensures HeadlinesOf(lines[..i + 1], keywords)
            == HeadlinesOf(lines[..i], keywords)
               + match LineHeadline(lines[i], keywords) case None => [] case Some(h) => [h]
  {
    assert lines[..i + 1][..i] == lines[..i];
  }

  /** What `parse` returns for `text`: the headlines of its lines, at most
      one per line. */
  function ParseHeadlines(text: string, keywords: seq<string>): (hs: seq<Headline>)
    ensures |hs| <= |Split(text, '\n')|
  {
    HeadlinesOf(Split(text, '\n'), keywords)
  }

  /** The body of the loop of `parse` for one line: the captures of the
      match, the trimmed title, the explicit keyword or the todo-keyword
      fallback, and the tags. */
  method LineHeadlineOf(line: string, keywords: seq<string>) returns (h: Option<Headline>)
    ensures h == LineHeadline(line, keywords)
  {
    var found := MatchLine(line);
    if found.None? {
      return None;
    }
    var m := found.value;
    var priority := match m.explicit case Some(g) => Some(g.priority) case None => None;
    var title := Trim(m.title);
    var keyword: Option<string>;
    match m.explicit {
      case None =>
        keyword, title := ResolveKeyword(keywords, title);
      case Some(g) =>
        keyword := Some(g.keyword);
    }
    var tags := match m.tags case Some(block) => SplitTagBlock(block) case None => [];
    h := Some(Headline(Level(m.stars), keyword, priority, title, tags, None, []));
  }

  // ---------------------------------------------------------- parser

  /** The parser: the todo keywords that the fallback recognises. */
  class DocumentParser {
    var todoKeywords: seq<string>

    /** `DocumentParser::new`: no todo keywords. */
    constructor ()
      ensures todoKeywords == []
    {
      todoKeywords := [];
    }

    /** The builder `todo_keywords`: replaces the keyword list and hands the
        same parser back. */
    method TodoKeywords(keywords: seq<string>) returns (parser: DocumentParser)
      modifies this
      ensures parser == this && todoKeywords == keywords
    {
      todoKeywords := keywords;
      parser := this;
    }

    /** `parse`: every headline line of `text`, in order; it never fails. */
    method Parse(text: string) returns (r: Result<Document, ()>)
      ensures r == Ok(Document(None, ParseHeadlines(text, todoKeywords)))
    {
      var keywords := todoKeywords;
      var lines := Split(text, '\n');
      var headlines: seq<Headline> := [];
      var i := 0;
      while i < |lines|
        invariant 0 <= i <= |lines|
        invariant headlines == HeadlinesOf(lines[..i], keywords)
      {
        var h := LineHeadlineOf(lines[i], keywords);
        HeadlinesOfPrefix(lines, i, keywords);
        match h {
          case None =>
          case Some(x) => headlines := headlines + [x];
        }
        i := i + 1;
      }
      assert lines[..|lines|] == lines;
      r := Ok(Document(None, headlines));
    }
  }
}
