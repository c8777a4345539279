# org-rs headline parser, modelled in Dafny

org-rs reads Org-mode documents. Its only logic is `DocumentParser::parse`, which:

- runs one multi-line regex over the text;
- turns each match into a `Headline` with these fields: level, keyword, priority, title, tags, no section and no children;
- wraps the headlines, in document order, in a `Document` that has no first section;
- always returns `Ok`.

A headline without an explicit `KEYWORD [#P]` group may still get a keyword from the parser's todo-keyword list. The first entry that the trimmed title starts with is the keyword, and the title becomes what is left after it, trimmed again.

The project has these modules:

- `Wrappers`: `Option` and `Result`.
- `Org` (`org.dfy`): the data shapes `Document`, `Headline`, `Section` and `GreaterElement`. The `u32` level is a newtype.
- `Strings` (`strings.dfy`):
  - the whitespace class, which is the Unicode White_Space set tested by both `\s` and `char::is_whitespace`;
  - the tag character class;
  - `str::trim`, `str::split` and `join`, with the round trips between split and join.
- `HeadlineGrammar` (`grammar.dfy`): the pattern

      ^(\*+)\s (?:(\S+)\s\[\#(.)\]\s)? (.*?)\s* (:(?:[a-zA-Z0-9_@\#%]+:)+)? $

  on one line. `IsMatchOf` describes the match a backtracking, leftmost-first engine reports:
  - the star run must be followed by whitespace;
  - the optional group is taken whenever it matches;
  - the lazy TITLE is the shortest prefix after which `\s*(TAGS)?$` accepts.

  `MatchLine` computes the captures. `MatchLineIsTheMatch` proves that `MatchLine` agrees with `IsMatchOf`, that the match is unique, and that a line has a match exactly when it starts with stars followed by whitespace.
- `Parser` (`parser.dfy`):
  - the field extraction of `parse`;
  - the todo-keyword fallback, as the specification function `Fallback` and as the search loop `ResolveKeyword` proved against it;
  - the class `DocumentParser`, which has the field `todoKeywords`, the constructor `new`, the builder `todo_keywords`, and `Parse`. `Parse` is the accumulation loop, proved against `ParseHeadlines`.
- `HeadlineFacts` (`facts.dfy`): what `parse` promises about its headlines, proved about the model:
  - the level is the star run;
  - the priority is present exactly when the explicit group matched;
  - the keyword is explicit or comes from the first-entry fallback;
  - the title is trimmed and has no newline;
  - the tags round-trip to the tag block;
  - headlines come in document order, one per headline line;
  - every headline is a leaf with no section.

The regex is stated per physical line. The text is cut at `'\n'` by the same `Split` that the tag split uses. In `(?m)` mode, `^`, `$` and `.` all treat `'\n'` as the line boundary.

## Model

| member | source | states |
|---|---|---|
| Strings.Span | src/lib.rs:94 | the length of the longest prefix in a character class: every character before it is in the class, and the next one is not |
| Strings.IsSpace | src/lib.rs:94-120 | definition, with no contract of its own: the Unicode White_Space set that `\s` (lines 94-97) and `char::is_whitespace` inside `str::trim` (lines 108, 120) both test; `Trim`, `Span` and `BackSpan` state their results in terms of it |
| Strings.IsTagChar | src/lib.rs:98 | definition, with no contract of its own: the class `[a-zA-Z0-9_@#%]` of tag characters; `TagRunTokens`, `SplitTagBlock` and `TagsAreTheTagBlock` state what it admits into tags |
| Strings.BackSpan | src/lib.rs:97 | the length of the longest suffix in a character class: every character of it is in the class, and the one before it is not |
| Strings.SpanIs | src/lib.rs:94 | a run of class characters that is not followed by another one is exactly the span |
| Strings.Trim | src/lib.rs:108 | `str::trim`: the result has no whitespace at either end, and it is an infix of the input with only whitespace before and after it |
| Strings.TrimKeepsOut | src/lib.rs:108 | trimming adds no character: a character missing from the input is missing from the result |
| Strings.TrimOfTrimmed | src/lib.rs:120 | trim is the identity on trimmed text |
| Strings.Split | src/lib.rs:128 | `str::split`: at least one piece, and no piece contains the separator |
| Strings.JoinSplit | src/lib.rs:128 | joining the pieces of a split with the separator gives back the original string |
| Strings.SplitJoin | src/lib.rs:128 | splitting a join of one or more separator-free parts gives back the parts |
| Strings.SplitCons | src/lib.rs:128 | a separator-free piece followed by the separator splits off as the first piece |
| Strings.SplitAround | src/lib.rs:103 | splitting `a + sep + b` gives the pieces of `a` followed by the pieces of `b` |
| Strings.Join | src/lib.rs:128 | definition, with no contract of its own: the parts with one separator between neighbours; `JoinSplit` and `SplitJoin` prove it the inverse of `Split` |
| HeadlineGrammar.TagRunTokens | src/lib.rs:98 | the repetition `(?:[a-zA-Z0-9_@#%]+:)+` accepts exactly the texts that end in a colon and whose colon-separated pieces before it are non-empty words of tag characters |
| HeadlineGrammar.TagRun | src/lib.rs:98 | definition, with no contract of its own: the repetition `(?:[a-zA-Z0-9_@#%]+:)+` read one character at a time; `TagRunTokens` characterises the texts it accepts |
| HeadlineGrammar.IsTagBlock | src/lib.rs:98 | definition, with no contract of its own: the TAGS group, a colon followed by a tag run; `SplitTagBlock` and `TagBlockRoundTrip` prove it is exactly the tags joined by colons inside outer colons |
| HeadlineGrammar.TokensOkEmptyFirst | src/lib.rs:98 | a leading colon is accepted only when it closes a token that has already begun |
| HeadlineGrammar.TokensOkCharFirst | src/lib.rs:98 | a leading tag character begins or continues the first token |
| HeadlineGrammar.TagsColonFree | src/lib.rs:98 | tags contain no colon |
| HeadlineGrammar.SplitTagBlock | src/lib.rs:126-129 | the tags split out of a matched block: there is at least one, each is a non-empty word of tag characters, and `":" + join(tags, ":") + ":"` is the block |
| HeadlineGrammar.TagBlockRoundTrip | src/lib.rs:98 | every non-empty list of tags, written as a block, matches TAGS and reads back as the same list |
| HeadlineGrammar.TailOkIff | src/lib.rs:97-99 | `\s*(TAGS)?$` accepts a text exactly when the tag block or the end of the line follows the whole leading whitespace run |
| HeadlineGrammar.TailMatches | src/lib.rs:97-99 | definition, with no contract of its own: `\s*(TAGS)?$` as the regex reads it, some whitespace then the end of the line or a tag block reaching it; `TailOkIff` proves the computable `TailOk` equal to it |
| HeadlineGrammar.TailCaptures | src/lib.rs:97-99 | definition, with no contract of its own: what the optional TAGS group captures after `\s*` on the text after TITLE, none when that text is all whitespace, otherwise a tag block ending it after whitespace; `TailCapturesUnique` proves the capture is fixed by the text |
| HeadlineGrammar.IsTitleSplit | src/lib.rs:97-99 | definition, with no contract of its own: the captures of `(.*?)\s*(TAGS)?$`, a TITLE prefix with an accepted tail and no shorter accepted prefix; `SplitTitleSound`, `SplitTitleComplete` and `TitleSplitUnique` prove `SplitTitle` is its one solution |
| HeadlineGrammar.LazyEnd | src/lib.rs:97 | the lazy `(.*?)`: the first end position after which the rest accepts, with no earlier position accepting |
| HeadlineGrammar.ExplicitKeywordIsRun | src/lib.rs:95 | any match of the KEYWORD group spans the whole non-space run at its column |
| HeadlineGrammar.ExplicitAt | src/lib.rs:95-96 | definition, with no contract of its own: the group `(\S+)\s\[\#(.)\]\s` matches at a column with the given captures; `ExplicitKeywordIsRun` and `MatchExplicit` prove there is at most one such match and compute it |
| HeadlineGrammar.MatchExplicit | src/lib.rs:95-96 | the computed KEYWORD PRIORITY captures are a match of the group, and they are the only match there is |
| HeadlineGrammar.SplitTitle | src/lib.rs:97-98 | any TAGS capture it returns is a tag block |
| HeadlineGrammar.SplitTitleSound | src/lib.rs:97-99 | the computed TITLE and TAGS are a match of `(.*?)\s*(TAGS)?$` with the shortest TITLE |
| HeadlineGrammar.SplitTitleComplete | src/lib.rs:97-99 | every such match is the computed one |
| HeadlineGrammar.TitleWithoutColon | src/lib.rs:97-99 | on text without a colon there is no TAGS capture, and TITLE is the text minus its trailing whitespace |
| HeadlineGrammar.TailCapturesUnique | src/lib.rs:97-99 | the text after TITLE fixes the TAGS capture: none when it is all whitespace, otherwise everything after the whitespace run |
| HeadlineGrammar.StarsAreSpan | src/lib.rs:94 | stars followed by whitespace are the maximal run of `*` |
| HeadlineGrammar.ExplicitComputed | src/lib.rs:95-96 | `MatchExplicit` gives the capture of the optional group: its match, or none when the group cannot match |
| HeadlineGrammar.ExplicitUnique | src/lib.rs:95-96 | the optional group has at most one capture at a column |
| HeadlineGrammar.TitleSplitUnique | src/lib.rs:97-99 | TITLE and TAGS have at most one capture on a text |
| HeadlineGrammar.AssembleMatch | src/lib.rs:93-99 | stars followed by whitespace, the group's capture, and a lazy TITLE/TAGS split of the rest together form a match of the pattern |
| HeadlineGrammar.MatchUnique | src/lib.rs:93-99 | the pattern has at most one match on a line |
| HeadlineGrammar.TitleFromLine | src/lib.rs:97 | TITLE is a piece of the line, so a character absent from the line is absent from it |
| HeadlineGrammar.TagsEndLine | src/lib.rs:98-99 | a TAGS capture ends the line |
| HeadlineGrammar.OnlyMatch | src/lib.rs:93-99 | every match of the line is the given one |
| HeadlineGrammar.NoMatch | src/lib.rs:94 | a line that does not start with stars followed by whitespace has no match |
| HeadlineGrammar.NotHeadline | src/lib.rs:94 | an empty star run, a line that is all stars, or a star run not followed by whitespace means no match |
| HeadlineGrammar.HeadlineCase | src/lib.rs:93-99 | on a line starting with stars and whitespace, the computed captures are a match and the only one |
| HeadlineGrammar.MatchLine | src/lib.rs:98 | the TAGS capture it reports is always a tag block |
| HeadlineGrammar.IsMatchOf | src/lib.rs:93-99 | reference definition, with no contract of its own, of the match a leftmost-first engine reports: maximal stars followed by whitespace, the optional group whenever it matches, the shortest TITLE; `MatchLineIsTheMatch`, `MatchUnique` and `HeadlineCase` state its properties |
| HeadlineGrammar.StartsHeadline | src/lib.rs:94 | definition, with no contract of its own: `^(\*+)\s`, a line that starts with a run of `*` followed by whitespace; `MatchLineIsTheMatch`, `NoMatch` and `LineHeadlineIffStars` prove that exactly these lines match |
| HeadlineGrammar.MatchLineIsTheMatch | src/lib.rs:93-103 | `MatchLine` reports the regex's match whenever the line has one, and that match is unique; it reports none exactly when the line does not start with stars followed by whitespace |
| Parser.Level | src/lib.rs:131 | `stars.len() as u32`: the star count when it is below 2^32, and always congruent to it modulo 2^32 |
| Parser.FirstPrefix | src/lib.rs:113-118 | the index of the first keyword the title starts with; none is found exactly when no keyword is a prefix |
| Parser.Fallback | src/lib.rs:110-123 | no keyword is found exactly when no entry is a prefix of the title, and then the title is unchanged. Otherwise the keyword is an entry that is a prefix, with no earlier entry a prefix, and the new title is the rest after it, trimmed |
| Parser.ResolveKeyword | src/lib.rs:112-122 | the search loop with `break`, then the reassignment of the title, compute exactly `Fallback` |
| Parser.HeadlineOf | src/lib.rs:104-138 | the headline built from one match is a leaf with no section and a trimmed title; it has a priority exactly when the KEYWORD PRIORITY group matched. With the group, the keyword is the group's token and the title is the TITLE capture trimmed, whatever the todo list holds; without it, keyword and title are the todo fallback applied to the trimmed TITLE. Every tag is a non-empty word of tag characters, there are tags exactly when TAGS matched, and the TAGS capture is the tags joined by colons inside outer colons |
| Parser.LineHeadline | src/lib.rs:103-138 | definition, with no contract of its own: the headline of a line's match, if any. `LineHeadlineIffStars` says when there is one; `LevelIsStarRun`, `PriorityIffExplicitGroup`, `ExplicitTitleIsCapture`, `FallbackWithoutCookie` and `TagsAreTheTagBlock` fix its level, priority, keyword, title and tags |
| Parser.LineHeadlineIffStars | src/lib.rs:94-103 | a line yields a headline exactly when it starts with a run of `*` followed by whitespace |
| Parser.HeadlinesOf | src/lib.rs:102-139 | the headlines of a run of lines, in order, at most one per line; `HeadlinesOfAppend`, `HeadlinesComeFromLines` and `LinesGiveHeadlines` state order and coverage |
| Parser.ParseHeadlines | src/lib.rs:102-139 | what `parse` collects from a text: at most one headline per line of the text; `ParsedHeadlinesAreWellFormed` and `ParseAcrossNewline` state their shape and order |
| Parser.HeadlinesOfPrefix | src/lib.rs:103-139 | one more line appends its headline, if it has one, after the headlines of the earlier lines |
| Parser.LineHeadlineOf | src/lib.rs:104-138 | the loop body of `parse` on one line builds exactly the headline of that line |
| Parser.DocumentParser.constructor | src/lib.rs:80-84 | a new parser has no todo keywords |
| Parser.DocumentParser.TodoKeywords | src/lib.rs:86-89 | the builder replaces the keyword list and returns the same parser |
| Parser.DocumentParser.Parse | src/lib.rs:91-148 | `parse` returns `Ok` with no first section and the headlines of the text's lines, in line order |
| HeadlineFacts.LevelIsStarRun | src/lib.rs:94-131 | a headline's line starts with its star run. The run is followed by whitespace, and the level is its length modulo 2^32, so it is exactly the length on any line shorter than 2^32 |
| HeadlineFacts.PriorityIffExplicitGroup | src/lib.rs:95-106 | a priority is present only when the KEYWORD PRIORITY group matched after the stars. Then a keyword is present too, and the keyword and the priority are the group's captures. With no priority the group cannot match |
| HeadlineFacts.ExplicitKeywordIgnoresList | src/lib.rs:110-124 | when the explicit group matched, the headline is the same whatever the todo list is |
| HeadlineFacts.ExplicitTitleIsCapture | src/lib.rs:107-124 | with a priority cookie, the title is the TITLE capture trimmed and never reassigned, and the keyword is the token before the cookie |
| HeadlineFacts.FallbackWithoutCookie | src/lib.rs:107-123 | without the group, keyword and title are the fallback applied to the trimmed TITLE, and a keyword found this way is a list entry |
| HeadlineFacts.TitleTrimmedAndFromLine | src/lib.rs:107-121 | the title has no surrounding whitespace and no character its line lacks |
| HeadlineFacts.TagsAreTheTagBlock | src/lib.rs:126-129 | every tag is a non-empty word of tag characters; there are tags exactly when TAGS matched, and then the block is the tags joined by colons inside outer colons |
| HeadlineFacts.TagBlockAtLineEnd | src/lib.rs:98-99 | the TAGS capture is the end of the line |
| HeadlineFacts.HeadlinesOfAppend | src/lib.rs:103-138 | the headlines of two consecutive runs of lines are the headlines of the first followed by those of the second |
| HeadlineFacts.HeadlinesComeFromLines | src/lib.rs:103-138 | every headline is the headline of one of the lines |
| HeadlineFacts.LinesGiveHeadlines | src/lib.rs:103-138 | every headline line has its headline among the results |
| HeadlineFacts.LinesNoLongerThanText | src/lib.rs:103 | no line is longer than the text |
| HeadlineFacts.ParsedHeadlinesAreWellFormed | src/lib.rs:107-138 | every headline has no section and no children, a trimmed one-line title and valid tags; on a text shorter than 2^32 its level is at least 1 |
| HeadlineFacts.ParseAcrossNewline | src/lib.rs:103-138 | two texts joined by a newline parse to the headlines of the first followed by those of the second |
| HeadlineFacts.LinesRebuildText | src/lib.rs:103 | the lines `parse` reads, joined by newlines, are the text |
| HeadlineFacts.FallbackEmptyList | src/lib.rs:80-122 | with the default empty list, the fallback finds no keyword and leaves the title alone |
| HeadlineFacts.FallbackFirstEntryWins | src/lib.rs:113-116 | the earliest matching entry wins over a later, longer one: `TO` before `TODO` makes `TODO Buy milk` into keyword `TO` and title `DO Buy milk` |
| HeadlineFacts.FallbackNoWordBoundary | src/lib.rs:114-120 | no word boundary is needed after an entry: `DONE` turns `DONEX` into keyword `DONE` and title `X` |
| HeadlineFacts.DoneFallback | src/lib.rs:113-122 | the second entry is taken when only it is a prefix, and the title can become empty |

## Left out

- The `regex` crate is not modelled as an engine. Its semantics for this one pattern are stated directly by `IsMatchOf`: leftmost-first, greedy `+`, `?` and `*`, and lazy `*?`.
- Matches across lines are left out. The model matches each physical line on its own. In `(?m)` mode every `\s` and `\s*` of the pattern can also consume a `'\n'`, and the engine then reports matches the model does not:
  - a line of only stars followed by a newline is a headline of the program: the `\s` after the stars takes the newline. If the next line is empty the headline has an empty title, as for the first line `*` of the text at src/lib.rs:164. Otherwise the next line becomes its title, and that line's own headline is lost. The model gives no headline for such a line;
  - the two `\s` of the KEYWORD PRIORITY group can take a newline too. A line ending in `TODO [#A]` followed by `** Next` makes `** Next` the title of that headline, so the program loses the `** Next` headline, which the model keeps;
  - the `\s*` before TAGS can run on into the following lines and pick up a tag block that stands alone on a later line.
- The exact split is left out. Headlines come from a `captures_iter` over the whole text, and the model reads the text as the lines that `Split` at `'\n'` produces.
- Section parsing and the hierarchical arrangement of headlines are not modelled. Both exist only as `@Todo` comments in the code (src/lib.rs:141-142). Every headline has `section: None` and no children, and the document has no first section, as in the code.
- The `Element` enum is not modelled. It is unused (src/lib.rs:67-73). `GreaterElement` is kept only as the content type of `Section`.
- The test module (src/lib.rs:151-186) only prints and ends in a failing assertion, so it states nothing to model.
- The model follows the code where the doc comments of src/lib.rs promise more:
  - the doc comment says KEYWORD has to belong to the todo list (src/lib.rs:24-25), but the code keeps any explicit token that comes with a priority cookie (src/lib.rs:124), so the model does too;
  - the doc comment says a headline contains the deeper headlines (src/lib.rs:10-11), but every headline is pushed with no children and the nesting is only a `@Todo` (src/lib.rs:137, 141), so the model's headlines stay flat.
- The fallback checks nothing after a todo keyword: `title.starts_with(keyword)` (src/lib.rs:114) is a plain prefix test, so `DONEX` gives the keyword `DONE` and the title `X`. The model keeps this plain prefix test.
- Byte offsets are not modelled. The code slices its strings by byte offsets, such as `title[kwd.len()..]` and `x[1..x.len()-1]`, and the model slices by characters. The two agree because each cut falls right after a prefix the string starts with, or inside the ASCII colons of a tag block.
- HeadlineFacts.ParsedHeadlinesAreWellFormed: promises `level >= 1` only for texts shorter than 2^32 characters. `stars.len() as u32` wraps, so a run of 2^32 stars gives level 0, and the model keeps that truncation.
