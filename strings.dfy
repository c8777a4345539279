/** The character classes and string operations the headline parser relies on:
    the regex classes `\s`, `\S` and `[a-zA-Z0-9_@#%]`, `str::trim`,
    `str::starts_with` (Dafny's prefix test `p <= s`) and `str::split`. */
module Strings {

  /** The Unicode White_Space property. The regex class `\s` (Unicode mode,
      the default of the `regex` crate) and `char::is_whitespace` (which
      `str::trim` uses) both test exactly this set. */
  predicate IsSpace(c: char) {
    ('\t' <= c <= '\r') || c == ' ' || c == '\U{85}' || c == '\U{A0}'
    || c == '\U{1680}' || ('\U{2000}' <= c <= '\U{200A}')
    || c == '\U{2028}' || c == '\U{2029}' || c == '\U{202F}'
    || c == '\U{205F}' || c == '\U{3000}'
  }

  /** The character classes the pattern repeats: `\s`, `\S` and `\*`. */
  datatype CharClass = Space | NonSpace | Star

  predicate InClass(c: char, cls: CharClass) {
    match cls
    case Space => IsSpace(c)
    case NonSpace => !IsSpace(c)
    case Star => c == '*'
  }

  /** The regex class `[a-zA-Z0-9_@#%]` of tag characters. */
  predicate IsTagChar(c: char) {
    ('a' <= c <= 'z') || ('A' <= c <= 'Z') || ('0' <= c <= '9')
    || c == '_' || c == '@' || c == '#' || c == '%'
  }

  ghost predicate AllSpace(s: string) {
    forall i :: 0 <= i < |s| ==> IsSpace(s[i])
  }

  /** Length of the longest prefix of `s` whose characters are all in `cls`. */
  function Span(s: string, cls: CharClass): (k: nat)
    ensures k <= |s|
    ensures forall i :: 0 <= i < k ==> InClass(s[i], cls)
    ensures k < |s| ==> !InClass(s[k], cls)
  {
    if |s| == 0 || !InClass(s[0], cls) then 0 else 1 + Span(s[1..], cls)
  }

  /** Length of the longest suffix of `s` whose characters are all in `cls`. */
  function BackSpan(s: string, cls: CharClass): (k: nat)
    ensures k <= |s|
    ensures forall i :: |s| - k <= i < |s| ==> InClass(s[i], cls)
    ensures k < |s| ==> !InClass(s[|s| - 1 - k], cls)
  {
    if |s| == 0 || !InClass(s[|s| - 1], cls) then 0 else 1 + BackSpan(s[..|s| - 1], cls)
  }

  /** A run of `n` characters of `cls` not followed by another one is the span. */
  lemma SpanIs(s: string, cls: CharClass, n: nat)
    requires n <= |s|
    requires forall i :: 0 <= i < n ==> InClass(s[i], cls)
    requires n < |s| ==> !InClass(s[n], cls)
    ensures Span(s, cls) == n
  {
  }

  predicate IsTrimmed(s: string) {
    |s| == 0 || (!IsSpace(s[0]) && !IsSpace(s[|s| - 1]))
  }

  /** `str::trim`: `s` without its leading and trailing whitespace. The
      result is the unique trimmed infix of `s` with only whitespace
      around it. */
  function Trim(s: string): (r: string)
    ensures IsTrimmed(r)
    ensures exists a :: 0 <= a <= |s| - |r| && s[a..a + |r|] == r
                        && AllSpace(s[..a]) && AllSpace(s[a + |r|..])
  {
    var a := Span(s, Space);
    if a == |s| then
      assert AllSpace(s[..a]) && s[a..a] == "";
      ""
    else
      var z := |s| - BackSpan(s, Space);
      assert a < z by {
        assert !IsSpace(s[a]);
      }
      assert AllSpace(s[..a]) && AllSpace(s[z..]);
      s[a..z]
  }

  /** Removing surrounding whitespace drops characters only: a character
      that does not occur in `s` does not occur in `Trim(s)`. */
  lemma TrimKeepsOut(s: string, c: char)
    requires c !in s
    ensures c !in Trim(s)
  {
  }

  /** Trimming text that is already trimmed changes nothing. */
  lemma TrimOfTrimmed(s: string)
    requires IsTrimmed(s)
    ensures Trim(s) == s
  {
    if |s| > 0 {
      assert Span(s, Space) == 0;
      assert BackSpan(s, Space) == 0;
    }
  }

  /** `Join(parts, sep)` is `parts.join(sep)`: the parts with one `sep`
      between neighbours. */
  function Join(parts: seq<string>, sep: char): string {
    if |parts| == 0 then ""
    else if |parts| == 1 then parts[0]
    else parts[0] + [sep] + Join(parts[1..], sep)
  }

  /** `s.split(sep)`: the maximal `sep`-free pieces of `s` from left to
      right; there is always at least one (the empty string gives `[""]`). */
  function Split(s: string, sep: char): (parts: seq<string>)
    ensures |parts| >= 1
    ensures forall i :: 0 <= i < |parts| ==> sep !in parts[i]
  {
    if |s| == 0 then [""]
    else
      var rest := Split(s[1..], sep);
      if s[0] == sep then [""] + rest
      else [[s[0]] + rest[0]] + rest[1..]
  }

  /** Joining the pieces back with the separator gives the original string. */
  lemma {:induction false} JoinSplit(s: string, sep: char)
    ensures Join(Split(s, sep), sep) == s
  {
    if |s| > 0 {
      var rest := Split(s[1..], sep);
      JoinSplit(s[1..], sep);
      if s[0] == sep {
        assert Split(s, sep) == [""] + rest;
        assert ([""] + rest)[1..] == rest;
      } else {
        var parts := Split(s, sep);
        assert parts == [[s[0]] + rest[0]] + rest[1..];
        if |rest| > 1 {
          assert parts[1..] == rest[1..];
          assert Join(rest, sep) == rest[0] + [sep] + Join(rest[1..], sep);
        }
        assert s == [s[0]] + s[1..];
      }
    }
  }

  /** Splitting at a separator splits the text on either side of it. */
  lemma {:induction false} SplitAround(a: string, b: string, sep: char)
    ensures Split(a + [sep] + b, sep) == Split(a, sep) + Split(b, sep)
  {
    var s := a + [sep] + b;
    if |a| == 0 {
      assert s == [sep] + b;
      assert s[1..] == b;
    } else {
      var t := a[1..] + [sep] + b;
      assert s[0] == a[0] && s[1..] == t;
      SplitAround(a[1..], b, sep);
      var left := Split(a[1..], sep);
      var right := Split(b, sep);
      if a[0] != sep {
        assert Split(s, sep) == [[a[0]] + (left + right)[0]] + (left + right)[1..];
        assert (left + right)[0] == left[0];
        assert (left + right)[1..] == left[1..] + right;
      }
    }
  }

  /** Splitting a `sep`-free string followed by `sep` and more text. */
  lemma {:induction false} SplitCons(p: string, rest: string, sep: char)
    requires sep !in p
    ensures Split(p + [sep] + rest, sep) == [p] + Split(rest, sep)
    ensures Split(p, sep) == [p]
  {
    if |p| == 0 {
      assert p + [sep] + rest == [sep] + rest;
      assert ([sep] + rest)[1..] == rest;
    } else {
      SplitCons(p[1..], rest, sep);
      assert (p + [sep] + rest)[1..] == p[1..] + [sep] + rest;
      assert [p[0]] + p[1..] == p;
    }
  }

  /** Splitting inverts joining when no part contains the separator. */
  lemma {:induction false} SplitJoin(parts: seq<string>, sep: char)
    requires |parts| >= 1
    requires forall i :: 0 <= i < |parts| ==> sep !in parts[i]
    ensures Split(Join(parts, sep), sep) == parts
  {
    if |parts| == 1 {
      SplitCons(parts[0], "", sep);
    } else {
      SplitJoin(parts[1..], sep);
      SplitCons(parts[0], Join(parts[1..], sep), sep);
      assert [parts[0]] + parts[1..] == parts;
    }
  }
}
