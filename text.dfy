/** The Python string operations the core relies on: strip, lower,
    split on one separator, startswith and substring membership. Strings
    are sequences of Unicode scalar values. Whitespace is Python's full
    str.isspace set; lower-casing maps the ASCII capitals only. */
module Text {

  /** Python's str.isspace: \t, \n, \v, \f, \r, the separators \x1c-\x1f,
      space, U+0085, the no-break space U+00A0, U+1680, the spaces
      U+2000-U+200A, the line and paragraph separators U+2028 and U+2029,
      U+202F, U+205F and the ideographic space U+3000. */
  predicate IsSpace(c: char) {
    c in Whitespace
  }

  const Whitespace: set<char> := {
    '\U{0009}', '\U{000A}', '\U{000B}', '\U{000C}', '\U{000D}',
    '\U{001C}', '\U{001D}', '\U{001E}', '\U{001F}', ' ', '\U{0085}', '\U{00A0}', '\U{1680}',
    '\U{2000}', '\U{2001}', '\U{2002}', '\U{2003}', '\U{2004}', '\U{2005}', '\U{2006}',
    '\U{2007}', '\U{2008}', '\U{2009}', '\U{200A}',
    '\U{2028}', '\U{2029}', '\U{202F}', '\U{205F}', '\U{3000}'}

  predicate AllSpace(s: string) {
    forall k :: 0 <= k < |s| ==> IsSpace(s[k])
  }

  /** str.lstrip(): drops the leading whitespace, one character at a time. */
  function TrimStart(s: string): (r: string)
    ensures |r| <= |s| && r == s[|s| - |r|..]
    ensures r != [] ==> !IsSpace(r[0])
    ensures forall k :: 0 <= k < |s| - |r| ==> IsSpace(s[k])
    decreases |s|
  {
    if s != [] && IsSpace(s[0]) then
      var r := TrimStart(s[1..]);
      forall k | 1 <= k < |s| - |r| ensures IsSpace(s[k]) {
        assert s[k] == s[1..][k - 1];
      }
      r
    else s
  }

  /** str.rstrip(): drops the trailing whitespace, one character at a time. */
  function TrimEnd(s: string): (r: string)
    ensures |r| <= |s| && r == s[..|r|]
    ensures r != [] ==> !IsSpace(r[|r| - 1])
    ensures forall k :: |r| <= k < |s| ==> IsSpace(s[k])
    decreases |s|
  {
    if s != [] && IsSpace(s[|s| - 1]) then
      var init := s[..|s| - 1];
      var r := TrimEnd(init);
      forall k | |r| <= k < |s| - 1 ensures IsSpace(s[k]) {
        assert s[k] == init[k];
      }
      r
    else s
  }

  /** Python's str.strip(): whitespace dropped from both ends until a
      non-space character, or nothing, is left; empty exactly for text that
      is all whitespace. */
  function Strip(s: string): (r: string)
    ensures |r| <= |s|
    ensures r == [] <==> AllSpace(s)
    ensures r != [] ==> !IsSpace(r[0]) && !IsSpace(r[|r| - 1])
    decreases |s|
  {
    if s == [] then []
    else if IsSpace(s[0]) then
      var r := Strip(s[1..]);
      assert AllSpace(s) <==> AllSpace(s[1..]) by {
        assert forall k :: 1 <= k < |s| ==> s[k] == s[1..][k - 1];
      }
      r
    else if IsSpace(s[|s| - 1]) then
      var r := Strip(s[..|s| - 1]);
      assert s[..|s| - 1][0] == s[0];
      r
    else s
  }

  /** Stripping is lstrip followed by rstrip: the slice of s between a run
      of leading and a run of trailing whitespace. */
  lemma {:induction false} StripAt(s: string)
    ensures Strip(s) == TrimEnd(TrimStart(s))
    decreases |s|
  {
    if s != [] {
      if IsSpace(s[0]) {
        StripAt(s[1..]);
      } else if IsSpace(s[|s| - 1]) {
        var init := s[..|s| - 1];
        StripAt(init);
        assert init[0] == s[0];
      }
    }
  }

  /** Stripping twice is stripping once. */
  lemma StripIdempotent(s: string)
    ensures Strip(Strip(s)) == Strip(s)
  {
  }

  function LowerChar(c: char): (d: char)
    ensures 'A' <= c <= 'Z' ==> d as int == c as int + 32
    ensures !('A' <= c <= 'Z') ==> d == c
  {
    if 'A' <= c <= 'Z' then (c as int + 32) as char else c
  }

  /** Python's str.lower() restricted to the ASCII capitals; other
      characters are kept as they are. */
  function Lower(s: string): (r: string)
    ensures |r| == |s|
    ensures forall k :: 0 <= k < |s| ==> r[k] == LowerChar(s[k])
  {
    seq(|s|, k requires 0 <= k < |s| => LowerChar(s[k]))
  }

  /** Lower-casing keeps whitespace where it was and adds none. */
  lemma LowerKeepsSpace(c: char)
    ensures IsSpace(LowerChar(c)) <==> IsSpace(c)
  {
  }

  /** Lower-casing and stripping commute, so ".lower().strip()" and
      ".strip().lower()" agree. */
  lemma {:induction false} StripLowerCommute(s: string)
    ensures Strip(Lower(s)) == Lower(Strip(s))
    decreases |s|
  {
    if s != [] {
      LowerKeepsSpace(s[0]);
      LowerKeepsSpace(s[|s| - 1]);
      if IsSpace(s[0]) {
        LowerTail(s);
        StripLowerCommute(s[1..]);
      } else if IsSpace(s[|s| - 1]) {
        LowerInit(s);
        StripLowerCommute(s[..|s| - 1]);
      }
    }
  }

  lemma LowerTail(s: string)
    requires s != []
    ensures Lower(s)[1..] == Lower(s[1..])
  {
  }

  lemma LowerInit(s: string)
    requires s != []
    ensures Lower(s)[..|s| - 1] == Lower(s[..|s| - 1])
  {
  }

  predicate StartsWith(s: string, prefix: string) {
    |prefix| <= |s| && s[..|prefix|] == prefix
  }

  /** Python's "sub in s" on strings. */
  predicate Contains(s: string, sub: string)
    decreases |s|
  {
    StartsWith(s, sub) || (s != [] && Contains(s[1..], sub))
  }

  /** Position of the first occurrence of c in s. */
  function IndexOf(s: string, c: char): (i: nat)
    requires c in s
    ensures i < |s| && s[i] == c
    ensures c !in s[..i]
  {
    if s[0] == c then 0
    else
      var i := 1 + IndexOf(s[1..], c);
      assert s[1..][..i - 1] == s[1..i];
      i
  }

  lemma {:induction false} IndexOfIs(s: string, c: char, j: nat)
    requires j < |s| && s[j] == c && c !in s[..j]
    ensures IndexOf(s, c) == j
  {
    if j > 0 {
      assert s[..j][0] == s[0];
      assert s[1..][..j - 1] == s[1..j];
      IndexOfIs(s[1..], c, j - 1);
    }
  }

  /** Python's s.split(sep) for a one-character separator: the pieces
      between separators, always at least one. */
  function Split(s: string, sep: char): (parts: seq<string>)
    ensures |parts| >= 1
    ensures forall k :: 0 <= k < |parts| ==> sep !in parts[k]
    decreases |s|
  {
    if sep !in s then [s]
    else
      var i := IndexOf(s, sep);
      [s[..i]] + Split(s[i + 1..], sep)
  }

  /** Python's sep.join(parts). */
  function Join(parts: seq<string>, sep: char): string {
    if parts == [] then []
    else if |parts| == 1 then parts[0]
    else parts[0] + [sep] + Join(parts[1..], sep)
  }

  /** Joining the pieces of a split gives back the string. */
  lemma {:induction false} JoinSplit(s: string, sep: char)
    ensures Join(Split(s, sep), sep) == s
    decreases |s|
  {
    if sep in s {
      var i := IndexOf(s, sep);
      JoinSplit(s[i + 1..], sep);
      JoinCons(s[..i], Split(s[i + 1..], sep), sep);
      assert s == s[..i] + [sep] + s[i + 1..];
    }
  }

  /** Joining a first piece in front of at least one more. */
  lemma JoinCons(p: string, rest: seq<string>, sep: char)
    requires rest != []
    ensures Join([p] + rest, sep) == p + [sep] + Join(rest, sep)
  {
    assert ([p] + rest)[1..] == rest;
  }

  /** Splitting at the first separator. */
  lemma SplitAt(s: string, sep: char, i: nat)
    requires i < |s| && s[i] == sep && sep !in s[..i]
    ensures Split(s, sep) == [s[..i]] + Split(s[i + 1..], sep)
  {
    IndexOfIs(s, sep, i);
  }

  /** Splitting a join of separator-free pieces gives back the pieces. */
  lemma {:induction false} SplitJoin(parts: seq<string>, sep: char)
    requires |parts| >= 1
    requires forall k :: 0 <= k < |parts| ==> sep !in parts[k]
    ensures Split(Join(parts, sep), sep) == parts
  {
    if |parts| > 1 {
      SplitJoinStep(parts[0], Join(parts[1..], sep), sep);
      SplitJoin(parts[1..], sep);
    }
  }

  /** The first separator of p + [sep] + t is the one after p. */
  lemma SplitJoinStep(p: string, t: string, sep: char)
    requires sep !in p
    ensures Split(p + [sep] + t, sep) == [p] + Split(t, sep)
  {
    var s := p + [sep] + t;
    assert s[..|p|] == p && s[|p| + 1..] == t;
    SplitAt(s, sep, |p|);
  }

  /** Python's s.replace(pat, ""): every occurrence, scanning left to right
      without overlap, removed. */
  function RemoveAll(s: string, pat: string): (r: string)
    requires |pat| > 0
    ensures |r| <= |s|
    decreases |s|
  {
    if |s| < |pat| then s
    else if StartsWith(s, pat) then RemoveAll(s[|pat|..], pat)
    else [s[0]] + RemoveAll(s[1..], pat)
  }

  /** A string with no occurrence of the pattern is left alone. */
  lemma {:induction false} RemoveAllNoMatch(s: string, pat: string)
    requires |pat| > 0 && !Contains(s, pat)
    ensures RemoveAll(s, pat) == s
    decreases |s|
  {
    if |s| >= |pat| {
      RemoveAllNoMatch(s[1..], pat);
      assert s == [s[0]] + s[1..];
    }
  }

  /** No occurrence of pat starts inside x, within x + y. */
  predicate NoMatchStarts(x: string, y: string, pat: string)
    decreases |x|
  {
    x == [] || (!StartsWith(x + y, pat) && NoMatchStarts(x[1..], y, pat))
  }

  /** Text in which no occurrence starts passes through unchanged, and the
      removal carries on in what follows. */
  lemma {:induction false} RemoveAllAppend(x: string, y: string, pat: string)
    requires |pat| > 0 && NoMatchStarts(x, y, pat)
    ensures RemoveAll(x + y, pat) == x + RemoveAll(y, pat)
    decreases |x|
  {
    if x == [] {
      assert x + y == y;
    } else if |x + y| < |pat| {
      assert RemoveAll(y, pat) == y;
    } else {
      RemoveAllAppend(x[1..], y, pat);
      RemoveAllKeepsFirst(x[0], x[1..] + y, pat);
      assert [x[0]] + (x[1..] + y) == x + y;
      assert [x[0]] + x[1..] == x;
    }
  }

  /** A first character where no occurrence starts is kept. */
  lemma RemoveAllKeepsFirst(c: char, rest: string, pat: string)
    requires |pat| > 0 && |pat| <= 1 + |rest| && !StartsWith([c] + rest, pat)
    ensures RemoveAll([c] + rest, pat) == [c] + RemoveAll(rest, pat)
  {
    assert ([c] + rest)[1..] == rest;
  }

  /** Where the pattern's first character does not occur in x, no
      occurrence starts inside x. */
  lemma {:induction false} NoMatchWithoutFirstChar(x: string, y: string, pat: string)
    requires |pat| > 0 && pat[0] !in x
    ensures NoMatchStarts(x, y, pat)
    decreases |x|
  {
    if x != [] {
      assert (x + y)[0] == x[0];
      assert x[0] in x;
      assert pat[0] !in x[1..] by {
        assert forall c :: c in x[1..] ==> c in x;
      }
      NoMatchWithoutFirstChar(x[1..], y, pat);
    }
  }

  /** A line that a line reader keeps: non-blank once stripped and, when
      comments are skipped, not starting with '#'. */
  predicate KeepLine(line: string, skipComments: bool) {
    Strip(line) != [] && !(skipComments && StartsWith(Strip(line), "#"))
  }

  /** The stripped lines worth keeping, in file order. */
  function KeptLines(lines: seq<string>, skipComments: bool): (r: seq<string>)
    ensures |r| <= |lines|
    ensures forall k :: 0 <= k < |r| ==> r[k] != [] && Strip(r[k]) == r[k]
    ensures skipComments ==> forall k :: 0 <= k < |r| ==> !StartsWith(r[k], "#")
  {
    if lines == [] then []
    else
      var last := lines[|lines| - 1];
      StripIdempotent(last);
      KeptLines(lines[..|lines| - 1], skipComments) + (if KeepLine(last, skipComments) then [Strip(last)] else [])
  }

  /** Lines already stripped, non-blank (and not comments, when those are
      skipped) are all kept as they are. */
  lemma {:induction false} KeptLinesOfCleanLines(lines: seq<string>, skipComments: bool)
    requires forall k :: 0 <= k < |lines| ==> Strip(lines[k]) == lines[k] && KeepLine(lines[k], skipComments)
    ensures KeptLines(lines, skipComments) == lines
  {
    if lines != [] {
      KeptLinesOfCleanLines(lines[..|lines| - 1], skipComments);
      assert lines[..|lines| - 1] + [lines[|lines| - 1]] == lines;
    }
  }

  /** Writing sentences one per line and reading the file back gives the
      sentences, when each is stripped, non-blank, free of newlines (and
      not a comment, when those are skipped). */
  lemma OneSentencePerLineRoundTrip(sentences: seq<string>, skipComments: bool)
    requires forall k :: 0 <= k < |sentences| ==>
      '\n' !in sentences[k] && Strip(sentences[k]) == sentences[k] && KeepLine(sentences[k], skipComments)
    ensures KeptLines(Split(Join(sentences, '\n'), '\n'), skipComments) == sentences
  {
    if sentences == [] {
      assert Split([], '\n') == [[]];
      assert KeptLines([[]], skipComments) == KeptLines([], skipComments);
    } else {
      SplitJoin(sentences, '\n');
      KeptLinesOfCleanLines(sentences, skipComments);
    }
  }
}
