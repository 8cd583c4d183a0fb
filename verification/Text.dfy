/** The string operations of Python that the style checker uses, and lines of text. */
module Text {

  // ----- stripping

  /** The characters that a strip removes: white space, or the signs around a comment. */
  datatype CharClass = Space | Comment

  predicate In(cls: CharClass, c: char) {
    match cls
    case Space => IsSpace(c)
    case Comment => c == '*' || c == '#' || c == '/'
  }

  /** str.isspace on one character. */
  predicate IsSpace(c: char) {
    || '\t' <= c <= '\r' || '\U{1C}' <= c <= ' ' || c == '\U{85}' || c == '\U{A0}' || c == '\U{1680}'
    || '\U{2000}' <= c <= '\U{200A}' || c == '\U{2028}' || c == '\U{2029}' || c == '\U{202F}'
    || c == '\U{205F}' || c == '\U{3000}'
  }

  /** The 29 code points that Python counts as white space. */
  lemma SpaceCodes(c: char)
    ensures IsSpace(c) <==> c as int in {9, 10, 11, 12, 13, 28, 29, 30, 31, 32, 133, 160, 5760, 8192, 8193, 8194, 8195,
                                         8196, 8197, 8198, 8199, 8200, 8201, 8202, 8232, 8233, 8239, 8287, 12288}
  {
  }

  ghost predicate AllIn(cls: CharClass, s: string) {
    forall i :: 0 <= i < |s| ==> In(cls, s[i])
  }

  function LStrip(cls: CharClass, s: string): string {
    if s != "" && In(cls, s[0]) then LStrip(cls, s[1..]) else s
  }

  function RStrip(cls: CharClass, s: string): string {
    if s != "" && In(cls, s[|s| - 1]) then RStrip(cls, s[..|s| - 1]) else s
  }

  function Strip(cls: CharClass, s: string): string {
    LStrip(cls, RStrip(cls, s))
  }

  /** What LStrip and RStrip remove. */
  lemma {:induction false} LStripSplit(cls: CharClass, s: string) returns (p: string)
    ensures s == p + LStrip(cls, s) && AllIn(cls, p)
    ensures LStrip(cls, s) != "" ==> !In(cls, LStrip(cls, s)[0])
  {
    if s != "" && In(cls, s[0]) {
      p := LStripSplit(cls, s[1..]);
      p := [s[0]] + p;
    } else {
      p := "";
    }
  }

  lemma {:induction false} RStripSplit(cls: CharClass, s: string) returns (q: string)
    ensures s == RStrip(cls, s) + q && AllIn(cls, q)
    ensures RStrip(cls, s) != "" ==> !In(cls, RStrip(cls, s)[|RStrip(cls, s)| - 1])
  {
    if s != "" && In(cls, s[|s| - 1]) {
      q := RStripSplit(cls, s[..|s| - 1]);
      q := q + [s[|s| - 1]];
    } else {
      q := "";
    }
  }

  /** Stripping around a middle part that starts and ends with other characters. */
  lemma {:induction false} LStripMid(cls: CharClass, p: string, m: string)
    requires m != "" && !In(cls, m[0])
    ensures LStrip(cls, p + m) == LStrip(cls, p) + m
  {
    if p != "" && In(cls, p[0]) {
      assert (p + m)[1..] == p[1..] + m;
      LStripMid(cls, p[1..], m);
    }
  }

  lemma {:induction false} RStripMid(cls: CharClass, m: string, q: string)
    requires m != "" && !In(cls, m[|m| - 1])
    ensures RStrip(cls, m + q) == m + RStrip(cls, q)
  {
    if q != "" && In(cls, q[|q| - 1]) {
      assert (m + q)[..|m| + |q| - 1] == m + q[..|q| - 1];
      RStripMid(cls, m, q[..|q| - 1]);
    }
  }

  lemma StripMid(cls: CharClass, p: string, m: string, q: string)
    requires m != "" && !In(cls, m[0]) && !In(cls, m[|m| - 1])
    ensures Strip(cls, p + m + q) == LStrip(cls, p) + m + RStrip(cls, q)
  {
    hide LStrip, RStrip, In;
    RStripMid(cls, p + m, q);
    LStripMid(cls, p, m + RStrip(cls, q));
    assert p + m + RStrip(cls, q) == p + (m + RStrip(cls, q));
    assert LStrip(cls, p) + (m + RStrip(cls, q)) == LStrip(cls, p) + m + RStrip(cls, q);
  }

  lemma {:induction false} LStripAll(cls: CharClass, p: string)
    requires AllIn(cls, p)
    ensures LStrip(cls, p) == ""
  {
    if p == "" {
    } else {
      LStripAll(cls, p[1..]);
    }
  }

  lemma {:induction false} RStripAll(cls: CharClass, q: string)
    requires AllIn(cls, q)
    ensures RStrip(cls, q) == ""
  {
    if q == "" {
    } else {
      RStripAll(cls, q[..|q| - 1]);
    }
  }

  lemma StripSplit(cls: CharClass, s: string) returns (p: string, q: string)
    ensures s == p + Strip(cls, s) + q && AllIn(cls, p) && AllIn(cls, q)
  {
    q := RStripSplit(cls, s);
    p := LStripSplit(cls, RStrip(cls, s));
  }

  // ----- searching and replacing

  predicate Contains(s: string, t: string) {
    t <= s || (s != "" && Contains(s[1..], t))
  }

  lemma {:induction false} ContainsChars(s: string, t: string, c: char)
    requires Contains(s, t) && c in t
    ensures c in s
  {
    if !(t <= s) { ContainsChars(s[1..], t, c); }
  }

  /** str.replace: all occurrences, from left to right, without overlap. */
  function Replace(s: string, pattern: string, replacement: string): string
    requires pattern != ""
  {
    if s == "" then ""
    else if pattern <= s then replacement + Replace(s[|pattern|..], pattern, replacement)
    else [s[0]] + Replace(s[1..], pattern, replacement)
  }

  /** Nothing is replaced up to the first occurrence of the first character. */
  lemma {:induction false} ReplaceFirst(p: string, t: string, rest: string, replacement: string)
    requires t != "" && t[0] !in p
    ensures Replace(p + t + rest, t, replacement) == p + replacement + Replace(rest, t, replacement)
  {
    hide Replace;
    if p == "" {
      ReplaceHead(t, rest, replacement);
      assert p + t + rest == t + rest;
    } else {
      ReplaceFirst(p[1..], t, rest, replacement);
      ReplaceSkip(p[0], p[1..] + t + rest, t, replacement);
      assert p + t + rest == [p[0]] + (p[1..] + t + rest);
    }
  }

  lemma ReplaceHead(t: string, rest: string, replacement: string)
    requires t != ""
    ensures Replace(t + rest, t, replacement) == replacement + Replace(rest, t, replacement)
  {
    assert (t + rest)[|t|..] == rest;
  }

  lemma ReplaceSkip(c: char, s: string, t: string, replacement: string)
    requires t != "" && t[0] != c
    ensures Replace([c] + s, t, replacement) == [c] + Replace(s, t, replacement)
  {
    assert ([c] + s)[1..] == s;
  }

  lemma {:induction false} ReplaceNone(s: string, t: string, replacement: string)
    requires t != "" && t[0] !in s
    ensures Replace(s, t, replacement) == s
  {
    if s == "" {
    } else {
      ReplaceNone(s[1..], t, replacement);
    }
  }

  lemma PrefixWithout(t: string, s: string, end: string)
    requires |end| == 1 && end[0] !in t && t <= s + end
    ensures t <= s
  {
    var all := s + end;
    assert all[|s|] == end[0] && end[0] in all;
    assert |t| == |s| + 1 ==> t == all;
  }

  /** A final character that is not part of the pattern stays where it is. */
  lemma {:induction false} ReplaceKeepsEnd(s: string, end: string, t: string, replacement: string)
    requires t != "" && |end| == 1 && end[0] !in t
    ensures Replace(s + end, t, replacement) == Replace(s, t, replacement) + end
    decreases |s|
  {
    if s == "" {
      assert s + end == end && end[1..] == "";
      if t <= s + end { PrefixWithout(t, s, end); }
    } else if t <= s {
      assert (s + end)[|t|..] == s[|t|..] + end;
      ReplaceKeepsEnd(s[|t|..], end, t, replacement);
    } else {
      if t <= s + end { PrefixWithout(t, s, end); }
      assert (s + end)[1..] == s[1..] + end;
      ReplaceKeepsEnd(s[1..], end, t, replacement);
    }
  }

  /** A character comes into the result only from outside the pattern or from the replacement. */
  lemma {:induction false} ReplaceChars(s: string, t: string, replacement: string, c: char)
    requires t != "" && c !in replacement && (c !in s || t == [c])
    ensures c !in Replace(s, t, replacement)
    decreases |s|
  {
    if s == "" {
    } else if t <= s {
      ReplaceChars(s[|t|..], t, replacement, c);
    } else {
      ReplaceChars(s[1..], t, replacement, c);
    }
  }

  // ----- tabs

  const TAB_SIZE := 4

  function Spaces(n: nat): string { seq(n, i => ' ') }

  /** What one character becomes at a given column, and the column after it. */
  function Expanded(c: char, column: nat): string {
    if c == '\t' then Spaces(TAB_SIZE - column % TAB_SIZE) else [c]
  }

  function NextColumn(c: char, column: nat): nat {
    if c == '\t' then column + (TAB_SIZE - column % TAB_SIZE)
    else if c == '\n' || c == '\r' then 0 else column + 1
  }

  /** str.expandtabs(TAB_SIZE) from a given column on. */
  function ExpandTabs(s: string, column: nat): string {
    if s == "" then "" else Expanded(s[0], column) + ExpandTabs(s[1..], NextColumn(s[0], column))
  }

  lemma {:induction false} ExpandTabsNoTab(s: string, column: nat)
    ensures '\t' !in ExpandTabs(s, column)
    ensures '\n' !in s ==> '\n' !in ExpandTabs(s, column)
    ensures '\t' !in s ==> ExpandTabs(s, column) == s
  {
    if s == "" {
    } else {
      ExpandTabsNoTab(s[1..], NextColumn(s[0], column));
      ExpandedNoTab(s[0], column);
      hide Expanded, NextColumn;
      assert s == [s[0]] + s[1..];
    }
  }

  lemma ExpandedNoTab(c: char, column: nat)
    ensures '\t' !in Expanded(c, column) && (c != '\n' ==> '\n' !in Expanded(c, column))
    ensures c != '\t' ==> Expanded(c, column) == [c]
  {
  }

  /** The column after `s`. */
  function Column(s: string, column: nat): nat {
    if s == "" then column else Column(s[1..], NextColumn(s[0], column))
  }

  lemma {:induction false} ExpandTabsConcat(a: string, b: string, column: nat)
    ensures ExpandTabs(a + b, column) == ExpandTabs(a, column) + ExpandTabs(b, Column(a, column))
  {
    hide Expanded, NextColumn;
    if a == "" {
      assert a + b == b;
    } else {
      assert (a + b)[1..] == a[1..] + b;
      ExpandTabsConcat(a[1..], b, NextColumn(a[0], column));
    }
  }

  /** White space expands to white space. */
  lemma {:induction false} ExpandTabsSpace(s: string, column: nat)
    requires AllIn(Space, s)
    ensures AllIn(Space, ExpandTabs(s, column))
  {
    if s == "" {
    } else {
      ExpandTabsSpace(s[1..], NextColumn(s[0], column));
      assert AllIn(Space, Expanded(s[0], column));
      hide Expanded, NextColumn, In;
    }
  }

  // ----- lines

  /** A line as readlines returns it: not empty, with a line feed at most at its end. */
  ghost predicate IsLine(s: string) {
    s != "" && forall i :: 0 <= i < |s| - 1 ==> s[i] != '\n'
  }

  predicate Ended(s: string) {
    s != "" && s[|s| - 1] == '\n'
  }

  ghost predicate AreLines(lines: seq<string>) {
    && (forall i :: 0 <= i < |lines| ==> IsLine(lines[i]))
    && (forall i :: 0 <= i < |lines| - 1 ==> Ended(lines[i]))
  }

  /** The position behind the first line feed, or the end of the text. */
  function FirstLineEnd(text: string): (n: nat)
    ensures n <= |text| && (text != "" ==> n > 0)
    ensures n > 0 ==> IsLine(text[..n])
    ensures n < |text| ==> Ended(text[..n])
  {
    if text == "" then 0
    else if text[0] == '\n' then 1
    else
      var n := FirstLineEnd(text[1..]);
      assert text[..n + 1] == [text[0]] + text[1..][..n];
      n + 1
  }

  function ReadLines(text: string): seq<string>
    decreases |text|
  {
    if text == "" then []
    else
      var n := FirstLineEnd(text);
      [text[..n]] + ReadLines(text[n..])
  }

  function Concat(lines: seq<string>): string {
    if lines == [] then "" else lines[0] + Concat(lines[1..])
  }

  /** Reading loses nothing. */
  lemma {:induction false} ReadLinesConcat(text: string)
    ensures AreLines(ReadLines(text)) && Concat(ReadLines(text)) == text
    decreases |text|
  {
    if text == "" {
    } else {
      var n := FirstLineEnd(text);
      ReadLinesConcat(text[n..]);
      hide FirstLineEnd, AreLines, IsLine, Ended;
      LinesCons(text[..n], ReadLines(text[n..]));
      assert ([text[..n]] + ReadLines(text[n..]))[1..] == ReadLines(text[n..]);
    }
  }

  lemma LinesCons(line: string, rest: seq<string>)
    requires IsLine(line) && AreLines(rest) && (rest != [] ==> Ended(line))
    ensures AreLines([line] + rest)
  {
  }

  lemma {:induction false} FirstLineEndOf(line: string, rest: string)
    requires IsLine(line) && (rest != "" ==> Ended(line))
    ensures FirstLineEnd(line + rest) == |line|
  {
    var text := line + rest;
    if line[0] == '\n' {
    } else if |line| == 1 {
      assert rest == "";
      assert text[1..] == "";
    } else {
      assert text[1..] == line[1..] + rest;
      FirstLineEndOf(line[1..], rest);
    }
  }

  /** Lines that are written out and read again are the same lines. */
  lemma {:induction false} ConcatReadLines(lines: seq<string>)
    requires AreLines(lines)
    ensures ReadLines(Concat(lines)) == lines
  {
    if lines == [] {
    } else {
      var rest := Concat(lines[1..]);
      ConcatReadLines(lines[1..]);
      assert rest != "" ==> lines[1..] != [];
      FirstLineEndOf(lines[0], rest);
      assert (lines[0] + rest)[..|lines[0]|] == lines[0];
      assert (lines[0] + rest)[|lines[0]|..] == rest;
    }
  }
}
