/** What the line checkers of utils/check-style-clang-format.py change in a line they reject, and
    what they leave as it is.
 */
module LineFixes {
  import opened Text
  import opened StyleChecker
  import opened LineChecks

  // ----- tabs

  /** Where character i of a line stands after its tabs are expanded. */
  function Position(line: string, i: nat): nat
    requires i <= |line|
  {
    |ExpandTabs(line[..i], 0)|
  }

  /** Every tab becomes one to four spaces, up to the next column that is a multiple of four;
      every other character is kept, in order. */
  lemma TabsFix(line: string, i: nat)
    requires '\t' in line && i < |line|
    ensures var fixed := CheckTabs(line).fixed;
      && Position(line, i) < Position(line, i + 1) <= |fixed|
      && (line[i] != '\t' ==> Position(line, i + 1) == Position(line, i) + 1 && fixed[Position(line, i)] == line[i])
      && (line[i] == '\t' ==>
            && Column(line[..i + 1], 0) % 4 == 0 && Position(line, i + 1) <= Position(line, i) + 4
            && forall k :: Position(line, i) <= k < Position(line, i + 1) ==> fixed[k] == ' ')
    ensures Column(line[..i + 1], 0)
         == if line[i] == '\n' || line[i] == '\r' then 0
            else Column(line[..i], 0) + Position(line, i + 1) - Position(line, i)
    ensures '\n' !in line[..i] && '\r' !in line[..i] ==> Column(line[..i], 0) == Position(line, i)
  {
    hide ExpandTabs, Column;
    var front, c, rest := line[..i], [line[i]], line[i + 1..];
    assert line == front + (c + rest) && line[..i + 1] == front + c;
    ExpandTabsConcat(front, c + rest, 0);
    ExpandTabsConcat(front, c, 0);
    ExpandTabsConcat(c, rest, Column(front, 0));
    ColumnConcat(front, c, 0);
    ExpandedChar(line[i], Column(front, 0));
    if '\n' !in front && '\r' !in front { ExpandedLength(front, 0); }
  }

  lemma {:induction false} ColumnConcat(a: string, b: string, column: nat)
    ensures Column(a + b, column) == Column(b, Column(a, column))
  {
    if a == "" {
      assert a + b == b;
    } else {
      assert (a + b)[1..] == a[1..] + b;
      ColumnConcat(a[1..], b, NextColumn(a[0], column));
    }
  }

  lemma {:induction false} ExpandedLength(s: string, column: nat)
    requires '\n' !in s && '\r' !in s
    ensures Column(s, column) == column + |ExpandTabs(s, column)|
  {
    if s == "" {
    } else {
      ExpandedLength(s[1..], NextColumn(s[0], column));
    }
  }

  lemma ExpandedChar(c: char, column: nat)
    ensures var e := ExpandTabs([c], column);
      && (c != '\t' ==> e == [c] && Column([c], column) == if c == '\n' || c == '\r' then 0 else column + 1)
      && (c == '\t' ==>
            && 1 <= |e| <= 4 && Column([c], column) == column + |e| && (column + |e|) % 4 == 0
            && forall k :: 0 <= k < |e| ==> e[k] == ' ')
  {
  }

  // ----- trailing white space

  /** What stands before the trailing white space is kept, and ended with a line feed. */
  lemma WhitespaceFix(line: string) returns (body: string, trailing: string)
    ensures line == body + trailing && CheckWhitespace(line).fixed == body + "\n"
    ensures AllIn(Space, trailing) && (body != "" ==> !In(Space, body[|body| - 1]))
    ensures CheckWhitespace(line).compliant <==> trailing == "\n"
  {
    body := RStrip(Space, line);
    trailing := RStripSplit(Space, line);
    assert body + trailing == body + "\n" ==>
      trailing == (body + trailing)[|body|..] == (body + "\n")[|body|..] == "\n";
  }

  // ----- #include quotes

  /** Angle brackets become quotes, everywhere in the line and nothing else. */
  lemma IncludeQuotesFix(line: string)
    requires !CheckIncludeQuotes(line).compliant
    ensures var fixed := CheckIncludeQuotes(line).fixed;
      && |fixed| == |line|
      && forall i :: 0 <= i < |line| ==> fixed[i] == if line[i] == '<' || line[i] == '>' then '"' else line[i]
  {
    ReplaceChar(line, "<", "\"");
    ReplaceChar(Replace(line, "<", "\""), ">", "\"");
  }

  lemma ReplaceCharHead(s: string, c: string, d: string)
    requires |c| == |d| == 1 && s != ""
    ensures Replace(s, c, d) == [if s[0] == c[0] then d[0] else s[0]] + Replace(s[1..], c, d)
  {
    assert c <= s <==> s[0] == c[0];
    assert d == [d[0]];
  }

  lemma {:induction false} ReplaceChar(s: string, c: string, d: string)
    requires |c| == |d| == 1
    ensures var fixed := Replace(s, c, d);
      |fixed| == |s| && forall i :: 0 <= i < |s| ==> fixed[i] == if s[i] == c[0] then d[0] else s[i]
  {
    if s == "" {
    } else {
      ReplaceChar(s[1..], c, d);
      ReplaceCharHead(s, c, d);
      hide Replace;
      assert forall i :: 1 <= i < |s| ==> s[i] == s[1..][i - 1];
    }
  }

  // ----- emacs file style comments

  /** A line is rejected, and dropped, exactly when one of the two words occurs in it. */
  lemma EmacsFix(line: string)
    ensures var s := Strip(Space, line);
      !CheckEmacs(line).compliant <==>
        exists i :: 0 <= i < |s| && ("c-file-style:" <= s[i..] || "py-indent-offset:" <= s[i..])
    ensures !CheckEmacs(line).compliant ==> CheckEmacs(line).fixed == ""
  {
    var s := Strip(Space, line);
    ContainsIff(s, "c-file-style:");
    ContainsIff(s, "py-indent-offset:");
  }

  lemma {:induction false} ContainsIff(s: string, t: string)
    requires t != ""
    ensures Contains(s, t) <==> exists i :: 0 <= i < |s| && t <= s[i..]
  {
    if s == "" {
    } else {
      ContainsIff(s[1..], t);
      assert s[0..] == s;
      assert forall i :: 1 <= i < |s| ==> s[i..] == s[1..][i - 1..];
      if Contains(s[1..], t) {
        var i :| 0 <= i < |s[1..]| && t <= s[1..][i..];
        assert s[i + 1..] == s[1..][i..];
      }
    }
  }

  // ----- licences

  /** The first line of the licence gives way to the short form, between the same white space
      and comment signs; the other lines of the licence are dropped. */
  lemma LicensesFix(line: string) returns (p: string, q: string)
    requires !CheckLicenses(line).compliant
    ensures line == p + LicenseText(line) + q && LicenseText(line) in GPL_LICENSE_LINES
    ensures NoSolid(p) && NoSolid(q)
    ensures CheckLicenses(line).fixed
         == if LicenseText(line) == GPL_LICENSE_LINES[0] then p + SPDX_LICENSE + q else ""
  {
    p, q := LicenseSplit(line);
    if LicenseText(line) == GPL_LICENSE_LINES[0] {
      hide LicenseText;
      LicenseEnds();
      ReplaceFirst(p, GPL_LICENSE_LINES[0], q, SPDX_LICENSE);
      ReplaceNone(q, GPL_LICENSE_LINES[0], SPDX_LICENSE);
    }
  }

  // ----- Doxygen tags

  /** Two texts of the same length that differ only where a `c` has become a `d`. */
  ghost predicate OnlyChanges(s: string, t: string, c: char, d: char) {
    |s| == |t| && forall i :: 0 <= i < |s| && s[i] != t[i] ==> s[i] == c && t[i] == d
  }

  lemma ChangesConcat(a: string, b: string, s: string, t: string, c: char, d: char)
    requires OnlyChanges(a, b, c, d) && OnlyChanges(s, t, c, d)
    ensures OnlyChanges(a + s, b + t, c, d)
  {
  }

  /** Replacing a word by one that differs in its first character. */
  lemma {:induction false} ReplaceFirstChar(s: string, t: string, c: char, d: char)
    requires t != "" && t[0] == c
    ensures OnlyChanges(s, Replace(s, t, [d] + t[1..]), c, d)
    decreases |s|
  {
    var replacement := [d] + t[1..];
    if s == "" {
    } else if t <= s {
      ReplaceFirstChar(s[|t|..], t, c, d);
      ChangesConcat(t, replacement, s[|t|..], Replace(s[|t|..], t, replacement), c, d);
      assert s == t + s[|t|..];
    } else {
      ReplaceFirstChar(s[1..], t, c, d);
      ChangesConcat([s[0]], [s[0]], s[1..], Replace(s[1..], t, replacement), c, d);
      assert s == [s[0]] + s[1..];
    }
  }

  /** The backslash of the tag becomes an @; no character changes in any other way. */
  lemma DoxygenTagsFix(isWord: char -> bool, line: string) returns (p: string, marker: string, q: string, rest: string)
    requires !CheckDoxygenTags(isWord, line).compliant
    ensures var tag, fixed := FindTag(isWord, line), CheckDoxygenTags(isWord, line).fixed;
      && |tag| > 1 && line == p + marker + q + tag + rest
      && AllIn(Space, p) && AllIn(Space, q) && (marker == "*" || marker == "/**" || marker == "///")
      && p + marker + q + "@" + tag[1..] <= fixed
      && OnlyChanges(line, fixed, '\\', '@')
      && (!isWord('\\') ==> forall i :: 0 <= i < |line| ==> fixed[i] == if tag <= line[i..] then '@' else line[i])
  {
    p, marker, q, rest := TagSplit(isWord, line);
    hide FindTag, Replace, OnlyChanges;
    var tag := FindTag(isWord, line);
    ReplaceTag(p + marker + q, tag, rest);
    if !isWord('\\') {
      assert forall i :: 1 <= i < |tag| ==> tag[i] != '\\';
      ReplaceEach(line, tag, '\\', '@');
      assert ['@'] + tag[1..] == "@" + tag[1..];
    }
  }

  /** If the first character of a word is nowhere else in it, every occurrence is replaced. */
  lemma {:induction false} ReplaceEach(s: string, t: string, c: char, d: char)
    requires t != "" && t[0] == c && forall i :: 1 <= i < |t| ==> t[i] != c
    ensures var fixed := Replace(s, t, [d] + t[1..]);
      |fixed| == |s| && forall i :: 0 <= i < |s| ==> fixed[i] == if t <= s[i..] then d else s[i]
    decreases |s|
  {
    var replacement := [d] + t[1..];
    if s == "" {
    } else if t <= s {
      var rest := s[|t|..];
      ReplaceEach(rest, t, c, d);
      EachStep(s, t, replacement, Replace(rest, t, replacement), c, d);
    } else {
      ReplaceEach(s[1..], t, c, d);
      assert forall i :: 1 <= i < |s| ==> s[i..] == s[1..][i - 1..];
    }
  }

  lemma EachStep(s: string, t: string, replacement: string, tail: string, c: char, d: char)
    requires t != "" && t <= s && t[0] == c && (forall i :: 1 <= i < |t| ==> t[i] != c)
    requires replacement == [d] + t[1..] && |tail| == |s| - |t|
    requires var rest := s[|t|..];
      forall i :: 0 <= i < |rest| ==> tail[i] == if t <= rest[i..] then d else rest[i]
    ensures var fixed := replacement + tail;
      |fixed| == |s| && forall i :: 0 <= i < |s| ==> fixed[i] == if t <= s[i..] then d else s[i]
  {
    var fixed, rest := replacement + tail, s[|t|..];
    forall i | 0 <= i < |s| ensures fixed[i] == if t <= s[i..] then d else s[i] {
      if i >= |t| {
        assert s[i..] == rest[i - |t|..];
      } else if i > 0 {
        assert s[i..][0] == t[i];
      }
    }
  }

  lemma ReplaceTag(front: string, tag: string, rest: string)
    requires '\\' !in front && tag != "" && tag[0] == '\\'
    ensures var line := front + tag + rest;
      var fixed := Replace(line, tag, "@" + tag[1..]);
      front + "@" + tag[1..] <= fixed && OnlyChanges(line, fixed, '\\', '@')
  {
    ReplaceFirstChar(front + tag + rest, tag, '\\', '@');
    assert ['@'] + tag[1..] == "@" + tag[1..];
    ReplaceFirst(front, tag, rest, "@" + tag[1..]);
    hide Replace, OnlyChanges;
    assert front + ("@" + tag[1..]) == front + "@" + tag[1..];
  }
}
