/** What expanding tabs means for the checks that run before the tab check. */
module TabPairs {
  import opened Text
  import opened StyleChecker
  import opened FixThenCheck
  import opened LineChecks
  import opened LineFixes
  import opened FixSequence

  // ----- words in an expanded text

  /** A word without spaces at the start of the expanded text was there before. */
  lemma {:induction false} ExpandPrefix(s: string, column: nat, t: string)
    requires ' ' !in t && t <= ExpandTabs(s, column)
    ensures t <= s
  {
    if t == "" {
    } else {
      ExpandTabsHead(s, column);
      assert ExpandTabs(s, column)[0] == t[0] && t[0] in t;
      var next := NextColumn(s[0], column);
      assert t[1..] <= ExpandTabs(s, column)[1..] == ExpandTabs(s[1..], next);
      ExpandPrefix(s[1..], next, t[1..]);
      assert t == [t[0]] + t[1..] && s == [s[0]] + s[1..];
    }
  }

  /** The first character: a tab becomes a space, any other stays. */
  lemma ExpandTabsHead(s: string, column: nat)
    ensures s == "" <==> ExpandTabs(s, column) == ""
    ensures s != "" ==> ExpandTabs(s, column)[0] == if s[0] == '\t' then ' ' else s[0]
    ensures s != "" && s[0] != '\t' ==> ExpandTabs(s, column)[1..] == ExpandTabs(s[1..], NextColumn(s[0], column))
  {
    if s != "" { TabWidth(column); }
  }

  lemma TabWidth(column: nat)
    ensures 1 <= TAB_SIZE - column % TAB_SIZE <= 4
  {
  }

  /** A word without tabs and line ends at the start of a text stays there. */
  lemma ExpandKeepsFront(t: string, rest: string, column: nat)
    requires '\t' !in t && '\n' !in t && '\r' !in t
    ensures ExpandTabs(t + rest, column) == t + ExpandTabs(rest, column + |t|)
  {
    hide ExpandTabs, Column;
    ExpandTabsConcat(t, rest, column);
    ExpandTabsNoTab(t, column);
    PlainColumn(t, column);
  }

  lemma {:induction false} ContainsBehindSpaces(n: nat, s: string, t: string)
    requires t != "" && t[0] != ' ' && Contains(Spaces(n) + s, t)
    ensures Contains(s, t)
  {
    if n == 0 {
      assert Spaces(0) + s == s;
    } else {
      assert (Spaces(n) + s)[0] == ' ' && (Spaces(n) + s)[1..] == Spaces(n - 1) + s;
      ContainsBehindSpaces(n - 1, s, t);
    }
  }

  /** A word without spaces that occurs in the expanded text occurred before. */
  lemma {:induction false} ExpandContains(s: string, column: nat, t: string)
    requires t != "" && ' ' !in t && Contains(ExpandTabs(s, column), t)
    ensures Contains(s, t)
  {
    var e := ExpandTabs(s, column);
    if t <= e {
      ExpandPrefix(s, column, t);
    } else {
      ExpandTabsHead(s, column);
      var next := NextColumn(s[0], column);
      if s[0] == '\t' {
        TabWidth(column);
        assert t[0] in t;
        ContainsBehindSpaces(TAB_SIZE - column % TAB_SIZE, ExpandTabs(s[1..], next), t);
      }
      ExpandContains(s[1..], next, t);
    }
  }

  // ----- stripping an expanded text

  /** Where text starts and ends with other characters than white space, so does its expansion. */
  lemma ExpandEnds(s: string, column: nat)
    requires s != "" && !IsSpace(s[0]) && !IsSpace(s[|s| - 1])
    ensures var e := ExpandTabs(s, column);
      e != "" && e[0] == s[0] && e[|e| - 1] == s[|s| - 1]
  {
    hide ExpandTabs, Column;
    ExpandTabsHead(s, column);
    var last := |s| - 1;
    assert s == s[..last] + [s[last]];
    ExpandTabsConcat(s[..last], [s[last]], column);
    ExpandedChar(s[last], Column(s[..last], column));
  }

  lemma StripEnds(line: string)
    ensures var s := Strip(Space, line);
      s != "" ==> !IsSpace(s[0]) && !IsSpace(s[|s| - 1])
  {
    var r := RStrip(Space, line);
    var q := RStripSplit(Space, line);
    var p := LStripSplit(Space, r);
    hide LStrip, RStrip;
    assert Strip(Space, line) != "" ==> Strip(Space, line)[|Strip(Space, line)| - 1] == r[|r| - 1];
  }

  /** Stripping and expanding can be exchanged. */
  lemma StripExpanded(line: string) returns (column: nat)
    ensures Strip(Space, ExpandTabs(line, 0)) == ExpandTabs(Strip(Space, line), column)
  {
    var p, q := StripSplit(Space, line);
    var s := Strip(Space, line);
    column := Column(p, 0);
    StripEnds(line);
    ExpandTabsConcat(p + s, q, 0);
    ExpandTabsConcat(p, s, 0);
    var left, right := ExpandTabs(p, 0), ExpandTabs(q, Column(p + s, 0));
    ExpandTabsSpace(p, 0);
    ExpandTabsSpace(q, Column(p + s, 0));
    if s != "" {
      ExpandEnds(s, column);
      StripPadded(left, ExpandTabs(s, column), right);
    } else {
      hide ExpandTabs, Column;
      ExpandTabsHead(s, column);
      assert left + "" + right == left + right;
      RStripAll(Space, left + right);
    }
  }

  lemma {:induction false} LStripExpanded(s: string, column: nat) returns (after: nat)
    ensures LStrip(Space, ExpandTabs(s, column)) == ExpandTabs(LStrip(Space, s), after)
  {
    var p := LStripSplit(Space, s);
    var t := LStrip(Space, s);
    after := Column(p, column);
    ExpandTabsConcat(p, t, column);
    ExpandTabsSpace(p, column);
    LStripAll(Space, ExpandTabs(p, column));
    ExpandTabsHead(t, after);
    hide ExpandTabs, Column;
    if t == "" {
      assert ExpandTabs(s, column) == ExpandTabs(p, column);
    } else {
      LStripMid(Space, ExpandTabs(p, column), ExpandTabs(t, after));
    }
  }

  // ----- the checks

  lemma TabsKeepEmacs(line: string)
    ensures Keeps(CheckEmacs, CheckTabs, line)
  {
    var column := StripExpanded(line);
    var s := Strip(Space, line);
    hide Strip, Contains, ExpandTabs;
    NoSpaceInWords();
    if Contains(ExpandTabs(s, column), "c-file-style:") { ExpandContains(s, column, "c-file-style:"); }
    if Contains(ExpandTabs(s, column), "py-indent-offset:") { ExpandContains(s, column, "py-indent-offset:"); }
  }

  lemma NoSpaceInWords()
    ensures ' ' !in "c-file-style:" && ' ' !in "py-indent-offset:"
  {
  }

  lemma TabsKeepWhitespace(line: string)
    ensures Keeps(CheckWhitespace, CheckTabs, line)
  {
    var body := RStrip(Space, line);
    var trailing := RStripSplit(Space, line);
    if CheckWhitespace(line).compliant {
      assert line == body + "\n";
      ExpandTabsConcat(body, "\n", 0);
      ExpandedChar('\n', Column(body, 0));
      var e := ExpandTabs(body, 0);
      assert ExpandTabs(line, 0) == e + "\n";
      ExpandLast(body);
      hide ExpandTabs, Column;
      RStripAll(Space, "\n");
      if e != "" { RStripMid(Space, e, "\n"); } else { assert e + "\n" == "\n"; }
    }
  }

  lemma ExpandLast(body: string)
    requires body != "" ==> !IsSpace(body[|body| - 1])
    ensures var e := ExpandTabs(body, 0);
      e != "" ==> !IsSpace(e[|e| - 1])
  {
    if body != "" {
      var last := |body| - 1;
      assert body == body[..last] + [body[last]];
      ExpandTabsConcat(body[..last], [body[last]], 0);
      ExpandedChar(body[last], Column(body[..last], 0));
    }
  }

  lemma TabsKeepInclude(line: string)
    ensures Keeps(CheckIncludeQuotes, CheckTabs, line)
  {
    hide Contains, Replace, ExpandTabs;
    if IncludesWithBrackets(ExpandTabs(line, 0)) { IncludeExpanded(line); }
  }

  lemma IncludeExpanded(line: string)
    requires IncludesWithBrackets(ExpandTabs(line, 0))
    ensures IncludesWithBrackets(line)
  {
    hide Contains, ExpandTabs;
    var e := ExpandTabs(line, 0);
    var rest := IncludeRest(line);
    var b, more := "<ns3/", rest[6..];
    assert rest == " " + b + more && line == NS3_INCLUDE + more;
    ExpandKeepsFront(NS3_INCLUDE, more, 0);
    assert e[14..] == ExpandTabs(more, 14) && line[14..] == more;
    if Contains(ExpandTabs(more, 14), ".h>") { ExpandContains(more, 14, ".h>"); }
  }

  lemma IncludeRest(line: string) returns (rest: string)
    requires NS3_INCLUDE <= ExpandTabs(line, 0)
    ensures line == "#include" + rest && " " + "<ns3/" <= rest
  {
    hide ExpandTabs;
    var e, a, b := ExpandTabs(line, 0), "#include", "<ns3/";
    assert NS3_INCLUDE == a + (" " + b);
    assert a <= e;
    ExpandPrefix(line, 0, a);
    rest := line[8..];
    assert line == a + rest;
    ExpandKeepsFront(a, rest, 0);
    assert e[8..] == ExpandTabs(rest, 8) && " " + b <= ExpandTabs(rest, 8);
    SpaceThenWord(rest, b);
  }

  /** At column 8 a tab is four spaces wide, so a single space was a space before. */
  lemma SpaceThenWord(rest: string, b: string)
    requires b == "<ns3/" && " " + b <= ExpandTabs(rest, 8)
    ensures " " + b <= rest
  {
    hide ExpandTabs;
    var e := ExpandTabs(rest, 8);
    assert e[0] == ' ' && e[1] == '<';
    ExpandTabsHead(rest, 8);
    if rest[0] == '\t' { TabAtEight(rest); }
    if rest[0] != '\t' {
      assert b <= e[1..] by { assert (" " + b)[1..] == b; }
      ExpandPrefix(rest[1..], NextColumn(rest[0], 8), b);
      assert rest == [rest[0]] + rest[1..];
    }
  }

  lemma TabAtEight(rest: string)
    requires rest != "" && rest[0] == '\t'
    ensures |ExpandTabs(rest, 8)| >= 4 && ExpandTabs(rest, 8)[1] == ' '
  {
    assert Expanded('\t', 8) == Spaces(4);
  }

  // ----- Doxygen tags

  lemma MarkerExpanded(s: string, column: nat)
    ensures MarkerLength(ExpandTabs(s, column)) == MarkerLength(s)
  {
    MarkerFront(s, column, "*");
    MarkerFront(s, column, "/**");
    MarkerFront(s, column, "///");
  }

  lemma MarkerFront(s: string, column: nat, t: string)
    requires ' ' !in t && '\t' !in t && '\n' !in t && '\r' !in t
    ensures t <= ExpandTabs(s, column) <==> t <= s
  {
    if t <= ExpandTabs(s, column) { ExpandPrefix(s, column, t); }
    if t <= s {
      assert s == t + s[|t|..];
      ExpandKeepsFront(t, s[|t|..], column);
    }
  }

  lemma {:induction false} WordExpanded(isWord: char -> bool, s: string, column: nat)
    requires WordsHaveNoSpace(isWord)
    ensures WordLength(isWord, ExpandTabs(s, column)) == WordLength(isWord, s)
  {
    ExpandTabsHead(s, column);
    if s == "" {
    } else {
      assert !isWord(' ') && !isWord('\t') by { assert IsSpace(' ') && IsSpace('\t'); }
      if isWord(s[0]) { WordExpanded(isWord, s[1..], NextColumn(s[0], column)); }
    }
  }

  lemma TagExpanded(isWord: char -> bool, t: string, column: nat)
    requires WordsHaveNoSpace(isWord) && (t != "" ==> !IsSpace(t[0]))
    ensures TagAt(isWord, ExpandTabs(t, column)) == TagAt(isWord, t)
  {
    ExpandTabsHead(t, column);
    if t != "" && t[0] == '\\' {
      var e, u := ExpandTabs(t, column), t[1..];
      var n := WordLength(isWord, u);
      WordExpanded(isWord, u, NextColumn('\\', column));
      WordLengthBound(isWord, u);
      var word, rest := t[..n + 1], t[n + 1..];
      assert t == word + rest;
      assert forall i :: 1 <= i <= n ==> word[i] == u[i - 1] && !IsSpace(word[i]);
      assert '\t' !in word && '\n' !in word && '\r' !in word by {
        assert IsSpace('\t') && IsSpace('\n') && IsSpace('\r');
      }
      ExpandKeepsFront(word, rest, column);
      ExpandTabsHead(rest, column + |word|);
      hide ExpandTabs, WordLength;
      assert e == word + ExpandTabs(rest, column + |word|) && e[..n + 1] == word;
      if rest != "" {
        assert t[n + 1] == rest[0] && e[n + 1] == ExpandTabs(rest, column + |word|)[0];
        assert IsSpace('\t') && IsSpace(' ');
      }
    }
  }

  lemma PlainMarker(marker: string)
    requires marker == "*" || marker == "/**" || marker == "///"
    ensures '\t' !in marker && '\n' !in marker && '\r' !in marker
  {
  }

  /** Expanding tabs neither makes nor removes a tag. */
  lemma FindTagExpanded(isWord: char -> bool, line: string)
    requires WordsHaveNoSpace(isWord)
    ensures FindTag(isWord, ExpandTabs(line, 0)) == FindTag(isWord, line)
  {
    hide Strip, LStrip, ExpandTabs, MarkerLength, TagAt;
    var column := StripExpanded(line);
    var s := Strip(Space, line);
    var e := ExpandTabs(s, column);
    MarkerExpanded(s, column);
    var k := MarkerLength(s);
    if k != 0 {
      MarkerShape(s);
      var marker, rest := s[..k], s[k..];
      assert s == marker + rest;
      PlainMarker(marker);
      ExpandKeepsFront(marker, rest, column);
      assert e[k..] == ExpandTabs(rest, column + k);
      var after := LStripExpanded(rest, column + k);
      var p := LStripSplit(Space, rest);
      TagExpanded(isWord, LStrip(Space, rest), after);
    }
  }

  lemma TabsKeepTags(isWord: char -> bool, line: string)
    requires WordsHaveNoSpace(isWord)
    ensures Keeps(l => CheckDoxygenTags(isWord, l), CheckTabs, line)
  {
    FindTagExpanded(isWord, line);
    hide FindTag, ExpandTabs;
  }
}
