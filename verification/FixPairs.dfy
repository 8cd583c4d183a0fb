/** Which checks of utils/check-style-clang-format.py a fix of another check can upset. */
module FixPairs {
  import opened Text
  import opened StyleChecker
  import opened FixThenCheck
  import opened LineChecks
  import opened LineFixes
  import opened FixSequence

  // ----- after the white space fix

  /** The fix of trailing white space does not change what stripping leaves. */
  lemma SameStripped(line: string)
    ensures Strip(Space, CheckWhitespace(line).fixed) == Strip(Space, line)
    ensures CheckWhitespace(line).fixed != ""
  {
    var body, trailing := WhitespaceFix(line);
    assert AllIn(Space, "\n");
    RStripAll(Space, "\n");
    if body == "" {
      assert body + "\n" == "\n" && line == trailing;
      RStripAll(Space, trailing);
    } else {
      RStripMid(Space, body, "\n");
      RStripMid(Space, body, trailing);
      RStripAll(Space, trailing);
    }
  }

  lemma WhitespaceLeavesGuards(line: string)
    ensures LeavesGuards(CheckWhitespace, line)
  {
    SameStripped(line);
    SameGuard(line, CheckWhitespace(line).fixed);
  }

  lemma WhitespaceKeeps(isWord: char -> bool, line: string)
    ensures Keeps(CheckEmacs, CheckWhitespace, line)
    ensures Keeps(CheckLicenses, CheckWhitespace, line)
    ensures Keeps(l => CheckDoxygenTags(isWord, l), CheckWhitespace, line)
    ensures Keeps(CheckTabs, CheckWhitespace, line)
  {
    hide Strip, Contains, Replace, TagAt;
    SameStripped(line);
    var body, trailing := WhitespaceFix(line);
    assert '\t' !in line ==> '\t' !in body + "\n";
  }

  lemma WhitespaceKeepsInclude(line: string)
    ensures Keeps(CheckIncludeQuotes, CheckWhitespace, line)
  {
    hide Contains, Replace;
    var body, trailing := WhitespaceFix(line);
    var n := |NS3_INCLUDE|;
    if NS3_INCLUDE <= body + "\n" {
      assert '\n' !in NS3_INCLUDE && "\n"[0] == '\n';
      PrefixWithout(NS3_INCLUDE, body, "\n");
      assert (body + "\n")[n..] == body[n..] + "\n" && line[n..] == body[n..] + trailing;
      if Contains(body[n..] + "\n", ".h>") {
        ContainsFront(body[n..], "\n", ".h>");
        ContainsMore(body[n..], trailing, ".h>");
      }
    }
  }

  /** A word without line feed is not found across the end of the line. */
  lemma {:induction false} ContainsFront(s: string, end: string, t: string)
    requires |end| == 1 && end[0] !in t && t != "" && Contains(s + end, t)
    ensures Contains(s, t)
  {
    if t <= s + end {
      PrefixWithout(t, s, end);
    } else if s == "" {
      assert (s + end)[1..] == "";
    } else {
      assert (s + end)[1..] == s[1..] + end;
      ContainsFront(s[1..], end, t);
    }
  }

  lemma {:induction false} ContainsMore(s: string, more: string, t: string)
    requires Contains(s, t)
    ensures Contains(s + more, t)
  {
    if t <= s {
      assert t <= s + more;
    } else {
      assert (s + more)[1..] == s[1..] + more;
      ContainsMore(s[1..], more, t);
    }
  }

  // ----- after the fixes of quotes, tags and licences

  lemma QuotesKeepTabs(line: string)
    ensures Keeps(CheckTabs, CheckIncludeQuotes, line)
  {
    if !CheckIncludeQuotes(line).compliant { IncludeQuotesFix(line); }
  }

  lemma TagsKeep(isWord: char -> bool, line: string)
    ensures Keeps(CheckTabs, l => CheckDoxygenTags(isWord, l), line)
    ensures Keeps(CheckIncludeQuotes, l => CheckDoxygenTags(isWord, l), line)
  {
    if !CheckDoxygenTags(isWord, line).compliant {
      var p, marker, q, rest := DoxygenTagsFix(isWord, line);
      hide FindTag, Replace, Contains;
      var fixed := CheckDoxygenTags(isWord, line).fixed;
      assert fixed[0] == (p + marker)[0] && NS3_INCLUDE[0] == '#';
    }
  }

  lemma LicenseKeeps(line: string)
    ensures Keeps(CheckTabs, CheckLicenses, line)
    ensures Keeps(CheckIncludeQuotes, CheckLicenses, line)
  {
    hide IncludesWithBrackets, LicenseText;
    if !CheckLicenses(line).compliant && CheckLicenses(line).fixed != "" {
      var p, m, q := ShortForm(line);
      hide CheckLicenses;
      NoInclude(p, m, q);
    }
  }

  /** The short form of the licence in its surroundings. */
  lemma ShortForm(line: string) returns (p: string, m: string, q: string)
    requires !CheckLicenses(line).compliant && CheckLicenses(line).fixed != ""
    ensures CheckLicenses(line).fixed == p + m + q && NoSolid(p)
    ensures m != "" && m[0] == 'S' && '\t' !in m && ('\t' !in line ==> '\t' !in p && '\t' !in q)
  {
    p, q := LicensesFix(line);
    m := SPDX_LICENSE;
    hide LicenseText, Replace;
    SpdxEnds();
    SpdxChars();
  }

  lemma NoInclude(p: string, m: string, q: string)
    requires NoSolid(p) && m != "" && m[0] == 'S'
    ensures !IncludesWithBrackets(p + m + q)
  {
    hide Contains;
    var fixed := p + m + q;
    assert NS3_INCLUDE[0] == '#' && NS3_INCLUDE[1] == 'i' && Solid('i');
    assert |p| >= 2 ==> fixed[1] == p[1];
    assert |p| == 1 ==> fixed[1] == m[0];
    assert |p| == 0 ==> fixed[0] == m[0];
  }

  lemma SpdxChars()
    ensures '\t' !in SPDX_LICENSE
  {
    assert SPDX_LICENSE == "SPDX-License-Identifier: " + "GPL-2.0-only";
  }

  /** Where only white space and comment signs stand before an S, there is no tag. */
  lemma NoTagBefore(isWord: char -> bool, p: string, rest: string)
    requires NoSolid(p) && rest != "" && Solid(rest[0]) && rest[0] != '\\' && '\\' !in p
    ensures FindTag(isWord, p + rest) == ""
  {
    var line := p + rest;
    if FindTag(isWord, line) != "" {
      var a, marker, b, r := TagSplit(isWord, line);
      var k := |a + marker + b|;
      assert line[k] == '\\';
      assert forall i :: 0 <= i < k ==> line[i] == (a + marker + b)[i];
      assert k > |p|;
      assert line[|p|] == rest[0] && (a + marker + b)[|p|] == rest[0];
      MarkerNotSolid(a, marker, b, |p|);
    }
  }

  lemma MarkerNotSolid(a: string, marker: string, b: string, k: nat)
    requires AllIn(Space, a) && AllIn(Space, b) && (marker == "*" || marker == "/**" || marker == "///")
    requires k < |a + marker + b|
    ensures !Solid((a + marker + b)[k])
  {
    if k < |a| {
    } else if k < |a| + |marker| {
      assert (a + marker + b)[k] == marker[k - |a|];
    } else {
      assert (a + marker + b)[k] == b[k - |a| - |marker|];
    }
  }

  lemma LicenseKeepsTags(isWord: char -> bool, line: string)
    ensures Keeps(l => CheckDoxygenTags(isWord, l), CheckLicenses, line)
  {
    hide FindTag, LicenseText, Replace;
    if !CheckLicenses(line).compliant && CheckLicenses(line).fixed != "" {
      var p, m, q := ShortForm(line);
      hide CheckLicenses;
      assert '\\' !in p by { assert Solid('\\'); }
      NoTagBefore(isWord, p, m + q);
      assert p + (m + q) == p + m + q;
    }
  }
}
