/** Lines of the licence that a tab hides from the licence check of
    utils/check-style-clang-format.py: the fixes before the tab check leave them where they are.
 */
module HiddenLicense {
  import opened Text
  import opened StyleChecker
  import opened FixThenCheck
  import opened LineChecks
  import opened LineFixes
  import opened LicenseWords
  import opened FixSequence
  import opened FixPairs
  import opened TabPairs

  /** No line of the licence, but one once its tabs are expanded. */
  ghost predicate HidesAt(line: string) {
    !InLicense(LicenseText(line)) && InLicense(LicenseText(ExpandTabs(line, 0)))
  }

  /** Some such line is enabled both before the tab fix and after it. The two states follow the
      guards of the text and those of the text after the tab fix, which may be more. */
  ghost predicate HidesIn(enabled: bool, after: bool, lines: seq<string>)
    decreases |lines|
  {
    lines != [] &&
    var line := lines[0];
    var first := After(CheckTabs, true, enabled, line);
    || (HidesAt(line) && Processed(true, enabled, line) && Processed(true, after, first))
    || HidesIn(Next(true, enabled, line), Next(true, after, first), lines[1..])
  }

  // ----- one fixed line

  ghost predicate SameKind(a: string, b: string) {
    (IsOn(a) <==> IsOn(b)) && (IsOff(a) <==> IsOff(b))
  }

  /** A fix changes nothing that matters for hidden lines: a dropped line is none, and no guard
      either before or after tabs are expanded; any other line stays of its kind. */
  ghost predicate Neutral(fixer: LineChecker, line: string) {
    var fixed := fixer(line).fixed;
    !fixer(line).compliant ==>
    if fixed == "" then !IsGuard(line) && !IsGuard(ExpandTabs(line, 0)) && !HidesAt(line)
    else
      && SameKind(fixed, line) && SameKind(ExpandTabs(fixed, 0), ExpandTabs(line, 0))
      && (HidesAt(fixed) <==> HidesAt(line))
  }

  /** A line with a character that is neither in a guard nor in the licence. */
  lemma ForeignLine(line: string, c: char)
    requires c in line && Solid(c) && !GuardChar(c) && !Plain(c)
    ensures !IsGuard(line) && !IsGuard(ExpandTabs(line, 0)) && !HidesAt(line)
  {
    ExpandKeepsChar(line, 0, c);
    NoGuardWith(line, c);
    NoGuardWith(ExpandTabs(line, 0), c);
    NoLicenseWith(ExpandTabs(line, 0), c);
  }

  lemma QuotesNeutral(line: string)
    ensures Neutral(CheckIncludeQuotes, line)
  {
    hide HidesAt, IsOn, IsOff, ExpandTabs;
    if !CheckIncludeQuotes(line).compliant {
      IncludeQuotesFix(line);
      hide Contains, Replace;
      var fixed := CheckIncludeQuotes(line).fixed;
      assert NS3_INCLUDE[9] == '<' && line[9] == '<' && fixed[9] == '"';
      ForeignLine(line, '<');
      ForeignLine(fixed, '"');
    }
  }

  lemma TagsNeutral(isWord: char -> bool, line: string)
    ensures Neutral(l => CheckDoxygenTags(isWord, l), line)
  {
    hide HidesAt, IsOn, IsOff, ExpandTabs, FindTag;
    if !CheckDoxygenTags(isWord, line).compliant {
      var p, marker, q, rest := DoxygenTagsFix(isWord, line);
      TagHasBackslash(isWord, line);
      hide Replace;
      var front, fixed := p + marker + q, CheckDoxygenTags(isWord, line).fixed;
      assert fixed[|front|] == '@';
      ForeignLine(line, '\\');
      ForeignLine(fixed, '@');
    }
  }

  lemma TagHasBackslash(isWord: char -> bool, line: string)
    requires FindTag(isWord, line) != ""
    ensures '\\' in line
  {
    var p, marker, q, rest := TagSplit(isWord, line);
    assert line[|p + marker + q|] == '\\';
  }

  lemma LicenseNeutral(line: string)
    ensures Neutral(CheckLicenses, line)
  {
    LicenseVerdict(line);
    if !CheckLicenses(line).compliant {
      LicenseIsNoGuard(line);
      hide IsOn, IsOff, ExpandTabs, LicenseText, InLicense;
      if CheckLicenses(line).fixed != "" {
        var fixed := CheckLicenses(line).fixed;
        ShortFormMark(line);
        hide CheckLicenses;
        ForeignLine(fixed, 'X');
      }
    }
  }

  lemma LicenseVerdict(line: string)
    ensures CheckLicenses(line).compliant <==> !InLicense(LicenseText(line))
  {
    hide LicenseText, Replace;
  }

  lemma ShortFormMark(line: string)
    requires !CheckLicenses(line).compliant && CheckLicenses(line).fixed != ""
    ensures 'X' in CheckLicenses(line).fixed
  {
    hide CheckLicenses, LicenseText, Replace;
    var p, q := LicensesFix(line);
    assert SPDX_LICENSE[3] == ("SPDX-License-Identifier: ")[3] == 'X';
    assert (p + SPDX_LICENSE + q)[|p| + 3] == 'X';
  }

  /** A line of the licence is too long for a guard, also with its tabs expanded. */
  lemma LicenseIsNoGuard(line: string)
    requires InLicense(LicenseText(line))
    ensures !IsGuard(line) && !IsGuard(ExpandTabs(line, 0))
  {
    GplLineLength(LicenseText(line));
    LicenseTextShorter(line);
    var column := StripExpanded(line);
    ExpandNotShorter(Strip(Space, line), column);
    hide LicenseText, Strip, ExpandTabs, IsOn, IsOff;
    if IsGuard(line) { GuardChars(line); }
    if IsGuard(ExpandTabs(line, 0)) { GuardChars(ExpandTabs(line, 0)); }
  }

  lemma {:induction false} ExpandNotShorter(s: string, column: nat)
    ensures |ExpandTabs(s, column)| >= |s|
  {
    if s == "" {
    } else {
      TabWidth(column);
      ExpandNotShorter(s[1..], NextColumn(s[0], column));
    }
  }

  lemma EmacsNeutral(line: string)
    ensures Neutral(CheckEmacs, line)
  {
    hide HidesAt, IsOn, IsOff, ExpandTabs;
    if !CheckEmacs(line).compliant {
      EmacsPatterns(Strip(Space, line));
      EmacsColon(Strip(Space, line));
      var p, q := StripSplit(Space, line);
      hide Strip, Contains;
      assert 'y' in line && ':' in line;
      EmacsLine(line);
    }
  }

  lemma EmacsColon(s: string)
    requires Contains(s, "c-file-style:") || Contains(s, "py-indent-offset:")
    ensures ':' in s
  {
    hide Contains;
    if Contains(s, "c-file-style:") {
      assert "c-file-style:"[12] == ':';
      ContainsChars(s, "c-file-style:", ':');
    } else {
      assert "py-indent-offset:"[16] == ':';
      ContainsChars(s, "py-indent-offset:", ':');
    }
  }

  /** No guard has a y, and no line of the licence a colon. */
  lemma EmacsLine(line: string)
    requires 'y' in line && ':' in line
    ensures !IsGuard(line) && !IsGuard(ExpandTabs(line, 0)) && !HidesAt(line)
  {
    ExpandKeepsChar(line, 0, 'y');
    ExpandKeepsChar(line, 0, ':');
    NoGuardWith(line, 'y');
    NoGuardWith(ExpandTabs(line, 0), 'y');
    NoLicenseWith(ExpandTabs(line, 0), ':');
  }

  // ----- trailing white space

  lemma {:induction false} RStripMore(s: string, q: string)
    requires AllIn(Space, q)
    ensures RStrip(Space, s + q) == RStrip(Space, s)
  {
    if q == "" {
      assert s + q == s;
    } else {
      assert (s + q)[..|s| + |q| - 1] == s + q[..|q| - 1];
      RStripMore(s, q[..|q| - 1]);
    }
  }

  /** Trailing white space matters neither before nor after tabs are expanded. */
  lemma SameBody(body: string, q: string, r: string)
    requires AllIn(Space, q) && AllIn(Space, r)
    ensures Strip(Space, body + q) == Strip(Space, body + r)
    ensures Strip(Space, ExpandTabs(body + q, 0)) == Strip(Space, ExpandTabs(body + r, 0))
  {
    RStripMore(body, q);
    RStripMore(body, r);
    ExpandTabsConcat(body, q, 0);
    ExpandTabsConcat(body, r, 0);
    ExpandTabsSpace(q, Column(body, 0));
    ExpandTabsSpace(r, Column(body, 0));
    hide ExpandTabs, Column, RStrip, LStrip;
    RStripMore(ExpandTabs(body, 0), ExpandTabs(q, Column(body, 0)));
    RStripMore(ExpandTabs(body, 0), ExpandTabs(r, Column(body, 0)));
  }

  lemma WhitespaceNeutral(line: string)
    ensures Neutral(CheckWhitespace, line)
  {
    var body, trailing := WhitespaceFix(line);
    assert AllIn(Space, "\n");
    SameBody(body, trailing, "\n");
    hide RStrip, Strip, ExpandTabs, InLicense;
    SameGuard(line, body + "\n");
    SameGuard(ExpandTabs(line, 0), ExpandTabs(body + "\n", 0));
  }

  // ----- a fixed text

  lemma TabLineKind(enabled: bool, line: string)
    ensures After(CheckTabs, true, enabled, line)
         == if Processed(true, enabled, line) then ExpandTabs(line, 0) else line
  {
    ExpandTabsNoTab(line, 0);
    hide ExpandTabs, IsOn, IsOff;
  }

  /** One line more, fixed or not, dropped or not. */
  lemma LineStaysHidden(fixer: LineChecker, enabled: bool, after: bool, line: string, first: string)
    requires first == line || (first == Fixed(fixer, line) && Neutral(fixer, line))
    ensures var tabs, fixedTabs := After(CheckTabs, true, enabled, line), After(CheckTabs, true, enabled, first);
      if first == "" && line != "" then
        && Next(true, enabled, line) == enabled && Next(true, after, tabs) == after && !HidesAt(line)
      else
        && Next(true, enabled, first) == Next(true, enabled, line)
        && Next(true, after, fixedTabs) == Next(true, after, tabs)
        && (HidesAt(first) && Processed(true, enabled, first) && Processed(true, after, fixedTabs) <==>
              HidesAt(line) && Processed(true, enabled, line) && Processed(true, after, tabs))
  {
    hide IsOn, IsOff, ExpandTabs, HidesAt;
    TabLineKind(enabled, line);
    TabLineKind(enabled, first);
  }

  lemma {:induction false} HiddenStays(fixer: LineChecker, respect: bool, enabledFixer: bool,
                                       enabled: bool, after: bool, lines: seq<string>)
    requires forall i :: 0 <= i < |lines| ==> IsLine(lines[i])
    requires forall line :: IsLine(line) ==> Neutral(fixer, line)
    ensures HidesIn(enabled, after, NonEmpty(Rewrite(fixer, respect, enabledFixer, lines)))
         == HidesIn(enabled, after, lines)
    decreases |lines|
  {
    if lines == [] {
    } else {
      hide Next, Processed, Fixed, HidesAt, Neutral;
      var line, nextFixer := lines[0], Next(respect, enabledFixer, lines[0]);
      var first := After(fixer, respect, enabledFixer, line);
      var rest := NonEmpty(Rewrite(fixer, respect, nextFixer, lines[1..]));
      var tabs := After(CheckTabs, true, enabled, line);
      assert IsLine(line);
      LineStaysHidden(fixer, enabled, after, line, first);
      assert Rewrite(fixer, respect, enabledFixer, lines) == [first] + Rewrite(fixer, respect, nextFixer, lines[1..]);
      hide After;
      if first == "" {
        assert NonEmpty(Rewrite(fixer, respect, enabledFixer, lines)) == rest;
        HiddenStays(fixer, respect, nextFixer, enabled, after, lines[1..]);
      } else {
        HiddenStays(fixer, respect, nextFixer, Next(true, enabled, line), Next(true, after, tabs), lines[1..]);
        assert ([first] + rest)[1..] == rest;
      }
    }
  }
}
