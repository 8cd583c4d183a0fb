/** The whole run of check_style_clang_format with --fix on one file, for any selection of the
    checks that go through check_manually_file: whether a check run after it is clean.
 */
module FixAll {
  import opened Text
  import opened StyleChecker
  import opened FixThenCheck
  import opened LineChecks
  import opened LicenseWords
  import opened FixSequence
  import opened FixPairs
  import opened TabPairs
  import opened HiddenLicense

  /** The place of a check in the run. */
  function Rank(check: StyleCheck): nat {
    match check
    case IncludeQuotes => 0
    case DoxygenTags => 1
    case License => 2
    case Emacs => 3
    case Whitespace => 4
    case Tabs => 5
  }

  /** A selection of the checks, in the order of the run. */
  ghost predicate Ascending(checks: seq<StyleCheck>) {
    forall i, j :: 0 <= i < j < |checks| ==> Rank(checks[i]) < Rank(checks[j])
  }

  function FixOne(isWord: char -> bool, check: StyleCheck, text: string): string {
    FixedText(LineCheckerOf(isWord, check), RespectsGuards(check), text)
  }

  /** The text after the fixes of all selected checks. */
  function FixSelected(isWord: char -> bool, checks: seq<StyleCheck>, text: string): string {
    if checks == [] then text
    else FixOne(isWord, checks[|checks| - 1], FixSelected(isWord, checks[..|checks| - 1], text))
  }

  ghost predicate Passes(isWord: char -> bool, check: StyleCheck, text: string) {
    Violations(LineCheckerOf(isWord, check), RespectsGuards(check), true, ReadLines(text), 0) == []
  }

  ghost predicate AllPass(isWord: char -> bool, checks: seq<StyleCheck>, text: string) {
    forall check :: check in checks ==> Passes(isWord, check, text)
  }

  // ----- pairs of checks

  /** A text that passes `check` may stop to pass it when `fixer` is done. */
  predicate MayUpset(check: StyleCheck, fixer: StyleCheck) {
    check == fixer || (check == License && fixer == Tabs)
    || (check != Tabs && Rank(check) > Rank(fixer))
  }

  lemma NoUpset(isWord: char -> bool, check: StyleCheck, fixer: StyleCheck)
    requires WordsHaveNoSpace(isWord) && !MayUpset(check, fixer)
    ensures Harmless(LineCheckerOf(isWord, check), RespectsGuards(check),
                     LineCheckerOf(isWord, fixer), RespectsGuards(fixer))
  {
    var c, f := LineCheckerOf(isWord, check), LineCheckerOf(isWord, fixer);
    CheckRepairs(isWord, fixer);
    hide RepairsLines, IsLine;
    forall line | IsLine(line) ensures Keeps(c, f, line) {
      LineKept(isWord, check, fixer, line);
    }
    forall line | IsLine(line) && !RespectsGuards(fixer) ensures LeavesGuards(f, line) {
      WhitespaceLeavesGuards(line);
    }
  }

  lemma LineKept(isWord: char -> bool, check: StyleCheck, fixer: StyleCheck, line: string)
    requires WordsHaveNoSpace(isWord) && !MayUpset(check, fixer)
    ensures Keeps(LineCheckerOf(isWord, check), LineCheckerOf(isWord, fixer), line)
  {
    hide CheckIncludeQuotes, CheckLicenses, CheckWhitespace, CheckTabs, CheckDoxygenTags;
    match fixer
    case IncludeQuotes => QuotesKeepTabs(line);
    case DoxygenTags => TagsKeep(isWord, line);
    case License => LicenseKeeps(line); LicenseKeepsTags(isWord, line);
    case Emacs =>
    case Whitespace => WhitespaceKeeps(isWord, line); WhitespaceKeepsInclude(line);
    case Tabs =>
      TabsKeepInclude(line);
      TabsKeepTags(isWord, line);
      TabsKeepEmacs(line);
      TabsKeepWhitespace(line);
  }

  lemma StillPasses(isWord: char -> bool, check: StyleCheck, fixer: StyleCheck, text: string)
    requires WordsHaveNoSpace(isWord) && !MayUpset(check, fixer) && Passes(isWord, check, text)
    ensures Passes(isWord, check, FixOne(isWord, fixer, text))
  {
    hide Harmless, LineCheckerOf, RespectsGuards;
    NoUpset(isWord, check, fixer);
    FixKeepsClean(LineCheckerOf(isWord, check), RespectsGuards(check), LineCheckerOf(isWord, fixer),
                  RespectsGuards(fixer), text);
  }

  lemma PassesAfterOwnFix(isWord: char -> bool, check: StyleCheck, text: string)
    requires WordsHaveNoSpace(isWord)
    ensures Passes(isWord, check, FixOne(isWord, check, text))
    ensures Passes(isWord, check, text) ==> FixOne(isWord, check, text) == text
  {
    EveryCheckFixes(isWord, check, text);
  }

  // ----- the run

  /** Up to the tab check, a run leaves behind a text that passes all its checks; the tab check
      can only upset the licence check. */
  lemma {:induction false} AllButLicense(isWord: char -> bool, checks: seq<StyleCheck>, text: string, check: StyleCheck)
    requires WordsHaveNoSpace(isWord) && Ascending(checks) && check in checks
    requires Tabs in checks ==> check != License
    ensures Passes(isWord, check, FixSelected(isWord, checks, text))
  {
    hide Passes, FixOne;
    var last := |checks| - 1;
    var front := FixSelected(isWord, checks[..last], text);
    if check == checks[last] {
      PassesAfterOwnFix(isWord, check, front);
    } else {
      var i :| 0 <= i < |checks| && checks[i] == check;
      assert check == checks[..last][i] && Rank(check) < Rank(checks[last]);
      AllButLicense(isWord, checks[..last], text, check);
      StillPasses(isWord, check, checks[last], front);
    }
  }

  /** On lines that the licence check accepts, the tab fix makes it reject exactly those that
      hide the licence. */
  lemma {:induction false} LicenseAfterTabs(enabled: bool, after: bool, lines: seq<string>,
                                            number: nat, numberAfter: nat)
    requires forall i :: 0 <= i < |lines| ==> IsLine(lines[i])
    requires after ==> enabled
    requires Violations(CheckLicenses, true, enabled, lines, number) == []
    ensures Violations(CheckLicenses, true, after, NonEmpty(Rewrite(CheckTabs, true, enabled, lines)), numberAfter)
            == []
            <==> !HidesIn(enabled, after, lines)
    decreases |lines|
  {
    if lines == [] {
    } else {
      hide Next, Processed, Fixed, HidesAt;
      var line, next := lines[0], Next(true, enabled, lines[0]);
      var first := After(CheckTabs, true, enabled, line);
      var rest := NonEmpty(Rewrite(CheckTabs, true, next, lines[1..]));
      TabLine(enabled, after, line);
      assert Rewrite(CheckTabs, true, enabled, lines) == [first] + Rewrite(CheckTabs, true, next, lines[1..]);
      LicenseAfterTabs(next, Next(true, after, first), lines[1..], number + 1, numberAfter + 1);
      assert ([first] + rest)[1..] == rest;
    }
  }

  lemma TabLine(enabled: bool, after: bool, line: string)
    requires IsLine(line) && (after ==> enabled)
    requires Processed(true, enabled, line) ==> CheckLicenses(line).compliant
    ensures var first := After(CheckTabs, true, enabled, line);
      && first != ""
      && (Next(true, after, first) ==> Next(true, enabled, line))
      && (Processed(true, after, first) && !CheckLicenses(first).compliant <==>
            HidesAt(line) && Processed(true, enabled, line) && Processed(true, after, first))
  {
    hide IsOn, IsOff, LicenseText, CheckLicenses, InLicense;
    var first := After(CheckTabs, true, enabled, line);
    LicenseVerdict(line);
    LicenseVerdict(first);
    TabsRepaired(line);
    TabLineKind(enabled, line);
    FixedLineIsClean(CheckTabs, true, enabled, after, line);
    ExpandTabsHead(line, 0);
    hide ExpandTabs;
  }

  /** The fixes before the tab check leave hidden lines hidden, and make none. */
  lemma FixerNeutral(isWord: char -> bool, check: StyleCheck, line: string)
    requires check != Tabs
    ensures Neutral(LineCheckerOf(isWord, check), line)
  {
    hide CheckIncludeQuotes, CheckLicenses, CheckWhitespace, CheckTabs, CheckDoxygenTags, CheckEmacs;
    hide SameKind, HidesAt, ExpandTabs, IsOn, IsOff;
    match check
    case IncludeQuotes => QuotesNeutral(line);
    case DoxygenTags => TagsNeutral(isWord, line);
    case License => LicenseNeutral(line);
    case Emacs => EmacsNeutral(line);
    case Whitespace => WhitespaceNeutral(line);
  }

  lemma {:induction false} HiddenThroughout(isWord: char -> bool, checks: seq<StyleCheck>, text: string)
    requires WordsHaveNoSpace(isWord) && Tabs !in checks
    ensures HidesIn(true, true, ReadLines(FixSelected(isWord, checks, text))) == HidesIn(true, true, ReadLines(text))
  {
    if checks == [] {
    } else {
      hide Neutral, HidesIn, ReadLines, FixedText, LineCheckerOf, RespectsGuards;
      var check, front := checks[|checks| - 1], FixSelected(isWord, checks[..|checks| - 1], text);
      var fixer := LineCheckerOf(isWord, check);
      HiddenThroughout(isWord, checks[..|checks| - 1], text);
      CheckRepairs(isWord, check);
      FixedLines(fixer, RespectsGuards(check), front);
      ReadLinesConcat(front);
      forall line | IsLine(line) ensures Neutral(fixer, line) { FixerNeutral(isWord, check, line); }
      HiddenStays(fixer, RespectsGuards(check), true, true, true, ReadLines(front));
    }
  }

  /** After a run with --fix, a check run with the same selection is clean, unless the licence and
      the tab check are both selected and the file that was handed in hides a line of the licence. */
  lemma CleanIff(isWord: char -> bool, checks: seq<StyleCheck>, text: string)
    requires WordsHaveNoSpace(isWord) && Ascending(checks)
    ensures AllPass(isWord, checks, FixSelected(isWord, checks, text)) <==>
            !(License in checks && Tabs in checks && HidesIn(true, true, ReadLines(text)))
  {
    hide Passes, HidesIn;
    var fixed := FixSelected(isWord, checks, text);
    forall check | check in checks && (Tabs in checks ==> check != License) ensures Passes(isWord, check, fixed) {
      AllButLicense(isWord, checks, text, check);
    }
    if License in checks && Tabs in checks {
      LicenseIff(isWord, checks, text);
    }
  }

  lemma LicenseIff(isWord: char -> bool, checks: seq<StyleCheck>, text: string)
    requires WordsHaveNoSpace(isWord) && Ascending(checks) && License in checks && Tabs in checks
    ensures Passes(isWord, License, FixSelected(isWord, checks, text)) <==> !HidesIn(true, true, ReadLines(text))
  {
    hide CheckLicenses, CheckTabs, ReadLines, FixedText, Violations, HidesIn;
    TabsLast(checks);
    var last := |checks| - 1;
    var before := FixSelected(isWord, checks[..last], text);
    AllButLicense(isWord, checks[..last], text, License);
    CheckRepairs(isWord, Tabs);
    FixedLines(CheckTabs, true, before);
    ReadLinesConcat(before);
    LicenseAfterTabs(true, true, ReadLines(before), 0, 0);
    HiddenThroughout(isWord, checks[..last], text);
  }

  lemma TabsLast(checks: seq<StyleCheck>)
    requires Ascending(checks) && License in checks && Tabs in checks
    ensures var last := |checks| - 1;
      checks[last] == Tabs && License in checks[..last] && Tabs !in checks[..last] && Ascending(checks[..last])
  {
    var last := |checks| - 1;
    var i :| 0 <= i < |checks| && checks[i] == License;
    var j :| 0 <= j < |checks| && checks[j] == Tabs;
    assert Rank(checks[last]) <= Rank(Tabs);
    assert j == last && checks[..last][i] == License;
  }

  // ----- a second run

  /** A second run always helps: its licence check sees the expanded lines, and no tabs are left
      for its tab check. */
  lemma TwoRunsAreClean(isWord: char -> bool, checks: seq<StyleCheck>, text: string)
    requires WordsHaveNoSpace(isWord) && Ascending(checks)
    ensures AllPass(isWord, checks, FixSelected(isWord, checks, FixSelected(isWord, checks, text)))
  {
    hide Passes, FixOne;
    var once := FixSelected(isWord, checks, text);
    var twice := FixSelected(isWord, checks, once);
    forall check | check in checks ensures Passes(isWord, check, twice) {
      if check == License && Tabs in checks {
        TabsLast(checks);
        var front := checks[..|checks| - 1];
        AllButLicense(isWord, checks, text, Tabs);
        NoTabsComeBack(isWord, front, once);
        PassesAfterOwnFix(isWord, Tabs, FixSelected(isWord, front, once));
        AllButLicense(isWord, front, once, License);
      } else {
        AllButLicense(isWord, checks, once, check);
      }
    }
  }

  lemma {:induction false} NoTabsComeBack(isWord: char -> bool, checks: seq<StyleCheck>, text: string)
    requires WordsHaveNoSpace(isWord) && Tabs !in checks && Passes(isWord, Tabs, text)
    ensures Passes(isWord, Tabs, FixSelected(isWord, checks, text))
  {
    hide Passes, FixOne;
    if checks == [] {
    } else {
      var last := |checks| - 1;
      NoTabsComeBack(isWord, checks[..last], text);
      StillPasses(isWord, Tabs, checks[last], FixSelected(isWord, checks[..last], text));
    }
  }
}
