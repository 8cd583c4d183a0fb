/** A file that one run of utils/check-style-clang-format.py with --fix does not leave clean: a
    line of the licence with a tab in it.
 */
module HiddenFile {
  import opened Text
  import opened StyleChecker
  import opened FixThenCheck
  import opened LineChecks
  import opened LineFixes
  import opened LicenseWords
  import opened HiddenLicense
  import opened FixAll

  const ALL_CHECKS: seq<StyleCheck> := [IncludeQuotes, DoxygenTags, License, Emacs, Whitespace, Tabs]

  /** The first line of the licence as the only line of a file, with a tab behind its first word.
      The tab stands at column 7, so it becomes one space. */
  function TheFile(text: string): string
    requires |text| == 68
  {
    " * This" + "\t" + text[5..] + "\n"
  }

  /** The first line of the licence starts with its word "This". */
  lemma FirstWord()
    ensures var text := GPL_LICENSE_LINES[0];
      |text| == 68 && text[..5] == "This "
  {
    LicenseEnds();
    var a, b, c := "This program is free software; ", "you can redistribute it", " and/or modify";
    assert GPL_LICENSE_LINES[0] == a + b + c;
    assert (a + b + c)[..5] == a[..5] == "This ";
  }

  predicate Tame(s: string) {
    '\t' !in s && '\n' !in s && '\r' !in s && '\\' !in s && ':' !in s
  }

  lemma PlainIsTame(text: string)
    requires AllPlain(text)
    ensures Tame(text)
  {
  }

  lemma CommentFront()
    ensures LStrip(Space, LStrip(Comment, LStrip(Space, " * "))) == "" && LStrip(Space, " ") == ""
    ensures NoSolid(" * ")
  {
    assert " * "[1..] == "* " && "* "[1..] == " " && " "[1..] == "";
  }

  lemma LineEnd()
    ensures RStrip(Space, RStrip(Comment, RStrip(Space, "\n"))) == "" && RStrip(Space, "\n") == ""
  {
    assert "\n"[..0] == "";
  }

  /** The surroundings of a licence line in a block comment. */
  lemma InComment(m: string)
    requires m != "" && Solid(m[0]) && Solid(m[|m| - 1])
    ensures LicenseText(" * " + m + "\n") == m
    ensures Strip(Space, " * " + m + "\n") == "* " + m
    ensures RStrip(Space, " * " + m + "\n") == " * " + m
  {
    hide LicenseText, Strip, LStrip, RStrip;
    CommentFront();
    LineEnd();
    LicenseMid(" * ", m, "\n");
    assert "" + m + "" == m;
    StripComment(m);
  }

  lemma StripComment(m: string)
    requires m != "" && Solid(m[|m| - 1])
    ensures Strip(Space, " * " + m + "\n") == "* " + m
    ensures RStrip(Space, " * " + m + "\n") == " * " + m
  {
    hide Strip, LStrip, RStrip, In;
    CommentSplit(m);
    StarIsNoSpace();
    StripAround("* " + m);
  }

  lemma CommentSplit(m: string)
    requires m != ""
    ensures " * " + m == " " + ("* " + m)
    ensures var n := "* " + m;
      n[0] == '*' && n[|n| - 1] == m[|m| - 1]
  {
    assert " * " == " " + "* ";
  }

  lemma StarIsNoSpace()
    ensures !In(Space, '*')
  {
  }

  lemma StripAround(n: string)
    requires n != "" && !In(Space, n[0]) && !In(Space, n[|n| - 1])
    ensures Strip(Space, " " + n + "\n") == n && RStrip(Space, " " + n + "\n") == " " + n
  {
    hide Strip, LStrip, RStrip, In;
    CommentFront();
    LineEnd();
    StripMid(Space, " ", n, "\n");
    assert "" + n + "" == n;
    RStripMid(Space, " " + n, "\n");
    assert " " + n + "" == " " + n;
  }

  /** The line passes the first five checks, and hides the licence. */
  lemma HiddenLine(isWord: char -> bool, line: string, m: string)
    requires line == " * " + m + "\n" && m != "" && Solid(m[0]) && Solid(m[|m| - 1])
    requires '\t' in m && '\n' !in m && '\\' !in m && ':' !in m && !InLicense(m)
    ensures !IsGuard(line) && IsLine(line)
    ensures CheckIncludeQuotes(line).compliant && CheckDoxygenTags(isWord, line).compliant
    ensures CheckLicenses(line).compliant && CheckEmacs(line).compliant && CheckWhitespace(line).compliant
  {
    hide LicenseText, Strip, RStrip, FindTag, Contains, GuardShape, CheckLicenses, InLicense;
    InComment(m);
    LicenseVerdict(line);
    assert line[0] == ' ' && NS3_INCLUDE[0] == '#';
    if FindTag(isWord, line) != "" { TagHasBackslash(isWord, line); }
    if Contains("* " + m, "c-file-style:") { ColonIn("* " + m, "c-file-style:"); }
    if Contains("* " + m, "py-indent-offset:") { ColonIn("* " + m, "py-indent-offset:"); }
    if IsGuard(line) {
      GuardChars(line);
      NoTabInGuard("* " + m);
    }
  }

  lemma NoTabInGuard(g: string)
    requires GuardShape(g)
    ensures '\t' !in g
  {
  }

  lemma ColonIn(s: string, t: string)
    requires (t == "c-file-style:" || t == "py-indent-offset:") && Contains(s, t)
    ensures ':' in s
  {
    assert t[|t| - 1] == ':';
    ContainsChars(s, t, ':');
  }

  lemma OtherLengths()
    ensures forall i :: 1 <= i < |GPL_LICENSE_LINES| ==> |GPL_LICENSE_LINES[i]| != 68
  {
  }

  // ----- a file of one line

  lemma OneLineFile(line: string)
    requires IsLine(line)
    ensures ReadLines(line) == [line]
  {
    assert [line][1..] == [] && Concat([line]) == line + "";
    assert line + "" == line;
    ConcatReadLines([line]);
  }

  lemma OneLineLoop(check: LineChecker, respect: bool, line: string)
    ensures Violations(check, respect, true, [line], 0) == if check(line).compliant then [] else [0]
    ensures Concat(Rewrite(check, respect, true, [line])) == Fixed(check, line)
  {
    hide IsOn, IsOff;
    var none: seq<string> := [];
    assert [line][1..] == none && Processed(respect, true, line);
    assert Rewrite(check, respect, true, [line]) == [Fixed(check, line)];
    assert [Fixed(check, line)][1..] == none;
    assert Concat([Fixed(check, line)]) == Fixed(check, line) + "";
    assert Fixed(check, line) + "" == Fixed(check, line);
  }

  lemma OneLineFix(isWord: char -> bool, check: StyleCheck, line: string)
    requires IsLine(line)
    ensures var r := LineCheckerOf(isWord, check)(line);
      && (r.compliant <==> Passes(isWord, check, line))
      && FixOne(isWord, check, line) == if r.compliant then line else r.fixed
  {
    hide LineCheckerOf, RespectsGuards, Violations, Rewrite, Concat, ReadLines;
    OneLineFile(line);
    OneLineLoop(LineCheckerOf(isWord, check), RespectsGuards(check), line);
  }

  lemma {:induction false} NothingToFix(isWord: char -> bool, checks: seq<StyleCheck>, line: string)
    requires IsLine(line) && forall check :: check in checks ==> LineCheckerOf(isWord, check)(line).compliant
    ensures FixSelected(isWord, checks, line) == line
  {
    hide FixOne, LineCheckerOf;
    if checks == [] {
    } else {
      NothingToFix(isWord, checks[..|checks| - 1], line);
      OneLineFix(isWord, checks[|checks| - 1], line);
    }
  }

  /** The six checks on that line. */
  lemma HiddenRun(isWord: char -> bool, line: string, final: string)
    requires IsLine(line) && IsLine(final)
    requires CheckIncludeQuotes(line).compliant && CheckDoxygenTags(isWord, line).compliant
    requires CheckLicenses(line).compliant && CheckEmacs(line).compliant && CheckWhitespace(line).compliant
    requires !CheckTabs(line).compliant && CheckTabs(line).fixed == final && !CheckLicenses(final).compliant
    ensures FixSelected(isWord, ALL_CHECKS, line) == final && !Passes(isWord, License, final)
  {
    hide CheckIncludeQuotes, CheckDoxygenTags, CheckLicenses, CheckEmacs, CheckWhitespace, CheckTabs, Passes, FixOne;
    var front := ALL_CHECKS[..5];
    assert front == [IncludeQuotes, DoxygenTags, License, Emacs, Whitespace] && ALL_CHECKS[5] == Tabs;
    NothingToFix(isWord, front, line);
    assert FixSelected(isWord, ALL_CHECKS, line) == FixOne(isWord, Tabs, line);
    OneLineFix(isWord, Tabs, line);
    OneLineFix(isWord, License, final);
  }

  /** The tab fix of that line. */
  lemma HiddenFix(text: string)
    requires |text| == 68 && text[..5] == "This " && Tame(text)
    ensures var line := TheFile(text);
      !CheckTabs(line).compliant && CheckTabs(line).fixed == " * " + text + "\n"
  {
    hide ExpandTabs;
    var rest := text[5..];
    PlainHead();
    assert text == "This " + rest;
    TabBecomesSpace(" * This", rest + "\n");
    assert TheFile(text) == " * This" + "\t" + (rest + "\n");
    assert " * " + text + "\n" == " * This" + " " + (rest + "\n");
    assert TheFile(text)[7] == '\t';
  }

  lemma HiddenText(isWord: char -> bool, text: string)
    requires |text| == 68 && text[..5] == "This " && Solid(text[67]) && Tame(text)
    requires InLicense(text) && forall t :: InLicense(t) && |t| == 68 ==> t == text
    ensures var line := TheFile(text);
      && FixSelected(isWord, ALL_CHECKS, line) == " * " + text + "\n"
      && !Passes(isWord, License, " * " + text + "\n")
  {
    hide FixSelected, Passes, CheckTabs, FindTag, Contains, Strip, RStrip, LicenseText, InLicense, CheckLicenses;
    hide CheckIncludeQuotes, CheckDoxygenTags, CheckEmacs, CheckWhitespace, TheFile, Tame;
    var m, final := "This" + "\t" + text[5..], " * " + text + "\n";
    HiddenFix(text);
    HiddenWord(text, m);
    InComment(text);
    LicenseVerdict(final);
    HiddenLine(isWord, TheFile(text), m);
    HiddenRun(isWord, TheFile(text), final);
  }

  lemma PlainHead()
    ensures '\t' !in " * This" && '\n' !in " * This" && '\r' !in " * This" && |" * This"| == 7
    ensures Tame("This") && Solid("This"[0])
  {
  }

  lemma HiddenWord(text: string, m: string)
    requires |text| == 68 && text[..5] == "This " && Tame(text)
    requires m == "This" + "\t" + text[5..]
    ensures |m| == 68 && m != text && '\t' in m && '\n' !in m && '\\' !in m && ':' !in m
    ensures m[0] == 'T' && text[0] == 'T' && m[67] == text[67]
    ensures TheFile(text) == " * " + m + "\n" && IsLine(" * " + text + "\n")
  {
    PlainHead();
    assert m[4] == '\t' && text[4] == "This "[4] == ' ' && text[0] == "This "[0];
  }

  /** The line of the licence that the input is made of. */
  lemma TheLine() returns (text: string)
    ensures text == GPL_LICENSE_LINES[0] && InLicense(text)
    ensures |text| == 68 && text[..5] == "This " && Solid(text[67]) && Tame(text)
    ensures forall t :: InLicense(t) && |t| == 68 ==> t == text
  {
    FirstWord();
    LicenseEnds();
    OtherLengths();
    text := GPL_LICENSE_LINES[0];
    LicensePlain(text);
    PlainIsTame(text);
  }

  /** One run over this file leaves a line of the licence behind; see CleanIff for the files that
      it does leave clean. */
  lemma TabHidesLicense(isWord: char -> bool) returns (text: string)
    requires WordsHaveNoSpace(isWord)
    ensures Ascending(ALL_CHECKS)
    ensures |text| == 68 && InLicense(text)
    ensures FixSelected(isWord, ALL_CHECKS, TheFile(text)) == " * " + text + "\n"
    ensures !Passes(isWord, License, FixSelected(isWord, ALL_CHECKS, TheFile(text)))
  {
    hide InLicense, FixSelected, Passes, Tame;
    text := TheLine();
    HiddenText(isWord, text);
  }
}
