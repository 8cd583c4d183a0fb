/** The line checkers of utils/check-style-clang-format.py, each with the proof that it repairs
    the lines it rejects.
 */
module LineChecks {
  import opened Text
  import opened StyleChecker
  import opened FixThenCheck

  // ----- guards and the line checkers

  /** What all guards have in common. */
  ghost predicate GuardShape(g: string) {
    && 8 <= |g| <= 19
    && (forall i :: 0 <= i < |g| ==> g[i] != 'y' && g[i] != '\t' && g[i] != '\n' && g[i] != '\r')
    && !IsSpace(g[0]) && !IsSpace(g[|g| - 1])
    && ((g[0] == '#' && g[1] == ' ') || (g[0] == '/' && g[1] == '/' && g[2] == ' '))
  }

  lemma ClangOnShape() ensures GuardShape("// clang-format on") {}
  lemma CMakeOnShape() ensures GuardShape("# cmake-format: on") {}
  lemma FmtOnShape() ensures GuardShape("# fmt: on") {}
  lemma ClangOffShape() ensures GuardShape("// clang-format off") {}
  lemma CMakeOffShape() ensures GuardShape("# cmake-format: off") {}
  lemma FmtOffShape() ensures GuardShape("# fmt: off") {}

  lemma GuardChars(line: string)
    requires IsGuard(line)
    ensures GuardShape(Strip(Space, line))
  {
    hide GuardShape, Strip;
    ClangOnShape();
    CMakeOnShape();
    FmtOnShape();
    ClangOffShape();
    CMakeOffShape();
    FmtOffShape();
  }

  /** Only what stripping leaves decides whether a line is a guard, and which. */
  lemma SameGuard(line: string, other: string)
    requires Strip(Space, line) == Strip(Space, other)
    ensures (IsOn(line) <==> IsOn(other)) && (IsOff(line) <==> IsOff(other))
  {
  }

  // ----- tabs

  function CheckTabs(line: string): LineResult {
    if '\t' in line then LineResult(false, ExpandTabs(line, 0)) else LineResult(true, line)
  }

  lemma TabsRepaired(line: string)
    requires IsLine(line)
    ensures Repairs(CheckTabs, line)
  {
    var fixed := ExpandTabs(line, 0);
    if '\t' in line {
      ExpandTabsNoTab(line, 0);
      var last := |line| - 1;
      var body := line[..last];
      assert line == body + [line[last]];
      ExpandTabsConcat(body, [line[last]], 0);
      ExpandTabsNoTab(body, 0);
      LastCharExpands(line[last], Column(body, 0));
      if IsGuard(line) {
        GuardExpands(line);
        SameGuard(line, fixed);
      }
    }
  }

  lemma LastCharExpands(c: char, column: nat)
    ensures var s := ExpandTabs([c], column);
      s != "" && (c == '\n' ==> s == "\n") && (c != '\n' ==> '\n' !in s)
  {
  }

  lemma GuardExpands(line: string)
    requires IsGuard(line)
    ensures Strip(Space, ExpandTabs(line, 0)) == Strip(Space, line)
  {
    var g := Strip(Space, line);
    GuardChars(line);
    var p, q := StripSplit(Space, line);
    ExpandTabsConcat(p + g, q, 0);
    ExpandTabsConcat(p, g, 0);
    ExpandTabsNoTab(g, Column(p, 0));
    ExpandTabsSpace(p, 0);
    ExpandTabsSpace(q, Column(p + g, 0));
    StripPadded(ExpandTabs(p, 0), g, ExpandTabs(q, Column(p + g, 0)));
  }

  lemma StripPadded(p: string, m: string, q: string)
    requires AllIn(Space, p) && AllIn(Space, q)
    requires m != "" && !IsSpace(m[0]) && !IsSpace(m[|m| - 1])
    ensures Strip(Space, p + m + q) == m
  {
    StripMid(Space, p, m, q);
    LStripAll(Space, p);
    RStripAll(Space, q);
  }

  /** A tab one column before a tab stop becomes a single space. */
  lemma TabBecomesSpace(a: string, b: string)
    requires '\t' !in a && '\n' !in a && '\r' !in a && |a| % TAB_SIZE == TAB_SIZE - 1
    requires '\t' !in b
    ensures ExpandTabs(a + "\t" + b, 0) == a + " " + b
  {
    hide ExpandTabs, Column;
    ExpandTabsConcat(a + "\t", b, 0);
    ExpandTabsConcat(a, "\t", 0);
    ExpandTabsNoTab(a, 0);
    ExpandTabsNoTab(b, Column(a + "\t", 0));
    PlainColumn(a, 0);
    OneTab(|a|);
  }

  lemma OneTab(column: nat)
    requires column % TAB_SIZE == TAB_SIZE - 1
    ensures ExpandTabs("\t", column) == " "
  {
    assert "\t"[1..] == "";
    assert Spaces(1) == " ";
  }

  /** The fix of a tab can create a guard: here a line that was no guard switches formatting
      off for the lines after it. */
  lemma TabFixCreatesGuard()
    ensures var line := "// clang-format" + "\t" + "off\n";
      !IsGuard(line) && !CheckTabs(line).compliant && IsOff(CheckTabs(line).fixed)
  {
    hide Strip, ExpandTabs, GuardShape;
    var a := "// clang-format";
    var line := a + "\t" + "off\n";
    ShortWords();
    TabBecomesSpace(a, "off\n");
    NotYetGuard(a + "\t" + "off", 15);
    assert line == a + "\t" + "off" + "\n" && line[15] == '\t';
    StripLineFeed(a + " " + "off");
    assert a + " " + "off\n" == a + " " + "off" + "\n";
    assert a + " " + "off" == "// clang-format off";
  }

  lemma NotYetGuard(m: string, i: nat)
    requires i < |m| && m[i] == '\t' && !IsSpace(m[0]) && !IsSpace(m[|m| - 1])
    ensures !IsGuard(m + "\n")
  {
    StripLineFeed(m);
    if IsGuard(m + "\n") { GuardChars(m + "\n"); }
  }

  lemma ShortWords()
    ensures var a := "// clang-format"; |a| == 15 && a[0] == '/' && '\t' !in a && '\n' !in a && '\r' !in a
    ensures '\t' !in "off\n"
  {
  }

  lemma StripLineFeed(m: string)
    requires m != "" && !IsSpace(m[0]) && !IsSpace(m[|m| - 1])
    ensures Strip(Space, m + "\n") == m
  {
    StripPadded("", m, "\n");
    assert "" + m + "\n" == m + "\n";
  }

  lemma {:induction false} PlainColumn(s: string, column: nat)
    requires '\t' !in s && '\n' !in s && '\r' !in s
    ensures Column(s, column) == column + |s|
  {
    if s == "" {
    } else {
      PlainColumn(s[1..], column + 1);
    }
  }

  // ----- trailing white space

  function CheckWhitespace(line: string): LineResult {
    var fixed := RStrip(Space, line) + "\n";
    LineResult(fixed == line, fixed)
  }

  lemma WhitespaceRepaired(line: string)
    requires IsLine(line)
    ensures Repairs(CheckWhitespace, line)
  {
    var body := RStrip(Space, line);
    var q := RStripSplit(Space, line);
    var fixed := body + "\n";
    forall i | 0 <= i < |body| ensures body[i] != '\n' {
      assert body[i] == line[i];
    }
    assert RStrip(Space, fixed) == body by {
      assert AllIn(Space, "\n");
      RStripAll(Space, "\n");
      if body == "" { assert fixed == "\n"; } else { RStripMid(Space, body, "\n"); }
    }
    SameGuard(line, fixed);
  }

  // ----- emacs file style comments

  function CheckEmacs(line: string): LineResult {
    var stripped := Strip(Space, line);
    if Contains(stripped, "c-file-style:") || Contains(stripped, "py-indent-offset:")
    then LineResult(false, "") else LineResult(true, line)
  }

  lemma EmacsRepaired(line: string)
    requires IsLine(line)
    ensures Repairs(CheckEmacs, line)
  {
    if IsGuard(line) && !CheckEmacs(line).compliant {
      GuardChars(line);
      EmacsPatterns(Strip(Space, line));
    }
  }

  lemma EmacsPatterns(s: string)
    requires Contains(s, "c-file-style:") || Contains(s, "py-indent-offset:")
    ensures 'y' in s
  {
    hide Contains;
    if Contains(s, "c-file-style:") {
      assert "c-file-style:"[9] == 'y';
      ContainsChars(s, "c-file-style:", 'y');
    } else {
      assert "py-indent-offset:"[1] == 'y';
      ContainsChars(s, "py-indent-offset:", 'y');
    }
  }

  // ----- #include quotes

  const NS3_INCLUDE := "#include <ns3/"

  /** The line starts with #include <ns3/ and has .h> somewhere after it. */
  predicate IncludesWithBrackets(line: string) {
    NS3_INCLUDE <= line && Contains(line[|NS3_INCLUDE|..], ".h>")
  }

  function CheckIncludeQuotes(line: string): LineResult {
    if IncludesWithBrackets(line)
    then LineResult(false, Replace(Replace(line, "<", "\""), ">", "\""))
    else LineResult(true, line)
  }

  lemma IncludeQuotesRepaired(line: string)
    requires IsLine(line)
    ensures Repairs(CheckIncludeQuotes, line)
  {
    hide Replace, Strip;
    if IncludesWithBrackets(line) {
      var once := Replace(line, "<", "\"");
      var fixed := Replace(once, ">", "\"");
      assert NS3_INCLUDE[9] == '<' && line[9] == NS3_INCLUDE[9];
      ReplaceChars(line, "<", "\"", '<');
      ReplaceChars(once, ">", "\"", '<');
      ReplaceKeepsLine(line, "<", "\"");
      ReplaceKeepsLine(once, ">", "\"");
      assert forall s: string :: NS3_INCLUDE <= s ==> s[9] == '<';
      if IsGuard(line) {
        GuardChars(line);
        assert NS3_INCLUDE[0] == '#' && NS3_INCLUDE[1] == 'i';
        StripKeepsFront(line);
      }
    }
  }

  lemma ReplaceKeepsLine(line: string, t: string, replacement: string)
    requires IsLine(line) && t != "" && replacement != "" && '\n' !in t && '\n' !in replacement
    ensures IsLine(Replace(line, t, replacement)) && (Ended(line) <==> Ended(Replace(line, t, replacement)))
  {
    hide Replace;
    var fixed := Replace(line, t, replacement);
    ReplaceNotEmpty(line, t, replacement);
    if Ended(line) {
      var body := line[..|line| - 1];
      assert line == body + "\n";
      ReplaceKeepsEnd(body, "\n", t, replacement);
      ReplaceChars(body, t, replacement, '\n');
    } else {
      assert '\n' !in line;
      ReplaceChars(line, t, replacement, '\n');
    }
  }

  lemma ReplaceNotEmpty(line: string, t: string, replacement: string)
    requires line != "" && t != "" && replacement != ""
    ensures Replace(line, t, replacement) != ""
  {
  }

  /** Stripping does not remove a start that is not white space. */
  lemma StripKeepsFront(line: string)
    requires |line| >= 2 && !IsSpace(line[0]) && !IsSpace(line[1])
    ensures var s := Strip(Space, line); |s| >= 2 && s[0] == line[0] && s[1] == line[1]
  {
    var q := RStripSplit(Space, line);
    var r := RStrip(Space, line);
    assert forall i :: |r| <= i < |line| ==> line[i] == q[i - |r|] && In(Space, line[i]);
  }

  // ----- licences

  // The long literals are written in pieces: what the verifier can know of a literal, character
  // by character, is limited to short ones.
  const GPL_LICENSE_LINES: seq<string> := [
    "This program is free software; " + "you can redistribute it" + " and/or modify",
    "it under the terms of the " + "GNU General Public License" + " version 2 as",
    "published by the Free " + "Software Foundation;",
    "This program is distributed in " + "the hope that it will be useful,",
    "but WITHOUT ANY WARRANTY; " + "without even the implied " + "warranty of",
    "MERCHANTABILITY or FITNESS FOR " + "A PARTICULAR PURPOSE.  See the",
    "GNU General Public License " + "for more details.",
    "You should have received a copy " + "of the GNU General Public License",
    "along with this program; " + "if not, write to the Free Software",
    "Foundation, Inc., 59 Temple Place, " + "Suite 330, Boston, " + "MA  02111-1307  USA"]

  const SPDX_LICENSE := "SPDX-License-Identifier: " + "GPL-2.0-only"

  /** The line without white space and comment signs around it. */
  function LicenseText(line: string): string {
    Strip(Space, Strip(Comment, Strip(Space, line)))
  }

  function CheckLicenses(line: string): LineResult {
    var text := LicenseText(line);
    if text in GPL_LICENSE_LINES then
      LineResult(false, if text == GPL_LICENSE_LINES[0] then Replace(line, text, SPDX_LICENSE) else "")
    else LineResult(true, line)
  }

  lemma LicensesRepaired(line: string)
    requires IsLine(line)
    ensures Repairs(CheckLicenses, line)
  {
    var text := LicenseText(line);
    if text in GPL_LICENSE_LINES {
      GplLineLength(text);
      LicenseTextShorter(line);
      if IsGuard(line) { GuardChars(line); }
      if text == GPL_LICENSE_LINES[0] {
        FirstLicenseLineRepaired(line);
      }
    }
  }

  lemma GplLineLength(text: string)
    requires text in GPL_LICENSE_LINES
    ensures |text| > |SPDX_LICENSE| == 37
  {
  }

  lemma LicenseTextShorter(line: string)
    ensures |LicenseText(line)| <= |Strip(Space, line)|
  {
    var p, q := StripSplit(Comment, Strip(Space, line));
    var u, v := StripSplit(Space, Strip(Comment, Strip(Space, line)));
  }

  /** A character that neither strip removes. */
  predicate Solid(c: char) {
    !In(Space, c) && !In(Comment, c)
  }

  ghost predicate NoSolid(s: string) {
    forall i :: 0 <= i < |s| ==> !Solid(s[i])
  }

  /** A line is its licence text with white space and comment signs around it. */
  lemma LicenseSplit(line: string) returns (p: string, q: string)
    ensures line == p + LicenseText(line) + q && NoSolid(p) && NoSolid(q)
  {
    var s1 := Strip(Space, line);
    var s2 := Strip(Comment, s1);
    var p1, q1 := StripSplit(Space, line);
    var p2, q2 := StripSplit(Comment, s1);
    var p3, q3 := StripSplit(Space, s2);
    p, q := p1 + p2 + p3, q3 + q2 + q1;
    assert line == p1 + (p2 + (p3 + LicenseText(line) + q3) + q2) + q1;
  }

  /** The strips around a text do not depend on the text. */
  lemma LicenseMid(p: string, m: string, q: string)
    requires m != "" && Solid(m[0]) && Solid(m[|m| - 1])
    ensures LicenseText(p + m + q)
         == LStrip(Space, LStrip(Comment, LStrip(Space, p))) + m + RStrip(Space, RStrip(Comment, RStrip(Space, q)))
  {
    StripMid(Space, p, m, q);
    StripMid(Comment, LStrip(Space, p), m, RStrip(Space, q));
    StripMid(Space, LStrip(Comment, LStrip(Space, p)), m, RStrip(Comment, RStrip(Space, q)));
  }

  lemma LicenseEnds()
    ensures var text := GPL_LICENSE_LINES[0];
      |text| == 68 && text[0] == 'T' && Solid(text[0]) && Solid(text[|text| - 1]) && '\n' !in text
  {
    var a, b, c := "This program is free software; ", "you can redistribute it", " and/or modify";
    assert GPL_LICENSE_LINES[0] == a + b + c;
    assert '\n' !in a && '\n' !in b && '\n' !in c;
    assert c[|c| - 1] == 'y';
  }

  lemma SpdxEnds()
    ensures SPDX_LICENSE[0] == 'S' && Solid(SPDX_LICENSE[0]) && Solid(SPDX_LICENSE[|SPDX_LICENSE| - 1])
    ensures '\n' !in SPDX_LICENSE
  {
  }

  lemma FirstLicenseLineRepaired(line: string)
    requires IsLine(line) && LicenseText(line) == GPL_LICENSE_LINES[0]
    ensures var fixed := Replace(line, GPL_LICENSE_LINES[0], SPDX_LICENSE);
      && fixed != line && IsLine(fixed) && (Ended(line) ==> Ended(fixed))
      && LicenseText(fixed) == SPDX_LICENSE && SPDX_LICENSE !in GPL_LICENSE_LINES
  {
    hide LicenseText, LStrip, RStrip, Strip, Replace;
    var text := GPL_LICENSE_LINES[0];
    var p, q := LicenseSplit(line);
    LicenseEnds();
    SpdxEnds();
    ReplaceFirst(p, text, q, SPDX_LICENSE);
    ReplaceNone(q, text, SPDX_LICENSE);
    LicenseMid(p, text, q);
    LicenseMid(p, SPDX_LICENSE, q);
    var l, r := LStrip(Space, LStrip(Comment, LStrip(Space, p))), RStrip(Space, RStrip(Comment, RStrip(Space, q)));
    assert |l + text + r| == |text|;
    assert l == "" && r == "" && l + SPDX_LICENSE + r == SPDX_LICENSE;
    ReplaceKeepsLine(line, text, SPDX_LICENSE);
    GplLineLength(text);
    if SPDX_LICENSE in GPL_LICENSE_LINES { GplLineLength(SPDX_LICENSE); }
  }

  // ----- Doxygen tags

  const IGNORED_WORDS: seq<string> := ["\\dots", "\\langle", "\\quad"]

  /** The length of the comment marker a text starts with, or 0. */
  function MarkerLength(s: string): nat {
    if "*" <= s then 1 else if "/**" <= s || "///" <= s then 3 else 0
  }

  /** How many word characters a text starts with. Which characters beyond ASCII belong to
      words is left open. */
  function WordLength(isWord: char -> bool, s: string): nat {
    if s != "" && isWord(s[0]) then 1 + WordLength(isWord, s[1..]) else 0
  }

  ghost predicate WordsHaveNoSpace(isWord: char -> bool) {
    forall c :: isWord(c) ==> !IsSpace(c)
  }

  /** The tag at the start of a text: a backslash and at least three word characters, up to
      white space or the end. */
  function TagAt(isWord: char -> bool, t: string): string {
    if t == "" || t[0] != '\\' then ""
    else
      var n := WordLength(isWord, t[1..]);
      WordLengthBound(isWord, t[1..]);
      if n < 3 || (n + 1 < |t| && !IsSpace(t[n + 1])) then "" else t[..n + 1]
  }

  lemma {:induction false} WordLengthBound(isWord: char -> bool, s: string)
    ensures WordLength(isWord, s) <= |s|
    ensures forall i :: 0 <= i < WordLength(isWord, s) ==> isWord(s[i])
  {
    if s != "" && isWord(s[0]) { WordLengthBound(isWord, s[1..]); }
  }

  /** The tag behind the comment marker at the start of a line, or "" if there is none. */
  function FindTag(isWord: char -> bool, line: string): string {
    var s := Strip(Space, line);
    if MarkerLength(s) == 0 then "" else TagAt(isWord, LStrip(Space, s[MarkerLength(s)..]))
  }

  function CheckDoxygenTags(isWord: char -> bool, line: string): LineResult {
    var tag := FindTag(isWord, line);
    if tag != "" && tag !in IGNORED_WORDS
    then LineResult(false, Replace(line, tag, "@" + tag[1..]))
    else LineResult(true, line)
  }

  lemma TagShape(isWord: char -> bool, t: string)
    requires TagAt(isWord, t) != ""
    ensures var tag := TagAt(isWord, t);
      && tag <= t && |tag| > 3 && tag[0] == '\\' && (forall i :: 1 <= i < |tag| ==> isWord(tag[i]))
      && (|tag| < |t| ==> IsSpace(t[|tag|]))
  {
    WordLengthBound(isWord, t[1..]);
    assert forall i :: 1 <= i < |t| ==> t[i] == t[1..][i - 1];
  }

  lemma Flatten(a: string, b: string, c: string, d: string, e: string, f: string)
    ensures a + (b + (c + (d + e))) + f == a + b + c + d + (e + f)
  {
  }

  lemma MarkerShape(s: string)
    requires MarkerLength(s) != 0
    ensures var k := MarkerLength(s);
      k <= |s| && (s[..k] == "*" || s[..k] == "/**" || s[..k] == "///")
  {
  }

  /** A line with a tag: white space, the marker, white space, the tag, and the rest. */
  lemma TagSplit(isWord: char -> bool, line: string) returns (p: string, marker: string, q: string, rest: string)
    requires FindTag(isWord, line) != ""
    ensures line == p + marker + q + FindTag(isWord, line) + rest
    ensures AllIn(Space, p) && AllIn(Space, q)
    ensures marker == "*" || marker == "/**" || marker == "///"
    ensures var tag := FindTag(isWord, line);
      |tag| > 3 && tag[0] == '\\' && forall i :: 1 <= i < |tag| ==> isWord(tag[i])
    ensures rest != "" ==> IsSpace(rest[0])
  {
    hide Strip, LStrip, MarkerLength, TagAt, WordLength;
    var right;
    p, right := StripSplit(Space, line);
    var s := Strip(Space, line);
    MarkerShape(s);
    marker := s[..MarkerLength(s)];
    q := LStripSplit(Space, s[MarkerLength(s)..]);
    var t := LStrip(Space, s[MarkerLength(s)..]);
    TagShape(isWord, t);
    var tag := TagAt(isWord, t);
    var behind := t[|tag|..];
    rest := behind + right;
    assert t == tag + behind && s == marker + (q + (tag + behind));
    Flatten(p, marker, q, tag, behind, right);
  }

  lemma MarkerFound(marker: string, rest: string)
    requires marker == "*" || marker == "/**" || marker == "///"
    ensures MarkerLength(marker + rest) == |marker|
  {
    var s := marker + rest;
    assert s[0] == marker[0];
    if |marker| == 3 { assert s[1] == marker[1] && s[2] == marker[2]; }
  }

  /** Behind the marker there is an @, hence no tag any more. */
  lemma NoTagBehindAt(isWord: char -> bool, p: string, marker: string, q: string, rest: string)
    requires AllIn(Space, p) && AllIn(Space, q)
    requires marker == "*" || marker == "/**" || marker == "///"
    ensures FindTag(isWord, p + marker + q + "@" + rest) == ""
  {
    hide LStrip, RStrip, MarkerLength, WordLength;
    var m := marker + q + "@";
    assert p + marker + q + "@" + rest == p + m + rest;
    assert !In(Space, m[0]) && m[|m| - 1] == '@';
    StripMid(Space, p, m, rest);
    LStripAll(Space, p);
    var end := RStrip(Space, rest);
    var s := marker + (q + ("@" + end));
    assert LStrip(Space, p) + m + end == s;
    MarkerFound(marker, q + ("@" + end));
    assert s[|marker|..] == q + ("@" + end);
    LStripMid(Space, q, "@" + end);
    LStripAll(Space, q);
    assert "" + ("@" + end) == "@" + end;
  }

  lemma GuardHasNoTag(isWord: char -> bool, line: string)
    requires IsGuard(line)
    ensures FindTag(isWord, line) == ""
  {
    hide Strip;
    GuardChars(line);
  }

  lemma DoxygenTagsRepaired(isWord: char -> bool, line: string)
    requires WordsHaveNoSpace(isWord) && IsLine(line)
    ensures Repairs(l => CheckDoxygenTags(isWord, l), line)
  {
    hide FindTag, Replace, Strip;
    var tag := FindTag(isWord, line);
    if tag != "" && tag !in IGNORED_WORDS {
      var p, marker, q, rest := TagSplit(isWord, line);
      var front, replacement := p + marker + q, "@" + tag[1..];
      assert '\\' !in front;
      ReplaceFirst(front, tag, rest, replacement);
      var fixed := Replace(line, tag, replacement);
      var tail := tag[1..] + Replace(rest, tag, replacement);
      assert fixed == front + "@" + tail;
      NoTagBehindAt(isWord, p, marker, q, tail);
      assert fixed[|front|] == '@' && line[|front|] == '\\';
      assert forall i :: 1 <= i < |tag| ==> !IsSpace(tag[i]);
      ReplaceKeepsLine(line, tag, replacement);
      if IsGuard(line) { GuardHasNoTag(isWord, line); }
    }
  }

  // ----- all checks

  /** The checks that go through check_manually_file, in the order in which they are run. */
  datatype StyleCheck = IncludeQuotes | DoxygenTags | License | Emacs | Whitespace | Tabs

  function LineCheckerOf(isWord: char -> bool, check: StyleCheck): LineChecker {
    match check
    case IncludeQuotes => CheckIncludeQuotes
    case DoxygenTags => line => CheckDoxygenTags(isWord, line)
    case License => CheckLicenses
    case Emacs => CheckEmacs
    case Whitespace => CheckWhitespace
    case Tabs => CheckTabs
  }

  predicate RespectsGuards(check: StyleCheck) { check != Whitespace }

  /** Each check repairs what it rejects. */
  lemma CheckRepairs(isWord: char -> bool, check: StyleCheck)
    requires WordsHaveNoSpace(isWord)
    ensures RepairsLines(LineCheckerOf(isWord, check))
  {
    var checker := LineCheckerOf(isWord, check);
    forall line | IsLine(line) ensures Repairs(checker, line) {
      match check
      case IncludeQuotes => IncludeQuotesRepaired(line);
      case DoxygenTags => DoxygenTagsRepaired(isWord, line);
      case License => LicensesRepaired(line);
      case Emacs => EmacsRepaired(line);
      case Whitespace => WhitespaceRepaired(line);
      case Tabs => TabsRepaired(line);
    }
  }

  /** Every check of the script passes on a file it has fixed, fixing is idempotent, and a file
      is rejected exactly when fixing changes it. */
  lemma EveryCheckFixes(isWord: char -> bool, check: StyleCheck, text: string)
    requires WordsHaveNoSpace(isWord)
    ensures var checker, respect := LineCheckerOf(isWord, check), RespectsGuards(check);
      var fixed := FixedText(checker, respect, text);
      && Violations(checker, respect, true, ReadLines(fixed), 0) == []
      && FixedText(checker, respect, fixed) == fixed
      && (Violations(checker, respect, true, ReadLines(text), 0) == [] <==> fixed == text)
  {
    var checker := LineCheckerOf(isWord, check);
    CheckRepairs(isWord, check);
    FixedIsCompliant(checker, RespectsGuards(check), text);
    CompliantIffUnchanged(checker, RespectsGuards(check), text);
  }
}
