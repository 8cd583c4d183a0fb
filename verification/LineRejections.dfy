/** Which lines each line checker of utils/check-style-clang-format.py rejects, said of the text of
    the line alone.
 */
module LineRejections {
  import opened Text
  import opened StyleChecker
  import opened FixThenCheck
  import opened LineChecks
  import opened LineFixes
  import opened LicenseWords
  import opened HiddenLicense

  // ----- what is wrong with a line

  /** An ns-3 header, included in angle brackets at the start of the line. */
  ghost predicate HasBracketInclude(line: string) {
    exists mid, rest :: line == "#include <ns3/" + mid + ".h>" + rest
  }

  predicate IsMarker(m: string) { m == "*" || m == "/**" || m == "///" }

  /** Behind a comment marker, a word of at least three characters with a backslash before it and
      white space or nothing behind it, but not one of the three that are not tags. */
  ghost predicate IsTagLine(isWord: char -> bool, line: string, p: string, marker: string, q: string,
                            word: string, rest: string)
  {
    && line == p + marker + q + ("\\" + word) + rest
    && AllIn(Space, p) && IsMarker(marker) && AllIn(Space, q)
    && |word| >= 3 && (forall i :: 0 <= i < |word| ==> isWord(word[i]))
    && (rest != "" ==> IsSpace(rest[0]))
    && word != "dots" && word != "langle" && word != "quad"
  }

  ghost predicate HasBackslashTag(isWord: char -> bool, line: string) {
    exists p, marker, q, word, rest :: IsTagLine(isWord, line, p, marker, q, word, rest)
  }

  /** A line of the licence between comment signs, with white space around and between. */
  ghost predicate IsLicenseLine(line: string, a: string, b: string, c: string, text: string,
                                d: string, e: string, f: string)
  {
    && line == a + b + c + text + (d + e + f) && text in GPL_LICENSE_LINES
    && AllIn(Space, a) && AreSigns(b) && AllIn(Space, c)
    && AllIn(Space, d) && AreSigns(e) && AllIn(Space, f)
  }

  ghost predicate AreSigns(s: string) {
    forall i :: 0 <= i < |s| ==> s[i] in {'*', '#', '/'}
  }

  lemma SignsAreComment(s: string)
    ensures AreSigns(s) <==> AllIn(Comment, s)
  {
    assert forall c :: In(Comment, c) <==> c in {'*', '#', '/'};
  }

  ghost predicate HasLicense(line: string) {
    exists a, b, c, text, d, e, f :: IsLicenseLine(line, a, b, c, text, d, e, f)
  }

  ghost predicate Occurs(word: string, line: string) {
    exists i :: 0 <= i < |line| && word <= line[i..]
  }

  /** The line does not end in a line feed with something else than white space before it. */
  ghost predicate HasTrailingSpace(line: string) {
    !(line != "" && line[|line| - 1] == '\n' && (|line| > 1 ==> !IsSpace(line[|line| - 2])))
  }

  /** What each check is about. */
  ghost predicate Offends(isWord: char -> bool, check: StyleCheck, line: string) {
    match check
    case IncludeQuotes => HasBracketInclude(line)
    case DoxygenTags => HasBackslashTag(isWord, line)
    case License => HasLicense(line)
    case Emacs => Occurs("c-file-style:", line) || Occurs("py-indent-offset:", line)
    case Whitespace => HasTrailingSpace(line)
    case Tabs => exists i :: 0 <= i < |line| && line[i] == '\t'
  }

  // ----- includes

  lemma IncludeIff(line: string)
    ensures !CheckIncludeQuotes(line).compliant <==> HasBracketInclude(line)
  {
    var n := |NS3_INCLUDE|;
    hide Contains, Replace;
    if IncludesWithBrackets(line) {
      var mid, rest := ContainsSplit(line[n..], ".h>");
      assert line == "#include <ns3/" + mid + ".h>" + rest;
    }
    if mid, rest :| line == "#include <ns3/" + mid + ".h>" + rest {
      assert line == NS3_INCLUDE + (mid + ".h>" + rest) && line[n..] == mid + ".h>" + rest;
      ContainsMiddle(mid, ".h>", rest);
    }
  }

  lemma ContainsSplit(s: string, t: string) returns (a: string, b: string)
    requires Contains(s, t) && t != ""
    ensures s == a + t + b
  {
    ContainsIff(s, t);
    var i :| 0 <= i < |s| && t <= s[i..];
    a, b := s[..i], s[i + |t|..];
    assert s == a + s[i..] && s[i..] == t + b;
  }

  lemma ContainsMiddle(a: string, t: string, b: string)
    requires t != ""
    ensures Contains(a + t + b, t)
  {
    ContainsIff(a + t + b, t);
    assert (a + t + b)[|a|..] == t + b;
  }

  // ----- Doxygen tags

  lemma TagLineFound(isWord: char -> bool, line: string, p: string, marker: string, q: string,
                     word: string, rest: string)
    requires WordsHaveNoSpace(isWord) && IsTagLine(isWord, line, p, marker, q, word, rest)
    ensures FindTag(isWord, line) == "\\" + word
  {
    hide LStrip, RStrip, MarkerLength, WordLength, TagAt;
    var tag := "\\" + word;
    var m, end := marker + (q + tag), RStrip(Space, rest);
    assert line == p + m + rest && !In(Space, m[0]) && !In(Space, m[|m| - 1]);
    StripMid(Space, p, m, rest);
    LStripAll(Space, p);
    var s := marker + (q + (tag + end));
    assert LStrip(Space, p) + m + end == s;
    MarkerFound(marker, q + (tag + end));
    assert s[|marker|..] == q + (tag + end);
    LStripMid(Space, q, tag + end);
    LStripAll(Space, q);
    assert "" + (tag + end) == tag + end;
    var right := RStripSplit(Space, rest);
    TagRead(isWord, word, end);
  }

  lemma TagRead(isWord: char -> bool, word: string, end: string)
    requires WordsHaveNoSpace(isWord) && |word| >= 3 && forall i :: 0 <= i < |word| ==> isWord(word[i])
    requires end != "" ==> IsSpace(end[0])
    ensures TagAt(isWord, "\\" + word + end) == "\\" + word
  {
    var t := "\\" + word + end;
    assert t[1..] == word + end;
    WordEnds(isWord, word, end);
    assert t[..|word| + 1] == "\\" + word;
    assert end != "" ==> t[|word| + 1] == end[0];
  }

  lemma {:induction false} WordEnds(isWord: char -> bool, word: string, end: string)
    requires forall i :: 0 <= i < |word| ==> isWord(word[i])
    requires end != "" ==> !isWord(end[0])
    ensures WordLength(isWord, word + end) == |word|
  {
    if word == "" {
      assert word + end == end;
    } else {
      assert (word + end)[1..] == word[1..] + end;
      WordEnds(isWord, word[1..], end);
    }
  }

  lemma TagIff(isWord: char -> bool, line: string)
    requires WordsHaveNoSpace(isWord)
    ensures !CheckDoxygenTags(isWord, line).compliant <==> HasBackslashTag(isWord, line)
  {
    hide FindTag, Replace;
    var tag := FindTag(isWord, line);
    if tag != "" && tag !in IGNORED_WORDS {
      var p, marker, q, rest := TagSplit(isWord, line);
      var word := tag[1..];
      assert tag == "\\" + word && forall i :: 0 <= i < |word| ==> word[i] == tag[i + 1];
      assert p + marker + q + tag + rest == p + marker + q + ("\\" + word) + rest;
      IgnoredIff(word);
      assert IsTagLine(isWord, line, p, marker, q, word, rest);
    }
    if p, marker, q, word, rest :| IsTagLine(isWord, line, p, marker, q, word, rest) {
      TagLineFound(isWord, line, p, marker, q, word, rest);
      IgnoredIff(word);
    }
  }

  lemma IgnoredIff(word: string)
    ensures "\\" + word in IGNORED_WORDS <==> word == "dots" || word == "langle" || word == "quad"
  {
    assert ("\\" + word)[1..] == word;
    assert "\\dots" == "\\" + "dots" && "\\langle" == "\\" + "langle" && "\\quad" == "\\" + "quad";
  }

  // ----- white space

  lemma WhitespaceIff(line: string)
    ensures !CheckWhitespace(line).compliant <==> HasTrailingSpace(line)
  {
    var body, trailing := WhitespaceFix(line);
    hide CheckWhitespace;
    if trailing == "\n" {
      assert line[|line| - 1] == '\n';
    }
  }

  // ----- emacs file style comments

  lemma OccursAround(word: string, p: string, s: string, q: string)
    requires word != "" && Occurs(word, s)
    ensures Occurs(word, p + s + q)
  {
    var i :| 0 <= i < |s| && word <= s[i..];
    assert (p + s + q)[|p| + i..] == s[i..] + q;
  }

  /** A word that starts and ends with other characters than white space is not cut by stripping. */
  lemma OccursBetween(word: string, p: string, s: string, q: string)
    requires word != "" && !IsSpace(word[0]) && !IsSpace(word[|word| - 1])
    requires AllIn(Space, p) && AllIn(Space, q) && Occurs(word, p + s + q)
    ensures Occurs(word, s)
  {
    var line := p + s + q;
    var i :| 0 <= i < |line| && word <= line[i..];
    var last := i + |word| - 1;
    assert line[i] == word[0] && line[last] == word[|word| - 1];
    hide IsSpace, AllIn;
    InMiddle(p, s, q, i);
    InMiddle(p, s, q, last);
    assert s[i - |p|..][..|word|] == line[i..][..|word|] == word;
  }

  lemma InMiddle(p: string, s: string, q: string, k: nat)
    requires AllIn(Space, p) && AllIn(Space, q) && k < |p + s + q| && !IsSpace((p + s + q)[k])
    ensures |p| <= k < |p| + |s|
  {
    hide IsSpace;
    assert k < |p| ==> In(Space, p[k]);
  }

  lemma OccursInStripped(word: string, line: string)
    requires word != "" && !IsSpace(word[0]) && !IsSpace(word[|word| - 1])
    ensures Occurs(word, line) <==> Contains(Strip(Space, line), word)
  {
    hide Contains, Strip;
    var p, q := StripSplit(Space, line);
    var s := Strip(Space, line);
    ContainsIff(s, word);
    if Occurs(word, s) { OccursAround(word, p, s, q); }
    if Occurs(word, line) { OccursBetween(word, p, s, q); }
  }

  lemma EmacsIff(line: string)
    ensures !CheckEmacs(line).compliant <==> Occurs("c-file-style:", line) || Occurs("py-indent-offset:", line)
  {
    OccursInStripped("c-file-style:", line);
    OccursInStripped("py-indent-offset:", line);
  }

  // ----- licences

  /** A text in two layers of signs and white space is found by the three strips. */
  lemma LicenseFound(line: string, a: string, b: string, c: string, text: string, d: string, e: string, f: string)
    requires IsLicenseLine(line, a, b, c, text, d, e, f) && text != "" && Solid(text[0]) && Solid(text[|text| - 1])
    ensures LicenseText(line) == text
  {
    hide LStrip, RStrip, In, LicenseText;
    LicenseMid(a + b + c, text, d + e + f);
    SignsAreComment(b);
    SignsAreComment(e);
    LeftLayers(a, b, c);
    RightLayers(d, e, f);
    assert "" + text + "" == text;
  }

  lemma InParts(cls: CharClass, a: string, b: string)
    requires AllIn(cls, a + b)
    ensures AllIn(cls, a) && AllIn(cls, b)
  {
    assert forall i :: 0 <= i < |a| ==> (a + b)[i] == a[i];
    assert forall i :: 0 <= i < |b| ==> (a + b)[|a| + i] == b[i];
  }

  lemma LeftLayers(a: string, b: string, c: string)
    requires AllIn(Space, a) && AllIn(Comment, b) && AllIn(Space, c)
    ensures LStrip(Space, LStrip(Comment, LStrip(Space, a + b + c))) == ""
  {
    hide LStrip;
    if b == "" {
      assert a + b + c == a + c && AllIn(Space, a + c);
      LStripAll(Space, a + c);
      LStripAll(Comment, "");
      LStripAll(Space, "");
    } else {
      assert a + b + c == a + (b + c) && (b + c)[0] == b[0];
      LStripMid(Space, a, b + c);
      LStripAll(Space, a);
      assert "" + (b + c) == b + c;
      LStripAllMid(Comment, b, c);
      var r := LStripSplit(Comment, c);
      InParts(Space, r, LStrip(Comment, c));
      LStripAll(Space, LStrip(Comment, c));
    }
  }

  lemma {:induction false} LStripAllMid(cls: CharClass, p: string, s: string)
    requires AllIn(cls, p)
    ensures LStrip(cls, p + s) == LStrip(cls, s)
  {
    if p == "" {
      assert p + s == s;
    } else {
      assert (p + s)[1..] == p[1..] + s;
      LStripAllMid(cls, p[1..], s);
    }
  }

  lemma RightLayers(d: string, e: string, f: string)
    requires AllIn(Space, d) && AllIn(Comment, e) && AllIn(Space, f)
    ensures RStrip(Space, RStrip(Comment, RStrip(Space, d + e + f))) == ""
  {
    hide RStrip;
    if e == "" {
      assert d + e + f == d + f && AllIn(Space, d + f);
      RStripAll(Space, d + f);
      RStripAll(Comment, "");
      RStripAll(Space, "");
    } else {
      assert (d + e)[|d + e| - 1] == e[|e| - 1];
      RStripMid(Space, d + e, f);
      RStripAll(Space, f);
      assert d + e + "" == d + e;
      RStripAllMid(Comment, d, e);
      var r := RStripSplit(Comment, d);
      InParts(Space, RStrip(Comment, d), r);
      RStripAll(Space, RStrip(Comment, d));
    }
  }

  lemma {:induction false} RStripAllMid(cls: CharClass, s: string, q: string)
    requires AllIn(cls, q)
    ensures RStrip(cls, s + q) == RStrip(cls, s)
  {
    if q == "" {
      assert s + q == s;
    } else {
      assert (s + q)[..|s + q| - 1] == s + q[..|q| - 1];
      RStripAllMid(cls, s, q[..|q| - 1]);
    }
  }

  /** A line is its licence text in two layers of white space around comment signs. */
  lemma LicenseLayers(line: string) returns (a: string, b: string, c: string, d: string, e: string, f: string)
    ensures line == a + b + c + LicenseText(line) + (d + e + f)
    ensures AllIn(Space, a) && AllIn(Comment, b) && AllIn(Space, c)
    ensures AllIn(Space, d) && AllIn(Comment, e) && AllIn(Space, f)
  {
    hide Strip, In;
    var s1 := Strip(Space, line);
    a, f := StripSplit(Space, line);
    b, e := StripSplit(Comment, s1);
    c, d := StripSplit(Space, Strip(Comment, s1));
    assert line == a + (b + (c + LicenseText(line) + d) + e) + f;
  }

  lemma LicenseIff(line: string)
    ensures !CheckLicenses(line).compliant <==> HasLicense(line)
  {
    LicenseVerdict(line);
    hide Strip, Replace, CheckLicenses, In, LicenseText;
    if LicenseText(line) in GPL_LICENSE_LINES {
      var a, b, c, d, e, f := LicenseLayers(line);
      SignsAreComment(b);
      SignsAreComment(e);
      assert IsLicenseLine(line, a, b, c, LicenseText(line), d, e, f);
    }
    if a, b, c, text, d, e, f :| IsLicenseLine(line, a, b, c, text, d, e, f) {
      LicenseWordsEnd(text);
      LicenseFound(line, a, b, c, text, d, e, f);
    }
  }

  lemma LicenseWordsEnd(text: string)
    requires text in GPL_LICENSE_LINES
    ensures text != "" && Solid(text[0]) && Solid(text[|text| - 1])
  {
  }

  // ----- all checks

  /** A line is rejected exactly if it is what the check is about. */
  lemma RejectedIff(isWord: char -> bool, check: StyleCheck, line: string)
    requires WordsHaveNoSpace(isWord)
    ensures !LineCheckerOf(isWord, check)(line).compliant <==> Offends(isWord, check, line)
  {
    match check
    case IncludeQuotes => IncludeIff(line);
    case DoxygenTags => TagIff(isWord, line);
    case License => LicenseIff(line);
    case Emacs => EmacsIff(line);
    case Whitespace => WhitespaceIff(line);
    case Tabs =>
  }
}
