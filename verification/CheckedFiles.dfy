/** What a run of one check of utils/check-style-clang-format.py finds in a whole file and makes of
    it, said of the lines of the file alone: which guards count for which check, which lines are
    reported, and which are changed.
 */
module CheckedFiles {
  import opened Text
  import opened StyleChecker
  import opened FixThenCheck
  import opened LineChecks
  import opened LineRejections
  import opened FixAll

  // ----- guards

  /** A guard is one of three words with "on" or "off" behind it, and that decides its kind. */
  lemma GuardWords(line: string)
    ensures var s := Strip(Space, line);
      && (IsOn(line) <==> exists w :: IsGuardWord(w) && s == w + " on")
      && (IsOff(line) <==> exists w :: IsGuardWord(w) && s == w + " off")
  {
    var s := Strip(Space, line);
    GuardTexts();
    if IsOn(line) {
      assert s == "// clang-format" + " on" || s == "# cmake-format:" + " on" || s == "# fmt:" + " on";
    }
    if IsOff(line) {
      assert s == "// clang-format" + " off" || s == "# cmake-format:" + " off" || s == "# fmt:" + " off";
    }
  }

  predicate IsGuardWord(w: string) {
    w == "// clang-format" || w == "# cmake-format:" || w == "# fmt:"
  }

  lemma GuardTexts()
    ensures "// clang-format on" == "// clang-format" + " on" && "// clang-format off" == "// clang-format" + " off"
    ensures "# cmake-format: on" == "# cmake-format:" + " on" && "# cmake-format: off" == "# cmake-format:" + " off"
    ensures "# fmt: on" == "# fmt:" + " on" && "# fmt: off" == "# fmt:" + " off"
  {
  }

  // ----- what is found

  /** The line is not looked at: formatting is switched off before it, and it is no guard. */
  ghost predicate Skips(respect: bool, enabled: bool, lines: seq<string>, i: nat)
    requires i < |lines|
  {
    respect && (BehindOff(lines, i) || (!enabled && NoGuard(lines, 0, i + 1)))
  }

  lemma SkipsTail(respect: bool, enabled: bool, lines: seq<string>, i: nat)
    requires i < |lines|
    ensures i == 0 ==> Skips(respect, enabled, lines, i) == !Processed(respect, enabled, lines[0])
    ensures i > 0 ==>
      Skips(respect, enabled, lines, i) == Skips(respect, Next(respect, enabled, lines[0]), lines[1..], i - 1)
  {
    hide IsOn, IsOff;
    OnIsNotOff(lines[0]);
    if i > 0 { BehindOffTail(lines, i); }
  }

  /** The line is looked at and rejected. */
  ghost predicate Rejects(check: LineChecker, respect: bool, enabled: bool, lines: seq<string>, i: nat)
    requires i < |lines|
  {
    !Skips(respect, enabled, lines, i) && !check(lines[i]).compliant
  }

  lemma RejectsTail(check: LineChecker, respect: bool, enabled: bool, lines: seq<string>, i: nat)
    requires 0 < i < |lines|
    ensures Rejects(check, respect, enabled, lines, i)
         == Rejects(check, respect, Next(respect, enabled, lines[0]), lines[1..], i - 1)
  {
    SkipsTail(respect, enabled, lines, i);
    hide Skips, Next;
  }

  /** The first line, and the others. */
  lemma FoundFirst(check: LineChecker, respect: bool, enabled: bool, lines: seq<string>, number: nat)
    requires lines != []
    ensures Violations(check, respect, enabled, lines, number)
         == (if Rejects(check, respect, enabled, lines, 0) then [number] else [])
            + Violations(check, respect, Next(respect, enabled, lines[0]), lines[1..], number + 1)
  {
    SkipsTail(respect, enabled, lines, 0);
    hide Skips;
  }

  lemma {:induction false} FoundIff(check: LineChecker, respect: bool, enabled: bool, lines: seq<string>,
                                    number: nat, n: nat)
    ensures n in Violations(check, respect, enabled, lines, number) <==>
            number <= n < number + |lines| && Rejects(check, respect, enabled, lines, n - number)
    decreases |lines|
  {
    if lines == [] {
    } else {
      hide Next, Rejects, Violations;
      var next := Next(respect, enabled, lines[0]);
      FoundFirst(check, respect, enabled, lines, number);
      FoundIff(check, respect, next, lines[1..], number + 1, n);
      if number < n < number + |lines| { RejectsTail(check, respect, enabled, lines, n - number); }
    }
  }

  /** Ascending numbers, from a first one on. */
  ghost predicate InOrder(numbers: seq<nat>, from: nat) {
    && (forall k :: 0 <= k < |numbers| ==> from <= numbers[k])
    && (forall k, l :: 0 <= k < l < |numbers| ==> numbers[k] < numbers[l])
  }

  lemma {:induction false} FoundInOrder(check: LineChecker, respect: bool, enabled: bool, lines: seq<string>,
                                        number: nat)
    ensures InOrder(Violations(check, respect, enabled, lines, number), number)
    decreases |lines|
  {
    if lines == [] {
    } else {
      FoundFirst(check, respect, enabled, lines, number);
      FoundInOrder(check, respect, Next(respect, enabled, lines[0]), lines[1..], number + 1);
      hide Next, Rejects, Violations;
    }
  }

  /** Line i of the text is what the check is about, and does not stand behind an off marker; only
      the white space check does not care for these. */
  ghost predicate AtFault(isWord: char -> bool, check: StyleCheck, text: string, i: nat) {
    var lines := ReadLines(text);
    i < |lines| && Offends(isWord, check, lines[i]) && (check == Whitespace || !BehindOff(lines, i))
  }

  lemma RejectsIff(isWord: char -> bool, check: StyleCheck, lines: seq<string>, i: nat)
    requires WordsHaveNoSpace(isWord) && i < |lines|
    ensures Rejects(LineCheckerOf(isWord, check), RespectsGuards(check), true, lines, i) <==>
            Offends(isWord, check, lines[i]) && (check == Whitespace || !BehindOff(lines, i))
  {
    hide LineCheckerOf, Offends, BehindOff;
    RejectedIff(isWord, check, lines[i]);
  }

  /** The numbers of the lines that a check rejects in a file. */
  function Found(isWord: char -> bool, check: StyleCheck, text: string): seq<nat> {
    Violations(LineCheckerOf(isWord, check), RespectsGuards(check), true, ReadLines(text), 0)
  }

  lemma FoundMember(isWord: char -> bool, check: StyleCheck, text: string, i: nat)
    requires WordsHaveNoSpace(isWord)
    ensures i in Found(isWord, check, text) <==> AtFault(isWord, check, text, i)
  {
    hide LineCheckerOf, Rejects, Offends, BehindOff, ReadLines;
    var checker, respect, lines := LineCheckerOf(isWord, check), RespectsGuards(check), ReadLines(text);
    FoundIff(checker, respect, true, lines, 0, i);
    if i < |lines| { RejectsIff(isWord, check, lines, i); }
  }

  /** They are those of the lines at fault, in order. */
  lemma ReportedIff(isWord: char -> bool, check: StyleCheck, text: string)
    requires WordsHaveNoSpace(isWord)
    ensures InOrder(Found(isWord, check, text), 0)
    ensures forall i: nat :: i in Found(isWord, check, text) <==> AtFault(isWord, check, text, i)
  {
    hide LineCheckerOf, AtFault, ReadLines;
    var checker, respect, lines := LineCheckerOf(isWord, check), RespectsGuards(check), ReadLines(text);
    FoundInOrder(checker, respect, true, lines, 0);
    forall i: nat ensures i in Found(isWord, check, text) <==> AtFault(isWord, check, text, i) {
      FoundMember(isWord, check, text, i);
    }
  }

  /** A file passes a check exactly if no line of it is at fault. */
  lemma PassesIff(isWord: char -> bool, check: StyleCheck, text: string)
    requires WordsHaveNoSpace(isWord)
    ensures Passes(isWord, check, text) <==> forall i: nat :: !AtFault(isWord, check, text, i)
  {
    PassesFound(isWord, check, text);
    hide AtFault, Found, Passes;
    ReportedIff(isWord, check, text);
    var found := Found(isWord, check, text);
    if found != [] { assert found[0] in found; }
  }

  lemma PassesFound(isWord: char -> bool, check: StyleCheck, text: string)
    ensures Passes(isWord, check, text) <==> Found(isWord, check, text) == []
  {
    hide LineCheckerOf, RespectsGuards;
  }

  // ----- what is changed

  lemma {:induction false} RewriteAll(check: LineChecker, enabled: bool, lines: seq<string>, i: nat)
    requires i < |lines|
    ensures |Rewrite(check, false, enabled, lines)| == |lines|
    ensures Rewrite(check, false, enabled, lines)[i] == Fixed(check, lines[i])
    decreases |lines|
  {
    RewriteLength(check, false, enabled, lines);
    if i == 0 {
    } else {
      RewriteAll(check, enabled, lines[1..], i - 1);
    }
  }

  /** A fixing run changes the lines at fault, and no others. */
  lemma FixedLineByLine(isWord: char -> bool, check: StyleCheck, text: string) returns (fixed: seq<string>)
    requires WordsHaveNoSpace(isWord)
    ensures var lines := ReadLines(text);
      && |fixed| == |lines| && FixOne(isWord, check, text) == Concat(fixed)
      && forall i :: 0 <= i < |lines| ==>
           if AtFault(isWord, check, text, i)
           then fixed[i] == LineCheckerOf(isWord, check)(lines[i]).fixed != lines[i]
           else fixed[i] == lines[i]
  {
    var checker, respect, lines := LineCheckerOf(isWord, check), RespectsGuards(check), ReadLines(text);
    fixed := Rewrite(checker, respect, true, lines);
    ReadLinesConcat(text);
    CheckRepairs(isWord, check);
    VerdictIff(checker, respect, true, lines, 0);
    RewriteLength(checker, respect, true, lines);
    hide LineCheckerOf, Offends, BehindOff, ReadLines, Rewrite, Violations, Concat;
    forall i | 0 <= i < |lines|
      ensures if AtFault(isWord, check, text, i)
              then fixed[i] == LineCheckerOf(isWord, check)(lines[i]).fixed != lines[i]
              else fixed[i] == lines[i]
    {
      RejectedIff(isWord, check, lines[i]);
      assert Repairs(checker, lines[i]);
      if respect { SkippedIff(checker, true, lines, i); } else { RewriteAll(checker, true, lines, i); }
    }
  }

  /** The white space check strips every line of a file, guarded or not. */
  lemma WhitespaceEverywhere(isWord: char -> bool, text: string)
    requires WordsHaveNoSpace(isWord)
    ensures var lines, after := ReadLines(text), ReadLines(FixOne(isWord, Whitespace, text));
      |after| == |lines| && forall i :: 0 <= i < |lines| ==> after[i] == RStrip(Space, lines[i]) + "\n"
  {
    var lines := ReadLines(text);
    var fixed := FixedLineByLine(isWord, Whitespace, text);
    ReadLinesConcat(text);
    forall i | 0 <= i < |lines| ensures fixed[i] == RStrip(Space, lines[i]) + "\n" && IsLine(fixed[i]) {
      RejectedIff(isWord, Whitespace, lines[i]);
      WhitespaceRepaired(lines[i]);
    }
    ConcatReadLines(fixed);
  }

  /** The other checks leave every line behind an off marker as it is. */
  lemma GuardedLinesStay(isWord: char -> bool, check: StyleCheck, text: string) returns (fixed: seq<string>)
    requires WordsHaveNoSpace(isWord) && check != Whitespace
    ensures var lines := ReadLines(text);
      && |fixed| == |lines| && FixOne(isWord, check, text) == Concat(fixed)
      && forall i :: 0 <= i < |lines| && BehindOff(lines, i) ==> fixed[i] == lines[i]
  {
    fixed := FixedLineByLine(isWord, check, text);
  }
}
