/** check_style_clang_format of utils/check-style-clang-format.py on one file: the enabled checks,
    one after the other, each fixing the text that the one before left behind.
 */
module FixSequence {
  import opened Text
  import opened StyleChecker
  import opened FixThenCheck
  import opened LineChecks
  import opened LineFixes

  // ----- one fix after another

  /** A fix of `fixer` leaves a line acceptable to `check`. */
  ghost predicate Keeps(check: LineChecker, fixer: LineChecker, line: string) {
    check(line).compliant && !fixer(line).compliant && fixer(line).fixed != "" ==> check(fixer(line).fixed).compliant
  }

  /** A fix neither drops a line nor makes or unmakes a guard. */
  ghost predicate LeavesGuards(fixer: LineChecker, line: string) {
    var fixed := Fixed(fixer, line);
    fixed != "" && (IsOn(fixed) <==> IsOn(line)) && (IsOff(fixed) <==> IsOff(line))
  }

  /** What is needed for a text that passes `check` to pass it still after the fixes. */
  ghost predicate Harmless(check: LineChecker, respect: bool, fixer: LineChecker, fixerRespects: bool) {
    && RepairsLines(fixer)
    && (forall line :: IsLine(line) ==> Keeps(check, fixer, line))
    && (respect && !fixerRespects ==> forall line :: IsLine(line) ==> LeavesGuards(fixer, line))
  }

  /** The line as the fixer leaves it, at the same place. */
  function After(fixer: LineChecker, fixerRespects: bool, enabled: bool, line: string): string {
    if Processed(fixerRespects, enabled, line) then Fixed(fixer, line) else line
  }

  /** One line: what is checked after the fix was checked before, and is still acceptable. */
  lemma LineStays(check: LineChecker, respect: bool, fixer: LineChecker, fixerRespects: bool,
                  enabled: bool, after: bool, enabledFixer: bool, line: string)
    requires Harmless(check, respect, fixer, fixerRespects) && IsLine(line)
    requires respect && fixerRespects ==> enabled == enabledFixer
    requires respect && after ==> enabled
    requires Processed(respect, enabled, line) ==> check(line).compliant
    ensures var first := After(fixer, fixerRespects, enabledFixer, line);
      && (first != "" && Processed(respect, after, first) ==> check(first).compliant)
      && (first != "" && respect && Next(respect, after, first) ==> Next(respect, enabled, line))
      && (first == "" && respect && after ==> Next(respect, enabled, line))
  {
    hide IsOn, IsOff;
    OnIsNotOff(line);
    OnIsNotOff(Fixed(fixer, line));
    assert Repairs(fixer, line) && Keeps(check, fixer, line);
    if respect && !fixerRespects { assert LeavesGuards(fixer, line); }
  }

  lemma {:induction false} CleanStays(check: LineChecker, respect: bool, fixer: LineChecker, fixerRespects: bool,
                                      enabled: bool, after: bool, enabledFixer: bool, lines: seq<string>,
                                      number: nat, numberAfter: nat)
    requires Harmless(check, respect, fixer, fixerRespects) && forall i :: 0 <= i < |lines| ==> IsLine(lines[i])
    requires respect && fixerRespects ==> enabled == enabledFixer
    requires respect && after ==> enabled
    requires Violations(check, respect, enabled, lines, number) == []
    ensures Violations(check, respect, after, NonEmpty(Rewrite(fixer, fixerRespects, enabledFixer, lines)), numberAfter)
            == []
    decreases |lines|
  {
    if lines == [] {
    } else {
      hide Next, Processed, Fixed, Harmless;
      var line := lines[0];
      var next, nextFixer := Next(respect, enabled, line), Next(fixerRespects, enabledFixer, line);
      var first := After(fixer, fixerRespects, enabledFixer, line);
      var rest := NonEmpty(Rewrite(fixer, fixerRespects, nextFixer, lines[1..]));
      LineStays(check, respect, fixer, fixerRespects, enabled, after, enabledFixer, line);
      SameNext(respect, fixerRespects, enabled, enabledFixer, line);
      assert Rewrite(fixer, fixerRespects, enabledFixer, lines)
          == [first] + Rewrite(fixer, fixerRespects, nextFixer, lines[1..]);
      if first == "" {
        assert NonEmpty(Rewrite(fixer, fixerRespects, enabledFixer, lines)) == rest;
        CleanStays(check, respect, fixer, fixerRespects, next, after, nextFixer, lines[1..], number + 1, numberAfter);
      } else {
        CleanStays(check, respect, fixer, fixerRespects, next, Next(respect, after, first), nextFixer, lines[1..],
                   number + 1, numberAfter + 1);
        assert ([first] + rest)[1..] == rest;
      }
    }
  }

  lemma SameNext(respect: bool, fixerRespects: bool, enabled: bool, enabledFixer: bool, line: string)
    requires respect && fixerRespects ==> enabled == enabledFixer
    ensures respect && fixerRespects ==> Next(respect, enabled, line) == Next(fixerRespects, enabledFixer, line)
  {
  }

  /** The lines of a fixed file. */
  lemma FixedLines(fixer: LineChecker, respect: bool, text: string)
    requires RepairsLines(fixer)
    ensures ReadLines(FixedText(fixer, respect, text)) == NonEmpty(Rewrite(fixer, respect, true, ReadLines(text)))
  {
    var lines := ReadLines(text);
    ReadLinesConcat(text);
    if Violations(fixer, respect, true, lines, 0) != [] {
      RewriteLines(fixer, respect, true, lines);
      ConcatNonEmpty(Rewrite(fixer, respect, true, lines));
      ConcatReadLines(NonEmpty(Rewrite(fixer, respect, true, lines)));
    } else {
      VerdictIff(fixer, respect, true, lines, 0);
      AllNonEmpty(lines);
    }
  }

  lemma {:induction false} AllNonEmpty(lines: seq<string>)
    requires forall i :: 0 <= i < |lines| ==> IsLine(lines[i])
    ensures NonEmpty(lines) == lines
  {
    if lines == [] {
    } else {
      AllNonEmpty(lines[1..]);
    }
  }

  /** A text that passes one check still does after the fixes of a harmless other one. */
  lemma FixKeepsClean(check: LineChecker, respect: bool, fixer: LineChecker, fixerRespects: bool, text: string)
    requires Harmless(check, respect, fixer, fixerRespects)
    requires Violations(check, respect, true, ReadLines(text), 0) == []
    ensures Violations(check, respect, true, ReadLines(FixedText(fixer, fixerRespects, text)), 0) == []
  {
    ReadLinesConcat(text);
    FixedLines(fixer, fixerRespects, text);
    hide FixedText, ReadLines;
    CleanStays(check, respect, fixer, fixerRespects, true, true, true, ReadLines(text), 0, 0);
  }
}
