/** What fixing a file achieves, for every line checker that behaves like those of the script:
    the fixed file passes the same check, although a fix may itself create a guard line.
 */
module FixThenCheck {
  import opened Text
  import opened StyleChecker

  /** What the theorems need of a line checker. A line that is not compliant is replaced by
      something else: by nothing, or by a compliant line that ends where the old one ended.
      A guard is never turned into anything but the same kind of guard. */
  ghost predicate Repairs(check: LineChecker, line: string) {
    var r := check(line);
    !r.compliant ==>
      && r.fixed != line
      && (r.fixed != "" ==> IsLine(r.fixed) && (Ended(line) ==> Ended(r.fixed)) && check(r.fixed).compliant)
      && (IsGuard(line) ==> r.fixed != "" && IsGuard(r.fixed) && (IsOn(r.fixed) <==> IsOn(line)))
  }

  ghost predicate RepairsLines(check: LineChecker) {
    forall line :: IsLine(line) ==> Repairs(check, line)
  }

  lemma OnIsNotOff(line: string)
    ensures !(IsOn(line) && IsOff(line))
  {
  }

  // ----- the guards

  /** A line is skipped exactly when the last guard before it switches formatting off and the
      line is not a guard itself; skipped lines are never changed. */
  lemma {:induction false} SkippedIff(check: LineChecker, enabled: bool, lines: seq<string>, i: nat)
    requires i < |lines|
    ensures |Rewrite(check, true, enabled, lines)| == |lines|
    ensures Rewrite(check, true, enabled, lines)[i]
         == (if BehindOff(lines, i) || (!enabled && NoGuard(lines, 0, i + 1)) then lines[i] else Fixed(check, lines[i]))
    decreases |lines|
  {
    hide IsOn, IsOff, Fixed;
    var next, rest := Next(true, enabled, lines[0]), lines[1..];
    OnIsNotOff(lines[0]);
    RewriteLength(check, true, next, rest);
    if i == 0 {
    } else {
      SkippedIff(check, next, rest, i - 1);
      BehindOffTail(lines, i);
    }
  }

  /** No line of `lines[from..to]` is a guard. */
  ghost predicate NoGuard(lines: seq<string>, from: nat, to: nat)
    requires to <= |lines|
  {
    forall k :: from <= k < to ==> !IsGuard(lines[k])
  }

  /** Somewhere before line i there is an off marker, and no guard after it up to line i. */
  ghost predicate BehindOff(lines: seq<string>, i: nat)
    requires i < |lines|
  {
    exists j :: 0 <= j < i && IsOff(lines[j]) && NoGuard(lines, j + 1, i + 1)
  }

  lemma BehindOffTail(lines: seq<string>, i: nat)
    requires 0 < i < |lines|
    ensures NoGuard(lines, 1, i + 1) <==> NoGuard(lines[1..], 0, i)
    ensures BehindOff(lines, i) <==>
            BehindOff(lines[1..], i - 1) || (IsOff(lines[0]) && NoGuard(lines[1..], 0, i))
  {
  }

  lemma {:induction false} RewriteLength(check: LineChecker, respect: bool, enabled: bool, lines: seq<string>)
    ensures |Rewrite(check, respect, enabled, lines)| == |lines|
    decreases |lines|
  {
    if lines == [] {
    } else {
      RewriteLength(check, respect, Next(respect, enabled, lines[0]), lines[1..]);
    }
  }

  // ----- the verdict

  /** There is a violation exactly when the rewrite changes something. */
  lemma {:induction false} VerdictIff(check: LineChecker, respect: bool, enabled: bool, lines: seq<string>, number: nat)
    requires RepairsLines(check) && forall i :: 0 <= i < |lines| ==> IsLine(lines[i])
    ensures Violations(check, respect, enabled, lines, number) == []
            <==> Rewrite(check, respect, enabled, lines) == lines
    decreases |lines|
  {
    if lines == [] {
    } else {
      assert Repairs(check, lines[0]);
      VerdictIff(check, respect, Next(respect, enabled, lines[0]), lines[1..], number + 1);
    }
  }

  // ----- what is written and read again

  /** What is left of the lines once they are written to a file: those replaced by "" vanish. */
  function NonEmpty(lines: seq<string>): seq<string> {
    if lines == [] then []
    else (if lines[0] == "" then [] else [lines[0]]) + NonEmpty(lines[1..])
  }

  lemma {:induction false} ConcatNonEmpty(lines: seq<string>)
    ensures Concat(NonEmpty(lines)) == Concat(lines)
  {
    if lines == [] {
    } else {
      ConcatNonEmpty(lines[1..]);
      if lines[0] != "" {
        assert ([lines[0]] + NonEmpty(lines[1..]))[1..] == NonEmpty(lines[1..]);
      } else {
        assert NonEmpty(lines) == NonEmpty(lines[1..]);
      }
    }
  }

  /** The lines left after a rewrite are proper lines again. */
  lemma {:induction false} RewriteLines(check: LineChecker, respect: bool, enabled: bool, lines: seq<string>)
    requires RepairsLines(check) && AreLines(lines)
    ensures AreLines(NonEmpty(Rewrite(check, respect, enabled, lines)))
    decreases |lines|
  {
    if lines == [] {
    } else {
      var next := Next(respect, enabled, lines[0]);
      var rest := NonEmpty(Rewrite(check, respect, next, lines[1..]));
      assert Repairs(check, lines[0]);
      assert IsLine(lines[0]) && (|lines| > 1 ==> Ended(lines[0]));
      RewriteLines(check, respect, next, lines[1..]);
      if |lines| == 1 { assert rest == []; }
      var first := if Processed(respect, enabled, lines[0]) then Fixed(check, lines[0]) else lines[0];
      assert first != "" ==> IsLine(first) && (|lines| > 1 ==> Ended(first));
      var all := (if first == "" then [] else [first]) + rest;
      forall i | 0 <= i < |all| ensures IsLine(all[i]) && (i < |all| - 1 ==> Ended(all[i])) {
        if first != "" && i > 0 { assert all[i] == rest[i - 1]; }
      }
    }
  }

  /** Formatting stays disabled where it was disabled before, and the line is clean. A fix can
      create an off marker, which only disables more lines, or an on marker, but only where
      formatting was enabled already. */
  lemma FixedLineIsClean(check: LineChecker, respect: bool, enabled: bool, enabledAfter: bool, line: string)
    requires Repairs(check, line)
    requires respect && enabledAfter ==> enabled
    ensures var first := if Processed(respect, enabled, line) then Fixed(check, line) else line;
      && (first == "" && line != "" && respect && enabledAfter ==> Next(respect, enabled, line))
      && (respect && Next(respect, enabledAfter, first) ==> Next(respect, enabled, line) || first == "")
      && (first != "" && Processed(respect, enabledAfter, first) ==> check(first).compliant)
  {
  }

  /** After the rewrite the same check finds nothing. */
  lemma {:induction false} RewriteIsClean(check: LineChecker, respect: bool, enabled: bool, enabledAfter: bool,
                                          lines: seq<string>, number: nat)
    requires RepairsLines(check) && forall i :: 0 <= i < |lines| ==> IsLine(lines[i])
    requires respect && enabledAfter ==> enabled
    ensures Violations(check, respect, enabledAfter, NonEmpty(Rewrite(check, respect, enabled, lines)), number) == []
    decreases |lines|
  {
    if lines == [] {
    } else {
      hide Next, Processed, Fixed, Repairs;
      var line, next := lines[0], Next(respect, enabled, lines[0]);
      var first := if Processed(respect, enabled, line) then Fixed(check, line) else line;
      var rest := NonEmpty(Rewrite(check, respect, next, lines[1..]));
      assert Rewrite(check, respect, enabled, lines) == [first] + Rewrite(check, respect, next, lines[1..]);
      FixedLineIsClean(check, respect, enabled, enabledAfter, line);
      if first == "" {
        assert NonEmpty(Rewrite(check, respect, enabled, lines)) == rest;
        RewriteIsClean(check, respect, next, enabledAfter, lines[1..], number);
      } else {
        RewriteIsClean(check, respect, next, Next(respect, enabledAfter, first), lines[1..], number + 1);
        assert ([first] + rest)[1..] == rest;
      }
    }
  }

  /** Fix, then check: the fixed text is compliant, so fixing it again changes nothing. */
  lemma FixedIsCompliant(check: LineChecker, respect: bool, text: string)
    requires RepairsLines(check)
    ensures Violations(check, respect, true, ReadLines(FixedText(check, respect, text)), 0) == []
    ensures FixedText(check, respect, FixedText(check, respect, text)) == FixedText(check, respect, text)
  {
    var lines := ReadLines(text);
    ReadLinesConcat(text);
    if Violations(check, respect, true, lines, 0) != [] {
      var after := NonEmpty(Rewrite(check, respect, true, lines));
      RewriteLines(check, respect, true, lines);
      ConcatNonEmpty(Rewrite(check, respect, true, lines));
      ConcatReadLines(after);
      RewriteIsClean(check, respect, true, true, lines, 0);
    }
  }

  /** The verdict is "compliant" exactly when fixing leaves the file as it is. */
  lemma CompliantIffUnchanged(check: LineChecker, respect: bool, text: string)
    requires RepairsLines(check)
    ensures Violations(check, respect, true, ReadLines(text), 0) == [] <==> FixedText(check, respect, text) == text
  {
    FixedIsCompliant(check, respect, text);
  }
}
