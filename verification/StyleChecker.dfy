/** check_manually_file of utils/check-style-clang-format.py: the loop over the lines of a file,
    with the formatting guards, for an arbitrary line checker.
 */
module StyleChecker {
  import opened Text

  /** What a line checker returns: the verdict on the line and, for a line that is not
      compliant, its replacement. */
  datatype LineResult = LineResult(compliant: bool, fixed: string)

  type LineChecker = string -> LineResult

  const FORMAT_GUARD_ON: seq<string> := ["// clang-format on", "# cmake-format: on", "# fmt: on"]
  const FORMAT_GUARD_OFF: seq<string> := ["// clang-format off", "# cmake-format: off", "# fmt: off"]

  predicate IsOn(line: string) { Strip(Space, line) in FORMAT_GUARD_ON }

  predicate IsOff(line: string) { Strip(Space, line) in FORMAT_GUARD_OFF }

  predicate IsGuard(line: string) { IsOn(line) || IsOff(line) }

  // ----- the specification

  /** Whether formatting is enabled once `line` has been looked at. */
  function Next(respect: bool, enabled: bool, line: string): bool {
    if !respect then enabled else if IsOn(line) then true else if IsOff(line) then false else enabled
  }

  /** Whether `line` is handed to the line checker; guards always are. */
  predicate Processed(respect: bool, enabled: bool, line: string) {
    !respect || Next(respect, enabled, line) || IsGuard(line)
  }

  function Fixed(check: LineChecker, line: string): string {
    if check(line).compliant then line else check(line).fixed
  }

  /** The lines of the file with all processed lines fixed. */
  function Rewrite(check: LineChecker, respect: bool, enabled: bool, lines: seq<string>): seq<string>
    decreases |lines|
  {
    if lines == [] then []
    else [if Processed(respect, enabled, lines[0]) then Fixed(check, lines[0]) else lines[0]]
         + Rewrite(check, respect, Next(respect, enabled, lines[0]), lines[1..])
  }

  /** The numbers, from `number` on, of the processed lines that are not compliant. */
  function Violations(check: LineChecker, respect: bool, enabled: bool, lines: seq<string>, number: nat): seq<nat>
    decreases |lines|
  {
    if lines == [] then []
    else (if Processed(respect, enabled, lines[0]) && !check(lines[0]).compliant then [number] else [])
         + Violations(check, respect, Next(respect, enabled, lines[0]), lines[1..], number + 1)
  }

  /** The text of a file after a run that fixes it. */
  function FixedText(check: LineChecker, respect: bool, text: string): string {
    if Violations(check, respect, true, ReadLines(text), 0) == [] then text
    else Concat(Rewrite(check, respect, true, ReadLines(text)))
  }

  // ----- the loop

  class TextFile {
    var text: string

    constructor (text: string)
      ensures this.text == text
    {
      this.text := text;
    }
  }

  /** The state of the loop once `lines[..i]` has been processed, in terms of what is left. */
  ghost predicate Progress(check: LineChecker, respect: bool, lines: seq<string>, i: nat, enabled: bool,
                           fileLines: seq<string>, found: seq<nat>)
  {
    && i <= |lines| == |fileLines|
    && fileLines[i..] == lines[i..]
    && Rewrite(check, respect, true, lines) == fileLines[..i] + Rewrite(check, respect, enabled, lines[i..])
    && Violations(check, respect, true, lines, 0) == found + Violations(check, respect, enabled, lines[i..], i)
  }

  lemma OneMoreLine(check: LineChecker, respect: bool, enabled: bool, rest: seq<string>, i: nat)
    requires rest != []
    ensures var line, next := rest[0], Next(respect, enabled, rest[0]);
      var violated := Processed(respect, enabled, line) && !check(line).compliant;
      && Rewrite(check, respect, enabled, rest)
         == [if violated then check(line).fixed else line] + Rewrite(check, respect, next, rest[1..])
      && Violations(check, respect, enabled, rest, i)
         == (if violated then [i] else []) + Violations(check, respect, next, rest[1..], i + 1)
  {
  }

  lemma ProgressStep(check: LineChecker, respect: bool, lines: seq<string>, i: nat, enabled: bool,
                     fileLines: seq<string>, found: seq<nat>)
    requires i < |lines| && Progress(check, respect, lines, i, enabled, fileLines, found)
    ensures var line, next := lines[i], Next(respect, enabled, lines[i]);
      if Processed(respect, enabled, line) && !check(line).compliant
      then Progress(check, respect, lines, i + 1, next, fileLines[i := check(line).fixed], found + [i])
      else Progress(check, respect, lines, i + 1, next, fileLines, found)
  {
    hide Rewrite, Violations, Next, Processed;
    var line, next := lines[i], Next(respect, enabled, lines[i]);
    OneMoreLine(check, respect, enabled, lines[i..], i);
    assert lines[i..][0] == line && lines[i..][1..] == lines[i + 1..];
    assert fileLines[i] == fileLines[i..][0] == line;
    assert fileLines[i + 1..] == fileLines[i..][1..];
    var violated := Processed(respect, enabled, line) && !check(line).compliant;
    var newLines := if violated then fileLines[i := check(line).fixed] else fileLines;
    assert newLines[..i + 1] == fileLines[..i] + [newLines[i]];
    Regroup(fileLines[..i], [newLines[i]], Rewrite(check, respect, next, lines[i + 1..]));
    Regroup(found, if violated then [i] else [], Violations(check, respect, next, lines[i + 1..], i + 1));
  }

  lemma Regroup<T>(a: seq<T>, b: seq<T>, c: seq<T>)
    ensures a + (b + c) == a + b + c
  {
  }

  lemma ProgressEnds(check: LineChecker, respect: bool, lines: seq<string>, enabled: bool,
                     fileLines: seq<string>, found: seq<nat>)
    requires Progress(check, respect, lines, |lines|, enabled, fileLines, found)
    ensures Rewrite(check, respect, true, lines) == fileLines
    ensures Violations(check, respect, true, lines, 0) == found
  {
  }

  /** The verdict and the rewritten file do not depend on the early end of the loop; only the
      list of reported lines does, which then holds the first one alone. */
  method CheckManually(file: TextFile, fix: bool, verbose: bool, respect: bool, check: LineChecker)
    returns (compliant: bool, reported: seq<nat>)
    modifies file
    ensures var all := Violations(check, respect, true, ReadLines(old(file.text)), 0);
      && (compliant <==> all == [])
      && reported == (if fix || verbose || all == [] then all else all[..1])
    ensures file.text == if fix then FixedText(check, respect, old(file.text)) else old(file.text)
  {
    hide Rewrite, Violations, Strip, ReadLines, Concat, IsOn, IsOff;
    compliant, reported := true, [];
    var enabled := true;
    var lines := ReadLines(file.text);
    var fileLines := lines;
    for i := 0 to |lines|
      invariant Progress(check, respect, lines, i, enabled, fileLines, reported)
      invariant compliant <==> reported == []
      invariant !fix && !verbose ==> compliant
      invariant file.text == old(file.text)
    {
      var line := lines[i];
      ProgressStep(check, respect, lines, i, enabled, fileLines, reported);
      if respect {
        if IsOn(line) {
          enabled := true;
        } else if IsOff(line) {
          enabled := false;
        }
        if !enabled && !IsGuard(line) {
          continue;
        }
      }
      var result := check(line);
      if !result.compliant {
        compliant := false;
        fileLines := fileLines[i := result.fixed];
        reported := reported + [i];
        if !fix && !verbose {
          assert reported == [i];
          return;
        }
      }
    }
    ProgressEnds(check, respect, lines, enabled, fileLines, reported);
    if fix && !compliant {
      file.text := Concat(fileLines);
    }
  }
}
