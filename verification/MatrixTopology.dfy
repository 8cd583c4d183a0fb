/** The adjacency matrix of examples/matrix-topology/matrix-topology.cc: reading it from a file,
    printing it, and creating the links it asks for.
 */
module MatrixTopology {

  import opened CxxText

  type Matrix = seq<seq<bool>>

  ghost predicate Square(m: Matrix) {
    forall i :: 0 <= i < |m| ==> |m[i]| == |m|
  }

  // ----- extracting booleans

  datatype Scan = Value(element: bool, rest: string) | Fail

  /** operator>> of a bool: a number that is 0 or 1. */
  function ScanBool(s: string): (r: Scan)
    ensures r.Value? ==> |r.rest| < |s|
  {
    var t := SkipSpace(s);
    var signed := t != "" && (t[0] == '+' || t[0] == '-');
    var u := if signed then t[1..] else t;
    var n := DigitsLength(u);
    if n == 0 then Fail
    else
      var v := CxxText.Value(u[..n]);
      if v == 0 then Value(false, u[n..])
      else if v == 1 && !(signed && t[0] == '-') then Value(true, u[n..])
      else Fail
  }

  /** What is extracted, in full: 0 and 1 with either sign, except for -1; any other number ends the
      row, and so does anything that is no number. */
  lemma ScanIff(p: string, sign: string, digits: string, rest: string)
    requires (forall i :: 0 <= i < |p| ==> IsSpace(p[i])) && IsSign(sign)
    requires (forall i :: 0 <= i < |digits| ==> IsDigit(digits[i])) && (rest != "" ==> !IsDigit(rest[0]))
    requires sign + digits == "" && rest != "" ==> !IsSpace(rest[0]) && rest[0] != '+' && rest[0] != '-'
    ensures var r := ScanBool(p + (sign + (digits + rest)));
      && (digits == "" ==> r == Fail)
      && (digits != "" ==> var n := CxxText.Value(digits);
            r == if n == 0 then Value(false, rest) else if n == 1 && sign != "-" then Value(true, rest) else Fail)
  {
    hide SkipSpace, DigitsLength, IsSpace, CxxText.Value;
    NumberParts(p, sign, digits, rest);
  }

  /** The elements of a line, up to the first failure. */
  function ParseRow(line: string): seq<bool>
    decreases |line|
  {
    var scan := ScanBool(line);
    if scan.Fail? then [] else [scan.element] + ParseRow(scan.rest)
  }

  datatype Got = Got(line: string, rest: string, eof: bool)

  /** getline: the text up to the next newline, which is dropped, or up to the end of the file. */
  function GetLine(text: string): (g: Got)
    ensures g.eof || |g.rest| < |text|
  {
    var n := Find(text, '\n', 0);
    if n == |text| then Got(text, "", true) else Got(text[..n], text[n + 1..], false)
  }

  /** The rows of a text: one for every line before the first blank one. */
  function Rows(text: string): Matrix
    decreases |text|
  {
    var g := GetLine(text);
    if g.line == "" then []
    else [ParseRow(g.line)] + (if g.eof then [] else Rows(g.rest))
  }

  lemma RowsOfLine(line: string, rest: string)
    requires line != "" && '\n' !in line
    ensures Rows(line + "\n" + rest) == [ParseRow(line)] + Rows(rest)
  {
    hide ParseRow;
    var text := line + "\n" + rest;
    assert forall k :: 0 <= k < |line| ==> text[k] == line[k];
    assert text[|line|] == '\n';
    assert Find(text, '\n', 0) == |line|;
    assert text[..|line|] == line && text[|line| + 1..] == rest;
  }

  /** The rows of a text, line by line: a blank line or the end of the text ends them, and a line
      before the end of the text needs no line feed. */
  lemma RowsByLine(line: string, rest: string)
    requires '\n' !in line
    ensures Rows("") == [] && Rows("\n" + rest) == []
    ensures line != "" ==> Rows(line) == [ParseRow(line)]
    ensures line != "" ==> Rows(line + "\n" + rest) == [ParseRow(line)] + Rows(rest)
  {
    assert Find("", '\n', 0) == 0 && Find("\n" + rest, '\n', 0) == 0;
    assert Find(line, '\n', 0) == |line| && line[..|line|] == line;
    if line != "" { RowsOfLine(line, rest); }
  }

  // ----- reading

  datatype File = Missing | Contents(text: string)

  datatype Result = Ok(matrix: Matrix) | NotFound | BadRow(row: nat) | NotSquare(rows: nat, columns: nat)

  ghost predicate AllLength(rows: Matrix, n: nat) {
    forall k :: 0 <= k < |rows| ==> |rows[k]| == n
  }

  /** What reading a text with these rows should give: the rows if they form a square matrix;
      otherwise a fatal error with the first row of a different length, or with the two
      dimensions. */
  ghost predicate Judges(r: Result, rows: Matrix) {
    match r
    case Ok(matrix) => matrix == rows && Square(rows)
    case NotFound => false
    case BadRow(k) => 0 < k < |rows| && |rows[k]| != |rows[0]| && AllLength(rows[..k], |rows[0]|)
    case NotSquare(n, columns) =>
      && AllLength(rows, columns) && n == |rows| != columns
      && (rows == [] ==> columns == 0)
  }

  /** A text is accepted exactly if its rows form a square matrix. */
  lemma JudgesSquare(r: Result, rows: Matrix)
    requires Judges(r, rows)
    ensures r.Ok? <==> Square(rows)
  {
    if r.NotSquare? && rows != [] { assert |rows[0]| == r.columns; }
    if r.BadRow? { assert |rows[r.row]| != |rows[0]|; }
  }

  /** There is only one such verdict. */
  lemma OneVerdict(r: Result, q: Result, rows: Matrix)
    requires Judges(r, rows) && Judges(q, rows)
    ensures r == q
  {
    assert forall n, k :: 0 <= k < n < |rows| ==> rows[..n][k] == rows[k];
    JudgesSquare(r, rows);
    JudgesSquare(q, rows);
  }

  /** The rows read so far, followed by those of the rest, are the rows of the text. */
  ghost predicate Progress(text: string, matrix: Matrix, rest: string, eof: bool) {
    Rows(text) == matrix + (if eof then [] else Rows(rest))
  }

  /** One turn of the loop: a blank line ends the matrix, any other line adds its row. */
  lemma LineRead(text: string, matrix: Matrix, rest: string)
    requires Progress(text, matrix, rest, false)
    ensures var g := GetLine(rest);
      if g.line == "" then Progress(text, matrix, g.rest, true)
      else Progress(text, matrix + [ParseRow(g.line)], g.rest, g.eof)
  {
  }

  lemma BadRowJudged(text: string, before: Matrix, row: seq<bool>, rest: string, eof: bool, n: nat)
    requires Progress(text, before + [row], rest, eof)
    requires before != [] && AllLength(before, n) && |row| != n
    ensures Judges(BadRow(|before|), Rows(text))
  {
  }

  lemma RowsJudged(text: string, rows: Matrix, rest: string, n: nat)
    requires Progress(text, rows, rest, true)
    requires AllLength(rows, n) && (rows == [] ==> n == 0)
    ensures Judges(if |rows| != n then NotSquare(|rows|, n) else Ok(rows), Rows(text))
  {
  }

  lemma RowAdded(rows: Matrix, row: seq<bool>, n: nat)
    requires (rows == [] || AllLength(rows, n)) && |row| == n
    ensures AllLength(rows + [row], n)
  {
  }

  method ReadNxNMatrix(file: File) returns (r: Result)
    ensures r.NotFound? <==> file.Missing?
    ensures file.Contents? ==> Judges(r, Rows(file.text))
  {
    if file.Missing? {
      return NotFound;
    }
    var matrix: Matrix := [];
    var i: nat, nodes: nat := 0, 0;
    var rest, eof := file.text, false;
    assert Progress(file.text, matrix, rest, eof) && AllLength(matrix, nodes);
    hide Rows, ParseRow, GetLine, Judges, AllLength, Progress;
    while !eof
      invariant i == |matrix|
      invariant Progress(file.text, matrix, rest, eof)
      invariant AllLength(matrix, nodes)
      invariant i == 0 ==> nodes == 0
      decreases !eof, |rest|
    {
      LineRead(file.text, matrix, rest);
      var g := GetLine(rest);
      rest, eof := g.rest, g.eof;
      if g.line == "" {
        eof := true;
        break;
      }
      var row := ReadRow(g.line);
      if i == 0 {
        nodes := |row|;
      }
      if |row| != nodes {
        BadRowJudged(file.text, matrix, row, rest, eof, nodes);
        return BadRow(i);
      }
      RowAdded(matrix, row, nodes);
      matrix := matrix + [row];
      i := i + 1;
    }
    RowsJudged(file.text, matrix, rest, nodes);
    if i != nodes {
      return NotSquare(i, nodes);
    }
    return Ok(matrix);
  }

  method ReadRow(line: string) returns (row: seq<bool>)
    ensures row == ParseRow(line)
  {
    hide ScanBool;
    row := [];
    var scan := ScanBool(line);
    while scan.Value?
      invariant ParseRow(line) == row + (if scan.Value? then [scan.element] + ParseRow(scan.rest) else [])
      decreases if scan.Value? then |scan.rest| + 1 else 0
    {
      row := row + [scan.element];
      scan := ScanBool(scan.rest);
    }
  }

  // ----- printing

  function Digit(b: bool): char { if b then '1' else '0' }

  function PrintedRow(row: seq<bool>): string {
    if row == [] then "" else [Digit(row[0]), ' '] + PrintedRow(row[1..])
  }

  function Printed(m: Matrix): string {
    if m == [] then "" else PrintedRow(m[0]) + "\n" + Printed(m[1..])
  }

  /** The lines that printMatrix writes between its first and its last. */
  method PrintMatrix(m: Matrix) returns (out: string)
    ensures out == Printed(m)
  {
    hide PrintedRow;
    out := "";
    for i := 0 to |m|
      invariant Printed(m) == out + Printed(m[i..])
    {
      assert m[i..][0] == m[i] && m[i..][1..] == m[i + 1..];
      assert out + (PrintedRow(m[i]) + "\n" + Printed(m[i + 1..]))
          == out + PrintedRow(m[i]) + "\n" + Printed(m[i + 1..]);
      out := PrintRow(m[i], out);
      out := out + "\n";
    }
  }

  method PrintRow(row: seq<bool>, before: string) returns (out: string)
    ensures out == before + PrintedRow(row)
  {
    out := before;
    for j := 0 to |row|
      invariant before + PrintedRow(row) == out + PrintedRow(row[j..])
    {
      assert row[j..][1..] == row[j + 1..];
      out := out + [Digit(row[j]), ' '];
    }
  }

  /** One digit and one space for every element. */
  lemma {:induction false} PrintedRowAt(row: seq<bool>, j: nat)
    requires j < |row|
    ensures |PrintedRow(row)| == 2 * |row|
    ensures PrintedRow(row)[2 * j..2 * j + 2] == [if row[j] then '1' else '0', ' ']
  {
    hide *;
    var first, tail := [Digit(row[0]), ' '], PrintedRow(row[1..]);
    PrintedHead(row);
    PrintedRowParses(row);
    PrintedRowParses(row[1..]);
    if j == 0 {
      assert (first + tail)[..2] == first;
    } else {
      PrintedRowAt(row[1..], j - 1);
      BehindPair(first, tail, 2 * (j - 1));
    }
  }

  lemma PrintedHead(row: seq<bool>)
    requires row != []
    ensures PrintedRow(row) == [Digit(row[0]), ' '] + PrintedRow(row[1..])
    ensures Digit(row[0]) == if row[0] then '1' else '0'
  {
  }

  lemma BehindPair(first: string, tail: string, k: nat)
    requires |first| == 2 && k + 2 <= |tail|
    ensures (first + tail)[k + 2..k + 4] == tail[k..k + 2]
  {
  }

  lemma {:induction false} PrintedRowParses(row: seq<bool>)
    ensures ParseRow(PrintedRow(row)) == row
    ensures '\n' !in PrintedRow(row)
    ensures |PrintedRow(row)| == 2 * |row|
  {
    if row == [] {
      assert SkipSpace("") == "";
    } else {
      PrintedRowParses(row[1..]);
      ScanElement(row[0], PrintedRow(row[1..]));
    }
  }

  /** One printed element is extracted again; the space after it stays for the next one. */
  lemma ScanElement(b: bool, rest: string)
    ensures ParseRow([Digit(b), ' '] + rest) == [b] + ParseRow(rest)
  {
    var s := [Digit(b), ' '] + rest;
    assert SkipSpace(s) == s;
    assert s[1..] == " " + rest;
    assert DigitsLength(s[1..]) == 0;
    assert DigitsLength(s) == 1;
    assert s[..1] == [Digit(b)] && s[..1][..0] == "";
    assert CxxText.Value(s[..1]) == if b then 1 else 0;
    assert ScanBool(s) == Value(b, s[1..]);
    SpaceIsSkipped(rest);
  }

  lemma SpaceIsSkipped(s: string)
    ensures ParseRow(" " + s) == ParseRow(s)
  {
    assert (" " + s)[1..] == s;
    assert SkipSpace(" " + s) == SkipSpace(s);
    assert ScanBool(" " + s) == ScanBool(s);
  }

  /** Reading what was printed gives the matrix back, whatever its shape, as long as no row is
      empty (an empty row prints as a blank line, which ends the reading). */
  lemma {:induction false} PrintedRowsReturn(m: Matrix)
    requires forall i :: 0 <= i < |m| ==> m[i] != []
    ensures Rows(Printed(m)) == m
  {
    if m == [] {
    } else {
      var first, rest := PrintedRow(m[0]), Printed(m[1..]);
      PrintedRowsReturn(m[1..]);
      PrintedRowParses(m[0]);
      assert Printed(m) == first + "\n" + rest;
      hide Printed, PrintedRow, Rows, ParseRow;
      RowsOfLine(first, rest);
      assert m == [m[0]] + m[1..];
    }
  }

  /** A blank line ends the matrix, whatever comes after it. */
  lemma {:induction false} BlankLineEnds(m: Matrix, rest: string)
    requires forall i :: 0 <= i < |m| ==> m[i] != []
    ensures Rows(Printed(m) + "\n" + rest) == m
  {
    hide PrintedRow, Rows, ParseRow;
    if m == [] {
      RowsByLine("", rest);
      assert Printed(m) + "\n" + rest == "\n" + rest;
    } else {
      var first, others := PrintedRow(m[0]), Printed(m[1..]);
      assert Printed(m) == first + "\n" + others;
      hide Printed;
      BlankLineEnds(m[1..], rest);
      PrintedRowParses(m[0]);
      RowsOfLine(first, others + "\n" + rest);
      Regroup(first, others, rest);
      assert m == [m[0]] + m[1..];
    }
  }

  lemma Regroup(a: string, b: string, c: string)
    ensures a + "\n" + b + "\n" + c == a + "\n" + (b + "\n" + c)
  {
  }

  /** A number that is neither 0 nor 1 ends the row. */
  lemma {:induction false} OtherNumberEnds(row: seq<bool>, n: nat, rest: string)
    requires n >= 2 && (rest != "" ==> !IsDigit(rest[0]))
    ensures ParseRow(PrintedRow(row) + (ToString(n) + rest)) == row
  {
    hide ToString, ParseRow;
    var tail := ToString(n) + rest;
    if row == [] {
      NoElement(n, rest);
      assert PrintedRow(row) + tail == tail;
    } else {
      OtherNumberEnds(row[1..], n, rest);
      assert PrintedRow(row) + tail == [Digit(row[0]), ' '] + (PrintedRow(row[1..]) + tail);
      ScanElement(row[0], PrintedRow(row[1..]) + tail);
    }
  }

  lemma NoElement(n: nat, rest: string)
    requires n >= 2 && (rest != "" ==> !IsDigit(rest[0]))
    ensures ParseRow(ToString(n) + rest) == []
  {
    hide ToString, ScanBool;
    ToStringValue(n);
    ScanIff("", "", ToString(n), rest);
    assert "" + ("" + (ToString(n) + rest)) == ToString(n) + rest;
  }

  /** Printing and reading are inverse on the accepted matrices, including the empty one. */
  method RoundTrip(m: Matrix) returns (r: Result)
    ensures r == Ok(m) <==> Square(m)
  {
    var text := PrintMatrix(m);
    r := ReadNxNMatrix(Contents(text));
    JudgesSquare(r, Rows(text));
    hide Rows, Printed;
    if Square(m) {
      assert forall i :: 0 <= i < |m| ==> m[i] != [];
      PrintedRowsReturn(m);
    }
  }

  // ----- links

  /** The true entries among the first `n` of a row, and in the first `n` rows. */
  function TrueIn(row: seq<bool>, n: nat): nat
    requires n <= |row|
  {
    if n == 0 then 0 else TrueIn(row, n - 1) + (if row[n - 1] then 1 else 0)
  }

  function TrueEntries(m: Matrix, n: nat): nat
    requires n <= |m|
  {
    if n == 0 then 0 else TrueEntries(m, n - 1) + TrueIn(m[n - 1], |m[n - 1]|)
  }

  /** The 32-bit counter: one increment, and its value after any number of them. */
  function CountOne(count: nat): nat { (count + 1) % UINT32 }

  function Counted(n: nat): nat { n % UINT32 }

  lemma CountOneMore(n: nat)
    ensures Counted(n + 1) == CountOne(Counted(n))
  {
  }

  type Link = (nat, nat)

  predicate Before(a: Link, b: Link) { a.0 < b.0 || (a.0 == b.0 && a.1 < b.1) }

  ghost predicate Ordered(links: seq<Link>) {
    forall a, b :: 0 <= a < b < |links| ==> Before(links[a], links[b])
  }

  /** The links of all true entries before row `r`, column `c`, in the order of the entries. */
  ghost predicate LinksBefore(m: Matrix, links: seq<Link>, r: nat, c: nat) {
    && Ordered(links)
    && forall l :: l in links <==> l.0 < |m| && l.1 < |m[l.0]| && m[l.0][l.1] && Before(l, (r, c))
  }

  lemma NoLinks(m: Matrix)
    ensures LinksBefore(m, [], 0, 0) && Counted(0) == 0
  {
  }

  lemma NextEntry(m: Matrix, links: seq<Link>, r: nat, c: nat)
    requires LinksBefore(m, links, r, c) && r < |m| && c < |m[r]|
    ensures LinksBefore(m, if m[r][c] then links + [(r, c)] else links, r, c + 1)
  {
    assert forall k :: 0 <= k < |links| ==> links[k] in links;
  }

  lemma NextRow(m: Matrix, links: seq<Link>, r: nat)
    requires r < |m| && LinksBefore(m, links, r, |m[r]|)
    ensures LinksBefore(m, links, r + 1, 0)
  {
  }

  /** One link for every true entry, row by row; the counter is a 32-bit one. */
  method CreateLinks(m: Matrix) returns (links: seq<Link>, linkCount: nat)
    ensures LinksBefore(m, links, |m|, 0)
    ensures |links| == TrueEntries(m, |m|) && linkCount == |links| % 0x1_0000_0000
  {
    hide LinksBefore, CountOne, Counted;
    links, linkCount := [], 0;
    NoLinks(m);
    for i := 0 to |m|
      invariant LinksBefore(m, links, i, 0)
      invariant |links| == TrueEntries(m, i) && linkCount == Counted(|links|)
    {
      for j := 0 to |m[i]|
        invariant LinksBefore(m, links, i, j)
        invariant |links| == TrueEntries(m, i) + TrueIn(m[i], j) && linkCount == Counted(|links|)
      {
        NextEntry(m, links, i, j);
        if m[i][j] {
          links := links + [(i, j)];
          linkCount := CountOne(linkCount);
          CountOneMore(|links| - 1);
        }
      }
      NextRow(m, links, i);
    }
    CountedIs(|links|);
  }

  lemma CountedIs(n: nat)
    ensures Counted(n) == n % 0x1_0000_0000
  {
  }

  /** What that means for the whole matrix; in an accepted one the links join existing nodes. */
  lemma AllLinks(m: Matrix, links: seq<Link>)
    requires LinksBefore(m, links, |m|, 0)
    ensures forall l :: l in links <==> l.0 < |m| && l.1 < |m[l.0]| && m[l.0][l.1]
    ensures Ordered(links)
    ensures Square(m) ==> forall l :: l in links ==> l.0 < |m| && l.1 < |m|
  {
  }
}
