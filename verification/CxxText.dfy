/** Text and decimal numbers as the C++ library reads and writes them, and the word sizes. */
module CxxText {

  const UINT32: nat := 0x1_0000_0000
  const UINT64: nat := 0x1_0000_0000_0000_0000

  /** The first position of `c` from `from` on, or the end of the text. */
  function Find(s: string, c: char, from: nat): (n: nat)
    requires from <= |s|
    ensures from <= n <= |s|
    ensures forall i :: from <= i < n ==> s[i] != c
    ensures n < |s| ==> s[n] == c
    decreases |s| - from
  {
    if from == |s| || s[from] == c then from else Find(s, c, from + 1)
  }

  predicate IsDigit(c: char) { '0' <= c <= '9' }

  function DigitsLength(s: string): (n: nat)
    ensures n <= |s|
    ensures forall i :: 0 <= i < n ==> IsDigit(s[i])
    ensures n < |s| ==> !IsDigit(s[n])
  {
    if s != "" && IsDigit(s[0]) then
      assert forall i :: 1 <= i < |s| ==> s[1..][i - 1] == s[i];
      1 + DigitsLength(s[1..])
    else 0
  }

  function Value(digits: string): nat
    requires forall i :: 0 <= i < |digits| ==> IsDigit(digits[i])
  {
    if digits == "" then 0
    else
      var last := digits[|digits| - 1];
      assert IsDigit(last);
      10 * Value(digits[..|digits| - 1]) + (last as int - '0' as int)
  }

  predicate IsSpace(c: char) { c == ' ' || '\t' <= c <= '\r' }

  function SkipSpace(s: string): (t: string)
    ensures |t| <= |s| && (t != "" ==> !IsSpace(t[0]))
  {
    if s != "" && IsSpace(s[0]) then SkipSpace(s[1..]) else s
  }

  /** White space before anything else is skipped, and nothing else. */
  lemma {:induction false} SkipsSpace(p: string, t: string)
    requires (forall i :: 0 <= i < |p| ==> IsSpace(p[i])) && (t != "" ==> !IsSpace(t[0]))
    ensures SkipSpace(p + t) == t
  {
    if p == "" {
      assert p + t == t;
    } else {
      assert (p + t)[1..] == p[1..] + t;
      SkipsSpace(p[1..], t);
    }
  }

  /** A number, as the stream extracts it: an optional sign and digits. */
  predicate IsSign(sign: string) { sign == "" || sign == "+" || sign == "-" }

  lemma DigitsThen(digits: string, rest: string)
    requires (forall i :: 0 <= i < |digits| ==> IsDigit(digits[i])) && (rest != "" ==> !IsDigit(rest[0]))
    ensures var u := digits + rest;
      && DigitsLength(u) == |digits| && u[..|digits|] == digits && u[|digits|..] == rest
  {
    var u := digits + rest;
    assert forall i :: 0 <= i < |digits| ==> u[i] == digits[i];
    assert rest != "" ==> u[|digits|] == rest[0];
  }

  /** Where the sign and the digits of a number are found. */
  lemma NumberParts(p: string, sign: string, digits: string, rest: string)
    requires (forall i :: 0 <= i < |p| ==> IsSpace(p[i])) && IsSign(sign)
    requires (forall i :: 0 <= i < |digits| ==> IsDigit(digits[i])) && (rest != "" ==> !IsDigit(rest[0]))
    requires sign + digits == "" && rest != "" ==> !IsSpace(rest[0]) && rest[0] != '+' && rest[0] != '-'
    ensures var t := sign + (digits + rest);
      var signed := t != "" && (t[0] == '+' || t[0] == '-');
      var u := if signed then t[1..] else t;
      && SkipSpace(p + t) == t && (signed <==> sign != "") && (signed ==> (t[0] == '-' <==> sign == "-"))
      && DigitsLength(u) == |digits| && u[..|digits|] == digits && u[|digits|..] == rest
  {
    var t := sign + (digits + rest);
    hide DigitsLength, SkipSpace;
    FirstIsNoSpace(sign, digits, rest);
    SkipsSpace(p, t);
    DigitsThen(digits, rest);
    if sign == "" { assert t == digits + rest; } else { assert t[1..] == digits + rest; }
  }

  lemma FirstIsNoSpace(sign: string, digits: string, rest: string)
    requires IsSign(sign) && forall i :: 0 <= i < |digits| ==> IsDigit(digits[i])
    requires sign + digits == "" && rest != "" ==> !IsSpace(rest[0]) && rest[0] != '+' && rest[0] != '-'
    ensures var t := sign + (digits + rest);
      t != "" ==> !IsSpace(t[0]) && (sign == "" ==> t[0] != '+' && t[0] != '-')
  {
    var t := sign + (digits + rest);
    if sign != "" {
      assert t[0] == sign[0];
    } else if digits != "" {
      assert t[0] == digits[0];
    } else {
      assert t == rest;
    }
  }

  /** std::to_string. */
  function ToString(n: nat): string {
    (if n < 10 then "" else ToString(n / 10)) + [('0' as int + n % 10) as char]
  }

  lemma {:induction false} ToStringValue(n: nat)
    ensures ToString(n) != "" && forall i :: 0 <= i < |ToString(n)| ==> IsDigit(ToString(n)[i])
    ensures Value(ToString(n)) == n
    ensures n > 0 ==> ToString(n)[0] != '0'
    ensures n < 10 ==> |ToString(n)| == 1
  {
    if n >= 10 { ToStringValue(n / 10); }
    var front, last := if n < 10 then "" else ToString(n / 10), ('0' as int + n % 10) as char;
    hide ToString;
    AppendDigit(front, last);
  }

  lemma AppendDigit(front: string, last: char)
    requires IsDigit(last) && forall i :: 0 <= i < |front| ==> IsDigit(front[i])
    ensures forall i :: 0 <= i <= |front| ==> IsDigit((front + [last])[i])
    ensures Value(front + [last]) == 10 * Value(front) + (last as int - '0' as int)
  {
  }

  lemma {:induction false} AllDigits(s: string)
    requires forall i :: 0 <= i < |s| ==> IsDigit(s[i])
    ensures DigitsLength(s) == |s|
  {
  }
}
