/** The characters of the licence text and of the formatting guards, for the style checker of
    utils/check-style-clang-format.py: what cannot occur in them.
 */
module LicenseWords {
  import opened Text
  import opened StyleChecker
  import opened LineChecks

  // ----- the licence

  /** All that occurs in the licence: letters but X, digits, spaces and a few signs. */
  predicate Plain(c: char) {
    || 'a' <= c <= 'z' || ('A' <= c <= 'Z' && c != 'X') || '0' <= c <= '9'
    || c == ' ' || c == ';' || c == ',' || c == '.' || c == '-' || c == '/'
  }

  ghost predicate AllPlain(s: string) {
    forall i :: 0 <= i < |s| ==> Plain(s[i])
  }

  lemma PlainConcat(a: string, b: string)
    requires AllPlain(a) && AllPlain(b)
    ensures AllPlain(a + b)
  {
  }

  lemma WordsA1() ensures AllPlain("This program is free software; ") {}
  lemma WordsA2() ensures AllPlain("you can redistribute it") {}
  lemma WordsA3() ensures AllPlain(" and/or modify") {}
  lemma WordsB1() ensures AllPlain("it under the terms of the ") {}
  lemma WordsB2() ensures AllPlain("GNU General Public License") {}
  lemma WordsB3() ensures AllPlain(" version 2 as") {}
  lemma WordsC1() ensures AllPlain("published by the Free ") {}
  lemma WordsC2() ensures AllPlain("Software Foundation;") {}
  lemma WordsD1() ensures AllPlain("This program is distributed in ") {}
  lemma WordsD2() ensures AllPlain("the hope that it will be useful,") {}
  lemma WordsE1() ensures AllPlain("but WITHOUT ANY WARRANTY; ") {}
  lemma WordsE2() ensures AllPlain("without even the implied ") {}
  lemma WordsE3() ensures AllPlain("warranty of") {}
  lemma WordsF1() ensures AllPlain("MERCHANTABILITY or FITNESS FOR ") {}
  lemma WordsF2() ensures AllPlain("A PARTICULAR PURPOSE.  See the") {}
  lemma WordsG1() ensures AllPlain("GNU General Public License ") {}
  lemma WordsG2() ensures AllPlain("for more details.") {}
  lemma WordsH1() ensures AllPlain("You should have received a copy ") {}
  lemma WordsH2() ensures AllPlain("of the GNU General Public License") {}
  lemma WordsI1() ensures AllPlain("along with this program; ") {}
  lemma WordsI2() ensures AllPlain("if not, write to the Free Software") {}
  lemma WordsJ1() ensures AllPlain("Foundation, Inc., 59 Temple Place, ") {}
  lemma WordsJ2() ensures AllPlain("Suite 330, Boston, ") {}
  lemma WordsJ3() ensures AllPlain("MA  02111-1307  USA") {}

  lemma LineA()
    ensures AllPlain("This program is free software; " + "you can redistribute it" + " and/or modify")
  {
    hide AllPlain;
    WordsA1();
    WordsA2();
    WordsA3();
    PlainConcat("This program is free software; ", "you can redistribute it");
    PlainConcat("This program is free software; " + "you can redistribute it", " and/or modify");
  }

  lemma LineB()
    ensures AllPlain("it under the terms of the " + "GNU General Public License" + " version 2 as")
  {
    hide AllPlain;
    WordsB1();
    WordsB2();
    WordsB3();
    PlainConcat("it under the terms of the ", "GNU General Public License");
    PlainConcat("it under the terms of the " + "GNU General Public License", " version 2 as");
  }

  lemma LineC()
    ensures AllPlain("published by the Free " + "Software Foundation;")
  {
    hide AllPlain;
    WordsC1();
    WordsC2();
    PlainConcat("published by the Free ", "Software Foundation;");
  }

  lemma LineD()
    ensures AllPlain("This program is distributed in " + "the hope that it will be useful,")
  {
    hide AllPlain;
    WordsD1();
    WordsD2();
    PlainConcat("This program is distributed in ", "the hope that it will be useful,");
  }

  lemma LineE()
    ensures AllPlain("but WITHOUT ANY WARRANTY; " + "without even the implied " + "warranty of")
  {
    hide AllPlain;
    WordsE1();
    WordsE2();
    WordsE3();
    PlainConcat("but WITHOUT ANY WARRANTY; ", "without even the implied ");
    PlainConcat("but WITHOUT ANY WARRANTY; " + "without even the implied ", "warranty of");
  }

  lemma LineF()
    ensures AllPlain("MERCHANTABILITY or FITNESS FOR " + "A PARTICULAR PURPOSE.  See the")
  {
    hide AllPlain;
    WordsF1();
    WordsF2();
    PlainConcat("MERCHANTABILITY or FITNESS FOR ", "A PARTICULAR PURPOSE.  See the");
  }

  lemma LineG()
    ensures AllPlain("GNU General Public License " + "for more details.")
  {
    hide AllPlain;
    WordsG1();
    WordsG2();
    PlainConcat("GNU General Public License ", "for more details.");
  }

  lemma LineH()
    ensures AllPlain("You should have received a copy " + "of the GNU General Public License")
  {
    hide AllPlain;
    WordsH1();
    WordsH2();
    PlainConcat("You should have received a copy ", "of the GNU General Public License");
  }

  lemma LineI()
    ensures AllPlain("along with this program; " + "if not, write to the Free Software")
  {
    hide AllPlain;
    WordsI1();
    WordsI2();
    PlainConcat("along with this program; ", "if not, write to the Free Software");
  }

  lemma LineJ()
    ensures AllPlain("Foundation, Inc., 59 Temple Place, " + "Suite 330, Boston, " + "MA  02111-1307  USA")
  {
    hide AllPlain;
    WordsJ1();
    WordsJ2();
    WordsJ3();
    PlainConcat("Foundation, Inc., 59 Temple Place, ", "Suite 330, Boston, ");
    PlainConcat("Foundation, Inc., 59 Temple Place, " + "Suite 330, Boston, ", "MA  02111-1307  USA");
  }

  lemma LicensePlain(text: string)
    requires text in GPL_LICENSE_LINES
    ensures AllPlain(text)
  {
    hide AllPlain;
    LineA();
    LineB();
    LineC();
    LineD();
    LineE();
    LineF();
    LineG();
    LineH();
    LineI();
    LineJ();
  }

  // ----- the guards

  predicate GuardChar(c: char) {
    ('a' <= c <= 'z' && c != 'y') || c == ' ' || c == '#' || c == '/' || c == ':' || c == '-'
  }

  ghost predicate AllGuardChars(s: string) {
    forall i :: 0 <= i < |s| ==> GuardChar(s[i])
  }

  lemma ClangOnChars() ensures AllGuardChars("// clang-format on") {}
  lemma CMakeOnChars() ensures AllGuardChars("# cmake-format: on") {}
  lemma FmtOnChars() ensures AllGuardChars("# fmt: on") {}
  lemma ClangOffChars() ensures AllGuardChars("// clang-format off") {}
  lemma CMakeOffChars() ensures AllGuardChars("# cmake-format: off") {}
  lemma FmtOffChars() ensures AllGuardChars("# fmt: off") {}

  lemma GuardLetters(line: string)
    requires IsGuard(line)
    ensures AllGuardChars(Strip(Space, line))
  {
    hide AllGuardChars, Strip;
    ClangOnChars();
    CMakeOnChars();
    FmtOnChars();
    ClangOffChars();
    CMakeOffChars();
    FmtOffChars();
  }

  // ----- lines with other characters

  ghost predicate InLicense(text: string) { text in GPL_LICENSE_LINES }

  lemma StripKeepsChar(line: string, c: char)
    requires c in line && !In(Space, c)
    ensures c in Strip(Space, line)
  {
    var p, q := StripSplit(Space, line);
    hide Strip;
  }

  lemma NoGuardWith(line: string, c: char)
    requires c in line && !In(Space, c) && !GuardChar(c)
    ensures !IsGuard(line)
  {
    StripKeepsChar(line, c);
    hide Strip;
    if IsGuard(line) { GuardLetters(line); }
  }

  lemma NoLicenseWith(line: string, c: char)
    requires c in line && Solid(c) && !Plain(c)
    ensures !InLicense(LicenseText(line))
  {
    var p, q := LicenseSplit(line);
    hide LicenseText, Solid;
    if InLicense(LicenseText(line)) { LicensePlain(LicenseText(line)); }
  }

  lemma {:induction false} ExpandKeepsChar(s: string, column: nat, c: char)
    requires c in s && c != '\t'
    ensures c in ExpandTabs(s, column)
  {
    if c == s[0] {
      assert Expanded(s[0], column) == [c];
    } else {
      ExpandKeepsChar(s[1..], NextColumn(s[0], column), c);
    }
  }
}
