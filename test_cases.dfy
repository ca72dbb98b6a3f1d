/** The behaviour the package's own tests check, stated as lemmas about the
    model: CleanString on the test inputs, the accessors of the names the
    tests build, the error values and texts, and the RelatedName cases. */
module TestCases {
  import opened Wrappers
  import opened Whitespace
  import opened EmptyPartErrors
  import opened Names
  import opened RelatedNames

  // ---------------------------------------------------------------------------
  // CleanString

  /** Runs of whitespace between words become single spaces and a trailing
      run disappears: "a     b\nc   " cleans to "a b c", and so does every
      string of that shape. */
  lemma CleanMixedRuns(a: Byte, w1: Bytes, b: Byte, w2: Bytes, c: Byte, w3: Bytes)
    requires !IsSpace(a) && !IsSpace(b) && !IsSpace(c)
    requires w1 != [] && AllSpace(w1) && w2 != [] && AllSpace(w2) && w3 != [] && AllSpace(w3)
    ensures Cleaned([a] + w1 + [b] + w2 + [c] + w3) == [a, ' ', b, ' ', c]
  {
    var collapsed := [a, ' ', b, ' ', c, ' '];
    CollapseMixedRuns(a, w1, b, w2, c, w3);
    assert collapsed[0..5] == [a, ' ', b, ' ', c];
  }

  lemma CollapseMixedRuns(a: Byte, w1: Bytes, b: Byte, w2: Bytes, c: Byte, w3: Bytes)
    requires !IsSpace(a) && !IsSpace(b) && !IsSpace(c)
    requires w1 != [] && AllSpace(w1) && w2 != [] && AllSpace(w2) && w3 != [] && AllSpace(w3)
    ensures Collapse([a] + w1 + [b] + w2 + [c] + w3, false) == [a, ' ', b, ' ', c, ' ']
  {
    var r2: Bytes := [b] + (w2 + ([c] + w3));
    CollapseMixedTail(b, w2, c, w3);
    CollapseWordRun(a, w1, r2);
    assert [a] + (w1 + r2) == [a] + w1 + [b] + w2 + [c] + w3;
  }

  lemma CollapseMixedTail(b: Byte, w2: Bytes, c: Byte, w3: Bytes)
    requires !IsSpace(b) && !IsSpace(c)
    requires w2 != [] && AllSpace(w2) && w3 != [] && AllSpace(w3)
    ensures Collapse([b] + (w2 + ([c] + w3)), true) == [b, ' ', c, ' ']
  {
    CollapseWordRun(c, w3, []);
    assert w3 + [] == w3;
    CollapseWordRun(b, w2, [c] + w3);
  }

  /** A word byte followed by a run of whitespace: the byte and one space. */
  lemma CollapseWordRun(x: Byte, w: Bytes, rest: Bytes)
    requires !IsSpace(x) && w != [] && AllSpace(w)
    ensures forall inRun :: Collapse([x] + (w + rest), inRun) == [x, ' '] + Collapse(rest, true)
  {
    CollapseSpaceRun(w, rest, false);
    forall inRun: bool
      ensures Collapse([x] + (w + rest), inRun) == [x, ' '] + Collapse(rest, true)
    {
      CollapseSpaceFree([x], w + rest, inRun);
    }
  }

  /** The empty string and a string of whitespace clean to "". */
  lemma CleanBlank()
    ensures Cleaned("") == ""
    ensures Cleaned("\n    \r") == ""
  {
    CleanedEmptyIff("\n    \r");
  }

  /** Bytes that are not ASCII whitespace, such as the UTF-8 encoding of
      "«»", are left alone. */
  lemma CleanNonAscii()
    ensures Cleaned(['Â', '«', 'Â', '»']) == ['Â', '«', 'Â', '»']
  {
    CleanedKeepsSpaceFree(['Â', '«', 'Â', '»']);
  }

  /** A leading run of spaces is removed. */
  lemma CleanLeadingSpaces()
    ensures Cleaned("  x") == "x"
  {
    var x: Bytes := "x";
    var two: Bytes := "  ";
    CollapseSpaceFree(x, [], true);
    CollapseSpaceRun(two, x, false);
    assert x + [] == x;
    assert two + x == "  x";
  }

  /** A trailing run of spaces is removed. */
  lemma CleanTrailingSpaces()
    ensures Cleaned("x  ") == "x"
  {
    var x: Bytes := "x";
    var two: Bytes := "  ";
    CollapseSpaceRun(two, [], false);
    CollapseSpaceFree(x, two, false);
    assert x + two == "x  ";
    assert two + [] == two;
  }

  /** Runs on both sides are removed. */
  lemma CleanSurroundingSpaces()
    ensures Cleaned("  x   ") == "x"
  {
    var x: Bytes := "x";
    var two: Bytes := "  ";
    var three: Bytes := "   ";
    CollapseSpaceRun(three, [], false);
    CollapseSpaceFree(x, three, true);
    CollapseSpaceRun(two, x + three, false);
    assert two + (x + three) == "  x   ";
    assert three + [] == three;
  }

  // ---------------------------------------------------------------------------
  // Names built without errors

  /** A one-part name: every form is the argument itself. */
  lemma BaenBooks()
    ensures var (n, err) := NewName1("Baen Books");
      && err.None? && n.NumParts() == 1
      && n.Common() == n.String() == n.FileAs() == n.Surname() == "Baen Books"
      && n.Forename() == "" && n.Generation() == ""
  {
    var text: Bytes := "Baen Books";
    assert !IsSpace(text[0]);
    NewName1Success(text);
  }

  /** A two-part name: the file-as form puts the surname first. */
  lemma DaveFreer()
    ensures var (n, err) := NewName2(Dave, Freer);
      && err.None? && n.NumParts() == 2
      && n.Common() == n.String() == Dave + " " + Freer && n.FileAs() == Freer + ", " + Dave
      && n.Surname() == Freer && n.Forename() == Dave && n.Generation() == ""
  {
    CleanedKeepsSpaceFree(Dave);
    CleanedKeepsSpaceFree(Freer);
    NewName2Success(Dave, Freer);
  }

  const Dave: Bytes := "Dave"
  const Freer: Bytes := "Freer"

  /** A three-part name; the extra whitespace around the arguments is
      dropped. */
  lemma WilliamKeithJr()
    ensures var (n, err) := NewName3(WilliamH + "  ", "      " + Keith, Jr);
      && err.None? && n.NumParts() == 3
      && n.Common() == WilliamH + " " + Keith + " " + Jr
      && n.FileAs() == Keith + ", " + WilliamH + " " + Jr
      && n.Surname() == Keith && n.Forename() == WilliamH && n.Generation() == Jr
  {
    var f: Bytes := WilliamH + "  ";
    var s: Bytes := "      " + Keith;
    assert IsClean(WilliamH) by {
      assert forall i :: 0 <= i < |WilliamH| ==> WilliamH[i] != ' ' || i == 7;
    }
    CleanedStripsRuns([], WilliamH, "  ");
    assert [] + WilliamH + "  " == f;
    CleanedStripsRuns("      ", Keith, []);
    assert "      " + Keith + [] == s;
    CleanedKeepsSpaceFree(Jr);
    CleanedEmptyIff(f);
    CleanedEmptyIff(s);
    CleanedEmptyIff(Jr);
    NewName3Success(f, s, Jr);
  }

  const WilliamH: Bytes := "William H."
  const Keith: Bytes := "Keith"
  const Jr: Bytes := "Jr."

  // ---------------------------------------------------------------------------
  // Related names

  const Sarah: Bytes := "Sarah"
  const AInitial: Bytes := "A."
  const Hoyt: Bytes := "Hoyt"

  /** The forename argument of the related-name tests, with a run of tabs and
      spaces inside it and two spaces after it. */
  const SarahArg: Bytes := Sarah + " \t\t\t " + AInitial + "  "

  lemma CollapseSarahArg()
    ensures Collapse(SarahArg, false) == Sarah + " " + AInitial + " "
  {
    var w1: Bytes := " \t\t\t ";
    var w2: Bytes := "  ";
    CollapseSpaceRun(w2, [], false);
    assert w2 + [] == w2;
    CollapseSpaceFree(AInitial, w2, true);
    CollapseSpaceRun(w1, AInitial + w2, false);
    CollapseSpaceFree(Sarah, w1 + (AInitial + w2), false);
    assert Sarah + (w1 + (AInitial + w2)) == SarahArg;
  }

  lemma CleanSarahArg()
    ensures Cleaned(SarahArg) == Sarah + " " + AInitial
  {
    CollapseSarahArg();
    var c := Sarah + " " + AInitial + " ";
    assert c[0] == 'S' && c[|c| - 1] == ' ';
    assert c[0..|c| - 1] == Sarah + " " + AInitial;
  }

  /** The Name the related-name tests start from. */
  lemma SarahHoyt()
    ensures var (n, err) := NewName2(SarahArg, Hoyt + "   ");
      && err.None? && n.NumParts() == 2
      && n.Common() == Sarah + " " + AInitial + " " + Hoyt
      && n.FileAs() == Hoyt + ", " + Sarah + " " + AInitial
      && n.Forename() == Sarah + " " + AInitial && n.Surname() == Hoyt && n.Generation() == ""
  {
    CleanSarahArg();
    CleanedStripsRuns([], Hoyt, "   ");
    assert [] + Hoyt + "   " == Hoyt + "   ";
    CleanedEmptyIff(SarahArg);
    CleanedEmptyIff(Hoyt + "   ");
    NewName2Success(SarahArg, Hoyt + "   ");
  }

  /** The zero Name is refused with a BadName error. */
  lemma ZeroNameRefused()
    ensures NewRelatedName(ZeroName, "aut") == (ZeroRelatedName, Some(BadName("aut")))
  {
    var aut: Bytes := "aut";
    assert IsRelatorCode(aut);
  }

  /** Codes that are not exactly three lower-case letters are refused with a
      BadRelatorCode error carrying the Name and the code, whatever the Name. */
  lemma BadCodesRefused(n: Name)
    ensures forall code | code in ["Aut", "aut.", " aut", "aut ", " aut ", "au", "", "author"] ::
      NewRelatedName(n, code) == (ZeroRelatedName, Some(BadRelatorCode(n, code)))
  {
    forall code | code in ["Aut", "aut.", " aut", "aut ", " aut ", "au", "", "author"]
      ensures !IsRelatorCode(code)
    {
    }
  }

  /** The related name of the tests: its accessors are those of the Name and
      its string form adds the code. */
  lemma SarahHoytAuthor()
    ensures var (n, _) := NewName2(SarahArg, Hoyt + "   ");
      var (rn, err) := NewRelatedName(n, "aut");
      && err.None? && rn.Relator() == "aut" && rn.name == n
      && rn.String() == Sarah + " " + AInitial + " " + Hoyt + " (aut)"
  {
    var n := NewName2(SarahArg, Hoyt + "   ").0;
    SarahHoyt();
    var aut: Bytes := "aut";
    assert IsRelatorCode(aut);
    NewRelatedNameSuccess(n, aut);
  }

  // ---------------------------------------------------------------------------
  // Error values

  /** A blank argument to NewName1 is reported with its original whitespace,
      as one blank argument. */
  lemma NewName1Blank()
    ensures var (n, err) := NewName1(" \t ");
      && n == ZeroName && err == Some(EmptyPartError(1, " \t ", "", ""))
      && err.value.BlankCount() == 1
  {
    NewName1Failure(" \t ");
    assert AllSpace(" \t ");
  }

  /** One blank argument out of two: the singular form. */
  lemma NewName2BlankForename()
    ensures var (n, err) := NewName2("", Smith);
      && n == ZeroName && err == Some(EmptyPartError(2, "", Smith, ""))
      && err.value.BlankCount() == 1
  {
    NewName2Failure([], Smith);
    assert !IsSpace(Smith[0]);
  }

  /** The same with the blank argument second. */
  lemma NewName2BlankSurname()
    ensures var (n, err) := NewName2(John, "");
      && n == ZeroName && err == Some(EmptyPartError(2, John, "", ""))
      && err.value.BlankCount() == 1
  {
    NewName2Failure(John, []);
    assert !IsSpace(John[1]);
  }

  const John: Bytes := " John "
  const Smith: Bytes := "Smith"

  /** Two blank arguments: the plural form. */
  lemma NewName2TwoBlanks()
    ensures var (n, err) := NewName2(" ", "\t");
      && n == ZeroName && err == Some(EmptyPartError(2, " ", "\t", ""))
      && err.value.BlankCount() == 2
  {
    NewName2Failure(" ", "\t");
  }
}
