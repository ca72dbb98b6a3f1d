/** Names of people and organizations. A Name is one string plus two byte
    offsets that delimit the surname inside it; every accessor slices that
    string. There are one-part names (organizations, mononyms), two-part
    names (forename and surname) and three-part names (forename, surname and
    a generational suffix such as "Jr."). */
module Names {
  import opened Wrappers
  import opened Whitespace
  import opened EmptyPartErrors

  /** The offsets are 16-bit in the source: a length or offset is stored
      modulo this, so they are exact only for texts shorter than it. */
  const OffsetLimit := 65536

  /** Go's `uint16(n)` conversion of a non-negative length: wrap-around. */
  function U16(n: nat): (r: nat)
    ensures r < OffsetLimit
    ensures n < OffsetLimit ==> r == n
  {
    n % OffsetLimit
  }

  /** A `uint16` value. */
  type Offset = n: nat | n < OffsetLimit

  datatype Name = Name(text: Bytes, boSurname: Offset, eoSurname: Offset)
  {
    /** What the slicing accessors need so that no slice is out of range (a
        slice out of range would panic): the offsets lie inside the text, and
        where the generation is sliced, from `eoSurname + 1` computed in 16
        bits, that start lies inside the text too. */
    predicate Sliceable()
    {
      && boSurname <= eoSurname <= |text|
      && (eoSurname != U16(|text|) ==> U16(eoSurname + 1) <= |text|)
    }

    /** The invariants documented beside the type, with the whitespace
        condition taken as the normalisation the constructors promise: no
        leading or trailing whitespace and no two whitespace bytes in a row
        (the documented part), and every whitespace byte a U+0020 space (what
        CleanString produces); the text fits the 16-bit offsets; and the
        offsets have one of the three shapes (simple, typical, generational). */
    predicate Invariant()
    {
      && IsClean(text)
      && |text| < OffsetLimit
      && boSurname <= eoSurname <= |text|
      && (boSurname == 0 ==> eoSurname == |text|)
      && (eoSurname != |text| ==> eoSurname < |text| - 1)
    }

    /** The invariant, plus a separating space before the surname when there
        is a forename and after it when there is a generation. */
    predicate WellFormed()
    {
      && Invariant()
      && (boSurname > 0 ==> text[boSurname - 1] == ' ')
      && (eoSurname < |text| ==> text[eoSurname] == ' ')
    }

    function Common(): Bytes
    {
      text
    }

    /** "Surname, Forename" (and " Generation"), or the text itself for a
        one-part name. */
    function FileAs(): Bytes
      requires Sliceable()
    {
      if boSurname == 0 then text
      else
        var faName := text[boSurname..eoSurname] + ", " + text[..boSurname - 1];
        if eoSurname < U16(|text|) then faName + " " + text[U16(eoSurname + 1)..] else faName
    }

    function Surname(): Bytes
      requires Sliceable()
    {
      text[boSurname..eoSurname]
    }

    function Forename(): Bytes
      requires Sliceable()
    {
      if boSurname == 0 then [] else text[..boSurname - 1]
    }

    function Generation(): Bytes
      requires Sliceable()
    {
      if eoSurname == U16(|text|) then [] else text[U16(eoSurname + 1)..]
    }

    function NumParts(): int
    {
      if boSurname == 0 then (if text == [] then 0 else 1)
      else if eoSurname == U16(|text|) then 2
      else 3
    }

    /** The `fmt.Stringer` rendering: the common form. */
    function String(): Bytes
    {
      text
    }
  }

  /** In a name that satisfies the invariants no 16-bit computation wraps. */
  lemma Unwrapped(n: Name)
    requires n.Invariant()
    ensures U16(|n.text|) == |n.text|
    ensures n.eoSurname < |n.text| ==> U16(n.eoSurname + 1) == n.eoSurname + 1
  {
  }

  /** The zero value `Name{}`: no parts. */
  const ZeroName := Name([], 0, 0)

  // ---------------------------------------------------------------------------
  // Constructors. Each returns the Name and, like Go's `error` result, either
  // no error or an EmptyPartError; on an error the Name is the zero value.

  /** NewName1 as written: the argument is cleaned only to decide whether it
      is blank; the raw argument is what gets stored. */
  function NewName1(text: Bytes): (r: (Name, Option<EmptyPartError>))
  {
    var t := Cleaned(text);
    if t == [] then (ZeroName, Some(EmptyPartError(1, text, [], [])))
    else (Name(text, 0, U16(|text|)), None)
  }

  /** NewName1 as documented: the cleaned argument is stored. */
  function NewName1Cleaned(text: Bytes): (r: (Name, Option<EmptyPartError>))
  {
    var t := Cleaned(text);
    if t == [] then (ZeroName, Some(EmptyPartError(1, text, [], [])))
    else (Name(t, 0, U16(|t|)), None)
  }

  /** NewName2: forename and surname, each cleaned, joined by one space. */
  function NewName2(forename: Bytes, surname: Bytes): (r: (Name, Option<EmptyPartError>))
  {
    var f := Cleaned(forename);
    var s := Cleaned(surname);
    if f == [] || s == [] then (ZeroName, Some(EmptyPartError(2, forename, surname, [])))
    else
      var text := f + " " + s;
      (Name(text, U16(|f| + 1), U16(|text|)), None)
  }

  /** NewName3: forename, surname and generation, each cleaned, joined by
      single spaces. */
  function NewName3(forename: Bytes, surname: Bytes, generation: Bytes): (r: (Name, Option<EmptyPartError>))
  {
    var f := Cleaned(forename);
    var s := Cleaned(surname);
    var g := Cleaned(generation);
    if f == [] || s == [] || g == [] then
      (ZeroName, Some(EmptyPartError(3, forename, surname, generation)))
    else
      var text := f + " " + s;
      (Name(text + " " + g, U16(|f| + 1), U16(|text|)), None)
  }

  // ---------------------------------------------------------------------------
  // What the constructors promise

  /** NewName1 fails exactly when its argument is empty or whitespace-only,
      and then returns the zero Name and the raw argument in the error. */
  lemma NewName1Failure(text: Bytes)
    ensures NewName1(text).1.Some? <==> AllSpace(text)
    ensures NewName1(text).1.Some? ==>
      && NewName1(text) == (ZeroName, Some(EmptyPartError(1, text, [], [])))
      && NewName1(text).1.value.BlankCount() == 1
  {
    CleanedEmptyIff(text);
    ReportedBlanks(EmptyPartError(1, text, [], []));
  }

  /** A successful NewName1 gives a one-part name whose common form, file-as
      form and surname are all the stored argument, raw as it was passed. */
  lemma NewName1Success(text: Bytes)
    requires |text| < OffsetLimit && !AllSpace(text)
    ensures var (n, err) := NewName1(text);
      && err.None? && n.Sliceable() && n.NumParts() == 1
      && n.Common() == text && n.Surname() == text && n.FileAs() == text
      && n.Forename() == [] && n.Generation() == []
  {
    CleanedEmptyIff(text);
  }

  /** NewName1's result satisfies the documented invariant exactly when its
      argument was already clean. */
  lemma NewName1InvariantIff(text: Bytes)
    requires |text| < OffsetLimit && !AllSpace(text)
    ensures NewName1(text).0.WellFormed() <==> Cleaned(text) == text
  {
    CleanedEmptyIff(text);
    CleanedFixedPointIff(text);
  }

  /** The corrected NewName1 fails on the same inputs and otherwise yields a
      well-formed one-part name holding the cleaned argument. */
  lemma NewName1CleanedSpec(text: Bytes)
    ensures NewName1Cleaned(text).1.Some? <==> AllSpace(text)
    ensures NewName1Cleaned(text).1.Some? ==>
      NewName1Cleaned(text) == (ZeroName, Some(EmptyPartError(1, text, [], [])))
    ensures !AllSpace(text) && |Cleaned(text)| < OffsetLimit ==>
      var n := NewName1Cleaned(text).0;
      && n.WellFormed() && n.NumParts() == 1
      && n.Common() == Cleaned(text) && n.Surname() == Cleaned(text)
      && n.FileAs() == Cleaned(text) && n.Forename() == [] && n.Generation() == []
  {
    CleanedEmptyIff(text);
    CleanedIsClean(text);
  }

  /** NewName2 fails exactly when either argument is blank, returning the zero
      Name and both raw arguments. */
  lemma NewName2Failure(forename: Bytes, surname: Bytes)
    ensures NewName2(forename, surname).1.Some? <==> AllSpace(forename) || AllSpace(surname)
    ensures NewName2(forename, surname).1.Some? ==>
      && NewName2(forename, surname) == (ZeroName, Some(EmptyPartError(2, forename, surname, [])))
      && NewName2(forename, surname).1.value.BlankCount()
         == (if AllSpace(forename) then 1 else 0) + (if AllSpace(surname) then 1 else 0)
  {
    CleanedEmptyIff(forename);
    CleanedEmptyIff(surname);
    ReportedBlanks(EmptyPartError(2, forename, surname, []));
  }

  /** A successful NewName2 yields a well-formed two-part name whose parts
      are the cleaned arguments. */
  lemma NewName2Success(forename: Bytes, surname: Bytes)
    requires |Cleaned(forename)| + 1 + |Cleaned(surname)| < OffsetLimit
    requires !AllSpace(forename) && !AllSpace(surname)
    ensures var (n, err) := NewName2(forename, surname);
      var f, s := Cleaned(forename), Cleaned(surname);
      && err.None? && n.WellFormed() && n.NumParts() == 2
      && n.Forename() == f && n.Surname() == s && n.Generation() == []
      && n.Common() == f + " " + s
      && n.FileAs() == s + ", " + f
  {
    CleanedEmptyIff(forename);
    CleanedEmptyIff(surname);
    CleanedIsClean(forename);
    CleanedIsClean(surname);
    TwoPartLayout(Cleaned(forename), Cleaned(surname));
  }

  /** NewName3 fails exactly when any argument is blank, returning the zero
      Name and all three raw arguments. */
  lemma NewName3Failure(forename: Bytes, surname: Bytes, generation: Bytes)
    ensures NewName3(forename, surname, generation).1.Some?
      <==> AllSpace(forename) || AllSpace(surname) || AllSpace(generation)
    ensures NewName3(forename, surname, generation).1.Some? ==>
      && NewName3(forename, surname, generation)
         == (ZeroName, Some(EmptyPartError(3, forename, surname, generation)))
      && NewName3(forename, surname, generation).1.value.BlankCount()
         == (if AllSpace(forename) then 1 else 0) + (if AllSpace(surname) then 1 else 0)
          + (if AllSpace(generation) then 1 else 0)
  {
    CleanedEmptyIff(forename);
    CleanedEmptyIff(surname);
    CleanedEmptyIff(generation);
    ReportedBlanks(EmptyPartError(3, forename, surname, generation));
  }

  /** A successful NewName3 yields a well-formed three-part name whose parts
      are the cleaned arguments. */
  lemma NewName3Success(forename: Bytes, surname: Bytes, generation: Bytes)
    requires |Cleaned(forename)| + 1 + |Cleaned(surname)| + 1 + |Cleaned(generation)| < OffsetLimit
    requires !AllSpace(forename) && !AllSpace(surname) && !AllSpace(generation)
    ensures var (n, err) := NewName3(forename, surname, generation);
      var f, s, g := Cleaned(forename), Cleaned(surname), Cleaned(generation);
      && err.None? && n.WellFormed() && n.NumParts() == 3
      && n.Forename() == f && n.Surname() == s && n.Generation() == g
      && n.Common() == f + " " + s + " " + g
      && n.FileAs() == s + ", " + f + " " + g
  {
    CleanedEmptyIff(forename);
    CleanedEmptyIff(surname);
    CleanedEmptyIff(generation);
    CleanedIsClean(forename);
    CleanedIsClean(surname);
    CleanedIsClean(generation);
    ThreePartLayout(Cleaned(forename), Cleaned(surname), Cleaned(generation));
  }

  /** The layout NewName2 builds: the surname starts after the forename and
      its space, and runs to the end. */
  lemma TwoPartLayout(f: Bytes, s: Bytes)
    requires IsClean(f) && IsClean(s) && f != [] && s != []
    requires |f| + 1 + |s| < OffsetLimit
    ensures var n := Name(f + " " + s, |f| + 1, |f + " " + s|);
      && n.WellFormed() && n.NumParts() == 2
      && n.Forename() == f && n.Surname() == s && n.Generation() == []
      && n.FileAs() == s + ", " + f
  {
    var text := f + " " + s;
    JoinIsClean(f, s);
    assert text[..|f|] == f && text[|f| + 1..] == s;
  }

  /** The layout NewName3 builds: forename, surname and generation, with the
      surname delimited by the two separating spaces. */
  lemma ThreePartLayout(f: Bytes, s: Bytes, g: Bytes)
    requires IsClean(f) && IsClean(s) && IsClean(g) && f != [] && s != [] && g != []
    requires |f| + 1 + |s| + 1 + |g| < OffsetLimit
    ensures var n := Name(f + " " + s + " " + g, |f| + 1, |f + " " + s|);
      && n.WellFormed() && n.NumParts() == 3
      && n.Forename() == f && n.Surname() == s && n.Generation() == g
      && n.FileAs() == s + ", " + f + " " + g
  {
    var text := f + " " + s;
    JoinIsClean(f, s);
    JoinIsClean(text, g);
    var full := text + " " + g;
    assert full[..|f|] == f && full[|f| + 1..|text|] == s && full[|text| + 1..] == g;
  }

  /** Two clean, non-empty strings joined by one space give a clean string. */
  lemma JoinIsClean(a: Bytes, b: Bytes)
    requires IsClean(a) && IsClean(b) && a != [] && b != []
    ensures IsClean(a + " " + b)
  {
    var t := a + " " + b;
    forall k | 0 <= k < |t|
      ensures IsSpace(t[k]) ==> t[k] == ' '
      ensures k > 0 ==> t[k - 1] != ' ' || t[k] != ' '
    {
      if k < |a| {
        assert t[k] == a[k];
      } else if k > |a| {
        assert t[k] == b[k - |a| - 1];
      }
      if 0 < k < |a| {
        assert t[k - 1] == a[k - 1];
      } else if k > |a| + 1 {
        assert t[k - 1] == b[k - |a| - 2];
      }
    }
  }

  // ---------------------------------------------------------------------------
  // What the accessors promise

  /** The zero Name has no parts and every accessor gives "". */
  lemma ZeroNameIsEmpty()
    ensures ZeroName.Sliceable() && ZeroName.NumParts() == 0
    ensures ZeroName.Common() == ZeroName.FileAs() == ZeroName.Surname() == []
    ensures ZeroName.Forename() == ZeroName.Generation() == ZeroName.String() == []
  {
  }

  /** NumParts is 0 only for the zero value. */
  lemma NumPartsZeroIff(n: Name)
    requires n.Sliceable()
    ensures n.NumParts() == 0 <==> n == ZeroName
  {
  }

  /** On a well-formed name the surname is empty only for the zero value,
      the forename only for zero and one-part names, and the generation for
      every name that is not a three-part one. */
  lemma AccessorsEmptyIff(n: Name)
    requires n.WellFormed()
    ensures 0 <= n.NumParts() <= 3
    ensures n.Surname() == [] <==> n.NumParts() == 0
    ensures n.Forename() == [] <==> n.NumParts() <= 1
    ensures n.Generation() == [] <==> n.NumParts() != 3
  {
    Unwrapped(n);
    var t, bo, eo := n.text, n.boSurname, n.eoSurname;
    if bo > 0 {
      assert t[0] != ' ';
      if eo == |t| {
        assert t[|t| - 1] != ' ';
      } else {
        assert t[eo - 1] != ' ';
      }
    }
  }

  /** The file-as form rearranges the parts of the common form: the surname
      moves to the front, followed by a comma, the forename and then the
      generation, if any; for zero and one-part names the two forms agree. */
  lemma FileAsRearrangesCommon(n: Name)
    requires n.WellFormed()
    ensures n.NumParts() <= 1 ==> n.FileAs() == n.Common() == n.Surname()
    ensures n.NumParts() == 2 ==>
      && n.Common() == n.Forename() + " " + n.Surname()
      && n.FileAs() == n.Surname() + ", " + n.Forename()
    ensures n.NumParts() == 3 ==>
      && n.Common() == n.Forename() + " " + n.Surname() + " " + n.Generation()
      && n.FileAs() == n.Surname() + ", " + n.Forename() + " " + n.Generation()
  {
    Unwrapped(n);
    if n.boSurname > 0 {
      if n.eoSurname < |n.text| {
        ThreePartForms(n);
      } else {
        TwoPartForms(n);
      }
    }
  }

  lemma TwoPartForms(n: Name)
    requires n.WellFormed() && n.boSurname > 0 && n.eoSurname == |n.text|
    ensures n.Common() == n.Forename() + " " + n.Surname()
    ensures n.FileAs() == n.Surname() + ", " + n.Forename()
  {
    Unwrapped(n);
    var t, bo := n.text, n.boSurname;
    assert t == t[..bo - 1] + " " + t[bo..|t|];
  }

  lemma ThreePartForms(n: Name)
    requires n.WellFormed() && n.boSurname > 0 && n.eoSurname < |n.text|
    ensures n.Common() == n.Forename() + " " + n.Surname() + " " + n.Generation()
    ensures n.FileAs() == n.Surname() + ", " + n.Forename() + " " + n.Generation()
  {
    Unwrapped(n);
    var t, bo, eo := n.text, n.boSurname, n.eoSurname;
    assert n.Generation() == t[eo + 1..];
    assert t == t[..bo - 1] + " " + t[bo..eo] + " " + t[eo + 1..];
  }

  /** A part cut out of a clean string between separating spaces (or the
      ends of the string) is itself clean. */
  lemma PartIsClean(t: Bytes, i: nat, j: nat)
    requires IsClean(t) && i < j <= |t|
    requires i > 0 ==> t[i - 1] == ' '
    requires j < |t| ==> t[j] == ' '
    ensures IsClean(t[i..j])
  {
    SliceKeepsSpacing(t, i, j);
    if i > 0 {
      assert t[i] != ' ';
    }
    if j < |t| {
      assert t[j - 1] != ' ';
    }
  }

  /** Feeding the common form of a well-formed one-part name back to
      NewName1 rebuilds the same name. */
  lemma OnePartRebuild(n: Name)
    requires n.WellFormed() && n.NumParts() == 1
    ensures NewName1(n.Common()) == (n, None)
  {
    CleanedFixesClean(n.text);
  }

  /** Feeding the forename and surname of a well-formed two-part name back to
      NewName2 rebuilds the same name. */
  lemma TwoPartRebuild(n: Name)
    requires n.WellFormed() && n.NumParts() == 2
    ensures NewName2(n.Forename(), n.Surname()) == (n, None)
  {
    Unwrapped(n);
    var f, s := n.Forename(), n.Surname();
    PartsAreClean(n);
    JoinAround(n.text, n.boSurname, n.eoSurname);
    NewName2Result(f, s);
  }

  /** Feeding the three parts of a well-formed three-part name back to
      NewName3 rebuilds the same name. */
  lemma ThreePartRebuild(n: Name)
    requires n.WellFormed() && n.NumParts() == 3
    ensures NewName3(n.Forename(), n.Surname(), n.Generation()) == (n, None)
  {
    Unwrapped(n);
    var f, s, g := n.Forename(), n.Surname(), n.Generation();
    PartsAreClean(n);
    JoinAround(n.text, n.boSurname, n.eoSurname);
    assert n.text == f + " " + s + " " + g;
    assert n.boSurname == |f| + 1 && n.eoSurname == |f + " " + s|;
    NewName3Result(f, s, g);
  }

  /** What a successful NewName2 builds, in terms of the cleaned arguments. */
  lemma NewName2Result(forename: Bytes, surname: Bytes)
    requires |Cleaned(forename)| + 1 + |Cleaned(surname)| < OffsetLimit
    requires Cleaned(forename) != [] && Cleaned(surname) != []
    ensures var f, s := Cleaned(forename), Cleaned(surname);
      NewName2(forename, surname) == (Name(f + " " + s, |f| + 1, |f + " " + s|), None)
  {
  }

  /** What a successful NewName3 builds, in terms of the cleaned arguments. */
  lemma NewName3Result(forename: Bytes, surname: Bytes, generation: Bytes)
    requires |Cleaned(forename)| + 1 + |Cleaned(surname)| + 1 + |Cleaned(generation)| < OffsetLimit
    requires Cleaned(forename) != [] && Cleaned(surname) != [] && Cleaned(generation) != []
    ensures var f, s, g := Cleaned(forename), Cleaned(surname), Cleaned(generation);
      NewName3(forename, surname, generation)
        == (Name(f + " " + s + " " + g, |f| + 1, |f + " " + s|), None)
  {
  }

  /** The parts of a well-formed name with a forename are non-empty and
      already clean. */
  lemma PartsAreClean(n: Name)
    requires n.WellFormed() && n.NumParts() >= 2
    ensures n.Forename() != [] && Cleaned(n.Forename()) == n.Forename()
    ensures n.Surname() != [] && Cleaned(n.Surname()) == n.Surname()
    ensures n.NumParts() == 3 ==> n.Generation() != [] && Cleaned(n.Generation()) == n.Generation()
  {
    AccessorsEmptyIff(n);
    ForenameIsFixed(n);
    SurnameIsFixed(n);
    if n.NumParts() == 3 {
      GenerationIsFixed(n);
    }
  }

  lemma ForenameIsFixed(n: Name)
    requires n.WellFormed() && n.boSurname > 0
    ensures Cleaned(n.Forename()) == n.Forename()
  {
    var t, bo := n.text, n.boSurname;
    assert t[0] != ' ';
    var p := n.Forename();
    assert p == t[0..bo - 1];
    PartIsFixed(t, 0, bo - 1, p);
  }

  lemma SurnameIsFixed(n: Name)
    requires n.WellFormed() && n.Surname() != []
    ensures Cleaned(n.Surname()) == n.Surname()
  {
    var p := n.Surname();
    PartIsFixed(n.text, n.boSurname, n.eoSurname, p);
  }

  lemma GenerationIsFixed(n: Name)
    requires n.WellFormed() && n.eoSurname < |n.text|
    ensures Cleaned(n.Generation()) == n.Generation()
  {
    Unwrapped(n);
    var t, eo := n.text, n.eoSurname;
    var p := n.Generation();
    assert p == t[eo + 1..|t|];
    PartIsFixed(t, eo + 1, |t|, p);
  }

  /** A part cut out of a clean string at separating spaces is left alone by
      CleanString. */
  lemma PartIsFixed(t: Bytes, i: nat, j: nat, p: Bytes)
    requires IsClean(t) && i < j <= |t| && p == t[i..j]
    requires i > 0 ==> t[i - 1] == ' '
    requires j < |t| ==> t[j] == ' '
    ensures Cleaned(p) == p
  {
    PartIsClean(t, i, j);
    CleanedFixesClean(p);
  }

  /** A string with a space before offset `bo` and, unless `eo` is its end, a
      space at `eo` is the pieces around those spaces joined by spaces. */
  lemma JoinAround(t: Bytes, bo: nat, eo: nat)
    requires 0 < bo <= eo <= |t| && t[bo - 1] == ' '
    requires eo < |t| ==> t[eo] == ' '
    ensures eo == |t| ==> t == t[..bo - 1] + " " + t[bo..eo]
    ensures eo < |t| ==> t == t[..bo - 1] + " " + t[bo..eo] + " " + t[eo + 1..]
  {
    if eo < |t| {
      assert t == t[..eo] + " " + t[eo + 1..];
      assert t[..eo] == t[..bo - 1] + " " + t[bo..eo];
    }
  }

  // ---------------------------------------------------------------------------
  // Whitespace tolerance

  /** Extra whitespace in the arguments makes no difference to the Name
      NewName2 builds, nor to whether it fails. */
  lemma NewName2IgnoresExtraWhitespace(forename: Bytes, surname: Bytes)
    ensures NewName2(Cleaned(forename), Cleaned(surname)).0 == NewName2(forename, surname).0
    ensures NewName2(Cleaned(forename), Cleaned(surname)).1.None?
        <==> NewName2(forename, surname).1.None?
  {
    CleanedIdempotent(forename);
    CleanedIdempotent(surname);
  }

  /** Extra whitespace in the arguments makes no difference to the Name
      NewName3 builds, nor to whether it fails. */
  lemma NewName3IgnoresExtraWhitespace(forename: Bytes, surname: Bytes, generation: Bytes)
    ensures NewName3(Cleaned(forename), Cleaned(surname), Cleaned(generation)).0
        == NewName3(forename, surname, generation).0
    ensures NewName3(Cleaned(forename), Cleaned(surname), Cleaned(generation)).1.None?
        <==> NewName3(forename, surname, generation).1.None?
  {
    CleanedIdempotent(forename);
    CleanedIdempotent(surname);
    CleanedIdempotent(generation);
  }

  /** The corrected NewName1 ignores extra whitespace too. */
  lemma NewName1CleanedIgnoresExtraWhitespace(text: Bytes)
    ensures NewName1Cleaned(Cleaned(text)).0 == NewName1Cleaned(text).0
    ensures NewName1Cleaned(Cleaned(text)).1.None? <==> NewName1Cleaned(text).1.None?
  {
    CleanedIdempotent(text);
  }

  /** NewName1 as written keeps the whitespace of its argument: "  Baen "
      is accepted and stored as is, so its common form is not clean, while
      the corrected constructor stores "Baen". */
  lemma NewName1KeepsRawText()
    ensures NewName1("  Baen ").1.None?
    ensures NewName1("  Baen ").0.Common() == "  Baen "
    ensures !NewName1("  Baen ").0.Invariant()
    ensures NewName1Cleaned("  Baen ").0.Common() == "Baen"
  {
    var raw: Bytes := "  Baen ";
    CleanedBaen();
    assert raw[0] == ' ';
  }

  /** The 16-bit offsets wrap: a one-part name of exactly 65536 bytes is
      accepted, but its end offset is stored as 0, so its surname comes out
      empty although the name is not the zero value. */
  lemma LongNameWraps(text: Bytes)
    requires |text| == OffsetLimit && !AllSpace(text)
    ensures var (n, err) := NewName1(text);
      && err.None? && n.Sliceable() && n != ZeroName && n.NumParts() == 1
      && n.Common() == text && n.Surname() == [] && n.FileAs() == text
  {
    CleanedEmptyIff(text);
  }

  /** The generation is sliced from `eoSurname + 1` computed in 16 bits: when
      the surname ends at offset 65535 that start wraps to 0, and the
      generation of a three-part name comes out as its whole text. */
  lemma LongGenerationWraps(forename: Bytes, surname: Bytes, generation: Bytes)
    requires !AllSpace(forename) && !AllSpace(surname) && !AllSpace(generation)
    requires |Cleaned(forename)| + 1 + |Cleaned(surname)| == OffsetLimit - 1
    requires |Cleaned(generation)| < OffsetLimit - 1
    ensures var (n, err) := NewName3(forename, surname, generation);
      && err.None? && n.Sliceable() && n.NumParts() == 3
      && n.Generation() == n.Common()
  {
    CleanedEmptyIff(forename);
    CleanedEmptyIff(surname);
    CleanedEmptyIff(generation);
    var n := NewName3(forename, surname, generation).0;
    var g := Cleaned(generation);
    assert |n.text| == OffsetLimit + |g|;
    assert U16(|n.text|) == |g|;
    assert n.eoSurname == OffsetLimit - 1;
    assert U16(n.eoSurname + 1) == 0;
  }

  /** The documented whitespace condition is weaker than the one the
      constructors promise: NewName1("a\tb") stores a text with no stray
      whitespace in the documented sense, yet its tab is not normalised to a
      space, so the Name does not satisfy the invariant. */
  lemma LoneTabName()
    ensures var (n, err) := NewName1("a\tb");
      && err.None? && NoStrayWhitespace(n.text) && !n.Invariant()
  {
    var t: Bytes := "a\tb";
    assert !IsSpace(t[0]) && IsSpace(t[1]) && t[1] != ' ';
    assert !IsSpace(t[2]);
  }

  lemma CleanedBaen()
    ensures Cleaned("  Baen ") == "Baen"
  {
    var w1: Bytes := "  ";
    var x: Bytes := "Baen";
    var w2: Bytes := " ";
    assert IsClean(x);
    CleanedStripsRuns(w1, x, w2);
    assert w1 + x + w2 == "  Baen ";
  }
}
