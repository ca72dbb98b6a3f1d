/** Related names: a Name together with a three-letter relator code (such as
    "aut" for author or "ill" for illustrator), and the two errors that the
    RelatedName constructor reports. The Name is embedded in the source, so
    its accessors are reached here through the `name` field. */
module RelatedNames {
  import opened Wrappers
  import opened Whitespace
  import opened Names
  import opened GoFormat

  datatype RelatedName = RelatedName(name: Name, code0: Byte, code1: Byte, code2: Byte)
  {
    /** The relator code as a three-byte string. */
    function Relator(): Bytes
    {
      [code0, code1, code2]
    }

    /** The `fmt.Stringer` rendering: the common form of the name and the
        relator code in parentheses. */
    function String(): Bytes
    {
      var open: Bytes := " (";
      var close: Bytes := ")";
      name.text + open + Relator() + close
    }
  }

  /** The zero value `RelatedName{}`: the zero Name and three NUL bytes. */
  const ZeroRelatedName := RelatedName(ZeroName, '\0', '\0', '\0')

  predicate IsLowerLetter(b: Byte)
  {
    'a' <= b <= 'z'
  }

  /** What `^[a-z][a-z][a-z]$` matches: exactly three bytes, each a lower-case
      ASCII letter (in RE2 `$` matches only at the very end of the text). */
  predicate IsRelatorCode(code: Bytes)
  {
    |code| == 3 && IsLowerLetter(code[0]) && IsLowerLetter(code[1]) && IsLowerLetter(code[2])
  }

  /** The two errors NewRelatedName reports. `BadRelatorCode` keeps the Name
      and the rejected code; `BadName` keeps only the code. */
  datatype RelatedNameError = BadRelatorCode(n: Name, c: Bytes) | BadName(c: Bytes)
  {
    /** The error text; `quote` is Go's `%q` formatting of a string. */
    function Message(quote: Bytes -> Bytes): Bytes
    {
      match this
      case BadRelatorCode(n, c) => BadCodeHead + (quote(n.String()) + ([','] + quote(c) + BadCodeTail))
      case BadName(c) => BadCodeHead + (ZeroNameText + (quote(c) + BadNameTail))
    }
  }

  /** With `%q` quoting, the two error texts can always be told apart: after
      the common "NewRelatedName(" a bad code continues with the opening
      quote of the Name, a zero Name with "Name{}". */
  lemma MessagesDiffer(n: Name, c1: Bytes, c2: Bytes)
    ensures BadRelatorCode(n, c1).Message(Quote) != BadName(c2).Message(Quote)
  {
    CodeMessageQuotes(n, c1);
    NameMessageSpells(c2);
  }

  /** After its head, the bad-code text goes on with the quoted Name. */
  lemma CodeMessageQuotes(n: Name, c: Bytes)
    ensures |BadRelatorCode(n, c).Message(Quote)| > |BadCodeHead|
    ensures BadRelatorCode(n, c).Message(Quote)[|BadCodeHead|] == '"'
  {
    QuoteOpens(n.String());
    FirstAfter(BadCodeHead, Quote(n.String()), [','] + Quote(c) + BadCodeTail);
  }

  /** After the same head, the zero-Name text goes on with "Name{},". */
  lemma NameMessageSpells(c: Bytes)
    ensures |BadName(c).Message(Quote)| > |BadCodeHead|
    ensures BadName(c).Message(Quote)[|BadCodeHead|] == 'N'
  {
    FirstAfter(BadCodeHead, ZeroNameText, Quote(c) + BadNameTail);
  }

  lemma QuoteOpens(s: Bytes)
    ensures Quote(s) != [] && Quote(s)[0] == '"'
  {
  }

  /** The byte just after a prefix is the first byte of what follows it. */
  lemma FirstAfter(a: Bytes, b: Bytes, c: Bytes)
    requires b != []
    ensures |a + (b + c)| > |a| && (a + (b + c))[|a|] == b[0]
  {
  }

  const BadCodeHead: Bytes := "NewRelatedName("
  const BadCodeTail: Bytes := "): need /^[a-z][a-z][a-z]$/ for 2nd arg"
  const ZeroNameText: Bytes := "Name{},"
  const BadNameTail: Bytes := "): need a non-zero-value Name"

  /** NewRelatedName: the relator code is checked first, then the Name; on
      success the Name is copied and the three code bytes stored. */
  function NewRelatedName(n: Name, relatorCode: Bytes): (RelatedName, Option<RelatedNameError>)
  {
    if !IsRelatorCode(relatorCode) then
      (ZeroRelatedName, Some(BadRelatorCode(n, relatorCode)))
    else if n.NumParts() == 0 then
      (ZeroRelatedName, Some(BadName(relatorCode)))
    else
      (RelatedName(n, relatorCode[0], relatorCode[1], relatorCode[2]), None)
  }

  /** NewRelatedName fails exactly when the code is not three lower-case
      letters or the Name is the zero value; a bad code is reported in
      preference to a zero Name, and a failure returns the zero RelatedName. */
  lemma NewRelatedNameFailure(n: Name, relatorCode: Bytes)
    requires n.Sliceable()
    ensures NewRelatedName(n, relatorCode).1.Some?
      <==> !IsRelatorCode(relatorCode) || n == ZeroName
    ensures !IsRelatorCode(relatorCode) ==>
      NewRelatedName(n, relatorCode) == (ZeroRelatedName, Some(BadRelatorCode(n, relatorCode)))
    ensures IsRelatorCode(relatorCode) && n == ZeroName ==>
      NewRelatedName(n, relatorCode) == (ZeroRelatedName, Some(BadName(relatorCode)))
  {
    NumPartsZeroIff(n);
  }

  /** A successful NewRelatedName keeps the Name unchanged and gives back the
      code it was passed; its string form is the common form followed by the
      code in parentheses. */
  lemma NewRelatedNameSuccess(n: Name, relatorCode: Bytes)
    requires IsRelatorCode(relatorCode) && n.NumParts() != 0
    ensures var (rn, err) := NewRelatedName(n, relatorCode);
      && err.None? && rn.name == n && rn.Relator() == relatorCode
      && rn.String() == n.Common() + " (" + relatorCode + ")"
  {
    var rn := NewRelatedName(n, relatorCode).0;
    assert rn.Relator() == relatorCode;
  }

  /** Every RelatedName that NewRelatedName can build is rebuilt from its
      Name and its relator code. */
  lemma RelatorRoundTrip(rn: RelatedName)
    requires IsLowerLetter(rn.code0) && IsLowerLetter(rn.code1) && IsLowerLetter(rn.code2)
    requires rn.name.NumParts() != 0
    ensures IsRelatorCode(rn.Relator())
    ensures NewRelatedName(rn.name, rn.Relator()) == (rn, None)
  {
  }
}
