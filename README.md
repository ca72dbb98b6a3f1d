# relname in Dafny

A model of the Go package `relname` (c12h/relname). The package holds the names of
people and organizations as they appear in ebook metadata. It has three parts:

- `CleanString` normalises whitespace.
- `Name` holds a one-, two- or three-part name. It is stored as one string plus two
  16-bit byte offsets that delimit the surname. Its accessors give the common form
  ("Dave Freer"), the file-as form ("Freer, Dave"), the surname, the forename, the
  generational suffix and the number of parts.
- `RelatedName` pairs a Name with a three-letter MARC relator code such as "aut".

The constructors report blank arguments with an `EmptyPartError`. `NewRelatedName`
reports a bad relator code or a zero Name with `BadRelatorCode` or `BadName`.

How the model is laid out:

- A Go string is a sequence of bytes (`Whitespace.Bytes`).
- `CleanString` is an imperative method. It makes the same left-to-right scan as the
  regular-expression replacement, then moves the same `first`/`last` indices. It is
  proved equal to the specification function `Whitespace.Cleaned`.
- `Name`, `RelatedName` and the error values are immutable values in Go, so they are
  datatypes here. Their methods are functions.
- Each constructor returns a pair: the value and an `Option` of the error, like Go's
  `(Name, error)`. On failure the value is the zero value.
- `EmptyPartError.Error` is a method with the source's `switch` and `fallthrough`
  structure. It is proved equal to a specification function `Message`, stated over
  the list of reported arguments.
- Go's `%q` verb is a function parameter `quote`. `GoFormat.Quote` is a concrete
  instance of it.
- The offsets are 16-bit values (`Names.Offset`). Lengths stored in them wrap as in the
  source (`Names.U16`). The accessors compare with `uint16(len(text))` and slice the
  generation from the 16-bit sum `eoSurname + 1`, just as the source does.
- The invariant beside the `Name` type (relname.go:139) forbids leading, trailing and
  doubled whitespace. The model's `Name.Invariant` also asks that every whitespace byte
  be a space, which is what the constructors' normalisation (relname.go:40-43)
  produces. `Whitespace.CleanIffDocumented` relates the two conditions, and
  `Names.LoneTabName` shows a Name that meets the documented one only.

Lemmas cover:

- the shape of a cleaned string: trimmed, single spaces only, nothing but spaces as
  whitespace;
- CleanString's idempotence, its fixed points, its preservation of the non-whitespace
  bytes, and when it returns "";
- exactly when each constructor fails, and the error it returns;
- the parts of a successful result;
- the invariants documented beside `Name`;
- how the file-as form rearranges the common form;
- the round trip from the parts of a well-formed Name back through its constructor;
- insensitivity to extra whitespace;
- NewRelatedName's error precedence and its round trip;
- the behaviour the package's tests check.

Where the documentation and the code disagree, the model follows the code:

- The package comment says every argument of NewName1/2/3 is normalised before use.
  NewName1 in fact stores its raw argument (see Findings).
- The package comment says generation parts never contain spaces. NewName3 does not
  check this: a generation argument "III x" is stored with its space.
  `Names.NewName3Success` states exactly what is stored.

## Model

| member | source | states |
|---|---|---|
| Whitespace.ReplaceWhitespaceRuns | relname.go:105-112 | the scan that replaces `\s+` by one space computes `Collapse(s, false)`: each maximal run of tab, newline, form feed, carriage return or space becomes one space |
| Whitespace.CleanString | relname.go:107-128 | the method, with its `first`/`last` trimming and its early return for a lone space, returns exactly `Cleaned(s)` |
| Whitespace.CleanedIsClean | relname.go:107-109 | the result has no leading or trailing space, no two spaces in a row, and no whitespace byte other than the space |
| Whitespace.CleanedKeepsNonSpace | relname.go:107-109 | the non-whitespace bytes of the result are those of the input, in the same order |
| Whitespace.CleanedEmptyIff | relname.go:107-128 | the result is "" if and only if the input is empty or all whitespace |
| Whitespace.CleanedIdempotent | relname.go:107-128 | cleaning twice is the same as cleaning once |
| Whitespace.CleanedFixedPointIff | relname.go:107-128 | a string is left unchanged exactly when it is clean: no stray whitespace in the sense of relname.go:139, and every whitespace byte a space as relname.go:40-43 promise |
| Whitespace.CleanedFixesClean | relname.go:107-128 | a clean string is left unchanged |
| Whitespace.CleanIffDocumented | relname.go:139 | a string is clean exactly when it has no leading, trailing or doubled whitespace (the documented condition) and its only whitespace byte is the space |
| Whitespace.CleanedKeepsSpaceFree | relname.go:107-128 | input with no whitespace byte comes back unchanged |
| Whitespace.CleanedStripsRuns | relname.go:107-128 | whitespace runs around a clean non-empty string are all removed |
| Whitespace.CollapseSpaceRun | relname.go:105-112 | a run of whitespace becomes one space, or nothing when a run is already under way |
| Whitespace.CollapseSpaceFree | relname.go:105-112 | a stretch without whitespace is copied unchanged |
| Names.NewName1 | relname.go:151-157 | NewName1 as written, with the raw argument stored; its contract is stated by NewName1Failure, NewName1Success, NewName1InvariantIff, OnePartRebuild and LongNameWraps |
| Names.NewName1Cleaned | relname.go:148-157 | NewName1 as documented, storing the cleaned argument; its contract is stated by NewName1CleanedSpec and NewName1CleanedIgnoresExtraWhitespace |
| Names.NewName2 | relname.go:162-171 | its contract is stated by NewName2Failure, NewName2Success, TwoPartRebuild and NewName2IgnoresExtraWhitespace |
| Names.NewName3 | relname.go:176-185 | its contract is stated by NewName3Failure, NewName3Success, ThreePartRebuild, NewName3IgnoresExtraWhitespace and LongGenerationWraps |
| Names.Name.Common | relname.go:187-189 | the stored text; stated by the Success lemmas and FileAsRearrangesCommon |
| Names.Name.FileAs | relname.go:191-202 | stated by FileAsRearrangesCommon: the surname, ", ", the forename and any generation |
| Names.Name.Surname | relname.go:204-207 | stated by AccessorsEmptyIff: "" only for the zero Name; and by the Success lemmas |
| Names.Name.Forename | relname.go:209-216 | stated by AccessorsEmptyIff: "" exactly for zero and one-part names; and by the Success lemmas |
| Names.Name.Generation | relname.go:218-225 | stated by AccessorsEmptyIff: "" exactly for names that are not three-part; by NewName3Success; and by LongGenerationWraps for the 16-bit wrap |
| Names.Name.NumParts | relname.go:227-241 | stated by NumPartsZeroIff and AccessorsEmptyIff: 0 only for the zero Name, otherwise 1 to 3 |
| Names.Name.String | relname.go:243-244 | the common form; stated by ZeroNameIsEmpty and the test lemmas |
| Names.NewName1Failure | relname.go:151-155 | NewName1 fails if and only if its argument is empty or whitespace-only; it then returns the zero Name and an error of arity 1 holding the raw argument, counted as one blank |
| Names.NewName1Success | relname.go:151-157 | otherwise the result is a one-part Name whose common, file-as and surname forms are the argument as passed, with no forename or generation |
| Names.NewName1InvariantIff | relname.go:139-146 | NewName1's result satisfies the invariants (those of relname.go:139-142, with whitespace normalised to spaces as relname.go:40-43 promise) exactly when CleanString leaves the argument unchanged |
| Names.LoneTabName | relname.go:139 | NewName1("a\tb") succeeds with a text that meets the documented whitespace condition but keeps its tab, so the Name does not meet the invariant |
| Names.NewName1KeepsRawText | relname.go:151-157 | as written, NewName1("  Baen ") succeeds with common form "  Baen ", which breaks the invariants; the corrected constructor gives "Baen" |
| Names.NewName1CleanedSpec | relname.go:148-157 | corrected NewName1: same failures, and otherwise a well-formed one-part Name holding the cleaned argument |
| Names.NewName1CleanedIgnoresExtraWhitespace | relname.go:40-43 | corrected NewName1 gives the same Name and the same success for an argument and for its cleaned form |
| Names.LongNameWraps | relname.go:156 | a 65536-byte one-part name is accepted, but its 16-bit end offset wraps to 0, so its surname is "" |
| Names.LongGenerationWraps | relname.go:218-225 | when the surname ends at offset 65535 the 16-bit `eoSurname+1` wraps to 0: NewName3 succeeds, NumParts is 3, and Generation returns the whole text |
| Names.NewName2Failure | relname.go:162-168 | NewName2 fails if and only if either argument is blank; it returns the zero Name and both raw arguments, with the blank count equal to the number of blank arguments |
| Names.NewName2Success | relname.go:162-171 | otherwise the result is a well-formed two-part Name: forename and surname are the cleaned arguments, common form "F S", file-as form "S, F", no generation |
| Names.NewName3Failure | relname.go:176-182 | NewName3 fails if and only if any argument is blank; it returns the zero Name and all three raw arguments, with the blank count equal to the number of blank arguments |
| Names.NewName3Success | relname.go:176-185 | otherwise the result is a well-formed three-part Name: its parts are the cleaned arguments, common form "F S G", file-as form "S, F G" |
| Names.NewName2IgnoresExtraWhitespace | relname.go:162-171 | cleaning the arguments first changes neither the Name built nor whether NewName2 fails |
| Names.NewName3IgnoresExtraWhitespace | relname.go:176-185 | cleaning the arguments first changes neither the Name built nor whether NewName3 fails |
| Names.ZeroNameIsEmpty | relname.go:59-68 | the zero Name has 0 parts and every accessor gives "" |
| Names.NumPartsZeroIff | relname.go:227-241 | NumParts is 0 if and only if the Name is the zero value |
| Names.AccessorsEmptyIff | relname.go:204-225 | on a well-formed Name there are 0 to 3 parts; the surname is "" only for the zero Name, the forename only for zero and one-part names, the generation for every name that is not three-part |
| Names.FileAsRearrangesCommon | relname.go:187-202 | the file-as form is the surname, ", ", the forename and the generation of the common form; for zero and one-part names the two forms agree |
| Names.OnePartRebuild | relname.go:151-157 | NewName1 applied to a well-formed one-part Name's common form rebuilds that Name |
| Names.TwoPartRebuild | relname.go:162-171 | NewName2 applied to a well-formed two-part Name's forename and surname rebuilds that Name |
| Names.ThreePartRebuild | relname.go:176-185 | NewName3 applied to a well-formed three-part Name's three parts rebuilds that Name |
| Names.TwoPartLayout | relname.go:169-170 | the offsets NewName2 stores make a well-formed Name whose accessors return the two parts |
| Names.ThreePartLayout | relname.go:183-184 | the offsets NewName3 stores make a well-formed Name whose accessors return the three parts |
| Names.JoinIsClean | relname.go:169 | two clean non-empty parts joined by one space form a clean text |
| EmptyPartErrors.EmptyPartError.Error | relname.go:291-320 | the method's result is `Message`: the "BUG:" text with the `%#v` rendering for arity 0; otherwise the fixed text, the plural "s" unless exactly one reported argument is blank, the arity and the quoted reported arguments separated by ", ". The reported arguments are the first for arity 1, the first two for arity 2, and all three for every other arity, because the `default` branch falls through |
| EmptyPartErrors.ReportedBlanks | relname.go:293-309 | the blank count is the number of reported arguments that clean to "" |
| EmptyPartErrors.ReportedQuotes | relname.go:298-310 | the argument list is the first quoted argument, then ", " and each further reported argument quoted |
| EmptyPartErrors.MessagePlural | relname.go:311-319 | the text starts with "BUG: bad EmptyPartError value " exactly for arity 0; otherwise it starts with "empty or whitespace-only argument", followed by "s" exactly when the blank count is not one |
| RelatedNames.NewRelatedName | relname.go:258-270 | its contract is stated by NewRelatedNameFailure, NewRelatedNameSuccess and RelatorRoundTrip |
| RelatedNames.IsRelatorCode | relname.go:256 | what `^[a-z][a-z][a-z]$` matches; stated by NewRelatedNameFailure and BadCodesRefused |
| RelatedNames.RelatedName.Relator | relname.go:272-277 | stated by NewRelatedNameSuccess and RelatorRoundTrip: the code passed to NewRelatedName |
| RelatedNames.RelatedName.String | relname.go:279-280 | stated by NewRelatedNameSuccess: the common form, " (", the code and ")" |
| RelatedNames.RelatedNameError.Message | relname.go:322-340 | the two error texts; stated by MessagesDiffer, CodeMessageQuotes and NameMessageSpells |
| RelatedNames.NewRelatedNameFailure | relname.go:260-266 | NewRelatedName fails if and only if the code is not three letters a-z or the Name is zero; a bad code is reported first, with the Name and code; a zero Name with a valid code gives BadName; both return the zero RelatedName |
| RelatedNames.NewRelatedNameSuccess | relname.go:267-280 | on success the Name is kept unchanged, Relator returns the code passed in, and String is the common form, " (", the code and ")" |
| RelatedNames.RelatorRoundTrip | relname.go:260-277 | every RelatedName whose code bytes are a-z and whose Name is not zero is rebuilt by NewRelatedName from its Name and its Relator |
| RelatedNames.MessagesDiffer | relname.go:328-340 | with `%q` quoting, a BadRelatorCode text never equals a BadName text |
| RelatedNames.CodeMessageQuotes | relname.go:328-331 | the BadRelatorCode text continues after "NewRelatedName(" with the quoted Name |
| RelatedNames.NameMessageSpells | relname.go:338-340 | the BadName text continues after "NewRelatedName(" with "Name{}," |
| TestCases.CleanMixedRuns | relname_test.go:11 | any string shaped like "a     b\nc   " (word bytes separated by, and ending in, whitespace runs) cleans to "a b c" |
| TestCases.CleanBlank | relname_test.go:12-13 | "" and "\n    \r" clean to "" |
| TestCases.CleanNonAscii | relname_test.go:14 | the UTF-8 bytes of "«»" are left alone |
| TestCases.CleanLeadingSpaces | relname_test.go:15 | "  x" cleans to "x" |
| TestCases.CleanTrailingSpaces | relname_test.go:16 | "x  " cleans to "x" |
| TestCases.CleanSurroundingSpaces | relname_test.go:17 | "  x   " cleans to "x" |
| TestCases.BaenBooks | relname_test.go:37-40 | NewName1("Baen Books") gives a one-part name whose every form is "Baen Books" |
| TestCases.DaveFreer | relname_test.go:42-45 | NewName2("Dave", "Freer") gives "Dave Freer" and "Freer, Dave" |
| TestCases.WilliamKeithJr | relname_test.go:52-55 | NewName3("William H.  ", "      Keith", "Jr.") gives "William H. Keith Jr." and "Keith, William H. Jr." |
| TestCases.SarahHoyt | relname_test.go:151 | NewName2("Sarah \t\t\t A.  ", "Hoyt   ") gives "Sarah A. Hoyt" with forename "Sarah A." |
| TestCases.ZeroNameRefused | relname_test.go:139-149 | the zero Name with code "aut" gives BadName{"aut"} |
| TestCases.BadCodesRefused | relname_test.go:152-159 | each of the eight malformed codes gives BadRelatorCode with the Name and the code |
| TestCases.SarahHoytAuthor | relname_test.go:161-182 | the related name has Relator "aut", the Name's accessors, and String "Sarah A. Hoyt (aut)" |
| TestCases.NewName1Blank | relname_test.go:94-97 | NewName1(" \t ") fails with EmptyPartError{1, " \t ", "", ""} and one blank |
| TestCases.NewName2BlankForename | relname_test.go:99-102 | NewName2("", "Smith") fails with EmptyPartError{2, "", "Smith", ""} and one blank |
| TestCases.NewName2BlankSurname | relname_test.go:104-107 | NewName2(" John ", "") fails with EmptyPartError{2, " John ", "", ""} and one blank |
| TestCases.NewName2TwoBlanks | relname_test.go:109-112 | NewName2(" ", "\t") fails with EmptyPartError{2, " ", "\t", ""} and two blanks, hence the plural |

## Left out

- Regular expressions: `reWhitespace` and `reRelator` are replaced by what they match. `Whitespace.IsSpace` is RE2's `\s` (tab, newline, form feed, carriage return, space). `RelatedNames.IsRelatorCode` is `^[a-z][a-z][a-z]$` on the whole string. The regexp engine itself is not modelled.
- `%q` and `%#v` formatting: `quote` is a parameter of every error text. `GoFormat.Quote` escapes ASCII like `strconv.Quote` but copies bytes of 0x80 and above unchanged; Go would escape invalid UTF-8 and non-printable runes.
- EmptyPartErrors.EmptyPartError.Error: the exact texts the tests expect (relname_test.go:90-117) are not restated as lemmas about concrete strings. Their structure is stated by `MessagePlural`, `ReportedBlanks` and `ReportedQuotes`.
- RelatedNames.RelatedNameError.Message: only the property that the two texts differ is proved; the full texts are the function's definition.
- The error values are pointers (`*EmptyPartError` and the others) returned through Go's `error` interface. Here they are values inside an `Option`; identity and type assertion are not modelled.
- Embedding: `RelatedName` embeds `Name`, so Go promotes the Name accessors. Here they are reached through the `name` field.
- The `fmt.Stringer` interface is not modelled; the `String` functions are ordinary functions.
- The commented-out debug prints in CleanString are not modelled.
- The test of an EmptyPartError with arity 99 (relname_test.go:114-117) is covered only by the general `ReportedBlanks`, `ReportedQuotes` and `MessagePlural` lemmas, not by a lemma about that value.
- Names.NewName1Success, Names.NewName2Success and Names.NewName3Success are stated only for texts shorter than 65536 bytes. Longer texts wrap the offsets; `Names.LongNameWraps` shows one consequence.
- Names.AccessorsEmptyIff, Names.FileAsRearrangesCommon and the rebuild lemmas assume `WellFormed`. That is the documented invariant plus the separating spaces that every constructor writes next to the surname.

## Findings

| source | as written | input that shows it | evidently intended | confidence | as-written member | corrected member |
|---|---|---|---|---|---|---|
| relname.go:151-157 | NewName1 cleans its argument only to test for blankness, then stores the raw argument | NewName1("  Baen ") succeeds with Common() == "  Baen ", which has leading and trailing whitespace and breaks the invariant at relname.go:139 | store the cleaned argument, as relname.go:40-43 says of all constructor arguments | high; not executed | Names.NewName1KeepsRawText | Names.NewName1CleanedSpec |
