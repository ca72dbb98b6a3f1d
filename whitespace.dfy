/** Whitespace normalisation: the `CleanString` utility that every Name
    constructor applies to its arguments.

    Go strings are byte sequences, and CleanString only ever compares bytes with
    ASCII whitespace, so a string is modelled as a sequence of bytes (one `char`
    below 256 per byte). */
module Whitespace {

  /** One byte of a Go string. */
  type Byte = c: char | c as int < 256 witness ' '

  type Bytes = seq<Byte>

  /** The bytes matched by the RE2 class `\s`: tab, newline, form feed,
      carriage return and space (vertical tab is not among them). */
  predicate IsSpace(b: Byte)
  {
    b == '\t' || b == '\n' || b == '\U{C}' || b == '\r' || b == ' '
  }

  predicate AllSpace(s: Bytes)
  {
    forall i :: 0 <= i < |s| ==> IsSpace(s[i])
  }

  /** The result of replacing every maximal run of whitespace in `s` by a single
      space, as `ReplaceAllString(s, " ")` does with the pattern `\s+`.
      `inRun` says that a run of whitespace is already under way just before
      `s`, so that whitespace at the front of `s` belongs to that run. */
  function Collapse(s: Bytes, inRun: bool): Bytes
  {
    if s == [] then []
    else if IsSpace(s[0]) then (if inRun then [] else [' ']) + Collapse(s[1..], true)
    else [s[0]] + Collapse(s[1..], false)
  }

  /** After the replacement: drop one leading and one trailing space. */
  function TrimOneSpace(s: Bytes): (r: Bytes)
    ensures |r| <= |s|
  {
    if |s| == 0 then s
    else if s[0] == ' ' && |s| == 1 then []
    else
      var first := if s[0] == ' ' then 1 else 0;
      var last := if s[|s| - 1] == ' ' then |s| - 1 else |s|;
      s[first..last]
  }

  /** What CleanString returns for `s`. */
  function Cleaned(s: Bytes): (r: Bytes)
    ensures |r| <= |s|
  {
    CollapseNoLonger(s, false);
    TrimOneSpace(Collapse(s, false))
  }

  lemma {:induction false} CollapseNoLonger(s: Bytes, inRun: bool)
    ensures |Collapse(s, inRun)| <= |s|
    decreases |s|
  {
    if s != [] {
      CollapseNoLonger(s[1..], IsSpace(s[0]));
    }
  }

  /** `reWhitespace.ReplaceAllString(s, " ")`: one left-to-right scan that
      copies non-whitespace bytes and writes one space per run of whitespace. */
  method ReplaceWhitespaceRuns(s: Bytes) returns (replaced: Bytes)
    ensures replaced == Collapse(s, false)
  {
    replaced := [];
    var inRun := false;
    var i := 0;
    assert s[i..] == s;
    while i < |s|
      invariant 0 <= i <= |s|
      invariant replaced + Collapse(s[i..], inRun) == Collapse(s, false)
    {
      var piece := CollapseStep(s, i, inRun);
      AppendAssoc(replaced, piece, Collapse(s[i + 1..], IsSpace(s[i])));
      replaced := replaced + piece;
      inRun := IsSpace(s[i]);
      i := i + 1;
    }
    assert s[i..] == [];
    assert replaced + [] == replaced;
  }

  lemma AppendAssoc(a: Bytes, b: Bytes, c: Bytes)
    ensures a + (b + c) == (a + b) + c
  {
  }

  /** One step of the scan: what the byte at `i` contributes. */
  function CollapseStep(s: Bytes, i: nat, inRun: bool): (piece: Bytes)
    requires i < |s|
    ensures Collapse(s[i..], inRun) == piece + Collapse(s[i + 1..], IsSpace(s[i]))
  {
    assert s[i..][1..] == s[i + 1..];
    if !IsSpace(s[i]) then [s[i]]
    else if inRun then []
    else [' ']
  }

  /** CleanString: replace the whitespace runs, then move `first` and `last`
      past one leading and one trailing space. */
  method CleanString(s: Bytes) returns (t: Bytes)
    ensures t == Cleaned(s)
  {
    var r := ReplaceWhitespaceRuns(s);
    var first, last := 0, |r|;
    if last > 0 {
      if r[0] == ' ' {
        if last == 1 {
          return [];
        }
        first := first + 1;
      }
      if r[last - 1] == ' ' {
        last := last - 1;
      }
    }
    t := r[first..last];
  }

  // ---------------------------------------------------------------------------
  // What a cleaned string looks like

  /** The only whitespace byte left is the space itself. */
  predicate OnlySpaces(t: Bytes)
  {
    forall i :: 0 <= i < |t| && IsSpace(t[i]) ==> t[i] == ' '
  }

  /** No two adjacent spaces (stated over pairs of positions, so that the
      quantifier only fires on positions already under consideration). */
  predicate NoDoubleSpace(t: Bytes)
  {
    forall i, j :: 0 <= i < |t| && 0 <= j < |t| && j == i + 1 ==> t[i] != ' ' || t[j] != ' '
  }

  /** No leading or trailing whitespace, no two whitespace bytes in a row, and
      every whitespace byte a space. */
  predicate IsClean(t: Bytes)
  {
    && OnlySpaces(t)
    && NoDoubleSpace(t)
    && (t != [] ==> t[0] != ' ' && t[|t| - 1] != ' ')
  }

  /** The whitespace condition exactly as documented beside the Name type: no
      leading or trailing whitespace and no two whitespace bytes in a row.
      Unlike IsClean it allows a lone tab or newline between words. */
  predicate NoStrayWhitespace(t: Bytes)
  {
    && (t != [] ==> !IsSpace(t[0]) && !IsSpace(t[|t| - 1]))
    && forall i, j :: 0 <= i < |t| && 0 <= j < |t| && j == i + 1 ==> !IsSpace(t[i]) || !IsSpace(t[j])
  }

  /** A clean string is one that meets the documented condition and whose
      only whitespace byte is the space. */
  lemma CleanIffDocumented(t: Bytes)
    ensures IsClean(t) <==> NoStrayWhitespace(t) && OnlySpaces(t)
  {
    if OnlySpaces(t) && t != [] {
      assert IsSpace(t[0]) ==> t[0] == ' ';
      assert IsSpace(t[|t| - 1]) ==> t[|t| - 1] == ' ';
    }
  }

  lemma {:induction false} CollapseShape(s: Bytes, inRun: bool)
    ensures OnlySpaces(Collapse(s, inRun))
    ensures NoDoubleSpace(Collapse(s, inRun))
    ensures inRun && Collapse(s, inRun) != [] ==> Collapse(s, inRun)[0] != ' '
    decreases |s|
  {
    if s != [] {
      CollapseShape(s[1..], IsSpace(s[0]));
    }
  }

  /** CleanString's result has no leading or trailing space, no two adjacent
      spaces and no whitespace byte other than the space. */
  lemma CleanedIsClean(s: Bytes)
    ensures IsClean(Cleaned(s))
  {
    var c := Collapse(s, false);
    CollapseShape(s, false);
    if |c| > 0 && !(c[0] == ' ' && |c| == 1) {
      var first := if c[0] == ' ' then 1 else 0;
      var last := if c[|c| - 1] == ' ' then |c| - 1 else |c|;
      if |c| >= 2 {
        assert c[0] == ' ' ==> c[1] != ' ';
        assert c[|c| - 1] == ' ' ==> c[|c| - 2] != ' ';
      }
      SliceKeepsSpacing(c, first, last);
      assert Cleaned(s) == c[first..last];
    }
  }

  /** Any slice of a string keeps its spacing properties. */
  lemma SliceKeepsSpacing(c: Bytes, i: nat, j: nat)
    requires i <= j <= |c|
    requires OnlySpaces(c) && NoDoubleSpace(c)
    ensures OnlySpaces(c[i..j]) && NoDoubleSpace(c[i..j])
  {
    var t := c[i..j];
    forall k | 0 <= k < |t|
      ensures IsSpace(t[k]) ==> t[k] == ' '
      ensures k > 0 ==> t[k - 1] != ' ' || t[k] != ' '
    {
      assert t[k] == c[i + k];
      if k > 0 {
        assert t[k - 1] == c[i + k - 1];
      }
    }
  }

  lemma {:induction false} CollapseOfClean(t: Bytes, inRun: bool)
    requires OnlySpaces(t) && NoDoubleSpace(t)
    requires inRun && t != [] ==> t[0] != ' '
    ensures Collapse(t, inRun) == t
    decreases |t|
  {
    if t != [] {
      assert OnlySpaces(t[1..]) && NoDoubleSpace(t[1..]);
      if |t| >= 2 {
        assert t[0] == ' ' ==> t[1] != ' ';
      }
      CollapseOfClean(t[1..], IsSpace(t[0]));
    }
  }

  /** A stretch without whitespace passes through the scan unchanged. */
  lemma {:induction false} CollapseSpaceFree(a: Bytes, rest: Bytes, inRun: bool)
    requires a != [] && forall i :: 0 <= i < |a| ==> !IsSpace(a[i])
    ensures Collapse(a + rest, inRun) == a + Collapse(rest, false)
    decreases |a|
  {
    assert (a + rest)[1..] == a[1..] + rest;
    if |a| > 1 {
      CollapseSpaceFree(a[1..], rest, false);
    } else {
      assert a[1..] + rest == rest;
    }
  }

  /** A run of whitespace becomes one space, or nothing when a run is
      already under way. */
  lemma {:induction false} CollapseSpaceRun(a: Bytes, rest: Bytes, inRun: bool)
    requires a != [] && AllSpace(a)
    ensures Collapse(a + rest, inRun) == (if inRun then [] else [' ']) + Collapse(rest, true)
    decreases |a|
  {
    assert (a + rest)[1..] == a[1..] + rest;
    assert IsSpace(a[0]);
    if |a| > 1 {
      CollapseSpaceRun(a[1..], rest, true);
      assert [] + Collapse(rest, true) == Collapse(rest, true);
    } else {
      assert a[1..] + rest == rest;
    }
  }

  /** A clean stretch passes through the scan unchanged, and the scan then
      continues in a run exactly when the stretch ended in a space. */
  lemma {:induction false} CollapseCleanThen(x: Bytes, rest: Bytes, inRun: bool)
    requires OnlySpaces(x) && NoDoubleSpace(x)
    requires inRun && x != [] ==> x[0] != ' '
    ensures Collapse(x + rest, inRun)
      == x + Collapse(rest, if x == [] then inRun else x[|x| - 1] == ' ')
    decreases |x|
  {
    if x == [] {
      assert x + rest == rest;
    } else {
      assert (x + rest)[0] == x[0];
      assert (x + rest)[1..] == x[1..] + rest;
      SliceKeepsSpacing(x, 1, |x|);
      if |x| > 1 {
        assert x[0] != ' ' || x[1] != ' ';
      }
      assert Collapse(x + rest, inRun) == [x[0]] + Collapse(x[1..] + rest, IsSpace(x[0]));
      CollapseCleanThen(x[1..], rest, IsSpace(x[0]));
      assert [x[0]] + x[1..] == x;
    }
  }

  /** Whitespace around a clean, non-empty string is removed. */
  lemma CleanedStripsRuns(w1: Bytes, x: Bytes, w2: Bytes)
    requires IsClean(x) && x != [] && AllSpace(w1) && AllSpace(w2)
    ensures Cleaned(w1 + x + w2) == x
  {
    CollapseAroundClean(w1, x, w2);
    var lead: Bytes := if w1 == [] then [] else [' '];
    var trail: Bytes := if w2 == [] then [] else [' '];
    var c := lead + x + trail;
    assert |c| == |lead| + |x| + |trail|;
    assert c[0] == if lead == [] then x[0] else ' ';
    assert c[|c| - 1] == if trail == [] then x[|x| - 1] else ' ';
    assert c[|lead|..|lead| + |x|] == x;
    assert TrimOneSpace(c) == c[|lead|..|lead| + |x|];
  }

  /** The scan turns each of the runs around a clean string into at most one
      space. */
  lemma CollapseAroundClean(w1: Bytes, x: Bytes, w2: Bytes)
    requires IsClean(x) && x != [] && AllSpace(w1) && AllSpace(w2)
    ensures Collapse(w1 + x + w2, false)
      == (if w1 == [] then [] else [' ']) + x + (if w2 == [] then [] else [' '])
  {
    var tail := x + w2;
    CollapseCleanThen(x, w2, w1 != []);
    if w2 != [] {
      CollapseSpaceRun(w2, [], false);
      assert w2 + [] == w2;
    }
    if w1 != [] {
      CollapseSpaceRun(w1, tail, false);
      assert w1 + x + w2 == w1 + tail;
    } else {
      assert w1 + x + w2 == tail;
    }
  }

  /** A string that is already clean is left unchanged. */
  lemma CleanedFixesClean(t: Bytes)
    requires IsClean(t)
    ensures Cleaned(t) == t
  {
    CollapseOfClean(t, false);
  }

  /** CleanString is idempotent. */
  lemma CleanedIdempotent(s: Bytes)
    ensures Cleaned(Cleaned(s)) == Cleaned(s)
  {
    CleanedIsClean(s);
    CleanedFixesClean(Cleaned(s));
  }

  /** The fixed points of CleanString are exactly the clean strings. */
  lemma CleanedFixedPointIff(t: Bytes)
    ensures Cleaned(t) == t <==> IsClean(t)
  {
    CleanedIsClean(t);
    if IsClean(t) {
      CleanedFixesClean(t);
    }
  }

  /** Input without any whitespace byte comes back unchanged. */
  lemma CleanedKeepsSpaceFree(t: Bytes)
    requires forall i :: 0 <= i < |t| ==> !IsSpace(t[i])
    ensures Cleaned(t) == t
  {
    CleanedFixesClean(t);
  }

  // ---------------------------------------------------------------------------
  // Non-whitespace content is preserved

  /** The non-whitespace bytes of `s`, in order. */
  function NonSpace(s: Bytes): Bytes
  {
    if s == [] then []
    else if IsSpace(s[0]) then NonSpace(s[1..])
    else [s[0]] + NonSpace(s[1..])
  }

  lemma {:induction false} NonSpaceAppend(a: Bytes, b: Bytes)
    ensures NonSpace(a + b) == NonSpace(a) + NonSpace(b)
    decreases |a|
  {
    if a == [] {
      assert a + b == b;
    } else {
      assert (a + b)[0] == a[0];
      assert (a + b)[1..] == a[1..] + b;
      NonSpaceAppend(a[1..], b);
    }
  }

  lemma {:induction false} NonSpaceEmptyIff(s: Bytes)
    ensures NonSpace(s) == [] <==> AllSpace(s)
    decreases |s|
  {
    if s != [] {
      NonSpaceEmptyIff(s[1..]);
      assert AllSpace(s) <==> IsSpace(s[0]) && AllSpace(s[1..]);
    }
  }

  lemma {:induction false} CollapseKeepsNonSpace(s: Bytes, inRun: bool)
    ensures NonSpace(Collapse(s, inRun)) == NonSpace(s)
    decreases |s|
  {
    if s != [] {
      var rest := Collapse(s[1..], IsSpace(s[0]));
      CollapseKeepsNonSpace(s[1..], IsSpace(s[0]));
      if IsSpace(s[0]) {
        NonSpaceAppend(if inRun then [] else [' '], rest);
      } else {
        NonSpaceAppend([s[0]], rest);
      }
    }
  }

  lemma TrimKeepsNonSpace(c: Bytes)
    ensures NonSpace(TrimOneSpace(c)) == NonSpace(c)
  {
    if |c| > 0 && !(c[0] == ' ' && |c| == 1) {
      var first := if c[0] == ' ' then 1 else 0;
      var last := if c[|c| - 1] == ' ' then |c| - 1 else |c|;
      assert c == c[..first] + c[first..last] + c[last..];
      NonSpaceAppend(c[..first] + c[first..last], c[last..]);
      NonSpaceAppend(c[..first], c[first..last]);
      assert NonSpace(c[..first]) == [] by {
        NonSpaceEmptyIff(c[..first]);
      }
      assert NonSpace(c[last..]) == [] by {
        NonSpaceEmptyIff(c[last..]);
      }
    } else if |c| == 1 {
      NonSpaceEmptyIff(c);
    }
  }

  /** CleanString keeps every non-whitespace byte, in order, and adds none. */
  lemma CleanedKeepsNonSpace(s: Bytes)
    ensures NonSpace(Cleaned(s)) == NonSpace(s)
  {
    CollapseKeepsNonSpace(s, false);
    TrimKeepsNonSpace(Collapse(s, false));
  }

  /** CleanString returns "" exactly when its input is empty or all whitespace. */
  lemma CleanedEmptyIff(s: Bytes)
    ensures Cleaned(s) == [] <==> AllSpace(s)
  {
    CleanedKeepsNonSpace(s);
    NonSpaceEmptyIff(s);
    CleanedIsClean(s);
    var t := Cleaned(s);
    NonSpaceEmptyIff(t);
    if t != [] {
      assert !IsSpace(t[0]);
    }
  }
}
