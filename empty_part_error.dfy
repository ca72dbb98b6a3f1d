/** `EmptyPartError`: what NewName1, NewName2 and NewName3 report when an
    argument is empty or whitespace-only. It records the constructor's arity
    and its raw, uncleaned arguments; its message names every argument and
    says "argument" or "arguments" according to how many of them are blank. */
module EmptyPartErrors {
  import opened Whitespace
  import opened GoFormat

  datatype EmptyPartError = EmptyPartError(numArgs: int, arg1: Bytes, arg2: Bytes, arg3: Bytes)
  {
    /** The arguments the message shows: the first one for arity 1, the first
        two for arity 2, and all three for every other non-zero value (the
        `default` branch, which falls through to the others). */
    function Reported(): seq<Bytes>
    {
      if numArgs == 1 then [arg1]
      else if numArgs == 2 then [arg1, arg2]
      else [arg1, arg2, arg3]
    }

    /** How many of the reported arguments clean to "". */
    function BlankCount(): nat
    {
      CountBlank(Reported())
    }

    /** The `%#v` rendering of the error value, used only for arity 0. */
    function GoSyntax(quote: Bytes -> Bytes): Bytes
    {
      GoSyntaxHead + Decimal(numArgs)
        + Field1 + quote(arg1) + Field2 + quote(arg2) + Field3 + quote(arg3) + ['}']
    }

    /** The error text, stated over the list of reported arguments. */
    function Message(quote: Bytes -> Bytes): Bytes
    {
      if numArgs == 0 then BugPrefix + GoSyntax(quote)
      else
        var plural: Bytes := if BlankCount() == 1 then "" else "s";
        var call: Bytes := " in NewName";
        var open: Bytes := "(";
        var close: Bytes := ")";
        MessageHead + plural + call + Decimal(numArgs) + open + QuoteList(Reported(), quote) + close
    }

    /** `EmptyPartError.Error`: the `switch` with `fallthrough`, counting the
        blank arguments from the last one back and quoting each one. */
    method Error(quote: Bytes -> Bytes) returns (msg: Bytes)
      ensures msg == Message(quote)
    {
      if numArgs == 0 {
        return BugPrefix + GoSyntax(quote);
      }
      var nEmpty := 0;
      var a1: Bytes, a2: Bytes, a3: Bytes := [], [], [];
      if numArgs != 1 && numArgs != 2 {
        var c3 := CleanString(arg3);
        if c3 == [] {
          nEmpty := nEmpty + 1;
        }
        a3 := ArgSeparator + quote(arg3);
      }
      if numArgs != 1 {
        var c2 := CleanString(arg2);
        if c2 == [] {
          nEmpty := nEmpty + 1;
        }
        a2 := ArgSeparator + quote(arg2);
      }
      var c1 := CleanString(arg1);
      if c1 == [] {
        nEmpty := nEmpty + 1;
      }
      a1 := quote(arg1);
      ReportedBlanks(this);
      ReportedQuotes(this, quote);
      var plural: Bytes := "s";
      if nEmpty == 1 {
        plural := "";
      }
      var call: Bytes := " in NewName";
      var open: Bytes := "(";
      var close: Bytes := ")";
      var args := a1 + a2 + a3;
      assert args == QuoteList(Reported(), quote);
      assert plural == if BlankCount() == 1 then [] else "s";
      msg := MessageHead + plural + call + Decimal(numArgs) + open + args + close;
    }
  }

  /** The blank count, argument by argument. */
  lemma ReportedBlanks(e: EmptyPartError)
    ensures e.BlankCount()
      == (if Cleaned(e.arg1) == [] then 1 else 0)
       + (if e.numArgs != 1 && Cleaned(e.arg2) == [] then 1 else 0)
       + (if e.numArgs != 1 && e.numArgs != 2 && Cleaned(e.arg3) == [] then 1 else 0)
  {
    var r := e.Reported();
    assert CountBlank([e.arg3]) == if Cleaned(e.arg3) == [] then 1 else 0 by {
      assert [e.arg3][1..] == [];
    }
    assert CountBlank([e.arg2]) == if Cleaned(e.arg2) == [] then 1 else 0 by {
      assert [e.arg2][1..] == [];
    }
    if e.numArgs == 1 {
      assert r[1..] == [];
    } else if e.numArgs == 2 {
      assert r[1..] == [e.arg2];
    } else {
      assert r[1..] == [e.arg2, e.arg3];
      assert r[1..][1..] == [e.arg3];
      assert CountBlank(r[1..])
        == (if Cleaned(e.arg2) == [] then 1 else 0) + (if Cleaned(e.arg3) == [] then 1 else 0);
    }
  }

  /** The quoted list, argument by argument. */
  lemma ReportedQuotes(e: EmptyPartError, quote: Bytes -> Bytes)
    ensures QuoteList(e.Reported(), quote)
      == quote(e.arg1)
       + (if e.numArgs != 1 then ArgSeparator + quote(e.arg2) else [])
       + (if e.numArgs != 1 && e.numArgs != 2 then ArgSeparator + quote(e.arg3) else [])
  {
    var r := e.Reported();
    var q1, q2, q3 := quote(e.arg1), quote(e.arg2), quote(e.arg3);
    if e.numArgs == 2 {
      assert r[1..] == [e.arg2];
    } else if e.numArgs != 1 {
      assert r[1..] == [e.arg2, e.arg3];
      assert r[1..][1..] == [e.arg3];
      assert QuoteList(r[1..], quote) == q2 + ArgSeparator + q3;
      assert QuoteList(r, quote) == q1 + ArgSeparator + (q2 + ArgSeparator + q3);
    }
  }

  const ArgSeparator: Bytes := ", "

  const GoSyntaxHead: Bytes := "relname.EmptyPartError{NumArgs:"
  const Field1: Bytes := ", Arg1:"
  const Field2: Bytes := ", Arg2:"
  const Field3: Bytes := ", Arg3:"

  const BugPrefix: Bytes := "BUG: bad EmptyPartError value "

  const MessageHead: Bytes := "empty or whitespace-only argument"

  function CountBlank(args: seq<Bytes>): nat
  {
    if args == [] then 0
    else (if Cleaned(args[0]) == [] then 1 else 0) + CountBlank(args[1..])
  }

  /** The quoted arguments, separated by ", ". */
  function QuoteList(args: seq<Bytes>, quote: Bytes -> Bytes): Bytes
  {
    if args == [] then []
    else if |args| == 1 then quote(args[0])
    else quote(args[0]) + ArgSeparator + QuoteList(args[1..], quote)
  }

  /** The message says "arguments" exactly when the number of blank arguments
      is not one, and arity 0 gives the "BUG:" message instead. */
  lemma MessagePlural(e: EmptyPartError, quote: Bytes -> Bytes)
    ensures e.numArgs == 0 <==> e.Message(quote)[..|BugPrefix|] == BugPrefix
    ensures e.numArgs != 0 ==>
      e.Message(quote)[..|MessageHead|] == MessageHead
      && (e.Message(quote)[|MessageHead|] == 's' <==> e.BlankCount() != 1)
  {
    var m := e.Message(quote);
    if e.numArgs != 0 {
      var rest := m[|MessageHead|..];
      assert m == MessageHead + rest;
      PrefixOfAppend(MessageHead, rest);
      assert m[..|BugPrefix|][0] == MessageHead[0];
    } else {
      PrefixOfAppend(BugPrefix, e.GoSyntax(quote));
    }
  }

  lemma PrefixOfAppend(a: Bytes, b: Bytes)
    ensures (a + b)[..|a|] == a
  {
  }
}
