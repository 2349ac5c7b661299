/**
 * The examples given in the documentation of `substitute`, derived from the
 * general properties of the scanner with an evaluator that knows the
 * example's variables.
 */
module SubstituteExamples {
  import opened Results
  import opened SubstituteValues
  import opened Substitute
  import opened SubstituteProperties

  /** A text without quotes and parentheses leaves a body's mode as it is. */
  lemma {:induction false} ParenFree(e: string, n: int)
    requires n >= 1 && '(' !in e && ')' !in e && '"' !in e && '\'' !in e
    ensures StaysOpen(e, Unquoted(n)) && Track(e, Unquoted(n)) == Unquoted(n)
    decreases |e|
  {
    if e != [] {
      assert '(' !in e[1..] && ')' !in e[1..] && '"' !in e[1..] && '\'' !in e[1..] by {
        assert forall x :: x in e[1..] ==> x in e;
      }
      ParenFree(e[1..], n);
    }
  }

  /** A parenthesised group without inner parentheses or quotes returns the count to where it was. */
  lemma Group(x: string, n: int)
    requires n >= 1 && '(' !in x && ')' !in x && '"' !in x && '\'' !in x
    ensures StaysOpen("(" + x + ")", Unquoted(n)) && Track("(" + x + ")", Unquoted(n)) == Unquoted(n)
  {
    ParenFree(x, n + 1);
    assert Track("(", Unquoted(n)) == Track([], Unquoted(n + 1));
    assert StaysOpen("(", Unquoted(n));
    TrackAppend("(", x, Unquoted(n));
    assert Track(")", Unquoted(n + 1)) == Track([], Unquoted(n));
    assert StaysOpen(")", Unquoted(n + 1));
    TrackAppend("(" + x, ")", Unquoted(n));
  }

  lemma ReadyStart(caps: Captures)
    ensures Ready(Start(caps))
  {
  }

  lemma SquareBody()
    ensures var e := "(a+b)*(a+b)";
      StaysOpen(e, Opened) && Track(e, Opened) == Opened
  {
    var g := "(a+b)";
    var e := g + "*" + g;
    assert "(" + "a+b" + ")" == g;
    assert '(' !in "a+b" && ')' !in "a+b" && '"' !in "a+b" && '\'' !in "a+b" by {
      assert forall i :: 0 <= i < 3 ==> "a+b"[i] in {'a', '+', 'b'};
    }
    Group("a+b", 1);
    assert '(' !in "*" && ')' !in "*" && '"' !in "*" && '\'' !in "*";
    ParenFree("*", 1);
    TrackAppend(g, "*", Opened);
    TrackAppend(g + "*", g, Opened);
    assert e == "(a+b)*(a+b)";
  }

  lemma IntText(n: nat)
    requires 10 <= n < 100
    ensures PyStr(VInt(n)) == [DigitChar(n / 10), DigitChar(n % 10)]
  {
    assert NatToString(n) == NatToString(n / 10) + [DigitChar(n % 10)];
  }

  lemma SquareRun(ctx: Context, caps: Captures)
    ensures var e := "(a+b)*(a+b)";
      var st := Run(ctx, Start(caps), "$(" + e + ")");
      Scanning(st) && st.vars.nparen == 0 && st.vars.out == SubstituteExpr(ctx, e) && st.caps == caps
  {
    var e := "(a+b)*(a+b)";
    SquareBody();
    ExpressionSubstituted(ctx, Start(caps), e);
    assert "" + SubstituteExpr(ctx, e) == SubstituteExpr(ctx, e);
  }

  /** With `a=2`, `b=3`: `substitute('$((a+b)*(a+b))')` gives `25`. */
  lemma SquareExample(ctx: Context, caps: Captures)
    requires ctx.eval("(a+b)*(a+b)") == Val(VInt(25))
    ensures Scan(ctx, "$(" + "(a+b)*(a+b)" + ")", caps).result == Success("25")
  {
    SquareRun(ctx, caps);
    IntText(25);
    assert SubstituteExpr(ctx, "(a+b)*(a+b)") == "25";
  }

  /** `len("ab cd( de")` is balanced: the `(` in its quoted part is not counted. */
  lemma LenParts()
    ensures var e := "len(" + ("\"" + "ab cd( de" + "\"") + ")";
      StaysOpen(e, Opened) && Track(e, Opened) == Opened
  {
    var lit := "ab cd( de";
    var part := "\"" + lit + "\"";
    assert '(' !in "len" && ')' !in "len" && '"' !in "len" && '\'' !in "len" by {
      assert forall i :: 0 <= i < 3 ==> "len"[i] in {'l', 'e', 'n'};
    }
    ParenFree("len", 1);
    assert Track("(", Opened) == Track([], Unquoted(2)) && StaysOpen("(", Opened);
    TrackAppend("len", "(", Opened);
    assert "len" + "(" == "len(";
    assert '"' !in lit by {
      assert forall i :: 0 <= i < 9 ==> lit[i] != '"';
    }
    QuotedPartBalanced('"', lit, 2);
    assert ['"'] + lit + ['"'] == part;
    TrackAppend("len(", part, Opened);
    assert Track(")", Unquoted(2)) == Track([], Opened) && StaysOpen(")", Unquoted(2));
    TrackAppend("len(" + part, ")", Opened);
  }

  lemma LenRun(ctx: Context, caps: Captures)
    ensures var e := "len(" + ("\"" + "ab cd( de" + "\"") + ")";
      var st := Run(ctx, Start(caps), "$(" + e + ")");
      Scanning(st) && st.vars.nparen == 0 && st.vars.out == SubstituteExpr(ctx, e) && st.caps == caps
  {
    var e := "len(" + ("\"" + "ab cd( de" + "\"") + ")";
    LenParts();
    ExpressionSubstituted(ctx, Start(caps), e);
    assert "" + SubstituteExpr(ctx, e) == SubstituteExpr(ctx, e);
  }

  /** `substitute('$(len("ab cd( de"))')` gives `9`: the parenthesis in the quoted part is not counted. */
  lemma QuotedParenExample(ctx: Context, caps: Captures)
    requires ctx.eval("len(" + ("\"" + "ab cd( de" + "\"") + ")") == Val(VInt(9))
    ensures Scan(ctx, "$(" + ("len(" + ("\"" + "ab cd( de" + "\"") + ")") + ")", caps).result == Success("9")
  {
    LenRun(ctx, caps);
    assert NatToString(9) == [DigitChar(9)];
  }

  /**
   * An expression cut off inside a string, `$(len("ab`, is emitted as it
   * was written: the open quote does not change how the end is handled.
   */
  lemma UnterminatedQuoteExample(ctx: Context, caps: Captures)
    ensures Scan(ctx, "$(" + ("len(" + ("\"" + "ab")), caps) ==
      ScanResult(Success("$(" + ("len(" + ("\"" + "ab"))), caps)
  {
    assert '(' !in "len" && ')' !in "len" && '"' !in "len" && '\'' !in "len" by {
      assert forall i :: 0 <= i < 3 ==> "len"[i] in {'l', 'e', 'n'};
    }
    ParenFree("len", 1);
    assert Track("(", Opened) == Track([], Unquoted(2)) && StaysOpen("(", Opened);
    TrackAppend("len", "(", Opened);
    assert "len" + "(" == "len(";
    var inQuote := BodyMode(2, false, true);
    assert Track("\"", Unquoted(2)) == Track([], inQuote) && StaysOpen("\"", Unquoted(2));
    assert '"' !in "ab";
    InsideQuotes("ab", inQuote, '"');
    TrackAppend("\"", "ab", Unquoted(2));
    TrackAppend("len(", "\"" + "ab", Opened);
    UnterminatedBody(ctx, Start(caps), "len(" + ("\"" + "ab"));
    assert "" + "$(" + ("len(" + ("\"" + "ab")) == "$(" + ("len(" + ("\"" + "ab"));
  }

  /** The scan of `a + b` is the scan of `b` from where the scan of `a` stopped. */
  lemma ScanSplit(ctx: Context, a: string, b: string, caps: Captures)
    ensures Scan(ctx, a + b, caps) == Finish(ctx, Run(ctx, Run(ctx, Start(caps), a), b))
  {
    RunAppend(ctx, Start(caps), a, b);
  }

  lemma SumHead(ctx: Context, caps: Captures)
    requires ctx.eval("a+b") == Val(VInt(5))
    ensures var st := Run(ctx, Start(caps), "$(" + "a+b" + ")" + "+");
      Ready(st) && st.vars.out == "5+" && st.caps == caps
  {
    var st0 := Start(caps);
    assert '(' !in "a+b" && ')' !in "a+b" && '"' !in "a+b" && '\'' !in "a+b" by {
      assert forall i :: 0 <= i < 3 ==> "a+b"[i] in {'a', '+', 'b'};
    }
    ParenFree("a+b", 1);
    var head := "$(" + "a+b" + ")";
    ExpressionSubstituted(ctx, st0, "a+b");
    var st1 := Run(ctx, st0, head);
    assert SubstituteExpr(ctx, "a+b") == "5" by {
      assert NatToString(5) == [DigitChar(5)];
    }
    assert st1.vars.out == "5" && Ready(st1) && st1.caps == caps;
    LiteralStep(ctx, st1, '+');
    RunSnoc(ctx, st0, head, '+');
  }

  /** With `a=2`, `b=3`: `substitute('$(a+b)+$a')` gives `5+2`, not `7`. */
  lemma SumExample(ctx: Context, caps: Captures)
    requires ctx.objlist == []
    requires ctx.eval("a+b") == Val(VInt(5)) && ctx.eval("a") == Val(VInt(2))
    ensures Scan(ctx, "$(" + "a+b" + ")" + "+" + "$" + "a", caps).result == Success("5+2")
  {
    var head := "$(" + "a+b" + ")" + "+";
    SumHead(ctx, caps);
    var st2 := Run(ctx, Start(caps), head);
    assert IsName("a");
    NameAtEnd(ctx, st2, "a");
    assert ResolveName(ctx, "a", caps) == Success(Resolved("2", caps)) by {
      assert NatToString(2) == [DigitChar(2)];
    }
    assert "5+" + "2" == "5+2";
    ScanSplit(ctx, head, "$" + "a", caps);
    assert head + ("$" + "a") == "$(" + "a+b" + ")" + "+" + "$" + "a";
  }

  /**
   * A substituted value is never scanned again: a name whose value is not
   * captured is replaced by its rendering, whatever `$` that rendering holds.
   */
  lemma NotRescanned(ctx: Context, n: string, caps: Captures)
    requires IsName(n) && ctx.eval(n).Val?
    requires FirstMatchFrom(ctx.objlist, ctx.eval(n).v, 0).None?
    ensures Scan(ctx, "$" + n, caps) == ScanResult(Success(FormatValue(ctx.eval(n).v)), caps)
  {
    NameAtEnd(ctx, Start(caps), n);
    assert "" + FormatValue(ctx.eval(n).v) == FormatValue(ctx.eval(n).v);
  }

  /** With `b="$a"`, `substitute("$b")` gives the string `"$a"` in TaQL quotes, not the value of `a`. */
  lemma NotRecursiveExample(ctx: Context, caps: Captures)
    requires ctx.objlist == [] && ctx.eval("b") == Val(VStr("$a"))
    ensures Scan(ctx, "$" + "b", caps).result == Success("\"$a\"")
  {
    assert IsName("b");
    NotRescanned(ctx, "b", caps);
    assert '"' !in "$a" by {
      assert forall i :: 0 <= i < 2 ==> "$a"[i] != '"';
    }
    QuoteStringPlain("$a");
    assert "\"" + "$a" + "\"" == "\"$a\"";
  }

  /** The first capture of `x` into an empty list is numbered 1, the next of `y` 2. */
  lemma CaptureTexts(ctx: Context, L: CaptureList, x: Value, y: Value)
    requires |ctx.objlist| == 1 && ctx.objlist[0].objs == L && ctx.objlist[0].prefix == ""
    requires ctx.eval("t") == Val(x) && ctx.eval("u") == Val(y)
    requires ctx.objlist[0].isInstance(x) && ctx.objlist[0].isInstance(y)
    ensures ResolveName(ctx, "t", map[L := []]) == Success(Resolved("$1", map[L := [x]]))
    ensures ResolveName(ctx, "u", map[L := [x]]) == Success(Resolved("$2", map[L := [x, y]]))
  {
    assert FirstMatchFrom(ctx.objlist, x, 0) == Some(0);
    assert FirstMatchFrom(ctx.objlist, y, 0) == Some(0);
    assert NatToString(1) == [DigitChar(1)] && NatToString(2) == [DigitChar(2)];
    assert "$" + "" + "1" == "$1" && "$" + "" + "2" == "$2";
    assert Captured(map[L := []], L) + [x] == [x];
    assert Captured(map[L := [x]], L) + [y] == [x, y];
    assert map[L := []][L := [x]] == map[L := [x]];
    assert map[L := [x]][L := [x, y]] == map[L := [x, y]];
  }

  lemma CaptureHead(ctx: Context, L: CaptureList, x: Value)
    requires |ctx.objlist| == 1 && ctx.objlist[0].objs == L && ctx.objlist[0].prefix == ""
    requires ResolveName(ctx, "t", map[L := []]) == Success(Resolved("$1", map[L := [x]]))
    ensures var st := Run(ctx, Start(map[L := []]), "$" + "t" + " ");
      Ready(st) && st.vars.out == "$1 " && st.caps == map[L := [x]]
  {
    assert IsName("t");
    NameThenLiteral(ctx, Start(map[L := []]), "t", ' ');
  }

  /**
   * Two captured objects in a row are numbered 1 and 2 in the order they are
   * met, and appended in that order to the list of the entry that accepts them.
   */
  lemma CaptureExample(ctx: Context, L: CaptureList, x: Value, y: Value)
    requires |ctx.objlist| == 1 && ctx.objlist[0].objs == L && ctx.objlist[0].prefix == ""
    requires ctx.eval("t") == Val(x) && ctx.eval("u") == Val(y)
    requires ctx.objlist[0].isInstance(x) && ctx.objlist[0].isInstance(y)
    ensures var r := Scan(ctx, "$" + "t" + " " + "$" + "u", map[L := []]);
      r.result == Success("$1 $2") && r.caps == map[L := [x, y]]
  {
    var caps0: Captures := map[L := []];
    CaptureTexts(ctx, L, x, y);
    CaptureHead(ctx, L, x);
    var st1 := Run(ctx, Start(caps0), "$" + "t" + " ");
    assert IsName("u");
    NameAtEnd(ctx, st1, "u");
    assert "$1 " + "$2" == "$1 $2";
    ScanSplit(ctx, "$" + "t" + " ", "$" + "u", caps0);
    assert "$" + "t" + " " + ("$" + "u") == "$" + "t" + " " + "$" + "u";
  }
}
