/**
 * What the rules in the documentation of `substitute` promise, proved about
 * the scanner `Substitute.Scan`: literal text, quoting, escaping, names,
 * expression bodies, the end of the input, and the capture lists.
 */
module SubstituteProperties {
  import opened Results
  import opened SubstituteValues
  import opened Substitute

  // ---------------------------------------------------------------------------
  // Copying characters verbatim

  /**
   * The loop variables after `s` is copied verbatim: to the expression text
   * inside a body, else to the output; `backslash` tells whether the last
   * character copied was a backslash.
   */
  function Emitted(v: Locals, s: string): (r: Locals)
    ensures r.nparen == v.nparen && r.dollar == v.dollar
    ensures r.squote == v.squote && r.dquote == v.dquote && r.name == v.name
  {
    var v' := if v.nparen > 0 then v.(evalstr := v.evalstr + s) else v.(out := v.out + s);
    v'.(backslash := if s == [] then v.backslash else s[|s| - 1] == '\\')
  }

  lemma EmittedAppend(v: Locals, a: string, b: string)
    ensures Emitted(Emitted(v, a), b) == Emitted(v, a + b)
  {
    if v.nparen > 0 {
      assert v.evalstr + a + b == v.evalstr + (a + b);
    } else {
      assert v.out + a + b == v.out + (a + b);
    }
    if b != [] {
      assert (a + b)[|a + b| - 1] == b[|b| - 1];
    }
  }

  /** No name is being read and no exception has stopped the scan. */
  predicate Scanning(st: ScanState)
  {
    st.failure.None? && !st.vars.dollar
  }

  /** Which characters the loop copies verbatim from a given state. */
  predicate IsLiteral(v: Locals, c: char)
  {
    && c != '"' && c != '\''
    && (c == '$' ==> v.squote || v.dquote || v.nparen > 0 || v.backslash)
    && (v.nparen > 0 && !v.squote && !v.dquote ==> c != '(' && c != ')')
  }

  /** A character that is not a quote, not `$` and not a parenthesis inside a body is copied. */
  lemma LiteralStep(ctx: Context, st: ScanState, c: char)
    requires Scanning(st) && IsLiteral(st.vars, c)
    ensures Step(ctx, st, c) == st.(vars := Emitted(st.vars, [c]))
  {
  }

  /**
   * A `"` outside single quotes toggles `dquote`, and a `'` outside double
   * quotes toggles `squote`; either way the quote itself is copied.
   */
  lemma QuoteToggles(ctx: Context, st: ScanState, c: char)
    requires Scanning(st)
    ensures c == '"' && !st.vars.squote ==>
      Step(ctx, st, c) == st.(vars := Emitted(st.vars.(dquote := !st.vars.dquote), [c]))
    ensures c == '\'' && !st.vars.dquote ==>
      Step(ctx, st, c) == st.(vars := Emitted(st.vars.(squote := !st.vars.squote), [c]))
    ensures c == '"' && st.vars.squote ==> Step(ctx, st, c) == st.(vars := Emitted(st.vars, [c]))
    ensures c == '\'' && st.vars.dquote ==> Step(ctx, st, c) == st.(vars := Emitted(st.vars, [c]))
  {
  }

  /** A `$` right after a backslash is copied, at top level, in quotes and in a body alike. */
  lemma EscapedDollar(ctx: Context, st: ScanState)
    requires Scanning(st)
    ensures Run(ctx, st, "\\$") == st.(vars := Emitted(st.vars, "\\$"))
  {
    var st1 := Step(ctx, st, '\\');
    LiteralStep(ctx, st, '\\');
    LiteralStep(ctx, st1, '$');
    EmittedAppend(st.vars, "\\", "$");
    assert "\\$"[1..] == "$";
    assert "$"[1..] == "";
  }

  /** The character that closes the quote opened in `v`. */
  function Closer(v: Locals): char
  {
    if v.squote then '\'' else '"'
  }

  /** Inside quotes everything up to the closing quote is copied, `$` and parentheses included. */
  lemma {:induction false} QuotedRun(ctx: Context, st: ScanState, s: string)
    requires Scanning(st) && st.vars.squote != st.vars.dquote
    requires Closer(st.vars) !in s
    ensures Run(ctx, st, s) == st.(vars := Emitted(st.vars, s))
    decreases |s|
  {
    if s == [] {
      assert Emitted(st.vars, s) == st.vars;
    } else {
      var c := s[0];
      var st1 := Step(ctx, st, c);
      if c == '"' || c == '\'' {
        QuoteToggles(ctx, st, c);
      } else {
        LiteralStep(ctx, st, c);
      }
      assert st1 == st.(vars := Emitted(st.vars, [c]));
      assert Closer(st1.vars) !in s[1..] by {
        assert forall x :: x in s[1..] ==> x in s;
      }
      QuotedRun(ctx, st1, s[1..]);
      EmittedAppend(st.vars, [c], s[1..]);
      assert [c] + s[1..] == s;
    }
  }

  /**
   * A quoted part, opened and closed by the same quote character, is copied
   * verbatim with its quotes, wherever it stands; no `$` in it is substituted.
   */
  lemma QuotedLiteral(ctx: Context, st: ScanState, q: char, body: string)
    requires Scanning(st) && !st.vars.squote && !st.vars.dquote
    requires q == '"' || q == '\''
    requires q !in body
    ensures Run(ctx, st, [q] + body + [q]) == st.(vars := Emitted(st.vars, [q] + body + [q]))
  {
    var st1 := Step(ctx, st, q);
    QuoteToggles(ctx, st, q);
    assert Closer(st1.vars) == q;
    QuotedRun(ctx, st1, body);
    var st2 := Run(ctx, st1, body);
    QuoteToggles(ctx, st2, q);
    RunAppend(ctx, st, [q], body);
    RunAppend(ctx, st, [q] + body, [q]);
    EmittedAppend(st.vars, [q], body);
    EmittedAppend(st.vars, [q] + body, [q]);
  }

  // ---------------------------------------------------------------------------
  // Text without `$`

  /** With no `$` ahead, the scan copies its input to the output; only the quote flags change. */
  lemma {:induction false} DollarFreeRun(ctx: Context, st: ScanState, s: string)
    requires Scanning(st) && st.vars.nparen == 0
    requires '$' !in s
    ensures var r := Run(ctx, st, s);
      && Scanning(r) && r.vars.nparen == 0
      && r.vars.out == st.vars.out + s && r.caps == st.caps
    decreases |s|
  {
    if s != [] {
      var c := s[0];
      var st1 := Step(ctx, st, c);
      if c == '"' || c == '\'' {
        QuoteToggles(ctx, st, c);
      } else {
        LiteralStep(ctx, st, c);
      }
      assert '$' !in s[1..] by {
        assert forall x :: x in s[1..] ==> x in s;
      }
      DollarFreeRun(ctx, st1, s[1..]);
      assert st.vars.out + s == st.vars.out + [c] + s[1..];
    }
  }

  /**
   * A string with no `$` is returned unchanged, quotes and backslashes
   * included, whatever the evaluator; no capture list changes.
   */
  lemma DollarFree(ctx: Context, s: string, caps: Captures)
    requires '$' !in s
    ensures Scan(ctx, s, caps) == ScanResult(Success(s), caps)
  {
    DollarFreeRun(ctx, Start(caps), s);
    assert "" + s == s;
  }

  // ---------------------------------------------------------------------------
  // Names

  /** Whether `c` ends a name that has been read as far as `name`. */
  predicate EndsName(name: string, c: char)
  {
    !IsNameStart(c) && !(IsDigit(c) && name != "") && !(c == '(' && name == "")
  }

  /**
   * A letter or `_` extends a name, and so does a digit unless it would be the
   * first character; neither is copied to the output.
   */
  lemma NameGrows(ctx: Context, st: ScanState, c: char)
    requires st.failure.None? && st.vars.dollar
    requires IsNameStart(c) || (IsDigit(c) && st.vars.name != "")
    ensures Step(ctx, st, c) == st.(vars := st.vars.(name := st.vars.name + [c], backslash := false))
  {
  }

  /**
   * Any other character ends the name: the name is resolved, and the
   * character is then handled exactly as if no name had been read, so it is
   * neither dropped nor copied twice. An exception other than `NameError`
   * stops the scan.
   */
  lemma NameEndReprocessed(ctx: Context, st: ScanState, c: char)
    requires st.failure.None? && st.vars.dollar && EndsName(st.vars.name, c)
    ensures var v := st.vars;
      match ResolveName(ctx, v.name, st.caps)
      case Failure(e) => Step(ctx, st, c) == st.(vars := v.(dollar := false), failure := Some(e))
      case Success(res) =>
        Step(ctx, st, c) == Step(ctx, ScanState(v.(dollar := false, out := v.out + res.text), res.caps, None), c)
  {
  }

  /** At top level, outside quotes and right after a character other than a backslash. */
  predicate Ready(st: ScanState)
  {
    Scanning(st) && st.vars.nparen == 0 && !st.vars.squote && !st.vars.dquote && !st.vars.backslash
  }

  /** `[A-Za-z_][A-Za-z0-9_]*` */
  predicate IsName(n: string)
  {
    && n != [] && IsNameStart(n[0])
    && forall i :: 0 <= i < |n| ==> IsNameStart(n[i]) || IsDigit(n[i])
  }

  lemma {:induction false} NameCharsRun(ctx: Context, st: ScanState, m: string)
    requires st.failure.None? && st.vars.dollar && !st.vars.backslash
    requires forall i :: 0 <= i < |m| ==> IsNameStart(m[i]) || IsDigit(m[i])
    requires m != [] && st.vars.name == "" ==> IsNameStart(m[0])
    ensures Run(ctx, st, m) == st.(vars := st.vars.(name := st.vars.name + m))
    decreases |m|
  {
    if m == [] {
      assert st.vars.name + m == st.vars.name;
    } else {
      NameGrows(ctx, st, m[0]);
      var st1 := Step(ctx, st, m[0]);
      NameCharsRun(ctx, st1, m[1..]);
      assert st.vars.name + [m[0]] + m[1..] == st.vars.name + m;
    }
  }

  /** A `$` at top level followed by a name leaves that name pending, nothing copied yet. */
  lemma NameRun(ctx: Context, st: ScanState, n: string)
    requires Ready(st) && IsName(n)
    ensures Run(ctx, st, "$" + n) == st.(vars := st.vars.(dollar := true, name := n))
  {
    var st1 := Step(ctx, st, '$');
    assert st1 == st.(vars := st.vars.(dollar := true, name := ""));
    assert ("$" + n)[1..] == n;
    NameCharsRun(ctx, st1, n);
    assert "" + n == n;
  }

  /**
   * `$name` followed by a character that ends it: the name's substitution,
   * then that character handled as usual (here one that is simply copied).
   */
  lemma NameThenLiteral(ctx: Context, st: ScanState, n: string, c: char)
    requires Ready(st) && IsName(n) && EndsName(n, c)
    requires IsLiteral(st.vars, c) && c != '$'
    requires ResolveName(ctx, n, st.caps).Success?
    ensures var res := ResolveName(ctx, n, st.caps).value;
      Run(ctx, st, "$" + n + [c]) ==
        ScanState(st.vars.(out := st.vars.out + res.text + [c], backslash := c == '\\', name := n), res.caps, None)
  {
    NameRun(ctx, st, n);
    RunSnoc(ctx, st, "$" + n, c);
    var stn := Run(ctx, st, "$" + n);
    NameEndReprocessed(ctx, stn, c);
    var res := ResolveName(ctx, n, st.caps).value;
    var flushed := ScanState(stn.vars.(dollar := false, out := st.vars.out + res.text), res.caps, None);
    LiteralStep(ctx, flushed, c);
  }

  /** A name at the end of the input is resolved there. */
  lemma NameAtEnd(ctx: Context, st: ScanState, n: string)
    requires Ready(st) && IsName(n)
    ensures Finish(ctx, Run(ctx, st, "$" + n)) ==
      match ResolveName(ctx, n, st.caps)
      case Failure(e) => ScanResult(Failure(e), st.caps)
      case Success(res) => ScanResult(Success(st.vars.out + res.text), res.caps)
  {
    NameRun(ctx, st, n);
  }

  /** A lone `$` at the end of the input is kept. */
  lemma TrailingDollar(ctx: Context, st: ScanState)
    requires Ready(st)
    ensures Finish(ctx, Run(ctx, st, "$")) == ScanResult(Success(st.vars.out + "$"), st.caps)
  {
    assert Run(ctx, st, "$") == Step(ctx, st, '$');
  }

  // ---------------------------------------------------------------------------
  // Expression bodies

  /** How a character outside quotes changes the parenthesis count of a body. */
  function Delta(c: char): int
  {
    if c == '(' then 1 else if c == ')' then -1 else 0
  }

  /** Where a body stands: its parenthesis count and which quote, if any, is open. */
  datatype BodyMode = BodyMode(parens: int, squote: bool, dquote: bool)

  /** The mode of a body at count `n` with no quote open. */
  function Unquoted(n: int): BodyMode
  {
    BodyMode(n, false, false)
  }

  /** The mode right after `$(`. */
  const Opened := Unquoted(1)

  function ModeOf(v: Locals): BodyMode
  {
    BodyMode(v.nparen, v.squote, v.dquote)
  }

  /** The loop variables with the count and the quote flags of `m`. */
  function WithMode(v: Locals, m: BodyMode): (r: Locals)
    requires m.parens >= 0
    ensures ModeOf(r) == m
  {
    v.(nparen := m.parens as nat, squote := m.squote, dquote := m.dquote)
  }

  /**
   * How one character of a body moves its mode: a quote toggles its flag
   * unless the other quote is open, and parentheses count only outside quotes.
   */
  function Advance(m: BodyMode, c: char): BodyMode
  {
    if c == '"' && !m.squote then m.(dquote := !m.dquote)
    else if c == '\'' && !m.dquote then m.(squote := !m.squote)
    else if m.squote || m.dquote then m
    else m.(parens := m.parens + Delta(c))
  }

  /** The mode after reading `e` from `m`. */
  function Track(e: string, m: BodyMode): BodyMode
  {
    if e == [] then m else Track(e[1..], Advance(m, e[0]))
  }

  /** Reading `e` from `m`, the count never drops below 1: no `)` in `e` closes the body. */
  predicate StaysOpen(e: string, m: BodyMode)
  {
    e == [] || (Advance(m, e[0]).parens >= 1 && StaysOpen(e[1..], Advance(m, e[0])))
  }

  lemma {:induction false} TrackAppend(a: string, b: string, m: BodyMode)
    ensures Track(a + b, m) == Track(b, Track(a, m))
    ensures StaysOpen(a, m) && StaysOpen(b, Track(a, m)) ==> StaysOpen(a + b, m)
    decreases |a|
  {
    if a == [] {
      assert a + b == b;
    } else {
      assert (a + b)[0] == a[0] && (a + b)[1..] == a[1..] + b;
      TrackAppend(a[1..], b, Advance(m, a[0]));
    }
  }

  lemma {:induction false} InsideQuotes(s: string, m: BodyMode, q: char)
    requires m.parens >= 1 && m.squote != m.dquote
    requires q == (if m.squote then '\'' else '"') && q !in s
    ensures StaysOpen(s, m) && Track(s, m) == m
    decreases |s|
  {
    if s != [] {
      assert q !in s[1..] by {
        assert forall x :: x in s[1..] ==> x in s;
      }
      InsideQuotes(s[1..], m, q);
    }
  }

  /**
   * A quoted part of a body, opened and closed by the same quote, leaves the
   * count where it was, whatever parentheses it holds.
   */
  lemma QuotedPartBalanced(q: char, lit: string, n: int)
    requires q == '"' || q == '\''
    requires q !in lit && n >= 1
    ensures StaysOpen([q] + lit + [q], Unquoted(n)) && Track([q] + lit + [q], Unquoted(n)) == Unquoted(n)
  {
    var m1 := Advance(Unquoted(n), q);
    assert [q][1..] == [];
    assert Track([q], Unquoted(n)) == Track([], m1) == m1;
    assert Track([q], m1) == Track([], Advance(m1, q)) == Unquoted(n);
    assert StaysOpen([q], Unquoted(n)) && StaysOpen([q], m1);
    InsideQuotes(lit, m1, q);
    TrackAppend([q], lit, Unquoted(n));
    TrackAppend([q] + lit, [q], Unquoted(n));
    assert StaysOpen([q] + lit, Unquoted(n)) && Track([q] + lit, Unquoted(n)) == m1;
  }

  /** One character of a body that does not close it goes to the expression text. */
  lemma BodyStep(ctx: Context, st: ScanState, c: char)
    requires Scanning(st) && st.vars.nparen >= 1
    requires Advance(ModeOf(st.vars), c).parens >= 1
    ensures Step(ctx, st, c) == st.(vars := WithMode(Emitted(st.vars, [c]), Advance(ModeOf(st.vars), c)))
  {
  }

  /**
   * Inside a body, every character up to the `)` that closes it goes to the
   * expression text, quotes included; only the mode changes, and `$` is not
   * special.
   */
  lemma {:induction false} BodyRun(ctx: Context, st: ScanState, e: string)
    requires Scanning(st) && st.vars.nparen >= 1
    requires StaysOpen(e, ModeOf(st.vars))
    ensures Track(e, ModeOf(st.vars)).parens >= 1
    ensures Run(ctx, st, e) == st.(vars := WithMode(Emitted(st.vars, e), Track(e, ModeOf(st.vars))))
    decreases |e|
  {
    var v := st.vars;
    if e == [] {
      assert Emitted(v, e) == v;
    } else {
      var c := e[0];
      var m1 := Advance(ModeOf(v), c);
      BodyStep(ctx, st, c);
      var st1 := Step(ctx, st, c);
      assert ModeOf(st1.vars) == m1;
      BodyRun(ctx, st1, e[1..]);
      EmittedAppend(v, [c], e[1..]);
      assert Emitted(st1.vars, e[1..]).evalstr == Emitted(v, [c] + e[1..]).evalstr;
      assert [c] + e[1..] == e;
    }
  }

  /** The state right after `$(`: a body at depth one with empty expression text. */
  function BodyStart(st: ScanState): ScanState
  {
    st.(vars := st.vars.(nparen := 1, evalstr := "", name := ""))
  }

  /** `$(` at top level opens a body. */
  lemma OpenBody(ctx: Context, st: ScanState)
    requires Ready(st)
    ensures Run(ctx, st, "$(") == BodyStart(st)
  {
    assert "$("[1..] == "(";
    assert "("[1..] == "";
  }

  /**
   * The `)` that brings the count back to 0 is not copied: the expression
   * text is handed to `substituteexpr` and its result goes to the output.
   */
  lemma CloseBody(ctx: Context, st: ScanState)
    requires Scanning(st) && !st.vars.squote && !st.vars.dquote && st.vars.nparen == 1
    ensures Step(ctx, st, ')') ==
      st.(vars := st.vars.(nparen := 0, out := st.vars.out + SubstituteExpr(ctx, st.vars.evalstr), backslash := false))
  {
  }

  /** A body whose text `e` leaves the count at 1 outside quotes is closed by `)`. */
  lemma BodyClosed(ctx: Context, st: ScanState, e: string)
    requires Ready(st)
    requires var r := Run(ctx, BodyStart(st), e);
      && r.failure.None? && r.caps == st.caps
      && r.vars.(backslash := false) == st.vars.(nparen := 1, evalstr := e, name := "")
    ensures Run(ctx, st, "$(" + e + ")") ==
      st.(vars := st.vars.(out := st.vars.out + SubstituteExpr(ctx, e), name := "", evalstr := e))
  {
    OpenBody(ctx, st);
    var r := Run(ctx, BodyStart(st), e);
    CloseBody(ctx, r);
    RunAppend(ctx, st, "$(", e);
    RunSnoc(ctx, st, "$(" + e, ')');
  }

  /**
   * `$(` opens a body that an expression balanced outside its quoted parts,
   * with every quote closed again, and one `)` close: the outer parentheses
   * vanish and the expression's substitution takes the place of the whole.
   */
  lemma ExpressionSubstituted(ctx: Context, st: ScanState, e: string)
    requires Ready(st)
    requires StaysOpen(e, Opened) && Track(e, Opened) == Opened
    ensures Run(ctx, st, "$(" + e + ")") ==
      st.(vars := st.vars.(out := st.vars.out + SubstituteExpr(ctx, e), name := "", evalstr := e))
  {
    assert ModeOf(BodyStart(st).vars) == Opened;
    BodyRun(ctx, BodyStart(st), e);
    assert "" + e == e;
    BodyClosed(ctx, st, e);
  }

  /**
   * An expression whose evaluation raises is left in the output as written,
   * `$(` and `)` included.
   */
  lemma FailingExpressionKept(ctx: Context, st: ScanState, e: string)
    requires Ready(st) && ctx.eval(e).Raise?
    requires StaysOpen(e, Opened) && Track(e, Opened) == Opened
    ensures Run(ctx, st, "$(" + e + ")").vars.out == st.vars.out + "$(" + e + ")"
  {
    ExpressionSubstituted(ctx, st, e);
  }

  /**
   * A body still open at the end of the input, inside a quote or not, is
   * emitted as `$(` and its text, with no `)` added.
   */
  lemma UnterminatedBody(ctx: Context, st: ScanState, e: string)
    requires Ready(st)
    requires StaysOpen(e, Opened)
    ensures Finish(ctx, Run(ctx, st, "$(" + e)) == ScanResult(Success(st.vars.out + "$(" + e), st.caps)
  {
    OpenBody(ctx, st);
    var st2 := Run(ctx, st, "$(");
    assert ModeOf(st2.vars) == Opened;
    BodyRun(ctx, st2, e);
    assert "" + e == e;
    RunAppend(ctx, st, "$(", e);
  }

  // ---------------------------------------------------------------------------
  // Unknown names and failing expressions are left as they are

  /** Every name and every expression is undefined. */
  ghost predicate AllUndefined(ctx: Context)
  {
    forall e :: ctx.eval(e) == Raise(NameError)
  }

  /** The source text of a name being read or of an open body, not yet in the output. */
  function Pending(v: Locals): string
  {
    (if v.dollar then "$" + v.name else "") + (if v.nparen > 0 then "$(" + v.evalstr else "")
  }

  /** A name is read only at top level. */
  predicate NameAtTop(v: Locals)
  {
    v.dollar ==> v.nparen == 0
  }

  lemma EmittedPending(v: Locals, s: string)
    requires !v.dollar
    ensures Emitted(v, s).out + Pending(Emitted(v, s)) == v.out + Pending(v) + s
  {
    if v.nparen > 0 {
      assert "$(" + v.evalstr + s == "$(" + (v.evalstr + s);
    }
  }

  /** While a name is read, an undefined name is put back as `$name` and the character reprocessed. */
  lemma UndefinedNameStep(ctx: Context, st: ScanState, c: char)
    requires AllUndefined(ctx)
    requires st.failure.None? && st.vars.dollar && st.vars.nparen == 0
    ensures var r := Step(ctx, st, c);
      && r.failure.None? && NameAtTop(r.vars) && r.caps == st.caps
      && r.vars.out + Pending(r.vars) == st.vars.out + Pending(st.vars) + [c]
  {
    var v := st.vars;
    if EndsName(v.name, c) {
      assert ctx.eval(v.name) == Raise(NameError);
      assert ResolveName(ctx, v.name, st.caps) == Success(Resolved("$" + v.name, st.caps)) by {
        if v.name == "" {
          assert "$" + v.name == "$";
        }
      }
      NameEndReprocessed(ctx, st, c);
      var st' := ScanState(v.(dollar := false, out := v.out + ("$" + v.name)), st.caps, None);
      UndefinedOtherStep(ctx, st', c);
      assert st'.vars.out + Pending(st'.vars) == v.out + Pending(v) by {
        assert Pending(st'.vars) == "";
        assert Pending(v) == "$" + v.name + "";
      }
    } else if c == '(' && v.name == "" {
      assert "$" + v.name + "" == "$";
    } else {
      assert "$" + (v.name + [c]) + "" == "$" + v.name + "" + [c];
    }
  }

  /** A quote is copied whatever the mode, so nothing pending changes. */
  lemma UndefinedQuoteStep(ctx: Context, st: ScanState, c: char)
    requires Scanning(st) && (c == '"' || c == '\'')
    ensures var r := Step(ctx, st, c);
      && r.failure.None? && NameAtTop(r.vars) && r.caps == st.caps
      && r.vars.out + Pending(r.vars) == st.vars.out + Pending(st.vars) + [c]
  {
    var v := st.vars;
    QuoteToggles(ctx, st, c);
    if c == '"' && !v.squote {
      EmittedPending(v.(dquote := !v.dquote), [c]);
    } else if c == '\'' && !v.dquote {
      EmittedPending(v.(squote := !v.squote), [c]);
    } else {
      EmittedPending(v, [c]);
    }
  }

  /** A parenthesis of a body outside quotes: a failing expression is put back as `$(expr)`. */
  lemma UndefinedParenStep(ctx: Context, st: ScanState, c: char)
    requires AllUndefined(ctx)
    requires Scanning(st) && !st.vars.squote && !st.vars.dquote && st.vars.nparen > 0
    requires c == '(' || c == ')'
    ensures var r := Step(ctx, st, c);
      && r.failure.None? && NameAtTop(r.vars) && r.caps == st.caps
      && r.vars.out + Pending(r.vars) == st.vars.out + Pending(st.vars) + [c]
  {
    var v := st.vars;
    if v.nparen == 1 && c == ')' {
      assert ctx.eval(v.evalstr) == Raise(NameError);
      assert Step(ctx, st, c).vars.out == v.out + "$(" + v.evalstr + ")";
    } else {
      assert "$(" + v.evalstr + [c] == "$(" + (v.evalstr + [c]);
    }
  }

  /** Outside a name, an expression that fails is put back as `$(expr)`. */
  lemma UndefinedOtherStep(ctx: Context, st: ScanState, c: char)
    requires AllUndefined(ctx)
    requires Scanning(st)
    ensures var r := Step(ctx, st, c);
      && r.failure.None? && NameAtTop(r.vars) && r.caps == st.caps
      && r.vars.out + Pending(r.vars) == st.vars.out + Pending(st.vars) + [c]
  {
    var v := st.vars;
    if c == '"' || c == '\'' {
      UndefinedQuoteStep(ctx, st, c);
    } else if IsLiteral(v, c) {
      LiteralStep(ctx, st, c);
      EmittedPending(v, [c]);
    } else if v.nparen > 0 {
      UndefinedParenStep(ctx, st, c);
    }
  }

  lemma UndefinedStep(ctx: Context, st: ScanState, c: char)
    requires AllUndefined(ctx)
    requires st.failure.None? && NameAtTop(st.vars)
    ensures var r := Step(ctx, st, c);
      && r.failure.None? && NameAtTop(r.vars) && r.caps == st.caps
      && r.vars.out + Pending(r.vars) == st.vars.out + Pending(st.vars) + [c]
  {
    if st.vars.dollar {
      UndefinedNameStep(ctx, st, c);
    } else {
      UndefinedOtherStep(ctx, st, c);
    }
  }

  lemma {:induction false} UndefinedRun(ctx: Context, st: ScanState, s: string)
    requires AllUndefined(ctx)
    requires st.failure.None? && NameAtTop(st.vars)
    ensures var r := Run(ctx, st, s);
      && r.failure.None? && NameAtTop(r.vars) && r.caps == st.caps
      && r.vars.out + Pending(r.vars) == st.vars.out + Pending(st.vars) + s
    decreases |s|
  {
    if s != [] {
      var st1 := Step(ctx, st, s[0]);
      UndefinedStep(ctx, st, s[0]);
      UndefinedRun(ctx, st1, s[1..]);
      assert st.vars.out + Pending(st.vars) + s
          == st.vars.out + Pending(st.vars) + [s[0]] + s[1..];
    }
  }

  /**
   * When no name is defined and every expression fails, the output is the
   * input: `$name` stays `$name`, `$(expr)` stays `$(expr)`, and an
   * unterminated `$(expr` or a trailing `$` is kept as written.
   */
  lemma UndefinedLeftUntouched(ctx: Context, s: string, caps: Captures)
    requires AllUndefined(ctx)
    ensures Scan(ctx, s, caps) == ScanResult(Success(s), caps)
  {
    UndefinedRun(ctx, Start(caps), s);
    var r := Run(ctx, Start(caps), s);
    assert Pending(Initial) == "" && "" + "" + s == s;
    if r.vars.dollar {
      assert ctx.eval(r.vars.name) == Raise(NameError);
      assert ResolveName(ctx, r.vars.name, caps) == Success(Resolved("$" + r.vars.name, caps)) by {
        if r.vars.name == "" {
          assert "$" + r.vars.name == "$";
        }
      }
      assert r.vars.out + ("$" + r.vars.name) == r.vars.out + Pending(r.vars);
    } else if r.vars.nparen > 0 {
      assert Pending(r.vars) == "$(" + r.vars.evalstr;
      assert r.vars.out + "$(" + r.vars.evalstr == r.vars.out + Pending(r.vars);
    } else {
      assert Pending(r.vars) == "" && r.vars.out + "" == r.vars.out;
    }
  }

  // ---------------------------------------------------------------------------
  // Capture lists

  /**
   * `after` extends `before`: every list keeps its contents as a prefix,
   * only lists named in `objlist` can appear, and a list not named in
   * `objlist` keeps exactly its contents.
   */
  ghost predicate Grows(objlist: seq<CaptureSpec>, before: Captures, after: Captures)
  {
    && (forall o :: o in before ==> o in after && before[o] <= after[o])
    && (forall o :: o in after && o !in before ==> o in ListsOf(objlist))
    && (forall o :: o in before && o !in ListsOf(objlist) ==> after[o] == before[o])
  }

  lemma GrowsTransitive(objlist: seq<CaptureSpec>, a: Captures, b: Captures, c: Captures)
    requires Grows(objlist, a, b) && Grows(objlist, b, c)
    ensures Grows(objlist, a, c)
  {
    forall o | o in a
      ensures o in c && a[o] <= c[o]
      ensures o !in ListsOf(objlist) ==> c[o] == a[o]
    {
      assert a[o] <= b[o] && b[o] <= c[o];
    }
  }

  /** Resolving a name appends at most one value to one list of `objlist`. */
  lemma ResolveGrows(ctx: Context, name: string, caps: Captures)
    requires ResolveName(ctx, name, caps).Success?
    ensures Grows(ctx.objlist, caps, ResolveName(ctx, name, caps).value.caps)
  {
    var after := ResolveName(ctx, name, caps).value.caps;
    if name != "" && ctx.eval(name).Val? {
      var v := ctx.eval(name).v;
      match FirstMatchFrom(ctx.objlist, v, 0)
      case None =>
      case Some(k) =>
        var L := ctx.objlist[k].objs;
        assert L in ListsOf(ctx.objlist);
        forall o | o in caps
          ensures o in after && caps[o] <= after[o]
        {
          if o == L {
            assert after[L] == caps[L] + [v];
          }
        }
    }
  }

  lemma StepGrows(ctx: Context, st: ScanState, c: char)
    ensures Grows(ctx.objlist, st.caps, Step(ctx, st, c).caps)
  {
    if st.failure.None? && st.vars.dollar && EndsName(st.vars.name, c) {
      match ResolveName(ctx, st.vars.name, st.caps)
      case Failure(_) =>
      case Success(res) => ResolveGrows(ctx, st.vars.name, st.caps);
    }
  }

  lemma {:induction false} RunGrows(ctx: Context, st: ScanState, s: string)
    ensures Grows(ctx.objlist, st.caps, Run(ctx, st, s).caps)
    decreases |s|
  {
    if s != [] {
      var st1 := Step(ctx, st, s[0]);
      StepGrows(ctx, st, s[0]);
      RunGrows(ctx, st1, s[1..]);
      GrowsTransitive(ctx.objlist, st.caps, st1.caps, Run(ctx, st1, s[1..]).caps);
    }
  }

  /**
   * `substitute` only ever appends to the capture lists of `objlist`: what
   * the caller had in them stays, in order, in front.
   */
  lemma ScanGrows(ctx: Context, s: string, caps: Captures)
    ensures Grows(ctx.objlist, caps, Scan(ctx, s, caps).caps)
  {
    var r := Run(ctx, Start(caps), s);
    RunGrows(ctx, Start(caps), s);
    if r.failure.None? && r.vars.dollar {
      match ResolveName(ctx, r.vars.name, r.caps)
      case Failure(_) =>
      case Success(res) =>
        ResolveGrows(ctx, r.vars.name, r.caps);
        GrowsTransitive(ctx.objlist, caps, r.caps, res.caps);
    }
  }

  // ---------------------------------------------------------------------------
  // When the scan fails

  /** The name being read is empty (right after `$`) or an identifier. */
  predicate NameSoFar(n: string)
  {
    n == "" || IsName(n)
  }

  /** `e` is what evaluating some identifier raises, and it is not a `NameError`. */
  ghost predicate RaisedByName(ctx: Context, e: Exception)
  {
    e != NameError && exists n :: IsName(n) && ctx.eval(n) == Raise(e)
  }

  /** A name that fails to resolve is an identifier whose evaluation raised something other than `NameError`. */
  lemma ResolveFailure(ctx: Context, name: string, caps: Captures)
    requires NameSoFar(name) && ResolveName(ctx, name, caps).Failure?
    ensures RaisedByName(ctx, ResolveName(ctx, name, caps).error)
  {
    assert IsName(name) && ctx.eval(name) == Raise(ResolveName(ctx, name, caps).error);
  }

  lemma StepFailure(ctx: Context, st: ScanState, c: char)
    requires NameSoFar(st.vars.name)
    requires st.failure.Some? ==> RaisedByName(ctx, st.failure.value)
    ensures var r := Step(ctx, st, c);
      && NameSoFar(r.vars.name)
      && (r.failure.Some? ==> RaisedByName(ctx, r.failure.value))
  {
    var v := st.vars;
    if st.failure.None? && v.dollar {
      if IsNameStart(c) || (IsDigit(c) && v.name != "") {
        assert IsName(v.name + [c]) by {
          assert forall i :: 0 <= i < |v.name| ==> (v.name + [c])[i] == v.name[i];
        }
      } else if EndsName(v.name, c) && ResolveName(ctx, v.name, st.caps).Failure? {
        ResolveFailure(ctx, v.name, st.caps);
      }
    }
  }

  lemma {:induction false} RunFailure(ctx: Context, st: ScanState, s: string)
    requires NameSoFar(st.vars.name)
    requires st.failure.Some? ==> RaisedByName(ctx, st.failure.value)
    ensures var r := Run(ctx, st, s);
      && NameSoFar(r.vars.name)
      && (r.failure.Some? ==> RaisedByName(ctx, r.failure.value))
    decreases |s|
  {
    if s != [] {
      StepFailure(ctx, st, s[0]);
      RunFailure(ctx, Step(ctx, st, s[0]), s[1..]);
    }
  }

  /**
   * `substitute` raises only what evaluating an identifier after a `$`
   * raised, and only when that is not a `NameError`. Malformed input (an
   * unterminated quote or body, a stray or trailing `$`) never fails.
   */
  lemma ScanFailsOnlyOnNameException(ctx: Context, s: string, caps: Captures)
    ensures var r := Scan(ctx, s, caps).result;
      r.Failure? ==> r.error != NameError && exists n :: IsName(n) && ctx.eval(n) == Raise(r.error)
  {
    RunFailure(ctx, Start(caps), s);
    var st := Run(ctx, Start(caps), s);
    if st.failure.None? && st.vars.dollar && ResolveName(ctx, st.vars.name, st.caps).Failure? {
      ResolveFailure(ctx, st.vars.name, st.caps);
    }
  }

  /**
   * When no identifier's evaluation raises anything but `NameError`,
   * `substitute` succeeds on every command, however malformed.
   */
  lemma ScanSucceeds(ctx: Context, s: string, caps: Captures)
    requires forall n :: IsName(n) && ctx.eval(n).Raise? ==> ctx.eval(n).exc == NameError
    ensures Scan(ctx, s, caps).result.Success?
  {
    ScanFailsOnlyOnNameException(ctx, s, caps);
  }
}
