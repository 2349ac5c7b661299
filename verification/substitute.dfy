/**
 * The `$`-substitution engine of `pyrap.util.substitute`: a single pass over a
 * command string that replaces `$name` and `$(expression)` by literal TaQL text.
 *
 * Python's `eval(text, globals, locals)` is an evaluator passed in the context;
 * the `objlist` capture lists are objects the engine appends to in place.
 */
module Substitute {
  import opened Results
  import opened SubstituteValues

  /** The exceptions of `eval` that the engine tells apart. */
  datatype Exception = NameError | OtherException(kind: string)

  /** What `eval(text, globals, locals)` gives: a value, or the exception it raises. */
  datatype EvalResult = Val(v: Value) | Raise(exc: Exception)

  /** A caller-owned Python list to which captured objects are appended. */
  class CaptureList {
    var items: seq<Value>

    constructor(init: seq<Value>)
      ensures items == init
    {
      items := init;
    }
  }

  /** One `objlist` entry `(objtype, objstr, objs)`; `isInstance` plays `isinstance(v, objtype)`. */
  datatype CaptureSpec = CaptureSpec(isInstance: Value -> bool, prefix: string, objs: CaptureList)

  /** The arguments of `substitute` besides the string: `objlist`, and `globals`/`locals` as the evaluator they give. */
  datatype Context = Context(objlist: seq<CaptureSpec>, eval: string -> EvalResult)

  /** The contents of capture lists, by list object (two entries may share one list). */
  type Captures = map<CaptureList, seq<Value>>

  function ListsOf(objlist: seq<CaptureSpec>): set<CaptureList>
  {
    set i | 0 <= i < |objlist| :: objlist[i].objs
  }

  /** The current contents of every capture list of `objlist`. */
  function Snapshot(objlist: seq<CaptureSpec>): Captures
    reads ListsOf(objlist)
  {
    map o | o in ListsOf(objlist) :: o.items
  }

  function Captured(caps: Captures, o: CaptureList): seq<Value>
  {
    if o in caps then caps[o] else []
  }

  // ---------------------------------------------------------------------------
  // substitutename and substituteexpr

  predicate IsNameStart(c: char)
  {
    c == '_' || ('a' <= c <= 'z') || ('A' <= c <= 'Z')
  }

  /** The first entry, from index `k` on, whose type test accepts `v`. */
  function FirstMatchFrom(objlist: seq<CaptureSpec>, v: Value, k: nat): (r: Option<nat>)
    requires k <= |objlist|
    ensures r.Some? ==> k <= r.value < |objlist| && objlist[r.value].isInstance(v)
    ensures r.Some? ==> forall j :: k <= j < r.value ==> !objlist[j].isInstance(v)
    ensures r.None? ==> forall j :: k <= j < |objlist| ==> !objlist[j].isInstance(v)
    decreases |objlist| - k
  {
    if k == |objlist| then None
    else if objlist[k].isInstance(v) then Some(k)
    else FirstMatchFrom(objlist, v, k + 1)
  }

  /** The text a name resolves to and the capture lists afterwards. */
  datatype Resolved = Resolved(text: string, caps: Captures)

  /** Specification of `substitutename`. */
  function ResolveName(ctx: Context, name: string, caps: Captures): (r: Result<Resolved, Exception>)
    ensures name == "" ==> r == Success(Resolved("$", caps))
    ensures name != "" && ctx.eval(name) == Raise(NameError) ==> r == Success(Resolved("$" + name, caps))
    ensures name != "" && ctx.eval(name).Raise? && ctx.eval(name).exc != NameError ==>
              r == Failure(ctx.eval(name).exc)
    ensures name != "" && ctx.eval(name).Val? ==> (
              && r.Success?
              && var v := ctx.eval(name).v;
                 match FirstMatchFrom(ctx.objlist, v, 0)
                 case None => r.value == Resolved(FormatValue(v), caps)
                 case Some(k) =>
                   var L := ctx.objlist[k].objs;
                   && r.value.caps.Keys == caps.Keys + {L}
                   && r.value.caps[L] == Captured(caps, L) + [v]
                   && (forall o :: o in caps && o != L ==> r.value.caps[o] == caps[o])
                   && r.value.text == "$" + ctx.objlist[k].prefix + NatToString(|r.value.caps[L]|))
  {
    if name == "" then Success(Resolved("$", caps))
    else match ctx.eval(name)
      case Raise(NameError) => Success(Resolved("$" + name, caps))
      case Raise(e) => Failure(e)
      case Val(v) =>
        match FirstMatchFrom(ctx.objlist, v, 0)
        case None => Success(Resolved(FormatValue(v), caps))
        case Some(k) =>
          var spec := ctx.objlist[k];
          var grown := Captured(caps, spec.objs) + [v];
          Success(Resolved("$" + spec.prefix + NatToString(|grown|), caps[spec.objs := grown]))
  }

  /** `substitutename`: resolves `name`, appending a captured value to its list in place. */
  method SubstituteName(name: string, ctx: Context) returns (r: Result<string, Exception>)
    modifies ListsOf(ctx.objlist)
    ensures var spec := ResolveName(ctx, name, old(Snapshot(ctx.objlist)));
      && (spec.Success? ==> r == Success(spec.value.text) && Snapshot(ctx.objlist) == spec.value.caps)
      && (spec.Failure? ==> r == Failure(spec.error) && Snapshot(ctx.objlist) == old(Snapshot(ctx.objlist)))
  {
    if |name| == 0 {
      return Success("$");
    }
    var res := ctx.eval(name);
    if res.Raise? {
      if res.exc == NameError {
        return Success("$" + name);
      }
      return Failure(res.exc);
    }
    var v := res.v;
    var i := 0;
    while i < |ctx.objlist|
      invariant 0 <= i <= |ctx.objlist|
      invariant FirstMatchFrom(ctx.objlist, v, 0) == FirstMatchFrom(ctx.objlist, v, i)
      invariant Snapshot(ctx.objlist) == old(Snapshot(ctx.objlist))
    {
      var spec := ctx.objlist[i];
      if spec.isInstance(v) {
        ghost var before := Snapshot(ctx.objlist);
        spec.objs.items := spec.objs.items + [v];
        assert spec.objs in ListsOf(ctx.objlist);
        assert Snapshot(ctx.objlist) == before[spec.objs := spec.objs.items];
        return Success("$" + spec.prefix + NatToString(|spec.objs.items|));
      }
      i := i + 1;
    }
    var text := SubstituteVar(v);
    return Success(text);
  }

  /** `substituteexpr`: the rendered value, or the expression text back on any exception. */
  function SubstituteExpr(ctx: Context, expr: string): string
  {
    match ctx.eval(expr)
    case Val(v) => FormatValue(v)
    case Raise(_) => "$(" + expr + ")"
  }

  // ---------------------------------------------------------------------------
  // The scanner of `substitute`, one character at a time

  /** The local variables of `substitute`'s loop. */
  datatype Locals = Locals(
    backslash: bool, dollar: bool, nparen: nat, name: string, evalstr: string,
    squote: bool, dquote: bool, out: string)

  /** The loop's variables, the capture lists, and the exception that stopped the scan, if any. */
  datatype ScanState = ScanState(vars: Locals, caps: Captures, failure: Option<Exception>)

  const Initial := Locals(false, false, 0, "", "", false, false, "")

  function Start(caps: Captures): ScanState
  {
    ScanState(Initial, caps, None)
  }

  /**
   * The `if dollar:` part of the loop body: extend the name, open an
   * expression body, or end the name and substitute it. The second component
   * is `tmp`: the character when it still has to be handled, else "".
   */
  function NamePhase(ctx: Context, st: ScanState, c: char): (ScanState, string)
  {
    var v := st.vars;
    if !v.dollar then (st, [c])
    else if IsNameStart(c) then (st.(vars := v.(name := v.name + [c])), "")
    else if IsDigit(c) && v.name != "" then (st.(vars := v.(name := v.name + [c])), "")
    else if c == '(' && v.name == "" then (st.(vars := v.(nparen := 1, evalstr := "", dollar := false)), "")
    else match ResolveName(ctx, v.name, st.caps)
      case Failure(e) => (st.(vars := v.(dollar := false), failure := Some(e)), [c])
      case Success(res) => (ScanState(v.(dollar := false, out := v.out + res.text), res.caps, None), [c])
  }

  /** Quote toggling, parenthesis counting in a body, and `$` detection. */
  function QuotePhase(ctx: Context, v: Locals, tmp: string): (Locals, string)
  {
    if tmp == "" then (v, tmp)
    else if tmp == "\"" && !v.squote then (v.(dquote := !v.dquote), tmp)
    else if tmp == "'" && !v.dquote then (v.(squote := !v.squote), tmp)
    else if v.dquote || v.squote then (v, tmp)
    else if v.nparen > 0 then
      if tmp == "(" then (v.(nparen := v.nparen + 1), tmp)
      else if tmp == ")" then
        if v.nparen == 1 then (v.(nparen := 0, out := v.out + SubstituteExpr(ctx, v.evalstr)), "")
        else (v.(nparen := v.nparen - 1), tmp)
      else (v, tmp)
    else if tmp == "$" && !v.backslash then (v.(dollar := true, name := ""), "")
    else (v, tmp)
  }

  /** Append the character to the body or the output; remember whether it was a backslash. */
  function EmitPhase(v: Locals, tmp: string): Locals
  {
    var v' :=
      if tmp == "" then v
      else if v.nparen > 0 then v.(evalstr := v.evalstr + tmp)
      else v.(out := v.out + tmp);
    v'.(backslash := tmp == "\\")
  }

  /** One iteration of the loop of `substitute`; an exception stops the scan. */
  function Step(ctx: Context, st: ScanState, c: char): ScanState
  {
    if st.failure.Some? then st
    else
      var named := NamePhase(ctx, st, c);
      if named.0.failure.Some? then named.0
      else
        var quoted := QuotePhase(ctx, named.0.vars, named.1);
        named.0.(vars := EmitPhase(quoted.0, quoted.1))
  }

  function Run(ctx: Context, st: ScanState, s: string): ScanState
    decreases |s|
  {
    if s == [] then st else Run(ctx, Step(ctx, st, s[0]), s[1..])
  }

  /** The result of `substitute` and the capture lists afterwards. */
  datatype ScanResult = ScanResult(result: Result<string, Exception>, caps: Captures)

  /** The code after the loop: a pending name is resolved, an open body flushed as `$(` and its text. */
  function Finish(ctx: Context, st: ScanState): ScanResult
  {
    var v := st.vars;
    if st.failure.Some? then ScanResult(Failure(st.failure.value), st.caps)
    else if v.dollar then
      match ResolveName(ctx, v.name, st.caps)
      case Failure(e) => ScanResult(Failure(e), st.caps)
      case Success(res) => ScanResult(Success(v.out + res.text), res.caps)
    else if v.nparen > 0 then ScanResult(Success(v.out + "$(" + v.evalstr), st.caps)
    else ScanResult(Success(v.out), st.caps)
  }

  /** Specification of `substitute(s, objlist, globals, locals)`. */
  function Scan(ctx: Context, s: string, caps: Captures): ScanResult
  {
    Finish(ctx, Run(ctx, Start(caps), s))
  }

  lemma {:induction false} RunAppend(ctx: Context, st: ScanState, a: string, b: string)
    ensures Run(ctx, st, a + b) == Run(ctx, Run(ctx, st, a), b)
    decreases |a|
  {
    if a != [] {
      assert (a + b)[1..] == a[1..] + b;
      RunAppend(ctx, Step(ctx, st, a[0]), a[1..], b);
    } else {
      assert a + b == b;
    }
  }

  lemma RunSnoc(ctx: Context, st: ScanState, a: string, c: char)
    ensures Run(ctx, st, a + [c]) == Step(ctx, Run(ctx, st, a), c)
  {
    RunAppend(ctx, st, a, [c]);
    assert [c][1..] == [];
  }

  lemma {:induction false} RunFailed(ctx: Context, st: ScanState, s: string)
    requires st.failure.Some?
    ensures Run(ctx, st, s) == st
    decreases |s|
  {
    if s != [] {
      RunFailed(ctx, st, s[1..]);
    }
  }

  /** The `if dollar:` block of the loop body; a captured value is appended in place. */
  method DollarBlock(ctx: Context, v: Locals, c: char) returns (v': Locals, tmp: string, exc: Option<Exception>)
    modifies ListsOf(ctx.objlist)
    ensures var spec := NamePhase(ctx, ScanState(v, old(Snapshot(ctx.objlist)), None), c);
      && exc == spec.0.failure
      && (exc.None? ==> v' == spec.0.vars && tmp == spec.1 && Snapshot(ctx.objlist) == spec.0.caps)
      && (exc.Some? ==> Snapshot(ctx.objlist) == old(Snapshot(ctx.objlist)))
  {
    v', tmp, exc := v, [c], None;
    if v.dollar {
      if IsNameStart(c) {
        v' := v'.(name := v.name + tmp);
        tmp := "";
      } else if IsDigit(c) && v.name != "" {
        v' := v'.(name := v.name + tmp);
        tmp := "";
      } else if c == '(' && v.name == "" {
        v' := v'.(nparen := 1, evalstr := "", dollar := false);
        tmp := "";
      } else {
        v' := v'.(dollar := false);
        var text := SubstituteName(v.name, ctx);
        if text.Failure? {
          exc := Some(text.error);
        } else {
          v' := v'.(out := v'.out + text.value);
        }
      }
    }
  }

  /** The quote, parenthesis and `$` handling of the loop body. */
  method QuoteBlock(ctx: Context, v: Locals, tmp: string) returns (v': Locals, tmp': string)
    ensures (v', tmp') == QuotePhase(ctx, v, tmp)
  {
    v', tmp' := v, tmp;
    if tmp != "" {
      if tmp == "\"" && !v.squote {
        v' := v'.(dquote := !v.dquote);
      } else if tmp == "'" && !v.dquote {
        v' := v'.(squote := !v.squote);
      } else if !v.dquote && !v.squote {
        if v.nparen > 0 {
          if tmp == "(" {
            v' := v'.(nparen := v.nparen + 1);
          } else if tmp == ")" {
            v' := v'.(nparen := v.nparen - 1);
            if v'.nparen == 0 {
              v' := v'.(out := v.out + SubstituteExpr(ctx, v.evalstr));
              tmp' := "";
            }
          }
        } else if tmp == "$" && !v.backslash {
          v' := v'.(dollar := true, name := "");
          tmp' := "";
        }
      }
    }
  }

  /** `substitute`: the character loop of the source, over a record of its local variables. */
  method Substitute(s: string, ctx: Context) returns (r: Result<string, Exception>)
    modifies ListsOf(ctx.objlist)
    ensures var spec := Scan(ctx, s, old(Snapshot(ctx.objlist)));
      r == spec.result && Snapshot(ctx.objlist) == spec.caps
  {
    ghost var caps0 := Snapshot(ctx.objlist);
    var v := Initial;
    for i := 0 to |s|
      invariant Run(ctx, Start(caps0), s[..i]) == ScanState(v, Snapshot(ctx.objlist), None)
    {
      ghost var prev := ScanState(v, Snapshot(ctx.objlist), None);
      assert s[..i + 1] == s[..i] + [s[i]];
      RunSnoc(ctx, Start(caps0), s[..i], s[i]);
      var tmp, exc;
      v, tmp, exc := DollarBlock(ctx, v, s[i]);
      if exc.Some? {
        r := Failure(exc.value);
        RunAppend(ctx, Start(caps0), s[..i + 1], s[i + 1..]);
        assert s[..i + 1] + s[i + 1..] == s;
        RunFailed(ctx, Step(ctx, prev, s[i]), s[i + 1..]);
        return;
      }
      v, tmp := QuoteBlock(ctx, v, tmp);
      if tmp != "" {
        if v.nparen > 0 {
          v := v.(evalstr := v.evalstr + tmp);
        } else {
          v := v.(out := v.out + tmp);
        }
      }
      v := v.(backslash := tmp == "\\");
    }
    assert s[..|s|] == s;
    if v.dollar {
      var text := SubstituteName(v.name, ctx);
      if text.Failure? {
        r := text;
      } else {
        r := Success(v.out + text.value);
      }
    } else if v.nparen > 0 {
      r := Success(v.out + "$(" + v.evalstr);
    } else {
      r := Success(v.out);
    }
  }
}
