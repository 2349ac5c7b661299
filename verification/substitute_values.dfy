/**
 * Values that the substitution engine renders as TaQL literal text:
 * `substitutevar`, `substituteonevar` and `substitutestring`, together with the
 * parts of Python 2's `str()` and `repr()` that they fall back on.
 */
module SubstituteValues {
  import opened Results

  /** A Python value as the substitution engine sees it. */
  datatype Value =
    | VStr(s: string)                        // a `str`
    | VBool(b: bool)                         // `True` or `False`
    | VInt(i: int)                           // a plain `int`
    | VSeq(items: seq<Value>, tuple: bool)   // a `list`, or a `tuple` when `tuple` holds
    | VOther(str: string, repr: string)      // any other object, with its `str()` and `repr()` text

  // ---------------------------------------------------------------------------
  // Decimal numbers, as Python's str() writes an int

  predicate IsDigit(c: char) { '0' as int <= c as int <= '9' as int }

  function DigitChar(d: nat): (c: char)
    requires d < 10
    ensures IsDigit(c) && (c as int) - ('0' as int) == d
  {
    (('0' as int) + d) as char
  }

  /** The decimal text of `n`, without leading zeros. */
  function NatToString(n: nat): (r: string)
    ensures |r| >= 1 && forall k :: 0 <= k < |r| ==> IsDigit(r[k])
    ensures r[0] == '0' ==> n == 0
    decreases n
  {
    if n < 10 then [DigitChar(n)] else NatToString(n / 10) + [DigitChar(n % 10)]
  }

  /** The number a string of decimal digits denotes. */
  function DigitsValue(s: string): nat
    requires forall k :: 0 <= k < |s| ==> IsDigit(s[k])
  {
    if s == [] then 0
    else 10 * DigitsValue(s[..|s| - 1]) + DigitValue(s[|s| - 1])
  }

  function DigitValue(c: char): nat
    requires IsDigit(c)
  {
    (c as int) - ('0' as int)
  }

  /** Reading back the decimal text of a count gives the count. */
  lemma {:induction false} NatToStringRoundTrip(n: nat)
    ensures DigitsValue(NatToString(n)) == n
    decreases n
  {
    if n >= 10 {
      NatToStringRoundTrip(n / 10);
      var s := NatToString(n);
      assert s[..|s| - 1] == NatToString(n / 10);
    }
  }

  /** Python's `str()` of an int: a minus sign for negatives, then the digits. */
  function IntToString(i: int): string
  {
    if i < 0 then "-" + NatToString(-i) else NatToString(i)
  }

  // ---------------------------------------------------------------------------
  // Joining texts with a separator, left to right as the Python loops do

  function Join(parts: seq<string>, sep: string): string
  {
    if |parts| == 0 then ""
    else if |parts| == 1 then parts[0]
    else Join(parts[..|parts| - 1], sep) + sep + parts[|parts| - 1]
  }

  /** Cutting a text at every comma: the inverse of joining with ",". */
  function SplitCommas(t: string): (r: seq<string>)
    ensures |r| >= 1
  {
    if t == [] then [""]
    else
      var init := SplitCommas(t[..|t| - 1]);
      var c := t[|t| - 1];
      if c == ',' then init + [""]
      else init[..|init| - 1] + [init[|init| - 1] + [c]]
  }

  lemma {:induction false} SplitAppendPiece(a: string, b: string)
    requires ',' !in b
    ensures SplitCommas(a + "," + b) == SplitCommas(a) + [b]
    decreases |b|
  {
    if b == [] {
      assert (a + "," + b)[..|a + "," + b| - 1] == a;
    } else {
      var b' := b[..|b| - 1];
      SplitAppendPiece(a, b');
      assert (a + "," + b)[..|a + "," + b| - 1] == a + "," + b';
      assert b' + [b[|b| - 1]] == b;
    }
  }

  lemma {:induction false} SplitPiece(b: string)
    requires ',' !in b
    ensures SplitCommas(b) == [b]
    decreases |b|
  {
    if b != [] {
      SplitPiece(b[..|b| - 1]);
      assert b[..|b| - 1] + [b[|b| - 1]] == b;
    }
  }

  /**
   * Joining comma-free parts with "," and cutting at the commas gives the
   * parts back: every part is one element of the rendered list.
   */
  lemma {:induction false} SplitJoin(parts: seq<string>)
    requires |parts| >= 1
    requires forall k :: 0 <= k < |parts| ==> ',' !in parts[k]
    ensures SplitCommas(Join(parts, ",")) == parts
    decreases |parts|
  {
    if |parts| == 1 {
      SplitPiece(parts[0]);
    } else {
      var init := parts[..|parts| - 1];
      SplitJoin(init);
      SplitAppendPiece(Join(init, ","), parts[|parts| - 1]);
      assert init + [parts[|parts| - 1]] == parts;
    }
  }

  // ---------------------------------------------------------------------------
  // Python 2's repr() of a byte string and str()/repr() of other values

  /** Single quotes, unless the text holds a single quote and no double quote. */
  function ReprQuote(s: string): char
  {
    if '\'' in s && '"' !in s then '"' else '\''
  }

  function HexDigit(d: nat): char
    requires d < 16
  {
    "0123456789abcdef"[d]
  }

  /** One character of a string's repr(), given the enclosing quote `q`. */
  function ReprChar(c: char, q: char): string
  {
    if c == q || c == '\\' then ['\\', c]
    else if c == '\t' then "\\t"
    else if c == '\n' then "\\n"
    else if c == '\r' then "\\r"
    else if c < ' ' || c as int >= 0x7f then
      var b := (c as int) % 256;
      ['\\', 'x', HexDigit(b / 16), HexDigit(b % 16)]
    else [c]
  }

  function ReprBody(s: string, q: char): string
  {
    if s == [] then "" else ReprChar(s[0], q) + ReprBody(s[1..], q)
  }

  function StrRepr(s: string): string
  {
    var q := ReprQuote(s);
    [q] + ReprBody(s, q) + [q]
  }

  /** The text of a list (`[a, b]`) or tuple (`(a, b)`, `(a,)`) from its elements' texts. */
  function SeqText(parts: seq<string>, tuple: bool): string
  {
    if tuple then "(" + Join(parts, ", ") + (if |parts| == 1 then "," else "") + ")"
    else "[" + Join(parts, ", ") + "]"
  }

  /** Python's `repr()`. */
  function PyRepr(v: Value): string
    decreases v
  {
    match v
    case VStr(s) => StrRepr(s)
    case VBool(b) => if b then "True" else "False"
    case VInt(i) => IntToString(i)
    case VSeq(items, tuple) =>
      SeqText(seq(|items|, k requires 0 <= k < |items| => PyRepr(items[k])), tuple)
    case VOther(_, r) => r
  }

  /** Python's `str()`: the text itself for a string, repr() for containers. */
  function PyStr(v: Value): string
  {
    match v
    case VStr(s) => s
    case VOther(s, _) => s
    case _ => PyRepr(v)
  }

  // ---------------------------------------------------------------------------
  // The TaQL renderings

  /** One character of a TaQL string body: a double quote becomes `"'"'"`. */
  function EscapeChar(c: char): string
  {
    if c == '"' then "\"'\"'\"" else [c]
  }

  function EscapeQuotes(s: string): string
  {
    if s == [] then "" else EscapeChar(s[0]) + EscapeQuotes(s[1..])
  }

  lemma {:induction false} EscapeQuotesAppend(a: string, c: char)
    ensures EscapeQuotes(a + [c]) == EscapeQuotes(a) + EscapeChar(c)
    decreases |a|
  {
    if a != [] {
      assert (a + [c])[1..] == a[1..] + [c];
      EscapeQuotesAppend(a[1..], c);
    } else {
      assert [c][1..] == [];
    }
  }

  /** The TaQL string constant for `s` (specification of `substitutestring`). */
  function QuoteString(s: string): string
  {
    "\"" + EscapeQuotes(s) + "\""
  }

  /** `substitutestring`: built character by character, as the source does. */
  method SubstituteString(value: string) returns (out: string)
    ensures out == QuoteString(value)
  {
    out := "\"";
    for i := 0 to |value|
      invariant out == "\"" + EscapeQuotes(value[..i])
    {
      var tmp := value[i];
      if tmp == '"' {
        out := out + "\"" + "'" + "\"" + "'" + "\"";
      } else {
        out := out + [tmp];
      }
      EscapeQuotesAppend(value[..i], tmp);
      assert value[..i + 1] == value[..i] + [tmp];
    }
    assert value[..|value|] == value;
    out := out + "\"";
  }

  /** Specification of `substituteonevar`: strings quoted, booleans `T`/`F`, all else `str()`. */
  function FormatOne(v: Value): string
  {
    match v
    case VStr(s) => QuoteString(s)
    case VBool(b) => if b then "T" else "F"
    case _ => PyStr(v)
  }

  function FormatItems(items: seq<Value>): (r: seq<string>)
    ensures |r| == |items|
    ensures forall k :: 0 <= k < |items| ==> r[k] == FormatOne(items[k])
  {
    seq(|items|, k requires 0 <= k < |items| => FormatOne(items[k]))
  }

  /**
   * Specification of `substitutevar`: a list or tuple becomes its elements,
   * each rendered by `FormatOne` (one level only), between brackets and
   * separated by commas; any other value is rendered by `FormatOne`.
   */
  function FormatValue(v: Value): string
  {
    match v
    case VSeq(items, _) => "[" + Join(FormatItems(items), ",") + "]"
    case _ => FormatOne(v)
  }

  /** Joining one more part: the part alone, or after the joined prefix and a separator. */
  lemma JoinPrefix(parts: seq<string>, i: nat, sep: string)
    requires i < |parts|
    ensures Join(parts[..i + 1], sep) == if i == 0 then parts[0] else Join(parts[..i], sep) + sep + parts[i]
  {
    assert parts[..i + 1][..i] == parts[..i];
  }

  /** `substitutevar`: the element loop with its `first` flag. */
  method SubstituteVar(v: Value) returns (out: string)
    ensures out == FormatValue(v)
  {
    out := "";
    if v.VSeq? {
      out := "[";
      var first := true;
      ghost var parts := FormatItems(v.items);
      for i := 0 to |v.items|
        invariant first <==> i == 0
        invariant out == "[" + Join(parts[..i], ",")
      {
        if first {
          first := false;
        } else {
          out := out + ",";
        }
        JoinPrefix(parts, i, ",");
        out := out + FormatOne(v.items[i]);
      }
      assert parts[..|v.items|] == parts;
      out := out + "]";
    } else {
      out := FormatOne(v);
    }
  }

  // ---------------------------------------------------------------------------
  // Reading a TaQL string constant back

  /** Where a reader of TaQL string pieces is: between pieces, or inside one opened by `q`. */
  datatype Quoting = Between | Inside(q: char)

  /**
   * The text denoted by a run of adjacent TaQL string pieces, each enclosed in
   * double or single quotes (`"ab"'"'"cd"` denotes `ab"cd`); None when the
   * run is malformed.
   */
  function ReadPieces(t: string, at: Quoting): Option<string>
  {
    if t == [] then (if at == Between then Some("") else None)
    else match at
      case Between =>
        if t[0] == '"' || t[0] == '\'' then ReadPieces(t[1..], Inside(t[0])) else None
      case Inside(q) =>
        if t[0] == q then ReadPieces(t[1..], Between)
        else match ReadPieces(t[1..], at)
          case None => None
          case Some(rest) => Some([t[0]] + rest)
  }

  /** The five characters an embedded double quote becomes are read back as that one quote. */
  lemma ReadEscapedQuote(u: string)
    ensures ReadPieces(EscapeChar('"') + u, Inside('"')) ==
            match ReadPieces(u, Inside('"'))
            case None => None
            case Some(x) => Some("\"" + x)
  {
    var t := EscapeChar('"') + u;
    assert t[1..] == "'\"'\"" + u;
    assert t[2..] == "\"'\"" + u;
    assert t[3..] == "'\"" + u;
    assert t[4..] == "\"" + u;
    assert t[5..] == u;
    assert ReadPieces(t[4..], Between) == ReadPieces(u, Inside('"'));
    assert ReadPieces(t[3..], Inside('\'')) == ReadPieces(t[4..], Between);
    assert ReadPieces(t[1..], Between) == ReadPieces(t[2..], Inside('\''));
    assert ReadPieces(t, Inside('"')) == ReadPieces(t[1..], Between);
  }

  lemma {:induction false} ReadEscaped(s: string, rest: string)
    ensures ReadPieces(EscapeQuotes(s) + rest, Inside('"')) ==
            match ReadPieces(rest, Inside('"'))
            case None => None
            case Some(r) => Some(s + r)
    decreases |s|
  {
    if s != [] {
      ReadEscaped(s[1..], rest);
      var u := EscapeQuotes(s[1..]) + rest;
      var t := EscapeQuotes(s) + rest;
      assert t == EscapeChar(s[0]) + u;
      assert s == [s[0]] + s[1..];
      if s[0] == '"' {
        ReadEscapedQuote(u);
        match ReadPieces(rest, Inside('"')) {
          case None =>
          case Some(r) =>
            assert s + r == "\"" + (s[1..] + r);
        }
      } else {
        assert t[0] == s[0];
        assert t[1..] == u;
        match ReadPieces(rest, Inside('"')) {
          case None =>
          case Some(r) => assert s + r == [s[0]] + (s[1..] + r);
        }
      }
    } else {
      assert EscapeQuotes(s) + rest == rest;
      match ReadPieces(rest, Inside('"')) {
        case None =>
        case Some(r) => assert s + r == r;
      }
    }
  }

  /**
   * The TaQL reader gets back exactly the string `substitutestring` rendered,
   * double quotes included: the quoting is lossless.
   */
  lemma QuoteStringRoundTrip(s: string)
    ensures ReadPieces(QuoteString(s), Between) == Some(s)
  {
    var t := QuoteString(s);
    assert t[1..] == EscapeQuotes(s) + "\"";
    ReadEscaped(s, "\"");
    assert ReadPieces("\"", Inside('"')) == ReadPieces("", Between) == Some("");
    assert s + "" == s;
  }

  lemma {:induction false} EscapeQuotesPlain(s: string)
    requires '"' !in s
    ensures EscapeQuotes(s) == s
    decreases |s|
  {
    if s != [] {
      EscapeQuotesPlain(s[1..]);
      assert s == [s[0]] + s[1..];
    }
  }

  /** A string without double quotes is only enclosed in double quotes. */
  lemma QuoteStringPlain(s: string)
    requires '"' !in s
    ensures QuoteString(s) == "\"" + s + "\""
  {
    EscapeQuotesPlain(s);
  }

  /** The source's own example: `ab"cd` becomes `"ab"'"'"cd"`. */
  lemma QuoteStringExample()
    ensures QuoteString("ab\"cd") == "\"ab\"'\"'\"cd\""
  {
    assert "ab\"cd"[1..] == "b\"cd";
    assert "b\"cd"[1..] == "\"cd";
    assert "\"cd"[1..] == "cd";
    assert "cd"[1..] == "d";
  }

  /**
   * A non-empty list whose rendered elements hold no comma renders as those
   * elements, in order, separated by single commas between brackets.
   */
  lemma ListElementsRecoverable(items: seq<Value>, tuple: bool)
    requires |items| >= 1
    requires forall k :: 0 <= k < |items| ==> ',' !in FormatOne(items[k])
    ensures var r := FormatValue(VSeq(items, tuple));
      r[0] == '[' && r[|r| - 1] == ']' && SplitCommas(r[1..|r| - 1]) == FormatItems(items)
  {
    var r := FormatValue(VSeq(items, tuple));
    var inner := Join(FormatItems(items), ",");
    assert r[1..|r| - 1] == inner;
    SplitJoin(FormatItems(items));
  }

  /**
   * The text `substituteonevar` makes of a string or an int reads back as
   * that value: a string from its TaQL constant, an int from its decimal
   * digits after a `-` when it is negative.
   */
  lemma ScalarTextReadsBack(v: Value)
    ensures v.VStr? ==> ReadPieces(FormatOne(v), Between) == Some(v.s)
    ensures v.VInt? && v.i >= 0 ==> FormatOne(v) == NatToString(v.i) && DigitsValue(FormatOne(v)) == v.i
    ensures v.VInt? && v.i < 0 ==> FormatOne(v) == "-" + NatToString(-v.i) && DigitsValue(FormatOne(v)[1..]) == -v.i
  {
    match v
    case VStr(s) => QuoteStringRoundTrip(s);
    case VInt(i) =>
      if i >= 0 {
        NatToStringRoundTrip(i);
      } else {
        NatToStringRoundTrip(-i);
        assert FormatOne(v)[1..] == NatToString(-i);
      }
    case _ =>
  }

  /** An empty list or tuple renders as `[]`, with nothing between the brackets. */
  lemma EmptySequenceText(tuple: bool)
    ensures FormatValue(VSeq([], tuple)) == "[]"
  {
    assert FormatItems([]) == [];
  }

  /** Any other object, also as a list element, is rendered by its `str()`, not its `repr()`. */
  lemma OtherObjectsUseStr(str: string, repr: string)
    ensures FormatValue(VOther(str, repr)) == str
    ensures FormatValue(VSeq([VOther(str, repr)], false)) == "[" + str + "]"
  {
    assert FormatItems([VOther(str, repr)]) == [str];
  }

  /** Booleans render as the TaQL tokens `T` and `F`, inside a list too. */
  lemma BooleanTokens(b: bool)
    ensures FormatValue(VBool(b)) == (if b then "T" else "F")
    ensures FormatValue(VSeq([VBool(b)], false)) == (if b then "[T]" else "[F]")
  {
  }

  /** A flat list of integers renders with bare commas. */
  lemma FlatListExample()
    ensures FormatValue(VSeq([VInt(1), VInt(2), VInt(3)], false)) == "[1,2,3]"
  {
    assert FormatItems([VInt(1), VInt(2), VInt(3)]) == ["1", "2", "3"];
    assert ["1", "2", "3"][..2] == ["1", "2"] && ["1", "2"][..1] == ["1"];
    assert Join(["1", "2", "3"], ",") == "1,2,3";
  }

  /**
   * Formatting is one level deep: an inner list is rendered by Python's str(),
   * with ", " separators.
   */
  lemma NestedListFallsToStr()
    ensures FormatValue(VSeq([VSeq([VInt(1), VInt(2)], false)], false)) == "[[1, 2]]"
  {
    assert ["1", "2"][..1] == ["1"];
    assert Join(["1", "2"], ", ") == "1, 2";
    var inner := VSeq([VInt(1), VInt(2)], false);
    assert PyRepr(VInt(1)) == "1" && PyRepr(VInt(2)) == "2";
    assert PyRepr(inner) == "[1, 2]" by {
      assert seq(2, k requires 0 <= k < 2 => PyRepr([VInt(1), VInt(2)][k])) == ["1", "2"];
    }
  }

  /** The strings of an inner tuple are rendered by repr(), not as TaQL strings. */
  lemma NestedTupleFallsToRepr()
    ensures FormatValue(VSeq([VSeq([VStr("a")], true)], false)) == "[('a',)]"
  {
    var tup := VSeq([VStr("a")], true);
    assert PyRepr(tup) == "('a',)" by {
      assert StrRepr("a") == "'a'";
      assert seq(1, k requires 0 <= k < 1 => PyRepr([VStr("a")][k])) == ["'a'"];
    }
  }
}
