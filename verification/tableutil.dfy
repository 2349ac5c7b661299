/**
 * The table-description builders of `pyrap.tables.tableutil`: column
 * descriptions, the table description that maps column names to them, and
 * the hypercolumn definitions added to a table description in place.
 *
 * Descriptions are Python dicts; Python values are modelled by `PyValue`,
 * with dicts keyed by strings.
 */
module TableUtil {
  import opened Results

  /** The Python values the builders take, test and store. `PyOther` is a value of any other, non-iterable type. */
  datatype PyValue =
    | PyNone
    | PyBool(b: bool)
    | PyInt(i: int)
    | PyLong(l: int)
    | PyFloat(x: real)
    | PyComplex(re: real, im: real)
    | PyStr(s: string)
    | PyList(items: seq<PyValue>)
    | PyTuple(elems: seq<PyValue>)
    | PyDict(entries: map<string, PyValue>)
    | PyOther

  /** The exceptions the builders raise. */
  datatype Error = TypeError | KeyError(key: string) | ValueError(msg: string)

  /** The Python types `value_type_name` tests for. */
  datatype PyType = BoolType | IntType | LongType | FloatType | ComplexType | StrType | DictType

  /** `isinstance(v, t)`; `bool` is a subclass of `int`, so a bool is an instance of both. */
  predicate IsInstance(v: PyValue, t: PyType)
  {
    match t
    case BoolType => v.PyBool?
    case IntType => v.PyInt? || v.PyBool?
    case LongType => v.PyLong?
    case FloatType => v.PyFloat?
    case ComplexType => v.PyComplex?
    case StrType => v.PyStr?
    case DictType => v.PyDict?
  }

  // ---------------------------------------------------------------------------
  // value_type_name

  /**
   * `value_type_name(value)`: the table system's name of the value's type.
   * A bool is tested before an int, so it is a `boolean` although it is an
   * instance of `int` too.
   */
  function ValueTypeName(value: PyValue): (r: string)
    ensures r == "boolean" <==> IsInstance(value, BoolType)
    ensures r == "integer" <==> (IsInstance(value, IntType) || IsInstance(value, LongType)) && !IsInstance(value, BoolType)
    ensures r == "double" <==> IsInstance(value, FloatType)
    ensures r == "dcomplex" <==> IsInstance(value, ComplexType)
    ensures r == "string" <==> IsInstance(value, StrType)
    ensures r == "record" <==> IsInstance(value, DictType)
    ensures r == "unknown" <==> forall t: PyType :: !IsInstance(value, t)
  {
    if IsInstance(value, BoolType) then "boolean"
    else if IsInstance(value, IntType) then "integer"
    else if IsInstance(value, LongType) then "integer"
    else if IsInstance(value, FloatType) then "double"
    else if IsInstance(value, ComplexType) then "dcomplex"
    else if IsInstance(value, StrType) then "string"
    else if IsInstance(value, DictType) then "record"
    else
      NoInstance(value);
      "unknown"
  }

  /** A value that is none of the tested types is an instance of no `PyType`. */
  lemma NoInstance(v: PyValue)
    requires !v.PyBool? && !v.PyInt? && !v.PyLong? && !v.PyFloat? && !v.PyComplex? && !v.PyStr? && !v.PyDict?
    ensures forall t: PyType :: !IsInstance(v, t)
  {
    forall t: PyType
      ensures !IsInstance(v, t)
    {
      match t
      case BoolType =>
      case IntType =>
      case LongType =>
      case FloatType =>
      case ComplexType =>
      case StrType =>
      case DictType =>
    }
  }

  // ---------------------------------------------------------------------------
  // Column descriptions

  /** The column type stored in a description: the given one, or else the name of the example value's type. */
  function ColumnType(value: PyValue, valuetype: PyValue): PyValue
  {
    if valuetype == PyStr("") then PyStr(ValueTypeName(value)) else valuetype
  }

  /** A column description: a dict with the column's `name` and its `desc`. */
  predicate IsColumnDesc(d: PyValue)
  {
    d.PyDict? && "name" in d.entries && "desc" in d.entries
  }

  /** `makecoldesc(columnname, desc)`: a column description around a given `desc`. */
  function MakeColDesc(columnname: PyValue, desc: PyValue): (r: PyValue)
    ensures IsColumnDesc(r) && r.entries.Keys == {"name", "desc"}
    ensures r.entries["name"] == columnname && r.entries["desc"] == desc
  {
    PyDict(map["name" := columnname, "desc" := desc])
  }

  /**
   * `makescacoldesc(...)`: the description of a scalar column; the example
   * value only decides the column type when no `valuetype` is given.
   */
  function MakeScaColDesc(columnname: PyValue, value: PyValue,
                          datamanagertype: PyValue := PyStr(""), datamanagergroup: PyValue := PyStr(""),
                          options: PyValue := PyInt(0), maxlen: PyValue := PyInt(0), comment: PyValue := PyStr(""),
                          valuetype: PyValue := PyStr("")): (r: PyValue)
    ensures IsColumnDesc(r) && r.entries["name"] == columnname
    ensures var desc := r.entries["desc"];
      && desc.PyDict?
      && desc.entries.Keys == {"valueType", "dataManagerType", "dataManagerGroup", "option", "maxlen", "comment"}
      && desc.entries["valueType"] == (if valuetype == PyStr("") then PyStr(ValueTypeName(value)) else valuetype)
      && desc.entries["dataManagerType"] == datamanagertype
      && desc.entries["dataManagerGroup"] == datamanagergroup
      && desc.entries["option"] == options
      && desc.entries["maxlen"] == maxlen
      && desc.entries["comment"] == comment
  {
    var desc := map[
      "valueType" := ColumnType(value, valuetype),
      "dataManagerType" := datamanagertype,
      "dataManagerGroup" := datamanagergroup,
      "option" := options,
      "maxlen" := maxlen,
      "comment" := comment];
    MakeColDesc(columnname, PyDict(desc))
  }

  /** `len(v)`, for the values that have a length. */
  function Len(v: PyValue): Option<nat>
  {
    match v
    case PyStr(s) => Some(|s|)
    case PyList(items) => Some(|items|)
    case PyTuple(elems) => Some(|elems|)
    case PyDict(entries) => Some(|entries.Keys|)
    case _ => None
  }

  /**
   * `makearrcoldesc(...)`: the description of an array column. A non-empty
   * shape sets the dimensionality when none is given; the arrays are in C
   * order. A shape without a length raises a `TypeError`.
   */
  function MakeArrColDesc(columnname: PyValue, value: PyValue, ndim: int := 0,
                          shape: PyValue := PyList([]), datamanagertype: PyValue := PyStr(""),
                          datamanagergroup: PyValue := PyStr(""),
                          options: PyValue := PyInt(0), maxlen: PyValue := PyInt(0), comment: PyValue := PyStr(""),
                          valuetype: PyValue := PyStr("")): (r: Result<PyValue, Error>)
    ensures r.Failure? <==> Len(shape).None?
    ensures r.Failure? ==> r.error == TypeError
    ensures r.Success? ==> IsColumnDesc(r.value) && r.value.entries["name"] == columnname
    ensures r.Success? ==> var desc := r.value.entries["desc"];
      && desc.PyDict?
      && desc.entries.Keys ==
           {"valueType", "dataManagerType", "dataManagerGroup", "ndim", "shape", "_c_order", "option", "maxlen", "comment"}
      && desc.entries["valueType"] == (if valuetype == PyStr("") then PyStr(ValueTypeName(value)) else valuetype)
      && desc.entries["ndim"] == PyInt(if Len(shape).value > 0 && ndim <= 0 then Len(shape).value else ndim)
      && desc.entries["shape"] == shape
      && desc.entries["_c_order"] == PyBool(true)
      && desc.entries["dataManagerType"] == datamanagertype
      && desc.entries["dataManagerGroup"] == datamanagergroup
      && desc.entries["option"] == options
      && desc.entries["maxlen"] == maxlen
      && desc.entries["comment"] == comment
  {
    match Len(shape)
    case None => Failure(TypeError)
    case Some(n) =>
      var dims := if n > 0 && ndim <= 0 then n else ndim;
      var desc := map[
        "valueType" := ColumnType(value, valuetype),
        "dataManagerType" := datamanagertype,
        "dataManagerGroup" := datamanagergroup,
        "ndim" := PyInt(dims),
        "shape" := shape,
        "_c_order" := PyBool(true),
        "option" := options,
        "maxlen" := maxlen,
        "comment" := comment];
      Success(MakeColDesc(columnname, PyDict(desc)))
  }

  // ---------------------------------------------------------------------------
  // maketabdesc

  /** The column descriptions `maketabdesc` iterates over: a single dict is a list of one. */
  function Elements(descs: PyValue): (r: Result<seq<PyValue>, Error>)
  {
    match descs
    case PyDict(_) => Success([descs])
    case PyList(items) => Success(items)
    case PyTuple(elems) => Success(elems)
    case PyStr(s) => Success(seq(|s|, i requires 0 <= i < |s| => PyStr([s[i]])))
    case _ => Failure(TypeError)
  }

  /** The message of the error on a repeated column name. */
  function DuplicateMessage(colname: string): string
  {
    "Column name " + colname + " multiply used in table description"
  }

  /**
   * One step of `maketabdesc`: adds a description's `desc` under its name,
   * unless it is not a dict, lacks a key, or repeats a name.
   */
  function Insert(rec: map<string, PyValue>, desc: PyValue): Result<map<string, PyValue>, Error>
  {
    if !desc.PyDict? then Failure(TypeError)
    else if "name" !in desc.entries then Failure(KeyError("name"))
    else if !desc.entries["name"].PyStr? then Failure(TypeError)
    else
      var colname := desc.entries["name"].s;
      if colname in rec then Failure(ValueError(DuplicateMessage(colname)))
      else if "desc" !in desc.entries then Failure(KeyError("desc"))
      else Success(rec[colname := desc.entries["desc"]])
  }

  /** The steps of `maketabdesc` over `ds` in order; the first error ends them. */
  function InsertAll(ds: seq<PyValue>): Result<map<string, PyValue>, Error>
  {
    if ds == [] then Success(map[])
    else
      match InsertAll(ds[..|ds| - 1])
      case Failure(e) => Failure(e)
      case Success(rec) => Insert(rec, ds[|ds| - 1])
  }

  /** `maketabdesc(descs)` as a value. */
  function TabDesc(descs: PyValue): Result<map<string, PyValue>, Error>
  {
    match Elements(descs)
    case Failure(e) => Failure(e)
    case Success(ds) => InsertAll(ds)
  }

  /** `maketabdesc(descs)`: maps each column's name to its description, rejecting a repeated name. */
  method MakeTabDesc(descs: PyValue := PyList([])) returns (r: Result<map<string, PyValue>, Error>)
    ensures r == TabDesc(descs)
  {
    var elements := Elements(descs);
    if elements.Failure? {
      return Failure(elements.error);
    }
    var ds := elements.value;
    var rec: map<string, PyValue> := map[];
    for i := 0 to |ds|
      invariant InsertAll(ds[..i]) == Success(rec)
    {
      assert ds[..i + 1][..i] == ds[..i];
      var desc := ds[i];
      if !desc.PyDict? || "name" !in desc.entries || !desc.entries["name"].PyStr? {
        InsertAllFailurePrefix(ds, i + 1);
        return if desc.PyDict? && "name" !in desc.entries then Failure(KeyError("name")) else Failure(TypeError);
      }
      var colname := desc.entries["name"].s;
      if colname in rec {
        InsertAllFailurePrefix(ds, i + 1);
        return Failure(ValueError(DuplicateMessage(colname)));
      }
      if "desc" !in desc.entries {
        InsertAllFailurePrefix(ds, i + 1);
        return Failure(KeyError("desc"));
      }
      rec := rec[colname := desc.entries["desc"]];
    }
    assert ds[..|ds|] == ds;
    return Success(rec);
  }

  // ---------------------------------------------------------------------------
  // Properties of maketabdesc

  /** Once the steps over a prefix fail, the whole table description fails the same way. */
  lemma {:induction false} InsertAllFailurePrefix(ds: seq<PyValue>, n: nat)
    requires n <= |ds| && InsertAll(ds[..n]).Failure?
    ensures InsertAll(ds) == InsertAll(ds[..n])
  {
    if n < |ds| {
      var m := |ds| - 1;
      assert ds[..m][..n] == ds[..n];
      InsertAllFailurePrefix(ds[..m], n);
    } else {
      assert ds[..n] == ds;
    }
  }

  /** A column description whose name is a string. */
  predicate IsNamedDesc(d: PyValue)
  {
    IsColumnDesc(d) && d.entries["name"].PyStr?
  }

  /** The column name of a named description. */
  function NameOf(d: PyValue): string
    requires IsNamedDesc(d)
  {
    d.entries["name"].s
  }

  /** No two of the descriptions have the same name. */
  predicate DistinctNames(ds: seq<PyValue>)
    requires forall k :: 0 <= k < |ds| ==> IsNamedDesc(ds[k])
  {
    forall j, k :: 0 <= j < k < |ds| ==> NameOf(ds[j]) != NameOf(ds[k])
  }

  /** A table description over named descriptions that succeeds has their distinct names as keys, each with its `desc`. */
  lemma {:induction false} InsertAllSuccess(ds: seq<PyValue>)
    requires forall k :: 0 <= k < |ds| ==> IsNamedDesc(ds[k])
    requires InsertAll(ds).Success?
    ensures DistinctNames(ds)
    ensures InsertAll(ds).value.Keys == (set k | 0 <= k < |ds| :: NameOf(ds[k]))
  {
    if ds != [] {
      var m := |ds| - 1;
      var pre := ds[..m];
      assert forall k :: 0 <= k < m ==> pre[k] == ds[k];
      InsertAllSuccess(pre);
      var rec := InsertAll(pre).value;
      var last := NameOf(ds[m]);
      assert last !in rec;
      forall j | 0 <= j < m
        ensures NameOf(ds[j]) != last
      {
        assert NameOf(pre[j]) in rec;
      }
      NameSetSnoc(ds);
    }
  }

  /** A table description over named descriptions that succeeds maps each name to its column's `desc`. */
  lemma {:induction false} InsertAllValues(ds: seq<PyValue>)
    requires forall k :: 0 <= k < |ds| ==> IsNamedDesc(ds[k])
    requires InsertAll(ds).Success?
    ensures forall k :: 0 <= k < |ds| ==>
      NameOf(ds[k]) in InsertAll(ds).value && InsertAll(ds).value[NameOf(ds[k])] == ds[k].entries["desc"]
  {
    if ds != [] {
      var m := |ds| - 1;
      var pre := ds[..m];
      InsertAllValues(pre);
      var rec := InsertAll(pre).value;
      forall k | 0 <= k < m
        ensures NameOf(ds[k]) != NameOf(ds[m])
      {
        assert pre[k] == ds[k];
        assert NameOf(pre[k]) in rec;
      }
    }
  }

  /** The names of a sequence of named descriptions are those of all but the last, plus the last. */
  lemma NameSetSnoc(ds: seq<PyValue>)
    requires forall k :: 0 <= k < |ds| ==> IsNamedDesc(ds[k])
    requires ds != []
    ensures var m := |ds| - 1;
      (set k | 0 <= k < |ds| :: NameOf(ds[k])) == (set k | 0 <= k < m :: NameOf(ds[..m][k])) + {NameOf(ds[m])}
  {
    var m := |ds| - 1;
    var pre := ds[..m];
    var keys := set k | 0 <= k < |ds| :: NameOf(ds[k]);
    var preKeys := set k | 0 <= k < m :: NameOf(pre[k]);
    forall x | x in keys
      ensures x in preKeys + {NameOf(ds[m])}
    {
      var k :| 0 <= k < |ds| && NameOf(ds[k]) == x;
      if k < m {
        assert NameOf(pre[k]) == x;
      }
    }
    forall x | x in preKeys
      ensures x in keys
    {
      var k :| 0 <= k < m && NameOf(pre[k]) == x;
      assert NameOf(ds[k]) == x;
    }
  }

  /** Named descriptions with distinct names always make a table description. */
  lemma {:induction false} InsertAllDistinct(ds: seq<PyValue>)
    requires forall k :: 0 <= k < |ds| ==> IsNamedDesc(ds[k])
    requires DistinctNames(ds)
    ensures InsertAll(ds).Success?
  {
    if ds != [] {
      var m := |ds| - 1;
      var pre := ds[..m];
      assert forall k :: 0 <= k < m ==> pre[k] == ds[k];
      InsertAllDistinct(pre);
      InsertAllSuccess(pre);
      var rec := InsertAll(pre).value;
      assert NameOf(ds[m]) !in rec;
    }
  }

  /** Over named descriptions, the only error is the `ValueError` of a repeated name. */
  lemma {:induction false} InsertAllError(ds: seq<PyValue>)
    requires forall k :: 0 <= k < |ds| ==> IsNamedDesc(ds[k])
    requires InsertAll(ds).Failure?
    ensures exists k :: 0 <= k < |ds| && InsertAll(ds).error == ValueError(DuplicateMessage(NameOf(ds[k])))
  {
    var m := |ds| - 1;
    var pre := ds[..m];
    assert forall k :: 0 <= k < m ==> pre[k] == ds[k];
    if InsertAll(pre).Failure? {
      InsertAllError(pre);
      var k :| 0 <= k < m && InsertAll(pre).error == ValueError(DuplicateMessage(NameOf(pre[k])));
      assert InsertAll(ds).error == ValueError(DuplicateMessage(NameOf(ds[k])));
    } else {
      assert InsertAll(ds).error == ValueError(DuplicateMessage(NameOf(ds[m])));
    }
  }

  /**
   * Over named descriptions, the table description succeeds exactly when the
   * names are distinct, and then maps each name to that column's `desc`;
   * otherwise it raises the `ValueError` of a repeated name.
   */
  lemma InsertAllNamed(ds: seq<PyValue>)
    requires forall k :: 0 <= k < |ds| ==> IsNamedDesc(ds[k])
    ensures InsertAll(ds).Success? <==> DistinctNames(ds)
    ensures InsertAll(ds).Failure? ==> exists k :: 0 <= k < |ds| && InsertAll(ds).error == ValueError(DuplicateMessage(NameOf(ds[k])))
    ensures InsertAll(ds).Success? ==>
      && InsertAll(ds).value.Keys == (set k | 0 <= k < |ds| :: NameOf(ds[k]))
      && forall k :: 0 <= k < |ds| ==> InsertAll(ds).value[NameOf(ds[k])] == ds[k].entries["desc"]
  {
    if InsertAll(ds).Success? {
      InsertAllSuccess(ds);
      InsertAllValues(ds);
    } else {
      InsertAllError(ds);
      if DistinctNames(ds) {
        InsertAllDistinct(ds);
      }
    }
  }

  /**
   * A table description built from `makecoldesc` descriptions with distinct
   * string names maps each name to its `desc`.
   */
  lemma TabDescOfColumns(names: seq<string>, descs: seq<PyValue>)
    requires |names| == |descs|
    requires forall j, k :: 0 <= j < k < |names| ==> names[j] != names[k]
    ensures var r := TabDesc(PyList(seq(|names|, k requires 0 <= k < |names| => MakeColDesc(PyStr(names[k]), descs[k]))));
      && r.Success?
      && r.value.Keys == (set k | 0 <= k < |names| :: names[k])
      && forall k :: 0 <= k < |names| ==> r.value[names[k]] == descs[k]
  {
    var ds := seq(|names|, k requires 0 <= k < |names| => MakeColDesc(PyStr(names[k]), descs[k]));
    assert forall k :: 0 <= k < |ds| ==> IsNamedDesc(ds[k]) && NameOf(ds[k]) == names[k];
    InsertAllNamed(ds);
    assert (set k | 0 <= k < |ds| :: NameOf(ds[k])) == (set k | 0 <= k < |names| :: names[k]);
  }

  /** A column name used twice makes the table description raise the repeated-name `ValueError`. */
  lemma TabDescRepeatedName(ds: seq<PyValue>, j: nat, k: nat)
    requires forall i :: 0 <= i < |ds| ==> IsNamedDesc(ds[i])
    requires j < k < |ds| && NameOf(ds[j]) == NameOf(ds[k])
    ensures TabDesc(PyList(ds)).Failure? && TabDesc(PyList(ds)).error.ValueError?
  {
    InsertAllNamed(ds);
  }

  /** A single dict gives the same table description as a list holding it. */
  lemma SingleDescIsList(d: PyValue)
    requires d.PyDict?
    ensures TabDesc(d) == TabDesc(PyList([d]))
  {
  }

  /** A description with a string name and a `desc` alone is its own column: the round trip through `maketabdesc`. */
  lemma SingleColumn(d: PyValue)
    requires IsNamedDesc(d)
    ensures TabDesc(d) == Success(map[NameOf(d) := d.entries["desc"]])
  {
    assert Elements(d) == Success([d]);
    assert [d][..0] == [];
    assert InsertAll([d]) == Insert(map[], d);
  }

  // ---------------------------------------------------------------------------
  // tabledefinehypercolumn

  /** The key under which a table description keeps its hypercolumn definitions. */
  const HypercolumnKey := "_define_hypercolumn_"

  /**
   * The definition record of a hypercolumn; coordinate and id columns are
   * recorded only when given as something other than a bool.
   */
  function HypercolumnRecord(ndim: PyValue, datacolumns: PyValue, coordcolumns: PyValue, idcolumns: PyValue): (r: map<string, PyValue>)
    ensures "HCndim" in r && r["HCndim"] == ndim
    ensures "HCdatanames" in r && r["HCdatanames"] == datacolumns
    ensures "HCcoordnames" in r <==> !coordcolumns.PyBool?
    ensures "HCcoordnames" in r ==> r["HCcoordnames"] == coordcolumns
    ensures "HCidnames" in r <==> !idcolumns.PyBool?
    ensures "HCidnames" in r ==> r["HCidnames"] == idcolumns
    ensures r.Keys <= {"HCndim", "HCdatanames", "HCcoordnames", "HCidnames"}
  {
    var rec := map["HCndim" := ndim, "HCdatanames" := datacolumns];
    var rec := if !coordcolumns.PyBool? then rec["HCcoordnames" := coordcolumns] else rec;
    if !idcolumns.PyBool? then rec["HCidnames" := idcolumns] else rec
  }

  /**
   * The table description after defining hypercolumn `name` as `rec`: the
   * hypercolumn dict is created when absent; an entry under that key that is
   * not a dict does not take item assignment.
   */
  function WithHypercolumn(tabdesc: map<string, PyValue>, name: string, rec: map<string, PyValue>): (r: Result<map<string, PyValue>, Error>)
    ensures r.Failure? <==> HypercolumnKey in tabdesc && !tabdesc[HypercolumnKey].PyDict?
    ensures r.Failure? ==> r.error == TypeError
    ensures r.Success? ==>
      && r.value.Keys == tabdesc.Keys + {HypercolumnKey}
      && (forall k :: k in tabdesc && k != HypercolumnKey ==> r.value[k] == tabdesc[k])
      && r.value[HypercolumnKey].PyDict?
      && r.value[HypercolumnKey].entries.Keys == Hypercolumns(tabdesc).Keys + {name}
      && r.value[HypercolumnKey].entries[name] == PyDict(rec)
      && (forall h :: h in Hypercolumns(tabdesc) && h != name ==>
            r.value[HypercolumnKey].entries[h] == Hypercolumns(tabdesc)[h])
  {
    var tabdesc := if HypercolumnKey !in tabdesc then tabdesc[HypercolumnKey := PyDict(map[])] else tabdesc;
    var hc := tabdesc[HypercolumnKey];
    if !hc.PyDict? then Failure(TypeError)
    else Success(tabdesc[HypercolumnKey := PyDict(hc.entries[name := PyDict(rec)])])
  }

  /** The hypercolumn definitions of a table description; none when the key is absent. */
  function Hypercolumns(tabdesc: map<string, PyValue>): map<string, PyValue>
  {
    if HypercolumnKey in tabdesc && tabdesc[HypercolumnKey].PyDict? then tabdesc[HypercolumnKey].entries else map[]
  }

  /** A definition that succeeds replaces the hypercolumn dict by the old definitions plus the new one. */
  lemma WithHypercolumnValue(tabdesc: map<string, PyValue>, name: string, rec: map<string, PyValue>)
    requires WithHypercolumn(tabdesc, name, rec).Success?
    ensures WithHypercolumn(tabdesc, name, rec).value ==
      tabdesc[HypercolumnKey := PyDict(Hypercolumns(tabdesc)[name := PyDict(rec)])]
    ensures Hypercolumns(WithHypercolumn(tabdesc, name, rec).value) == Hypercolumns(tabdesc)[name := PyDict(rec)]
  {
  }

  /** Two definitions in a row add both to the hypercolumn dict, the second last. */
  lemma TwoDefinitions(tabdesc: map<string, PyValue>, n1: string, r1: map<string, PyValue>,
                       n2: string, r2: map<string, PyValue>)
    requires WithHypercolumn(tabdesc, n1, r1).Success?
    ensures WithHypercolumn(WithHypercolumn(tabdesc, n1, r1).value, n2, r2) ==
      Success(tabdesc[HypercolumnKey := PyDict(Hypercolumns(tabdesc)[n1 := PyDict(r1)][n2 := PyDict(r2)])])
  {
    WithHypercolumnValue(tabdesc, n1, r1);
    var h1 := Hypercolumns(tabdesc)[n1 := PyDict(r1)];
    var t1 := tabdesc[HypercolumnKey := PyDict(h1)];
    assert WithHypercolumn(tabdesc, n1, r1).value == t1;
    assert t1[HypercolumnKey] == PyDict(h1);
    WithHypercolumnValue(t1, n2, r2);
    var h2 := h1[n2 := PyDict(r2)];
    assert WithHypercolumn(t1, n2, r2).value == t1[HypercolumnKey := PyDict(h2)];
    assert t1[HypercolumnKey := PyDict(h2)] == tabdesc[HypercolumnKey := PyDict(h2)];
  }

  /** Defining two different hypercolumns gives the same table description in either order. */
  lemma HypercolumnsCommute(tabdesc: map<string, PyValue>, n1: string, r1: map<string, PyValue>,
                            n2: string, r2: map<string, PyValue>)
    requires n1 != n2 && WithHypercolumn(tabdesc, n1, r1).Success?
    ensures WithHypercolumn(WithHypercolumn(tabdesc, n1, r1).value, n2, r2).Success?
    ensures WithHypercolumn(WithHypercolumn(tabdesc, n1, r1).value, n2, r2) ==
            WithHypercolumn(WithHypercolumn(tabdesc, n2, r2).value, n1, r1)
  {
    var base := Hypercolumns(tabdesc);
    var both := base[n1 := PyDict(r1)][n2 := PyDict(r2)];
    assert both == base[n2 := PyDict(r2)][n1 := PyDict(r1)];
    TwoDefinitions(tabdesc, n1, r1, n2, r2);
    TwoDefinitions(tabdesc, n2, r2, n1, r1);
  }

  /** Defining a hypercolumn again replaces its earlier definition. */
  lemma HypercolumnRedefined(tabdesc: map<string, PyValue>, name: string, r1: map<string, PyValue>, r2: map<string, PyValue>)
    requires WithHypercolumn(tabdesc, name, r1).Success?
    ensures WithHypercolumn(WithHypercolumn(tabdesc, name, r1).value, name, r2) == WithHypercolumn(tabdesc, name, r2)
  {
    TwoDefinitions(tabdesc, name, r1, name, r2);
    WithHypercolumnValue(tabdesc, name, r2);
    assert Hypercolumns(tabdesc)[name := PyDict(r1)][name := PyDict(r2)] == Hypercolumns(tabdesc)[name := PyDict(r2)];
  }

  /** A table description as the dict that `tabledefinehypercolumn` updates in place. */
  class TableDesc {
    var entries: map<string, PyValue>

    constructor (entries: map<string, PyValue>)
      ensures this.entries == entries
    {
      this.entries := entries;
    }

    /**
     * `tabledefinehypercolumn(tabdesc, name, ndim, datacolumns, coordcolumns, idcolumns)`:
     * records the hypercolumn under `name`, creating the hypercolumn dict first when absent.
     */
    method DefineHypercolumn(name: string, ndim: PyValue, datacolumns: PyValue,
                             coordcolumns: PyValue := PyBool(false), idcolumns: PyValue := PyBool(false))
      returns (failure: Option<Error>)
      modifies this
      ensures var r := WithHypercolumn(old(entries), name, HypercolumnRecord(ndim, datacolumns, coordcolumns, idcolumns));
        && (r.Success? ==> entries == r.value && failure == None)
        && (r.Failure? ==> failure == Some(r.error))
      ensures failure.Some? ==> entries == old(entries)
    {
      var rec := HypercolumnRecord(ndim, datacolumns, coordcolumns, idcolumns);
      if HypercolumnKey !in entries {
        entries := entries[HypercolumnKey := PyDict(map[])];
      }
      var hc := entries[HypercolumnKey];
      if !hc.PyDict? {
        return Some(TypeError);
      }
      entries := entries[HypercolumnKey := PyDict(hc.entries[name := PyDict(rec)])];
      failure := None;
    }
  }
}
