# pyrap command substitution and table-column helpers, in Dafny

This project models three parts of pyrap, the Python binding of the casacore
table system:

- **Command substitution** (`pyrap.util.substitute`). `substitute(s, objlist, globals, locals)`
  scans a TaQL command one character at a time. It replaces `$name` by the
  rendered value of a Python variable and `$(expr)` by the rendered value of
  an expression. Text inside quotes and a `$` escaped by a backslash are left
  alone. Values of the types named in `objlist` are appended to that entry's
  list and referenced as `$<prefix><n>`.
  - Values render as TaQL literals: strings in double quotes, booleans as
    `T`/`F`, lists and tuples as `[a,b]`.
  - The scan is the imperative method `Substitute.Substitute`. It is proved
    against the functional scanner `Substitute.Scan`, which is a fold of
    `Step` over the characters followed by `Finish`.
  - The scanner's properties are in `SubstituteProperties`. The docstring's
    examples are worked out in `SubstituteExamples`.
- **Column view** (`pyrap.tables.tablecolumn`). `tc[key]` and `tc[key] = value`
  take a row number or a slice object. `checkkey` normalises the key to a start row,
  a row count and a step. Rows are then read or written one at a time.
  - `Key` is the object `__getitem__` and `__setitem__` receive: an `int`, or
    a `slice` with its `start`, `stop` and `step` as Python hands them over.
  - The table is a class holding one sequence of cells per column.
  - `Read` and `Store` specify the row loops on values; the loops are the
    methods `GetItem`, `SetItem` and `PutRows`.
- **Table-description builders** (`pyrap.tables.tableutil`):
  - `value_type_name`;
  - the column-description constructors;
  - `maketabdesc`, which builds the dict from column name to description;
  - `tabledefinehypercolumn`, which adds a hypercolumn definition to a table
    description in place.

Python's `eval` is a parameter: `Context.eval` maps a text to a value or to
the exception it raises. The evaluation of names and expressions is not
modelled. `isinstance` against a capture type is the predicate
`CaptureSpec.isInstance`.

The lists in `objlist` belong to the caller and are objects of class
`CaptureList`. Appending to them is a heap update, and `Snapshot` records
their contents.

Where the code and its documentation disagree, the model follows the code:

- `substitutename` catches only `NameError` from `eval`. Any other exception
  propagates out of `substitute` (`Failure`), so a name that fails otherwise
  is not "left untouched". In the model, that is the only way `substitute`
  fails: a malformed command never does.
- `substituteonevar` renders the element of a list with Python's `str()`. A
  nested list or tuple is therefore written the Python way (`[[1, 2]]`,
  `[('a',)]`), not with the TaQL rules applied recursively.
- The docstring's `substitute("$b")` with `b = "$a"` gives the quoted string
  `"$a"`, double quotes included, because string values are quoted.
- `checkkey` raises the misspelled `RunTimeError` for a zero step. Evaluating
  that undefined name raises `NameError("RunTimeError")`, and that is what the
  model reports.
- `checkkey` clamps a given start into the table. So the slice object
  `slice(n, None)` on a table of `n` rows selects the last row, and on an
  empty table `slice(0, None)` selects row -1.

## Model

| member | source | states |
|---|---|---|
| Substitute.Substitute | pyrap_util/tags/pyrap_util-0.1.0/pyrap/util/substitute.py:57-195 | The character loop returns the text of the scanner `Scan` over the whole command, or the exception that stopped it; each character left over after the quote rules is copied to the output, or to the expression text inside a body. The capture lists end up holding what `Scan` appended. |
| Substitute.DollarBlock | pyrap_util/tags/pyrap_util-0.1.0/pyrap/util/substitute.py:123-142 | Handles one character after a live `$`. A name character or a digit extends the name, and `(` opens an expression body. Any other character ends the name: the name is substituted, with appends to the capture lists, and the character is handed on to the quote and paren rules. |
| Substitute.QuoteBlock | pyrap_util/tags/pyrap_util-0.1.0/pyrap/util/substitute.py:144-185 | Quote toggling, paren counting inside a body, evaluation of a closed body, and detection of an unescaped `$`; it returns the character still to be copied, or none. |
| Substitute.ResolveName | pyrap_util/tags/pyrap_util-0.1.0/pyrap/util/substitute.py:200-222 | An empty name gives `$`. A `NameError` gives `$name`, and any other exception fails with that exception. A value of the first matching capture type is appended to that list, and the text is `$` + prefix + the new length; the other lists are unchanged. Any other value is rendered by `FormatValue`. |
| Substitute.SubstituteName | pyrap_util/tags/pyrap_util-0.1.0/pyrap/util/substitute.py:200-222 | The method with the `objlist` loop returns `ResolveName`'s text. The capture lists afterwards are exactly `ResolveName`'s (an append in place), and they are unchanged on failure. |
| Substitute.FirstMatchFrom | pyrap_util/tags/pyrap_util-0.1.0/pyrap/util/substitute.py:214-217 | The index found is the first entry from `k` whose type test accepts the value; no index means no entry does. |
| Substitute.RunAppend | pyrap_util/tags/pyrap_util-0.1.0/pyrap/util/substitute.py:120-186 | Scanning `a + b` is scanning `b` from the state after `a`: a single left-to-right pass. |
| Substitute.RunFailed | pyrap_util/tags/pyrap_util-0.1.0/pyrap/util/substitute.py:140-142 | Once an exception from a name's evaluation has escaped, the rest of the input changes nothing. |
| SubstituteValues.SubstituteString | pyrap_util/tags/pyrap_util-0.1.0/pyrap/util/substitute.py:278-285 | The character loop builds `QuoteString(value)`: the string between double quotes, each `"` written as `"'"'"`. |
| SubstituteValues.QuoteStringRoundTrip | pyrap_util/tags/pyrap_util-0.1.0/pyrap/util/substitute.py:272-285 | Reading the TaQL constant back gives the original string: each double-quoted or single-quoted part is read as its body, and adjacent parts are concatenated. |
| SubstituteValues.QuoteStringPlain | pyrap_util/tags/pyrap_util-0.1.0/pyrap/util/substitute.py:278-285 | A string without `"` is just enclosed in double quotes. |
| SubstituteValues.QuoteStringExample | pyrap_util/tags/pyrap_util-0.1.0/pyrap/util/substitute.py:274-277 | `ab"cd` becomes `"ab"'"'"cd"`. |
| SubstituteValues.SubstituteVar | pyrap_util/tags/pyrap_util-0.1.0/pyrap/util/substitute.py:241-255 | The element loop, with its `first` flag, yields `FormatValue(v)`: a list or tuple as `[` + its elements' `FormatOne` texts joined by `,` + `]`, and any other value as `FormatOne`. |
| SubstituteValues.ListElementsRecoverable | pyrap_util/tags/pyrap_util-0.1.0/pyrap/util/substitute.py:241-255 | For a non-empty list or tuple whose elements' texts hold no comma, the rendered text is bracketed, and splitting its inside at commas gives back the elements' texts in order. |
| SubstituteValues.EmptySequenceText | pyrap_util/tags/pyrap_util-0.1.0/pyrap/util/substitute.py:241-255 | An empty list or tuple is rendered as `[]`. |
| SubstituteValues.ScalarTextReadsBack | pyrap_util/tags/pyrap_util-0.1.0/pyrap/util/substitute.py:258-270 | The text `substituteonevar` gives for a string or an int reads back as that value. A string's TaQL constant reads back as the string. An int's decimal text reads back as the int, after a `-` when it is negative. |
| SubstituteValues.OtherObjectsUseStr | pyrap_util/tags/pyrap_util-0.1.0/pyrap/util/substitute.py:258-270 | An object that is not a string, boolean or sequence is rendered by its `str()`, not its `repr()`, also as a list element. |
| SubstituteValues.BooleanTokens | pyrap_util/tags/pyrap_util-0.1.0/pyrap/util/substitute.py:266-269 | A boolean is `T` or `F`, also as a list element; this is tested before the general `str()`. |
| SubstituteValues.FlatListExample | pyrap_util/tags/pyrap_util-0.1.0/pyrap/util/substitute.py:241-255 | `[1,2,3]` renders without spaces. |
| SubstituteValues.NestedListFallsToStr | pyrap_util/tags/pyrap_util-0.1.0/pyrap/util/substitute.py:258-270 | An inner list is rendered by Python's `str()`: `[[1, 2]]`. |
| SubstituteValues.NestedTupleFallsToRepr | pyrap_util/tags/pyrap_util-0.1.0/pyrap/util/substitute.py:258-270 | An inner one-element tuple of a string is rendered by `str()` and the string's `repr()`: `[('a',)]`. |
| SubstituteValues.NatToStringRoundTrip | pyrap_util/tags/pyrap_util-0.1.0/pyrap/util/substitute.py:217 | The capture number's decimal text reads back as the number. |
| SubstituteProperties.LiteralStep | pyrap_util/tags/pyrap_util-0.1.0/pyrap/util/substitute.py:144-185 | A character that is not a quote toggle, a live `$` or a body paren is appended to the output (or to the expression text) and nothing else changes. |
| SubstituteProperties.QuoteToggles | pyrap_util/tags/pyrap_util-0.1.0/pyrap/util/substitute.py:146-150 | `"` toggles double-quote mode unless inside single quotes, and `'` toggles single-quote mode unless inside double quotes. Either way the quote is copied. |
| SubstituteProperties.EscapedDollar | pyrap_util/tags/pyrap_util-0.1.0/pyrap/util/substitute.py:174-185 | `\$` is copied as is and starts no substitution. |
| SubstituteProperties.QuotedLiteral | pyrap_util/tags/pyrap_util-0.1.0/pyrap/util/substitute.py:144-178 | A quoted part is copied verbatim, `$` included, and the quote mode is closed again after it. |
| SubstituteProperties.DollarFree | pyrap_util/tags/pyrap_util-0.1.0/pyrap/util/substitute.py:120-195 | A command without `$` comes back unchanged, and the capture lists are untouched. |
| SubstituteProperties.NameRun | pyrap_util/tags/pyrap_util-0.1.0/pyrap/util/substitute.py:123-131 | `$` followed by an identifier (a letter or `_`, then letters, digits and `_`) accumulates the identifier as the name. |
| SubstituteProperties.NameEndReprocessed | pyrap_util/tags/pyrap_util-0.1.0/pyrap/util/substitute.py:139-144 | The character that ends a name is processed again by the ordinary rules, from the state after the name's substitution; it is not dropped. |
| SubstituteProperties.NameThenLiteral | pyrap_util/tags/pyrap_util-0.1.0/pyrap/util/substitute.py:139-186 | `$name` followed by an ordinary character outputs the name's substitution and then that character. |
| SubstituteProperties.NameAtEnd | pyrap_util/tags/pyrap_util-0.1.0/pyrap/util/substitute.py:190-191 | A name at the end of the command is still substituted. |
| SubstituteProperties.TrailingDollar | pyrap_util/tags/pyrap_util-0.1.0/pyrap/util/substitute.py:190-203 | A `$` at the end gives a single `$`. |
| SubstituteProperties.OpenBody | pyrap_util/tags/pyrap_util-0.1.0/pyrap/util/substitute.py:133-138 | `$(` opens an expression body with depth 1 and empty expression text. |
| SubstituteProperties.BodyRun | pyrap_util/tags/pyrap_util-0.1.0/pyrap/util/substitute.py:144-182 | Inside a body, text that never brings the count to 0 goes to the expression text whole, quotes and `$` included. Only the mode changes: quotes toggle as outside a body, and parentheses count only outside quotes (`Track`). |
| SubstituteProperties.QuotedPartBalanced | pyrap_util/tags/pyrap_util-0.1.0/pyrap/util/substitute.py:144-161 | A quoted part of a body leaves the parenthesis count where it was, whatever parentheses it holds. |
| SubstituteProperties.ExpressionSubstituted | pyrap_util/tags/pyrap_util-0.1.0/pyrap/util/substitute.py:155-167 | `$(e)` is replaced by `substituteexpr(e)`. This holds for every `e` that is balanced outside its quoted parts and leaves no quote open; quotes of either kind may appear in it. |
| SubstituteProperties.FailingExpressionKept | pyrap_util/tags/pyrap_util-0.1.0/pyrap/util/substitute.py:229-236 | An expression whose evaluation raises any exception is left in the output as written, `$(` and `)` included. |
| SubstituteProperties.UnterminatedBody | pyrap_util/tags/pyrap_util-0.1.0/pyrap/util/substitute.py:192-194 | A body still open at the end is output as `$(` plus its text, with no `)` added. This holds whatever quote is still open in it. |
| SubstituteProperties.UndefinedLeftUntouched | pyrap_util/tags/pyrap_util-0.1.0/pyrap/util/substitute.py:205-210 | When every name and expression is undefined, the command comes back unchanged and the capture lists are untouched. |
| SubstituteProperties.ScanFailsOnlyOnNameException | pyrap_util/tags/pyrap_util-0.1.0/pyrap/util/substitute.py:200-210 | When `substitute` fails, the exception was raised by evaluating some name, and it is not a `NameError`. Expressions, quotes, backslashes, unbalanced parentheses and a trailing `$` never make it fail. |
| SubstituteProperties.ScanSucceeds | pyrap_util/tags/pyrap_util-0.1.0/pyrap/util/substitute.py:140-195 | When no name's evaluation raises anything but `NameError`, `substitute` returns a text for every command, however malformed. |
| SubstituteProperties.ScanGrows | pyrap_util/tags/pyrap_util-0.1.0/pyrap/util/substitute.py:214-217 | A scan only appends to the capture lists. Every list afterwards starts with its contents before, and the lists not in `objlist` are unchanged. |
| SubstituteExamples.SumExample | pyrap_util/tags/pyrap_util-0.1.0/pyrap/util/substitute.py:101 | With `a = 2` and `a+b` evaluating to 5, `$(a+b)+$a` gives `5+2`. |
| SubstituteExamples.SquareExample | pyrap_util/tags/pyrap_util-0.1.0/pyrap/util/substitute.py:102 | `$((a+b)*(a+b))` passes the inner parentheses to the evaluator and gives `25`. |
| SubstituteExamples.QuotedParenExample | pyrap_util/tags/pyrap_util-0.1.0/pyrap/util/substitute.py:103 | `$(len("ab cd( de"))` ignores the quoted `(` and gives `9`. |
| SubstituteExamples.UnterminatedQuoteExample | pyrap_util/tags/pyrap_util-0.1.0/pyrap/util/substitute.py:190-195 | `$(len("ab`, cut off inside a string, comes back as written. |
| SubstituteExamples.NotRescanned | pyrap_util/tags/pyrap_util-0.1.0/pyrap/util/substitute.py:105-106 | A substituted value's text is output as it is and never scanned again. |
| SubstituteExamples.NotRecursiveExample | pyrap_util/tags/pyrap_util-0.1.0/pyrap/util/substitute.py:105-106 | With `b = "$a"`, `$b` gives the quoted string `"$a"`, not the value of `a`. |
| SubstituteExamples.CaptureExample | pyrap_util/tags/pyrap_util-0.1.0/pyrap/util/substitute.py:80-91 | Two captured values become `$1` and `$2`, and the caller's list holds both, in order. |
| TableColumns.CheckKey | pyrap_tables/tags/pyrap_tables-0.3.0/pyrap/tables/tablecolumn.py:249-284 | An index succeeds exactly when `-nrows <= i < nrows`, counted from the end when negative, and raises `IndexError` otherwise. A slice fails exactly when its step is 0 (`NameError` for `RunTimeError`). Otherwise it gives a row selection with the given step, or step 1. |
| TableColumns.RowCountIsRange | pyrap_tables/tags/pyrap_tables-0.3.0/pyrap/tables/tablecolumn.py:279-283 | The floor-divided row count is that of Python's `range(strow, endrow, incr)`: step `k` is taken exactly when `strow + k*incr` has not reached `endrow`. |
| TableColumns.SliceRowsInTable | pyrap_tables/tags/pyrap_tables-0.3.0/pyrap/tables/tablecolumn.py:249-284 | On a non-empty table every selected row exists. |
| TableColumns.EmptyTableSlice | pyrap_tables/tags/pyrap_tables-0.3.0/pyrap/tables/tablecolumn.py:266-284 | A row outside the table is selected only on an empty table, by a slice with a start, a positive step and no negative stop. It is then the single row -1. |
| TableColumns.EmptyTableRowMinusOne | pyrap_tables/tags/pyrap_tables-0.3.0/pyrap/tables/tablecolumn.py:269-273 | The slice object `slice(0, None)` on an empty table selects row -1. |
| TableColumns.StartAtEndSelectsLastRow | pyrap_tables/tags/pyrap_tables-0.3.0/pyrap/tables/tablecolumn.py:269-273 | The slice object `slice(n, None)` on `n` rows selects the last row, one row with step 1. |
| TableColumns.FirstFive | pyrap_tables/tags/pyrap_tables-0.3.0/pyrap/tables/tablecolumn.py:50 | The slice object `slice(None, 5)` selects rows 0 to 4. |
| TableColumns.LastButOneFour | pyrap_tables/tags/pyrap_tables-0.3.0/pyrap/tables/tablecolumn.py:51 | The slice object `slice(-5, -1)` selects the 4 rows before the last one, in order. |
| TableColumns.LastFourReversed | pyrap_tables/tags/pyrap_tables-0.3.0/pyrap/tables/tablecolumn.py:52 | The slice object `slice(-1, -5, -1)` selects the last 4 rows, last first. |
| TableColumns.TableColumn.Open | pyrap_tables/tags/pyrap_tables-0.3.0/pyrap/tables/tablecolumn.py:57-61 | The view exists exactly when the table has the column. Otherwise it fails with `RuntimeError("Column <name> does not exist in table <table>")`. A view that exists satisfies `Valid`: its column exists and every column has one cell per row. |
| TableColumns.TableColumn.Len | pyrap_tables/tags/pyrap_tables-0.3.0/pyrap/tables/tablecolumn.py:208-209 | The table's row count, which is the number of cells in the view's column. |
| TableColumns.TableColumn.GetItem | pyrap_tables/tags/pyrap_tables-0.3.0/pyrap/tables/tablecolumn.py:211-224 | The row loop returns `Read`: the cell for an index, or the list of the selected cells in order. A missing cell stops the read with its failure. |
| TableColumns.ReadIndex | pyrap_tables/tags/pyrap_tables-0.3.0/pyrap/tables/tablecolumn.py:211-215 | `tc[i]` is cell `i`, or cell `i + nrows` for a negative `i`, or an `IndexError`. |
| TableColumns.ReadSlice | pyrap_tables/tags/pyrap_tables-0.3.0/pyrap/tables/tablecolumn.py:216-224 | On a non-empty table a slice reads the cells `strow + k*incr`, `k < count`, in that order. |
| TableColumns.ReadEmptyTable | pyrap_tables/tags/pyrap_tables-0.3.0/pyrap/tables/tablecolumn.py:216-224 | On an empty table a slice object reads `[]`, except that one with a start, a positive step and no negative stop asks for row -1 and fails. |
| TableColumns.TableColumn.SetItem | pyrap_tables/tags/pyrap_tables-0.3.0/pyrap/tables/tablecolumn.py:226-247 | The table afterwards and the failure are those of `Store`. An index writes one cell. A slice writes the elements of a list or tuple, which must have the slice's length, or else the value itself to every selected row. The view stays `Valid`. |
| TableColumns.TableColumn.PutRows | pyrap_tables/tags/pyrap_tables-0.3.0/pyrap/tables/tablecolumn.py:234-246 | The row loop makes the writes of `WriteRows` in order and stops at the first missing cell. The view stays `Valid`. |
| TableColumns.StoreSlice | pyrap_tables/tags/pyrap_tables-0.3.0/pyrap/tables/tablecolumn.py:232-247 | On a non-empty table a slice assignment fails only on a length mismatch, and then changes nothing. Otherwise row `strow + k*incr` holds the `k`-th element (or the value), and every other cell and column is unchanged. |
| TableColumns.StoreIndex | pyrap_tables/tags/pyrap_tables-0.3.0/pyrap/tables/tablecolumn.py:228-230 | `tc[i] = v` writes exactly cell `i` (counted from the end when negative), or raises `IndexError` without writing. |
| TableColumns.StoreKeepsConsistent | pyrap_tables/tags/pyrap_tables-0.3.0/pyrap/tables/tablecolumn.py:226-247 | Every column keeps one cell per row. An assignment that fails has written nothing, because only the first row of a slice can be missing. |
| TableColumns.Table.PutCell | pyrap_tables/tags/pyrap_tables-0.3.0/pyrap/tables/tablecolumn.py:129-132 | Writes one existing cell, or fails and leaves the table as it was. The columns stay the same, and each keeps one cell per row. |
| TableUtil.ValueTypeName | pyrap_tables/tags/pyrap_tables-0.3.0/pyrap/tables/tableutil.py:243-258 | `boolean` exactly for bools. `integer` exactly for ints and longs that are not bools (a bool is an `int` instance but is tested first). Then `double`, `dcomplex`, `string` and `record` for float, complex, str and dict, and `unknown` exactly when none of these types applies. |
| TableUtil.MakeScaColDesc | pyrap_tables/tags/pyrap_tables-0.3.0/pyrap/tables/tableutil.py:261-327 | A description `{name, desc}`. `desc` has exactly the six scalar keys, copied from the arguments, and `valueType` is the given type or else `value_type_name(value)`. |
| TableUtil.MakeArrColDesc | pyrap_tables/tags/pyrap_tables-0.3.0/pyrap/tables/tableutil.py:330-427 | As for scalars, plus `ndim`, `shape` and `_c_order = True`. `ndim` becomes `len(shape)` exactly when the shape is non-empty and `ndim <= 0`. A shape without a length raises `TypeError`. |
| TableUtil.MakeColDesc | pyrap_tables/tags/pyrap_tables-0.3.0/pyrap/tables/tableutil.py:430-455 | `{name: columnname, desc: desc}` with `desc` unchanged. |
| TableUtil.MakeTabDesc | pyrap_tables/tags/pyrap_tables-0.3.0/pyrap/tables/tableutil.py:458-491 | The insertion loop returns `TabDesc`. A single dict counts as a list of one, and the first bad element (not a dict, no `name` or `desc`, repeated name) ends the loop with its exception. |
| TableUtil.InsertAllNamed | pyrap_tables/tags/pyrap_tables-0.3.0/pyrap/tables/tableutil.py:486-491 | Over descriptions with string names, the table description succeeds exactly when the names are distinct. It then maps each name to its `desc`, and otherwise raises `ValueError("Column name <n> multiply used in table description")` for one of the names. |
| TableUtil.TabDescOfColumns | pyrap_tables/tags/pyrap_tables-0.3.0/pyrap/tables/tableutil.py:454-491 | `maketabdesc` of `makecoldesc(names[k], descs[k])` with distinct names is the dict from `names[k]` to `descs[k]`. |
| TableUtil.TabDescRepeatedName | pyrap_tables/tags/pyrap_tables-0.3.0/pyrap/tables/tableutil.py:488-489 | A name used twice raises `ValueError`. |
| TableUtil.SingleDescIsList | pyrap_tables/tags/pyrap_tables-0.3.0/pyrap/tables/tableutil.py:484-485 | A single dict gives the same result as a list holding it. |
| TableUtil.SingleColumn | pyrap_tables/tags/pyrap_tables-0.3.0/pyrap/tables/tableutil.py:482-491 | One description gives the one-entry dict from its name to its `desc`. |
| TableUtil.HypercolumnRecord | pyrap_tables/tags/pyrap_tables-0.3.0/pyrap/tables/tableutil.py:548-553 | The record holds `HCndim` and `HCdatanames`. `HCcoordnames` and `HCidnames` are present exactly when their argument is not a bool, and nothing else is present. |
| TableUtil.WithHypercolumn | pyrap_tables/tags/pyrap_tables-0.3.0/pyrap/tables/tableutil.py:554-556 | The definition fails (`TypeError`) exactly when `_define_hypercolumn_` holds something other than a dict. Otherwise that key holds a dict, created if absent, with the new definition under `name`. All other keys and all other definitions are unchanged. |
| TableUtil.HypercolumnsCommute | pyrap_tables/tags/pyrap_tables-0.3.0/pyrap/tables/tableutil.py:554-556 | Defining two different hypercolumns gives the same description in either order. |
| TableUtil.HypercolumnRedefined | pyrap_tables/tags/pyrap_tables-0.3.0/pyrap/tables/tableutil.py:554-556 | Defining a hypercolumn again replaces its earlier definition. |
| TableUtil.TableDesc.DefineHypercolumn | pyrap_tables/tags/pyrap_tables-0.3.0/pyrap/tables/tableutil.py:500-556 | Updates the description dict in place to `WithHypercolumn` of the record, or reports the `TypeError`. |

## Left out

- `getlocals` and `getvariable` inspect the caller's stack frames. Name lookup is the `eval` parameter of `Context` instead.
- What `eval` computes: Python expression semantics, and which of `globals`/`locals` a name comes from, are outside the model.
- Substitute.ResolveName: an exception raised by `isinstance` inside the `objlist` loop is swallowed by the source (the value is then rendered). The model's type tests are total predicates, so this path does not exist.
- Substitute.ResolveName: an exception raised by `str()` in `substitutevar(v)` at the end of `substitutename` propagates out of `substitute`; rendering is total in the model, so this path does not exist.
- Substitute.SubstituteExpr: an exception raised by `substitutevar` or `str()` inside `substituteexpr`'s `try` is not modelled, because rendering is total in the model.
- `str()` of floats, longs, complex numbers and other objects is the fixed text carried by `VOther`. Python's float formatting is not modelled.
- `unicode` strings are not modelled, and `repr()` of a character above `0xFF` is written as its low byte.
- The `objlist` entries are records of a type test, a prefix and a list. Tuples that are not three-element, and `objs` values that are not lists, are not modelled.
- The casacore table engine is not part of this model. `getcell`/`putcell` are an indexed read and write of a per-column sequence. Any failure of theirs is the one `NoSuchCell` error, and they have no other effect.
- The `__setitem__` return value (`True` for a slice, `putcell`'s result for an index) is not modelled. `SetItem` returns only the exception, if any.
- TableColumns.TableColumn.SetItem: a broadcast value is written through the same row loop as a list, as the sequence of `count` copies of the value.
- The interpreter's conversion of a two-part slice is not modelled. `tablecolumn` is an old-style class without `__getslice__`, so for `tc[a:b]` Python 2 hands `__getitem__` a slice whose missing start is 0 and whose missing stop is `sys.maxsize`, with negative bounds already shifted by `len(tc)`. The model starts from the slice object that arrives. So `tc[:]` on an empty table arrives as `slice(0, sys.maxsize)` and asks for row -1, and `tc[-5:-1]` on a 3-row table arrives as `slice(-2, 2)` and selects row 1 only.
- Keys of `[]` other than an `int` or a slice are not modelled. This includes the docstring's tuple keys such as `tc[-5,-1,]`: `checkkey` treats a tuple as an index, and Python 2 orders every tuple above every integer, so such a key raises `IndexError` rather than selecting the rows the docstring describes.
- The delegating `tablecolumn` methods (`name`, `getcol`, `putcol`, `iter`, `index` and the rest) forward one call to the table engine, which is not part of this model.
- The other `tableutil` functions (`tablefromascii`, `tabledelete`, `tableexists`, `tablecopy`, `addImagingColumns` and the rest) are file-system checks, printing and calls into the table engine.
- Dict keys are strings. TableUtil.MakeTabDesc: a column name that is not a string is reported as `TypeError`, where Python would use it as a key.
- Python dicts are shared by reference: `maketabdesc` stores each `desc` dict itself, and `tabledefinehypercolumn` mutates the nested hypercolumn dict. The model copies values, so aliasing between descriptions is not captured.
- TableUtil.MakeArrColDesc: `ndim` is an integer. Python 2 would also compare a non-integer `ndim` with 0.
- Floats and complex numbers in table descriptions are `real`s, carried but never computed with.
- The C++ extension sources and `setup.py` are outside the core.
