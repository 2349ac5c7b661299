/**
 * `pyrap.tables.tablecolumn`: a view of one column of a table, indexed with
 * Python's `[]` by a row number or a slice of rows.
 *
 * The table itself (the casacore engine behind `getcell`/`putcell`) is a
 * class holding one sequence of cells per column; reading or writing a cell
 * that does not exist fails.
 */
module TableColumns {
  import opened Results

  /** The exceptions the column view raises or lets through. */
  datatype Error =
    | IndexError
    | NameError(name: string)
    | RuntimeError(msg: string)

  /** The failure of `getcell`/`putcell` on a missing column or row. */
  const NoSuchCell := RuntimeError("no such cell")

  /** A key of `[]`: an integer, or a slice `start:stop:step` whose parts may be missing. */
  datatype Key = Index(i: int) | Slice(start: Option<int>, stop: Option<int>, step: Option<int>)

  /** What `checkkey` returns: `[row]`, or `[strow, nrow, incr]`. */
  datatype Selection = Row(row: int) | Rows(start: int, count: nat, incr: int)

  function Min(a: int, b: int): int { if a <= b then a else b }
  function Max(a: int, b: int): int { if a >= b then a else b }

  // ---------------------------------------------------------------------------
  // checkkey

  /** The first row of a slice: a given start counts from the end when negative and is clamped. */
  function StartRow(start: Option<int>, incr: int, nrows: nat): int
  {
    match start
    case None => if incr < 0 then nrows - 1 else 0
    case Some(s) => Min(Max(if s < 0 then s + nrows else s, 0), nrows - 1)
  }

  /** The row a slice stops before: a given stop counts from the end when negative and is clamped. */
  function EndRow(stop: Option<int>, incr: int, nrows: nat): int
  {
    match stop
    case None => if incr < 0 then -1 else nrows
    case Some(e) => Min(Max(if e < 0 then e + nrows else e, -1), nrows)
  }

  /**
   * The number of rows from `strow` towards `endrow` in steps of `incr`: the
   * source's floor division of a biased difference, never negative.
   */
  function RowCount(strow: int, endrow: int, incr: int): nat
    requires incr != 0
  {
    var n := if incr > 0 then (endrow - strow + incr - 1) / incr else (strow - endrow - incr - 1) / -incr;
    Max(0, n)
  }

  /**
   * `checkkey(key, nrows)`: a single row counted from the end when negative,
   * or a slice normalised to a start row, a row count and a step.
   */
  function CheckKey(key: Key, nrows: nat): (r: Result<Selection, Error>)
    ensures key.Index? ==> (r.Success? <==> -(nrows as int) <= key.i < nrows)
    ensures key.Index? && r.Success? ==>
      r.value.Row? && 0 <= r.value.row < nrows && r.value.row == (if key.i < 0 then key.i + nrows else key.i)
    ensures key.Index? && r.Failure? ==> r.error == IndexError
    ensures key.Slice? ==> (r.Failure? <==> key.step == Some(0))
    ensures key.Slice? && r.Failure? ==> r.error == NameError("RunTimeError")
    ensures key.Slice? && r.Success? ==> r.value.Rows? && r.value.incr == (if key.step.Some? then key.step.value else 1)
  {
    match key
    case Index(i) =>
      var k := if i < 0 then i + nrows else i;
      if k < 0 || k >= nrows then Failure(IndexError) else Success(Row(k))
    case Slice(start, stop, step) =>
      var incr := if step.Some? then step.value else 1;
      if incr == 0 then Failure(NameError("RunTimeError"))
      else
        var strow := StartRow(start, incr, nrows);
        var endrow := EndRow(stop, incr, nrows);
        Success(Rows(strow, RowCount(strow, endrow, incr), incr))
  }

  /** The row numbers a selection visits, in order. */
  function RowNumbers(sel: Selection): (rows: seq<int>)
    ensures sel.Row? ==> rows == [sel.row]
    ensures sel.Rows? ==> |rows| == sel.count
    ensures sel.Rows? ==> forall k :: 0 <= k < sel.count ==> rows[k] == sel.start + k * sel.incr
  {
    match sel
    case Row(row) => [row]
    case Rows(start, count, incr) => seq(count, k requires 0 <= k < count => start + k * incr)
  }

  // ---------------------------------------------------------------------------
  // Properties of checkkey

  lemma ProductNonNegative(x: int, b: int)
    requires x >= 0 && b > 0
    ensures x * b >= 0
  {
  }

  /** `q < a / b` exactly when `(q + 1) * b <= a`, for a positive divisor. */
  lemma BelowQuotient(q: int, a: int, b: int)
    requires b > 0
    ensures q < a / b <==> (q + 1) * b <= a
  {
    var d, r := a / b, a % b;
    assert a == d * b + r && 0 <= r < b;
    if q < d {
      ProductNonNegative(d - (q + 1), b);
      assert d * b == (q + 1) * b + (d - (q + 1)) * b;
    } else {
      ProductNonNegative(q - d, b);
      assert (q + 1) * b == (q - d) * b + d * b + b;
    }
  }

  /**
   * The count of a slice is that of Python's `range(strow, endrow, incr)`:
   * step `k` is taken exactly when `strow + k * incr` has not yet reached
   * `endrow`.
   */
  lemma RowCountIsRange(strow: int, endrow: int, incr: int, k: nat)
    requires incr != 0
    ensures k < RowCount(strow, endrow, incr) <==>
      (if incr > 0 then strow + k * incr < endrow else strow + k * incr > endrow)
  {
    if incr > 0 {
      BelowQuotient(k, endrow - strow + incr - 1, incr);
      assert (k + 1) * incr == k * incr + incr;
    } else {
      BelowQuotient(k, strow - endrow - incr - 1, -incr);
      assert (k + 1) * -incr == -(k * incr) - incr;
    }
  }

  /** A key of a non-empty table selects only rows of the table. */
  lemma SliceRowsInTable(key: Key, nrows: nat)
    requires nrows > 0 && CheckKey(key, nrows).Success?
    ensures var rows := RowNumbers(CheckKey(key, nrows).value);
      forall k :: 0 <= k < |rows| ==> 0 <= rows[k] < nrows
  {
    var sel := CheckKey(key, nrows).value;
    if sel.Rows? {
      var strow, incr := sel.start, sel.incr;
      var endrow := EndRow(key.stop, incr, nrows);
      assert 0 <= strow < nrows && -1 <= endrow <= nrows;
      forall k | 0 <= k < sel.count
        ensures 0 <= strow + k * incr < nrows
      {
        RowCountIsRange(strow, endrow, incr, k);
        if incr > 0 {
          assert k * incr >= 0;
        } else {
          assert k * incr <= 0;
        }
      }
    }
  }

  /**
   * A row outside the table is selected only on an empty table, by a slice
   * with a given start, a positive step and no negative stop: then row -1 is
   * the one row.
   */
  lemma EmptyTableSlice(key: Key)
    requires CheckKey(key, 0).Success?
    requires exists row :: row in RowNumbers(CheckKey(key, 0).value) && !(0 <= row < 0)
    ensures key.Slice? && key.start.Some? && key.step != Some(0)
    ensures key.stop.None? || key.stop.value >= 0
    ensures CheckKey(key, 0).value == Rows(-1, 1, CheckKey(key, 0).value.incr)
    ensures CheckKey(key, 0).value.incr > 0
  {
    var sel := CheckKey(key, 0).value;
    var endrow := EndRow(key.stop, sel.incr, 0);
    assert sel.count > 0;
    RowCountIsRange(sel.start, endrow, sel.incr, 0);
    if sel.count > 1 {
      RowCountIsRange(sel.start, endrow, sel.incr, 1);
    }
  }

  /** The slice object `slice(0, None)` on an empty table selects row -1. */
  lemma EmptyTableRowMinusOne()
    ensures CheckKey(Slice(Some(0), None, None), 0) == Success(Rows(-1, 1, 1))
  {
  }

  /**
   * The slice object `slice(n, None)` on a table of `n` rows selects the last row, where a Python
   * sequence would give nothing: the start is clamped to `n - 1`.
   */
  lemma StartAtEndSelectsLastRow(n: nat)
    requires n > 0
    ensures CheckKey(Slice(Some(n), None, None), n) == Success(Rows(n - 1, 1, 1))
  {
    assert (n - (n - 1) + 1 - 1) / 1 == 1;
  }

  /** The slice object `slice(None, 5)` selects cells 0 to 4 of a table of at least five rows. */
  lemma FirstFive(nrows: nat)
    requires nrows >= 5
    ensures CheckKey(Slice(None, Some(5), None), nrows) == Success(Rows(0, 5, 1))
  {
  }

  /** The slice object `slice(-5, -1)` selects the four cells before the last one, in order. */
  lemma LastButOneFour(nrows: nat)
    requires nrows >= 5
    ensures CheckKey(Slice(Some(-5), Some(-1), None), nrows) == Success(Rows(nrows - 5, 4, 1))
  {
    assert (nrows - 1 - (nrows - 5) + 1 - 1) / 1 == 4;
  }

  /** The slice object `slice(-1, -5, -1)` selects the last four cells, last first. */
  lemma LastFourReversed(nrows: nat)
    requires nrows >= 5
    ensures CheckKey(Slice(Some(-1), Some(-5), Some(-1)), nrows) == Success(Rows(nrows - 1, 4, -1))
  {
    assert (nrows - 1 - (nrows - 5) + 1 - 1) / 1 == 4;
  }

  // ---------------------------------------------------------------------------
  // The table's cells, as the column view reads and writes them

  /** Every column of the table has one cell per row, and the viewed column exists. */
  predicate Consistent<T>(cols: map<string, seq<T>>, nrows: nat, column: string)
  {
    column in cols && forall c :: c in cols ==> |cols[c]| == nrows
  }

  /** `getcell(column, row)`: the cell's value, or a failure when there is no such cell. */
  function Cell<T>(cols: map<string, seq<T>>, column: string, row: int): (r: Result<T, Error>)
    ensures r.Success? <==> column in cols && 0 <= row < |cols[column]|
    ensures r.Success? ==> r.value == cols[column][row]
  {
    if column in cols && 0 <= row < |cols[column]| then Success(cols[column][row]) else Failure(NoSuchCell)
  }

  /** `putcell(column, row, value)`: the cells after the write, or a failure when there is no such cell. */
  function Put<T>(cols: map<string, seq<T>>, column: string, row: int, value: T): (r: Result<map<string, seq<T>>, Error>)
    ensures r.Success? <==> column in cols && 0 <= row < |cols[column]|
    ensures r.Success? ==> r.value.Keys == cols.Keys && |r.value[column]| == |cols[column]|
    ensures r.Success? ==> r.value[column][row] == value
    ensures r.Success? ==> forall i :: 0 <= i < |cols[column]| && i != row ==> r.value[column][i] == cols[column][i]
    ensures r.Success? ==> forall c :: c in cols && c != column ==> r.value[c] == cols[c]
  {
    if column in cols && 0 <= row < |cols[column]| then Success(cols[column := cols[column][row := value]])
    else Failure(NoSuchCell)
  }

  /** What `[]` returns: one cell for a row number, a list of cells for a slice. */
  datatype Item<T> = One(cell: T) | Many(cells: seq<T>)

  /** Reads the cells of `rows` in order; the first missing one ends the read with its failure. */
  function ReadRows<T>(cols: map<string, seq<T>>, column: string, rows: seq<int>): Result<seq<T>, Error>
  {
    if rows == [] then Success([])
    else
      match ReadRows(cols, column, rows[..|rows| - 1])
      case Failure(e) => Failure(e)
      case Success(vals) =>
        match Cell(cols, column, rows[|rows| - 1])
        case Failure(e) => Failure(e)
        case Success(v) => Success(vals + [v])
  }

  /** `tc[key]` on a table with cells `cols` and `nrows` rows. */
  function Read<T>(cols: map<string, seq<T>>, nrows: nat, column: string, key: Key): Result<Item<T>, Error>
  {
    match CheckKey(key, nrows)
    case Failure(e) => Failure(e)
    case Success(Row(row)) =>
      (match Cell(cols, column, row)
       case Failure(e) => Failure(e)
       case Success(v) => Success(One(v)))
    case Success(sel) =>
      (match ReadRows(cols, column, RowNumbers(sel))
       case Failure(e) => Failure(e)
       case Success(vals) => Success(Many(vals)))
  }

  /** The cells after a sequence of writes, and the failure that stopped them, if any. */
  datatype Outcome<T> = Outcome(cols: map<string, seq<T>>, failure: Option<Error>)

  /**
   * Writes `vals[k]` to row `rows[k]` in order; a missing cell stops the
   * writes, and those made before it stay.
   */
  function WriteRows<T>(cols: map<string, seq<T>>, column: string, rows: seq<int>, vals: seq<T>): Outcome<T>
    requires |rows| == |vals|
  {
    if rows == [] then Outcome(cols, None)
    else
      var w := WriteRows(cols, column, rows[..|rows| - 1], vals[..|vals| - 1]);
      if w.failure.Some? then w
      else
        match Put(w.cols, column, rows[|rows| - 1], vals[|vals| - 1])
        case Failure(e) => Outcome(w.cols, Some(e))
        case Success(c) => Outcome(c, None)
  }

  /** The message of the failure on a slice assignment whose list has the wrong length. */
  const LengthDiffers := RuntimeError("tablecolumn slice length differs from value length")

  /**
   * `tc[key] = value`: a row number takes the value as it is; a slice takes
   * the elements of a list or tuple value (`asList`), one per row, or else the
   * same value in every row.
   */
  function Store<T>(cols: map<string, seq<T>>, nrows: nat, column: string, key: Key, value: T,
                    asList: T -> Option<seq<T>>): Outcome<T>
  {
    match CheckKey(key, nrows)
    case Failure(e) => Outcome(cols, Some(e))
    case Success(Row(row)) =>
      (match Put(cols, column, row, value)
       case Failure(e) => Outcome(cols, Some(e))
       case Success(c) => Outcome(c, None))
    case Success(sel) =>
      match asList(value)
      case None => WriteRows(cols, column, RowNumbers(sel), seq(sel.count, _ => value))
      case Some(vals) =>
        if |vals| != sel.count then Outcome(cols, Some(LengthDiffers))
        else WriteRows(cols, column, RowNumbers(sel), vals)
  }

  // ---------------------------------------------------------------------------
  // Properties of reading and writing

  /** Reading one more row extends a successful read by that row's cell, or fails with it. */
  lemma ReadRowsSnoc<T>(cols: map<string, seq<T>>, column: string, rows: seq<int>, n: nat, vals: seq<T>)
    requires n < |rows| && ReadRows(cols, column, rows[..n]) == Success(vals)
    ensures var c := Cell(cols, column, rows[n]);
      ReadRows(cols, column, rows[..n + 1]) == if c.Success? then Success(vals + [c.value]) else Failure(c.error)
  {
    assert rows[..n + 1][..n] == rows[..n];
  }

  /** Writing one more row extends a successful sequence of writes by that write, or fails with it. */
  lemma WriteRowsSnoc<T>(cols: map<string, seq<T>>, column: string, rows: seq<int>, vals: seq<T>, n: nat,
                         cur: map<string, seq<T>>)
    requires |rows| == |vals| && n < |rows|
    requires WriteRows(cols, column, rows[..n], vals[..n]) == Outcome(cur, None)
    ensures var p := Put(cur, column, rows[n], vals[n]);
      WriteRows(cols, column, rows[..n + 1], vals[..n + 1]) ==
        if p.Success? then Outcome(p.value, None) else Outcome(cur, Some(p.error))
  {
    assert rows[..n + 1][..n] == rows[..n];
    assert vals[..n + 1][..n] == vals[..n];
  }

  /** Once a prefix of the rows fails to read, the whole read fails the same way. */
  lemma {:induction false} ReadRowsFailurePrefix<T>(cols: map<string, seq<T>>, column: string, rows: seq<int>, n: nat)
    requires n <= |rows| && ReadRows(cols, column, rows[..n]).Failure?
    ensures ReadRows(cols, column, rows) == ReadRows(cols, column, rows[..n])
  {
    if n < |rows| {
      var m := |rows| - 1;
      assert rows[..m][..n] == rows[..n];
      ReadRowsFailurePrefix(cols, column, rows[..m], n);
    } else {
      assert rows[..n] == rows;
    }
  }

  /** Rows that all exist read as their cells, in order. */
  lemma {:induction false} ReadRowsInRange<T>(cols: map<string, seq<T>>, column: string, rows: seq<int>)
    requires column in cols && forall k :: 0 <= k < |rows| ==> 0 <= rows[k] < |cols[column]|
    ensures var r := ReadRows(cols, column, rows);
      r.Success? && |r.value| == |rows| && forall k :: 0 <= k < |rows| ==> r.value[k] == cols[column][rows[k]]
  {
    if rows != [] {
      var m := |rows| - 1;
      ReadRowsInRange(cols, column, rows[..m]);
    }
  }

  /** Reading a missing row as the first one fails, whatever follows. */
  lemma {:induction false} ReadRowsFirstMissing<T>(cols: map<string, seq<T>>, column: string, rows: seq<int>)
    requires rows != [] && Cell(cols, column, rows[0]).Failure?
    ensures ReadRows(cols, column, rows) == Failure(NoSuchCell)
  {
    assert ReadRows(cols, column, rows[..1]) == Failure(NoSuchCell) by {
      assert rows[..1][..0] == [];
    }
    ReadRowsFailurePrefix(cols, column, rows, 1);
  }

  /** `tc[i]` is cell `i`, counted from the end when negative, or an `IndexError`. */
  lemma ReadIndex<T>(cols: map<string, seq<T>>, nrows: nat, column: string, i: int)
    requires Consistent(cols, nrows, column)
    ensures -(nrows as int) <= i < nrows ==>
      Read(cols, nrows, column, Index(i)) == Success(One(cols[column][if i < 0 then i + nrows else i]))
    ensures !(-(nrows as int) <= i < nrows) ==> Read(cols, nrows, column, Index(i)) == Failure(IndexError)
  {
  }

  /**
   * On a non-empty table a slice with a non-zero step reads the list of the
   * cells `strow + k * incr` for `k` below the row count.
   */
  lemma ReadSlice<T>(cols: map<string, seq<T>>, nrows: nat, column: string, key: Key)
    requires Consistent(cols, nrows, column) && nrows > 0 && key.Slice? && key.step != Some(0)
    ensures CheckKey(key, nrows).Success? && CheckKey(key, nrows).value.Rows?
    ensures var rows := RowNumbers(CheckKey(key, nrows).value); forall k :: 0 <= k < |rows| ==> 0 <= rows[k] < nrows
    ensures var sel := CheckKey(key, nrows).value;
      var r := Read(cols, nrows, column, key);
      r.Success? && r.value.Many? && |r.value.cells| == sel.count &&
      forall k :: 0 <= k < sel.count ==> r.value.cells[k] == cols[column][RowNumbers(sel)[k]]
  {
    ReadOfSlice(cols, nrows, column, key);
    var sel := CheckKey(key, nrows).value;
    var rows := RowNumbers(sel);
    SliceRowsInTable(key, nrows);
    assert |cols[column]| == nrows;
    ReadRowsInRange(cols, column, rows);
  }

  /** A slice reads as the rows its selection visits. */
  lemma ReadOfSlice<T>(cols: map<string, seq<T>>, nrows: nat, column: string, key: Key)
    requires key.Slice? && key.step != Some(0)
    ensures CheckKey(key, nrows).Success? && CheckKey(key, nrows).value.Rows?
    ensures var vals := ReadRows(cols, column, RowNumbers(CheckKey(key, nrows).value));
      Read(cols, nrows, column, key) == if vals.Success? then Success(Many(vals.value)) else Failure(vals.error)
  {
  }

  /**
   * On an empty table a slice reads an empty list, except a slice with a
   * given start, a positive step and no negative stop, which asks for row -1
   * and fails.
   */
  lemma ReadEmptyTable<T>(cols: map<string, seq<T>>, column: string, key: Key)
    requires Consistent(cols, 0, column) && key.Slice? && key.step != Some(0)
    ensures CheckKey(key, 0).Success?
    ensures var incr := CheckKey(key, 0).value.incr;
      Read(cols, 0, column, key) ==
        if key.start.Some? && incr > 0 && (key.stop.None? || key.stop.value >= 0) then Failure(NoSuchCell)
        else Success(Many([]))
  {
    var sel := CheckKey(key, 0).value;
    var rows := RowNumbers(sel);
    if rows == [] {
      if key.start.Some? && sel.incr > 0 && (key.stop.None? || key.stop.value >= 0) {
        RowCountIsRange(sel.start, EndRow(key.stop, sel.incr, 0), sel.incr, 0);
      }
    } else {
      assert rows[0] in rows;
      EmptyTableSlice(key);
      ReadRowsFirstMissing(cols, column, rows);
    }
  }

  /** Once a prefix of the writes fails, the rest are not made. */
  lemma {:induction false} WriteRowsFailurePrefix<T>(cols: map<string, seq<T>>, column: string, rows: seq<int>, vals: seq<T>, n: nat)
    requires |rows| == |vals| && n <= |rows|
    requires WriteRows(cols, column, rows[..n], vals[..n]).failure.Some?
    ensures WriteRows(cols, column, rows, vals) == WriteRows(cols, column, rows[..n], vals[..n])
  {
    if n < |rows| {
      var m := |rows| - 1;
      assert rows[..m][..n] == rows[..n];
      assert vals[..m][..n] == vals[..n];
      WriteRowsFailurePrefix(cols, column, rows[..m], vals[..m], n);
    } else {
      assert rows[..n] == rows;
      assert vals[..n] == vals;
    }
  }

  /** A write to a missing first row fails before anything is written. */
  lemma {:induction false} WriteRowsFirstMissing<T>(cols: map<string, seq<T>>, column: string, rows: seq<int>, vals: seq<T>)
    requires |rows| == |vals| && rows != [] && Cell(cols, column, rows[0]).Failure?
    ensures WriteRows(cols, column, rows, vals) == Outcome(cols, Some(NoSuchCell))
  {
    assert WriteRows(cols, column, rows[..1], vals[..1]) == Outcome(cols, Some(NoSuchCell)) by {
      assert rows[..1][..0] == [];
      assert vals[..1][..0] == [];
    }
    WriteRowsFailurePrefix(cols, column, rows, vals, 1);
  }

  /**
   * Writes to distinct existing rows all succeed: row `rows[k]` holds
   * `vals[k]`, every other cell and every other column is unchanged.
   */
  lemma {:induction false} WriteRowsInRange<T>(cols: map<string, seq<T>>, column: string, rows: seq<int>, vals: seq<T>)
    requires |rows| == |vals| && column in cols
    requires forall k :: 0 <= k < |rows| ==> 0 <= rows[k] < |cols[column]|
    requires forall j, k :: 0 <= j < k < |rows| ==> rows[j] != rows[k]
    ensures var w := WriteRows(cols, column, rows, vals);
      && w.failure == None
      && w.cols.Keys == cols.Keys
      && (forall c :: c in cols && c != column ==> w.cols[c] == cols[c])
      && |w.cols[column]| == |cols[column]|
      && (forall k :: 0 <= k < |rows| ==> w.cols[column][rows[k]] == vals[k])
      && (forall i :: 0 <= i < |cols[column]| && i !in rows ==> w.cols[column][i] == cols[column][i])
  {
    if rows != [] {
      var m := |rows| - 1;
      WriteRowsInRange(cols, column, rows[..m], vals[..m]);
      var w := WriteRows(cols, column, rows[..m], vals[..m]);
      var w' := WriteRows(cols, column, rows, vals);
      assert w'.cols == w.cols[column := w.cols[column][rows[m] := vals[m]]];
      forall k | 0 <= k < |rows|
        ensures w'.cols[column][rows[k]] == vals[k]
      {
        if k < m {
          assert rows[..m][k] == rows[k];
        }
      }
      forall i | 0 <= i < |cols[column]| && i !in rows
        ensures w'.cols[column][i] == cols[column][i]
      {
        assert i !in rows[..m];
      }
    }
  }

  /** Two different numbers of steps of a non-zero size end at different rows. */
  lemma StepsApart(start: int, incr: int, j: int, k: int)
    requires incr != 0 && j < k
    ensures start + j * incr != start + k * incr
  {
    var d := k - j;
    assert k * incr == j * incr + d * incr;
    if incr > 0 {
      assert (d - 1) * incr >= 0;
    } else {
      assert (d - 1) * incr <= 0;
    }
  }

  /** The rows of a slice are distinct. */
  lemma RowsDistinct(sel: Selection)
    requires sel.Rows? && sel.incr != 0
    ensures var rows := RowNumbers(sel); forall j, k :: 0 <= j < k < |rows| ==> rows[j] != rows[k]
  {
    var rows := RowNumbers(sel);
    forall j, k | 0 <= j < k < |rows|
      ensures rows[j] != rows[k]
    {
      StepsApart(sel.start, sel.incr, j, k);
    }
  }

  /** A write to an existing row or an error before any write leaves every column one cell per row. */
  lemma StoreKeepsConsistent<T>(cols: map<string, seq<T>>, nrows: nat, column: string, key: Key, value: T,
                                asList: T -> Option<seq<T>>)
    requires Consistent(cols, nrows, column)
    ensures Consistent(Store(cols, nrows, column, key, value, asList).cols, nrows, column)
    ensures Store(cols, nrows, column, key, value, asList).failure.Some? ==>
      Store(cols, nrows, column, key, value, asList).cols == cols
  {
    var ck := CheckKey(key, nrows);
    if ck.Success? && ck.value.Rows? {
      var sel := ck.value;
      var rows := RowNumbers(sel);
      var vals := match asList(value) case None => seq(sel.count, _ => value) case Some(list) => list;
      if |vals| == sel.count {
        if nrows > 0 {
          SliceRowsInTable(key, nrows);
          RowsDistinct(sel);
          WriteRowsInRange(cols, column, rows, vals);
        } else if rows != [] {
          assert rows[0] in rows;
          EmptyTableSlice(key);
          WriteRowsFirstMissing(cols, column, rows, vals);
        }
      }
    }
  }

  /**
   * On a non-empty table a slice assignment fails only when a list or tuple
   * value has another length than the slice; otherwise row `strow + k * incr`
   * takes the `k`-th element (or the value itself) and nothing else changes.
   */
  lemma StoreSlice<T>(cols: map<string, seq<T>>, nrows: nat, column: string, key: Key, value: T,
                      asList: T -> Option<seq<T>>)
    requires Consistent(cols, nrows, column) && nrows > 0 && key.Slice? && key.step != Some(0)
    ensures CheckKey(key, nrows).Success? && CheckKey(key, nrows).value.Rows?
    ensures var rows := RowNumbers(CheckKey(key, nrows).value); forall k :: 0 <= k < |rows| ==> 0 <= rows[k] < nrows
    ensures var o := Store(cols, nrows, column, key, value, asList);
      o.failure.Some? <==> asList(value).Some? && |asList(value).value| != CheckKey(key, nrows).value.count
    ensures var o := Store(cols, nrows, column, key, value, asList);
      o.failure.Some? ==> o == Outcome(cols, Some(LengthDiffers))
    ensures var o := Store(cols, nrows, column, key, value, asList);
      var rows := RowNumbers(CheckKey(key, nrows).value);
      o.failure.None? ==>
        && Consistent(o.cols, nrows, column)
        && o.cols.Keys == cols.Keys
        && (forall c :: c in cols && c != column ==> o.cols[c] == cols[c])
        && (forall k :: 0 <= k < |rows| ==>
              o.cols[column][rows[k]] == if asList(value).Some? then asList(value).value[k] else value)
        && (forall i :: 0 <= i < nrows && i !in rows ==> o.cols[column][i] == cols[column][i])
  {
    var sel := CheckKey(key, nrows).value;
    var rows := RowNumbers(sel);
    SliceRowsInTable(key, nrows);
    var vals := match asList(value) case None => seq(sel.count, _ => value) case Some(list) => list;
    if |vals| == sel.count {
      RowsDistinct(sel);
      WriteRowsInRange(cols, column, rows, vals);
    }
  }

  /** `tc[i] = value` writes cell `i`, counted from the end when negative, or raises an `IndexError`. */
  lemma StoreIndex<T>(cols: map<string, seq<T>>, nrows: nat, column: string, i: int, value: T,
                      asList: T -> Option<seq<T>>)
    requires Consistent(cols, nrows, column)
    ensures var o := Store(cols, nrows, column, Index(i), value, asList);
      && (o.failure.None? <==> -(nrows as int) <= i < nrows)
      && (o.failure.Some? ==> o == Outcome(cols, Some(IndexError)))
      && (o.failure.None? ==>
            var row := if i < 0 then i + nrows else i;
            o.cols == cols[column := cols[column][row := value]])
  {
  }

  // ---------------------------------------------------------------------------
  // The table and the column view

  /** A table: its name, its number of rows and the cells of each of its columns. */
  class Table<T> {
    const name: string
    var nrows: nat
    var columns: map<string, seq<T>>

    /** Every column holds one cell per row. */
    predicate Valid()
      reads this
    {
      forall c :: c in columns ==> |columns[c]| == nrows
    }

    constructor (name: string, nrows: nat, columns: map<string, seq<T>>)
      requires forall c :: c in columns ==> |columns[c]| == nrows
      ensures this.name == name && this.nrows == nrows && this.columns == columns
      ensures Valid()
    {
      this.name := name;
      this.nrows := nrows;
      this.columns := columns;
    }

    /** `putcell(column, row, value)`: writes one cell, or fails without writing. */
    method PutCell(column: string, row: int, value: T) returns (failure: Option<Error>)
      requires Valid()
      modifies this
      ensures Valid() && columns.Keys == old(columns.Keys)
      ensures var p := Put(old(columns), column, row, value);
        && columns == (if p.Success? then p.value else old(columns))
        && failure == (if p.Success? then None else Some(p.error))
      ensures nrows == old(nrows)
    {
      var p := Put(columns, column, row, value);
      if p.Success? {
        columns := p.value;
        failure := None;
      } else {
        failure := Some(p.error);
      }
    }
  }

  /** `tablecolumn`: one column of a table. */
  class TableColumn<T> {
    const table: Table<T>
    const column: string

    /** The view's column exists and the table keeps one cell per row in every column. */
    predicate Valid()
      reads table
    {
      Consistent(table.columns, table.nrows, column)
    }

    constructor (table: Table<T>, column: string)
      requires table.Valid() && column in table.columns
      ensures this.table == table && this.column == column
      ensures Valid()
    {
      this.table := table;
      this.column := column;
    }

    /** `tablecolumn(table, columnname)`: the view, or a failure when the table has no such column. */
    static method Open(table: Table<T>, column: string) returns (r: Result<TableColumn<T>, Error>)
      requires table.Valid()
      ensures r.Success? <==> column in table.columns
      ensures r.Failure? ==> r.error == RuntimeError("Column " + column + " does not exist in table " + table.name)
      ensures r.Success? ==> fresh(r.value) && r.value.table == table && r.value.column == column && r.value.Valid()
    {
      if column !in table.columns {
        return Failure(RuntimeError("Column " + column + " does not exist in table " + table.name));
      }
      var tc := new TableColumn(table, column);
      return Success(tc);
    }

    /** `len(tc)`: the number of rows, which is the number of cells in the column. */
    function Len(): (n: nat)
      requires Valid()
      reads table
      ensures n == |table.columns[column]|
    {
      table.nrows
    }

    /** `tc[key]`: one cell, or the list of the cells of a slice read row by row. */
    method GetItem(key: Key) returns (r: Result<Item<T>, Error>)
      requires Valid()
      ensures r == Read(table.columns, table.nrows, column, key)
    {
      var sei := CheckKey(key, table.nrows);
      if sei.Failure? {
        return Failure(sei.error);
      }
      match sei.value
      case Row(row) =>
        var c := Cell(table.columns, column, row);
        r := if c.Success? then Success(One(c.value)) else Failure(c.error);
      case Rows(start, count, incr) =>
        ghost var rows := RowNumbers(sei.value);
        var result := [];
        var rownr := start;
        var inx := 0;
        while inx < count
          invariant 0 <= inx <= count && rownr == start + inx * incr
          invariant ReadRows(table.columns, column, rows[..inx]) == Success(result)
        {
          var c := Cell(table.columns, column, rownr);
          ReadRowsSnoc(table.columns, column, rows, inx, result);
          if c.Failure? {
            ReadRowsFailurePrefix(table.columns, column, rows, inx + 1);
            return Failure(c.error);
          }
          result := result + [c.value];
          assert start + (inx + 1) * incr == rownr + incr;
          rownr := rownr + incr;
          inx := inx + 1;
        }
        assert rows[..count] == rows;
        r := Success(Many(result));
    }

    /**
     * `tc[key] = value`: one cell, or the rows of a slice written one by one
     * with the elements of a list or tuple value (`asList`) or else with the
     * value itself.
     */
    method SetItem(key: Key, value: T, asList: T -> Option<seq<T>>) returns (failure: Option<Error>)
      requires Valid()
      modifies table
      ensures Valid()
      ensures var o := Store(old(table.columns), old(table.nrows), column, key, value, asList);
        table.columns == o.cols && failure == o.failure
      ensures table.nrows == old(table.nrows)
    {
      var sei := CheckKey(key, table.nrows);
      if sei.Failure? {
        return Some(sei.error);
      }
      match sei.value
      case Row(row) =>
        failure := table.PutCell(column, row, value);
      case Rows(_, count, _) =>
        var list := asList(value);
        if list.None? {
          failure := PutRows(sei.value, seq(count, _ => value));
        } else if |list.value| != count {
          failure := Some(LengthDiffers);
        } else {
          failure := PutRows(sei.value, list.value);
        }
    }

    /** Writes `vals[k]` to the `k`-th row of a slice, stopping at the first missing cell. */
    method PutRows(sel: Selection, vals: seq<T>) returns (failure: Option<Error>)
      requires Valid() && sel.Rows? && |vals| == sel.count
      modifies table
      ensures Valid()
      ensures var o := WriteRows(old(table.columns), column, RowNumbers(sel), vals);
        table.columns == o.cols && failure == o.failure
      ensures table.nrows == old(table.nrows)
    {
      ghost var cols0 := table.columns;
      ghost var rows := RowNumbers(sel);
      var rownr := sel.start;
      var inx := 0;
      failure := None;
      while inx < sel.count
        invariant 0 <= inx <= sel.count && rownr == sel.start + inx * sel.incr
        invariant WriteRows(cols0, column, rows[..inx], vals[..inx]) == Outcome(table.columns, None)
        invariant failure == None && table.nrows == old(table.nrows) && Valid()
      {
        assert rownr == rows[inx];
        WriteRowsSnoc(cols0, column, rows, vals, inx, table.columns);
        ghost var put := Put(table.columns, column, rownr, vals[inx]);
        failure := table.PutCell(column, rownr, vals[inx]);
        if failure.Some? {
          WriteRowsFailurePrefix(cols0, column, rows, vals, inx + 1);
          return;
        }
        assert table.columns == put.value;
        assert sel.start + (inx + 1) * sel.incr == rownr + sel.incr;
        rownr := rownr + sel.incr;
        inx := inx + 1;
      }
      assert rows[..inx] == rows;
      assert vals[..inx] == vals;
    }
  }
}
