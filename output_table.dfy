/**
 * The tail of `main`: `pd.DataFrame(rows)`, the reordering that puts the five
 * base columns first, and the count of rows with an error.
 *
 * `SelectColumns` / `ColumnsAsWritten` model the reordering as written, which
 * raises `KeyError` when there are no rows; `OutputColumns` is the corrected
 * assembly that `Run` uses.
 */
module OutputTable {
  import opened Wrappers
  import opened Enrichment

  const BaseColumns: seq<string> := ["owner", "vestingId", "account", "amount", "amountClaimed"]
  const ErrorColumn: string := "error"

  /** The keys of one appended dict, in insertion order. */
  function RowKeys(r: OutputRow): seq<string>
  {
    BaseColumns + (if r.error.Some? then [ErrorColumn] else [])
  }

  /** Adds each of `keys` not yet in `cols` at the end, in order. */
  function Union(cols: seq<string>, keys: seq<string>): (r: seq<string>)
    ensures cols <= r
    ensures forall k :: k in keys ==> k in r
    ensures forall c :: c in r ==> c in cols || c in keys
    decreases |keys|
  {
    if keys == [] then cols
    else if keys[0] in cols then Union(cols, keys[1..])
    else
      var r := Union(cols + [keys[0]], keys[1..]);
      assert r[|cols|] == keys[0];
      assert forall k :: k in keys ==> k == keys[0] || k in keys[1..];
      r
  }

  /** The columns of `pd.DataFrame(rows)`: every key of every row, in order of first appearance. */
  function FrameColumns(rows: seq<OutputRow>): seq<string>
  {
    if rows == [] then [] else Union(FrameColumns(rows[..|rows| - 1]), RowKeys(rows[|rows| - 1]))
  }

  /** `[c for c in cols if c not in base_cols]` */
  function ExtraColumns(cols: seq<string>): (r: seq<string>)
    ensures forall c :: c in r <==> c in cols && c !in BaseColumns
    ensures |r| <= |cols|
  {
    if cols == [] then []
    else (if cols[0] in BaseColumns then [] else [cols[0]]) + ExtraColumns(cols[1..])
  }

  /** The requested columns that the frame does not have. */
  function Missing(cols: seq<string>, wanted: seq<string>): (r: seq<string>)
    ensures forall c :: c in r <==> c in wanted && c !in cols
  {
    if wanted == [] then []
    else (if wanted[0] in cols then [] else [wanted[0]]) + Missing(cols, wanted[1..])
  }

  /** `out_df[wanted]`: the reordered columns, or the `KeyError` naming the absent ones. */
  function SelectColumns(cols: seq<string>, wanted: seq<string>): (r: Result<seq<string>, seq<string>>)
    ensures r.Ok? <==> forall c :: c in wanted ==> c in cols
    ensures r.Ok? ==> r.value == wanted
  {
    var absent := Missing(cols, wanted);
    if absent == [] then Ok(wanted)
    else
      assert absent[0] in absent;
      Err(absent)
  }

  /** The column list of the written CSV, as the source computes it. */
  function ColumnsAsWritten(rows: seq<OutputRow>): Result<seq<string>, seq<string>>
  {
    var cols := FrameColumns(rows);
    SelectColumns(cols, BaseColumns + ExtraColumns(cols))
  }

  /** The base columns, then the frame's other columns in their order; defined for an empty table too. */
  function OutputColumns(rows: seq<OutputRow>): seq<string>
  {
    BaseColumns + ExtraColumns(FrameColumns(rows))
  }

  /** The number of rows with an `error` value: `out_df["error"].notna().sum()`. */
  function ErrorCount(rows: seq<OutputRow>): (n: nat)
    ensures n <= |rows|
  {
    if rows == [] then 0
    else ErrorCount(rows[..|rows| - 1]) + (if rows[|rows| - 1].error.Some? then 1 else 0)
  }

  /** The count the closing warning reports, or `None` when no warning is printed. */
  function Warning(columns: seq<string>, rows: seq<OutputRow>): Option<nat>
  {
    if ErrorColumn in columns && ErrorCount(rows) != 0 then Some(ErrorCount(rows)) else None
  }

  lemma BaseColumnsDistinct()
    ensures forall i, j :: 0 <= i < j < |BaseColumns| ==> BaseColumns[i] != BaseColumns[j]
    ensures ErrorColumn !in BaseColumns
  {
  }

  /** Keys already present add nothing. */
  lemma {:induction false} UnionPresent(cols: seq<string>, keys: seq<string>)
    requires forall k :: k in keys ==> k in cols
    ensures Union(cols, keys) == cols
    decreases |keys|
  {
    if keys != [] {
      UnionPresent(cols, keys[1..]);
    }
  }

  /** Distinct new keys are appended as they are. */
  lemma {:induction false} UnionFresh(cols: seq<string>, keys: seq<string>)
    requires forall k :: k in keys ==> k !in cols
    requires forall i, j :: 0 <= i < j < |keys| ==> keys[i] != keys[j]
    ensures Union(cols, keys) == cols + keys
    decreases |keys|
  {
    if keys != [] {
      assert keys[0] !in cols;
      forall k | k in keys[1..] ensures k !in cols + [keys[0]] {
        var j :| 0 <= j < |keys[1..]| && keys[1..][j] == k;
        assert keys[j + 1] != keys[0];
      }
      UnionFresh(cols + [keys[0]], keys[1..]);
      assert cols + [keys[0]] + keys[1..] == cols + keys;
    }
  }

  lemma {:induction false} UnionAppend(cols: seq<string>, keys1: seq<string>, keys2: seq<string>)
    ensures Union(cols, keys1 + keys2) == Union(Union(cols, keys1), keys2)
    decreases |keys1|
  {
    if keys1 == [] {
      assert keys1 + keys2 == keys2;
    } else {
      assert (keys1 + keys2)[1..] == keys1[1..] + keys2;
      if keys1[0] in cols {
        UnionAppend(cols, keys1[1..], keys2);
      } else {
        UnionAppend(cols + [keys1[0]], keys1[1..], keys2);
      }
    }
  }

  /** Adding one row's keys to the columns so far: the error column appears once, the first time it is needed. */
  lemma UnionRowKeys(e1: bool, r: OutputRow)
    ensures Union(BaseColumns + (if e1 then [ErrorColumn] else []), RowKeys(r))
         == BaseColumns + (if e1 || r.error.Some? then [ErrorColumn] else [])
  {
    BaseColumnsDistinct();
    var cols := BaseColumns + (if e1 then [ErrorColumn] else []);
    var extra: seq<string> := if r.error.Some? then [ErrorColumn] else [];
    UnionAppend(cols, BaseColumns, extra);
    UnionPresent(cols, BaseColumns);
    if r.error.Some? {
      if e1 {
        UnionPresent(cols, extra);
      } else {
        UnionFresh(cols, extra);
      }
    }
  }

  /**
   * A non-empty table has the five base columns in order, followed by `error`
   * exactly when some row failed.
   */
  lemma {:induction false} FrameColumnsShape(rows: seq<OutputRow>)
    requires rows != []
    ensures FrameColumns(rows) == BaseColumns + (if ErrorCount(rows) > 0 then [ErrorColumn] else [])
    decreases |rows|
  {
    var init := rows[..|rows| - 1];
    var last := rows[|rows| - 1];
    BaseColumnsDistinct();
    if init == [] {
      UnionFresh([], RowKeys(last));
      assert [] + RowKeys(last) == RowKeys(last);
    } else {
      FrameColumnsShape(init);
      UnionRowKeys(ErrorCount(init) > 0, last);
    }
  }

  lemma {:induction false} ExtraColumnsAppend(a: seq<string>, b: seq<string>)
    ensures ExtraColumns(a + b) == ExtraColumns(a) + ExtraColumns(b)
    decreases |a|
  {
    if a == [] {
      assert a + b == b;
    } else {
      assert (a + b)[1..] == a[1..] + b;
      ExtraColumnsAppend(a[1..], b);
    }
  }

  /** Of the frame's columns, only `error` is extra, and only when some row failed. */
  lemma ExtraColumnsOfFrame(rows: seq<OutputRow>)
    ensures ExtraColumns(FrameColumns(rows)) == if ErrorCount(rows) > 0 then [ErrorColumn] else []
  {
    BaseColumnsDistinct();
    if rows != [] {
      FrameColumnsShape(rows);
      var extra: seq<string> := if ErrorCount(rows) > 0 then [ErrorColumn] else [];
      ExtraColumnsAppend(BaseColumns, extra);
      assert ExtraColumns(BaseColumns) == [];
    }
  }

  /**
   * As written, the reordering succeeds on every non-empty table, giving the base
   * columns then `error` if some row failed, and raises `KeyError` for all five
   * base columns on an empty one.
   */
  lemma ColumnsAsWrittenShape(rows: seq<OutputRow>)
    ensures rows == [] ==> ColumnsAsWritten(rows) == Err(BaseColumns)
    ensures rows != [] ==>
      ColumnsAsWritten(rows) == Ok(BaseColumns + (if ErrorCount(rows) > 0 then [ErrorColumn] else []))
  {
    ExtraColumnsOfFrame(rows);
    if rows == [] {
      var wanted := BaseColumns + ExtraColumns([]);
      assert wanted == BaseColumns;
      MissingNone(wanted);
    } else {
      FrameColumnsShape(rows);
    }
  }

  lemma {:induction false} MissingNone(wanted: seq<string>)
    ensures Missing([], wanted) == wanted
    decreases |wanted|
  {
    if wanted != [] {
      MissingNone(wanted[1..]);
      assert [wanted[0]] + wanted[1..] == wanted;
    }
  }

  /**
   * The corrected assembly: the base columns, then `error` exactly when some row
   * failed, for every table; it agrees with the source's whenever that succeeds.
   */
  lemma OutputColumnsShape(rows: seq<OutputRow>)
    ensures OutputColumns(rows) == BaseColumns + (if ErrorCount(rows) > 0 then [ErrorColumn] else [])
    ensures ColumnsAsWritten(rows).Ok? ==> ColumnsAsWritten(rows).value == OutputColumns(rows)
  {
    ExtraColumnsOfFrame(rows);
    ColumnsAsWrittenShape(rows);
  }

  /** The warning is printed exactly when some row failed, and reports how many did. */
  lemma WarningCountsFailures(rows: seq<OutputRow>)
    ensures Warning(OutputColumns(rows), rows) == if ErrorCount(rows) > 0 then Some(ErrorCount(rows)) else None
  {
    OutputColumnsShape(rows);
    BaseColumnsDistinct();
  }

  /** Every failure row, and no success row, is counted. */
  lemma {:induction false} ErrorCountOfEnriched(input: seq<InputRow>, lookup: Accessor, rows: seq<OutputRow>)
    requires |rows| == |input|
    requires forall k :: 0 <= k < |input| ==> rows[k] == EnrichRow(input[k], lookup)
    ensures ErrorCount(rows) == FailedInputs(input, lookup)
    decreases |input|
  {
    if input != [] {
      var n := |input| - 1;
      ErrorCountOfEnriched(input[..n], lookup, rows[..n]);
    }
  }

  /**
   * From the rows of the input table to the written table: one row per input
   * row in order, the base columns then `error` if some row failed, and the
   * number of failed rows for the warning.
   */
  method Run(input: seq<InputRow>, lookup: Accessor)
    returns (rows: seq<OutputRow>, columns: seq<string>, warning: Option<nat>)
    ensures |rows| == |input|
    ensures forall k :: 0 <= k < |input| ==> rows[k] == EnrichRow(input[k], lookup)
    ensures columns == BaseColumns + (if FailedInputs(input, lookup) > 0 then [ErrorColumn] else [])
    ensures warning == if FailedInputs(input, lookup) > 0 then Some(FailedInputs(input, lookup)) else None
  {
    ghost var calls;
    rows, calls := EnrichRows(input, lookup);
    columns := OutputColumns(rows);
    warning := Warning(columns, rows);
    ErrorCountOfEnriched(input, lookup, rows);
    OutputColumnsShape(rows);
    WarningCountsFailures(rows);
  }
}
