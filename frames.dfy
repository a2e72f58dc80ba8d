/**
  A minimal in-memory data frame: an ordered list of distinct column names and
  a list of rows, each row a map from column name to cell. The pipeline's
  in-place column assignments (`df[c] = values`, `df[cols] = block`) and
  `drop(c, axis=1, inplace=True)` are methods that update the frame's fields.
 */
module Frames {
  import opened Seqs

  /** One cell: an integer id or day ordinal, a quantity, a text key, or a missing value (NaN/None). */
  datatype Cell = Int(i: int) | Num(x: real) | Text(s: string) | Missing

  type Row = map<string, Cell>

  /** Failures raised by the table operations of the pipeline. */
  datatype FrameError =
    | EmptyTable                                  // a calendar range over no dates
    | DuplicateLabels                             // reindexing a non-unique (ds, shop_id, item_id) index
    | MissingColumn(column: string)               // KeyError on a column lookup
    | MissingTag(tag: string)                     // KeyError on the tags dictionary
    | ColumnCountMismatch(expected: nat, actual: nat)  // "Columns must be same length as key"
    | NonTextId                                   // the `.str` accessor on a non-string id

  datatype Result<T> = Ok(value: T) | Err(error: FrameError)

  /** Every row has exactly the frame's columns as keys, and no column is named twice. */
  predicate WellFormed(columns: seq<string>, rows: seq<Row>) {
    && Distinct(columns)
    && forall i :: 0 <= i < |rows| ==> rows[i].Keys == Elements(columns)
  }

  /** The column list after dropping `name`. */
  function Without(columns: seq<string>, name: string): (r: seq<string>)
    ensures forall c :: c in r <==> c in columns && c != name
    ensures Distinct(columns) ==> Distinct(r)
    ensures name !in columns ==> r == columns
  {
    if columns == [] then []
    else
      var rest := Without(columns[1..], name);
      assert Distinct(columns) ==> Distinct(columns[1..]) && columns[0] !in columns[1..];
      if columns[0] == name then rest else [columns[0]] + rest
  }

  /** Dropping a name that occurs once removes just that occurrence. */
  lemma {:induction false} WithoutOne(before: seq<string>, name: string, after: seq<string>)
    requires name !in before && name !in after
    ensures Without(before + [name] + after, name) == before + after
    decreases |before|
  {
    if before == [] {
      assert ([] + [name] + after)[1..] == after;
    } else {
      WithoutOne(before[1..], name, after);
      assert (before + [name] + after)[1..] == before[1..] + [name] + after;
      assert [before[0]] + (before[1..] + after) == before + after;
    }
  }

  /** The column list after assigning `names` as a block: new names are appended in order. */
  function WithColumns(columns: seq<string>, names: seq<string>): (r: seq<string>)
    ensures forall c :: c in r <==> c in columns || c in names
    ensures Distinct(columns) && Distinct(names) ==> Distinct(r)
    ensures |r| >= |columns| && r[..|columns|] == columns
    decreases |names|
  {
    if names == [] then columns
    else
      var last := names[|names| - 1];
      var init := names[..|names| - 1];
      assert names == init + [last];
      var r := WithColumns(columns, init);
      if last in r then r else r + [last]
  }

  /** The cells of `row` under `cols`: one row of `df[cols]`. */
  function Project(row: Row, cols: seq<string>): (r: Row)
    requires forall c :: c in cols ==> c in row
    ensures r.Keys == Elements(cols)
    ensures forall c :: c in cols ==> r[c] == row[c]
  {
    map c | c in cols :: row[c]
  }

  /** The cells that a block assignment `df[names] = ...` writes into one row. */
  function Assign(names: seq<string>, cells: seq<Cell>): (r: Row)
    requires Distinct(names) && |cells| == |names|
    ensures r.Keys == Elements(names)
    ensures forall k :: 0 <= k < |names| ==> r[names[k]] == cells[k]
  {
    map k | 0 <= k < |names| :: names[k] := cells[k]
  }

  class Frame {
    var columns: seq<string>
    var rows: seq<Row>

    ghost predicate Valid()
      reads this
    {
      WellFormed(columns, rows)
    }

    constructor (columns: seq<string>, rows: seq<Row>)
      requires WellFormed(columns, rows)
      ensures Valid()
      ensures this.columns == columns && this.rows == rows
    {
      this.columns := columns;
      this.rows := rows;
    }

    /** `df[name] = values`: overwrite the column if present, otherwise append it. */
    method SetColumn(name: string, values: seq<Cell>)
      requires Valid() && |values| == |rows|
      modifies this
      ensures Valid()
      ensures columns == WithColumns(old(columns), [name])
      ensures |rows| == |old(rows)|
      ensures forall i :: 0 <= i < |rows| ==> rows[i] == old(rows)[i][name := values[i]]
    {
      assert WithColumns(columns, [name]) == WithColumns(columns, [])
        + (if name in columns then [] else [name]);
      columns := WithColumns(columns, [name]);
      var before := rows;
      rows := seq(|before|, i requires 0 <= i < |before| => before[i][name := values[i]]);
    }

    /** `df[names] = block`: overwrite or append several columns at once. */
    method SetColumns(names: seq<string>, block: seq<seq<Cell>>)
      requires Valid() && Distinct(names) && |block| == |rows|
      requires forall i :: 0 <= i < |block| ==> |block[i]| == |names|
      modifies this
      ensures Valid()
      ensures columns == WithColumns(old(columns), names)
      ensures |rows| == |old(rows)|
      ensures forall i :: 0 <= i < |rows| ==> rows[i] == old(rows)[i] + Assign(names, block[i])
    {
      columns := WithColumns(columns, names);
      var before := rows;
      rows := seq(|before|, i requires 0 <= i < |before| => before[i] + Assign(names, block[i]));
    }

    /** `df.drop(name, axis=1, inplace=True)`; `ok` is false (KeyError) and nothing changes when the column is absent. */
    method DropColumn(name: string) returns (ok: bool)
      requires Valid()
      modifies this
      ensures Valid()
      ensures ok == (name in old(columns))
      ensures columns == Without(old(columns), name)
      ensures |rows| == |old(rows)|
      ensures forall i :: 0 <= i < |rows| ==> rows[i] == old(rows)[i] - {name}
    {
      ok := name in columns;
      columns := Without(columns, name);
      var before := rows;
      rows := seq(|before|, i requires 0 <= i < |before| => before[i] - {name});
    }

    /** `df[cols]`: a new frame holding the named columns in the given order; KeyError when one is absent. */
    method Select(cols: seq<string>) returns (r: Result<Frame>)
      requires Valid() && Distinct(cols)
      ensures r.Ok? <==> forall c :: c in cols ==> c in columns
      ensures r.Err? ==> r.error.MissingColumn? && r.error.column in cols && r.error.column !in columns
      ensures r.Ok? ==> fresh(r.value) && r.value.Valid() && r.value.columns == cols
      ensures r.Ok? ==> |r.value.rows| == |rows|
      ensures r.Ok? ==> forall i :: 0 <= i < |rows| ==> r.value.rows[i] == Project(rows[i], cols)
    {
      if c :| c in cols && c !in columns {
        return Err(MissingColumn(c));
      }
      var source := rows;
      var projected := seq(|source|, i requires 0 <= i < |source| => Project(source[i], cols));
      var f := new Frame(cols, projected);
      return Ok(f);
    }
  }
}
