/**
 * The in-memory form of a CSV file as `pd.read_csv(path, dtype=str)` gives it:
 * a list of column names and rows of text cells, a cell being absent (NaN)
 * where the reader found no value. A stage whose input file does not exist
 * receives `None` in place of the table.
 */
module Tables {
  import opened Wrappers
  import opened Seqs

  type Cell = Option<string>
  type Row = map<string, Cell>

  datatype Table = Table(columns: seq<string>, rows: seq<Row>)

  /** The cell of `row` in column `col`; a row without that column reads as NaN. */
  function Get(row: Row, col: string): Cell {
    if col in row then row[col] else None
  }

  /** `astype(str)`: the text pandas gives a cell; NaN becomes "nan". */
  function AsText(c: Cell): string {
    if c.None? then "nan" else c.value
  }

  /** `fillna("")`. */
  function OrEmpty(c: Cell): string {
    if c.None? then "" else c.value
  }

  /** One column of a table, top to bottom. */
  function ColumnOf(rows: seq<Row>, col: string): (cells: seq<Cell>)
    ensures |cells| == |rows| && forall i :: 0 <= i < |rows| ==> cells[i] == Get(rows[i], col)
  {
    seq(|rows|, i requires 0 <= i < |rows| => Get(rows[i], col))
  }

  /**
   * `df[c] = ...` for a new column: appended after the existing ones, unless a
   * column of that name exists, which is then overwritten in place.
   */
  function AddColumn(columns: seq<string>, c: string): (r: seq<string>)
    ensures |r| >= |columns| && r[..|columns|] == columns
    ensures forall x :: x in r <==> x in columns || x == c
    ensures c in columns ==> r == columns
  {
    if c in columns then columns else columns + [c]
  }

  /** New columns assigned one after another. */
  function AddColumns(columns: seq<string>, names: seq<string>): (r: seq<string>)
    ensures |r| >= |columns| && r[..|columns|] == columns
    ensures forall x :: x in r <==> x in columns || x in names
    decreases |names|
  {
    if names == [] then columns
    else
      var c := AddColumn(columns, names[0]);
      var r := AddColumns(c, names[1..]);
      assert r[..|columns|] == r[..|c|][..|columns|];
      assert forall x :: x in names <==> x == names[0] || x in names[1..];
      r
  }

  /** Why a stage stops before producing any output. */
  datatype StageError =
    | InputMissing                         // FileNotFoundError: the input file does not exist
    | ColumnsMissing(names: seq<string>)   // ValueError listing every absent required column
    | ColumnMissing(name: string)          // KeyError from reading an absent column

  /** `[c for c in required if c not in columns]`. */
  function MissingColumns(required: seq<string>, columns: seq<string>): (m: seq<string>)
    ensures forall c :: c in m <==> c in required && c !in columns
    ensures IsSubsequence(m, required)
  {
    FilterIsSubsequence(required, c => c !in columns);
    Filter(required, c => c !in columns)
  }

  /** Nothing is missing exactly when every required column is present. */
  lemma NoMissingColumns(required: seq<string>, columns: seq<string>)
    ensures MissingColumns(required, columns) == [] <==> forall c :: c in required ==> c in columns
  {
    var m := MissingColumns(required, columns);
    if m != [] {
      assert m[0] in m;
    }
  }

  /**
   * A stage that reads the columns `used` one after another raises a KeyError
   * at the first one the table lacks: its index, or |used| when all are there.
   */
  function FirstAbsent(used: seq<string>, columns: seq<string>): (k: nat)
    ensures k <= |used|
    ensures forall j :: 0 <= j < k ==> used[j] in columns
    ensures k < |used| ==> used[k] !in columns
  {
    if used == [] || used[0] !in columns then 0 else 1 + FirstAbsent(used[1..], columns)
  }

  /** The stage's outcome when it reads the columns `used` in this order. */
  function ReadColumns(used: seq<string>, columns: seq<string>): (r: Option<StageError>)
    ensures r.None? <==> forall c :: c in used ==> c in columns
    ensures r.Some? ==> r.value == ColumnMissing(used[FirstAbsent(used, columns)])
  {
    var k := FirstAbsent(used, columns);
    if k < |used| then Some(ColumnMissing(used[k])) else None
  }

  /** Reading starts with the first column: its absence stops the stage, its presence moves on. */
  lemma ReadColumnsCons(used: seq<string>, columns: seq<string>)
    requires used != []
    ensures ReadColumns(used, columns) ==
      if used[0] !in columns then Some(ColumnMissing(used[0])) else ReadColumns(used[1..], columns)
  {
    if used[0] in columns {
      assert FirstAbsent(used, columns) == 1 + FirstAbsent(used[1..], columns);
    }
  }

  /** The KeyError names the first absent column: the one at `i` when all before it are present. */
  lemma ReadColumnsAt(used: seq<string>, columns: seq<string>, i: nat)
    requires i < |used| && used[i] !in columns
    requires forall k :: 0 <= k < i ==> used[k] in columns
    ensures ReadColumns(used, columns) == Some(ColumnMissing(used[i]))
  {
  }
}
