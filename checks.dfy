/**
 * What the two validators share: the PASS/FAIL check record, the detail
 * texts, and the completeness count `isna().sum() + (astype(str).str.strip()
 * == "").sum()` with the loop that appends one such check per column.
 */
module Checks {
  import opened Wrappers
  import opened Text
  import opened Numbers
  import opened Seqs
  import opened Tables

  datatype Verdict = Pass | Fail

  /** One line of a quality report: `check`, `result`, `details`. */
  datatype Check = Check(name: string, result: Verdict, details: string)

  function VerdictOf(ok: bool): (v: Verdict)
    ensures v == Pass <==> ok
  {
    if ok then Pass else Fail
  }

  /** `f"{key}={n}"`. */
  function CountDetail(key: string, n: nat): string {
    key + "=" + NatToString(n)
  }

  /** The count can be read back from its detail text. */
  lemma CountDetailRoundTrip(key: string, n: nat)
    ensures var d := CountDetail(key, n);
      |d| > |key| + 1 && d[..|key|] == key && d[|key|] == '=' && ParseNumber(d[|key| + 1..]) == Some(n as real)
  {
    var d := CountDetail(key, n);
    assert d[|key| + 1..] == NatToString(n);
    ParseNatToString(n);
  }

  /** The names of a report's checks, in order. */
  function Names(checks: seq<Check>): seq<string> {
    Map((c: Check) => c.name, checks)
  }

  // ----------------------------------------------------------- completeness

  /** `col.isna()`. */
  function NaMask(cells: seq<Cell>): seq<bool> {
    Map((c: Cell) => c.None?, cells)
  }

  /** `col.astype(str).str.strip() == ""`; a NaN cell reads "nan" here and so is not blank. */
  predicate BlankText(c: Cell) {
    Strip(AsText(c)) == ""
  }

  function BlankMask(cells: seq<Cell>): seq<bool> {
    Map(BlankText, cells)
  }

  /** The validators' count of missing cells: absent ones plus whitespace-only ones. */
  function MissingCount(cells: seq<Cell>): nat {
    CountTrue(NaMask(cells)) + CountTrue(BlankMask(cells))
  }

  /** A cell that is absent or holds only whitespace. */
  predicate MissingCell(c: Cell) {
    c.None? || IsBlank(c.value)
  }

  /**
   * The two sums never count the same row twice, so the missing count is the
   * number of missing cells: at most the row count, and 0 exactly when no
   * cell is missing.
   */
  lemma MissingCountSpec(cells: seq<Cell>)
    ensures MissingCount(cells) == CountTrue(Map(MissingCell, cells))
    ensures MissingCount(cells) <= |cells|
    ensures MissingCount(cells) == 0 <==> forall i :: 0 <= i < |cells| ==> !MissingCell(cells[i])
  {
    var na, blank := NaMask(cells), BlankMask(cells);
    forall i | 0 <= i < |cells| ensures !(na[i] && blank[i]) && (MissingCell(cells[i]) <==> na[i] || blank[i]) {
      StripEmptyIff(AsText(cells[i]));
      assert IsSpace('n') == false;
      if cells[i].None? {
        assert AsText(cells[i])[0] == 'n';
      }
    }
    CountTrueDisjoint(na, blank);
    assert Or(na, blank) == Map(MissingCell, cells);
    CountTrueZero(Map(MissingCell, cells));
  }

  /** `missing_<col>`: PASS exactly when the column has no missing cell. */
  function MissingCheck(rows: seq<Row>, col: string): Check {
    var missing := MissingCount(ColumnOf(rows, col));
    Check("missing_" + col, VerdictOf(missing == 0), CountDetail("missing", missing))
  }

  lemma MissingCheckPasses(rows: seq<Row>, col: string)
    ensures MissingCheck(rows, col).result == Pass <==> forall i :: 0 <= i < |rows| ==> !MissingCell(Get(rows[i], col))
  {
    MissingCountSpec(ColumnOf(rows, col));
  }

  function MissingCheckOf(rows: seq<Row>): string -> Check {
    col => MissingCheck(rows, col)
  }

  /** One missing check per column, in the order of `cols`. */
  function MissingChecks(rows: seq<Row>, cols: seq<string>): seq<Check> {
    Map(MissingCheckOf(rows), cols)
  }

  /** The outcome of reading `cols` one by one and appending a missing check for each. */
  function WithMissingChecks(checks: seq<Check>, t: Table, cols: seq<string>): Result<seq<Check>, StageError> {
    var err := ReadColumns(cols, t.columns);
    if err.Some? then Failure(err.value) else Success(checks + MissingChecks(t.rows, cols))
  }

  /** `for col in cols: missing = ...; checks.append(...)`; a KeyError at the first absent column. */
  method AppendMissingChecks(checks: seq<Check>, t: Table, cols: seq<string>) returns (r: Result<seq<Check>, StageError>)
    ensures r == WithMissingChecks(checks, t, cols)
  {
    var added: seq<Check> := [];
    for i := 0 to |cols|
      invariant forall k :: 0 <= k < i ==> cols[k] in t.columns
      invariant added == MissingChecks(t.rows, cols[..i])
    {
      if cols[i] !in t.columns {
        ReadColumnsAt(cols, t.columns, i);
        return Failure(ColumnMissing(cols[i]));
      }
      added := AppendMissingCheck(added, t.rows, cols, i);
    }
    assert cols[..|cols|] == cols;
    assert forall c :: c in cols ==> c in t.columns;
    r := Success(checks + added);
  }

  /** One step of the loop: the missing check of `cols[i]` appended. */
  method AppendMissingCheck(added: seq<Check>, rows: seq<Row>, cols: seq<string>, i: nat) returns (out: seq<Check>)
    requires i < |cols| && added == MissingChecks(rows, cols[..i])
    ensures out == MissingChecks(rows, cols[..i + 1])
  {
    MapSnoc(MissingCheckOf(rows), cols, i);
    out := added + [MissingCheck(rows, cols[i])];
  }
}
