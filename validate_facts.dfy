/**
 * The fact table validator
 * (pipeline/quality_engine/02_validate_retailer_year_facts.py): an ordered
 * list of PASS/FAIL checks on row count, identity completeness, key
 * uniqueness, year range, and coverage and sign of the two KPI inputs.
 */
module FactValidation {
  import opened Wrappers
  import opened Numbers
  import opened Seqs
  import opened Tables
  import opened Checks

  /** The identity columns checked for completeness, in report order. */
  const IdentityColumns: seq<string> := ["company_id", "company_name", "year"]

  /** The metric columns whose coverage and sign are checked, in report order. */
  const MetricColumns: seq<string> := ["revenue", "employees"]

  const MinYear: real := 2000.0
  const MaxYear: real := 2026.0

  // ---------------------------------------------------------- fixed checks

  function RowsCheck(rows: seq<Row>): (c: Check)
    ensures c.result == Pass <==> |rows| > 0
  {
    Check("rows_gt_0", VerdictOf(|rows| > 0), CountDetail("rows", |rows|))
  }

  /** The (company_id, year) key of a row, as text; two absent cells compare equal in `duplicated`. */
  function KeyPair(r: Row): (Cell, Cell) {
    (Get(r, "company_id"), Get(r, "year"))
  }

  function KeyPairs(rows: seq<Row>): seq<(Cell, Cell)> {
    Map(KeyPair, rows)
  }

  function DuplicateKeyCount(rows: seq<Row>): nat {
    CountTrue(DuplicatedMask(KeyPairs(rows)))
  }

  function UniqueKeyCheck(rows: seq<Row>): Check {
    var dup := DuplicateKeyCount(rows);
    Check("unique_company_year", VerdictOf(dup == 0), CountDetail("duplicates", dup))
  }

  /**
   * The duplicate count is the row count less the number of distinct
   * (company_id, year) pairs; the check passes exactly when the pairs are
   * pairwise different.
   */
  lemma UniqueKeyCheckSpec(rows: seq<Row>)
    ensures DuplicateKeyCount(rows) == |rows| - |Elements(KeyPairs(rows))|
    ensures UniqueKeyCheck(rows).result == Pass <==> Distinct(KeyPairs(rows))
  {
    DuplicateCount(KeyPairs(rows));
    NoDuplicatedIffDistinct(KeyPairs(rows));
  }

  /** `(year_num < 2000) | (year_num > 2026) | year_num.isna()`. */
  predicate InvalidYear(c: Cell) {
    var y := ParseCell(c);
    y.None? || y.value < MinYear || y.value > MaxYear
  }

  function InvalidYearMask(rows: seq<Row>): seq<bool> {
    Map(InvalidYear, ColumnOf(rows, "year"))
  }

  function YearCheck(rows: seq<Row>): Check {
    var invalid := CountTrue(InvalidYearMask(rows));
    Check("year_valid_range_2000_2026", VerdictOf(invalid == 0), CountDetail("invalid_years", invalid))
  }

  /** The year check passes exactly when every year parses to a number within 2000..2026. */
  lemma YearCheckSpec(rows: seq<Row>)
    ensures YearCheck(rows).result == Pass <==>
      forall i :: 0 <= i < |rows| ==>
        var y := ParseCell(Get(rows[i], "year")); y.Some? && MinYear <= y.value <= MaxYear
  {
    CountTrueZero(InvalidYearMask(rows));
  }

  // --------------------------------------------------------- metric checks

  /** `pd.to_numeric(df[col], errors="coerce")`. */
  function Values(rows: seq<Row>, col: string): seq<Option<real>> {
    Map(ParseCell, ColumnOf(rows, col))
  }

  /** `vals.isna()`. */
  function AbsentMask(vals: seq<Option<real>>): seq<bool> {
    Map((v: Option<real>) => v.None?, vals)
  }

  /** `vals < 0`; an absent value is never negative. */
  function NegativeMask(vals: seq<Option<real>>): seq<bool> {
    Map((v: Option<real>) => v.Some? && v.value < 0.0, vals)
  }

  function CoverageCheck(col: string, missing: nat, rows: nat): Check {
    Check("coverage_" + col, VerdictOf(missing < rows),
      "missing=" + NatToString(missing) + " of " + NatToString(rows))
  }

  function NoNegativeCheck(col: string, negative: nat): Check {
    Check("no_negative_" + col, VerdictOf(negative == 0), CountDetail("negative", negative))
  }

  /** The checks for one metric column: only a failed existence check when it is absent. */
  function MetricChecks(t: Table, col: string): seq<Check> {
    if col !in t.columns then
      [Check("column_exists_" + col, Fail, "missing_column")]
    else
      var vals := Values(t.rows, col);
      [CoverageCheck(col, CountTrue(AbsentMask(vals)), |t.rows|),
       NoNegativeCheck(col, CountTrue(NegativeMask(vals)))]
  }

  /** The metric checks of `cols`, column after column. */
  function MetricChecksOf(t: Table, cols: seq<string>): seq<Check> {
    if cols == [] then [] else MetricChecksOf(t, cols[..|cols| - 1]) + MetricChecks(t, cols[|cols| - 1])
  }

  /**
   * An absent column yields exactly one failing `column_exists` check and
   * nothing else. A present one yields coverage, passing exactly when some
   * value parses (so never on an empty table), then `no_negative`, passing
   * exactly when no parsed value is below zero.
   */
  lemma MetricChecksSpec(t: Table, col: string)
    ensures col !in t.columns ==>
      MetricChecks(t, col) == [Check("column_exists_" + col, Fail, "missing_column")]
    ensures col in t.columns ==> var cs, vals := MetricChecks(t, col), Values(t.rows, col);
      && |cs| == 2 && cs[0].name == "coverage_" + col && cs[1].name == "no_negative_" + col
      && (cs[0].result == Pass <==> exists i :: 0 <= i < |t.rows| && vals[i].Some?)
      && (cs[1].result == Pass <==> forall i :: 0 <= i < |t.rows| ==> !(vals[i].Some? && vals[i].value < 0.0))
  {
    if col in t.columns {
      var vals := Values(t.rows, col);
      CountTrueFull(AbsentMask(vals));
      CountTrueZero(NegativeMask(vals));
    }
  }

  /** An empty table fails the coverage check of every metric column it has. */
  lemma EmptyTableFailsCoverage(t: Table, col: string)
    requires t.rows == [] && col in t.columns
    ensures MetricChecks(t, col)[0].result == Fail
  {
  }

  // ------------------------------------------------------------------ report

  /** The checks before the metric loop: rows, identity completeness, uniqueness, year range. */
  function FixedChecks(t: Table): Result<seq<Check>, StageError> {
    match WithMissingChecks([RowsCheck(t.rows)], t, IdentityColumns)
    case Failure(e) => Failure(e)
    case Success(checks) => Success(checks + [UniqueKeyCheck(t.rows), YearCheck(t.rows)])
  }

  /**
   * The report: a missing file, or a KeyError on the first absent identity
   * column; otherwise the six fixed checks followed by those of each metric.
   */
  function FactsReport(input: Option<Table>): (r: Result<seq<Check>, StageError>)
    ensures input.None? ==> r == Failure(InputMissing)
    ensures input.Some? ==> (r.Failure? <==> exists c :: c in IdentityColumns && c !in input.value.columns)
    ensures input.Some? && r.Failure? ==> r.error == ReadColumns(IdentityColumns, input.value.columns).value
  {
    if input.None? then Failure(InputMissing)
    else
      var t := input.value;
      match FixedChecks(t)
      case Failure(e) => Failure(e)
      case Success(checks) => Success(checks + MetricChecksOf(t, MetricColumns))
  }

  /** The names of the metric checks of `cols`: coverage and sign for present columns, existence for absent ones. */
  function MetricNames(columns: seq<string>, cols: seq<string>): seq<string> {
    if cols == [] then []
    else
      var c := cols[|cols| - 1];
      MetricNames(columns, cols[..|cols| - 1])
        + (if c in columns then ["coverage_" + c, "no_negative_" + c] else ["column_exists_" + c])
  }

  lemma {:induction false} MetricChecksNames(t: Table, cols: seq<string>)
    ensures Names(MetricChecksOf(t, cols)) == MetricNames(t.columns, cols)
    decreases |cols|
  {
    if cols != [] {
      var init, c := cols[..|cols| - 1], cols[|cols| - 1];
      MetricChecksNames(t, init);
      MetricChecksSpec(t, c);
      NamesAppend(MetricChecksOf(t, init), MetricChecks(t, c));
    }
  }

  lemma NamesAppend(a: seq<Check>, b: seq<Check>)
    ensures Names(a + b) == Names(a) + Names(b)
  {
  }

  /** A successful report is the six fixed checks followed by the metric checks. */
  lemma FactsReportSplit(input: Option<Table>)
    requires FactsReport(input).Success?
    ensures FixedChecks(input.value).Success?
    ensures FactsReport(input).value == FixedChecks(input.value).value + MetricChecksOf(input.value, MetricColumns)
  {
  }

  /** The fixed checks: rows, the three identity completeness checks, uniqueness, year range. */
  lemma FixedChecksShape(t: Table)
    requires FixedChecks(t).Success?
    ensures var fixed := FixedChecks(t).value;
      && |fixed| == 6
      && fixed[0] == RowsCheck(t.rows)
      && (forall k :: 1 <= k < 4 ==> fixed[k] == MissingCheck(t.rows, IdentityColumns[k - 1]))
      && fixed[4] == UniqueKeyCheck(t.rows)
      && fixed[5] == YearCheck(t.rows)
  {
    var missing := MissingChecks(t.rows, IdentityColumns);
    assert WithMissingChecks([RowsCheck(t.rows)], t, IdentityColumns).value == [RowsCheck(t.rows)] + missing;
  }

  /**
   * The report's checks come in a fixed order: rows, the three identity
   * completeness checks, uniqueness, year range, then revenue's checks, then
   * employees'.
   */
  lemma FactsReportOrder(input: Option<Table>)
    requires FactsReport(input).Success?
    ensures var cs := FactsReport(input).value;
      && |cs| >= 6
      && cs[0].name == "rows_gt_0"
      && (forall k :: 1 <= k < 4 ==> cs[k].name == "missing_" + IdentityColumns[k - 1])
      && cs[4].name == "unique_company_year"
      && cs[5].name == "year_valid_range_2000_2026"
      && Names(cs[6..]) == MetricNames(input.value.columns, MetricColumns)
  {
    var t := input.value;
    FactsReportSplit(input);
    FixedChecksShape(t);
    var fixed := FixedChecks(t).value;
    var cs := FactsReport(input).value;
    assert cs[..6] == fixed;
    assert cs[6..] == MetricChecksOf(t, MetricColumns);
    MetricChecksNames(t, MetricColumns);
  }

  /** Each identity completeness check passes exactly when its column has no absent or blank cell. */
  lemma IdentityChecksSpec(input: Option<Table>, k: nat)
    requires FactsReport(input).Success? && 1 <= k < 4
    ensures var rows := input.value.rows;
      FactsReport(input).value[k].result == Pass <==>
        forall i :: 0 <= i < |rows| ==> !MissingCell(Get(rows[i], IdentityColumns[k - 1]))
  {
    var t := input.value;
    FactsReportSplit(input);
    FixedChecksShape(t);
    assert FactsReport(input).value[k] == FixedChecks(t).value[k];
    MissingCheckPasses(t.rows, IdentityColumns[k - 1]);
  }

  // ---------------------------------------------------------------- method

  /** The metric loop: `continue` after the existence check of an absent column. */
  method AppendMetricChecks(checks: seq<Check>, t: Table) returns (out: seq<Check>)
    ensures out == checks + MetricChecksOf(t, MetricColumns)
  {
    out := checks;
    for k := 0 to |MetricColumns|
      invariant out == checks + MetricChecksOf(t, MetricColumns[..k])
    {
      var col := MetricColumns[k];
      assert MetricColumns[..k + 1][..k] == MetricColumns[..k];
      if col !in t.columns {
        out := out + [Check("column_exists_" + col, Fail, "missing_column")];
        continue;
      }
      var vals := Values(t.rows, col);
      var missing := CountTrue(AbsentMask(vals));
      var negative := CountTrue(NegativeMask(vals));
      out := out + [CoverageCheck(col, missing, |t.rows|)];
      out := out + [NoNegativeCheck(col, negative)];
    }
    assert MetricColumns[..|MetricColumns|] == MetricColumns;
  }

  /** `main` of the validator. */
  method ValidateFacts(input: Option<Table>) returns (r: Result<seq<Check>, StageError>)
    ensures r == FactsReport(input)
  {
    if input.None? {
      return Failure(InputMissing);
    }
    var t := input.value;
    var checks := [RowsCheck(t.rows)];
    var res := AppendMissingChecks(checks, t, IdentityColumns);
    if res.Failure? {
      assert FixedChecks(t) == Failure(res.error);
      return Failure(res.error);
    }
    checks := res.value;
    assert FixedChecks(t) == Success(checks + [UniqueKeyCheck(t.rows), YearCheck(t.rows)]);
    checks := checks + [UniqueKeyCheck(t.rows)];
    checks := checks + [YearCheck(t.rows)];
    assert checks == FixedChecks(t).value;
    checks := AppendMetricChecks(checks, t);
    r := Success(checks);
  }
}
