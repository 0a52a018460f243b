/**
 * The retailer dimension validator
 * (pipeline/quality_engine/01_validate_retailer_dimension.py): completeness
 * of the three identity columns and uniqueness of `company_id`.
 */
module DimensionValidation {
  import opened Wrappers
  import opened Seqs
  import opened Tables
  import opened Checks

  /** The columns checked for completeness, in report order. */
  const IdentityColumns: seq<string> := ["company_id", "company_name", "country"]

  /** `company_id.duplicated().sum()`: every occurrence of an id after its first. */
  function DuplicateIdCount(rows: seq<Row>): nat {
    CountTrue(DuplicatedMask(ColumnOf(rows, "company_id")))
  }

  function UniqueIdCheck(rows: seq<Row>): Check {
    var dup := DuplicateIdCount(rows);
    Check("unique_company_id", VerdictOf(dup == 0), CountDetail("duplicates", dup))
  }

  /**
   * The duplicate count is the row count less the number of distinct ids,
   * and the check passes exactly when the ids are pairwise different.
   */
  lemma UniqueIdCheckSpec(rows: seq<Row>)
    ensures var ids := ColumnOf(rows, "company_id");
      && DuplicateIdCount(rows) == |rows| - |Elements(ids)|
      && (UniqueIdCheck(rows).result == Pass <==> Distinct(ids))
  {
    var ids := ColumnOf(rows, "company_id");
    DuplicateCount(ids);
    NoDuplicatedIffDistinct(ids);
  }

  /** The report: a missing file, or a KeyError on the first absent identity column, or four checks. */
  function DimensionReport(input: Option<Table>): (r: Result<seq<Check>, StageError>)
    ensures input.None? ==> r == Failure(InputMissing)
    ensures input.Some? ==> (r.Failure? <==> exists c :: c in IdentityColumns && c !in input.value.columns)
    ensures input.Some? && r.Failure? ==> r.error == ReadColumns(IdentityColumns, input.value.columns).value
    ensures r.Success? ==> var checks := r.value;
      && |checks| == 4
      && (forall k :: 0 <= k < 3 ==> checks[k].name == "missing_" + IdentityColumns[k])
      && checks[3].name == "unique_company_id"
  {
    if input.None? then Failure(InputMissing)
    else
      var t := input.value;
      match WithMissingChecks([], t, IdentityColumns)
      case Failure(e) => Failure(e)
      case Success(checks) =>
        var r := checks + [UniqueIdCheck(t.rows)];
        assert |r| == 4;
        Success(r)
  }

  /** Each of the first three checks passes exactly when its column has no absent or blank cell. */
  lemma MissingChecksSpec(input: Option<Table>, k: nat)
    requires DimensionReport(input).Success? && k < 3
    ensures var rows := input.value.rows;
      DimensionReport(input).value[k].result == Pass <==>
        forall i :: 0 <= i < |rows| ==> !MissingCell(Get(rows[i], IdentityColumns[k]))
  {
    MissingCheckPasses(input.value.rows, IdentityColumns[k]);
  }

  /** The last check is the id uniqueness check of the whole table. */
  lemma UniqueCheckSpec(input: Option<Table>)
    requires DimensionReport(input).Success?
    ensures var ids := ColumnOf(input.value.rows, "company_id");
      DimensionReport(input).value[3].result == Pass <==> Distinct(ids)
  {
    UniqueIdCheckSpec(input.value.rows);
  }

  /** `main` of the validator: the completeness loop, then the uniqueness check. */
  method ValidateDimension(input: Option<Table>) returns (r: Result<seq<Check>, StageError>)
    ensures r == DimensionReport(input)
  {
    if input.None? {
      return Failure(InputMissing);
    }
    var t := input.value;
    var checks: seq<Check> := [];
    var res := AppendMissingChecks(checks, t, IdentityColumns);
    if res.Failure? {
      return Failure(res.error);
    }
    checks := res.value;
    var dup := DuplicateIdCount(t.rows);
    checks := checks + [Check("unique_company_id", VerdictOf(dup == 0), CountDetail("duplicates", dup))];
    r := Success(checks);
  }
}
