/**
 * The confidence weighter (pipeline/model/02_apply_confidence_weighting.py):
 * scales revenue per employee by the readiness score, read as a percentage.
 */
module Weighting {
  import opened Wrappers
  import opened Numbers
  import opened Tables

  /** `revenue_per_employee * (data_readiness_score / 100)`, absent when either operand is. */
  function Weighted(rpe: Option<real>, score: Option<real>): (w: Option<real>)
    ensures w.Some? <==> rpe.Some? && score.Some?
    ensures w.Some? ==> 100.0 * w.value == rpe.value * score.value
  {
    if rpe.Some? && score.Some? then Some(rpe.value * (score.value / 100.0)) else None
  }

  function Abs(x: real): real {
    if x < 0.0 then -x else x
  }

  /** A score within [0, 100] only shrinks the ratio: |weighted| <= |rpe|, with the sign of rpe kept. */
  lemma WeightedBounded(rpe: real, score: real)
    requires 0.0 <= score <= 100.0
    ensures Abs(Weighted(Some(rpe), Some(score)).value) <= Abs(rpe)
    ensures rpe >= 0.0 ==> Weighted(Some(rpe), Some(score)).value >= 0.0
  {
    var f := score / 100.0;
    assert 0.0 <= f <= 1.0;
    assert Weighted(Some(rpe), Some(score)).value == rpe * f;
    if rpe >= 0.0 {
      assert 0.0 <= rpe * f <= rpe * 1.0;
    } else {
      assert -(rpe * f) == (-rpe) * f <= -rpe;
    }
  }

  /** Full confidence keeps the ratio; no confidence gives 0; 50 at score 80 gives 40. */
  lemma WeightedExamples(rpe: real)
    ensures Weighted(Some(rpe), Some(100.0)) == Some(rpe)
    ensures Weighted(Some(rpe), Some(0.0)) == Some(0.0)
    ensures Weighted(Some(50.0), Some(80.0)) == Some(40.0)
  {
  }

  /** A row of the final table: the cells as read, and the weighted ratio where it is computed. */
  datatype WeightedRow = WeightedRow(cells: Row, confidenceWeightedRpe: Option<real>)

  datatype WeightedTable = WeightedTable(columns: seq<string>, rows: seq<WeightedRow>)

  function WeightRow(r: Row): WeightedRow {
    WeightedRow(r, Weighted(ParseCell(Get(r, "revenue_per_employee")), ParseCell(Get(r, "data_readiness_score"))))
  }

  predicate CanWeight(columns: seq<string>) {
    "revenue_per_employee" in columns && "data_readiness_score" in columns
  }

  /**
   * The weighter: a missing file stops it; otherwise it adds
   * `confidence_weighted_rpe` when both source columns exist and leaves the
   * table as it was when either is absent.
   */
  function ApplyWeighting(input: Option<Table>): (r: Result<WeightedTable, StageError>)
    ensures r.Failure? <==> input.None?
    ensures r.Failure? ==> r.error == InputMissing
    ensures r.Success? ==> var t, out := input.value, r.value;
      && |out.rows| == |t.rows|
      && (forall i :: 0 <= i < |t.rows| ==> out.rows[i].cells == t.rows[i])
      && (CanWeight(t.columns) ==>
            && out.columns == AddColumn(t.columns, "confidence_weighted_rpe")
            && forall i :: 0 <= i < |t.rows| ==> (out.rows[i].confidenceWeightedRpe ==
                 Weighted(ParseCell(Get(t.rows[i], "revenue_per_employee")),
                          ParseCell(Get(t.rows[i], "data_readiness_score")))))
      && (!CanWeight(t.columns) ==>
            && out.columns == t.columns
            && forall i :: 0 <= i < |t.rows| ==> out.rows[i].confidenceWeightedRpe.None?)
  {
    if input.None? then Failure(InputMissing)
    else
      var t := input.value;
      if CanWeight(t.columns) then
        Success(WeightedTable(AddColumn(t.columns, "confidence_weighted_rpe"),
          seq(|t.rows|, i requires 0 <= i < |t.rows| => WeightRow(t.rows[i]))))
      else
        Success(WeightedTable(t.columns,
          seq(|t.rows|, i requires 0 <= i < |t.rows| => WeightedRow(t.rows[i], None))))
  }

  /** Where the weighted ratio is computed it is absent exactly when the ratio or the score is. */
  lemma WeightedAbsentIff(input: Option<Table>, i: nat)
    requires input.Some? && CanWeight(input.value.columns) && i < |input.value.rows|
    ensures var row := input.value.rows[i];
      ApplyWeighting(input).value.rows[i].confidenceWeightedRpe.None? <==>
        ParseCell(Get(row, "revenue_per_employee")).None? || ParseCell(Get(row, "data_readiness_score")).None?
  {
  }
}
