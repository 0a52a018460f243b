/**
 * The anomaly flagger and readiness scorer
 * (pipeline/quality_engine/03_flag_anomalies_and_readiness.py): six boolean
 * flags per KPI row, an additive integer penalty subtracted from 100 and
 * clipped to [0, 100], and a five-line summary report.
 */
module Readiness {
  import opened Wrappers
  import opened Numbers
  import opened Seqs
  import opened Tables

  /** The columns the flagger reads unconditionally, in the order it first reads each. */
  const UsedColumns: seq<string> :=
    ["year", "revenue", "employees", "revenue_per_employee", "revenue_yoy_growth"]

  /** The columns the flagger adds, in the order it assigns them. */
  const FlagColumns: seq<string> :=
    ["flag_missing_revenue", "flag_missing_employees", "flag_negative_revenue",
     "flag_negative_employees", "flag_rpe_extreme", "flag_yoy_extreme", "data_readiness_score"]

  /** A KPI row with its numeric columns coerced (`to_numeric(errors="coerce")`). */
  datatype Measures = Measures(
    cells: Row,
    year: Option<real>,
    revenue: Option<real>,
    employees: Option<real>,
    rpe: Option<real>,
    yoy: Option<real>)

  function ParseMeasures(r: Row): Measures {
    Measures(r, ParseCell(Get(r, "year")), ParseCell(Get(r, "revenue")), ParseCell(Get(r, "employees")),
      ParseCell(Get(r, "revenue_per_employee")), ParseCell(Get(r, "revenue_yoy_growth")))
  }

  // ------------------------------------------------------------------ flags

  datatype Flags = Flags(
    missingRevenue: bool,
    missingEmployees: bool,
    negativeRevenue: bool,
    negativeEmployees: bool,
    rpeExtreme: bool,
    yoyExtreme: bool)

  /** `v.notna() & ((v < lo) | (v > hi))`. */
  predicate Extreme(v: Option<real>, lo: real, hi: real) {
    v.Some? && (v.value < lo || v.value > hi)
  }

  /** A field is never flagged both missing and negative. */
  predicate Exclusive(f: Flags) {
    !(f.missingRevenue && f.negativeRevenue) && !(f.missingEmployees && f.negativeEmployees)
  }

  /**
   * The six flags of a row. The negative flags compare `fillna(0)` with 0, so
   * they hold exactly for present negative values, and a missing value is
   * never also negative.
   */
  function FlagsOf(m: Measures): (f: Flags)
    ensures f.missingRevenue <==> m.revenue.None?
    ensures f.missingEmployees <==> m.employees.None?
    ensures f.negativeRevenue <==> m.revenue.Some? && m.revenue.value < 0.0
    ensures f.negativeEmployees <==> m.employees.Some? && m.employees.value < 0.0
    ensures Exclusive(f)
  {
    Flags(
      m.revenue.None?,
      m.employees.None?,
      m.revenue.GetOr(0.0) < 0.0,
      m.employees.GetOr(0.0) < 0.0,
      Extreme(m.rpe, 0.0, 1000.0),
      Extreme(m.yoy, -0.5, 2.0))
  }

  /** Revenue per employee is extreme exactly outside [0, 1000]; both bounds are accepted. */
  lemma RpeExtremeBounds(m: Measures)
    ensures FlagsOf(m).rpeExtreme <==> m.rpe.Some? && !(0.0 <= m.rpe.value <= 1000.0)
    ensures m.rpe == Some(0.0) || m.rpe == Some(1000.0) || m.rpe.None? ==> !FlagsOf(m).rpeExtreme
  {
  }

  /** Growth is extreme exactly outside [-0.5, 2.0]; both bounds are accepted. */
  lemma YoyExtremeBounds(m: Measures)
    ensures FlagsOf(m).yoyExtreme <==> m.yoy.Some? && !(-0.5 <= m.yoy.value <= 2.0)
    ensures m.yoy == Some(-0.5) || m.yoy == Some(2.0) || m.yoy.None? ==> !FlagsOf(m).yoyExtreme
  {
  }

  // ------------------------------------------------------------------ score

  const MissingRevenuePoints := 40
  const MissingEmployeesPoints := 20
  const NegativeRevenuePoints := 40
  const NegativeEmployeesPoints := 40
  const RpeExtremePoints := 10
  const YoyExtremePoints := 10

  /** `flag.astype(int) * points`. */
  function Deduction(flag: bool, points: int): int {
    if flag then points else 0
  }

  /** The points subtracted from 100 for a row's flags. */
  function Penalty(f: Flags): int {
    Deduction(f.missingRevenue, MissingRevenuePoints)
    + Deduction(f.missingEmployees, MissingEmployeesPoints)
    + Deduction(f.negativeRevenue, NegativeRevenuePoints)
    + Deduction(f.negativeEmployees, NegativeEmployeesPoints)
    + Deduction(f.rpeExtreme, RpeExtremePoints)
    + Deduction(f.yoyExtreme, YoyExtremePoints)
  }

  /** `np.clip(x, lo, hi)` for one value. */
  function Clip(x: int, lo: int, hi: int): (y: int)
    requires lo <= hi
    ensures lo <= y <= hi
    ensures lo <= x <= hi ==> y == x
    ensures x < lo ==> y == lo
    ensures x > hi ==> y == hi
  {
    if x < lo then lo else if x > hi then hi else x
  }

  /** `data_readiness_score`: always within [0, 100] and a multiple of 10. */
  function Score(f: Flags): (s: int)
    ensures 0 <= s <= 100 && s % 10 == 0
  {
    var p := Penalty(f);
    assert p % 10 == 0 && 0 <= p;
    Clip(100 - p, 0, 100)
  }

  /**
   * Because a field is never both missing and negative, the raw penalty is
   * at most 100, so the clip never changes the score.
   */
  lemma ClipNeverBinds(f: Flags)
    requires Exclusive(f)
    ensures 0 <= Penalty(f) <= 100
    ensures Score(f) == 100 - Penalty(f)
  {
  }

  /** Without the exclusion the clip is needed: every flag set gives a raw score of -60. */
  lemma ClipBindsWithoutExclusion()
    ensures var f := Flags(true, true, true, true, true, true); 100 - Penalty(f) == -60 && Score(f) == 0
  {
  }

  /** A row without flags scores 100; one missing both revenue and employees, and nothing else, scores 40. */
  lemma ScoreExamples()
    ensures Score(Flags(false, false, false, false, false, false)) == 100
    ensures Score(Flags(true, true, false, false, false, false)) == 40
  {
  }

  /** Every flag of `f` is also raised in `g`. */
  predicate FewerFlags(f: Flags, g: Flags) {
    && (f.missingRevenue ==> g.missingRevenue)
    && (f.missingEmployees ==> g.missingEmployees)
    && (f.negativeRevenue ==> g.negativeRevenue)
    && (f.negativeEmployees ==> g.negativeEmployees)
    && (f.rpeExtreme ==> g.rpeExtreme)
    && (f.yoyExtreme ==> g.yoyExtreme)
  }

  /** Raising more flags never raises the score. */
  lemma ScoreMonotone(f: Flags, g: Flags)
    requires FewerFlags(f, g)
    ensures Penalty(f) <= Penalty(g)
    ensures Score(g) <= Score(f)
  {
  }

  /** `score -= mask.astype(int) * points`, in place. */
  method Deduct(score: array<int>, mask: seq<bool>, points: int)
    requires score.Length == |mask|
    modifies score
    ensures forall i :: 0 <= i < score.Length ==> score[i] == old(score[i]) - Deduction(mask[i], points)
  {
    for i := 0 to score.Length
      invariant forall k :: 0 <= k < i ==> score[k] == old(score[k]) - Deduction(mask[k], points)
      invariant forall k :: i <= k < score.Length ==> score[k] == old(score[k])
    {
      score[i] := score[i] - Deduction(mask[i], points);
    }
  }

  /** `np.clip(score, lo, hi)`, in place. */
  method ClipAll(score: array<int>, lo: int, hi: int)
    requires lo <= hi
    modifies score
    ensures forall i :: 0 <= i < score.Length ==> score[i] == Clip(old(score[i]), lo, hi)
  {
    for i := 0 to score.Length
      invariant forall k :: 0 <= k < i ==> score[k] == Clip(old(score[k]), lo, hi)
      invariant forall k :: i <= k < score.Length ==> score[k] == old(score[k])
    {
      score[i] := Clip(score[i], lo, hi);
    }
  }

  /** The score array: filled with 100, six deductions, and the clip. */
  method ScoreRows(flags: seq<Flags>) returns (scores: seq<int>)
    ensures scores == Map(Score, flags)
  {
    var n := |flags|;
    var score := new int[n](_ => 100);
    Deduct(score, Map((f: Flags) => f.missingRevenue, flags), MissingRevenuePoints);
    Deduct(score, Map((f: Flags) => f.missingEmployees, flags), MissingEmployeesPoints);
    Deduct(score, Map((f: Flags) => f.negativeRevenue, flags), NegativeRevenuePoints);
    assert forall i :: 0 <= i < n ==> (score[i] == 100
      - Deduction(flags[i].missingRevenue, MissingRevenuePoints)
      - Deduction(flags[i].missingEmployees, MissingEmployeesPoints)
      - Deduction(flags[i].negativeRevenue, NegativeRevenuePoints));
    Deduct(score, Map((f: Flags) => f.negativeEmployees, flags), NegativeEmployeesPoints);
    Deduct(score, Map((f: Flags) => f.rpeExtreme, flags), RpeExtremePoints);
    Deduct(score, Map((f: Flags) => f.yoyExtreme, flags), YoyExtremePoints);
    assert forall i :: 0 <= i < n ==> score[i] == 100 - Penalty(flags[i]);
    ClipAll(score, 0, 100);
    scores := score[..];
  }

  // ----------------------------------------------------------------- report

  /** A row of the flagged table. */
  datatype FlaggedRow = FlaggedRow(measures: Measures, flags: Flags, score: int)

  function FlaggedRowOf(m: Measures): FlaggedRow {
    FlaggedRow(m, FlagsOf(m), Score(FlagsOf(m)))
  }

  /** One line of the summary report; a mean over no rows is NaN, modelled as None. */
  datatype Metric = Metric(metric: string, value: Option<real>)

  /** `Series.mean()` of an integer column as an exact quotient; absent for no rows. */
  function Mean(xs: seq<int>): (m: Option<real>)
    ensures m.None? <==> xs == []
  {
    if xs == [] then None else Some(Sum(xs) as real / |xs| as real)
  }

  /** A mean of values in [0, 100] lies in [0, 100]. */
  lemma MeanBounds(xs: seq<int>)
    requires forall i :: 0 <= i < |xs| ==> 0 <= xs[i] <= 100
    ensures Mean(xs).Some? ==> 0.0 <= Mean(xs).value <= 100.0
  {
    if xs != [] {
      SumBounds(xs, 0, 100);
      var n := |xs| as real;
      var m := Sum(xs) as real / n;
      assert m * n == Sum(xs) as real;
      assert Sum(xs) as real <= 100.0 * n;
    }
  }

  function Scores(rows: seq<FlaggedRow>): seq<int> {
    Map((r: FlaggedRow) => r.score, rows)
  }

  function MissingRevenueMask(rows: seq<FlaggedRow>): seq<bool> {
    Map((r: FlaggedRow) => r.flags.missingRevenue, rows)
  }

  function MissingEmployeesMask(rows: seq<FlaggedRow>): seq<bool> {
    Map((r: FlaggedRow) => r.flags.missingEmployees, rows)
  }

  function YoyAvailableMask(rows: seq<FlaggedRow>): seq<bool> {
    Map((r: FlaggedRow) => r.measures.yoy.Some?, rows)
  }

  /** The summary report, metric by metric in the order the flagger writes them. */
  function ReportOf(rows: seq<FlaggedRow>): seq<Metric> {
    [ Metric("rows", Some(|rows| as real)),
      Metric("missing_revenue_rows", Some(CountTrue(MissingRevenueMask(rows)) as real)),
      Metric("missing_employees_rows", Some(CountTrue(MissingEmployeesMask(rows)) as real)),
      Metric("yoy_available_rows", Some(CountTrue(YoyAvailableMask(rows)) as real)),
      Metric("avg_readiness_score", Mean(Scores(rows))) ]
  }

  /** `missing_revenue_rows` is at most the row count, and 0 exactly when every revenue is present. */
  lemma MissingRevenueCount(ms: seq<Measures>)
    ensures var mask := MissingRevenueMask(Map(FlaggedRowOf, ms));
      CountTrue(mask) <= |ms| && (CountTrue(mask) == 0 <==> forall i :: 0 <= i < |ms| ==> ms[i].revenue.Some?)
  {
    CountTrueZero(MissingRevenueMask(Map(FlaggedRowOf, ms)));
  }

  /** `missing_employees_rows` is at most the row count, and 0 exactly when every head count is present. */
  lemma MissingEmployeesCount(ms: seq<Measures>)
    ensures var mask := MissingEmployeesMask(Map(FlaggedRowOf, ms));
      CountTrue(mask) <= |ms| && (CountTrue(mask) == 0 <==> forall i :: 0 <= i < |ms| ==> ms[i].employees.Some?)
  {
    CountTrueZero(MissingEmployeesMask(Map(FlaggedRowOf, ms)));
  }

  /** `yoy_available_rows` is at most the row count, and equals it exactly when every growth is present. */
  lemma YoyAvailableCount(ms: seq<Measures>)
    ensures var mask := YoyAvailableMask(Map(FlaggedRowOf, ms));
      CountTrue(mask) <= |ms| && (CountTrue(mask) == |ms| <==> forall i :: 0 <= i < |ms| ==> ms[i].yoy.Some?)
  {
    CountTrueFull(YoyAvailableMask(Map(FlaggedRowOf, ms)));
  }

  /** `avg_readiness_score` is absent for no rows and otherwise lies in [0, 100]. */
  lemma AverageScoreBounds(ms: seq<Measures>)
    ensures var avg := Mean(Scores(Map(FlaggedRowOf, ms)));
      (avg.Some? <==> ms != []) && (avg.Some? ==> 0.0 <= avg.value <= 100.0)
  {
    MeanBounds(Scores(Map(FlaggedRowOf, ms)));
  }

  /** `report_rows.append(...)`, five times. */
  method BuildReport(rows: seq<FlaggedRow>) returns (report: seq<Metric>)
    ensures report == ReportOf(rows)
  {
    report := [];
    report := report + [Metric("rows", Some(|rows| as real))];
    report := report + [Metric("missing_revenue_rows", Some(CountTrue(MissingRevenueMask(rows)) as real))];
    report := report + [Metric("missing_employees_rows", Some(CountTrue(MissingEmployeesMask(rows)) as real))];
    report := report + [Metric("yoy_available_rows", Some(CountTrue(YoyAvailableMask(rows)) as real))];
    report := report + [Metric("avg_readiness_score", Mean(Scores(rows)))];
  }

  // ------------------------------------------------------------------ stage

  datatype ReadinessOutput = ReadinessOutput(columns: seq<string>, rows: seq<FlaggedRow>, report: seq<Metric>)

  /**
   * The flagger: a missing file stops it, then the first of the used columns
   * that is absent (a KeyError); otherwise every row is flagged and scored.
   */
  function ReadinessOf(input: Option<Table>): (r: Result<ReadinessOutput, StageError>)
    ensures input.None? ==> r == Failure(InputMissing)
    ensures input.Some? ==> (r.Failure? <==> exists c :: c in UsedColumns && c !in input.value.columns)
    ensures input.Some? && r.Failure? ==> r.error == ReadColumns(UsedColumns, input.value.columns).value
    ensures r.Success? ==> var out := r.value;
      && |out.columns| >= |input.value.columns| && out.columns[..|input.value.columns|] == input.value.columns
      && (forall c :: c in out.columns <==> c in input.value.columns || c in FlagColumns)
      && |out.rows| == |input.value.rows|
      && (forall i :: 0 <= i < |out.rows| ==> out.rows[i].measures == ParseMeasures(input.value.rows[i]))
      && out.report == ReportOf(out.rows)
  {
    if input.None? then Failure(InputMissing)
    else
      var t := input.value;
      var err := ReadColumns(UsedColumns, t.columns);
      if err.Some? then Failure(err.value)
      else
        var columns := AddColumns(t.columns, FlagColumns);
        var rows := Map(FlaggedRowOf, Map(ParseMeasures, t.rows));
        Success(ReadinessOutput(columns, rows, ReportOf(rows)))
  }

  /** Every flagged row's score is 100 less its penalty, with no clipping needed. */
  lemma FlaggedScores(input: Option<Table>)
    requires ReadinessOf(input).Success?
    ensures var rows := ReadinessOf(input).value.rows;
      forall i :: 0 <= i < |rows| ==>
        && rows[i].flags == FlagsOf(rows[i].measures)
        && rows[i].score == 100 - Penalty(rows[i].flags)
        && 0 <= rows[i].score <= 100
  {
    var rows := ReadinessOf(input).value.rows;
    forall i | 0 <= i < |rows| ensures rows[i].score == 100 - Penalty(rows[i].flags) {
      ClipNeverBinds(rows[i].flags);
    }
  }

  method ParseRows(rows: seq<Row>) returns (ms: seq<Measures>)
    ensures ms == Map(ParseMeasures, rows)
  {
    ms := [];
    for i := 0 to |rows|
      invariant ms == Map(ParseMeasures, rows[..i])
    {
      MapSnoc(ParseMeasures, rows, i);
      ms := ms + [ParseMeasures(rows[i])];
    }
    assert rows[..|rows|] == rows;
  }

  /** `main` of the flagger: parse, flag, score, report. */
  method FlagAndScore(input: Option<Table>) returns (r: Result<ReadinessOutput, StageError>)
    ensures r == ReadinessOf(input)
  {
    if input.None? {
      return Failure(InputMissing);
    }
    var t := input.value;
    var err := ReadColumns(UsedColumns, t.columns);
    if err.Some? {
      return Failure(err.value);
    }
    var ms := ParseRows(t.rows);
    var flags := Map(FlagsOf, ms);
    var scores := ScoreRows(flags);
    var rows := seq(|ms|, i requires 0 <= i < |ms| => FlaggedRow(ms[i], flags[i], scores[i]));
    assert rows == Map(FlaggedRowOf, ms);
    var report := BuildReport(rows);
    r := Success(ReadinessOutput(AddColumns(t.columns, FlagColumns), rows, report));
  }
}
