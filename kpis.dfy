/**
 * The KPI calculator (pipeline/model/01_compute_kpis.py): parses the numeric
 * columns, sorts the facts by (company_id, year), adds revenue per employee and
 * the year-over-year revenue growth against the previous row of the same
 * company.
 */
module Kpis {
  import opened Wrappers
  import opened Text
  import opened Numbers
  import opened Seqs
  import opened Tables

  /**
   * One row of the KPI table: the cells as read, the parsed sort keys and
   * metrics, and the two computed columns (None where the column is not
   * computed, or where pandas would give NaN or an infinity).
   */
  datatype KpiRow = KpiRow(
    cells: Row,
    companyId: Cell,
    year: Option<real>,
    revenue: Option<real>,
    employees: Option<real>,
    revenuePerEmployee: Option<real>,
    yoyGrowth: Option<real>)

  datatype KpiTable = KpiTable(columns: seq<string>, rows: seq<KpiRow>)

  /** A row as parsed: `revenue`, `employees` and `year` coerced to numbers. */
  function ParseKpiRow(r: Row): KpiRow {
    KpiRow(r, Get(r, "company_id"), ParseCell(Get(r, "year")),
      ParseCell(Get(r, "revenue")), ParseCell(Get(r, "employees")), None, None)
  }

  // ------------------------------------------------------------------ order

  /** `company_id` order of `sort_values`: text ascending, missing ids last. */
  predicate CellLt(a: Cell, b: Cell) {
    a.Some? && (b.None? || StrLt(a.value, b.value))
  }

  /** `year` order of `sort_values`: numeric ascending, missing years last. */
  predicate YearLe(a: Option<real>, b: Option<real>) {
    b.None? || (a.Some? && a.value <= b.value)
  }

  /** The sort key (company_id, year). */
  predicate KpiLe(x: KpiRow, y: KpiRow) {
    CellLt(x.companyId, y.companyId) || (x.companyId == y.companyId && YearLe(x.year, y.year))
  }

  lemma CellLtAsymmetric(a: Cell, b: Cell)
    requires CellLt(a, b)
    ensures !CellLt(b, a) && a != b
  {
    if a.Some? && b.Some? {
      StrLtAsymmetric(a.value, b.value);
    }
  }

  lemma KpiLeTotalPreorder()
    ensures TotalPreorder(KpiLe)
  {
    forall x: KpiRow, y: KpiRow ensures KpiLe(x, y) || KpiLe(y, x) {
      if x.companyId.Some? && y.companyId.Some? {
        StrLtTotal(x.companyId.value, y.companyId.value);
      }
    }
    forall x: KpiRow, y: KpiRow, z: KpiRow | KpiLe(x, y) && KpiLe(y, z) ensures KpiLe(x, z) {
      if x.companyId.Some? && y.companyId.Some? && z.companyId.Some?
        && StrLt(x.companyId.value, y.companyId.value) && StrLt(y.companyId.value, z.companyId.value)
      {
        StrLtTransitive(x.companyId.value, y.companyId.value, z.companyId.value);
      }
    }
  }

  // ---------------------------------------------------------------- ratios

  /** `revenue / employees`; absent when an operand is absent or there are no employees. */
  function Rpe(revenue: Option<real>, employees: Option<real>): (r: Option<real>)
    ensures r.Some? <==> revenue.Some? && employees.Some? && employees.value != 0.0
    ensures r.Some? ==> r.value * employees.value == revenue.value
  {
    if revenue.Some? && employees.Some? && employees.value != 0.0 then
      Some(revenue.value / employees.value)
    else
      None
  }

  /** `pct_change` for one step: `cur / prev - 1`, absent unless both are present and `prev` is not 0. */
  function PctChange(cur: Option<real>, prev: Option<real>): (g: Option<real>)
    ensures g.Some? <==> cur.Some? && prev.Some? && prev.value != 0.0
    ensures g.Some? ==> prev.value * (g.value + 1.0) == cur.value
  {
    if cur.Some? && prev.Some? && prev.value != 0.0 then
      Some(cur.value / prev.value - 1.0)
    else
      None
  }

  /** The last index before `k` whose row belongs to company `cid`. */
  function LastOfCompany(rows: seq<KpiRow>, cid: Cell, k: nat): (p: Option<nat>)
    requires k <= |rows|
    ensures p.Some? ==> p.value < k && rows[p.value].companyId == cid
    ensures p.Some? ==> forall j :: p.value < j < k ==> rows[j].companyId != cid
    ensures p.None? ==> forall j :: 0 <= j < k ==> rows[j].companyId != cid
  {
    if k == 0 then None
    else if rows[k - 1].companyId == cid then Some(k - 1)
    else LastOfCompany(rows, cid, k - 1)
  }

  /** Row `j` is the closest row before row `i` that belongs to the same company. */
  predicate ClosestEarlier(rows: seq<KpiRow>, i: nat, j: int)
    requires i < |rows|
  {
    && 0 <= j < i && rows[j].companyId == rows[i].companyId
    && forall m :: j < m < i ==> rows[m].companyId != rows[i].companyId
  }

  /**
   * `groupby("company_id")["revenue"].pct_change()` at row `i`: the change
   * against the closest earlier row of the same company; absent for the
   * company's first row and for rows without a company id (dropped groups).
   */
  function Growth(rows: seq<KpiRow>, i: nat): (g: Option<real>)
    requires i < |rows|
    ensures g.Some? ==> rows[i].companyId.Some?
    ensures (forall j :: 0 <= j < i ==> rows[j].companyId != rows[i].companyId) ==> g.None?
    ensures g.Some? ==> exists j :: (
      && 0 <= j < i && rows[j].companyId == rows[i].companyId
      && (forall m :: j < m < i ==> rows[m].companyId != rows[i].companyId)
      && g == PctChange(rows[i].revenue, rows[j].revenue))
    ensures forall j :: rows[i].companyId.Some? && ClosestEarlier(rows, i, j) ==>
      g == PctChange(rows[i].revenue, rows[j].revenue)
  {
    if rows[i].companyId.None? then None
    else
      match LastOfCompany(rows, rows[i].companyId, i)
      case None => None
      case Some(j) => PctChange(rows[i].revenue, rows[j].revenue)
  }

  /**
   * In rows sorted by (company_id, year) a company's rows are contiguous, so
   * the previous row of the same company is the previous row, when it
   * belongs to the same company.
   */
  lemma GrowthFromPreviousRow(rows: seq<KpiRow>, i: nat)
    requires SortedBy(rows, KpiLe) && i < |rows|
    ensures Growth(rows, i) ==
      if i > 0 && rows[i].companyId.Some? && rows[i - 1].companyId == rows[i].companyId
      then PctChange(rows[i].revenue, rows[i - 1].revenue)
      else None
  {
    if i > 0 && rows[i].companyId.Some? && rows[i - 1].companyId != rows[i].companyId {
      var c := rows[i].companyId;
      assert CellLt(rows[i - 1].companyId, c) by {
        assert KpiLe(rows[i - 1], rows[i]);
      }
      CellLtAsymmetric(rows[i - 1].companyId, c);
      forall j | 0 <= j < i - 1 ensures rows[j].companyId != c {
        assert KpiLe(rows[j], rows[i - 1]);
      }
      assert LastOfCompany(rows, c, i) == LastOfCompany(rows, c, i - 1);
    }
  }

  /** Revenues 100, 150, 300 of one company in consecutive rows give growth absent, 0.5, 1.0. */
  lemma GrowthExample(rows: seq<KpiRow>)
    requires |rows| == 3 && rows[0].companyId.Some?
    requires rows[1].companyId == rows[0].companyId && rows[2].companyId == rows[0].companyId
    requires rows[0].year == Some(2020.0) && rows[1].year == Some(2021.0) && rows[2].year == Some(2023.0)
    requires rows[0].revenue == Some(100.0) && rows[1].revenue == Some(150.0) && rows[2].revenue == Some(300.0)
    ensures Growth(rows, 0) == None && Growth(rows, 1) == Some(0.5) && Growth(rows, 2) == Some(1.0)
  {
    assert LastOfCompany(rows, rows[0].companyId, 1) == Some(0);
    assert LastOfCompany(rows, rows[0].companyId, 2) == Some(1);
  }

  // ------------------------------------------------------------------ stage

  /** The ratio columns filled in for row `i` of the sorted rows. */
  function AddRatios(rows: seq<KpiRow>, i: nat, hasRpe: bool, hasGrowth: bool): KpiRow
    requires i < |rows|
  {
    rows[i].(
      revenuePerEmployee := if hasRpe then Rpe(rows[i].revenue, rows[i].employees) else None,
      yoyGrowth := if hasGrowth then Growth(rows, i) else None)
  }

  function WithRatios(rows: seq<KpiRow>, hasRpe: bool, hasGrowth: bool): (out: seq<KpiRow>)
    ensures |out| == |rows| && forall i :: 0 <= i < |rows| ==> out[i] == AddRatios(rows, i, hasRpe, hasGrowth)
  {
    seq(|rows|, i requires 0 <= i < |rows| => AddRatios(rows, i, hasRpe, hasGrowth))
  }

  /** `revenue_per_employee` when both operands exist, then `revenue_yoy_growth` when revenue exists. */
  function KpiColumns(columns: seq<string>): (r: seq<string>)
    ensures |r| >= |columns| && r[..|columns|] == columns
    ensures "revenue_per_employee" in r <==>
      "revenue_per_employee" in columns || ("revenue" in columns && "employees" in columns)
    ensures "revenue_yoy_growth" in r <==> "revenue_yoy_growth" in columns || "revenue" in columns
    ensures forall c :: c in r ==> c in columns || c == "revenue_per_employee" || c == "revenue_yoy_growth"
  {
    var withRpe := if "revenue" in columns && "employees" in columns then AddColumn(columns, "revenue_per_employee") else columns;
    var r := if "revenue" in columns then AddColumn(withRpe, "revenue_yoy_growth") else withRpe;
    assert |withRpe| >= |columns| && withRpe[..|columns|] == columns;
    assert |r| >= |withRpe| && r[..|withRpe|] == withRpe;
    assert r[..|columns|] == r[..|withRpe|][..|columns|];
    r
  }

  /**
   * The calculator: a missing file, then a missing `year`, then a missing
   * `company_id` stop it (in the order the source reads them); otherwise the
   * parsed rows are sorted and the ratio columns added.
   */
  function KpisOf(input: Option<Table>): (r: Result<KpiTable, StageError>)
    ensures input.None? ==> r == Failure(InputMissing)
    ensures input.Some? ==> (r.Failure? <==> ReadColumns(["year", "company_id"], input.value.columns).Some?)
    ensures input.Some? && r.Failure? ==> r.error == ReadColumns(["year", "company_id"], input.value.columns).value
    ensures r.Success? ==> r.value.columns == KpiColumns(input.value.columns)
    ensures r.Success? ==> |r.value.rows| == |input.value.rows|
  {
    if input.None? then Failure(InputMissing)
    else
      var t := input.value;
      var err := ReadColumns(["year", "company_id"], t.columns);
      if err.Some? then Failure(err.value)
      else
        var sorted := SortBy(Map(ParseKpiRow, t.rows), KpiLe);
        SameElements(sorted, Map(ParseKpiRow, t.rows));
        Success(KpiTable(KpiColumns(t.columns),
          WithRatios(sorted, "revenue" in t.columns && "employees" in t.columns, "revenue" in t.columns)))
  }

  /** The output rows are sorted by (company_id, year), missing values last. */
  lemma KpiRowsSorted(input: Option<Table>)
    requires KpisOf(input).Success?
    ensures SortedBy(KpisOf(input).value.rows, KpiLe)
  {
    var t := input.value;
    var sorted := SortBy(Map(ParseKpiRow, t.rows), KpiLe);
    KpiLeTotalPreorder();
    SortBySorted(Map(ParseKpiRow, t.rows), KpiLe);
    var out := KpisOf(input).value.rows;
    assert forall i :: 0 <= i < |out| ==> out[i].companyId == sorted[i].companyId && out[i].year == sorted[i].year;
  }

  /** The ratio fields cleared again: what the row was before the ratio columns were added. */
  function Base(r: KpiRow): KpiRow {
    r.(revenuePerEmployee := None, yoyGrowth := None)
  }

  /**
   * Rows are neither lost nor added: apart from the ratio columns, the
   * output is a reordering of the parsed input rows, and each row's numbers
   * are the parsed values of its own cells.
   */
  lemma KpiRowsPermuted(input: Option<Table>)
    requires KpisOf(input).Success?
    ensures var t, out := input.value, KpisOf(input).value.rows;
      multiset(Map(Base, out)) == multiset(Map(ParseKpiRow, t.rows))
    ensures var out := KpisOf(input).value.rows;
      forall i :: 0 <= i < |out| ==>
        && out[i].companyId == Get(out[i].cells, "company_id")
        && out[i].year == ParseCell(Get(out[i].cells, "year"))
        && out[i].revenue == ParseCell(Get(out[i].cells, "revenue"))
        && out[i].employees == ParseCell(Get(out[i].cells, "employees"))
  {
    var t := input.value;
    var parsed := Map(ParseKpiRow, t.rows);
    var sorted := SortBy(parsed, KpiLe);
    var out := KpisOf(input).value.rows;
    SameElements(sorted, parsed);
    forall i | 0 <= i < |sorted| ensures Base(out[i]) == sorted[i] {
      assert sorted[i] in parsed;
    }
    assert Map(Base, out) == sorted;
    forall i | 0 <= i < |out|
      ensures out[i].companyId == Get(out[i].cells, "company_id")
      ensures out[i].year == ParseCell(Get(out[i].cells, "year"))
      ensures out[i].revenue == ParseCell(Get(out[i].cells, "revenue"))
      ensures out[i].employees == ParseCell(Get(out[i].cells, "employees"))
    {
      assert sorted[i] in parsed;
    }
  }

  /**
   * Each output row's `revenue_per_employee` is its own revenue over its own
   * employees, and its growth is measured against the previous output row
   * when that row is of the same company, and is absent otherwise.
   */
  lemma KpiRatios(input: Option<Table>, i: nat)
    requires KpisOf(input).Success? && i < |KpisOf(input).value.rows|
    ensures var cols, out := input.value.columns, KpisOf(input).value.rows;
      && out[i].revenuePerEmployee ==
           (if "revenue" in cols && "employees" in cols then Rpe(out[i].revenue, out[i].employees) else None)
      && out[i].yoyGrowth ==
           (if "revenue" in cols && i > 0 && out[i].companyId.Some? && out[i - 1].companyId == out[i].companyId
            then PctChange(out[i].revenue, out[i - 1].revenue)
            else None)
  {
    var t := input.value;
    var sorted := SortBy(Map(ParseKpiRow, t.rows), KpiLe);
    KpiLeTotalPreorder();
    SortBySorted(Map(ParseKpiRow, t.rows), KpiLe);
    GrowthFromPreviousRow(sorted, i);
  }

  /** The parsing pass over the rows. */
  method ParseRows(rows: seq<Row>) returns (parsed: seq<KpiRow>)
    ensures parsed == Map(ParseKpiRow, rows)
  {
    parsed := [];
    for i := 0 to |rows|
      invariant parsed == Map(ParseKpiRow, rows[..i])
    {
      MapSnoc(ParseKpiRow, rows, i);
      parsed := parsed + [ParseKpiRow(rows[i])];
    }
    assert rows[..|rows|] == rows;
  }

  /** One pass over the sorted rows, adding the ratios from each row and its predecessor. */
  method AddRatioColumns(sorted: seq<KpiRow>, hasRpe: bool, hasGrowth: bool) returns (out: seq<KpiRow>)
    requires SortedBy(sorted, KpiLe)
    ensures out == WithRatios(sorted, hasRpe, hasGrowth)
  {
    out := [];
    for i := 0 to |sorted|
      invariant |out| == i
      invariant forall k :: 0 <= k < i ==> out[k] == AddRatios(sorted, k, hasRpe, hasGrowth)
    {
      var row := sorted[i];
      var rpe := if hasRpe then Rpe(row.revenue, row.employees) else None;
      var growth: Option<real> := None;
      if hasGrowth && i > 0 && row.companyId.Some? && sorted[i - 1].companyId == row.companyId {
        growth := PctChange(row.revenue, sorted[i - 1].revenue);
      }
      GrowthFromPreviousRow(sorted, i);
      out := out + [row.(revenuePerEmployee := rpe, yoyGrowth := growth)];
    }
  }

  /** `main` of the calculator: the column reads, the parsing pass, the sort, the ratio pass. */
  method ComputeKpis(input: Option<Table>) returns (r: Result<KpiTable, StageError>)
    ensures r == KpisOf(input)
  {
    if input.None? {
      return Failure(InputMissing);
    }
    var t := input.value;
    ReadColumnsCons(["year", "company_id"], t.columns);
    ReadColumnsCons(["company_id"], t.columns);
    assert ["year", "company_id"][1..] == ["company_id"];
    if "year" !in t.columns {
      return Failure(ColumnMissing("year"));
    }
    if "company_id" !in t.columns {
      return Failure(ColumnMissing("company_id"));
    }
    var parsed := ParseRows(t.rows);
    var sorted := SortBy(parsed, KpiLe);
    KpiLeTotalPreorder();
    SortBySorted(parsed, KpiLe);
    var out := AddRatioColumns(sorted, "revenue" in t.columns && "employees" in t.columns, "revenue" in t.columns);
    r := Success(KpiTable(KpiColumns(t.columns), out));
  }
}
