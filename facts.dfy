/**
 * The retailer-year fact builder (pipeline/transform/01_build_retailer_year_facts.py):
 * long-format observations `(company, year, metric, value)` are normalised,
 * then pivoted to one row per (company_id, company_name, year) with one column
 * per metric name, duplicates resolved by the maximum, and sorted by
 * (company_id, year).
 */
module RetailerYearFacts {
  import opened Wrappers
  import opened Text
  import opened Numbers
  import opened Seqs
  import opened Tables

  const RequiredColumns: seq<string> := [
    "company_id", "company_name", "year", "metric_name", "metric_value",
    "currency", "notes", "source_url", "source_type", "last_updated"
  ]

  // ------------------------------------------------------------ normalisation

  /** One input row after the normalisation pass. */
  datatype Observation = Observation(
    companyId: string,
    companyName: string,
    year: string,
    metricName: string,
    currency: string,
    sourceType: string,
    value: Option<real>,     // the parsed `metric_value`, None when it does not parse
    valueRaw: Cell,          // `metric_value_raw`, the text as read
    lastUpdated: Cell)

  /** `metric_name`: missing as "", whitespace-normalised, stripped, lower-cased. */
  function MetricName(c: Cell): string {
    Lower(Strip(Normalize(OrEmpty(c))))
  }

  /** `metric_value`: `astype(str)`, commas removed, stripped, then coerced to a number. */
  function MetricValue(c: Cell): Option<real> {
    ParseNumber(Strip(RemoveChar(AsText(c), ',')))
  }

  /**
   * One input row after the normalisation pass. The id, name and year keep
   * the input's words (the id's upper-cased), only the whitespace between
   * them is normalised; the metric name keeps its words lower-cased; the
   * value is the comma-free text parsed as a number.
   */
  function CleanObservation(row: Row): (o: Observation)
    ensures IsNormalized(o.companyId) && IsUpperCase(o.companyId)
    ensures IsNormalized(o.companyName) && IsNormalized(o.year)
    ensures Words(o.companyId) == MapWords(UpperChar, Words(OrEmpty(Get(row, "company_id"))))
    ensures Words(o.companyName) == Words(OrEmpty(Get(row, "company_name")))
    ensures Words(o.year) == Words(OrEmpty(Get(row, "year")))
    ensures IsNormalized(o.metricName)
    ensures Words(o.metricName) == MapWords(LowerChar, Words(OrEmpty(Get(row, "metric_name"))))
    ensures o.value == MetricValue(Get(row, "metric_value"))
    ensures o.valueRaw == Get(row, "metric_value") && o.lastUpdated == Get(row, "last_updated")
  {
    var id := OrEmpty(Get(row, "company_id"));
    NormalizeIsNormalized(id);
    UpperKeepsNormalized(Normalize(id));
    UpperCharSpacePreserving();
    MapNormalizeWords(UpperChar, id);
    NormalizeIsNormalized(OrEmpty(Get(row, "company_name")));
    NormalizeKeepsWords(OrEmpty(Get(row, "company_name")));
    NormalizeIsNormalized(OrEmpty(Get(row, "year")));
    NormalizeKeepsWords(OrEmpty(Get(row, "year")));
    MetricNameWords(Get(row, "metric_name"));
    Observation(
      Upper(Normalize(id)),
      Normalize(OrEmpty(Get(row, "company_name"))),
      Normalize(OrEmpty(Get(row, "year"))),
      MetricName(Get(row, "metric_name")),
      Normalize(OrEmpty(Get(row, "currency"))),
      Normalize(OrEmpty(Get(row, "source_type"))),
      MetricValue(Get(row, "metric_value")),
      Get(row, "metric_value"),
      Get(row, "last_updated"))
  }

  /** The normalised observations: one per input row, in order; none is dropped. */
  function Observations(rows: seq<Row>): (obs: seq<Observation>)
    ensures |obs| == |rows|
    ensures forall i :: 0 <= i < |rows| ==> obs[i] == CleanObservation(rows[i])
  {
    Map(CleanObservation, rows)
  }

  /** The metric name is the normalised lower-cased text: the order of the two steps does not matter. */
  lemma MetricNameCanonical(c: Cell)
    ensures MetricName(c) == Normalize(Lower(OrEmpty(c)))
  {
    var s := OrEmpty(c);
    NormalizeIsNormalized(s);
    StripNormalized(Normalize(s));
    LowerCharSpacePreserving();
    NormalizeMapChars(LowerChar, s);
  }

  /**
   * Two metric names land in the same column exactly when they agree after
   * lower-casing and whitespace normalisation.
   */
  lemma SameMetricColumnIff(a: Cell, b: Cell)
    ensures MetricName(a) == MetricName(b) <==> Normalize(Lower(OrEmpty(a))) == Normalize(Lower(OrEmpty(b)))
  {
    MetricNameCanonical(a);
    MetricNameCanonical(b);
  }

  /** The metric name is normalised and holds the raw name's words, lower-cased. */
  lemma MetricNameWords(c: Cell)
    ensures IsNormalized(MetricName(c))
    ensures Words(MetricName(c)) == MapWords(LowerChar, Words(OrEmpty(c)))
  {
    MetricNameCanonical(c);
    NormalizeIsNormalized(Lower(OrEmpty(c)));
    NormalizeKeepsWords(Lower(OrEmpty(c)));
    LowerCharSpacePreserving();
    WordsMapChars(LowerChar, OrEmpty(c));
  }

  lemma CommaRemoved()
    ensures RemoveChar("1,250", ',') == "1250"
  {
  }

  lemma Decimal1250()
    ensures NatToString(1250) == "1250"
  {
    assert NatToString(1) == "1";
    assert NatToString(12) == "12";
    assert NatToString(125) == "125";
  }

  /** A value written with a thousands separator parses as the number. */
  lemma ThousandsSeparatorRemoved()
    ensures MetricValue(Some("1,250")) == Some(1250.0)
  {
    CommaRemoved();
    StripUnpadded("1250");
    Decimal1250();
    ParseNatToString(1250);
  }

  lemma NotANumber()
    ensures ParseNumber("n/a") == None
  {
    assert IndexOfDot("n/a") == 3;
    assert !IsDigit("n/a"[0]);
  }

  /**
   * A `metric_value` whose comma-free, stripped text holds a character that is
   * neither a digit, a sign nor '.' becomes an absent value; the observation
   * is kept, in its place, with its raw text.
   */
  lemma UnparseableValueAbsent(rows: seq<Row>, k: nat, i: nat)
    requires k < |rows|
    requires i < |Strip(RemoveChar(AsText(Get(rows[k], "metric_value")), ','))|
    requires !IsNumberChar(Strip(RemoveChar(AsText(Get(rows[k], "metric_value")), ','))[i])
    ensures |Observations(rows)| == |rows|
    ensures Observations(rows)[k].value.None?
    ensures Observations(rows)[k].valueRaw == Get(rows[k], "metric_value")
  {
    ForeignCharNotANumber(Strip(RemoveChar(AsText(Get(rows[k], "metric_value")), ',')), i);
  }

  /** "n/a" is such a value. */
  lemma NotANumberAbsent(row: Row)
    requires Get(row, "metric_value") == Some("n/a")
    ensures CleanObservation(row).value.None?
  {
    assert RemoveChar("n/a", ',') == "n/a";
    StripUnpadded("n/a");
    NotANumber();
  }

  // ------------------------------------------------------------------- pivot

  datatype FactKey = FactKey(companyId: string, companyName: string, year: string)

  function KeyOf(o: Observation): FactKey {
    FactKey(o.companyId, o.companyName, o.year)
  }

  /** The keys of the observations that carry a value, in input order. */
  function PresentKeys(obs: seq<Observation>): (ks: seq<FactKey>)
    ensures forall k :: k in ks <==> exists i :: 0 <= i < |obs| && KeyOf(obs[i]) == k && obs[i].value.Some?
  {
    if obs == [] then []
    else
      var n := |obs| - 1;
      assert forall i :: 0 <= i < n ==> obs[..n][i] == obs[i];
      PresentKeys(obs[..n]) + (if obs[n].value.Some? then [KeyOf(obs[n])] else [])
  }

  /** The metric names of the observations that carry a value, in input order. */
  function PresentMetrics(obs: seq<Observation>): (ms: seq<string>)
    ensures forall m :: m in ms <==> exists i :: 0 <= i < |obs| && obs[i].metricName == m && obs[i].value.Some?
  {
    if obs == [] then []
    else
      var n := |obs| - 1;
      assert forall i :: 0 <= i < n ==> obs[..n][i] == obs[i];
      PresentMetrics(obs[..n]) + (if obs[n].value.Some? then [obs[n].metricName] else [])
  }

  /** The pivot's row order: (company_id, company_name, year), text compared lexicographically. */
  predicate PivotLe(a: FactKey, b: FactKey) {
    || StrLt(a.companyId, b.companyId)
    || (a.companyId == b.companyId && StrLt(a.companyName, b.companyName))
    || (a.companyId == b.companyId && a.companyName == b.companyName && StrLe(a.year, b.year))
  }

  /** The final sort key (company_id, year); `year` is still text here. */
  predicate FactLe(a: FactKey, b: FactKey) {
    StrLt(a.companyId, b.companyId) || (a.companyId == b.companyId && StrLe(a.year, b.year))
  }

  lemma StrLeTotalPreorder()
    ensures TotalPreorder(StrLe)
  {
    forall x, y ensures StrLe(x, y) || StrLe(y, x) {
      StrLtTotal(x, y);
    }
    forall x, y, z | StrLe(x, y) && StrLe(y, z) ensures StrLe(x, z) {
      if StrLt(x, y) && StrLt(y, z) {
        StrLtTransitive(x, y, z);
      }
    }
  }

  lemma PivotLeTotalPreorder()
    ensures TotalPreorder(PivotLe)
  {
    StrLeTotalPreorder();
    forall x, y ensures PivotLe(x, y) || PivotLe(y, x) {
      StrLtTotal(x.companyId, y.companyId);
      StrLtTotal(x.companyName, y.companyName);
    }
    forall x, y, z | PivotLe(x, y) && PivotLe(y, z) ensures PivotLe(x, z) {
      if StrLt(x.companyId, y.companyId) && StrLt(y.companyId, z.companyId) {
        StrLtTransitive(x.companyId, y.companyId, z.companyId);
      }
      if StrLt(x.companyName, y.companyName) && StrLt(y.companyName, z.companyName) {
        StrLtTransitive(x.companyName, y.companyName, z.companyName);
      }
    }
  }

  lemma FactLeTotalPreorder()
    ensures TotalPreorder(FactLe)
  {
    StrLeTotalPreorder();
    forall x, y ensures FactLe(x, y) || FactLe(y, x) {
      StrLtTotal(x.companyId, y.companyId);
    }
    forall x, y, z | FactLe(x, y) && FactLe(y, z) ensures FactLe(x, z) {
      if StrLt(x.companyId, y.companyId) && StrLt(y.companyId, z.companyId) {
        StrLtTransitive(x.companyId, y.companyId, z.companyId);
      }
    }
  }

  /** The pivot's index: each key with a present value once, in pivot order. */
  function PivotKeys(obs: seq<Observation>): seq<FactKey> {
    SortBy(Unique(PresentKeys(obs)), PivotLe)
  }

  /** The output's keys: the pivot's index re-sorted (stably) by (company_id, year). */
  function RowKeys(obs: seq<Observation>): seq<FactKey> {
    SortBy(PivotKeys(obs), FactLe)
  }

  /** The pivot's metric columns: each metric name with a present value once, sorted. */
  function MetricColumns(obs: seq<Observation>): seq<string> {
    SortBy(Unique(PresentMetrics(obs)), StrLe)
  }

  predicate Matches(o: Observation, k: FactKey, m: string) {
    KeyOf(o) == k && o.metricName == m
  }

  /**
   * `aggfunc="max"` for one key and metric: the largest present value among
   * that key's observations of that metric, None when none is present.
   */
  function MaxValue(obs: seq<Observation>, k: FactKey, m: string): (r: Option<real>)
    ensures r.None? <==> forall i :: 0 <= i < |obs| && Matches(obs[i], k, m) ==> obs[i].value.None?
    ensures r.Some? ==> exists i :: 0 <= i < |obs| && Matches(obs[i], k, m) && obs[i].value == r
    ensures r.Some? ==> forall i :: 0 <= i < |obs| && Matches(obs[i], k, m) && obs[i].value.Some? ==>
      obs[i].value.value <= r.value
  {
    if obs == [] then None
    else
      var n := |obs| - 1;
      var o := obs[n];
      assert forall i :: 0 <= i < n ==> obs[..n][i] == obs[i];
      var rest := MaxValue(obs[..n], k, m);
      if !Matches(o, k, m) || o.value.None? then rest
      else if rest.None? || rest.value < o.value.value then o.value
      else rest
  }

  /**
   * `last_updated` aggregated with max for one key: the lexicographically
   * greatest present `last_updated` text among the key's observations.
   */
  function LatestUpdate(obs: seq<Observation>, k: FactKey): (r: Option<string>)
    ensures r.None? <==> forall i :: 0 <= i < |obs| && KeyOf(obs[i]) == k ==> obs[i].lastUpdated.None?
    ensures r.Some? ==> exists i :: 0 <= i < |obs| && KeyOf(obs[i]) == k && obs[i].lastUpdated == r
    ensures r.Some? ==> forall i :: 0 <= i < |obs| && KeyOf(obs[i]) == k && obs[i].lastUpdated.Some? ==>
      !StrLt(r.value, obs[i].lastUpdated.value)
  {
    if obs == [] then None
    else
      var n := |obs| - 1;
      var o := obs[n];
      assert forall i :: 0 <= i < n ==> obs[..n][i] == obs[i];
      var rest := LatestUpdate(obs[..n], k);
      if KeyOf(o) != k || o.lastUpdated.None? then rest
      else if rest.None? || StrLt(rest.value, o.lastUpdated.value) then
        StrLtIrreflexive(o.lastUpdated.value);
        if rest.Some? then
          NotBelowLater(rest.value, o.lastUpdated.value);
          o.lastUpdated
        else
          o.lastUpdated
      else rest
  }

  /** Whatever is not above `a` is not above a later `b` either. */
  lemma NotBelowLater(a: string, b: string)
    requires StrLt(a, b)
    ensures forall x :: !StrLt(a, x) ==> !StrLt(b, x)
  {
    forall x | StrLt(b, x) ensures StrLt(a, x) {
      StrLtTransitive(a, b, x);
    }
  }

  /** Duplicate observations of a key and metric with values 10 and 25 give 25. */
  lemma MaxOfDuplicates(o1: Observation, o2: Observation)
    requires KeyOf(o1) == KeyOf(o2) && o1.metricName == o2.metricName
    requires o1.value == Some(10.0) && o2.value == Some(25.0)
    ensures MaxValue([o1, o2], KeyOf(o1), o1.metricName) == Some(25.0)
  {
    assert [o1, o2][..1] == [o1];
    assert [o1][..0] == [];
  }

  // ------------------------------------------------------------ output table

  /** One output row: the key, the pivoted metrics, the merged `last_updated`, the run dates. */
  datatype FactRow = FactRow(
    key: FactKey,
    metrics: map<string, Option<real>>,
    lastUpdated: Option<string>,
    createdAt: string,
    updatedAt: string)

  datatype FactTable = FactTable(metricColumns: seq<string>, rows: seq<FactRow>)

  /** The output's column order: the key, the metric columns, then the metadata. */
  function FactColumns(f: FactTable): seq<string> {
    ["company_id", "company_name", "year"] + f.metricColumns + ["last_updated", "created_at", "updated_at"]
  }

  function FactRowOf(obs: seq<Observation>, metrics: seq<string>, k: FactKey, today: string): FactRow {
    FactRow(k, map m | m in metrics :: MaxValue(obs, k, m), LatestUpdate(obs, k), today, today)
  }

  /** Pivot, merge with `last_updated`, stamp the run date, sort. */
  function Pivot(obs: seq<Observation>, today: string): FactTable {
    var metrics := MetricColumns(obs);
    FactTable(metrics, Map(k => FactRowOf(obs, metrics, k, today), RowKeys(obs)))
  }

  /** No two output rows share a (company_id, company_name, year) key. */
  lemma FactKeysUnique(obs: seq<Observation>, today: string)
    ensures var rows := Pivot(obs, today).rows;
      forall i, j :: 0 <= i < j < |rows| ==> rows[i].key != rows[j].key
  {
    var u := Unique(PresentKeys(obs));
    SortByDistinct(u, PivotLe);
    SortByDistinct(SortBy(u, PivotLe), FactLe);
  }

  /** Row `r` of the output is the row of the `r`-th sorted key. */
  lemma PivotRowKeys(obs: seq<Observation>, today: string)
    ensures var rows := Pivot(obs, today).rows;
      |rows| == |RowKeys(obs)| && forall r :: 0 <= r < |rows| ==> rows[r].key == RowKeys(obs)[r]
  {
  }

  /** Sorting the pivot's index loses and adds no key. */
  lemma RowKeysArePresentKeys(obs: seq<Observation>)
    ensures forall k :: k in RowKeys(obs) <==> k in PresentKeys(obs)
  {
    var u := Unique(PresentKeys(obs));
    SameElements(SortBy(u, PivotLe), u);
    SameElements(RowKeys(obs), SortBy(u, PivotLe));
  }

  /** Every output row's key is the key of some observation with a present value. */
  lemma FactKeysFromObservations(obs: seq<Observation>, today: string)
    ensures var rows := Pivot(obs, today).rows;
      forall r :: 0 <= r < |rows| ==>
        exists i :: 0 <= i < |obs| && KeyOf(obs[i]) == rows[r].key && obs[i].value.Some?
  {
    PivotRowKeys(obs, today);
    RowKeysArePresentKeys(obs);
    var rows, keys := Pivot(obs, today).rows, RowKeys(obs);
    forall r | 0 <= r < |rows|
      ensures exists i :: 0 <= i < |obs| && KeyOf(obs[i]) == rows[r].key && obs[i].value.Some?
    {
      assert keys[r] in keys;
    }
  }

  /** Every observation with a present value has an output row with its key. */
  lemma FactKeysCoverObservations(obs: seq<Observation>, today: string)
    ensures var rows := Pivot(obs, today).rows;
      forall i :: 0 <= i < |obs| && obs[i].value.Some? ==>
        exists r :: 0 <= r < |rows| && rows[r].key == KeyOf(obs[i])
  {
    PivotRowKeys(obs, today);
    RowKeysArePresentKeys(obs);
    var rows, keys := Pivot(obs, today).rows, RowKeys(obs);
    forall i | 0 <= i < |obs| && obs[i].value.Some?
      ensures exists r :: 0 <= r < |rows| && rows[r].key == KeyOf(obs[i])
    {
      assert KeyOf(obs[i]) in keys;
      var r :| 0 <= r < |keys| && keys[r] == KeyOf(obs[i]);
      assert rows[r].key == KeyOf(obs[i]);
    }
  }

  /** The output rows are in ascending (company_id, year) order, `year` compared as text. */
  lemma FactRowsSorted(obs: seq<Observation>, today: string)
    ensures var rows := Pivot(obs, today).rows;
      forall i, j :: 0 <= i < j < |rows| ==> FactLe(rows[i].key, rows[j].key)
  {
    FactLeTotalPreorder();
    SortBySorted(PivotKeys(obs), FactLe);
  }

  /**
   * Each row holds, for every metric column, the maximum present value of
   * that metric among the row key's observations, and the latest
   * `last_updated`; both run dates are the given day.
   */
  lemma FactRowContents(obs: seq<Observation>, today: string, r: nat, m: string)
    requires r < |Pivot(obs, today).rows|
    ensures var row := Pivot(obs, today).rows[r];
      && (m in row.metrics <==> m in MetricColumns(obs))
      && (m in row.metrics ==> row.metrics[m] == MaxValue(obs, row.key, m))
      && row.lastUpdated == LatestUpdate(obs, row.key)
      && row.createdAt == today && row.updatedAt == today
  {
  }

  /**
   * The metric columns are the metric names that carry a present value, each
   * once, in lexicographic order.
   */
  lemma MetricColumnsSpec(obs: seq<Observation>)
    ensures var ms := MetricColumns(obs);
      && Distinct(ms)
      && (forall i, j :: 0 <= i < j < |ms| ==> StrLe(ms[i], ms[j]))
      && forall m :: m in ms <==> exists i :: 0 <= i < |obs| && obs[i].metricName == m && obs[i].value.Some?
  {
    var u := Unique(PresentMetrics(obs));
    SortByDistinct(u, StrLe);
    StrLeTotalPreorder();
    SortBySorted(u, StrLe);
    SameElements(MetricColumns(obs), u);
  }

  // ------------------------------------------------------------------- stage

  /**
   * The builder: fails on a missing file or with exactly the missing required
   * columns, in `RequiredColumns` order; otherwise pivots the normalised rows.
   */
  function FactsOf(input: Option<Table>, today: string): (r: Result<FactTable, StageError>)
    ensures input.None? ==> r == Failure(InputMissing)
    ensures input.Some? && MissingColumns(RequiredColumns, input.value.columns) != [] ==>
      r == Failure(ColumnsMissing(MissingColumns(RequiredColumns, input.value.columns)))
    ensures r.Success? <==> input.Some? && forall c :: c in RequiredColumns ==> c in input.value.columns
    ensures r.Success? ==> r.value == Pivot(Observations(input.value.rows), today)
  {
    if input.None? then Failure(InputMissing)
    else
      var t := input.value;
      var missing := MissingColumns(RequiredColumns, t.columns);
      NoMissingColumns(RequiredColumns, t.columns);
      if missing != [] then Failure(ColumnsMissing(missing))
      else Success(Pivot(Observations(t.rows), today))
  }

  /** The normalisation pass over the rows, one row at a time. */
  method NormalizeRows(rows: seq<Row>) returns (obs: seq<Observation>)
    ensures obs == Observations(rows)
  {
    obs := [];
    for i := 0 to |rows|
      invariant obs == Map(CleanObservation, rows[..i])
    {
      MapSnoc(CleanObservation, rows, i);
      obs := obs + [CleanObservation(rows[i])];
    }
    assert rows[..|rows|] == rows;
  }

  /** `main` of the builder: the column check, the normalisation pass, the pivot. */
  method BuildFacts(input: Option<Table>, today: string) returns (r: Result<FactTable, StageError>)
    ensures r == FactsOf(input, today)
  {
    if input.None? {
      return Failure(InputMissing);
    }
    var t := input.value;
    var missing := MissingColumns(RequiredColumns, t.columns);
    if missing != [] {
      return Failure(ColumnsMissing(missing));
    }
    var obs := NormalizeRows(t.rows);
    r := Success(Pivot(obs, today));
  }
}
