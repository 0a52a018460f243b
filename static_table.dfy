/**
 * The company dimension builder (pipeline/extract/01_build_static_table.py):
 * cleans the raw company list, fills the system columns and collects the
 * data-quality issues, which are reported beside the table and never abort.
 */
module StaticTable {
  import opened Wrappers
  import opened Text
  import opened Seqs
  import opened Tables

  const RequiredColumns: seq<string> := ["company_id", "company_name", "country"]

  /** The fixed column order of the output table. */
  const OutputColumns: seq<string> :=
    ["company_id", "company_name", "country", "notes", "status", "created_at", "updated_at"]

  /** The country spellings `_clean_country` rewrites. */
  const CountryAliases: map<string, string> := map[
    "UK" := "United Kingdom",
    "U.K." := "United Kingdom",
    "United Kingdom/Global" := "United Kingdom",
    "Netherlands/Germany" := "Netherlands",
    "Germany/Netherlands" := "Germany"
  ]

  /** `_clean_country`: normalise the whitespace, then map an alias to its country. */
  function CleanCountry(country: string): string {
    var c := Normalize(country);
    if c in CountryAliases then CountryAliases[c] else c
  }

  /** Every alias maps to a normalised country, and no alias maps to another alias. */
  lemma AliasTargetsNormalized()
    ensures forall c :: c in CountryAliases ==> IsNormalized(CountryAliases[c])
    ensures forall c :: c in CountryAliases ==> CountryAliases[c] !in CountryAliases
  {
    UnitedKingdomNormalized();
    SingleWordNormalized("Netherlands");
    SingleWordNormalized("Germany");
  }

  lemma UnitedKingdomNormalized()
    ensures IsNormalized("United Kingdom")
  {
    var uk := "United Kingdom";
    forall i | 0 <= i < |uk| && i != 6 ensures !IsSpace(uk[i]) {
      assert uk[i] in "UnitedKingdom";
    }
  }

  lemma SingleWordNormalized(w: string)
    requires forall i :: 0 <= i < |w| ==> 'A' <= w[i] <= 'z'
    ensures IsNormalized(w)
  {
  }

  /** The normalised input comes back unchanged unless it is one of the alias keys. */
  lemma CleanCountryKeepsNonAliases(country: string)
    ensures Normalize(country) !in CountryAliases ==> CleanCountry(country) == Normalize(country)
    ensures Normalize(country) in CountryAliases ==>
      CleanCountry(country) == CountryAliases[Normalize(country)]
    ensures IsNormalized(CleanCountry(country))
  {
    AliasTargetsNormalized();
    NormalizeIsNormalized(country);
  }

  /** `_clean_country` is idempotent: no country it produces is itself an alias. */
  lemma CleanCountryIdempotent(country: string)
    ensures CleanCountry(CleanCountry(country)) == CleanCountry(country)
  {
    AliasTargetsNormalized();
    var c := CleanCountry(country);
    CleanCountryKeepsNonAliases(country);
    NormalizedIsFixpoint(c);
    if Normalize(country) !in CountryAliases {
      assert c !in CountryAliases;
    }
  }

  /** A row of the company dimension, its fields in `OutputColumns` order. */
  datatype CompanyRow = CompanyRow(
    companyId: string,
    companyName: string,
    country: string,
    notes: Cell,
    status: string,
    createdAt: string,
    updatedAt: string)

  /**
   * One input row cleaned: each required text field is `astype(str)` and
   * whitespace-normalised, the id upper-cased, the country de-aliased; `notes`
   * is kept when the column exists and is "" otherwise.
   */
  function CleanRow(row: Row, hasNotes: bool, today: string): (r: CompanyRow)
    ensures IsNormalized(r.companyId) && IsUpperCase(r.companyId)
    ensures IsNormalized(r.companyName) && IsNormalized(r.country)
    ensures Words(r.companyId) == MapWords(UpperChar, Words(AsText(Get(row, "company_id"))))
    ensures Words(r.companyName) == Words(AsText(Get(row, "company_name")))
    ensures r.country == CleanCountry(AsText(Get(row, "country")))
    ensures r.notes == if hasNotes then Get(row, "notes") else Some("")
    ensures r.status == "active" && r.createdAt == today && r.updatedAt == today
  {
    var id := Normalize(AsText(Get(row, "company_id")));
    NormalizeIsNormalized(AsText(Get(row, "company_id")));
    UpperKeepsNormalized(id);
    UpperCharSpacePreserving();
    MapNormalizeWords(UpperChar, AsText(Get(row, "company_id")));
    NormalizeIsNormalized(AsText(Get(row, "company_name")));
    NormalizeKeepsWords(AsText(Get(row, "company_name")));
    CleanCountryKeepsNonAliases(Normalize(AsText(Get(row, "country"))));
    NormalizeIdempotent(AsText(Get(row, "country")));
    CompanyRow(
      Upper(id),
      Normalize(AsText(Get(row, "company_name"))),
      CleanCountry(Normalize(AsText(Get(row, "country")))),
      if hasNotes then Get(row, "notes") else Some(""),
      "active",
      today,
      today)
  }

  /**
   * `astype(str)` runs before the cleaning, so an absent id becomes the text
   * "NAN": it is not empty, and the empty-id issue does not report it.
   */
  lemma AbsentIdBecomesNan(row: Row, hasNotes: bool, today: string)
    requires Get(row, "company_id").None?
    ensures CleanRow(row, hasNotes, today).companyId == "NAN"
  {
    assert AsText(Get(row, "company_id")) == "nan";
    NanNormalized();
    UpperNan();
  }

  lemma NanNormalized()
    ensures Normalize("nan") == "nan"
  {
    assert IsNormalized("nan");
    NormalizedIsFixpoint("nan");
  }

  lemma UpperNan()
    ensures Upper("nan") == "NAN"
  {
    var u := Upper("nan");
    assert UpperChar('n') == 'N' && UpperChar('a') == 'A';
    assert |u| == 3 && u[0] == 'N' && u[1] == 'A' && u[2] == 'N';
  }

  function CleanRows(rows: seq<Row>, hasNotes: bool, today: string): (r: seq<CompanyRow>)
    ensures |r| == |rows|
    ensures forall i :: 0 <= i < |rows| ==> r[i] == CleanRow(rows[i], hasNotes, today)
  {
    Map(CleanRowOf(hasNotes, today), rows)
  }

  function CleanRowOf(hasNotes: bool, today: string): Row -> CompanyRow {
    row => CleanRow(row, hasNotes, today)
  }

  /** The `company_id` column of the cleaned table. */
  function Ids(rows: seq<CompanyRow>): (ids: seq<string>)
    ensures |ids| == |rows| && forall i :: 0 <= i < |rows| ==> ids[i] == rows[i].companyId
  {
    seq(|rows|, i requires 0 <= i < |rows| => rows[i].companyId)
  }

  /** `df["company_id"][df["company_id"].duplicated()].unique().tolist()`. */
  function DuplicateIds(rows: seq<CompanyRow>): seq<string> {
    Unique(Repeats(Ids(rows)))
  }

  /** `x` occurs as the id of two of the first `n` rows. */
  predicate RepeatedBy(rows: seq<CompanyRow>, x: string, n: nat)
    requires n <= |rows|
  {
    exists i, j :: 0 <= i < j < n && rows[i].companyId == x && rows[j].companyId == x
  }

  /** Some first rows already hold `x` twice but not yet `y`: `x` repeats before `y` does. */
  predicate RepeatsBefore(rows: seq<CompanyRow>, x: string, y: string) {
    exists n :: 0 <= n <= |rows| && RepeatedBy(rows, x, n) && !RepeatedBy(rows, y, n)
  }

  lemma RepeatedByIds(rows: seq<CompanyRow>, x: string, n: nat)
    requires n <= |rows|
    ensures RepeatedIn(Ids(rows)[..n], x) <==> RepeatedBy(rows, x, n)
  {
    var pre := Ids(rows)[..n];
    assert forall i :: 0 <= i < n ==> pre[i] == rows[i].companyId;
  }

  /** Of two listed duplicate ids, the earlier one repeats among the first `n` rows and the later one does not. */
  lemma DuplicateIdsOrder(rows: seq<CompanyRow>, p: nat, q: nat) returns (n: nat)
    requires p < q < |DuplicateIds(rows)|
    ensures n <= |rows| && RepeatedBy(rows, DuplicateIds(rows)[p], n) && !RepeatedBy(rows, DuplicateIds(rows)[q], n)
  {
    var ids := Ids(rows);
    var dups := DuplicateIds(rows);
    UniqueOrder(Repeats(ids));
    assert dups[p] in Repeats(ids) && dups[q] in Repeats(ids);
    RepeatsOrder(ids, dups[p], dups[q]);
    n :| n <= |ids| && RepeatedIn(ids[..n], dups[p]) && !RepeatedIn(ids[..n], dups[q]);
    RepeatedByIds(rows, dups[p], n);
    RepeatedByIds(rows, dups[q], n);
  }

  /**
   * The duplicate-id list names each id that occurs at least twice, each once,
   * in the order in which the ids are first seen repeating: of two listed ids,
   * the earlier one already repeats among some first rows where the later
   * one does not yet.
   */
  lemma DuplicateIdsSpec(rows: seq<CompanyRow>)
    ensures forall x :: x in DuplicateIds(rows) <==>
      exists i, j :: 0 <= i < j < |rows| && rows[i].companyId == x && rows[j].companyId == x
    ensures Distinct(DuplicateIds(rows))
    ensures forall p, q :: 0 <= p < q < |DuplicateIds(rows)| ==>
      RepeatsBefore(rows, DuplicateIds(rows)[p], DuplicateIds(rows)[q])
  {
    var ids := Ids(rows);
    forall p, q | 0 <= p < q < |DuplicateIds(rows)|
      ensures RepeatsBefore(rows, DuplicateIds(rows)[p], DuplicateIds(rows)[q])
    {
      var n := DuplicateIdsOrder(rows, p, q);
    }
    forall x ensures x in DuplicateIds(rows) <==>
      exists i, j :: 0 <= i < j < |rows| && rows[i].companyId == x && rows[j].companyId == x
    {
      if x in DuplicateIds(rows) {
        var i, j :| 0 <= i < j < |ids| && ids[i] == x && ids[j] == x;
        assert rows[i].companyId == x && rows[j].companyId == x;
      }
      if exists i, j :: 0 <= i < j < |rows| && rows[i].companyId == x && rows[j].companyId == x {
        var i, j :| 0 <= i < j < |rows| && rows[i].companyId == x && rows[j].companyId == x;
        assert ids[i] == x && ids[j] == x;
      }
    }
  }

  /** A data-quality finding of the builder. */
  datatype Issue =
    | EmptyValues(column: string)   // some row has an empty value in that column
    | DuplicateIdValues(ids: seq<string>)

  predicate HasEmptyId(rows: seq<CompanyRow>) {
    exists i :: 0 <= i < |rows| && rows[i].companyId == ""
  }

  predicate HasEmptyName(rows: seq<CompanyRow>) {
    exists i :: 0 <= i < |rows| && rows[i].companyName == ""
  }

  predicate HasEmptyCountry(rows: seq<CompanyRow>) {
    exists i :: 0 <= i < |rows| && rows[i].country == ""
  }

  predicate HasDuplicateId(rows: seq<CompanyRow>) {
    exists i, j :: 0 <= i < j < |rows| && rows[i].companyId == rows[j].companyId
  }

  /** The duplicate-id list is non-empty exactly when some id occurs twice. */
  lemma DuplicateIdsNonEmpty(rows: seq<CompanyRow>)
    ensures DuplicateIds(rows) != [] <==> HasDuplicateId(rows)
  {
    DuplicateIdsSpec(rows);
    var dups := DuplicateIds(rows);
    if dups != [] {
      assert dups[0] in dups;
    }
    if HasDuplicateId(rows) {
      var i, j :| 0 <= i < j < |rows| && rows[i].companyId == rows[j].companyId;
      assert rows[i].companyId in dups;
    }
  }

  /** The empty-value issues, one per required column that has an empty value. */
  function EmptyValueIssues(rows: seq<CompanyRow>): (issues: seq<Issue>)
    ensures EmptyValues("company_id") in issues <==> HasEmptyId(rows)
    ensures EmptyValues("company_name") in issues <==> HasEmptyName(rows)
    ensures EmptyValues("country") in issues <==> HasEmptyCountry(rows)
    ensures forall k :: 0 <= k < |issues| ==> issues[k].EmptyValues?
    ensures |issues| <= 3
  {
    (if HasEmptyId(rows) then [EmptyValues("company_id")] else [])
    + (if HasEmptyName(rows) then [EmptyValues("company_name")] else [])
    + (if HasEmptyCountry(rows) then [EmptyValues("country")] else [])
  }

  /**
   * The issues of a cleaned table, in the order the builder checks them:
   * the empty-value findings, then the duplicate ids when there are any.
   */
  function Issues(rows: seq<CompanyRow>): (issues: seq<Issue>)
    ensures EmptyValues("company_id") in issues <==> HasEmptyId(rows)
    ensures EmptyValues("company_name") in issues <==> HasEmptyName(rows)
    ensures EmptyValues("country") in issues <==> HasEmptyCountry(rows)
    ensures DuplicateIdValues(DuplicateIds(rows)) in issues <==> HasDuplicateId(rows)
    ensures forall k :: 0 <= k < |issues| && issues[k].DuplicateIdValues? ==>
      k == |issues| - 1 && issues[k].ids == DuplicateIds(rows)
    ensures |issues| <= 4
  {
    DuplicateIdsNonEmpty(rows);
    var e := EmptyValueIssues(rows);
    var dups := DuplicateIds(rows);
    if dups == [] then e
    else
      assert DuplicateIdValues(dups) !in e;
      e + [DuplicateIdValues(dups)]
  }

  /** The cleaned table, its columns in the enforced order, and the issues found. */
  datatype StaticResult = StaticResult(columns: seq<string>, rows: seq<CompanyRow>, issues: seq<Issue>)

  /**
   * `build_static_table`: fails only on a missing file or missing required
   * columns (naming exactly those, in `RequiredColumns` order); otherwise every
   * input row yields one cleaned row, in order, and the issues come alongside.
   */
  function StaticTableOf(input: Option<Table>, today: string): (r: Result<StaticResult, StageError>)
    ensures input.None? ==> r == Failure(InputMissing)
    ensures input.Some? && MissingColumns(RequiredColumns, input.value.columns) != [] ==>
      r == Failure(ColumnsMissing(MissingColumns(RequiredColumns, input.value.columns)))
    ensures r.Success? <==> input.Some? && forall c :: c in RequiredColumns ==> c in input.value.columns
    ensures r.Success? ==> r.value.columns == OutputColumns && |r.value.rows| == |input.value.rows|
    ensures r.Success? ==> forall i :: 0 <= i < |input.value.rows| ==>
      r.value.rows[i] == CleanRow(input.value.rows[i], "notes" in input.value.columns, today)
    ensures r.Success? ==> r.value.issues == Issues(r.value.rows)
  {
    if input.None? then Failure(InputMissing)
    else
      var t := input.value;
      var missing := MissingColumns(RequiredColumns, t.columns);
      if missing != [] then
        Failure(ColumnsMissing(missing))
      else
        assert forall c :: c in RequiredColumns ==> c in t.columns;
        var rows := CleanRows(t.rows, "notes" in t.columns, today);
        Success(StaticResult(OutputColumns, rows, Issues(rows)))
  }

  /** The cleaning pass: each row normalised in turn, in order. */
  method CleanAll(rows: seq<Row>, hasNotes: bool, today: string) returns (cleaned: seq<CompanyRow>)
    ensures cleaned == CleanRows(rows, hasNotes, today)
  {
    var f := CleanRowOf(hasNotes, today);
    cleaned := [];
    for i := 0 to |rows|
      invariant cleaned == Map(f, rows[..i])
    {
      MapSnoc(f, rows, i);
      cleaned := cleaned + [CleanRow(rows[i], hasNotes, today)];
    }
    assert rows[..|rows|] == rows;
  }

  /** The checks after cleaning, each appending its finding to the issue list. */
  method CollectIssues(rows: seq<CompanyRow>) returns (issues: seq<Issue>)
    ensures issues == Issues(rows)
  {
    issues := [];
    if HasEmptyId(rows) {
      issues := issues + [EmptyValues("company_id")];
    }
    if HasEmptyName(rows) {
      issues := issues + [EmptyValues("company_name")];
    }
    if HasEmptyCountry(rows) {
      issues := issues + [EmptyValues("country")];
    }
    assert issues == EmptyValueIssues(rows);
    var dups := DuplicateIds(rows);
    if dups != [] {
      issues := issues + [DuplicateIdValues(dups)];
    }
  }

  /** `build_static_table` as the source runs it: the column check, the cleaning pass, the checks. */
  method BuildStaticTable(input: Option<Table>, today: string) returns (r: Result<StaticResult, StageError>)
    ensures r == StaticTableOf(input, today)
  {
    if input.None? {
      return Failure(InputMissing);
    }
    var t := input.value;
    var missing := MissingColumns(RequiredColumns, t.columns);
    if missing != [] {
      return Failure(ColumnsMissing(missing));
    }
    var cleaned := CleanAll(t.rows, "notes" in t.columns, today);
    var issues := CollectIssues(cleaned);
    r := Success(StaticResult(OutputColumns, cleaned, issues));
  }
}
