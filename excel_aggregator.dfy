/**
  The spreadsheet importer. Headers are mapped onto the logical fields; without a key or a
  summary column nothing is processed. Every row then becomes one issue record: text fields
  are `str()`-ed and blank-stripped, assignee and feature link fall back to a placeholder
  when empty, the hour columns go through the time parser, and the completion percentage is
  guarded against a non-positive estimate. The processed issues are kept on the aggregator,
  which summarizes them by feature link and assignee.
*/
module ExcelAggregator {
  import opened Wrappers
  import Text
  import Numbers
  import opened Cells
  import Duration
  import opened ColumnMapper
  import Aggregation

  /** A sheet row as pandas gives it: the cell under each header. */
  type Row = map<string, Value>

  /**
    `ExcelIssueSummary`. The completion percentage is set once from the hours the record
    holds and never changed, so it is derived from them here.
  */
  datatype ExcelIssue = ExcelIssue(
    key: string, summary: string, assignee: string, featureLink: string,
    estimatedHours: real, remainingHours: real, spentHours: real,
    status: string, priority: string, issueType: string)
  {
    function CompletionPercent(): real {
      RowCompletion(spentHours, estimatedHours)
    }
  }

  /** `row.get(mapping.get(field, ''), default)`: an unmapped field looks up the column named "". */
  function Lookup(row: Row, mapping: map<Field, string>, f: Field, default: Value): Value {
    var column := if f in mapping then mapping[f] else "";
    if column in row then row[column] else default
  }

  /** `str(v).strip()`. */
  function TextOf(v: Value): string {
    Text.Strip(Str(v))
  }

  /** The assignee and feature-link rule: a missing or blank cell gives the placeholder. */
  function OrPlaceholder(v: Value, placeholder: string): string {
    if IsNa(v) || TextOf(v) == "" then placeholder else TextOf(v)
  }

  /** The completion guard of the row loop. */
  function RowCompletion(spent: real, estimated: real): real {
    if estimated > 0.0 then spent / estimated * 100.0 else 0.0
  }

  /** The body of the row loop for the row at `position`. */
  function NormalizeRow(row: Row, mapping: map<Field, string>, position: nat): ExcelIssue {
    var estimated := Duration.ParseTimeValue(Lookup(row, mapping, EstimatedHours, Int(0)));
    var remaining := Duration.ParseTimeValue(Lookup(row, mapping, RemainingHours, Int(0)));
    var spent := Duration.ParseTimeValue(Lookup(row, mapping, SpentHours, Int(0)));
    ExcelIssue(
      TextOf(Lookup(row, mapping, Key, Text("ISSUE-" + Numbers.NatToString(position + 1)))),
      TextOf(Lookup(row, mapping, Summary, Text("No Summary"))),
      OrPlaceholder(Lookup(row, mapping, Assignee, Text("Unassigned")), "Unassigned"),
      OrPlaceholder(Lookup(row, mapping, FeatureLink, Text("No Feature Link")), "No Feature Link"),
      estimated, remaining, spent,
      TextOf(Lookup(row, mapping, Status, Text("Unknown"))),
      TextOf(Lookup(row, mapping, Priority, Text("Medium"))),
      TextOf(Lookup(row, mapping, IssueType, Text("Story"))))
  }

  /** The ValueError message naming the missing required fields as a Python list. */
  function MissingMessage(mapping: map<Field, string>): string {
    "Required columns not found: " +
    (if Key !in mapping && Summary !in mapping then "['key', 'summary']"
     else if Key !in mapping then "['key']"
     else "['summary']")
  }

  /** The row loop's body as a function of the row and its position. */
  function Normalizer(mapping: map<Field, string>): (Row, nat) -> ExcelIssue {
    (row: Row, position: nat) => NormalizeRow(row, mapping, position)
  }

  /** `f` applied to each of the first `n` rows and its position, in row order. */
  function MapRows<R, T>(f: (R, nat) -> T, rows: seq<R>, n: nat): seq<T>
    requires n <= |rows|
  {
    if n == 0 then [] else MapRows(f, rows, n - 1) + [f(rows[n - 1], n - 1)]
  }

  /** What `process_excel_data` computes from the header row and the data rows. */
  function ProcessSheet(headers: seq<string>, rows: seq<Row>): Result<seq<ExcelIssue>, PyError> {
    var mapping := Detected(headers);
    if Key !in mapping || Summary !in mapping then Err(ValueError(MissingMessage(mapping)))
    else Ok(MapRows(Normalizer(mapping), rows, |rows|))
  }

  /** The per-issue figures the summaries group. */
  function Efforts(issues: seq<ExcelIssue>): (es: seq<Aggregation.Effort>)
    ensures |es| == |issues|
    ensures forall i :: 0 <= i < |issues| ==> es[i].feature == issues[i].featureLink && es[i].assignee == issues[i].assignee
  {
    seq(|issues|, i requires 0 <= i < |issues| =>
      Aggregation.Effort(issues[i].featureLink, issues[i].assignee,
        issues[i].estimatedHours, issues[i].remainingHours, issues[i].spentHours))
  }

  class ExcelDataAggregator {
    var processedIssues: seq<ExcelIssue>

    constructor ()
      ensures processedIssues == []
    {
      processedIssues := [];
    }

    /**
      `process_excel_data` on a loaded sheet: maps the headers, checks the required fields,
      normalizes every row in order and keeps the result.
    */
    method ProcessExcelData(headers: seq<string>, rows: seq<Row>) returns (r: Result<seq<ExcelIssue>, PyError>)
      modifies this
      ensures r == ProcessSheet(headers, rows)
      ensures r.Ok? ==> processedIssues == r.value
      ensures r.Err? ==> processedIssues == old(processedIssues)
    {
      var mapping := DetectColumnMappings(headers);
      if Key !in mapping || Summary !in mapping {
        return Err(ValueError(MissingMessage(mapping)));
      }
      var processed: seq<ExcelIssue> := [];
      var idx := 0;
      while idx < |rows|
        invariant 0 <= idx <= |rows|
        invariant processed == MapRows(Normalizer(mapping), rows, idx)
      {
        MapRowsSnoc(Normalizer(mapping), rows, idx);
        processed := processed + [NormalizeRow(rows[idx], mapping, idx)];
        idx := idx + 1;
      }
      processedIssues := processed;
      r := Ok(processed);
    }

    /** `create_aggregated_summary`: refuses to run before any issue was processed. */
    function CreateAggregatedSummary(): (r: Result<seq<Aggregation.GroupRow>, PyError>)
      reads this
      ensures r.Err? <==> processedIssues == []
      ensures r.Err? ==> r.error.ValueError?
      ensures r.Ok? ==> r.value == Aggregation.Summarize(Efforts(processedIssues), Aggregation.ByFeatureAndAssignee)
    {
      if processedIssues == [] then Err(ValueError("No processed issues available. Run process_excel_data() first."))
      else Ok(Aggregation.Summarize(Efforts(processedIssues), Aggregation.ByFeatureAndAssignee))
    }

    /** The tables `export_to_excel` writes; the workbook itself is not modelled. */
    function ExportTables(): (r: Result<Aggregation.Tables, PyError>)
      reads this
      ensures r.Err? <==> processedIssues == []
      ensures r.Ok? ==> r.value.byFeatureAndAssignee == CreateAggregatedSummary().value
      ensures r.Ok? ==> r.value == Aggregation.SummaryTables(Efforts(processedIssues))
    {
      if processedIssues == [] then Err(ValueError("No processed issues available. Run process_excel_data() first."))
      else
        Ok(Aggregation.SummaryTables(Efforts(processedIssues)))
    }
  }

  // ---------------------------------------------------------------------------
  // What the importer promises

  /** Without a key or a summary column the import fails with a ValueError, whatever the rows. */
  lemma RequiredFields(headers: seq<string>, rows: seq<Row>)
    ensures ProcessSheet(headers, rows).Err? <==>
      MappingFor(headers, Patterns(Key)).None? || MappingFor(headers, Patterns(Summary)).None?
    ensures ProcessSheet(headers, rows).Err? ==> ProcessSheet(headers, rows).error.ValueError?
  {
    DetectedHas(headers, Key);
    DetectedHas(headers, Summary);
  }

  /** Otherwise there is one issue per row, in row order. */
  lemma OneIssuePerRow(headers: seq<string>, rows: seq<Row>)
    requires ProcessSheet(headers, rows).Ok?
    ensures |ProcessSheet(headers, rows).value| == |rows|
    ensures forall i :: 0 <= i < |rows| ==> ProcessSheet(headers, rows).value[i] == NormalizeRow(rows[i], Detected(headers), i)
  {
    MapRowsAt(Normalizer(Detected(headers)), rows, |rows|);
  }

  lemma {:induction false} MapRowsAt<R, T>(f: (R, nat) -> T, rows: seq<R>, n: nat)
    requires n <= |rows|
    ensures |MapRows(f, rows, n)| == n
    ensures forall i :: 0 <= i < n ==> MapRows(f, rows, n)[i] == f(rows[i], i)
  {
    if n > 0 {
      MapRowsAt(f, rows, n - 1);
    }
  }

  lemma MapRowsSnoc<R, T>(f: (R, nat) -> T, rows: seq<R>, n: nat)
    requires n < |rows|
    ensures MapRows(f, rows, n + 1) == MapRows(f, rows, n) + [f(rows[n], n)]
  {
  }

  /** A placeholder field is never blank, and a kept value is stripped and non-empty. */
  lemma PlaceholderRule(v: Value, placeholder: string)
    requires placeholder != ""
    ensures OrPlaceholder(v, placeholder) == placeholder <==>
      IsNa(v) || TextOf(v) == "" || TextOf(v) == placeholder
    ensures OrPlaceholder(v, placeholder) != ""
    ensures Text.Strip(OrPlaceholder(v, placeholder)) == OrPlaceholder(v, placeholder) || OrPlaceholder(v, placeholder) == placeholder
  {
    Text.StripIdempotent(Str(v));
  }

  /** An assignee or feature-link column that is missing, NaN or blank gives the placeholder. */
  lemma EmptyAssignee(row: Row, mapping: map<Field, string>, position: nat)
    ensures var v := Lookup(row, mapping, Assignee, Text("Unassigned"));
      (IsNa(v) || TextOf(v) == "") ==> NormalizeRow(row, mapping, position).assignee == "Unassigned"
    ensures var v := Lookup(row, mapping, FeatureLink, Text("No Feature Link"));
      (IsNa(v) || TextOf(v) == "") ==> NormalizeRow(row, mapping, position).featureLink == "No Feature Link"
    ensures var v := Lookup(row, mapping, Assignee, Text("Unassigned"));
      !IsNa(v) && TextOf(v) != "" ==> NormalizeRow(row, mapping, position).assignee == TextOf(v)
  {
  }

  /** The completion of an issue is 0 unless the estimate is positive, and then spent / estimate * 100. */
  lemma CompletionGuard(issue: ExcelIssue)
    ensures issue.estimatedHours <= 0.0 ==> issue.CompletionPercent() == 0.0
    ensures issue.estimatedHours > 0.0 ==> issue.CompletionPercent() * issue.estimatedHours == issue.spentHours * 100.0
  {
  }

  /** The hour columns are the parsed cells, and an unmapped hour column counts as 0 hours. */
  lemma UnmappedHours(row: Row, mapping: map<Field, string>, position: nat)
    requires EstimatedHours !in mapping && "" !in row
    ensures NormalizeRow(row, mapping, position).estimatedHours == 0.0
    ensures NormalizeRow(row, mapping, position).CompletionPercent() == 0.0
  {
    Duration.NumberCells(Int(0));
  }

  /** A row without the key column is keyed `ISSUE-<n>` with its 1-based position. */
  lemma PlaceholderKey(row: Row, mapping: map<Field, string>, position: nat)
    requires (if Key in mapping then mapping[Key] else "") !in row
    ensures NormalizeRow(row, mapping, position).key == "ISSUE-" + Numbers.NatToString(position + 1)
  {
    var k := "ISSUE-" + Numbers.NatToString(position + 1);
    var digits := Numbers.NatToString(position + 1);
    assert Numbers.IsDigit(digits[|digits| - 1]);
    assert k[|k| - 1] == digits[|digits| - 1];
    Text.StripUnpadded(k);
  }

  /** The summary counts every processed issue exactly once. */
  lemma SummaryCountsIssues(a: ExcelDataAggregator)
    requires a.CreateAggregatedSummary().Ok?
    ensures Aggregation.CountSum(a.CreateAggregatedSummary().value) == |a.processedIssues|
  {
    Aggregation.SummarizeCounts(Efforts(a.processedIssues), Aggregation.ByFeatureAndAssignee);
  }

  /** The three sheets summarize the processed issues by feature and assignee, by feature and by assignee. */
  lemma ExportedTables(a: ExcelDataAggregator)
    requires a.ExportTables().Ok?
    ensures var t := a.ExportTables().value;
      var es := Efforts(a.processedIssues);
      Aggregation.Summarizes(es, Aggregation.ByFeatureAndAssignee, t.byFeatureAndAssignee) &&
      Aggregation.Summarizes(es, Aggregation.ByFeature, t.byFeature) &&
      Aggregation.Summarizes(es, Aggregation.ByAssignee, t.byAssignee)
  {
    Aggregation.TablesSpec(Efforts(a.processedIssues));
  }
}
