/**
  The REST-API aggregator. Each issue, as the search endpoint returns it in JSON, is turned
  into an issue summary: the assignee's display name, the three time-tracking values (each
  the primary field if truthy, else the aggregate field, else 0, in seconds, then hours), the
  feature link (the epic-link custom field, else the first epic or feature found through an
  allow-listed issue link, else "No Feature Link"), and the plain fields with '' defaults.
  The detailed report holds one summary per issue; the summaries are then grouped as the
  spreadsheet importer's are.

  Python's dynamic typing is kept: the values are JSON values, `get` on anything but a dict
  raises AttributeError, arithmetic on a string raises TypeError, and truthiness decides the
  `or` chains.
*/
module JiraAggregator {
  import opened Wrappers
  import Text
  import Aggregation

  /** A decoded JSON value, as `response.json()` gives it. */
  datatype Json =
    | JNull
    | JBool(b: bool)
    | JNum(n: real)
    | JStr(s: string)
    | JArr(items: seq<Json>)
    | JObj(members: map<string, Json>)

  const EmptyObject: Json := JObj(map[])

  /** Python truthiness: `None`, `False`, `0`, `''`, `[]` and `{}` are false. */
  predicate Truthy(v: Json) {
    match v
    case JNull => false
    case JBool(b) => b
    case JNum(n) => n != 0.0
    case JStr(s) => s != ""
    case JArr(items) => items != []
    case JObj(m) => m != map[]
  }

  /** `v.get(k, default)`: only a dict has `get`. */
  function Get(v: Json, k: string, default: Json): (r: Result<Json, PyError>)
    ensures r.Ok? <==> v.JObj?
    ensures r.Ok? ==> r.value == (if k in v.members then v.members[k] else default)
  {
    if v.JObj? then Ok(if k in v.members then v.members[k] else default)
    else Err(AttributeError("get"))
  }

  /** `v.lower()`: only a string has `lower`. */
  function Lower(v: Json): (r: Result<string, PyError>)
    ensures r.Ok? <==> v.JStr?
    ensures r.Ok? ==> r.value == Text.ToLower(v.s)
  {
    if v.JStr? then Ok(Text.ToLower(v.s)) else Err(AttributeError("lower"))
  }

  /** `v.get(k, {}).get('name', '')`: the name of a status, priority, issue type or link type. */
  function NameOf(v: Json, k: string): Result<Json, PyError> {
    var obj :- Get(v, k, EmptyObject);
    Get(obj, "name", JStr(""))
  }

  // ---------------------------------------------------------------------------
  // Time tracking

  /** `fields.get(primary, 0) or fields.get(aggregate, 0) or 0`, in seconds. */
  function Seconds(fields: Json, primary: string, aggregate: string): Result<Json, PyError> {
    var p :- Get(fields, primary, JNum(0.0));
    if Truthy(p) then Ok(p)
    else
      var a :- Get(fields, aggregate, JNum(0.0));
      if Truthy(a) then Ok(a) else Ok(JNum(0.0))
  }

  /** `seconds / 3600 if seconds else 0`: a number divides, `True` counts as 1, anything else truthy raises. */
  function Hours(seconds: Json): Result<real, PyError> {
    if !Truthy(seconds) then Ok(0.0)
    else
      match seconds
      case JNum(n) => Ok(n / 3600.0)
      case JBool(_) => Ok(1.0 / 3600.0)
      case _ => Err(TypeError("unsupported operand type(s) for /: 'str' and 'int'"))
  }

  // ---------------------------------------------------------------------------
  // The feature link

  /** The link types the scan considers, compared lowercased. */
  const LinkTypes: seq<string> := ["epic-story", "feature-story", "relates"]

  /** One end of a link: its key when it is set and its issue type names an epic or a feature. */
  function LinkedFeature(linked: Json): Result<Option<Json>, PyError> {
    if !Truthy(linked) then Ok(None)
    else
      var fields :- Get(linked, "fields", EmptyObject);
      var name :- NameOf(fields, "issuetype");
      var issueType :- Lower(name);
      if Text.Contains(issueType, "epic") || Text.Contains(issueType, "feature") then
        var key :- Get(linked, "key", JStr(""));
        Ok(Some(key))
      else Ok(None)
  }

  /** What one issue link contributes: nothing unless its type is allow-listed, then the inward end before the outward end. */
  function LinkCandidate(link: Json): Result<Option<Json>, PyError> {
    var name :- NameOf(link, "type");
    var linkType :- Lower(name);
    if linkType !in LinkTypes then Ok(None)
    else
      var inward :- Get(link, "inwardIssue", JNull);
      var fromInward :- LinkedFeature(inward);
      if fromInward.Some? then Ok(fromInward)
      else
        var outward :- Get(link, "outwardIssue", JNull);
        LinkedFeature(outward)
  }

  /** The first `Some` that `f` gives along `xs`, in order, stopping at the first error. */
  function FirstFound<X, Y>(f: X -> Result<Option<Y>, PyError>, xs: seq<X>): Result<Option<Y>, PyError>
    decreases |xs|
  {
    if |xs| == 0 then Ok(None)
    else
      var found :- f(xs[0]);
      if found.Some? then Ok(found) else FirstFound(f, xs[1..])
  }

  /**
    The elements `for link in issue_links` visits. A list yields its items. A string or a dict
    yields strings, and `get` on the first of them raises, so only an empty one gets through;
    any other value is not iterable.
  */
  function LinkItems(links: Json): Result<seq<Json>, PyError> {
    match links
    case JArr(items) => Ok(items)
    case JStr(s) => if s == "" then Ok([]) else Err(AttributeError("get"))
    case JObj(m) => if m == map[] then Ok([]) else Err(AttributeError("get"))
    case _ => Err(TypeError("object is not iterable"))
  }

  /** `_extract_feature_link`. */
  function ExtractFeatureLink(fields: Json): Result<Json, PyError> {
    var epic :- Get(fields, "customfield_10014", JNull);
    if Truthy(epic) then Ok(epic)
    else
      var links :- Get(fields, "issuelinks", JArr([]));
      var items :- LinkItems(links);
      var found :- FirstFound(LinkCandidate, items);
      Ok(found.GetOr(JStr("No Feature Link")))
  }

  // ---------------------------------------------------------------------------
  // The issue summary

  /** `IssueSummary`. The value-carrying fields keep whatever JSON value the issue held. */
  datatype IssueSummary = IssueSummary(
    key: Json, summary: Json, assignee: Json, featureLink: Json,
    estimatedHours: real, remainingHours: real, spentHours: real,
    status: Json, priority: Json, issueType: Json, created: Json, updated: Json)

  /** `assignee.get('displayName', 'Unassigned') if assignee else 'Unassigned'`. */
  function AssigneeName(fields: Json): Result<Json, PyError> {
    var assignee :- Get(fields, "assignee", JNull);
    if Truthy(assignee) then Get(assignee, "displayName", JStr("Unassigned")) else Ok(JStr("Unassigned"))
  }

  /** The three hour figures. */
  datatype Tracked = Tracked(estimated: real, remaining: real, spent: real)

  /** The estimated, remaining and spent hours, computed in that order. */
  function TimeTracking(fields: Json): Result<Tracked, PyError> {
    var estimated :- Seconds(fields, "timeoriginalestimate", "aggregatetimeoriginalestimate");
    var remaining :- Seconds(fields, "timeestimate", "aggregatetimeestimate");
    var spent :- Seconds(fields, "timespent", "aggregatetimespent");
    var e :- Hours(estimated);
    var r :- Hours(remaining);
    var s :- Hours(spent);
    Ok(Tracked(e, r, s))
  }

  /** `extract_issue_summary`: the first exception raised, or the summary. */
  function ExtractIssueSummary(issue: Json): Result<IssueSummary, PyError> {
    var fields :- Get(issue, "fields", EmptyObject);
    var assignee :- AssigneeName(fields);
    var effort :- TimeTracking(fields);
    var feature :- ExtractFeatureLink(fields);
    var key :- Get(issue, "key", JStr(""));
    var summary :- Get(fields, "summary", JStr(""));
    var status :- NameOf(fields, "status");
    var priority :- NameOf(fields, "priority");
    var issueType :- NameOf(fields, "issuetype");
    var created :- Get(fields, "created", JStr(""));
    var updated :- Get(fields, "updated", JStr(""));
    Ok(IssueSummary(
      key, summary, assignee, feature,
      effort.estimated, effort.remaining, effort.spent,
      status, priority, issueType, created, updated))
  }

  // ---------------------------------------------------------------------------
  // Reports

  /** `create_summary_report`: the detailed table, one summary per issue. */
  function CreateSummaryReport(issues: seq<Json>): Result<seq<IssueSummary>, PyError> {
    MapAll(ExtractIssueSummary, issues)
  }

  /** The group keys of a summary are strings, the only keys the model groups. */
  predicate Groupable(details: seq<IssueSummary>) {
    forall i :: 0 <= i < |details| ==> details[i].featureLink.JStr? && details[i].assignee.JStr?
  }

  /** The figures the grouped tables are built from. */
  function Efforts(details: seq<IssueSummary>): (es: seq<Aggregation.Effort>)
    requires Groupable(details)
    ensures |es| == |details|
    ensures forall i :: 0 <= i < |details| ==>
      es[i].feature == details[i].featureLink.s && es[i].assignee == details[i].assignee.s
  {
    seq(|details|, i requires 0 <= i < |details| =>
      Aggregation.Effort(details[i].featureLink.s, details[i].assignee.s,
        details[i].estimatedHours, details[i].remainingHours, details[i].spentHours))
  }

  /**
    A `groupby` on the detailed table. An empty report is a DataFrame without columns, so
    the group column is missing.
  */
  function Grouped(details: seq<IssueSummary>, g: Aggregation.Grouping): (r: Result<seq<Aggregation.GroupRow>, PyError>)
    ensures r.Err? <==> details == [] || !Groupable(details)
    ensures details == [] ==> r == Err(KeyError("Feature Link"))
    ensures r.Ok? ==> Groupable(details) && r.value == Aggregation.Summarize(Efforts(details), g)
  {
    if details == [] then Err(KeyError("Feature Link"))
    else if !Groupable(details) then Err(TypeError("unorderable group keys"))
    else Ok(Aggregation.Summarize(Efforts(details), g))
  }

  /** `create_aggregated_summary`: by feature link and assignee. */
  function CreateAggregatedSummary(details: seq<IssueSummary>): Result<seq<Aggregation.GroupRow>, PyError> {
    Grouped(details, Aggregation.ByFeatureAndAssignee)
  }

  /** The three summary sheets `export_to_excel` writes; the workbook itself is not modelled. */
  function ExportTables(details: seq<IssueSummary>): (r: Result<Aggregation.Tables, PyError>)
    ensures r.Err? <==> CreateAggregatedSummary(details).Err?
    ensures r.Ok? ==> r.value.byFeatureAndAssignee == CreateAggregatedSummary(details).value
    ensures r.Ok? ==> Groupable(details) && r.value == Aggregation.SummaryTables(Efforts(details))
  {
    if details == [] then Err(KeyError("Feature Link"))
    else if !Groupable(details) then Err(TypeError("unorderable group keys"))
    else Ok(Aggregation.SummaryTables(Efforts(details)))
  }

  // ---------------------------------------------------------------------------
  // What extraction promises

  /** The value a dict holds under `k`, or `default`. */
  function Member(m: map<string, Json>, k: string, default: Json): Json {
    if k in m then m[k] else default
  }

  /** A reference reading of a time field pair: the first of the two that is a nonzero number, else 0. */
  function SecondsOf(m: map<string, Json>, primary: string, aggregate: string): real {
    var p := Member(m, primary, JNum(0.0));
    var a := Member(m, aggregate, JNum(0.0));
    if p.JNum? && p.n != 0.0 then p.n else if a.JNum? && a.n != 0.0 then a.n else 0.0
  }

  /** The time fields of an issue that hold numbers, or nothing. */
  predicate NumericTimes(m: map<string, Json>) {
    forall k :: k in m && k in TimeFields ==> m[k].JNum? || m[k] == JNull
  }

  const TimeFields: set<string> := {
    "timeoriginalestimate", "aggregatetimeoriginalestimate", "timeestimate",
    "aggregatetimeestimate", "timespent", "aggregatetimespent"}

  /**
    With numeric time fields, each figure is the primary field when it is nonzero, else the
    aggregate field, else 0, converted from seconds to hours; a primary 0 falls through.
  */
  lemma TimeTrackingHours(m: map<string, Json>)
    requires NumericTimes(m)
    ensures TimeTracking(JObj(m)) == Ok(Tracked(
      SecondsOf(m, "timeoriginalestimate", "aggregatetimeoriginalestimate") / 3600.0,
      SecondsOf(m, "timeestimate", "aggregatetimeestimate") / 3600.0,
      SecondsOf(m, "timespent", "aggregatetimespent") / 3600.0))
  {
    SecondsNumeric(m, "timeoriginalestimate", "aggregatetimeoriginalestimate");
    SecondsNumeric(m, "timeestimate", "aggregatetimeestimate");
    SecondsNumeric(m, "timespent", "aggregatetimespent");
  }

  lemma SecondsNumeric(m: map<string, Json>, primary: string, aggregate: string)
    requires primary in TimeFields && aggregate in TimeFields && NumericTimes(m)
    ensures Seconds(JObj(m), primary, aggregate).Ok?
    ensures Hours(Seconds(JObj(m), primary, aggregate).value) == Ok(SecondsOf(m, primary, aggregate) / 3600.0)
  {
  }

  /** The `or` chain: a truthy primary value wins, else a truthy aggregate value, else 0. */
  lemma SecondsChain(m: map<string, Json>, primary: string, aggregate: string)
    ensures var p := Member(m, primary, JNum(0.0));
      var a := Member(m, aggregate, JNum(0.0));
      Seconds(JObj(m), primary, aggregate) ==
        Ok(if Truthy(p) then p else if Truthy(a) then a else JNum(0.0))
  {
  }

  /** A text duration such as "2h" in the primary estimate field is not converted: the division raises. */
  lemma TextSeconds(m: map<string, Json>, s: string)
    requires "timeoriginalestimate" in m && m["timeoriginalestimate"] == JStr(s) && s != ""
    ensures TimeTracking(JObj(m)) == Err(TypeError("unsupported operand type(s) for /: 'str' and 'int'"))
  {
  }

  /** The assignee is the display name of a set assignee, and "Unassigned" when there is none or it has no name. */
  lemma AssigneeRule(m: map<string, Json>)
    ensures Member(m, "assignee", JNull) == JNull ==> AssigneeName(JObj(m)) == Ok(JStr("Unassigned"))
    ensures Member(m, "assignee", JNull).JObj? ==>
      AssigneeName(JObj(m)) == Ok(Member(Member(m, "assignee", JNull).members, "displayName", JStr("Unassigned")))
  {
  }

  /** A truthy epic link is the feature link, whatever the issue links hold. */
  lemma EpicLinkWins(m: map<string, Json>)
    requires Truthy(Member(m, "customfield_10014", JNull))
    ensures ExtractFeatureLink(JObj(m)) == Ok(m["customfield_10014"])
  {
  }

  /** A link whose type is not allow-listed contributes nothing, whatever its ends hold. */
  lemma LinkTypeIgnored(link: Json, linkType: string)
    requires NameOf(link, "type") == Ok(JStr(linkType))
    requires Text.ToLower(linkType) !in LinkTypes
    ensures LinkCandidate(link) == Ok(None)
  {
  }

  /** For an allow-listed link, a qualifying inward issue is taken and the outward end is not looked at. */
  lemma InwardFirst(link: Json, linkType: string, key: Json)
    requires NameOf(link, "type") == Ok(JStr(linkType))
    requires Text.ToLower(linkType) in LinkTypes
    requires link.JObj? && "inwardIssue" in link.members
    requires LinkedFeature(link.members["inwardIssue"]) == Ok(Some(key))
    ensures LinkCandidate(link) == Ok(Some(key))
  {
  }

  /** Otherwise the outward end decides. */
  lemma OutwardSecond(link: Json, linkType: string)
    requires NameOf(link, "type") == Ok(JStr(linkType))
    requires Text.ToLower(linkType) in LinkTypes
    requires link.JObj? && LinkedFeature(Member(link.members, "inwardIssue", JNull)) == Ok(None)
    ensures LinkCandidate(link) == LinkedFeature(Member(link.members, "outwardIssue", JNull))
  {
  }

  /** A linked issue qualifies exactly when its lowercased type mentions an epic or a feature; it gives its key, or ''. */
  lemma LinkedFeatureRule(linked: map<string, Json>, issueType: string)
    requires linked != map[]
    requires NameOf(Member(linked, "fields", EmptyObject), "issuetype") == Ok(JStr(issueType))
    ensures var lower := Text.ToLower(issueType);
      LinkedFeature(JObj(linked)) ==
        if Text.Contains(lower, "epic") || Text.Contains(lower, "feature") then Ok(Some(Member(linked, "key", JStr(""))))
        else Ok(None)
  {
  }

  /** Without an epic link, the first link that yields a feature decides. */
  lemma FirstLinkDecides(m: map<string, Json>, links: seq<Json>, i: nat, key: Json)
    requires !Truthy(Member(m, "customfield_10014", JNull))
    requires "issuelinks" in m && m["issuelinks"] == JArr(links)
    requires i < |links| && LinkCandidate(links[i]) == Ok(Some(key))
    requires forall j :: 0 <= j < i ==> LinkCandidate(links[j]) == Ok(None)
    ensures ExtractFeatureLink(JObj(m)) == Ok(key)
  {
    FirstFoundAt(LinkCandidate, links, i);
  }

  /** Without an epic link and with no link yielding a feature, the result is the sentinel. */
  lemma NoFeatureLink(m: map<string, Json>, links: seq<Json>)
    requires !Truthy(Member(m, "customfield_10014", JNull))
    requires Member(m, "issuelinks", JArr([])) == JArr(links)
    requires forall j :: 0 <= j < |links| ==> LinkCandidate(links[j]) == Ok(None)
    ensures ExtractFeatureLink(JObj(m)) == Ok(JStr("No Feature Link"))
  {
    FirstFoundNone(LinkCandidate, links);
  }

  /** The sentinel is exactly the case where no link yields a feature (for a link list that scans without error). */
  lemma SentinelOnlyWhenNothingFound(m: map<string, Json>, links: seq<Json>)
    requires !Truthy(Member(m, "customfield_10014", JNull))
    requires Member(m, "issuelinks", JArr([])) == JArr(links)
    requires FirstFound(LinkCandidate, links).Ok?
    ensures FirstFound(LinkCandidate, links) == Ok(None) <==>
      forall j :: 0 <= j < |links| ==> LinkCandidate(links[j]) == Ok(None)
    ensures FirstFound(LinkCandidate, links) != Ok(None) ==>
      ExtractFeatureLink(JObj(m)) == Ok(FirstFound(LinkCandidate, links).value.value)
  {
    FirstFoundNone(LinkCandidate, links);
  }

  lemma {:induction false} FirstFoundNone<X, Y>(f: X -> Result<Option<Y>, PyError>, xs: seq<X>)
    ensures FirstFound(f, xs) == Ok(None) <==> forall i :: 0 <= i < |xs| ==> f(xs[i]) == Ok(None)
    decreases |xs|
  {
    if |xs| > 0 {
      FirstFoundNone(f, xs[1..]);
      assert forall i :: 1 <= i < |xs| ==> xs[1..][i - 1] == xs[i];
    }
  }

  /** The first element whose result is not `None` gives the result, error or found value alike. */
  lemma {:induction false} FirstFoundAt<X, Y>(f: X -> Result<Option<Y>, PyError>, xs: seq<X>, i: nat)
    requires i < |xs| && f(xs[i]) != Ok(None)
    requires forall j :: 0 <= j < i ==> f(xs[j]) == Ok(None)
    ensures FirstFound(f, xs) == f(xs[i])
    decreases i
  {
    if i > 0 {
      assert f(xs[0]) == Ok(None);
      FirstFoundAt(f, xs[1..], i - 1);
    }
  }

  /** Every issue field that is missing reads as ''. */
  lemma MissingFieldsEmpty(issue: Json)
    requires ExtractIssueSummary(issue).Ok?
    ensures var fields := Member(issue.members, "fields", EmptyObject);
      var r := ExtractIssueSummary(issue).value;
      ("key" !in issue.members ==> r.key == JStr("")) &&
      ("summary" !in fields.members ==> r.summary == JStr("")) &&
      ("created" !in fields.members ==> r.created == JStr("")) &&
      ("updated" !in fields.members ==> r.updated == JStr("")) &&
      (Member(fields.members, "status", EmptyObject).JObj? && "name" !in Member(fields.members, "status", EmptyObject).members ==> r.status == JStr("")) &&
      (Member(fields.members, "priority", EmptyObject).JObj? && "name" !in Member(fields.members, "priority", EmptyObject).members ==> r.priority == JStr("")) &&
      (Member(fields.members, "issuetype", EmptyObject).JObj? && "name" !in Member(fields.members, "issuetype", EmptyObject).members ==> r.issueType == JStr(""))
  {
  }

  /** A summary is made of the assignee rule, the time tracking and the feature link of its issue's fields. */
  lemma SummaryParts(issue: Json)
    requires ExtractIssueSummary(issue).Ok?
    ensures var fields := Member(issue.members, "fields", EmptyObject);
      var r := ExtractIssueSummary(issue).value;
      AssigneeName(fields) == Ok(r.assignee) &&
      TimeTracking(fields) == Ok(Tracked(r.estimatedHours, r.remainingHours, r.spentHours)) &&
      ExtractFeatureLink(fields) == Ok(r.featureLink)
  {
  }

  /** The detailed report has one row per issue, in issue order, unless some issue raises. */
  lemma ReportRows(issues: seq<Json>)
    ensures CreateSummaryReport(issues).Ok? <==> forall i :: 0 <= i < |issues| ==> ExtractIssueSummary(issues[i]).Ok?
    ensures CreateSummaryReport(issues).Ok? ==>
      |CreateSummaryReport(issues).value| == |issues| &&
      forall i :: 0 <= i < |issues| ==> CreateSummaryReport(issues).value[i] == ExtractIssueSummary(issues[i]).value
  {
    MapAllOk(ExtractIssueSummary, issues);
  }

  /** The exception a report raises is the first failing issue's. */
  lemma ReportError(issues: seq<Json>, i: nat)
    requires i < |issues| && ExtractIssueSummary(issues[i]).Err?
    requires forall j :: 0 <= j < i ==> ExtractIssueSummary(issues[j]).Ok?
    ensures CreateSummaryReport(issues) == Err(ExtractIssueSummary(issues[i]).error)
  {
    MapAllErr(ExtractIssueSummary, issues, i);
  }

  /** The grouped summary counts every issue once, and the console's grand total of issues is the number of issues. */
  lemma SummaryCountsIssues(details: seq<IssueSummary>)
    requires CreateAggregatedSummary(details).Ok?
    ensures Aggregation.CountSum(CreateAggregatedSummary(details).value) == |details|
    ensures Aggregation.SumRows(CreateAggregatedSummary(details).value).count == |details|
  {
    Aggregation.SummarizeCounts(Efforts(details), Aggregation.ByFeatureAndAssignee);
  }

  /** Each of the three tables has one row per distinct key of its grouping, ascending. */
  lemma TablesKeys(details: seq<IssueSummary>, g: Aggregation.Grouping)
    requires Grouped(details, g).Ok?
    ensures var rows := Grouped(details, g).value;
      (forall i, j :: 0 <= i < j < |rows| ==> Aggregation.KeyLess(rows[i].key, rows[j].key)) &&
      (forall k :: Aggregation.HasKey(Efforts(details), g, k) <==> exists i :: 0 <= i < |rows| && rows[i].key == k) &&
      (forall i :: 0 <= i < |rows| ==> rows[i] == Aggregation.RowFor(Efforts(details), g, rows[i].key))
  {
    Aggregation.SummarizeKeys(Efforts(details), g);
  }

  /**
    The three sheets are the groupings by feature and assignee, by feature and by assignee,
    each a summary of the detailed table.
  */
  lemma ExportedTables(details: seq<IssueSummary>)
    requires ExportTables(details).Ok?
    ensures var t := ExportTables(details).value;
      t.byFeatureAndAssignee == Grouped(details, Aggregation.ByFeatureAndAssignee).value &&
      t.byFeature == Grouped(details, Aggregation.ByFeature).value &&
      t.byAssignee == Grouped(details, Aggregation.ByAssignee).value
    ensures var t := ExportTables(details).value;
      Aggregation.Summarizes(Efforts(details), Aggregation.ByFeatureAndAssignee, t.byFeatureAndAssignee) &&
      Aggregation.Summarizes(Efforts(details), Aggregation.ByFeature, t.byFeature) &&
      Aggregation.Summarizes(Efforts(details), Aggregation.ByAssignee, t.byAssignee)
  {
    Aggregation.TablesSpec(Efforts(details));
  }
}
