/**
  Column detection of the spreadsheet importer. Each logical field has a list of header
  synonyms, tried in order; the first synonym that occurs in some normalized header
  decides the field. Among the headers containing it, one that equals it is preferred,
  otherwise the first one in header order; the original spelling of that header is used.
*/
module ColumnMapper {
  import opened Wrappers
  import Text

  /** The logical fields, in the order the importer looks for them. */
  datatype Field =
    | Key | Summary | Assignee | Status | Priority | IssueType
    | EstimatedHours | RemainingHours | SpentHours | FeatureLink

  const Fields: seq<Field> := [
    Key, Summary, Assignee, Status, Priority, IssueType,
    EstimatedHours, RemainingHours, SpentHours, FeatureLink
  ]

  /** The synonym table, each list in the order the importer tries it. */
  function Patterns(f: Field): seq<string> {
    match f
    case Key => ["key", "issue key", "ticket", "jira key", "issue id", "id"]
    case Summary => ["summary", "title", "description", "issue summary", "subject"]
    case Assignee => ["assignee", "assigned to", "owner", "developer", "responsible"]
    case Status => ["status", "state", "current status", "issue status"]
    case Priority => ["priority", "importance", "urgency"]
    case IssueType => ["issue type", "type", "issuetype", "category", "kind"]
    case EstimatedHours => [
      "estimated hours", "original estimate", "estimate", "planned hours",
      "time estimate", "estimated time", "original time estimate", "effort estimate"]
    case RemainingHours => [
      "remaining hours", "remaining estimate", "time remaining", "hours remaining",
      "remaining time", "time left", "remaining effort"]
    case SpentHours => [
      "spent hours", "time spent", "logged time", "hours spent", "actual time",
      "work logged", "time logged", "hours logged"]
    case FeatureLink => [
      "feature link", "epic link", "parent", "epic", "feature", "epic key",
      "parent epic", "parent key", "feature key", "linked epic"]
  }

  /** A header lower-cased, then blank-stripped. */
  function Normalize(h: string): string {
    Text.Strip(Text.ToLower(h))
  }

  function Normalized(headers: seq<string>): (columns: seq<string>)
    ensures |columns| == |headers|
    ensures forall i :: 0 <= i < |headers| ==> columns[i] == Normalize(headers[i])
  {
    seq(|headers|, i requires 0 <= i < |headers| => Normalize(headers[i]))
  }

  /** The columns containing the pattern, in column order. */
  function Matches(columns: seq<string>, p: string): (r: seq<string>)
    ensures forall x :: x in r <==> x in columns && Text.Contains(x, p)
    decreases |columns|
  {
    if |columns| == 0 then []
    else (if Text.Contains(columns[0], p) then [columns[0]] else []) + Matches(columns[1..], p)
  }

  /** The matches that are the pattern itself. */
  function ExactMatches(ms: seq<string>, p: string): (r: seq<string>)
    ensures forall x :: x in r <==> x in ms && x == p
    decreases |ms|
  {
    if |ms| == 0 then []
    else (if ms[0] == p then [ms[0]] else []) + ExactMatches(ms[1..], p)
  }

  /** Python's `list.index`: the first position of `x`. */
  function IndexOf(s: seq<string>, x: string): (i: nat)
    requires x in s
    ensures i < |s| && s[i] == x && forall k :: 0 <= k < i ==> s[k] != x
  {
    if s[0] == x then 0 else IndexOf(s[1..], x) + 1
  }

  /** The header one pattern selects, if it occurs in any column. */
  function Choose(headers: seq<string>, p: string): Option<string> {
    var columns := Normalized(headers);
    var ms := Matches(columns, p);
    if |ms| == 0 then None
    else
      var ex := ExactMatches(ms, p);
      var col := if |ex| > 0 then ex[0] else ms[0];
      assert col in ms;
      Some(headers[IndexOf(columns, col)])
  }

  /** The pattern occurs in some normalized header. */
  predicate Occurs(headers: seq<string>, p: string) {
    exists i :: 0 <= i < |headers| && Text.Contains(Normalize(headers[i]), p)
  }

  /** The choice of one pattern, as a function of the pattern. */
  function Chooser(headers: seq<string>): string -> Option<string> {
    p => Choose(headers, p)
  }

  /** The first choice, in pattern order, that selects something. */
  function FirstChoice(choose: string -> Option<string>, patterns: seq<string>): Option<string>
    decreases |patterns|
  {
    if |patterns| == 0 then None
    else if choose(patterns[0]).Some? then choose(patterns[0])
    else FirstChoice(choose, patterns[1..])
  }

  /** The header the first matching pattern selects. */
  function MappingFor(headers: seq<string>, patterns: seq<string>): Option<string> {
    FirstChoice(Chooser(headers), patterns)
  }

  /** The mapping as a value: every field whose patterns select a header, with that header. */
  function Detected(headers: seq<string>): map<Field, string> {
    Picked(FieldChoice(headers))
  }

  /** Every field `pick` gives a header, with that header. */
  function Picked(pick: Field -> Option<string>): map<Field, string> {
    map f | f in Fields && pick(f).Some? :: pick(f).value
  }

  /** `detect_column_mappings`: fields are tried in table order, patterns in list order. */
  method DetectColumnMappings(headers: seq<string>) returns (detected: map<Field, string>)
    ensures forall f :: f in detected <==> MappingFor(headers, Patterns(f)).Some?
    ensures forall f :: f in detected ==> detected[f] == MappingFor(headers, Patterns(f)).value
    ensures detected == Detected(headers)
  {
    var columns := Normalized(headers);
    detected := map[];
    var fi := 0;
    while fi < |Fields|
      invariant 0 <= fi <= |Fields|
      invariant DetectedBefore(FieldChoice(headers), detected, fi)
    {
      var field := Fields[fi];
      var found := FindHeader(headers, columns, Patterns(field));
      DetectStep(FieldChoice(headers), detected, fi, found);
      if found.Some? {
        detected := detected[field := found.value];
      }
      fi := fi + 1;
    }
    DetectedOf(FieldChoice(headers), detected);
  }

  /** The header each field's patterns select. */
  function FieldChoice(headers: seq<string>): Field -> Option<string> {
    f => MappingFor(headers, Patterns(f))
  }

  /** `m` holds exactly the fields before position `n` of the table that `pick` gives a header, with that header. */
  predicate DetectedBefore(pick: Field -> Option<string>, m: map<Field, string>, n: nat) {
    (forall f :: f in m <==> Rank(f) < n && pick(f).Some?) &&
    (forall f :: f in m ==> m[f] == pick(f).value)
  }

  /** One iteration of the field loop. */
  lemma DetectStep(pick: Field -> Option<string>, m: map<Field, string>, n: nat, found: Option<string>)
    requires n < |Fields| && DetectedBefore(pick, m, n)
    requires found == pick(Fields[n])
    ensures DetectedBefore(pick, if found.Some? then m[Fields[n] := found.value] else m, n + 1)
  {
    RankOf(n);
  }

  /** A field is in the mapping exactly when one of its patterns selects a header. */
  lemma DetectedHas(headers: seq<string>, f: Field)
    ensures f in Detected(headers) <==> MappingFor(headers, Patterns(f)).Some?
  {
    PickedHas(FieldChoice(headers), f);
  }

  lemma PickedHas(pick: Field -> Option<string>, f: Field)
    ensures f in Picked(pick) <==> pick(f).Some?
  {
    assert Fields[Rank(f)] == f;
  }

  /** A map with the detected fields and their headers is the mapping. */
  lemma DetectedOf(pick: Field -> Option<string>, m: map<Field, string>)
    requires DetectedBefore(pick, m, |Fields|)
    ensures m == Picked(pick)
  {
    forall f ensures f in Picked(pick) <==> f in m {
      assert Fields[Rank(f)] == f;
    }
  }

  /** The pattern loop of one field: the first pattern with a match decides. */
  method FindHeader(headers: seq<string>, columns: seq<string>, patterns: seq<string>)
    returns (found: Option<string>)
    requires columns == Normalized(headers)
    ensures found == MappingFor(headers, patterns)
  {
    var pi := 0;
    while pi < |patterns|
      invariant 0 <= pi <= |patterns|
      invariant MappingFor(headers, patterns) == FirstChoice(Chooser(headers), patterns[pi..])
    {
      var pattern := patterns[pi];
      var matches := Matches(columns, pattern);
      if |matches| > 0 {
        var exact := ExactMatches(matches, pattern);
        if |exact| > 0 {
          assert exact[0] in matches;
          found := Some(headers[IndexOf(columns, exact[0])]);
        } else {
          found := Some(headers[IndexOf(columns, matches[0])]);
        }
        assert found == Choose(headers, pattern);
        return;
      }
      assert patterns[pi..][1..] == patterns[pi + 1..];
      pi := pi + 1;
    }
    found := None;
  }

  // ---------------------------------------------------------------------------
  // What the mapping promises

  /** A mapped field names one of the original headers. */
  lemma MappingIsHeader(headers: seq<string>, patterns: seq<string>)
    requires MappingFor(headers, patterns).Some?
    ensures MappingFor(headers, patterns).value in headers
  {
    var k := FirstChoiceOne(Chooser(headers), patterns);
    ChooseIsHeader(headers, patterns[k]);
  }

  /** A field is left unmapped exactly when none of its patterns occurs in any header. */
  lemma MappingAbsent(headers: seq<string>, patterns: seq<string>)
    ensures MappingFor(headers, patterns).None? <==>
      forall k :: 0 <= k < |patterns| ==> !Occurs(headers, patterns[k])
  {
    FirstChoiceNone(Chooser(headers), patterns);
    forall k | 0 <= k < |patterns| ensures Chooser(headers)(patterns[k]).None? <==> !Occurs(headers, patterns[k]) {
      ChooseAbsent(headers, patterns[k]);
    }
  }

  /** The first choice is None exactly when every pattern's choice is. */
  lemma {:induction false} FirstChoiceNone(choose: string -> Option<string>, patterns: seq<string>)
    ensures FirstChoice(choose, patterns).None? <==> forall k :: 0 <= k < |patterns| ==> choose(patterns[k]).None?
    decreases |patterns|
  {
    if |patterns| > 0 {
      FirstChoiceNone(choose, patterns[1..]);
      assert forall k :: 0 < k < |patterns| ==> patterns[k] == patterns[1..][k - 1];
    }
  }

  /** A selecting choice preceded only by empty ones is the first choice. */
  lemma {:induction false} FirstChoiceAt(choose: string -> Option<string>, patterns: seq<string>, k: nat)
    requires k < |patterns| && choose(patterns[k]).Some?
    requires forall j :: 0 <= j < k ==> choose(patterns[j]).None?
    ensures FirstChoice(choose, patterns) == choose(patterns[k])
    decreases k
  {
    if k > 0 {
      assert forall j :: 0 <= j < k - 1 ==> patterns[1..][j] == patterns[j + 1];
      FirstChoiceAt(choose, patterns[1..], k - 1);
    }
  }

  /** A first choice that selects something is the choice of one of the patterns. */
  lemma {:induction false} FirstChoiceOne(choose: string -> Option<string>, patterns: seq<string>) returns (k: nat)
    requires FirstChoice(choose, patterns).Some?
    ensures k < |patterns| && FirstChoice(choose, patterns) == choose(patterns[k])
    decreases |patterns|
  {
    if choose(patterns[0]).Some? {
      k := 0;
    } else {
      var j := FirstChoiceOne(choose, patterns[1..]);
      k := j + 1;
    }
  }

  /** A pattern's choice is one of the original headers. */
  lemma ChooseIsHeader(headers: seq<string>, p: string)
    requires Choose(headers, p).Some?
    ensures Choose(headers, p).value in headers
  {
  }

  /** One pattern selects nothing exactly when it occurs in no header. */
  lemma ChooseAbsent(headers: seq<string>, p: string)
    ensures Choose(headers, p).None? <==> !Occurs(headers, p)
  {
    var columns := Normalized(headers);
    var ms := Matches(columns, p);
    if |ms| > 0 {
      assert ms[0] in columns;
      var i := IndexOf(columns, ms[0]);
      assert Text.Contains(Normalize(headers[i]), p);
    } else {
      forall i | 0 <= i < |headers| ensures !Text.Contains(Normalize(headers[i]), p) {
        assert columns[i] !in ms;
      }
    }
  }

  /** The first pattern that occurs anywhere decides, even if a later one matches exactly. */
  lemma FirstPatternDecides(headers: seq<string>, patterns: seq<string>, k: nat)
    requires k < |patterns| && Occurs(headers, patterns[k])
    requires forall j :: 0 <= j < k ==> !Occurs(headers, patterns[j])
    ensures MappingFor(headers, patterns) == Choose(headers, patterns[k])
    ensures MappingFor(headers, patterns).Some?
  {
    ChooseAbsent(headers, patterns[k]);
    forall j | 0 <= j < k ensures Chooser(headers)(patterns[j]).None? {
      ChooseAbsent(headers, patterns[j]);
    }
    FirstChoiceAt(Chooser(headers), patterns, k);
  }

  /** A header equal to the pattern is preferred: the first such header is chosen. */
  lemma ChooseExact(headers: seq<string>, p: string, j: nat)
    requires j < |headers| && Normalize(headers[j]) == p
    requires forall i :: 0 <= i < j ==> Normalize(headers[i]) != p
    ensures Choose(headers, p) == Some(headers[j])
  {
    var columns := Normalized(headers);
    ExactFirst(columns, p, j);
    ChooseOf(headers, p, j);
  }

  lemma ExactFirst(columns: seq<string>, p: string, j: nat)
    requires j < |columns| && columns[j] == p
    requires forall i :: 0 <= i < j ==> columns[i] != p
    ensures |Matches(columns, p)| > 0
    ensures |ExactMatches(Matches(columns, p), p)| > 0
    ensures ExactMatches(Matches(columns, p), p)[0] == p
    ensures p in columns && IndexOf(columns, p) == j
  {
    Text.ContainsSelf(p);
    var ms := Matches(columns, p);
    assert p in ms;
    var ex := ExactMatches(ms, p);
    assert p in ex;
    assert ex[0] in ex;
    var i := IndexOf(columns, p);
    assert i == j;
  }

  /** Choose picks the header whose normalized form is the preferred match. */
  lemma ChooseOf(headers: seq<string>, p: string, i: nat)
    requires i < |headers|
    requires var columns := Normalized(headers);
      var ms := Matches(columns, p);
      |ms| > 0 &&
      var ex := ExactMatches(ms, p);
      (if |ex| > 0 then ex[0] else ms[0]) in columns &&
      IndexOf(columns, if |ex| > 0 then ex[0] else ms[0]) == i
    ensures Choose(headers, p) == Some(headers[i])
  {
  }

  /** Without an exact match, the first header containing the pattern is chosen. */
  lemma ChooseSubstring(headers: seq<string>, p: string, j: nat)
    requires p !in Normalized(headers)
    requires j < |headers| && Text.Contains(Normalize(headers[j]), p)
    requires forall i :: 0 <= i < j ==> !Text.Contains(Normalize(headers[i]), p)
    ensures Choose(headers, p) == Some(headers[j])
  {
    var columns := Normalized(headers);
    var ms := Matches(columns, p);
    assert forall i :: 0 <= i < j ==> !Text.Contains(columns[i], p);
    MatchesFirst(columns, p, j);
    assert p !in ms;
    ExactNone(ms, p);
    var i := IndexOf(columns, ms[0]);
    assert Text.Contains(columns[i], p);
    assert i == j;
    ChooseOf(headers, p, i);
  }

  lemma {:induction false} ExactNone(ms: seq<string>, p: string)
    requires p !in ms
    ensures ExactMatches(ms, p) == []
    decreases |ms|
  {
    if |ms| > 0 {
      ExactNone(ms[1..], p);
    }
  }

  /** Re-lowering a normalized header, as the match test does, changes nothing. */
  lemma NormalizedLower(h: string)
    ensures Text.ToLower(Normalize(h)) == Normalize(h)
  {
    var l := Text.ToLower(h);
    Text.StripChars(l);
    Text.ToLowerHasNoUpper(h);
    var s := Normalize(h);
    forall i | 0 <= i < |s| ensures !('A' <= s[i] <= 'Z') {
      var c := s[i];
      assert c in l;
    }
    Text.ToLowerNoUpper(s);
  }

  // ---------------------------------------------------------------------------
  // Helpers

  /** The position of a field in the table. */
  function Rank(f: Field): (k: nat)
    ensures k < |Fields| && Fields[k] == f
  {
    match f
    case Key => 0
    case Summary => 1
    case Assignee => 2
    case Status => 3
    case Priority => 4
    case IssueType => 5
    case EstimatedHours => 6
    case RemainingHours => 7
    case SpentHours => 8
    case FeatureLink => 9
  }

  /** Each field occurs once in the table. */
  lemma RankOf(k: nat)
    requires k < |Fields|
    ensures Rank(Fields[k]) == k
  {
  }

  /** The first match is the first column containing the pattern. */
  lemma {:induction false} MatchesFirst(columns: seq<string>, p: string, j: nat)
    requires j < |columns| && Text.Contains(columns[j], p)
    requires forall i :: 0 <= i < j ==> !Text.Contains(columns[i], p)
    ensures |Matches(columns, p)| > 0 && Matches(columns, p)[0] == columns[j]
    decreases j
  {
    if j > 0 {
      MatchesFirst(columns[1..], p, j - 1);
    }
  }
}
