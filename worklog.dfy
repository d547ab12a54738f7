/**
  The weekly worklog report. Every worklog of every issue becomes one row: the issue key as
  feature link, the assignee's display name or "Unassigned", the start day read with
  '%Y-%m-%d' and written back the same way, and the time spent in hours rounded to 2 places.
  If any start day does not parse, the whole extraction yields an empty table. The analysis
  converts the date column to timestamps, adds the Monday that starts each date's week, and
  sums the hours per feature link, assignee and week, sorted by those three.
*/
module WeeklyWorklog {
  import opened Wrappers
  import Text
  import Numbers
  import Calendar
  import Aggregation

  /** A worklog as the issue tracker's client gives it: the start timestamp text and seconds spent. */
  datatype Worklog = Worklog(started: string, timeSpentSeconds: int)

  /** An issue: its key, its assignee's display name if it is assigned, and its worklogs in order. */
  datatype WorkIssue = WorkIssue(key: string, assignee: Option<string>, worklogs: seq<Worklog>)

  /** One extracted row: 'Date', 'Feature Link', 'Assignee', 'Time Logged (Hours)'. */
  datatype WorklogRow = WorklogRow(date: string, featureLink: string, assignee: string, hours: real)

  function AssigneeOf(issue: WorkIssue): string {
    issue.assignee.GetOr("Unassigned")
  }

  /** `started[:10]`. */
  function StartedDay(started: string): string {
    if |started| <= 10 then started else started[..10]
  }

  /** `round(seconds / 3600, 2)`. */
  function LoggedHours(seconds: int): real {
    Numbers.RoundTo(seconds as real / 3600.0, 2)
  }

  /** The row of one worklog, or `None` when its start day does not parse. */
  function RowOf(issue: WorkIssue, w: Worklog): Option<WorklogRow> {
    match Calendar.ParseDate(StartedDay(w.started))
    case None => None
    case Some(d) => Some(WorklogRow(Calendar.Format(d), issue.key, AssigneeOf(issue), LoggedHours(w.timeSpentSeconds)))
  }

  function RowFn(issue: WorkIssue): Worklog -> Option<WorklogRow> {
    w => RowOf(issue, w)
  }

  /** The rows of an issue's worklogs, in order, or `None` if one of them fails. */
  function IssueRows(issue: WorkIssue): Option<seq<WorklogRow>> {
    Collect(RowFn(issue), issue.worklogs)
  }

  /** The rows of all issues, issue by issue, or `None` if any worklog fails. */
  function Extracted(issues: seq<WorkIssue>): Option<seq<WorklogRow>> {
    Gather(IssueRows, issues)
  }

  /** The extraction loops of `fetch_jira_worklogs`; an exception gives an empty table. */
  method FetchJiraWorklogs(issues: seq<WorkIssue>) returns (rows: seq<WorklogRow>)
    ensures rows == Extracted(issues).GetOr([])
  {
    var all: seq<WorklogRow> := [];
    var i := 0;
    while i < |issues|
      invariant 0 <= i <= |issues|
      invariant Gather(IssueRows, issues[..i]) == Some(all)
    {
      var issue := issues[i];
      var featureLink := issue.key;
      var assigneeName := AssigneeOf(issue);
      ghost var before := all;
      ghost var mine: seq<WorklogRow> := [];
      var j := 0;
      while j < |issue.worklogs|
        invariant 0 <= j <= |issue.worklogs|
        invariant Collect(RowFn(issue), issue.worklogs[..j]) == Some(mine)
        invariant all == before + mine
      {
        var worklog := issue.worklogs[j];
        var hours := LoggedHours(worklog.timeSpentSeconds);
        var day := Calendar.ParseDate(StartedDay(worklog.started));
        if day.None? {
          assert RowFn(issue)(worklog).None?;
          CollectFail(RowFn(issue), issue.worklogs, j);
          GatherFail(IssueRows, issues, i);
          return [];
        }
        var row := WorklogRow(Calendar.Format(day.value), featureLink, assigneeName, hours);
        assert RowFn(issue)(worklog) == Some(row);
        CollectStep(RowFn(issue), issue.worklogs, j);
        all := all + [row];
        mine := mine + [row];
        j := j + 1;
      }
      assert issue.worklogs[..j] == issue.worklogs;
      GatherStep(IssueRows, issues, i);
      i := i + 1;
    }
    assert issues[..i] == issues;
    rows := all;
  }

  // ---------------------------------------------------------------------------
  // Collecting results that may fail

  /** Applies `f` to each element in order, or `None` once one of them gives `None`. */
  function Collect<X, Y>(f: X -> Option<Y>, xs: seq<X>): Option<seq<Y>>
    decreases |xs|
  {
    if xs == [] then Some([])
    else
      match Collect(f, xs[..|xs| - 1])
      case None => None
      case Some(ys) => if f(xs[|xs| - 1]).None? then None else Some(ys + [f(xs[|xs| - 1]).value])
  }

  /** Concatenates what `f` gives for each element in order, or `None` once one of them gives `None`. */
  function Gather<X, Y>(f: X -> Option<seq<Y>>, xs: seq<X>): Option<seq<Y>>
    decreases |xs|
  {
    if xs == [] then Some([])
    else
      match Gather(f, xs[..|xs| - 1])
      case None => None
      case Some(ys) => if f(xs[|xs| - 1]).None? then None else Some(ys + f(xs[|xs| - 1]).value)
  }

  lemma CollectStep<X, Y>(f: X -> Option<Y>, xs: seq<X>, j: nat)
    requires j < |xs| && Collect(f, xs[..j]).Some? && f(xs[j]).Some?
    ensures Collect(f, xs[..j + 1]) == Some(Collect(f, xs[..j]).value + [f(xs[j]).value])
  {
    assert xs[..j + 1][..j] == xs[..j];
  }

  lemma GatherStep<X, Y>(f: X -> Option<seq<Y>>, xs: seq<X>, i: nat)
    requires i < |xs| && Gather(f, xs[..i]).Some? && f(xs[i]).Some?
    ensures Gather(f, xs[..i + 1]) == Some(Gather(f, xs[..i]).value + f(xs[i]).value)
  {
    assert xs[..i + 1][..i] == xs[..i];
  }

  /** One failing element makes the whole collection fail. */
  lemma {:induction false} CollectFail<X, Y>(f: X -> Option<Y>, xs: seq<X>, j: nat)
    requires j < |xs| && f(xs[j]).None?
    ensures Collect(f, xs) == None
    decreases |xs|
  {
    if j < |xs| - 1 {
      assert xs[..|xs| - 1][j] == xs[j];
      CollectFail(f, xs[..|xs| - 1], j);
    }
  }

  lemma {:induction false} GatherFail<X, Y>(f: X -> Option<seq<Y>>, xs: seq<X>, i: nat)
    requires i < |xs| && f(xs[i]).None?
    ensures Gather(f, xs) == None
    decreases |xs|
  {
    if i < |xs| - 1 {
      assert xs[..|xs| - 1][i] == xs[i];
      GatherFail(f, xs[..|xs| - 1], i);
    }
  }

  /** With no failing element, the collection succeeds with one result per element, in order. */
  lemma {:induction false} CollectAll<X, Y>(f: X -> Option<Y>, xs: seq<X>)
    requires forall j :: 0 <= j < |xs| ==> f(xs[j]).Some?
    ensures Collect(f, xs).Some?
    ensures |Collect(f, xs).value| == |xs|
    ensures forall j :: 0 <= j < |xs| ==> Collect(f, xs).value[j] == f(xs[j]).value
    decreases |xs|
  {
    if xs != [] {
      var prefix := xs[..|xs| - 1];
      assert forall j :: 0 <= j < |prefix| ==> prefix[j] == xs[j];
      CollectAll(f, prefix);
    }
  }

  lemma {:induction false} GatherAll<X, Y>(f: X -> Option<seq<Y>>, xs: seq<X>)
    requires forall i :: 0 <= i < |xs| ==> f(xs[i]).Some?
    ensures Gather(f, xs).Some?
    decreases |xs|
  {
    if xs != [] {
      var prefix := xs[..|xs| - 1];
      assert forall i :: 0 <= i < |prefix| ==> prefix[i] == xs[i];
      GatherAll(f, prefix);
    }
  }

  /** A successful collection had no failing element. */
  lemma CollectSome<X, Y>(f: X -> Option<Y>, xs: seq<X>)
    requires Collect(f, xs).Some?
    ensures forall j :: 0 <= j < |xs| ==> f(xs[j]).Some?
  {
    forall j | 0 <= j < |xs| ensures f(xs[j]).Some? {
      if f(xs[j]).None? {
        CollectFail(f, xs, j);
      }
    }
  }

  /** The last element's part of a successful gathering. */
  lemma GatherLast<X, Y>(f: X -> Option<seq<Y>>, xs: seq<X>)
    requires xs != [] && Gather(f, xs).Some?
    ensures Gather(f, xs[..|xs| - 1]).Some? && f(xs[|xs| - 1]).Some?
    ensures Gather(f, xs).value == Gather(f, xs[..|xs| - 1]).value + f(xs[|xs| - 1]).value
  {
  }

  /** Gathering `a + b` is gathering `a`, then `b`. */
  lemma {:induction false} GatherAppend<X, Y>(f: X -> Option<seq<Y>>, a: seq<X>, b: seq<X>)
    requires Gather(f, a + b).Some?
    ensures Gather(f, a).Some? && Gather(f, b).Some?
    ensures Gather(f, a + b).value == Gather(f, a).value + Gather(f, b).value
    decreases |b|
  {
    if b == [] {
      assert a + b == a;
    } else {
      var b' := b[..|b| - 1];
      assert (a + b)[..|a + b| - 1] == a + b';
      assert (a + b)[|a + b| - 1] == b[|b| - 1];
      GatherLast(f, a + b);
      GatherAppend(f, a, b');
    }
  }

  // ---------------------------------------------------------------------------
  // What extraction promises

  /** A worklog whose start day does not parse. */
  predicate Unreadable(issues: seq<WorkIssue>, i: int, j: int) {
    0 <= i < |issues| && 0 <= j < |issues[i].worklogs| &&
    Calendar.ParseDate(StartedDay(issues[i].worklogs[j].started)).None?
  }

  /** The extraction fails exactly when some worklog's start day does not parse. */
  lemma ExtractedFails(issues: seq<WorkIssue>)
    ensures Extracted(issues).None? <==> exists i, j :: Unreadable(issues, i, j)
  {
    if exists i, j :: Unreadable(issues, i, j) {
      var i, j :| Unreadable(issues, i, j);
      assert RowFn(issues[i])(issues[i].worklogs[j]).None?;
      CollectFail(RowFn(issues[i]), issues[i].worklogs, j);
      GatherFail(IssueRows, issues, i);
    } else {
      forall i | 0 <= i < |issues| ensures IssueRows(issues[i]).Some? {
        forall j | 0 <= j < |issues[i].worklogs| ensures RowFn(issues[i])(issues[i].worklogs[j]).Some? {
          assert !Unreadable(issues, i, j);
        }
        CollectAll(RowFn(issues[i]), issues[i].worklogs);
      }
      GatherAll(IssueRows, issues);
    }
  }

  /** An issue's rows are its worklogs' rows, one each, in worklog order. */
  lemma IssueRowsAt(issue: WorkIssue)
    requires IssueRows(issue).Some?
    ensures |IssueRows(issue).value| == |issue.worklogs|
    ensures forall j :: 0 <= j < |issue.worklogs| ==> RowOf(issue, issue.worklogs[j]) == Some(IssueRows(issue).value[j])
  {
    CollectSome(RowFn(issue), issue.worklogs);
    CollectAll(RowFn(issue), issue.worklogs);
  }

  /** Extracting two lists of issues one after the other gives the rows of the first, then those of the second. */
  lemma ExtractedAppend(a: seq<WorkIssue>, b: seq<WorkIssue>)
    requires Extracted(a + b).Some?
    ensures Extracted(a).Some? && Extracted(b).Some?
    ensures Extracted(a + b).value == Extracted(a).value + Extracted(b).value
  {
    GatherAppend(IssueRows, a, b);
  }

  /** One issue's extraction is its worklog rows. */
  lemma OneIssue(issue: WorkIssue)
    ensures Extracted([issue]) == IssueRows(issue)
  {
    assert [issue][..0] == [];
    assert Gather(IssueRows, [issue][..0]) == Some([]);
    if IssueRows(issue).Some? {
      assert [] + IssueRows(issue).value == IssueRows(issue).value;
    }
  }

  /** The number of worklogs of the issues. */
  function WorklogCount(issues: seq<WorkIssue>): nat
    decreases |issues|
  {
    if issues == [] then 0 else WorklogCount(issues[..|issues| - 1]) + |issues[|issues| - 1].worklogs|
  }

  /** A successful extraction has one row per worklog. */
  lemma {:induction false} ExtractedCount(issues: seq<WorkIssue>)
    requires Extracted(issues).Some?
    ensures |Extracted(issues).value| == WorklogCount(issues)
    decreases |issues|
  {
    if issues != [] {
      GatherLast(IssueRows, issues);
      ExtractedCount(issues[..|issues| - 1]);
      IssueRowsAt(issues[|issues| - 1]);
    }
  }

  /** A row carries its issue's key and assignee, and a date that reads back as the worklog's day. */
  lemma RowContents(issue: WorkIssue, w: Worklog)
    requires RowOf(issue, w).Some?
    ensures var row := RowOf(issue, w).value;
      row.featureLink == issue.key &&
      row.assignee == (if issue.assignee.Some? then issue.assignee.value else "Unassigned") &&
      row.hours == LoggedHours(w.timeSpentSeconds) &&
      Calendar.ParseDate(row.date) == Calendar.ParseDate(StartedDay(w.started))
  {
    Calendar.ParseFormat(Calendar.ParseDate(StartedDay(w.started)).value);
  }

  /** The logged hours are the seconds in hours to within half a hundredth. */
  lemma LoggedHoursClose(seconds: int)
    ensures -0.005 <= LoggedHours(seconds) - seconds as real / 3600.0 <= 0.005
  {
    assert Numbers.Scale(2) == 100.0 by {
      assert Numbers.Pow10(2) == 100;
    }
    Numbers.RoundToError(seconds as real / 3600.0, 2);
  }

  /** Every extracted date reads back. */
  lemma {:induction false} ExtractedDatesParse(issues: seq<WorkIssue>)
    requires Extracted(issues).Some?
    ensures forall r :: r in Extracted(issues).value ==> Calendar.ParseDate(r.date).Some?
    decreases |issues|
  {
    if issues != [] {
      GatherLast(IssueRows, issues);
      ExtractedDatesParse(issues[..|issues| - 1]);
      var last := issues[|issues| - 1];
      IssueRowsAt(last);
      forall r | r in IssueRows(last).value ensures Calendar.ParseDate(r.date).Some? {
        var j :| 0 <= j < |last.worklogs| && IssueRows(last).value[j] == r;
        RowContents(last, last.worklogs[j]);
      }
    }
  }

  // ---------------------------------------------------------------------------
  // The frame and its analysis

  /** A 'Date' cell: the extracted text, or a timestamp (a day ordinal) once converted. */
  datatype DateCell = DateText(text: string) | Timestamp(ordinal: int)

  datatype FrameRow = FrameRow(date: DateCell, featureLink: string, assignee: string, hours: real)

  /** The frame `pd.DataFrame(all_worklog_data)` builds. */
  function FrameOf(extracted: seq<WorklogRow>): (rows: seq<FrameRow>)
    ensures |rows| == |extracted|
  {
    seq(|extracted|, i requires 0 <= i < |extracted| =>
      FrameRow(DateText(extracted[i].date), extracted[i].featureLink, extracted[i].assignee, extracted[i].hours))
  }

  /** `pd.to_datetime` on one cell: '%Y-%m-%d' text within the timestamp range, or a timestamp already. */
  function ToTimestamp(row: FrameRow): Result<int, PyError> {
    match row.date
    case Timestamp(ordinal) => Ok(ordinal)
    case DateText(text) =>
      match Calendar.ParseDate(text)
      case None => Err(ValueError("Unknown datetime string format"))
      case Some(d) =>
        if Calendar.InBounds(Calendar.Ordinal(d)) then Ok(Calendar.Ordinal(d))
        else Err(ValueError("Out of bounds nanosecond timestamp"))
  }

  /** `x - timedelta(days=x.weekday())`, which must still be a timestamp. */
  function WeekStartOf(ordinal: int): Result<int, PyError> {
    var monday := Calendar.WeekStart(ordinal);
    if Calendar.InBounds(monday) then Ok(monday) else Err(ValueError("Out of bounds nanosecond timestamp"))
  }

  function WithTimestamps(rows: seq<FrameRow>, ordinals: seq<int>): (r: seq<FrameRow>)
    requires |ordinals| == |rows|
    ensures |r| == |rows|
  {
    seq(|rows|, i requires 0 <= i < |rows| => rows[i].(date := Timestamp(ordinals[i])))
  }

  /** The rows keyed for the `groupby`. */
  function Entries(rows: seq<FrameRow>, weeks: seq<int>): (es: seq<Entry>)
    requires |weeks| == |rows|
    ensures |es| == |rows|
  {
    seq(|rows|, i requires 0 <= i < |rows| =>
      Entry(WeekKey(rows[i].featureLink, rows[i].assignee, weeks[i]), rows[i].hours))
  }

  /** What `analyze_time_tracking` returns for a frame. */
  function Analysis(rows: seq<FrameRow>): Result<seq<WeeklyRow>, PyError> {
    if rows == [] then Ok([])
    else
      var dates :- MapAll(ToTimestamp, rows);
      var weeks :- MapAll(WeekStartOf, dates);
      Ok(Weekly(Entries(rows, weeks)))
  }

  class WorklogFrame {
    var rows: seq<FrameRow>
    /** The 'Week Start' column, once added. */
    var weekStart: Option<seq<int>>

    constructor (extracted: seq<WorklogRow>)
      ensures rows == FrameOf(extracted) && weekStart == None
    {
      rows := FrameOf(extracted);
      weekStart := None;
    }

    /**
      `analyze_time_tracking`. It converts this frame's date column and then adds the week
      start column; an exception leaves whatever was already assigned.
    */
    method AnalyzeTimeTracking() returns (r: Result<seq<WeeklyRow>, PyError>)
      modifies this
      ensures r == Analysis(old(rows))
      ensures old(rows) == [] || MapAll(ToTimestamp, old(rows)).Err? ==>
        rows == old(rows) && weekStart == old(weekStart)
      ensures old(rows) != [] && MapAll(ToTimestamp, old(rows)).Ok? ==>
        var dates := MapAll(ToTimestamp, old(rows)).value;
        rows == WithTimestamps(old(rows), dates) &&
        weekStart == (if MapAll(WeekStartOf, dates).Ok? then Some(MapAll(WeekStartOf, dates).value) else old(weekStart))
    {
      if rows == [] {
        return Ok([]);
      }
      var original := rows;
      var dates := MapAll(ToTimestamp, rows);
      if dates.Err? {
        return Err(dates.error);
      }
      rows := WithTimestamps(rows, dates.value);
      var weeks := MapAll(WeekStartOf, dates.value);
      if weeks.Err? {
        return Err(weeks.error);
      }
      weekStart := Some(weeks.value);
      r := Ok(Weekly(Entries(original, weeks.value)));
    }
  }

  // ---------------------------------------------------------------------------
  // Weekly grouping

  datatype WeekKey = WeekKey(featureLink: string, assignee: string, weekStart: int)

  datatype Entry = Entry(key: WeekKey, hours: real)

  /** One output row: a key and its summed hours. */
  datatype WeeklyRow = WeeklyRow(key: WeekKey, hours: real)

  /** The sort order: by feature link, then assignee, then week start. */
  predicate WeekKeyLess(a: WeekKey, b: WeekKey) {
    Text.StrLess(a.featureLink, b.featureLink) ||
    (a.featureLink == b.featureLink &&
      (Text.StrLess(a.assignee, b.assignee) || (a.assignee == b.assignee && a.weekStart < b.weekStart)))
  }

  lemma WeekKeyLessIrreflexive(a: WeekKey)
    ensures !WeekKeyLess(a, a)
  {
    Text.StrLessIrreflexive(a.featureLink);
    Text.StrLessIrreflexive(a.assignee);
  }

  lemma WeekKeyLessTransitive(a: WeekKey, b: WeekKey, c: WeekKey)
    requires WeekKeyLess(a, b) && WeekKeyLess(b, c)
    ensures WeekKeyLess(a, c)
  {
    if Text.StrLess(a.featureLink, b.featureLink) && Text.StrLess(b.featureLink, c.featureLink) {
      Text.StrLessTransitive(a.featureLink, b.featureLink, c.featureLink);
    }
    if Text.StrLess(a.assignee, b.assignee) && Text.StrLess(b.assignee, c.assignee) {
      Text.StrLessTransitive(a.assignee, b.assignee, c.assignee);
    }
  }

  lemma WeekKeyLessTotal(a: WeekKey, b: WeekKey)
    ensures a == b || WeekKeyLess(a, b) || WeekKeyLess(b, a)
  {
    Text.StrLessTotal(a.featureLink, b.featureLink);
    Text.StrLessTotal(a.assignee, b.assignee);
  }

  predicate Ascending(ks: seq<WeekKey>) {
    forall i, j :: 0 <= i < j < |ks| ==> WeekKeyLess(ks[i], ks[j])
  }

  lemma AscendingDistinct(ks: seq<WeekKey>)
    requires Ascending(ks)
    ensures Aggregation.Distinct(ks)
  {
    forall i, j | 0 <= i < j < |ks| ensures ks[i] != ks[j] {
      if ks[i] == ks[j] {
        WeekKeyLessIrreflexive(ks[i]);
      }
    }
  }

  /** Adds a key to an ascending key list unless it is there already. */
  function InsertKey(k: WeekKey, ks: seq<WeekKey>): (r: seq<WeekKey>)
    requires Ascending(ks)
    ensures Ascending(r)
    ensures forall x :: x in r <==> x == k || x in ks
    decreases |ks|
  {
    if |ks| == 0 then [k]
    else if k == ks[0] then ks
    else if WeekKeyLess(k, ks[0]) then
      InsertFront(k, ks);
      [k] + ks
    else
      WeekKeyLessTotal(k, ks[0]);
      var rest := InsertKey(k, ks[1..]);
      InsertAfter(ks[0], ks[1..], rest, k);
      [ks[0]] + rest
  }

  lemma InsertFront(k: WeekKey, ks: seq<WeekKey>)
    requires Ascending(ks) && |ks| > 0 && WeekKeyLess(k, ks[0])
    ensures Ascending([k] + ks)
  {
    forall j | 1 <= j < |ks| + 1 ensures WeekKeyLess(([k] + ks)[0], ([k] + ks)[j]) {
      if j > 1 {
        WeekKeyLessTransitive(k, ks[0], ks[j - 1]);
      }
    }
  }

  lemma InsertAfter(h: WeekKey, tail: seq<WeekKey>, rest: seq<WeekKey>, k: WeekKey)
    requires Ascending([h] + tail) && Ascending(rest) && WeekKeyLess(h, k)
    requires forall x :: x in rest <==> x == k || x in tail
    ensures Ascending([h] + rest)
  {
    forall j | 0 <= j < |rest| ensures WeekKeyLess(h, rest[j]) {
      var x := rest[j];
      assert x in rest;
      if x != k {
        var t :| 0 <= t < |tail| && tail[t] == x;
        assert ([h] + tail)[0] == h && ([h] + tail)[t + 1] == x;
      }
    }
    forall i, j | 0 <= i < j < |rest| + 1 ensures WeekKeyLess(([h] + rest)[i], ([h] + rest)[j]) {
      if i > 0 {
        assert ([h] + rest)[i] == rest[i - 1];
      }
    }
  }

  predicate HasKey(es: seq<Entry>, k: WeekKey) {
    exists i :: 0 <= i < |es| && es[i].key == k
  }

  /** The distinct keys, ascending: the index of the `groupby` result, which `sort_values` keeps. */
  function Keys(es: seq<Entry>): (ks: seq<WeekKey>)
    ensures Ascending(ks)
    ensures forall k :: k in ks <==> HasKey(es, k)
    decreases |es|
  {
    if |es| == 0 then []
    else
      var prefix := es[..|es| - 1];
      HasKeyLast(es);
      InsertKey(es[|es| - 1].key, Keys(prefix))
  }

  lemma HasKeyLast(es: seq<Entry>)
    requires |es| > 0
    ensures forall k :: HasKey(es, k) <==> k == es[|es| - 1].key || HasKey(es[..|es| - 1], k)
  {
    var prefix := es[..|es| - 1];
    forall k ensures HasKey(es, k) ==> k == es[|es| - 1].key || HasKey(prefix, k) {
      if HasKey(es, k) {
        var i :| 0 <= i < |es| && es[i].key == k;
        if i < |prefix| {
          assert prefix[i] == es[i];
        }
      }
    }
    forall k ensures HasKey(prefix, k) ==> HasKey(es, k) {
      if HasKey(prefix, k) {
        var i :| 0 <= i < |prefix| && prefix[i].key == k;
        assert es[i] == prefix[i];
      }
    }
  }

  /** The hours of the entries with key `k`. */
  function HoursOf(es: seq<Entry>, k: WeekKey): real
    decreases |es|
  {
    if |es| == 0 then 0.0
    else HoursOf(es[..|es| - 1], k) + (if es[|es| - 1].key == k then es[|es| - 1].hours else 0.0)
  }

  /** The hours of all entries. */
  function Total(es: seq<Entry>): real
    decreases |es|
  {
    if |es| == 0 then 0.0 else Total(es[..|es| - 1]) + es[|es| - 1].hours
  }

  function RowsFor(es: seq<Entry>, ks: seq<WeekKey>): (rows: seq<WeeklyRow>)
    ensures |rows| == |ks|
    ensures forall i :: 0 <= i < |ks| ==> rows[i] == WeeklyRow(ks[i], HoursOf(es, ks[i]))
    decreases |ks|
  {
    if |ks| == 0 then [] else [WeeklyRow(ks[0], HoursOf(es, ks[0]))] + RowsFor(es, ks[1..])
  }

  /** `groupby([...])['Time Logged (Hours)'].sum()` followed by the sort on the same columns. */
  function Weekly(es: seq<Entry>): seq<WeeklyRow> {
    RowsFor(es, Keys(es))
  }

  /** The hours of the output rows. */
  function RowsTotal(rows: seq<WeeklyRow>): real
    decreases |rows|
  {
    if |rows| == 0 then 0.0 else rows[0].hours + RowsTotal(rows[1..])
  }

  /**
    One row per distinct key, strictly ascending, each with the summed hours of its key, and
    the hours of all rows are the hours of all entries.
  */
  lemma WeeklySpec(es: seq<Entry>)
    ensures var rows := Weekly(es);
      (forall i, j :: 0 <= i < j < |rows| ==> WeekKeyLess(rows[i].key, rows[j].key)) &&
      (forall k :: HasKey(es, k) <==> exists i :: 0 <= i < |rows| && rows[i].key == k) &&
      (forall i :: 0 <= i < |rows| ==> rows[i].hours == HoursOf(es, rows[i].key)) &&
      RowsTotal(rows) == Total(es)
  {
    var ks := Keys(es);
    var rows := Weekly(es);
    forall k ensures HasKey(es, k) ==> exists i :: 0 <= i < |rows| && rows[i].key == k {
      if HasKey(es, k) {
        assert k in ks;
        var i :| 0 <= i < |ks| && ks[i] == k;
        assert rows[i].key == k;
      }
    }
    forall k ensures (exists i :: 0 <= i < |rows| && rows[i].key == k) ==> HasKey(es, k) {
      if exists i :: 0 <= i < |rows| && rows[i].key == k {
        var i :| 0 <= i < |rows| && rows[i].key == k;
        assert ks[i] in ks;
      }
    }
    AscendingDistinct(ks);
    RowsTotalIsGroupSum(es, ks);
    forall i | 0 <= i < |es| ensures es[i].key in ks {
      assert HasKey(es, es[i].key);
    }
    Conservation(es, ks);
  }

  // ---------------------------------------------------------------------------
  // Conservation of hours

  function GroupSum(es: seq<Entry>, ks: seq<WeekKey>): real
    decreases |ks|
  {
    if |ks| == 0 then 0.0 else HoursOf(es, ks[0]) + GroupSum(es, ks[1..])
  }

  lemma {:induction false} RowsTotalIsGroupSum(es: seq<Entry>, ks: seq<WeekKey>)
    ensures RowsTotal(RowsFor(es, ks)) == GroupSum(es, ks)
    decreases |ks|
  {
    if |ks| > 0 {
      RowsTotalIsGroupSum(es, ks[1..]);
      assert RowsFor(es, ks)[1..] == RowsFor(es, ks[1..]);
    }
  }

  lemma {:induction false} GroupSumLast(es: seq<Entry>, ks: seq<WeekKey>)
    requires |es| > 0
    ensures GroupSum(es, ks) == GroupSum(es[..|es| - 1], ks) + Aggregation.Hits(ks, es[|es| - 1].key, es[|es| - 1].hours)
    decreases |ks|
  {
    if |ks| > 0 {
      GroupSumLast(es, ks[1..]);
    }
  }

  lemma {:induction false} GroupSumEmpty(ks: seq<WeekKey>)
    ensures GroupSum([], ks) == 0.0
    decreases |ks|
  {
    if |ks| > 0 {
      GroupSumEmpty(ks[1..]);
    }
  }

  /** Over distinct keys that cover every entry, the group sums add up to the total. */
  lemma {:induction false} Conservation(es: seq<Entry>, ks: seq<WeekKey>)
    requires Aggregation.Distinct(ks)
    requires forall i :: 0 <= i < |es| ==> es[i].key in ks
    ensures GroupSum(es, ks) == Total(es)
    decreases |es|
  {
    if |es| == 0 {
      GroupSumEmpty(ks);
    } else {
      var prefix := es[..|es| - 1];
      assert forall i :: 0 <= i < |prefix| ==> prefix[i] == es[i];
      Conservation(prefix, ks);
      GroupSumLast(es, ks);
      Aggregation.HitsOnce(ks, es[|es| - 1].key, es[|es| - 1].hours);
    }
  }

  // ---------------------------------------------------------------------------
  // What the analysis promises

  /** The hours of a frame. */
  function FrameHours(rows: seq<FrameRow>): real
    decreases |rows|
  {
    if |rows| == 0 then 0.0 else FrameHours(rows[..|rows| - 1]) + rows[|rows| - 1].hours
  }

  lemma {:induction false} EntriesTotal(rows: seq<FrameRow>, weeks: seq<int>)
    requires |weeks| == |rows|
    ensures Total(Entries(rows, weeks)) == FrameHours(rows)
    decreases |rows|
  {
    if |rows| > 0 {
      var n := |rows| - 1;
      assert Entries(rows, weeks)[..n] == Entries(rows[..n], weeks[..n]);
      EntriesTotal(rows[..n], weeks[..n]);
    }
  }

  /** An empty frame gives an empty result. */
  lemma EmptyFrame()
    ensures Analysis([]) == Ok([])
  {
  }

  /** A successful analysis converted every date and found every week start. */
  lemma AnalysisSteps(rows: seq<FrameRow>)
    requires rows != [] && Analysis(rows).Ok?
    ensures MapAll(ToTimestamp, rows).Ok?
    ensures MapAll(WeekStartOf, MapAll(ToTimestamp, rows).value).Ok?
    ensures Analysis(rows).value ==
      Weekly(Entries(rows, MapAll(WeekStartOf, MapAll(ToTimestamp, rows).value).value))
  {
  }

  /** A group of the frame: a feature link, assignee and week start of one of its rows. */
  predicate InFrame(rows: seq<FrameRow>, dates: seq<int>, k: WeekKey)
    requires |dates| == |rows|
  {
    exists i :: 0 <= i < |rows| && k == WeekKey(rows[i].featureLink, rows[i].assignee, Calendar.WeekStart(dates[i]))
  }

  predicate InResult(out: seq<WeeklyRow>, k: WeekKey) {
    exists i :: 0 <= i < |out| && out[i].key == k
  }

  /** The grouping of rows keyed by the week starts of their dates. */
  lemma GroupedWeeks(rows: seq<FrameRow>, dates: seq<int>, weeks: seq<int>)
    requires |dates| == |rows| && |weeks| == |rows|
    requires forall i :: 0 <= i < |rows| ==> weeks[i] == Calendar.WeekStart(dates[i])
    ensures var out := Weekly(Entries(rows, weeks));
      (forall i, j :: 0 <= i < j < |out| ==> WeekKeyLess(out[i].key, out[j].key)) &&
      (forall k :: InResult(out, k) <==> InFrame(rows, dates, k)) &&
      (forall i :: 0 <= i < |out| ==> Calendar.Weekday(out[i].key.weekStart) == 0) &&
      RowsTotal(out) == FrameHours(rows)
  {
    var es := Entries(rows, weeks);
    var out := Weekly(es);
    WeeklySpec(es);
    EntriesTotal(rows, weeks);
    forall k ensures HasKey(es, k) <==> InFrame(rows, dates, k) {
      if HasKey(es, k) {
        var i :| 0 <= i < |es| && es[i].key == k;
        assert weeks[i] == Calendar.WeekStart(dates[i]);
      }
      if InFrame(rows, dates, k) {
        var i :| 0 <= i < |rows| && k == WeekKey(rows[i].featureLink, rows[i].assignee, Calendar.WeekStart(dates[i]));
        assert es[i].key == k;
      }
    }
    forall i | 0 <= i < |out| ensures Calendar.Weekday(out[i].key.weekStart) == 0 {
      assert HasKey(es, out[i].key);
      var j :| 0 <= j < |es| && es[j].key == out[i].key;
      Calendar.WeekStartMonday(dates[j], Calendar.WeekStart(dates[j]));
    }
  }

  /**
    A successful analysis has one row per distinct (feature link, assignee, week start) of
    the frame, strictly ascending; every week start is a Monday; and the hours add up to
    the frame's hours.
  */
  lemma AnalysisSpec(rows: seq<FrameRow>)
    requires rows != [] && Analysis(rows).Ok?
    ensures MapAll(ToTimestamp, rows).Ok?
    ensures var dates := MapAll(ToTimestamp, rows).value;
      var out := Analysis(rows).value;
      |dates| == |rows| &&
      (forall i, j :: 0 <= i < j < |out| ==> WeekKeyLess(out[i].key, out[j].key)) &&
      (forall k :: InResult(out, k) <==> InFrame(rows, dates, k)) &&
      (forall i :: 0 <= i < |out| ==> Calendar.Weekday(out[i].key.weekStart) == 0) &&
      RowsTotal(out) == FrameHours(rows)
  {
    AnalysisSteps(rows);
    var dates := MapAll(ToTimestamp, rows).value;
    var weeks := MapAll(WeekStartOf, dates).value;
    MapAllOk(WeekStartOf, dates);
    assert forall i :: 0 <= i < |rows| ==> weeks[i] == Calendar.WeekStart(dates[i]);
    GroupedWeeks(rows, dates, weeks);
  }
}
