/**
  The roll-up both aggregators share. Issues are grouped by feature link and assignee, or
  by one of the two; the three hour columns are summed and rounded to 2 places, the issues
  of each group are counted, and a completion percentage is computed from the rounded sums
  and rounded to 1 place. pandas' default `groupby` sorts the group keys ascending. A
  division by a zero estimate gives NaN for 0/0, which `fillna(0)` replaces, and an infinity
  otherwise, which it keeps. The console report's totals and top-contributor list are here
  too.
*/
module Aggregation {
  import Text
  import Numbers

  /** The per-issue figures a summary is built from. */
  datatype Effort = Effort(feature: string, assignee: string, estimated: real, remaining: real, spent: real)

  /** The three `groupby` column lists. */
  datatype Grouping = ByFeatureAndAssignee | ByFeature | ByAssignee

  function Key(e: Effort, g: Grouping): seq<string> {
    match g
    case ByFeatureAndAssignee => [e.feature, e.assignee]
    case ByFeature => [e.feature]
    case ByAssignee => [e.assignee]
  }

  /** The summed columns; `Issues` counts one per issue (the `'Issue Key': 'count'` column). */
  datatype Measure = Estimated | Remaining | Spent | Issues

  function Weight(e: Effort, m: Measure): real {
    match m
    case Estimated => e.estimated
    case Remaining => e.remaining
    case Spent => e.spent
    case Issues => 1.0
  }

  /** The column sum over a list of issues. */
  function Total(efforts: seq<Effort>, m: Measure): real
    decreases |efforts|
  {
    if |efforts| == 0 then 0.0 else Total(efforts[..|efforts| - 1], m) + Weight(efforts[|efforts| - 1], m)
  }

  lemma {:induction false} TotalIssues(efforts: seq<Effort>)
    ensures Total(efforts, Issues) == |efforts| as real
    decreases |efforts|
  {
    if |efforts| > 0 {
      TotalIssues(efforts[..|efforts| - 1]);
    }
  }

  // ---------------------------------------------------------------------------
  // Group keys: Python's tuple order on strings

  predicate KeyLess(a: seq<string>, b: seq<string>)
    decreases |a|
  {
    if |a| == 0 then |b| > 0
    else if |b| == 0 then false
    else Text.StrLess(a[0], b[0]) || (a[0] == b[0] && KeyLess(a[1..], b[1..]))
  }

  lemma {:induction false} KeyLessIrreflexive(a: seq<string>)
    ensures !KeyLess(a, a)
    decreases |a|
  {
    if |a| > 0 {
      Text.StrLessIrreflexive(a[0]);
      KeyLessIrreflexive(a[1..]);
    }
  }

  lemma {:induction false} KeyLessTransitive(a: seq<string>, b: seq<string>, c: seq<string>)
    requires KeyLess(a, b) && KeyLess(b, c)
    ensures KeyLess(a, c)
    decreases |a|
  {
    if |a| > 0 {
      if Text.StrLess(a[0], b[0]) && Text.StrLess(b[0], c[0]) {
        Text.StrLessTransitive(a[0], b[0], c[0]);
      } else if a[0] == b[0] && b[0] == c[0] {
        KeyLessTransitive(a[1..], b[1..], c[1..]);
      }
    }
  }

  lemma {:induction false} KeyLessTotal(a: seq<string>, b: seq<string>)
    ensures a == b || KeyLess(a, b) || KeyLess(b, a)
    decreases |a|
  {
    if |a| > 0 && |b| > 0 {
      Text.StrLessTotal(a[0], b[0]);
      if a[0] == b[0] {
        KeyLessTotal(a[1..], b[1..]);
        if a[1..] == b[1..] {
          assert a == [a[0]] + a[1..] && b == [b[0]] + b[1..];
        }
      }
    }
  }

  lemma KeyLessAsymmetric(a: seq<string>, b: seq<string>)
    requires KeyLess(a, b)
    ensures !KeyLess(b, a) && a != b
  {
    if KeyLess(b, a) {
      KeyLessTransitive(a, b, a);
    }
    KeyLessIrreflexive(a);
  }

  /** Strictly ascending, hence free of duplicates. */
  predicate Ascending(ks: seq<seq<string>>) {
    forall i, j :: 0 <= i < j < |ks| ==> KeyLess(ks[i], ks[j])
  }

  predicate Distinct<T(==)>(s: seq<T>) {
    forall i, j :: 0 <= i < j < |s| ==> s[i] != s[j]
  }

  lemma AscendingDistinct(ks: seq<seq<string>>)
    requires Ascending(ks)
    ensures Distinct(ks)
  {
    forall i, j | 0 <= i < j < |ks| ensures ks[i] != ks[j] {
      KeyLessAsymmetric(ks[i], ks[j]);
    }
  }

  /** Adds a key to an ascending key list unless it is there already. */
  function InsertKey(k: seq<string>, ks: seq<seq<string>>): (r: seq<seq<string>>)
    requires Ascending(ks)
    ensures Ascending(r)
    ensures forall x :: x in r <==> x == k || x in ks
    decreases |ks|
  {
    if |ks| == 0 then [k]
    else if k == ks[0] then ks
    else if KeyLess(k, ks[0]) then
      InsertFrontAscending(k, ks);
      [k] + ks
    else
      KeyLessTotal(k, ks[0]);
      var rest := InsertKey(k, ks[1..]);
      InsertAfterAscending(ks[0], ks[1..], rest, k);
      [ks[0]] + rest
  }

  lemma InsertFrontAscending(k: seq<string>, ks: seq<seq<string>>)
    requires Ascending(ks) && |ks| > 0 && KeyLess(k, ks[0])
    ensures Ascending([k] + ks)
  {
    forall j | 1 <= j < |ks| + 1 ensures KeyLess(([k] + ks)[0], ([k] + ks)[j]) {
      if j > 1 {
        KeyLessTransitive(k, ks[0], ks[j - 1]);
      }
    }
  }

  lemma InsertAfterAscending(h: seq<string>, tail: seq<seq<string>>, rest: seq<seq<string>>, k: seq<string>)
    requires Ascending([h] + tail) && Ascending(rest) && KeyLess(h, k)
    requires forall x :: x in rest <==> x == k || x in tail
    ensures Ascending([h] + rest)
  {
    forall j | 0 <= j < |rest| ensures KeyLess(h, rest[j]) {
      var x := rest[j];
      assert x in rest;
      if x != k {
        var t :| 0 <= t < |tail| && tail[t] == x;
        assert ([h] + tail)[0] == h && ([h] + tail)[t + 1] == x;
      }
    }
    forall i, j | 0 <= i < j < |rest| + 1 ensures KeyLess(([h] + rest)[i], ([h] + rest)[j]) {
      if i > 0 {
        assert ([h] + rest)[i] == rest[i - 1];
      }
    }
  }

  /** Some issue has this key. */
  predicate HasKey(efforts: seq<Effort>, g: Grouping, k: seq<string>) {
    exists i :: 0 <= i < |efforts| && Key(efforts[i], g) == k
  }

  /** The distinct keys of the issues, ascending: the index of the `groupby` result. */
  function GroupKeys(efforts: seq<Effort>, g: Grouping): (ks: seq<seq<string>>)
    ensures Ascending(ks)
    ensures forall k :: k in ks <==> HasKey(efforts, g, k)
    decreases |efforts|
  {
    if |efforts| == 0 then []
    else
      var prefix := efforts[..|efforts| - 1];
      var ks := InsertKey(Key(efforts[|efforts| - 1], g), GroupKeys(prefix, g));
      HasKeyLast(efforts, g);
      ks
  }

  lemma HasKeyLast(efforts: seq<Effort>, g: Grouping)
    requires |efforts| > 0
    ensures forall k :: HasKey(efforts, g, k) <==>
      k == Key(efforts[|efforts| - 1], g) || HasKey(efforts[..|efforts| - 1], g, k)
  {
    var prefix := efforts[..|efforts| - 1];
    forall k ensures HasKey(efforts, g, k) ==> k == Key(efforts[|efforts| - 1], g) || HasKey(prefix, g, k) {
      if HasKey(efforts, g, k) {
        var i :| 0 <= i < |efforts| && Key(efforts[i], g) == k;
        if i < |prefix| {
          assert prefix[i] == efforts[i];
        }
      }
    }
    forall k ensures HasKey(prefix, g, k) ==> HasKey(efforts, g, k) {
      if HasKey(prefix, g, k) {
        var i :| 0 <= i < |prefix| && Key(prefix[i], g) == k;
        assert efforts[i] == prefix[i];
      }
    }
  }

  /** The issues of one group, in input order. */
  function Select(efforts: seq<Effort>, g: Grouping, k: seq<string>): (grp: seq<Effort>)
    ensures forall e :: e in grp <==> e in efforts && Key(e, g) == k
    decreases |efforts|
  {
    if |efforts| == 0 then []
    else
      var prefix := efforts[..|efforts| - 1];
      var last := efforts[|efforts| - 1];
      assert efforts == prefix + [last];
      Select(prefix, g, k) + (if Key(last, g) == k then [last] else [])
  }

  // ---------------------------------------------------------------------------
  // Summary rows

  /** A completion percentage as pandas leaves it: a number, or an infinity from x/0 with x != 0. */
  datatype Completion = Percent(p: real) | PosInfinity | NegInfinity

  /** `(spent / estimated * 100).fillna(0).round(1)`: only 0/0 is replaced by 0. */
  function CompletionOf(spent: real, estimated: real): Completion {
    if estimated != 0.0 then Percent(Numbers.RoundTo(spent / estimated * 100.0, 1))
    else if spent == 0.0 then Percent(0.0)
    else if spent > 0.0 then PosInfinity
    else NegInfinity
  }

  datatype GroupRow = GroupRow(
    key: seq<string>,
    estimated: real, remaining: real, spent: real,
    count: nat,
    completion: Completion)

  /** One row of the `groupby(...).agg(...).round(2)` table and its completion column. */
  function RowFor(efforts: seq<Effort>, g: Grouping, k: seq<string>): GroupRow {
    var grp := Select(efforts, g, k);
    var estimated := Numbers.RoundTo(Total(grp, Estimated), 2);
    var spent := Numbers.RoundTo(Total(grp, Spent), 2);
    GroupRow(k, estimated, Numbers.RoundTo(Total(grp, Remaining), 2), spent, |grp|, CompletionOf(spent, estimated))
  }

  function Rows(efforts: seq<Effort>, g: Grouping, ks: seq<seq<string>>): (rows: seq<GroupRow>)
    ensures |rows| == |ks|
    ensures forall i :: 0 <= i < |ks| ==> rows[i] == RowFor(efforts, g, ks[i])
    decreases |ks|
  {
    if |ks| == 0 then [] else [RowFor(efforts, g, ks[0])] + Rows(efforts, g, ks[1..])
  }

  /** The aggregated table: one row per distinct key, in ascending key order. */
  function Summarize(efforts: seq<Effort>, g: Grouping): seq<GroupRow> {
    Rows(efforts, g, GroupKeys(efforts, g))
  }

  /** The three summary sheets of `export_to_excel`. */
  datatype Tables = Tables(byFeatureAndAssignee: seq<GroupRow>, byFeature: seq<GroupRow>, byAssignee: seq<GroupRow>)

  function SummaryTables(efforts: seq<Effort>): Tables {
    Tables(Summarize(efforts, ByFeatureAndAssignee), Summarize(efforts, ByFeature), Summarize(efforts, ByAssignee))
  }

  // ---------------------------------------------------------------------------
  // What a summary promises

  /** The rows' keys are exactly the issues' distinct keys, ascending, each with its own group's figures. */
  lemma SummarizeKeys(efforts: seq<Effort>, g: Grouping)
    ensures var rows := Summarize(efforts, g);
      (forall i, j :: 0 <= i < j < |rows| ==> KeyLess(rows[i].key, rows[j].key)) &&
      (forall k :: HasKey(efforts, g, k) <==> exists i :: 0 <= i < |rows| && rows[i].key == k) &&
      (forall i :: 0 <= i < |rows| ==> rows[i] == RowFor(efforts, g, rows[i].key))
  {
    var ks := GroupKeys(efforts, g);
    var rows := Summarize(efforts, g);
    forall k ensures HasKey(efforts, g, k) ==> exists i :: 0 <= i < |rows| && rows[i].key == k {
      if HasKey(efforts, g, k) {
        assert k in ks;
        var i :| 0 <= i < |ks| && ks[i] == k;
        assert rows[i].key == k;
      }
    }
    forall k ensures (exists i :: 0 <= i < |rows| && rows[i].key == k) ==> HasKey(efforts, g, k) {
      if exists i :: 0 <= i < |rows| && rows[i].key == k {
        var i :| 0 <= i < |rows| && rows[i].key == k;
        assert ks[i] in ks;
      }
    }
  }

  /** Every group holds at least one issue, and the counts add up to the number of issues. */
  lemma SummarizeCounts(efforts: seq<Effort>, g: Grouping)
    ensures forall i :: 0 <= i < |Summarize(efforts, g)| ==> Summarize(efforts, g)[i].count >= 1
    ensures CountSum(Summarize(efforts, g)) == |efforts|
  {
    GroupsNonEmpty(efforts, g);
    CountsAddUp(efforts, g);
  }

  /**
    What a summary table holds: one row per distinct key of the issues, ascending, each row
    with its own group's figures, and the issue counts adding up to the number of issues.
  */
  ghost predicate Summarizes(efforts: seq<Effort>, g: Grouping, rows: seq<GroupRow>) {
    (forall i, j :: 0 <= i < j < |rows| ==> KeyLess(rows[i].key, rows[j].key)) &&
    (forall k :: HasKey(efforts, g, k) <==> exists i :: 0 <= i < |rows| && rows[i].key == k) &&
    (forall i :: 0 <= i < |rows| ==> rows[i] == RowFor(efforts, g, rows[i].key)) &&
    CountSum(rows) == |efforts|
  }

  /** Each of the three exported tables summarizes the issues by its own grouping. */
  lemma TablesSpec(efforts: seq<Effort>)
    ensures var t := SummaryTables(efforts);
      Summarizes(efforts, ByFeatureAndAssignee, t.byFeatureAndAssignee) &&
      Summarizes(efforts, ByFeature, t.byFeature) &&
      Summarizes(efforts, ByAssignee, t.byAssignee)
  {
    SummarizeKeys(efforts, ByFeatureAndAssignee);
    SummarizeCounts(efforts, ByFeatureAndAssignee);
    SummarizeKeys(efforts, ByFeature);
    SummarizeCounts(efforts, ByFeature);
    SummarizeKeys(efforts, ByAssignee);
    SummarizeCounts(efforts, ByAssignee);
  }

  lemma GroupsNonEmpty(efforts: seq<Effort>, g: Grouping)
    ensures forall i :: 0 <= i < |Summarize(efforts, g)| ==> Summarize(efforts, g)[i].count >= 1
  {
    var ks := GroupKeys(efforts, g);
    var rows := Summarize(efforts, g);
    SummarizeKeys(efforts, g);
    forall i | 0 <= i < |rows| ensures rows[i].count >= 1 {
      assert ks[i] in ks;
      var j :| 0 <= j < |efforts| && Key(efforts[j], g) == ks[i];
      assert efforts[j] in Select(efforts, g, ks[i]);
    }
  }

  lemma CountsAddUp(efforts: seq<Effort>, g: Grouping)
    ensures CountSum(Summarize(efforts, g)) == |efforts|
  {
    var ks := GroupKeys(efforts, g);
    AscendingDistinct(ks);
    CountsAreTotals(efforts, g, ks);
    KeysCovered(efforts, g);
    Conservation(efforts, g, ks, Issues);
    TotalIssues(efforts);
  }

  /** The exact (unrounded) group sums add up to the column total: grouping loses and duplicates nothing. */
  lemma SummarizeConserves(efforts: seq<Effort>, g: Grouping, m: Measure)
    ensures GroupTotal(efforts, g, GroupKeys(efforts, g), m) == Total(efforts, m)
  {
    AscendingDistinct(GroupKeys(efforts, g));
    KeysCovered(efforts, g);
    Conservation(efforts, g, GroupKeys(efforts, g), m);
  }

  /** Each rounded column is within half a cent of the exact group sum. */
  lemma RowRounding(efforts: seq<Effort>, g: Grouping, k: seq<string>)
    ensures var r := RowFor(efforts, g, k);
      var grp := Select(efforts, g, k);
      -0.005 <= r.estimated - Total(grp, Estimated) <= 0.005 &&
      -0.005 <= r.remaining - Total(grp, Remaining) <= 0.005 &&
      -0.005 <= r.spent - Total(grp, Spent) <= 0.005
  {
    var grp := Select(efforts, g, k);
    assert Numbers.Scale(2) == 100.0 by {
      assert Numbers.Pow10(2) == 100;
    }
    Numbers.RoundToError(Total(grp, Estimated), 2);
    Numbers.RoundToError(Total(grp, Remaining), 2);
    Numbers.RoundToError(Total(grp, Spent), 2);
  }

  /** Only 0/0 becomes 0; any other zero-estimate group keeps an infinity of the sign of its spent hours. */
  lemma CompletionZeroEstimate(spent: real)
    ensures CompletionOf(spent, 0.0) == Percent(0.0) <==> spent == 0.0
    ensures CompletionOf(spent, 0.0) == PosInfinity <==> spent > 0.0
    ensures CompletionOf(spent, 0.0) == NegInfinity <==> spent < 0.0
  {
  }

  /** With a nonzero estimate the percentage is within 0.05 of spent / estimated * 100. */
  lemma CompletionNonzero(spent: real, estimated: real)
    requires estimated != 0.0
    ensures CompletionOf(spent, estimated).Percent?
    ensures -0.05 <= CompletionOf(spent, estimated).p - spent / estimated * 100.0 <= 0.05
  {
    assert Numbers.Scale(1) == 10.0 by {
      assert Numbers.Pow10(1) == 10;
    }
    Numbers.RoundToError(spent / estimated * 100.0, 1);
  }

  // ---------------------------------------------------------------------------
  // Conservation over a key list

  /** The sum of one column over the groups of the given keys. */
  function GroupTotal(efforts: seq<Effort>, g: Grouping, ks: seq<seq<string>>, m: Measure): real
    decreases |ks|
  {
    if |ks| == 0 then 0.0 else Total(Select(efforts, g, ks[0]), m) + GroupTotal(efforts, g, ks[1..], m)
  }

  /** The contribution of one issue with key `k` and weight `w` to the sum over `ks`. */
  function Hits<K(==)>(ks: seq<K>, k: K, w: real): real
    decreases |ks|
  {
    if |ks| == 0 then 0.0 else (if ks[0] == k then w else 0.0) + Hits(ks[1..], k, w)
  }

  lemma {:induction false} HitsAbsent<K>(ks: seq<K>, k: K, w: real)
    requires k !in ks
    ensures Hits(ks, k, w) == 0.0
    decreases |ks|
  {
    if |ks| > 0 {
      HitsAbsent(ks[1..], k, w);
    }
  }

  lemma {:induction false} HitsOnce<K>(ks: seq<K>, k: K, w: real)
    requires Distinct(ks) && k in ks
    ensures Hits(ks, k, w) == w
    decreases |ks|
  {
    if ks[0] == k {
      assert k !in ks[1..] by {
        forall j | 0 <= j < |ks[1..]| ensures ks[1..][j] != k {
          assert ks[1..][j] == ks[j + 1];
        }
      }
      HitsAbsent(ks[1..], k, w);
    } else {
      assert Distinct(ks[1..]) by {
        forall i, j | 0 <= i < j < |ks[1..]| ensures ks[1..][i] != ks[1..][j] {
          assert ks[1..][i] == ks[i + 1] && ks[1..][j] == ks[j + 1];
        }
      }
      HitsOnce(ks[1..], k, w);
    }
  }

  lemma {:induction false} SplitLast(efforts: seq<Effort>, g: Grouping, ks: seq<seq<string>>, m: Measure)
    requires |efforts| > 0
    ensures GroupTotal(efforts, g, ks, m) ==
      GroupTotal(efforts[..|efforts| - 1], g, ks, m) + Hits(ks, Key(efforts[|efforts| - 1], g), Weight(efforts[|efforts| - 1], m))
    decreases |ks|
  {
    if |ks| > 0 {
      SplitLast(efforts, g, ks[1..], m);
      SelectLast(efforts, g, ks[0], m);
    }
  }

  lemma SelectLast(efforts: seq<Effort>, g: Grouping, k: seq<string>, m: Measure)
    requires |efforts| > 0
    ensures Total(Select(efforts, g, k), m) ==
      Total(Select(efforts[..|efforts| - 1], g, k), m) + (if Key(efforts[|efforts| - 1], g) == k then Weight(efforts[|efforts| - 1], m) else 0.0)
  {
    var prefix := efforts[..|efforts| - 1];
    var last := efforts[|efforts| - 1];
    var p := Select(prefix, g, k);
    if Key(last, g) == k {
      assert Select(efforts, g, k) == p + [last];
      assert (p + [last])[..|p|] == p;
    } else {
      assert Select(efforts, g, k) == p + [];
      assert p + [] == p;
    }
  }

  lemma KeysCovered(efforts: seq<Effort>, g: Grouping)
    ensures forall i :: 0 <= i < |efforts| ==> Key(efforts[i], g) in GroupKeys(efforts, g)
  {
    forall i | 0 <= i < |efforts| ensures Key(efforts[i], g) in GroupKeys(efforts, g) {
      assert HasKey(efforts, g, Key(efforts[i], g));
    }
  }

  /** Over distinct keys that cover every issue, the group sums add up to the column total. */
  lemma {:induction false} Conservation(efforts: seq<Effort>, g: Grouping, ks: seq<seq<string>>, m: Measure)
    requires Distinct(ks)
    requires forall i :: 0 <= i < |efforts| ==> Key(efforts[i], g) in ks
    ensures GroupTotal(efforts, g, ks, m) == Total(efforts, m)
    decreases |efforts|
  {
    if |efforts| == 0 {
      GroupTotalEmpty(ks, g, m);
    } else {
      var prefix := efforts[..|efforts| - 1];
      assert forall i :: 0 <= i < |prefix| ==> prefix[i] == efforts[i];
      Conservation(prefix, g, ks, m);
      SplitLast(efforts, g, ks, m);
      HitsOnce(ks, Key(efforts[|efforts| - 1], g), Weight(efforts[|efforts| - 1], m));
    }
  }

  lemma {:induction false} GroupTotalEmpty(ks: seq<seq<string>>, g: Grouping, m: Measure)
    ensures GroupTotal([], g, ks, m) == 0.0
    decreases |ks|
  {
    if |ks| > 0 {
      GroupTotalEmpty(ks[1..], g, m);
    }
  }

  /** The sum of the rows' issue counts. */
  function CountSum(rows: seq<GroupRow>): nat
    decreases |rows|
  {
    if |rows| == 0 then 0 else rows[0].count + CountSum(rows[1..])
  }

  lemma {:induction false} CountsAreTotals(efforts: seq<Effort>, g: Grouping, ks: seq<seq<string>>)
    ensures CountSum(Rows(efforts, g, ks)) as real == GroupTotal(efforts, g, ks, Issues)
    decreases |ks|
  {
    if |ks| > 0 {
      CountsAreTotals(efforts, g, ks[1..]);
      TotalIssues(Select(efforts, g, ks[0]));
      assert Rows(efforts, g, ks)[1..] == Rows(efforts, g, ks[1..]);
    }
  }

  // ---------------------------------------------------------------------------
  // Console totals

  datatype Totals = Totals(estimated: real, remaining: real, spent: real, count: nat)

  /** One column of a summary row: its rounded hours, or its issue count. */
  function Cell(r: GroupRow, m: Measure): real {
    match m
    case Estimated => r.estimated
    case Remaining => r.remaining
    case Spent => r.spent
    case Issues => r.count as real
  }

  /** The sum of one column over the rows. */
  function ColumnSum(rows: seq<GroupRow>, m: Measure): real
    decreases |rows|
  {
    if |rows| == 0 then 0.0 else Cell(rows[0], m) + ColumnSum(rows[1..], m)
  }

  /** `DataFrame.sum(numeric_only=True)` over summary rows: each column summed on its own. */
  function SumRows(rows: seq<GroupRow>): (t: Totals)
    ensures t.estimated == ColumnSum(rows, Estimated)
    ensures t.remaining == ColumnSum(rows, Remaining)
    ensures t.spent == ColumnSum(rows, Spent)
    ensures t.count == CountSum(rows)
    decreases |rows|
  {
    if |rows| == 0 then Totals(0.0, 0.0, 0.0, 0)
    else
      var t := SumRows(rows[1..]);
      Totals(rows[0].estimated + t.estimated, rows[0].remaining + t.remaining, rows[0].spent + t.spent,
             rows[0].count + t.count)
  }

  /** The console's percentage: guarded by `estimated > 0`, so any other estimate prints 0. */
  function ConsoleCompletion(t: Totals): real {
    if t.estimated > 0.0 then t.spent / t.estimated * 100.0 else 0.0
  }

  function FeatureOf(r: GroupRow): string {
    if |r.key| > 0 then r.key[0] else ""
  }

  /** The rows of one feature section: `summary_df[summary_df['Feature Link'] == f]`. */
  function FeatureRows(rows: seq<GroupRow>, f: string): (sel: seq<GroupRow>)
    ensures forall r :: r in sel <==> r in rows && FeatureOf(r) == f
    decreases |rows|
  {
    if |rows| == 0 then []
    else (if FeatureOf(rows[0]) == f then [rows[0]] else []) + FeatureRows(rows[1..], f)
  }

  /** `summary_df['Feature Link'].unique()`: the features in order of first appearance. */
  function Features(rows: seq<GroupRow>): (fs: seq<string>)
    ensures Distinct(fs)
    ensures forall f :: f in fs <==> exists i :: 0 <= i < |rows| && FeatureOf(rows[i]) == f
    decreases |rows|
  {
    if |rows| == 0 then []
    else
      var rest := Features(rows[1..]);
      var f := FeatureOf(rows[0]);
      assert forall i :: 0 <= i < |rows[1..]| ==> rows[1..][i] == rows[i + 1];
      FeaturesStep(rows, rest);
      var others := Without(rest, f);
      ConsDistinct(f, others);
      [f] + others
  }

  lemma ConsDistinct<T>(x: T, s: seq<T>)
    requires Distinct(s) && x !in s
    ensures Distinct([x] + s)
  {
    forall i, j | 0 <= i < j < |s| + 1 ensures ([x] + s)[i] != ([x] + s)[j] {
      assert ([x] + s)[j] == s[j - 1];
      if i > 0 {
        assert ([x] + s)[i] == s[i - 1];
      }
    }
  }

  lemma FeaturesStep(rows: seq<GroupRow>, rest: seq<string>)
    requires |rows| > 0
    requires forall f :: f in rest <==> exists i :: 0 <= i < |rows[1..]| && FeatureOf(rows[1..][i]) == f
    ensures forall f :: (f == FeatureOf(rows[0]) || f in rest) <==> exists i :: 0 <= i < |rows| && FeatureOf(rows[i]) == f
  {
    forall f | exists i :: 0 <= i < |rows| && FeatureOf(rows[i]) == f
      ensures f == FeatureOf(rows[0]) || f in rest
    {
      var i :| 0 <= i < |rows| && FeatureOf(rows[i]) == f;
      if i > 0 {
        assert FeatureOf(rows[1..][i - 1]) == f;
      }
    }
    forall f | f in rest ensures exists i :: 0 <= i < |rows| && FeatureOf(rows[i]) == f {
      var i :| 0 <= i < |rows[1..]| && FeatureOf(rows[1..][i]) == f;
      assert rows[i + 1] == rows[1..][i];
    }
  }

  /** The list without any occurrence of `x`, order kept. */
  function Without(s: seq<string>, x: string): (r: seq<string>)
    requires Distinct(s)
    ensures Distinct(r)
    ensures forall y :: y in r <==> y in s && y != x
    decreases |s|
  {
    if |s| == 0 then []
    else
      assert Distinct(s[1..]) by {
        forall i, j | 0 <= i < j < |s[1..]| ensures s[1..][i] != s[1..][j] {
          assert s[1..][i] == s[i + 1] && s[1..][j] == s[j + 1];
        }
      }
      var rest := Without(s[1..], x);
      if s[0] == x then rest
      else
        assert s[0] !in rest by {
          assert s[0] !in s[1..] by {
            forall j | 0 <= j < |s[1..]| ensures s[1..][j] != s[0] {
              assert s[1..][j] == s[j + 1];
            }
          }
        }
        [s[0]] + rest
  }

  /** Every row of a later name in `fs` comes after some row of an earlier one. */
  predicate FirstSeenOrder(rows: seq<GroupRow>, fs: seq<string>) {
    forall i, j, b :: 0 <= i < j < |fs| && 0 <= b < |rows| && FeatureOf(rows[b]) == fs[j] ==>
      exists a :: 0 <= a < b && FeatureOf(rows[a]) == fs[i]
  }

  /** `unique()` keeps the order of first appearance. */
  lemma {:induction false} FeaturesOrder(rows: seq<GroupRow>)
    ensures FirstSeenOrder(rows, Features(rows))
    decreases |rows|
  {
    if |rows| > 0 {
      FeaturesOrder(rows[1..]);
      forall i, j, b | 0 <= i < j < |Features(rows)| && 0 <= b < |rows| && FeatureOf(rows[b]) == Features(rows)[j]
        ensures exists a :: 0 <= a < b && FeatureOf(rows[a]) == Features(rows)[i]
      {
        var i', j' := FeaturesOrderStep(rows, Features(rows[1..]), i, j, b);
        if i != 0 {
          TailOrder(rows, Features(rows[1..]), i', j', b);
        }
      }
    }
  }

  /**
   * One row in front: the first name is that row's own, and a later pair of
   * names goes back to a pair of `rest` in the same order.
   */
  lemma FeaturesOrderStep(rows: seq<GroupRow>, rest: seq<string>, i: int, j: int, b: int) returns (i': int, j': int)
    requires |rows| > 0 && Distinct(rest)
    requires 0 <= i < j <= |Without(rest, FeatureOf(rows[0]))| && 0 <= b < |rows|
    requires FeatureOf(rows[b]) == ([FeatureOf(rows[0])] + Without(rest, FeatureOf(rows[0])))[j]
    ensures b != 0
    ensures i == 0 ==> FeatureOf(rows[0]) == ([FeatureOf(rows[0])] + Without(rest, FeatureOf(rows[0])))[i]
    ensures i != 0 ==>
              0 <= i' < j' < |rest| && FeatureOf(rows[b]) == rest[j'] &&
              rest[i'] == ([FeatureOf(rows[0])] + Without(rest, FeatureOf(rows[0])))[i]
  {
    var f := FeatureOf(rows[0]);
    var others := Without(rest, f);
    var fs := [f] + others;
    assert fs[j] == others[j - 1] && others[j - 1] in others;
    i', j' := 0, 0;
    if i != 0 {
      assert fs[i] == others[i - 1];
      i', j' := WithoutOrder(rest, f, i - 1, j - 1);
    }
  }

  /** The induction hypothesis on `rows[1..]`, read back on `rows`. */
  lemma TailOrder(rows: seq<GroupRow>, rest: seq<string>, i: int, j: int, b: int)
    requires 1 <= b < |rows| && FirstSeenOrder(rows[1..], rest)
    requires 0 <= i < j < |rest| && FeatureOf(rows[b]) == rest[j]
    ensures exists a :: 1 <= a < b && FeatureOf(rows[a]) == rest[i]
  {
    var tail := rows[1..];
    assert tail[b - 1] == rows[b];
    assert 0 <= b - 1 < |tail| && FeatureOf(tail[b - 1]) == rest[j];
    var a' :| 0 <= a' < b - 1 && FeatureOf(tail[a']) == rest[i];
    assert tail[a'] == rows[a' + 1];
  }

  /** Removing an element keeps the order of the others. */
  lemma {:induction false} WithoutOrder(s: seq<string>, x: string, i: int, j: int) returns (i': int, j': int)
    requires Distinct(s)
    requires 0 <= i < j < |Without(s, x)|
    ensures 0 <= i' < j' < |s| && s[i'] == Without(s, x)[i] && s[j'] == Without(s, x)[j]
    decreases |s|
  {
    var r := Without(s, x);
    assert Distinct(s[1..]) by {
      forall m, n | 0 <= m < n < |s[1..]| ensures s[1..][m] != s[1..][n] {
        assert s[1..][m] == s[m + 1] && s[1..][n] == s[n + 1];
      }
    }
    var w := Without(s[1..], x);
    if s[0] == x {
      assert r == w;
      var p, q := WithoutOrder(s[1..], x, i, j);
      i', j' := p + 1, q + 1;
    } else {
      assert r == [s[0]] + w;
      if i == 0 {
        assert r[j] == w[j - 1] && w[j - 1] in w;
        assert r[j] in s[1..];
        var q :| 0 <= q < |s[1..]| && s[1..][q] == r[j];
        i', j' := 0, q + 1;
      } else {
        assert r[i] == w[i - 1] && r[j] == w[j - 1];
        var p, q := WithoutOrder(s[1..], x, i - 1, j - 1);
        i', j' := p + 1, q + 1;
      }
    }
  }

  /** The feature section totals the console prints under each feature. */
  function FeatureTotals(rows: seq<GroupRow>, f: string): Totals {
    SumRows(FeatureRows(rows, f))
  }

  /** The grand total of issues is the number of issues. */
  lemma GrandCount(efforts: seq<Effort>, g: Grouping)
    ensures SumRows(Summarize(efforts, g)).count == |efforts|
  {
    SummarizeCounts(efforts, g);
  }

  /**
    The grand totals of a summary: its issue count is the number of issues, and each hours
    total is within half a cent per row of the issues' exact total, the rows being rounded.
  */
  lemma GrandTotals(efforts: seq<Effort>, g: Grouping)
    ensures var rows := Summarize(efforts, g);
      var t := SumRows(rows);
      var slack := 0.005 * |rows| as real;
      t.count == |efforts| &&
      -slack <= t.estimated - Total(efforts, Estimated) <= slack &&
      -slack <= t.remaining - Total(efforts, Remaining) <= slack &&
      -slack <= t.spent - Total(efforts, Spent) <= slack
  {
    var ks := GroupKeys(efforts, g);
    SummarizeCounts(efforts, g);
    RowsColumnClose(efforts, g, ks, Estimated);
    RowsColumnClose(efforts, g, ks, Remaining);
    RowsColumnClose(efforts, g, ks, Spent);
    SummarizeConserves(efforts, g, Estimated);
    SummarizeConserves(efforts, g, Remaining);
    SummarizeConserves(efforts, g, Spent);
  }

  lemma {:induction false} RowsColumnClose(efforts: seq<Effort>, g: Grouping, ks: seq<seq<string>>, m: Measure)
    requires m != Issues
    ensures var d := ColumnSum(Rows(efforts, g, ks), m) - GroupTotal(efforts, g, ks, m);
      -0.005 * |ks| as real <= d <= 0.005 * |ks| as real
    decreases |ks|
  {
    if |ks| > 0 {
      RowsColumnClose(efforts, g, ks[1..], m);
      RowRounding(efforts, g, ks[0]);
      assert Rows(efforts, g, ks)[1..] == Rows(efforts, g, ks[1..]);
    }
  }

  /** A section's totals that are not positive print a 0% completion. */
  lemma ConsoleGuard(t: Totals)
    ensures t.estimated <= 0.0 ==> ConsoleCompletion(t) == 0.0
    ensures t.estimated > 0.0 ==> ConsoleCompletion(t) * t.estimated == t.spent * 100.0
  {
  }

  // ---------------------------------------------------------------------------
  // Top contributors

  datatype Contributor = Contributor(assignee: string, spent: real, count: nat)

  function AssigneeOf(r: GroupRow): string {
    if |r.key| > 1 then r.key[1] else ""
  }

  /** The summary rows of one assignee. */
  function AssigneeRows(rows: seq<GroupRow>, a: string): (sel: seq<GroupRow>)
    ensures forall r :: r in sel <==> r in rows && AssigneeOf(r) == a
    decreases |rows|
  {
    if |rows| == 0 then []
    else (if AssigneeOf(rows[0]) == a then [rows[0]] else []) + AssigneeRows(rows[1..], a)
  }

  /** The distinct assignees of the rows, ascending. */
  function Assignees(rows: seq<GroupRow>): (ks: seq<seq<string>>)
    ensures Ascending(ks)
    ensures forall k :: k in ks <==> exists i :: 0 <= i < |rows| && [AssigneeOf(rows[i])] == k
    decreases |rows|
  {
    if |rows| == 0 then []
    else
      var rest := Assignees(rows[1..]);
      assert forall i :: 0 <= i < |rows[1..]| ==> rows[1..][i] == rows[i + 1];
      AssigneesStep(rows, rest);
      InsertKey([AssigneeOf(rows[0])], rest)
  }

  lemma AssigneesStep(rows: seq<GroupRow>, rest: seq<seq<string>>)
    requires |rows| > 0
    requires forall k :: k in rest <==> exists i :: 0 <= i < |rows[1..]| && [AssigneeOf(rows[1..][i])] == k
    ensures forall k :: (k == [AssigneeOf(rows[0])] || k in rest) <==> exists i :: 0 <= i < |rows| && [AssigneeOf(rows[i])] == k
  {
    forall k | exists i :: 0 <= i < |rows| && [AssigneeOf(rows[i])] == k
      ensures k == [AssigneeOf(rows[0])] || k in rest
    {
      var i :| 0 <= i < |rows| && [AssigneeOf(rows[i])] == k;
      if i > 0 {
        assert [AssigneeOf(rows[1..][i - 1])] == k;
      }
    }
    forall k | k in rest ensures exists i :: 0 <= i < |rows| && [AssigneeOf(rows[i])] == k {
      var i :| 0 <= i < |rows[1..]| && [AssigneeOf(rows[1..][i])] == k;
      assert rows[i + 1] == rows[1..][i];
    }
  }

  /** `summary_df.groupby('Assignee').sum(numeric_only=True)`: spent hours and issue counts per assignee. */
  function AssigneeTotals(rows: seq<GroupRow>): (cs: seq<Contributor>)
    ensures |cs| == |Assignees(rows)|
    ensures PerAssignee(rows, cs)
  {
    var ks := Assignees(rows);
    var cs := seq(|ks|, i requires 0 <= i < |ks| => ContributorOf(rows, ks[i]));
    AssigneeKeys(rows);
    ContributorsFacts(rows, ks, cs);
    cs
  }

  /**
    One contributor per distinct assignee of the rows and no other, each with the summed
    spent hours and issue counts of that assignee's rows.
  */
  ghost predicate PerAssignee(rows: seq<GroupRow>, cs: seq<Contributor>) {
    (forall i, j :: 0 <= i < j < |cs| ==> cs[i].assignee != cs[j].assignee) &&
    (forall i :: 0 <= i < |cs| ==>
      (exists j :: 0 <= j < |rows| && AssigneeOf(rows[j]) == cs[i].assignee) &&
      cs[i].spent == ColumnSum(AssigneeRows(rows, cs[i].assignee), Spent) &&
      cs[i].count == CountSum(AssigneeRows(rows, cs[i].assignee))) &&
    (forall j :: 0 <= j < |rows| ==> exists i :: 0 <= i < |cs| && cs[i].assignee == AssigneeOf(rows[j]))
  }

  /** The totals of the assignee a one-name key names. */
  function ContributorOf(rows: seq<GroupRow>, k: seq<string>): Contributor {
    var a := if |k| > 0 then k[0] else "";
    var t := SumRows(AssigneeRows(rows, a));
    Contributor(a, t.spent, t.count)
  }

  /** Each key of `Assignees` is a one-name key, named by some row, and the names differ. */
  lemma AssigneeKeys(rows: seq<GroupRow>)
    ensures var ks := Assignees(rows);
      (forall i :: 0 <= i < |ks| ==> |ks[i]| == 1 && exists j :: 0 <= j < |rows| && AssigneeOf(rows[j]) == ks[i][0]) &&
      (forall i, j :: 0 <= i < j < |ks| ==> ks[i][0] != ks[j][0]) &&
      (forall j :: 0 <= j < |rows| ==> exists i :: 0 <= i < |ks| && ks[i] == [AssigneeOf(rows[j])])
  {
    var ks := Assignees(rows);
    AscendingDistinct(ks);
    forall i | 0 <= i < |ks| ensures |ks[i]| == 1 && exists j :: 0 <= j < |rows| && AssigneeOf(rows[j]) == ks[i][0] {
      assert ks[i] in ks;
      var j :| 0 <= j < |rows| && [AssigneeOf(rows[j])] == ks[i];
    }
    forall i, j | 0 <= i < j < |ks| ensures ks[i][0] != ks[j][0] {
      assert ks[i] in ks && ks[j] in ks;
      assert ks[i] == [ks[i][0]] && ks[j] == [ks[j][0]];
    }
    forall j | 0 <= j < |rows| ensures exists i :: 0 <= i < |ks| && ks[i] == [AssigneeOf(rows[j])] {
      assert [AssigneeOf(rows[j])] in ks;
    }
  }

  lemma ContributorsFacts(rows: seq<GroupRow>, ks: seq<seq<string>>, cs: seq<Contributor>)
    requires |cs| == |ks|
    requires forall i :: 0 <= i < |ks| ==> |ks[i]| == 1 && exists j :: 0 <= j < |rows| && AssigneeOf(rows[j]) == ks[i][0]
    requires forall i, j :: 0 <= i < j < |ks| ==> ks[i][0] != ks[j][0]
    requires forall j :: 0 <= j < |rows| ==> exists i :: 0 <= i < |ks| && ks[i] == [AssigneeOf(rows[j])]
    requires forall i :: 0 <= i < |cs| ==> cs[i] == ContributorOf(rows, ks[i])
    ensures PerAssignee(rows, cs)
  {
    forall j | 0 <= j < |rows| ensures exists i :: 0 <= i < |cs| && cs[i].assignee == AssigneeOf(rows[j]) {
      var i :| 0 <= i < |ks| && ks[i] == [AssigneeOf(rows[j])];
      assert cs[i] == ContributorOf(rows, ks[i]);
      assert cs[i].assignee == AssigneeOf(rows[j]);
    }
    forall i | 0 <= i < |cs|
      ensures cs[i].assignee == ks[i][0]
      ensures exists j :: 0 <= j < |rows| && AssigneeOf(rows[j]) == cs[i].assignee
      ensures cs[i].spent == ColumnSum(AssigneeRows(rows, cs[i].assignee), Spent)
      ensures cs[i].count == CountSum(AssigneeRows(rows, cs[i].assignee))
    {
      assert cs[i] == ContributorOf(rows, ks[i]);
      var t := SumRows(AssigneeRows(rows, ks[i][0]));
      assert cs[i] == Contributor(ks[i][0], t.spent, t.count);
    }
    forall i, j | 0 <= i < j < |cs| ensures cs[i].assignee != cs[j].assignee {
      assert ks[i][0] != ks[j][0];
    }
  }

  predicate SpentDescending(cs: seq<Contributor>) {
    forall i, j :: 0 <= i < j < |cs| ==> cs[i].spent >= cs[j].spent
  }

  /** Puts `c` before the first contributor with fewer spent hours. */
  function InsertBySpent(c: Contributor, cs: seq<Contributor>): (r: seq<Contributor>)
    requires SpentDescending(cs)
    ensures SpentDescending(r)
    ensures multiset(r) == multiset(cs) + multiset{c}
    decreases |cs|
  {
    if |cs| == 0 || c.spent >= cs[0].spent then
      PrependDescending(c, cs);
      [c] + cs
    else
      assert cs == [cs[0]] + cs[1..];
      var rest := InsertBySpent(c, cs[1..]);
      PrependInserted(cs[0], cs[1..], c, rest);
      [cs[0]] + rest
  }

  lemma PrependDescending(c: Contributor, cs: seq<Contributor>)
    requires SpentDescending(cs)
    requires |cs| == 0 || c.spent >= cs[0].spent
    ensures SpentDescending([c] + cs)
  {
    forall i, j | 0 <= i < j < |cs| + 1 ensures ([c] + cs)[i].spent >= ([c] + cs)[j].spent {
      assert ([c] + cs)[j] == cs[j - 1];
      if i > 0 {
        assert ([c] + cs)[i] == cs[i - 1];
      } else {
        assert cs[0].spent >= cs[j - 1].spent || j == 1;
      }
    }
  }

  lemma PrependInserted(h: Contributor, tail: seq<Contributor>, c: Contributor, rest: seq<Contributor>)
    requires SpentDescending([h] + tail) && SpentDescending(rest)
    requires c.spent < h.spent
    requires multiset(rest) == multiset(tail) + multiset{c}
    ensures SpentDescending([h] + rest)
  {
    forall j | 0 <= j < |rest| ensures h.spent >= rest[j].spent {
      var x := rest[j];
      assert x in multiset(rest);
      if x != c {
        assert x in multiset(tail);
        assert x in tail;
        var t :| 0 <= t < |tail| && tail[t] == x;
        assert ([h] + tail)[0] == h && ([h] + tail)[t + 1] == x;
      }
    }
    forall i, j | 0 <= i < j < |rest| + 1 ensures ([h] + rest)[i].spent >= ([h] + rest)[j].spent {
      assert ([h] + rest)[j] == rest[j - 1];
      if i > 0 {
        assert ([h] + rest)[i] == rest[i - 1];
      }
    }
  }

  /** `sort_values('Spent Hours', ascending=False)`. */
  function SortBySpent(cs: seq<Contributor>): (r: seq<Contributor>)
    ensures SpentDescending(r)
    ensures multiset(r) == multiset(cs)
    decreases |cs|
  {
    if |cs| == 0 then []
    else
      assert cs == [cs[0]] + cs[1..];
      InsertBySpent(cs[0], SortBySpent(cs[1..]))
  }

  /** `.head(5)` of the sorted assignee totals. */
  function TopContributors(rows: seq<GroupRow>): seq<Contributor> {
    var sorted := SortBySpent(AssigneeTotals(rows));
    if |sorted| <= 5 then sorted else sorted[..5]
  }

  /**
    At most five contributors, by descending spent hours, each one of the assignee totals;
    everyone left out has no more spent hours than the last one listed.
  */
  lemma TopContributorsSpec(rows: seq<GroupRow>)
    ensures var top := TopContributors(rows);
      var all := AssigneeTotals(rows);
      |top| == (if |all| <= 5 then |all| else 5) &&
      SpentDescending(top) &&
      (forall c :: c in top ==> c in all) &&
      (forall c :: c in all && c !in top ==> c.spent <= top[|top| - 1].spent)
  {
    var all := AssigneeTotals(rows);
    var sorted := SortBySpent(all);
    PermutationFacts(all, sorted);
    HeadFacts(sorted);
  }

  lemma PermutationFacts(a: seq<Contributor>, b: seq<Contributor>)
    requires multiset(a) == multiset(b)
    ensures |a| == |b|
    ensures forall c :: c in a <==> c in b
  {
    assert |multiset(a)| == |multiset(b)|;
    forall c ensures c in a <==> c in b {
      assert c in a <==> c in multiset(a);
      assert c in b <==> c in multiset(b);
    }
  }

  /** The first five of a descending list are its largest. */
  lemma HeadFacts(sorted: seq<Contributor>)
    requires SpentDescending(sorted)
    ensures var top := if |sorted| <= 5 then sorted else sorted[..5];
      SpentDescending(top) &&
      (forall c :: c in top ==> c in sorted) &&
      (forall c :: c in sorted && c !in top ==> c.spent <= top[|top| - 1].spent)
  {
    var top := if |sorted| <= 5 then sorted else sorted[..5];
    forall c | c in sorted && c !in top ensures c.spent <= top[|top| - 1].spent {
      var j :| 0 <= j < |sorted| && sorted[j] == c;
      assert j >= 5;
      assert top[4] == sorted[4];
    }
  }
}
