/**
  The issue grid of the wiki macro. It holds the loaded issues, the filtered and sorted list it
  shows, the current sort and the current page. It sorts on a column header click, toggling the
  direction when the same column is clicked again. It filters on the search box, matching a term
  in any displayed field regardless of case. It pages the list 25 issues at a time and shows a
  window of at most five page numbers.
*/
module JiraGrid {
  import opened Wrappers
  import Text

  /** The JavaScript values an issue is made of (numbers do not occur in the modelled fields). */
  datatype JsValue =
    | Undefined
    | Null
    | Bool(b: bool)
    | Str(s: string)
    | Obj(props: map<string, JsValue>)
    | Arr(items: seq<JsValue>)

  datatype JsError = JsTypeError(message: string)

  predicate Truthy(v: JsValue) {
    match v
    case Undefined => false
    case Null => false
    case Bool(b) => b
    case Str(s) => s != ""
    case _ => true
  }

  /** `v.k`: reading a property of `undefined` or `null` throws; other non-objects have none. */
  function Prop(v: JsValue, k: string): Result<JsValue, JsError> {
    match v
    case Undefined => Err(JsTypeError("Cannot read properties of undefined"))
    case Null => Err(JsTypeError("Cannot read properties of null"))
    case Obj(props) => Ok(if k in props then props[k] else Undefined)
    case _ => Ok(Undefined)
  }

  /** The string `Array.prototype.join` makes of an element (and `toString` of a value that has one). */
  function ElemText(v: JsValue): string
    decreases v
  {
    match v
    case Undefined => ""
    case Null => ""
    case Bool(b) => if b then "true" else "false"
    case Str(s) => s
    case Obj(_) => "[object Object]"
    case Arr(items) => Text.Join(seq(|items|, i requires 0 <= i < |items| => ElemText(items[i])), ",")
  }

  function ElemTexts(items: seq<JsValue>): seq<string> {
    seq(|items|, i requires 0 <= i < |items| => ElemText(items[i]))
  }

  /** `v.toString()`, which throws on `undefined` and `null`. */
  function ToText(v: JsValue): Result<string, JsError> {
    if v.Undefined? || v.Null? then Err(JsTypeError("Cannot read properties of " + (if v.Null? then "null" else "undefined")))
    else Ok(ElemText(v))
  }

  /** `fields.f ? fields.f.n : fallback`. */
  function RefName(fields: JsValue, f: string, n: string, fallback: string): Result<JsValue, JsError> {
    var r :- Prop(fields, f);
    if Truthy(r) then Prop(r, n) else Ok(Str(fallback))
  }

  function NameOf(v: JsValue): Result<JsValue, JsError> {
    Prop(v, "name")
  }

  /** `fields.f ? fields.f.map(v => v.name).join(', ') : ''`. */
  function ListNames(fields: JsValue, f: string): Result<JsValue, JsError> {
    var list :- Prop(fields, f);
    if !Truthy(list) then Ok(Str(""))
    else if !list.Arr? then Err(JsTypeError("map is not a function"))
    else
      var names :- MapAll(NameOf, list.items);
      Ok(Str(Text.Join(ElemTexts(names), ", ")))
  }

  /** `getFieldValue`: the value a column shows for an issue. */
  function GetFieldValue(issue: JsValue, field: string): Result<JsValue, JsError> {
    var fields :- Prop(issue, "fields");
    if field == "key" then Prop(issue, "key")
    else if field == "assignee" then RefName(fields, field, "displayName", "Unassigned")
    else if field == "reporter" then RefName(fields, field, "displayName", "Unknown")
    else if field in {"status", "priority", "issuetype", "project"} then RefName(fields, field, "name", "")
    else if field in {"fixVersions", "components"} then ListNames(fields, field)
    else if field == "labels" then
      var labels :- Prop(fields, field);
      if !Truthy(labels) then Ok(Str(""))
      else if labels.Arr? then Ok(Str(Text.Join(ElemTexts(labels.items), ", ")))
      else Err(JsTypeError("join is not a function"))
    else
      var v :- Prop(fields, field);
      Ok(if Truthy(v) then v else Str(""))
  }

  /** An issue whose `fields` is the object `fs`. */
  predicate HasFields(issue: JsValue, fs: map<string, JsValue>) {
    issue.Obj? && "fields" in issue.props && issue.props["fields"] == Obj(fs)
  }

  /** Without an issue object every column throws. */
  lemma NoIssue(issue: JsValue, field: string)
    requires issue.Undefined? || issue.Null?
    ensures GetFieldValue(issue, field).Err?
  {
  }

  /** Absent references and lists show their fallback. */
  lemma MissingFields(issue: JsValue, fs: map<string, JsValue>)
    requires HasFields(issue, fs)
    ensures "assignee" !in fs ==> GetFieldValue(issue, "assignee") == Ok(Str("Unassigned"))
    ensures "reporter" !in fs ==> GetFieldValue(issue, "reporter") == Ok(Str("Unknown"))
    ensures forall f :: f in {"status", "priority", "issuetype", "project", "fixVersions", "components", "labels"} && f !in fs ==>
      GetFieldValue(issue, f) == Ok(Str(""))
  {
  }

  /** A present reference shows its display name or name. */
  lemma ReferenceNames(issue: JsValue, fs: map<string, JsValue>, f: string, ref: map<string, JsValue>)
    requires HasFields(issue, fs) && f in fs && fs[f] == Obj(ref)
    ensures f in {"assignee", "reporter"} ==>
      GetFieldValue(issue, f) == Ok(if "displayName" in ref then ref["displayName"] else Undefined)
    ensures f in {"status", "priority", "issuetype", "project"} ==>
      GetFieldValue(issue, f) == Ok(if "name" in ref then ref["name"] else Undefined)
  {
  }

  /** A list of labels shows its labels joined with ", ". */
  lemma LabelList(issue: JsValue, fs: map<string, JsValue>, labels: seq<string>)
    requires HasFields(issue, fs) && "labels" in fs && fs["labels"] == Arr(Strings(labels))
    ensures GetFieldValue(issue, "labels") == Ok(Str(Text.Join(labels, ", ")))
  {
    StringTexts(labels);
  }

  function Strings(labels: seq<string>): (r: seq<JsValue>)
    ensures |r| == |labels|
  {
    seq(|labels|, i requires 0 <= i < |labels| => Str(labels[i]))
  }

  lemma StringTexts(labels: seq<string>)
    ensures ElemTexts(Strings(labels)) == labels
  {
  }

  /** A list of named things shows their names joined with ", "; an element without a name throws. */
  lemma NamedList(issue: JsValue, fs: map<string, JsValue>, f: string)
    requires HasFields(issue, fs) && f in {"fixVersions", "components"} && f in fs && fs[f].Arr?
    ensures GetFieldValue(issue, f).Ok? <==> forall i :: 0 <= i < |fs[f].items| ==> NameOf(fs[f].items[i]).Ok?
    ensures GetFieldValue(issue, f).Ok? ==>
      GetFieldValue(issue, f) == Ok(Str(Text.Join(ElemTexts(MapAll(NameOf, fs[f].items).value), ", ")))
  {
    MapAllOk(NameOf, fs[f].items);
  }

  /** Any other column shows the field if it is truthy and '' otherwise. */
  lemma OtherField(issue: JsValue, fs: map<string, JsValue>, f: string)
    requires HasFields(issue, fs)
    requires f !in {"key", "assignee", "reporter", "status", "priority", "issuetype", "project", "fixVersions", "components", "labels"}
    ensures GetFieldValue(issue, f) == Ok(if f in fs && Truthy(fs[f]) then fs[f] else Str(""))
  {
  }

  // ---------------------------------------------------------------------------
  // Sorting

  datatype Direction = Asc | Desc

  datatype SortState = SortState(field: Option<string>, direction: Direction)

  /** The direction of a click on `field`: descending exactly when `field` is already sorted ascending. */
  function NextDirection(current: SortState, field: string): Direction {
    if current.field == Some(field) && current.direction == Asc then Desc else Asc
  }

  /** Clicking a column sorts it ascending, clicking it again descending, and a third time ascending. */
  lemma SortToggles(current: SortState, field: string, other: string)
    requires other != field
    ensures var first := SortState(Some(field), NextDirection(current, field));
      (current.field != Some(field) ==> first.direction == Asc) &&
      NextDirection(first, field) == (if first.direction == Asc then Desc else Asc) &&
      NextDirection(SortState(Some(field), NextDirection(first, field)), field) == first.direction &&
      NextDirection(first, other) == Asc
  {
  }

  /** Under the comparator of `sortIssues`, `a` goes strictly before `b`. */
  predicate Before<X>(key: X -> string, dir: Direction, a: X, b: X) {
    if dir == Asc then Text.StrLess(key(a), key(b)) else Text.StrLess(key(b), key(a))
  }

  predicate Ordered<X>(key: X -> string, dir: Direction, xs: seq<X>) {
    forall i, j :: 0 <= i < j < |xs| ==> !Before(key, dir, xs[j], xs[i])
  }

  lemma BeforeIrreflexive<X>(key: X -> string, dir: Direction, a: X, b: X)
    requires key(a) == key(b)
    ensures !Before(key, dir, a, b)
  {
    Text.StrLessIrreflexive(key(a));
  }

  lemma BeforeTransitive<X>(key: X -> string, dir: Direction, a: X, b: X, c: X)
    requires Before(key, dir, a, b) && Before(key, dir, b, c)
    ensures Before(key, dir, a, c)
  {
    if dir == Asc {
      Text.StrLessTransitive(key(a), key(b), key(c));
    } else {
      Text.StrLessTransitive(key(c), key(b), key(a));
    }
  }

  /** Places `x` after every element it does not go strictly before. */
  function Insert<X>(key: X -> string, dir: Direction, x: X, ys: seq<X>): seq<X>
    decreases |ys|
  {
    if ys == [] then [x]
    else if Before(key, dir, x, ys[0]) then [x] + ys
    else [ys[0]] + Insert(key, dir, x, ys[1..])
  }

  /** The stable sort `Array.prototype.sort` performs with the comparator of `sortIssues`. */
  function StableSort<X>(key: X -> string, dir: Direction, xs: seq<X>): seq<X>
    decreases |xs|
  {
    if xs == [] then [] else Insert(key, dir, xs[|xs| - 1], StableSort(key, dir, xs[..|xs| - 1]))
  }

  lemma {:induction false} InsertPermutes<X>(key: X -> string, dir: Direction, x: X, ys: seq<X>)
    ensures multiset(Insert(key, dir, x, ys)) == multiset(ys) + multiset{x}
    decreases |ys|
  {
    if ys != [] && !Before(key, dir, x, ys[0]) {
      InsertPermutes(key, dir, x, ys[1..]);
      assert ys == [ys[0]] + ys[1..];
    }
  }

  /** Sorting permutes the list. */
  lemma {:induction false} SortPermutes<X>(key: X -> string, dir: Direction, xs: seq<X>)
    ensures multiset(StableSort(key, dir, xs)) == multiset(xs)
    decreases |xs|
  {
    if xs != [] {
      var prefix := xs[..|xs| - 1];
      SortPermutes(key, dir, prefix);
      InsertPermutes(key, dir, xs[|xs| - 1], StableSort(key, dir, prefix));
      assert xs == prefix + [xs[|xs| - 1]];
    }
  }

  lemma OrderedTail<X>(key: X -> string, dir: Direction, ys: seq<X>)
    requires Ordered(key, dir, ys) && ys != []
    ensures Ordered(key, dir, ys[1..])
    ensures forall i :: 0 <= i < |ys[1..]| ==> !Before(key, dir, ys[1..][i], ys[0])
  {
    forall i, j | 0 <= i < j < |ys[1..]| ensures !Before(key, dir, ys[1..][j], ys[1..][i]) {
      assert ys[1..][i] == ys[i + 1] && ys[1..][j] == ys[j + 1];
    }
    forall i | 0 <= i < |ys[1..]| ensures !Before(key, dir, ys[1..][i], ys[0]) {
      assert ys[1..][i] == ys[i + 1];
    }
  }

  /** Nothing in `xs` goes strictly before `b`. */
  predicate NoneBefore<X>(key: X -> string, dir: Direction, xs: seq<X>, b: X) {
    forall i :: 0 <= i < |xs| ==> !Before(key, dir, xs[i], b)
  }

  lemma {:induction false} InsertNoneBefore<X>(key: X -> string, dir: Direction, x: X, ys: seq<X>, b: X)
    requires NoneBefore(key, dir, ys, b) && !Before(key, dir, x, b)
    ensures NoneBefore(key, dir, Insert(key, dir, x, ys), b)
    decreases |ys|
  {
    if ys != [] && !Before(key, dir, x, ys[0]) {
      assert NoneBefore(key, dir, ys[1..], b) by {
        forall i | 0 <= i < |ys[1..]| ensures !Before(key, dir, ys[1..][i], b) {
          assert ys[1..][i] == ys[i + 1];
        }
      }
      InsertNoneBefore(key, dir, x, ys[1..], b);
      var r := [ys[0]] + Insert(key, dir, x, ys[1..]);
      forall i | 0 < i < |r| ensures !Before(key, dir, r[i], b) {
        assert r[i] == Insert(key, dir, x, ys[1..])[i - 1];
      }
    } else if ys != [] {
      var r := [x] + ys;
      forall i | 0 < i < |r| ensures !Before(key, dir, r[i], b) {
        assert r[i] == ys[i - 1];
      }
    }
  }

  /** An ordered list headed by `h`, with nothing before `h`, stays ordered with `h` in front. */
  lemma ConsOrdered<X>(key: X -> string, dir: Direction, h: X, rest: seq<X>)
    requires Ordered(key, dir, rest) && NoneBefore(key, dir, rest, h)
    ensures Ordered(key, dir, [h] + rest)
  {
    var r := [h] + rest;
    forall i, j | 0 <= i < j < |r| ensures !Before(key, dir, r[j], r[i]) {
      assert r[j] == rest[j - 1];
      if i > 0 {
        assert r[i] == rest[i - 1];
      }
    }
  }

  lemma {:induction false} InsertOrdered<X>(key: X -> string, dir: Direction, x: X, ys: seq<X>)
    requires Ordered(key, dir, ys)
    ensures Ordered(key, dir, Insert(key, dir, x, ys))
    decreases |ys|
  {
    if ys == [] {
    } else if Before(key, dir, x, ys[0]) {
      forall i | 0 <= i < |ys| ensures !Before(key, dir, ys[i], x) {
        if Before(key, dir, ys[i], x) {
          BeforeTransitive(key, dir, ys[i], x, ys[0]);
          if i == 0 {
            Text.StrLessIrreflexive(key(ys[0]));
          }
        }
      }
      ConsOrdered(key, dir, x, ys);
    } else {
      OrderedTail(key, dir, ys);
      InsertOrdered(key, dir, x, ys[1..]);
      InsertNoneBefore(key, dir, x, ys[1..], ys[0]);
      ConsOrdered(key, dir, ys[0], Insert(key, dir, x, ys[1..]));
    }
  }

  /** The sorted list is ordered by the column value in the chosen direction. */
  lemma {:induction false} SortOrdered<X>(key: X -> string, dir: Direction, xs: seq<X>)
    ensures Ordered(key, dir, StableSort(key, dir, xs))
    decreases |xs|
  {
    if xs != [] {
      SortOrdered(key, dir, xs[..|xs| - 1]);
      InsertOrdered(key, dir, xs[|xs| - 1], StableSort(key, dir, xs[..|xs| - 1]));
    }
  }

  /** The elements whose column value is `k`, in order. */
  function WithKey<X>(key: X -> string, k: string, xs: seq<X>): seq<X>
    decreases |xs|
  {
    if xs == [] then [] else (if key(xs[0]) == k then [xs[0]] else []) + WithKey(key, k, xs[1..])
  }

  lemma {:induction false} WithKeyAppend<X>(key: X -> string, k: string, a: seq<X>, b: seq<X>)
    ensures WithKey(key, k, a + b) == WithKey(key, k, a) + WithKey(key, k, b)
    decreases |a|
  {
    if a != [] {
      assert (a + b)[1..] == a[1..] + b;
      WithKeyAppend(key, k, a[1..], b);
    } else {
      assert a + b == b;
    }
  }

  /** In an ordered list headed by an element that `x` goes before, nothing has `x`'s value. */
  lemma {:induction false} NoneWithKey<X>(key: X -> string, dir: Direction, x: X, ys: seq<X>)
    requires Ordered(key, dir, ys) && ys != [] && Before(key, dir, x, ys[0])
    ensures WithKey(key, key(x), ys) == []
  {
    WithKeyEmpty(key, dir, x, ys, 0);
  }

  lemma {:induction false} WithKeyEmpty<X>(key: X -> string, dir: Direction, x: X, ys: seq<X>, from: nat)
    requires Ordered(key, dir, ys) && ys != [] && Before(key, dir, x, ys[0]) && from <= |ys|
    ensures WithKey(key, key(x), ys[from..]) == []
    decreases |ys| - from
  {
    if from < |ys| {
      WithKeyEmpty(key, dir, x, ys, from + 1);
      assert ys[from..][1..] == ys[from + 1..];
      SameKeyBefore(key, dir, x, ys[from], ys[0]);
      Text.StrLessIrreflexive(key(x));
    }
  }

  lemma SameKeyBefore<X>(key: X -> string, dir: Direction, a: X, b: X, c: X)
    ensures key(a) == key(b) ==> (Before(key, dir, a, c) <==> Before(key, dir, b, c))
  {
  }

  lemma WithKeyCons<X>(key: X -> string, k: string, h: X, t: seq<X>)
    ensures WithKey(key, k, [h] + t) == (if key(h) == k then [h] else []) + WithKey(key, k, t)
  {
    assert ([h] + t)[1..] == t;
  }

  lemma {:induction false} InsertStable<X>(key: X -> string, dir: Direction, x: X, ys: seq<X>, k: string)
    requires Ordered(key, dir, ys)
    ensures WithKey(key, k, Insert(key, dir, x, ys)) == WithKey(key, k, ys) + (if key(x) == k then [x] else [])
    decreases |ys|
  {
    var xpart := if key(x) == k then [x] else [];
    if ys == [] {
      assert Insert(key, dir, x, ys) == [x] + [];
      WithKeyCons(key, k, x, []);
    } else if Before(key, dir, x, ys[0]) {
      assert Insert(key, dir, x, ys) == [x] + ys;
      WithKeyCons(key, k, x, ys);
      if key(x) == k {
        NoneWithKey(key, dir, x, ys);
      }
    } else {
      var rest := Insert(key, dir, x, ys[1..]);
      var hpart := if key(ys[0]) == k then [ys[0]] else [];
      assert Insert(key, dir, x, ys) == [ys[0]] + rest;
      OrderedTail(key, dir, ys);
      InsertStable(key, dir, x, ys[1..], k);
      WithKeyCons(key, k, ys[0], rest);
      assert ys == [ys[0]] + ys[1..];
      WithKeyCons(key, k, ys[0], ys[1..]);
      assert hpart + (WithKey(key, k, ys[1..]) + xpart) == (hpart + WithKey(key, k, ys[1..])) + xpart;
    }
  }

  /** Sorting is stable: the issues with equal column values keep their order. */
  lemma {:induction false} SortStable<X>(key: X -> string, dir: Direction, xs: seq<X>, k: string)
    ensures WithKey(key, k, StableSort(key, dir, xs)) == WithKey(key, k, xs)
    decreases |xs|
  {
    if xs != [] {
      var prefix := xs[..|xs| - 1];
      var last := xs[|xs| - 1];
      SortStable(key, dir, prefix, k);
      SortOrdered(key, dir, prefix);
      InsertStable(key, dir, last, StableSort(key, dir, prefix), k);
      assert xs == prefix + [last];
      WithKeyAppend(key, k, prefix, [last]);
      assert [last][1..] == [];
    }
  }

  /** The sort key of a column: its string value. */
  function SortKey(field: string): JsValue -> string {
    issue => if GetFieldValue(issue, field).Ok? && GetFieldValue(issue, field).value.Str? then GetFieldValue(issue, field).value.s else ""
  }

  /** The column shows a string for this issue, which JavaScript's `<` compares as text. */
  predicate SortableBy(issue: JsValue, field: string) {
    GetFieldValue(issue, field).Ok? && GetFieldValue(issue, field).value.Str?
  }

  // ---------------------------------------------------------------------------
  // Filtering

  /** Whitespace and line terminators as `String.prototype.trim` removes them. */
  predicate JsIsSpace(c: char) {
    c in {'\t', '\n', '\U{000B}', '\U{000C}', '\r', ' ', '\U{00A0}', '\U{1680}', '\U{2028}', '\U{2029}', '\U{202F}', '\U{205F}', '\U{3000}', '\U{FEFF}'} ||
    '\U{2000}' <= c <= '\U{200A}'
  }

  /** `searchTerm.trim()` is empty. */
  predicate Blank(s: string) {
    forall i :: 0 <= i < |s| ==> JsIsSpace(s[i])
  }

  /** `xs.some(p)`, which stops at the first `true` and passes on what `p` throws. */
  function AnyOf<X, E>(p: X -> Result<bool, E>, xs: seq<X>): Result<bool, E>
    decreases |xs|
  {
    if xs == [] then Ok(false)
    else
      var b :- p(xs[0]);
      if b then Ok(true) else AnyOf(p, xs[1..])
  }

  /** `xs.filter(p)`, which keeps the order and passes on what `p` throws. */
  function FilterBy<X, E>(p: X -> Result<bool, E>, xs: seq<X>): Result<seq<X>, E>
    decreases |xs|
  {
    if xs == [] then Ok([])
    else
      var b :- p(xs[0]);
      var rest :- FilterBy(p, xs[1..]);
      Ok(if b then [xs[0]] + rest else rest)
  }

  /**
    `some` is true exactly when one element gives true after only falses before it, and false
    exactly when every element gives false.
  */
  lemma {:induction false} AnyOfMeaning<X, E>(p: X -> Result<bool, E>, xs: seq<X>)
    ensures AnyOf(p, xs) == Ok(true) ==> exists j :: 0 <= j < |xs| && p(xs[j]) == Ok(true)
    ensures AnyOf(p, xs) == Ok(false) ==> forall j :: 0 <= j < |xs| ==> p(xs[j]) == Ok(false)
    ensures (forall j :: 0 <= j < |xs| ==> p(xs[j]) == Ok(false)) ==> AnyOf(p, xs) == Ok(false)
    ensures forall j :: 0 <= j < |xs| && p(xs[j]) == Ok(true) && (forall k :: 0 <= k < j ==> p(xs[k]) == Ok(false)) ==>
      AnyOf(p, xs) == Ok(true)
    decreases |xs|
  {
    if xs != [] && p(xs[0]) == Ok(false) {
      AnyOfMeaning(p, xs[1..]);
      forall j | 1 <= j < |xs| ensures xs[1..][j - 1] == xs[j] {
      }
    }
  }

  /**
    A successful filter keeps, in order, exactly the elements for which `p` gives true: `idx`
    lists their indices, strictly increasing.
  */
  lemma {:induction false} FilterIndices<X, E>(p: X -> Result<bool, E>, xs: seq<X>) returns (idx: seq<int>)
    requires FilterBy(p, xs).Ok?
    ensures var r := FilterBy(p, xs).value;
      |idx| == |r| &&
      (forall k :: 0 <= k < |idx| ==> 0 <= idx[k] < |xs| && r[k] == xs[idx[k]]) &&
      (forall k, l :: 0 <= k < l < |idx| ==> idx[k] < idx[l]) &&
      (forall i :: 0 <= i < |xs| ==> p(xs[i]).Ok? && (p(xs[i]).value <==> i in idx))
    decreases |xs|
  {
    if xs == [] {
      idx := [];
    } else {
      var tail := FilterIndices(p, xs[1..]);
      var rest := FilterBy(p, xs[1..]).value;
      var keep := p(xs[0]).value;
      var shifted := Shifted(tail);
      idx := if keep then [0] + shifted else shifted;
      assert xs == [xs[0]] + xs[1..];
      FilterStep(p, xs[0], xs[1..], xs, idx, tail, rest);
    }
  }

  /** Every index one higher. */
  function Shifted(tail: seq<int>): (r: seq<int>)
    ensures |r| == |tail|
    ensures forall k :: 0 <= k < |tail| ==> r[k] == tail[k] + 1
  {
    seq(|tail|, k requires 0 <= k < |tail| => tail[k] + 1)
  }

  lemma FilterStep<X, E>(p: X -> Result<bool, E>, x: X, tail: seq<X>, xs: seq<X>, idx: seq<int>, ti: seq<int>, rest: seq<X>)
    requires xs == [x] + tail && p(x).Ok?
    requires |ti| == |rest|
    requires forall k :: 0 <= k < |ti| ==> 0 <= ti[k] < |tail| && rest[k] == tail[ti[k]]
    requires forall k, l :: 0 <= k < l < |ti| ==> ti[k] < ti[l]
    requires forall i :: 0 <= i < |tail| ==> p(tail[i]).Ok? && (p(tail[i]).value <==> i in ti)
    requires idx == (if p(x).value then [0] + Shifted(ti) else Shifted(ti))
    ensures var r := if p(x).value then [x] + rest else rest;
      |idx| == |r| &&
      (forall k :: 0 <= k < |idx| ==> 0 <= idx[k] < |xs| && r[k] == xs[idx[k]]) &&
      (forall k, l :: 0 <= k < l < |idx| ==> idx[k] < idx[l]) &&
      (forall i :: 0 <= i < |xs| ==> p(xs[i]).Ok? && (p(xs[i]).value <==> i in idx))
  {
    var b := p(x).value;
    StepPositions(b, x, tail, xs, idx, ti, rest);
    StepIncreasing(b, idx, ti);
    ShiftedMembers(ti);
    forall i | 1 <= i < |xs| ensures p(xs[i]).Ok? && (p(xs[i]).value <==> i in idx) {
      assert xs[i] == tail[i - 1];
      assert i in idx <==> i in Shifted(ti);
    }
  }

  lemma StepPositions<X>(b: bool, x: X, tail: seq<X>, xs: seq<X>, idx: seq<int>, ti: seq<int>, rest: seq<X>)
    requires xs == [x] + tail && |ti| == |rest|
    requires forall k :: 0 <= k < |ti| ==> 0 <= ti[k] < |tail| && rest[k] == tail[ti[k]]
    requires idx == (if b then [0] + Shifted(ti) else Shifted(ti))
    ensures var r := if b then [x] + rest else rest;
      |idx| == |r| && forall k :: 0 <= k < |idx| ==> 0 <= idx[k] < |xs| && r[k] == xs[idx[k]]
  {
    var sh := Shifted(ti);
    var r := if b then [x] + rest else rest;
    forall k | 0 <= k < |idx| ensures 0 <= idx[k] < |xs| && r[k] == xs[idx[k]] {
      if b && k == 0 {
      } else {
        var m := if b then k - 1 else k;
        assert idx[k] == sh[m] == ti[m] + 1 && r[k] == rest[m];
        assert xs[ti[m] + 1] == tail[ti[m]];
      }
    }
  }

  lemma StepIncreasing(b: bool, idx: seq<int>, ti: seq<int>)
    requires forall k :: 0 <= k < |ti| ==> 0 <= ti[k]
    requires forall k, l :: 0 <= k < l < |ti| ==> ti[k] < ti[l]
    requires idx == (if b then [0] + Shifted(ti) else Shifted(ti))
    ensures forall k, l :: 0 <= k < l < |idx| ==> idx[k] < idx[l]
  {
    var sh := Shifted(ti);
    forall k, l | 0 <= k < l < |idx| ensures idx[k] < idx[l] {
      if b {
        assert idx[l] == sh[l - 1];
        if k > 0 {
          assert idx[k] == sh[k - 1];
        }
      }
    }
  }

  lemma ShiftedMembers(ti: seq<int>)
    ensures forall i :: i in Shifted(ti) <==> i - 1 in ti
    ensures 0 !in Shifted(ti) || -1 in ti
  {
    var sh := Shifted(ti);
    forall i ensures i in sh <==> i - 1 in ti {
      if i in sh {
        var k :| 0 <= k < |sh| && sh[k] == i;
        assert ti[k] == i - 1;
      }
      if i - 1 in ti {
        var k :| 0 <= k < |ti| && ti[k] == i - 1;
        assert sh[k] == i;
      }
    }
  }

  /** The filter succeeds exactly when `p` throws for no element. */
  lemma {:induction false} FilterSucceeds<X, E>(p: X -> Result<bool, E>, xs: seq<X>)
    ensures FilterBy(p, xs).Ok? <==> forall i :: 0 <= i < |xs| ==> p(xs[i]).Ok?
    decreases |xs|
  {
    if xs != [] {
      FilterSucceeds(p, xs[1..]);
      forall i | 1 <= i < |xs| ensures xs[1..][i - 1] == xs[i] {
      }
    }
  }

  /** `getFieldValue(issue, field).toString().toLowerCase().includes(term)`. */
  function FieldHit(issue: JsValue, term: string): string -> Result<bool, JsError> {
    field =>
      var v :- GetFieldValue(issue, field);
      var text :- ToText(v);
      Ok(Text.Contains(Text.ToLower(text), term))
  }

  function Matches(fields: seq<string>, term: string): JsValue -> Result<bool, JsError> {
    issue => AnyOf(FieldHit(issue, term), fields)
  }

  /** The list `filterIssues` assigns, or what it throws. */
  function Filtered(issues: seq<JsValue>, fields: seq<string>, searchTerm: string): Result<seq<JsValue>, JsError> {
    if Blank(searchTerm) then Ok(issues)
    else FilterBy(Matches(fields, Text.ToLower(searchTerm)), issues)
  }

  /** Some displayed field of the issue, lowercased, contains the lowercased term. */
  predicate Shows(issue: JsValue, fields: seq<string>, searchTerm: string) {
    exists j :: 0 <= j < |fields| && FieldHit(issue, Text.ToLower(searchTerm))(fields[j]) == Ok(true)
  }

  /**
    With a non-blank term, a successful filter keeps, in their order, exactly the issues that
    show the term in some displayed field.
  */
  lemma FilterSpec(issues: seq<JsValue>, fields: seq<string>, searchTerm: string) returns (idx: seq<int>)
    requires !Blank(searchTerm) && Filtered(issues, fields, searchTerm).Ok?
    ensures var r := Filtered(issues, fields, searchTerm).value;
      |idx| == |r| &&
      (forall k :: 0 <= k < |idx| ==> 0 <= idx[k] < |issues| && r[k] == issues[idx[k]]) &&
      (forall k, l :: 0 <= k < l < |idx| ==> idx[k] < idx[l]) &&
      (forall i :: 0 <= i < |issues| ==> (Shows(issues[i], fields, searchTerm) <==> i in idx))
  {
    var p := Matches(fields, Text.ToLower(searchTerm));
    idx := FilterIndices(p, issues);
    forall i | 0 <= i < |issues| ensures Shows(issues[i], fields, searchTerm) <==> i in idx {
      AnyOfMeaning(FieldHit(issues[i], Text.ToLower(searchTerm)), fields);
    }
  }

  // ---------------------------------------------------------------------------
  // Paging

  const PageSize: int := 25

  function Min(a: int, b: int): int { if a <= b then a else b }
  function Max(a: int, b: int): int { if a >= b then a else b }

  /** `Array.prototype.slice(start, end)`: negative bounds count from the end, all are clipped. */
  function Slice<X>(xs: seq<X>, start: int, end: int): seq<X> {
    var n := |xs|;
    var s := if start < 0 then Max(n + start, 0) else Min(start, n);
    var e := if end < 0 then Max(n + end, 0) else Min(end, n);
    if s < e then xs[s..e] else []
  }

  /** `getPaginatedIssues` on page `page`. */
  function Page<X>(xs: seq<X>, page: int): (r: seq<X>)
    ensures |r| <= PageSize
  {
    Slice(xs, (page - 1) * PageSize, (page - 1) * PageSize + PageSize)
  }

  /** `Math.ceil(n / pageSize)`. */
  function TotalPages(n: nat): (t: nat)
    ensures n == 0 ==> t == 0
    ensures n > 0 ==> (t - 1) * PageSize < n <= t * PageSize
  {
    (n + PageSize - 1) / PageSize
  }

  /** From page 1 on, a page is the list from its first index, clipped to the list. */
  lemma PageContents<X>(xs: seq<X>, page: int)
    requires page >= 1
    ensures Page(xs, page) == xs[Min((page - 1) * PageSize, |xs|)..Min(page * PageSize, |xs|)]
  {
  }

  /** The issue at index `i` is at position `i % 25` of page `i / 25 + 1`. */
  lemma PageIndex<X>(xs: seq<X>, i: int)
    requires 0 <= i < |xs|
    ensures i % PageSize < |Page(xs, i / PageSize + 1)|
    ensures Page(xs, i / PageSize + 1)[i % PageSize] == xs[i]
  {
    var p := i / PageSize + 1;
    assert (p - 1) * PageSize + i % PageSize == i;
  }

  /** A page within range is not empty; only the last may be shorter than 25. */
  lemma PageInRange<X>(xs: seq<X>, page: int)
    requires 1 <= page <= TotalPages(|xs|)
    ensures 0 < |Page(xs, page)|
    ensures page < TotalPages(|xs|) ==> |Page(xs, page)| == PageSize
  {
  }

  /** The pagination bar: the "Showing a-b of n" range, the previous and next buttons and the page numbers. */
  datatype Pagination = Pagination(
    startItem: int, endItem: int, count: int,
    previousPage: int, previousDisabled: bool,
    numbers: seq<PageButton>,
    nextPage: int, nextDisabled: bool)

  datatype PageButton = PageButton(page: int, active: bool)

  /** The first and last page number `renderPageNumbers` shows. */
  function Window(current: int, total: int): (int, int) {
    var start := Max(1, current - 2);
    var end := Min(total, start + 4);
    if end - start < 4 then (Max(1, end - 4), end) else (start, end)
  }

  /** On a page within range, the window holds min(5, total) consecutive pages of [1, total], the current among them. */
  lemma WindowFacts(current: int, total: int)
    requires 1 <= current <= total
    ensures var (start, end) := Window(current, total);
      1 <= start <= current <= end <= total && end - start + 1 == Min(5, total)
  {
  }

  /** The range "Showing a-b" names exactly the issues of the page. */
  lemma ShownRange<X>(xs: seq<X>, page: int)
    requires 1 <= page <= TotalPages(|xs|)
    ensures var endItem := Min(page * PageSize, |xs|);
      var startItem := (page - 1) * PageSize + 1;
      1 <= startItem <= endItem <= |xs| && Page(xs, page) == xs[startItem - 1..endItem]
  {
  }

  // ---------------------------------------------------------------------------
  // Text

  /** `truncateText`: '' for a falsy value, else its text, cut to `maxLength` characters plus '...' when longer. */
  function TruncateText(text: JsValue, maxLength: int): (r: string)
    ensures !Truthy(text) ==> r == ""
    ensures Truthy(text) && |ElemText(text)| <= maxLength ==> r == ElemText(text)
    ensures Truthy(text) && |ElemText(text)| > maxLength ==>
      r == ElemText(text)[..Max(maxLength, 0)] + "..."
  {
    if !Truthy(text) then ""
    else
      var s := ElemText(text);
      if |s| > maxLength then s[..Max(maxLength, 0)] + "..." else s
  }

  /** A truncated text is a prefix of the text, at most three characters longer than the limit. */
  lemma TruncateBound(text: JsValue, maxLength: nat)
    ensures |TruncateText(text, maxLength)| <= maxLength + 3
    ensures Truthy(text) ==> var s := ElemText(text); var r := TruncateText(text, maxLength);
      (r == s || (r == s[..maxLength] + "..." && |s| > maxLength))
    ensures Truthy(text) && |ElemText(text)| > maxLength ==> |TruncateText(text, maxLength)| == maxLength + 3
  {
  }

  // ---------------------------------------------------------------------------
  // The grid

  const DefaultFields: seq<string> := ["key", "summary", "status", "assignee", "priority", "updated"]

  class JiraMacro {
    var issues: seq<JsValue>
    var filteredIssues: seq<JsValue>
    var currentSort: SortState
    var currentPage: int
    const pageSize: int := PageSize
    /** `options.fields`, or the configured default columns. */
    const fields: seq<string>

    constructor (optionFields: Option<seq<string>>)
      ensures fields == optionFields.GetOr(DefaultFields)
      ensures issues == [] && filteredIssues == []
      ensures currentSort == SortState(None, Asc) && currentPage == 1
    {
      fields := optionFields.GetOr(DefaultFields);
      issues := [];
      filteredIssues := [];
      currentSort := SortState(None, Asc);
      currentPage := 1;
    }

    /** The current page is within range (every page count is at least one for this purpose). */
    predicate PageValid()
      reads this
    {
      1 <= currentPage <= Max(1, TotalPages(|filteredIssues|))
    }

    /** What `loadIssues` stores once the response arrives: `response.issues || []` and a copy of it. */
    method LoadIssues(loaded: Option<seq<JsValue>>)
      modifies this
      ensures issues == loaded.GetOr([]) && filteredIssues == issues
      ensures currentSort == old(currentSort) && currentPage == old(currentPage)
    {
      issues := loaded.GetOr([]);
      filteredIssues := issues;
    }

    /** `sortIssues`: sorts the shown list in place on the column and returns to page 1. */
    method SortIssues(field: string)
      requires forall i :: 0 <= i < |filteredIssues| ==> SortableBy(filteredIssues[i], field)
      modifies this
      ensures currentSort == SortState(Some(field), NextDirection(old(currentSort), field))
      ensures filteredIssues == StableSort(SortKey(field), currentSort.direction, old(filteredIssues))
      ensures currentPage == 1 && issues == old(issues)
      ensures PageValid()
    {
      var direction := if currentSort.field == Some(field) && currentSort.direction == Asc then Desc else Asc;
      filteredIssues := StableSort(SortKey(field), direction, filteredIssues);
      currentSort := SortState(Some(field), direction);
      currentPage := 1;
    }

    /** `filterIssues`: a thrown error leaves everything as it was. */
    method FilterIssues(searchTerm: string) returns (r: Result<(), JsError>)
      modifies this
      ensures r.Ok? <==> Filtered(old(issues), fields, searchTerm).Ok?
      ensures r.Ok? ==> filteredIssues == Filtered(old(issues), fields, searchTerm).value && currentPage == 1 && PageValid()
      ensures r.Err? ==>
        r.error == Filtered(old(issues), fields, searchTerm).error &&
        filteredIssues == old(filteredIssues) && currentPage == old(currentPage)
      ensures issues == old(issues) && currentSort == old(currentSort)
    {
      if Blank(searchTerm) {
        filteredIssues := issues;
      } else {
        var term := Text.ToLower(searchTerm);
        var kept := FilterBy(Matches(fields, term), issues);
        if kept.Err? {
          return Err(kept.error);
        }
        filteredIssues := kept.value;
      }
      currentPage := 1;
      r := Ok(());
    }

    /** `goToPage`, which takes any page number. */
    method GoToPage(page: int)
      modifies this
      ensures currentPage == page
      ensures issues == old(issues) && filteredIssues == old(filteredIssues) && currentSort == old(currentSort)
      ensures PageValid() <==> 1 <= page <= Max(1, TotalPages(|filteredIssues|))
    {
      currentPage := page;
    }

    /** `getPaginatedIssues`. */
    function GetPaginatedIssues(): (r: seq<JsValue>)
      reads this
      ensures |r| <= pageSize
      ensures currentPage >= 1 ==>
        r == filteredIssues[Min((currentPage - 1) * pageSize, |filteredIssues|)..Min(currentPage * pageSize, |filteredIssues|)]
    {
      PageContentsOf(filteredIssues, currentPage);
      Page(filteredIssues, currentPage)
    }

    /** `renderPageNumbers`: one button per page of the window, the current one active. */
    method RenderPageNumbers(totalPages: int) returns (pages: seq<PageButton>)
      ensures var (start, end) := Window(currentPage, totalPages);
        |pages| == Max(0, end - start + 1) &&
        forall k :: 0 <= k < |pages| ==> pages[k] == PageButton(start + k, start + k == currentPage)
    {
      var maxVisible := 5;
      var start := Max(1, currentPage - maxVisible / 2);
      var end := Min(totalPages, start + maxVisible - 1);
      if end - start < maxVisible - 1 {
        start := Max(1, end - maxVisible + 1);
      }
      pages := [];
      var i := start;
      while i <= end
        invariant start <= i <= Max(start, end + 1)
        invariant |pages| == i - start
        invariant forall k :: 0 <= k < |pages| ==> pages[k] == PageButton(start + k, start + k == currentPage)
      {
        pages := pages + [PageButton(i, i == currentPage)];
        i := i + 1;
      }
    }

    /** `renderPagination`: nothing for a single page, else the range, buttons and page numbers. */
    method RenderPagination() returns (bar: Option<Pagination>)
      ensures TotalPages(|filteredIssues|) <= 1 <==> bar.None?
      ensures bar.Some? ==>
        var total := TotalPages(|filteredIssues|);
        var (start, end) := Window(currentPage, total);
        bar.value.startItem == (currentPage - 1) * pageSize + 1 &&
        bar.value.endItem == Min(currentPage * pageSize, |filteredIssues|) &&
        bar.value.count == |filteredIssues| &&
        bar.value.previousPage == currentPage - 1 && (bar.value.previousDisabled <==> currentPage == 1) &&
        bar.value.nextPage == currentPage + 1 && (bar.value.nextDisabled <==> currentPage == total) &&
        |bar.value.numbers| == Max(0, end - start + 1) &&
        forall k :: 0 <= k < |bar.value.numbers| ==>
          bar.value.numbers[k].page == start + k && bar.value.numbers[k].active == (start + k == currentPage)
    {
      var totalPages := TotalPages(|filteredIssues|);
      if totalPages <= 1 {
        return None;
      }
      var startItem := (currentPage - 1) * pageSize + 1;
      var endItem := Min(currentPage * pageSize, |filteredIssues|);
      var numbers := RenderPageNumbers(totalPages);
      bar := Some(Pagination(startItem, endItem, |filteredIssues|,
        currentPage - 1, currentPage == 1, numbers, currentPage + 1, currentPage == totalPages));
    }
  }

  lemma PageContentsOf<X>(xs: seq<X>, page: int)
    ensures page >= 1 ==> Page(xs, page) == xs[Min((page - 1) * PageSize, |xs|)..Min(page * PageSize, |xs|)]
  {
  }
}
