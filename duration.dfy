/**
  The time parser of the spreadsheet importer: a cell becomes a number of hours.
  Numbers are taken as hours; text is blank-stripped and lower-cased, and then read as
  hours ("8h"), days of 8 hours ("1.5d"), weeks of 40 hours ("1w"), a clock reading
  ("8:30" is 8.5) or a plain number. Anything unreadable counts as 0 hours.

  A unit branch removes the unit letter before it removes the unit words, so a spelled-out
  unit ("8 hours", "2 days") loses its first letter, no longer parses, and counts as 0.
*/
module Duration {
  import opened Wrappers
  import Text
  import Numbers
  import opened Cells

  /** The units the parser knows, with the hours each one stands for. */
  datatype Unit = Hour | Day | Week {
    function Letter(): char {
      match this
      case Hour => 'h'
      case Day => 'd'
      case Week => 'w'
    }

    function Singular(): string {
      match this
      case Hour => "hour"
      case Day => "day"
      case Week => "week"
    }

    function Plural(): string {
      Singular() + "s"
    }

    function Hours(): real {
      match this
      case Hour => 1.0
      case Day => 8.0
      case Week => 40.0
    }
  }

  /** Texts that stand for "no value". */
  const NullTokens: seq<string> := ["", "null", "none", "n/a", "-"]

  /** The text with the unit letter removed, then the plural word, then the singular word. */
  function WithoutUnit(sv: string, u: Unit): string {
    Text.RemoveAll(Text.RemoveAll(Text.RemoveAll(sv, [u.Letter()]), u.Plural()), u.Singular())
  }

  /** The amount in front of a unit, converted to hours; 0 when it is not a number. */
  function InUnit(sv: string, u: Unit): real {
    Scaled(Numbers.ParseFloat(Text.Strip(WithoutUnit(sv, u))), u)
  }

  /** An amount of units in hours; 0 for no amount. */
  function Scaled(amount: Option<real>, u: Unit): real {
    match amount
    case Some(x) => x * u.Hours()
    case None => 0.0
  }

  /** "H:MM": hours plus minutes over 60; anything after a second ':' is ignored. */
  function Clock(sv: string): real {
    var parts := Text.SplitOn(sv, ':');
    match Numbers.ParseFloat(parts[0])
    case None => 0.0
    case Some(h) =>
      if |parts| > 1 then
        match Numbers.ParseFloat(parts[1])
        case None => 0.0
        case Some(m) => h + m / 60.0
      else h
  }

  /** A stripped, lower-cased text; the first unit letter found decides the branch. */
  function ParseTimeText(sv: string): real {
    if sv in NullTokens then 0.0
    else if 'h' in sv then InUnit(sv, Hour)
    else if 'd' in sv then InUnit(sv, Day)
    else if 'w' in sv then InUnit(sv, Week)
    else if ':' in sv then Clock(sv)
    else Numbers.ParseFloat(sv).GetOr(0.0)
  }

  /** The hours a cell stands for. */
  function ParseTimeValue(v: Value): real {
    if IsNa(v) || v == Text("") then 0.0
    else if IsNumber(v) then NumberValue(v)
    else ParseTimeText(Text.ToLower(Text.Strip(Str(v))))
  }

  // ---------------------------------------------------------------------------
  // What the parser reads

  /** The ways an amount may be followed by a unit: "8h", "8 hour", "8hours", ... */
  datatype Spelling = Short | Word | Words

  function Spelled(u: Unit, sp: Spelling): (w: string)
    ensures |w| > 0 && w[0] == u.Letter()
  {
    match sp
    case Short => [u.Letter()]
    case Word => u.Singular()
    case Words => u.Plural()
  }

  /** Missing values, the empty text and numbers are handled before any text parsing. */
  lemma NumberCells(v: Value)
    ensures IsNa(v) || v == Text("") ==> ParseTimeValue(v) == 0.0
    ensures v.Int? ==> ParseTimeValue(v) == v.n as real
    ensures v.Float? ==> ParseTimeValue(v) == v.x
    ensures v.Bool? ==> ParseTimeValue(v) == (if v.b then 1.0 else 0.0)
  {
  }

  /** A text that normalizes to one of the null tokens is 0 hours. */
  lemma NullText(s: string)
    requires Text.ToLower(Text.Strip(s)) in NullTokens
    ensures ParseTimeValue(Text(s)) == 0.0
  {
  }

  /**
    A number followed by the unit letter is that many units, in hours; followed by the
    spelled-out unit it is 0 hours, because the letter is removed first.
  */
  lemma UnitAmount(n: string, x: real, u: Unit, pre: string, sp: Spelling)
    requires Numbers.ParseDecimal(n) == Some(x)
    requires pre == "" || pre == " "
    ensures ParseTimeValue(Text(n + pre + Spelled(u, sp))) == if sp == Short then x * u.Hours() else 0.0
  {
    var sv := n + (pre + Spelled(u, sp));
    assert n + pre + Spelled(u, sp) == sv;
    Numerals(n, x);
    SpelledLetters(u, sp);
    NumberUnitNormalized(n, pre, Spelled(u, sp));
    UnitLetters(n, x, u, pre, sp);
    TextCell(sv);
    TextBranch(sv, u);
    UnitInUnit(n, x, u, pre, sp);
  }

  lemma UnitInUnit(n: string, x: real, u: Unit, pre: string, sp: Spelling)
    requires Numbers.ParseDecimal(n) == Some(x)
    requires pre == "" || pre == " "
    requires u.Letter() !in n
    ensures InUnit(n + (pre + Spelled(u, sp)), u) == if sp == Short then x * u.Hours() else 0.0
  {
    UnitRest(n, x, u, pre, sp);
    var sv := n + (pre + Spelled(u, sp));
    if sp == Short {
      InUnitOf(sv, u, Some(x));
    } else {
      InUnitOf(sv, u, None);
    }
  }

  /** Any text containing an 'h' is read in hours, whatever else it contains. */
  lemma HoursFirst(sv: string)
    requires sv !in NullTokens && 'h' in sv
    ensures ParseTimeText(sv) == InUnit(sv, Hour)
  {
  }

  /** The first unit letter present picks the unit. */
  lemma TextBranch(sv: string, u: Unit)
    requires sv !in NullTokens && u.Letter() in sv
    requires u != Hour ==> 'h' !in sv
    requires u == Week ==> 'd' !in sv
    ensures ParseTimeText(sv) == InUnit(sv, u)
  {
  }

  /** "H:MM" is H hours and MM minutes; further ":" parts are ignored. */
  lemma ClockReading(a: string, b: string, tail: string, x: real, y: real)
    requires Numbers.ParseDecimal(a) == Some(x) && Numbers.ParseDecimal(b) == Some(y)
    requires tail == "" || tail[0] == ':'
    requires forall i :: 0 <= i < |tail| ==> Numbers.IsNumeral(tail[i]) || tail[i] == ':'
    ensures ParseTimeValue(Text(a + ":" + b + tail)) == x + y / 60.0
  {
    Numerals(a, x);
    Numerals(b, y);
    var sv := a + ":" + b + tail;
    ClockChars(a, b, tail);
    NumeralText(sv);
    TextCell(sv);
    assert sv[|a|] == ':';
    ClockText(sv);
    ClockValue(a, b, tail, x, y);
  }

  lemma ClockValue(a: string, b: string, tail: string, x: real, y: real)
    requires Numbers.ParseDecimal(a) == Some(x) && Numbers.ParseDecimal(b) == Some(y)
    requires ':' !in a && ':' !in b
    requires tail == "" || tail[0] == ':'
    ensures Clock(a + ":" + b + tail) == x + y / 60.0
  {
    ClockParts(a, b, tail);
    Numbers.ParseFloatDecimal(a);
    Numbers.ParseFloatDecimal(b);
    ClockOf(a + ":" + b + tail, x, y);
  }

  /** Without unit letters, a text with a ':' is a clock reading. */
  lemma ClockText(sv: string)
    requires sv !in NullTokens && 'h' !in sv && 'd' !in sv && 'w' !in sv && ':' in sv
    ensures ParseTimeText(sv) == Clock(sv)
  {
  }

  /** Without unit letters or ':', a text is read as a plain number. */
  lemma PlainText(sv: string)
    requires sv !in NullTokens && 'h' !in sv && 'd' !in sv && 'w' !in sv && ':' !in sv
    ensures ParseTimeText(sv) == Numbers.ParseFloat(sv).GetOr(0.0)
  {
  }

  lemma ClockOf(sv: string, x: real, y: real)
    requires |Text.SplitOn(sv, ':')| >= 2
    requires Numbers.ParseFloat(Text.SplitOn(sv, ':')[0]) == Some(x)
    requires Numbers.ParseFloat(Text.SplitOn(sv, ':')[1]) == Some(y)
    ensures Clock(sv) == x + y / 60.0
  {
  }

  lemma ClockParts(a: string, b: string, tail: string)
    requires ':' !in a && ':' !in b
    requires tail == "" || tail[0] == ':'
    ensures |Text.SplitOn(a + ":" + b + tail, ':')| >= 2
    ensures Text.SplitOn(a + ":" + b + tail, ':')[0] == a
    ensures Text.SplitOn(a + ":" + b + tail, ':')[1] == b
  {
    assert a + ":" + b + tail == a + [':'] + (b + tail);
    Text.SplitFirst(a, b + tail, ':');
    if tail == "" {
      assert b + tail == b;
      Text.SplitAbsent(b, ':');
    } else {
      assert b + tail == b + [':'] + tail[1..];
      Text.SplitFirst(b, tail[1..], ':');
    }
  }

  lemma ClockChars(a: string, b: string, tail: string)
    requires |a| > 0 && forall i :: 0 <= i < |a| ==> Numbers.IsNumeral(a[i])
    requires |b| > 0 && forall i :: 0 <= i < |b| ==> Numbers.IsNumeral(b[i])
    requires forall i :: 0 <= i < |tail| ==> Numbers.IsNumeral(tail[i]) || tail[i] == ':'
    ensures var sv := a + ":" + b + tail;
      |sv| >= 3 && Numbers.IsNumeral(sv[0]) && (Numbers.IsNumeral(sv[|sv| - 1]) || sv[|sv| - 1] == ':') &&
      forall i :: 0 <= i < |sv| ==> Numbers.IsNumeral(sv[i]) || sv[i] == ':'
    ensures ':' !in a && ':' !in b
  {
    var sv := a + ":" + b + tail;
    forall i | 0 <= i < |sv| ensures Numbers.IsNumeral(sv[i]) || sv[i] == ':' {
      if i < |a| {
        assert sv[i] == a[i];
      } else if |a| < i < |a| + 1 + |b| {
        assert sv[i] == b[i - |a| - 1];
      } else if i >= |a| + 1 + |b| {
        assert sv[i] == tail[i - |a| - 1 - |b|];
      }
    }
    assert sv[0] == a[0];
  }

  /** A plain decimal number is that many hours. */
  lemma PlainNumber(n: string, x: real)
    requires Numbers.ParseDecimal(n) == Some(x)
    ensures ParseTimeValue(Text(n)) == x
  {
    Numerals(n, x);
    NumeralText(n);
    TextCell(n);
    assert ':' !in n by {
      assert !Numbers.IsNumeral(':');
    }
    PlainText(n);
    Numbers.ParseFloatDecimal(n);
  }

  /** The word removals of a unit branch never change anything: the letter is already gone. */
  lemma WordRemovalsDead(sv: string, u: Unit)
    ensures WithoutUnit(sv, u) == Text.RemoveAll(sv, [u.Letter()])
  {
    var t := Text.RemoveAll(sv, [u.Letter()]);
    Text.RemoveCharGone(sv, u.Letter());
    Text.RemoveAbsent(t, u.Plural());
    Text.RemoveAbsent(t, u.Singular());
  }

  // ---------------------------------------------------------------------------
  // Helpers

  predicate IsLetter(c: char) {
    'a' <= c <= 'z'
  }

  /** All lower-case letters, checked one character at a time. */
  predicate Letters(s: string)
    decreases |s|
  {
    |s| == 0 || (IsLetter(s[0]) && Letters(s[1..]))
  }

  lemma {:induction false} LettersAt(s: string, i: nat)
    requires Letters(s) && i < |s|
    ensures IsLetter(s[i])
    decreases i
  {
    if i > 0 {
      LettersAt(s[1..], i - 1);
    }
  }

  lemma UnitFacts(u: Unit)
    ensures |u.Singular()| >= 2 && u.Singular()[0] == u.Letter()
    ensures u.Letter() !in u.Singular()[1..]
    ensures Letters(u.Singular())
    ensures u != Hour ==> 'h' !in u.Singular()
    ensures u == Week ==> 'd' !in u.Singular()
  {
    match u
    case Hour => assert "hour"[1..] == "our";
    case Day => assert "day"[1..] == "ay";
    case Week => assert "week"[1..] == "eek";
  }

  /** Facts about each spelling of each unit. */
  lemma SpelledLetters(u: Unit, sp: Spelling)
    ensures Letters(Spelled(u, sp))
    ensures u.Letter() !in Spelled(u, sp)[1..]
    ensures sp != Short ==> |Spelled(u, sp)| >= 2
    ensures u != Hour ==> 'h' !in Spelled(u, sp)
    ensures u == Week ==> 'd' !in Spelled(u, sp)
  {
    UnitFacts(u);
    var w := Spelled(u, sp);
    var s := u.Singular();
    if sp == Words {
      assert w == s + "s";
      LettersAppend(s, "s");
      assert w[1..] == s[1..] + "s";
    }
  }

  lemma {:induction false} LettersAppend(a: string, b: string)
    requires Letters(a) && Letters(b)
    ensures Letters(a + b)
    decreases |a|
  {
    if |a| > 0 {
      LettersAppend(a[1..], b);
      assert (a + b)[1..] == a[1..] + b;
    } else {
      assert a + b == b;
    }
  }

  lemma Numerals(n: string, x: real)
    requires Numbers.ParseDecimal(n) == Some(x)
    ensures |n| > 0 && n != "-" && forall i :: 0 <= i < |n| ==> Numbers.IsNumeral(n[i])
  {
    Numbers.DecimalCharset(n);
  }

  /** A text of numerals and colons is already normalized and takes none of the unit branches. */
  lemma NumeralText(sv: string)
    requires |sv| > 0 && sv != "-" && Numbers.IsNumeral(sv[0])
    requires forall i :: 0 <= i < |sv| ==> Numbers.IsNumeral(sv[i]) || sv[i] == ':'
    ensures Text.ToLower(Text.Strip(sv)) == sv
    ensures sv !in NullTokens
    ensures 'h' !in sv && 'd' !in sv && 'w' !in sv
  {
    NumeralNormalized(sv);
    assert sv[0] != 'n';
  }

  lemma NumeralNormalized(sv: string)
    requires |sv| > 0 && Numbers.IsNumeral(sv[0])
    requires forall i :: 0 <= i < |sv| ==> Numbers.IsNumeral(sv[i]) || sv[i] == ':'
    ensures Text.ToLower(Text.Strip(sv)) == sv
  {
    assert !Text.IsSpace(sv[0]) && !Text.IsSpace(sv[|sv| - 1]);
    Text.StripUnpadded(sv);
    assert forall i :: 0 <= i < |sv| ==> !('A' <= sv[i] <= 'Z');
    Text.ToLowerNoUpper(sv);
  }

  /** Which unit letters a number followed by a unit spelling contains. */
  lemma UnitLetters(n: string, x: real, u: Unit, pre: string, sp: Spelling)
    requires Numbers.ParseDecimal(n) == Some(x)
    requires pre == "" || pre == " "
    ensures u.Letter() in n + (pre + Spelled(u, sp)) && u.Letter() !in n
    ensures u != Hour ==> 'h' !in n + (pre + Spelled(u, sp))
    ensures u == Week ==> 'd' !in n + (pre + Spelled(u, sp))
  {
    Numerals(n, x);
    SpelledLetters(u, sp);
    var w := Spelled(u, sp);
    var sv := n + (pre + w);
    assert sv[|n| + |pre|] == u.Letter();
    assert !Numbers.IsNumeral(u.Letter());
    assert u != Hour ==> 'h' !in sv by {
      assert !Numbers.IsNumeral('h');
    }
    assert u == Week ==> 'd' !in sv by {
      assert !Numbers.IsNumeral('d');
    }
  }

  lemma NumberUnitNormalized(n: string, pre: string, w: string)
    requires |n| > 0 && n != "-" && forall i :: 0 <= i < |n| ==> Numbers.IsNumeral(n[i])
    requires pre == "" || pre == " "
    requires |w| > 0 && Letters(w)
    ensures Text.ToLower(Text.Strip(n + (pre + w))) == n + (pre + w)
    ensures n + (pre + w) !in NullTokens
  {
    var sv := n + (pre + w);
    NumberUnitStripped(n, pre, w);
    NumberUnitLower(n, pre, w);
    NotNullToken(sv);
  }

  lemma NumberUnitStripped(n: string, pre: string, w: string)
    requires |n| > 0 && forall i :: 0 <= i < |n| ==> Numbers.IsNumeral(n[i])
    requires pre == "" || pre == " "
    requires |w| > 0 && Letters(w)
    ensures Text.Strip(n + (pre + w)) == n + (pre + w)
  {
    NumberUnitEnds(n, pre, w);
    Text.StripUnpadded(n + (pre + w));
  }

  lemma NumberUnitEnds(n: string, pre: string, w: string)
    requires |n| > 0 && forall i :: 0 <= i < |n| ==> Numbers.IsNumeral(n[i])
    requires |w| > 0 && Letters(w)
    ensures var sv := n + (pre + w); !Text.IsSpace(sv[0]) && !Text.IsSpace(sv[|sv| - 1])
  {
    var sv := n + (pre + w);
    assert sv[0] == n[0] && sv[|sv| - 1] == w[|w| - 1];
    LettersAt(w, |w| - 1);
  }

  lemma NumberUnitLower(n: string, pre: string, w: string)
    requires forall i :: 0 <= i < |n| ==> Numbers.IsNumeral(n[i])
    requires pre == "" || pre == " "
    requires Letters(w)
    ensures Text.ToLower(n + (pre + w)) == n + (pre + w)
  {
    NoUpper(n, pre, w);
    Text.ToLowerNoUpper(n + (pre + w));
  }

  lemma NoUpper(n: string, pre: string, w: string)
    requires forall i :: 0 <= i < |n| ==> Numbers.IsNumeral(n[i])
    requires pre == "" || pre == " "
    requires Letters(w)
    ensures forall i :: 0 <= i < |n + (pre + w)| ==> !('A' <= (n + (pre + w))[i] <= 'Z')
  {
    var sv := n + (pre + w);
    forall i | 0 <= i < |sv| ensures !('A' <= sv[i] <= 'Z') {
      if i >= |n| + |pre| {
        assert sv[i] == w[i - |n| - |pre|];
        LettersAt(w, i - |n| - |pre|);
      } else if i >= |n| {
        assert sv[i] == pre[i - |n|];
      }
    }
  }

  lemma NotNullToken(sv: string)
    requires |sv| >= 2 && Numbers.IsNumeral(sv[0])
    ensures sv !in NullTokens
  {
  }

  /** A non-empty text cell is parsed from its normalized text. */
  lemma TextCell(s: string)
    requires s != ""
    ensures ParseTimeValue(Text(s)) == ParseTimeText(Text.ToLower(Text.Strip(s)))
  {
  }

  lemma InUnitOf(sv: string, u: Unit, amount: Option<real>)
    requires Numbers.ParseFloat(Text.Strip(WithoutUnit(sv, u))) == amount
    ensures InUnit(sv, u) == Scaled(amount, u)
  {
  }

  /** What is left of a number followed by a unit spelling once the unit is removed. */
  lemma UnitRest(n: string, x: real, u: Unit, pre: string, sp: Spelling)
    requires Numbers.ParseDecimal(n) == Some(x)
    requires pre == "" || pre == " "
    requires u.Letter() !in n
    ensures Numbers.ParseFloat(Text.Strip(WithoutUnit(n + (pre + Spelled(u, sp)), u)))
      == if sp == Short then Some(x) else None
  {
    var w := Spelled(u, sp);
    WithoutUnitPrefix(n, pre + w, u);
    SpelledRemoval(u, pre, sp);
    Numerals(n, x);
    if sp == Short {
      ShortRest(n, x, pre, w);
    } else {
      SpelledLetters(u, sp);
      WordRest(n, pre, w);
    }
  }

  /** After the unit letter, only the amount and the blank in front are left. */
  lemma ShortRest(n: string, x: real, pre: string, w: string)
    requires Numbers.ParseDecimal(n) == Some(x)
    requires |n| > 0 && forall i :: 0 <= i < |n| ==> Numbers.IsNumeral(n[i])
    requires pre == "" || pre == " "
    requires |w| == 1
    ensures Numbers.ParseFloat(Text.Strip(n + (pre + w[1..]))) == Some(x)
  {
    assert n + (pre + w[1..]) == n + pre;
    Text.StripTrailing(n, pre);
    Numbers.ParseFloatDecimal(n);
  }

  /** After the unit letter of a word, the rest of the word is left, which is no number. */
  lemma WordRest(n: string, pre: string, w: string)
    requires |n| > 0 && forall i :: 0 <= i < |n| ==> Numbers.IsNumeral(n[i])
    requires pre == "" || pre == " "
    requires |w| >= 2 && Letters(w)
    ensures Numbers.ParseFloat(Text.Strip(n + (pre + w[1..]))) == None
  {
    var rest := n + (pre + w[1..]);
    WordRestChars(n, pre, w, rest);
    NotNumber(rest, |n| + |pre|);
  }

  /** A text with no blank at its ends and a character that cannot be part of a number is no number. */
  lemma NotNumber(rest: string, k: nat)
    requires k < |rest| && !Numbers.IsNumeral(rest[k])
    requires !Text.IsSpace(rest[0]) && !Text.IsSpace(rest[|rest| - 1])
    ensures Numbers.ParseFloat(Text.Strip(rest)) == None
  {
    Text.StripUnpadded(rest);
    Text.StripUnpadded(Text.Strip(rest));
    Numbers.NotDecimal(rest, k);
  }

  lemma WordRestChars(n: string, pre: string, w: string, rest: string)
    requires |n| > 0 && forall i :: 0 <= i < |n| ==> Numbers.IsNumeral(n[i])
    requires pre == "" || pre == " "
    requires |w| >= 2 && Letters(w)
    requires rest == n + (pre + w[1..])
    ensures |n| + |pre| < |rest| && !Numbers.IsNumeral(rest[|n| + |pre|])
    ensures !Text.IsSpace(rest[0]) && !Text.IsSpace(rest[|rest| - 1])
  {
    assert rest[|n| + |pre|] == w[1];
    LettersAt(w, 1);
    assert rest[|rest| - 1] == w[|w| - 1];
    LettersAt(w, |w| - 1);
    assert rest[0] == n[0];
  }

  lemma WithoutUnitPrefix(n: string, t: string, u: Unit)
    requires u.Letter() !in n
    ensures WithoutUnit(n + t, u) == n + WithoutUnit(t, u)
  {
    UnitFacts(u);
    var l, s, p := [u.Letter()], u.Singular(), u.Plural();
    Text.RemoveAfter(n, t, l);
    Text.RemoveAfter(n, Text.RemoveAll(t, l), p);
    Text.RemoveAfter(n, Text.RemoveAll(Text.RemoveAll(t, l), p), s);
  }

  /** Only the first letter of a unit spelling is removed. */
  lemma SpelledRemoval(u: Unit, pre: string, sp: Spelling)
    requires pre == "" || pre == " "
    ensures WithoutUnit(pre + Spelled(u, sp), u) == pre + Spelled(u, sp)[1..]
  {
    UnitFacts(u);
    SpelledLetters(u, sp);
    var l, s, p := [u.Letter()], u.Singular(), u.Plural();
    var w := Spelled(u, sp);
    assert u.Letter() !in pre;
    Text.RemoveAfter(pre, w, l);
    assert l <= w;
    Text.RemoveAbsent(w[1..], l);
    assert Text.RemoveAll(w, l) == w[1..];
    var r := pre + w[1..];
    assert u.Letter() !in r;
    Text.RemoveAbsent(r, p);
    Text.RemoveAbsent(r, s);
  }
}
