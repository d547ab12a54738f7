/**
  The values a spreadsheet cell holds once pandas has read the sheet, and Python's `str()`
  on them. A date or time cell behaves everywhere in the modelled code as the text that
  `str()` gives for it, so it is a `Text` here.
*/
module Cells {
  import opened Wrappers
  import Numbers

  datatype Value =
    | Null                              // None: no value at all
    | NaN                               // pandas' marker for an empty cell
    | Bool(b: bool)
    | Int(n: int)
    | Float(x: real, text: string)      // a finite float and the digits `str()` prints for it
    | Text(s: string)

  /** `pd.isna(v)`. */
  predicate IsNa(v: Value) {
    v.Null? || v.NaN?
  }

  /** `isinstance(v, (int, float))`; `bool` is a subclass of `int` in Python. */
  predicate IsNumber(v: Value) {
    v.Bool? || v.Int? || v.Float?
  }

  /** Python's `str(v)`. */
  function Str(v: Value): (s: string)
    ensures v.Text? ==> s == v.s
  {
    match v
    case Null => "None"
    case NaN => "nan"
    case Bool(b) => if b then "True" else "False"
    case Int(n) => Numbers.IntToString(n)
    case Float(_, text) => text
    case Text(s) => s
  }

  /** The text of an integer cell reads back as that integer. */
  lemma StrInt(n: int)
    ensures Numbers.ParseFloat(Str(Int(n))) == Some(n as real)
  {
    Numbers.ParseFloatIntToString(n);
  }

  /** `float(v)` on a numeric cell. */
  function NumberValue(v: Value): real
    requires IsNumber(v)
  {
    match v
    case Bool(b) => if b then 1.0 else 0.0
    case Int(n) => n as real
    case Float(x, _) => x
  }
}
