/** The marker colour scale: a category value classified against 1. */
module Colors {
  import opened Wrappers
  import opened DataView

  const Green: string := "#5b8943"
  const Red: string := "#951a21"
  const Amber: string := "#de913b"

  /** Every colour a marker can get. */
  const Palette: set<string> := {Green, Red, Amber}

  /**
    The number a JavaScript relational comparison sees for a cell value,
    or `None` when it sees NaN (a missing value, or text).
   */
  function NumberOf(v: Value): Option<real>
  {
    match v
    case Num(n) => Some(n)
    case Bool(b) => Some(if b then 1.0 else 0.0)
    case Null => Some(0.0)
    case Text(_) => None
  }

  /**
    Classifies a category against the threshold 1: above is green, below is
    red, and exactly 1 or not comparable at all (NaN) is amber.
   */
  function ColorSPI(category: Option<real>): (color: string)
    ensures color in Palette
    ensures color == Green <==> category.Some? && category.value > 1.0
    ensures color == Red <==> category.Some? && category.value < 1.0
    ensures color == Amber <==> category.None? || category.value == 1.0
  {
    if category.Some? && category.value > 1.0 then Green
    else if category.Some? && category.value < 1.0 then Red
    else Amber
  }
}
