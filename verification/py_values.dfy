/**
 The Python values the report scripts compute with: a table cell is a
 float (possibly NaN), `None`, or text; arithmetic and conversions may
 raise `TypeError`, `ValueError` or `ZeroDivisionError`.
 */
module PyValues {
  import opened Wrappers
  import opened Strings
  import opened Numerics

  /** A Python float; infinities are not modelled. */
  datatype Float = NaN | Finite(x: real)

  /** A table cell as pandas hands it over. */
  datatype Cell = Number(f: Float) | Missing | Text(s: string)

  datatype PyError = TypeError | ValueError | ZeroDivisionError

  /** What `intify` returns: a rounded integer or the placeholder `"-"`. */
  datatype IntText = Int(n: int) | Dash

  /** The words `float()` reads as NaN. */
  predicate IsNanWord(s: string)
  {
    var l := Lower(s);
    l == "nan" || l == "+nan" || l == "-nan"
  }

  /** Python `float(c)`: `None` raises `TypeError`, unreadable text raises `ValueError`. */
  function PyFloat(c: Cell): (r: Result<Float, PyError>)
    ensures c.Number? ==> r == Success(c.f)
    ensures c.Missing? ==> r == Failure(TypeError)
    ensures r.Failure? && c.Text? ==> r.error == ValueError
  {
    match c
    case Number(f) => Success(f)
    case Missing => Failure(TypeError)
    case Text(s) =>
      match ParseDecimal(s)
      case Some(v) => Success(Finite(v))
      case None => if IsNanWord(s) then Success(NaN) else Failure(ValueError)
  }

  /** Python `round(f)` to an integer: NaN raises `ValueError`. */
  function PyRound(f: Float): (r: Result<int, PyError>)
    ensures r.Success? <==> f.Finite?
    ensures r.Success? ==> f.x - 0.5 <= r.value as real <= f.x + 0.5
    ensures r.Failure? ==> r.error == ValueError
  {
    match f
    case NaN => Failure(ValueError)
    case Finite(x) => Success(RoundHalfEven(x))
  }

  /** The operand of an arithmetic operator: text and `None` raise `TypeError`. */
  function Numeric(c: Cell): (r: Result<Float, PyError>)
    ensures r.Success? <==> c.Number?
    ensures r.Failure? ==> r.error == TypeError
  {
    if c.Number? then Success(c.f) else Failure(TypeError)
  }

  /** `a - b` on floats; NaN is absorbing. */
  function Sub(a: Float, b: Float): Float
  {
    if a.NaN? || b.NaN? then NaN else Finite(a.x - b.x)
  }

  /** `a / b` on floats: a zero divisor raises, even for a NaN dividend. */
  function Div(a: Float, b: Float): (r: Result<Float, PyError>)
    ensures r.Failure? <==> b == Finite(0.0)
    ensures r.Failure? ==> r.error == ZeroDivisionError
  {
    if b == Finite(0.0) then Failure(ZeroDivisionError)
    else if a.NaN? || b.NaN? then Success(NaN)
    else Success(Finite(a.x / b.x))
  }

  function Scale(a: Float, k: real): Float
  {
    if a.NaN? then NaN else Finite(a.x * k)
  }

  /** `f > 0`, false for NaN. */
  predicate Positive(f: Float)
  {
    f.Finite? && f.x > 0.0
  }

  /**
   A growth text `"{:0.1f} %"` of `pct`, with a leading `+` when `plus`
   holds, or the placeholder `"-"`. The one-decimal rendering of the float
   is not modelled.
   */
  datatype PctText = NoGrowth | Percent(plus: bool, pct: Float)

  /** Reading back the text of an integer as a float gives the integer. */
  lemma FloatOfIntText(n: int)
    ensures PyFloat(Text(IntToString(n))) == Success(Finite(n as real))
  {
    ParseDecimalOfInt(n);
  }
}
