/**
 The per-country helpers of the wiki length table: its `intify` (which
 only catches `ValueError`), the four-way `compute_evolution`, and the rule
 that emits a country row only when its latest length is usable.
 */
module WikiTable {
  import opened Wrappers
  import opened Strings
  import opened Numerics
  import opened PyValues

  /** `intify` of the wiki table: a `TypeError` (a `None` cell) is not caught. */
  function Intify(value: Cell): (r: Result<IntText, PyError>)
    ensures r.Failure? <==> value.Missing?
    ensures r.Failure? ==> r.error == TypeError
    ensures r == Success(Dash) <==> (PyFloat(value).Failure? && !value.Missing?) || PyFloat(value) == Success(NaN)
  {
    match PyFloat(value)
    case Failure(e) => if e == ValueError then Success(Dash) else Failure(e)
    case Success(f) =>
      match PyRound(f)
      case Success(n) => Success(Int(n))
      case Failure(_) => Success(Dash)
  }

  /** Whether `str(value).lower() == "nan"`. */
  predicate ReadsAsNan(value: Cell)
  {
    match value
    case Number(f) => f.NaN?
    case Missing => false
    case Text(s) => Lower(s) == "nan"
  }

  /** The three results of the `try` block: difference, percentage and its text. */
  datatype Growth = Growth(val: Float, pct: Float, txt: PctText)

  const NoChange: Growth := Growth(Finite(0.0), Finite(0.0), NoGrowth)

  /**
   The `try` block of `compute_evolution`: a NaN value gives zeros and
   `"-"`; otherwise the difference, its percentage of `base` (a zero base is
   caught and gives zeros), and the text with a `+` exactly when the
   percentage is positive. Subtracting text or `None` raises a `TypeError`
   that is not caught.
   */
  function GrowthOf(value: Cell, base: Cell): (r: Result<Growth, PyError>)
    ensures r.Failure? <==> !ReadsAsNan(value) && (!value.Number? || !base.Number?)
    ensures r.Failure? ==> r.error == TypeError
  {
    if ReadsAsNan(value) then Success(NoChange)
    else
      match Numeric(value)
      case Failure(e) => Failure(e)
      case Success(v) =>
        match Numeric(base)
        case Failure(e) => Failure(e)
        case Success(b) =>
          var val := Sub(v, b);
          match Div(val, b)
          case Failure(_) => Success(NoChange)
          case Success(q) =>
            var pct := Scale(q, 100.0);
            Success(Growth(val, pct, Percent(Positive(pct), pct)))
  }

  /** The result of `compute_evolution` for the requested return type. */
  datatype WikiEvolution = PctTextOut(text: PctText) | TextOut(s: string) | NumberOut(f: Float)

  /** The `valtxt` rendering: `"+"` and `round(val)` when `val > 0`, else `str(round(val))`. */
  function SignedRounded(val: Float): (r: Result<string, PyError>)
    ensures r.Failure? <==> val.NaN?
    ensures r.Success? ==> (|r.value| >= 1 && r.value[0] == '+' <==> Positive(val))
  {
    match PyRound(val)
    case Failure(e) => Failure(e)
    case Success(n) =>
      if Positive(val) then Success("+" + IntToString(n)) else Success(IntToString(n))
  }

  /**
   `compute_evolution` of the wiki table: `"pcttxt"`, `"valtxt"`, `"val"`
   or `"pct"`; any other return type raises `ValueError`.
   */
  function ComputeEvolution(value: Cell, base: Cell, returnType: string): (r: Result<WikiEvolution, PyError>)
    ensures returnType !in {"pcttxt", "valtxt", "val", "pct"} && GrowthOf(value, base).Success? ==> r == Failure(ValueError)
  {
    match GrowthOf(value, base)
    case Failure(e) => Failure(e)
    case Success(g) =>
      if returnType == "pcttxt" then Success(PctTextOut(g.txt))
      else if returnType == "valtxt" then
        match SignedRounded(g.val)
        case Failure(e) => Failure(e)
        case Success(s) => Success(TextOut(s))
      else if returnType == "val" then Success(NumberOut(g.val))
      else if returnType == "pct" then Success(NumberOut(g.pct))
      else Failure(ValueError)
  }

  /** A NaN value gives 0, 0 and `"-"` whatever the base. */
  lemma NanValueGivesZeros(base: Cell)
    ensures ComputeEvolution(Number(NaN), base, "val") == Success(NumberOut(Finite(0.0)))
    ensures ComputeEvolution(Number(NaN), base, "pct") == Success(NumberOut(Finite(0.0)))
    ensures ComputeEvolution(Number(NaN), base, "pcttxt") == Success(PctTextOut(NoGrowth))
    ensures ComputeEvolution(Number(NaN), base, "valtxt") == Success(TextOut("0"))
  {
  }

  /** A zero base gives 0, 0 and `"-"` for any numeric value. */
  lemma ZeroBaseGivesZeros(v: real)
    ensures GrowthOf(Number(Finite(v)), Number(Finite(0.0))) == Success(NoChange)
  {
  }

  /**
   For numbers and a non-zero base: `val + base == value`, the percentage
   applied to `base` gives back `val`, and the text carries a `+` exactly
   when the percentage is positive.
   */
  lemma GrowthOfNumbers(v: real, b: real)
    requires b != 0.0
    ensures var g := GrowthOf(Number(Finite(v)), Number(Finite(b)));
      && g.Success? && g.value.val.Finite? && g.value.pct.Finite?
      && g.value.val.x + b == v
      && b * g.value.pct.x / 100.0 == g.value.val.x
      && g.value.txt == Percent(g.value.pct.x > 0.0, g.value.pct)
      && (g.value.pct.x > 0.0 <==> g.value.val.x / b > 0.0)
  {
    var q := (v - b) / b;
    assert q * b == v - b;
    assert q * 100.0 / 100.0 == q;
  }

  /** `valtxt` is the signed rounded difference; a difference in (0, 0.5] shows as `"+0"`. */
  lemma ValTextOfNumbers(v: real, b: real)
    requires b != 0.0
    ensures var e := ComputeEvolution(Number(Finite(v)), Number(Finite(b)), "valtxt");
      e.Success? && e.value.TextOut?
      && e.value.s == (if v - b > 0.0 then "+" else "") + IntToString(RoundHalfEven(v - b))
    ensures 0.0 < v - b <= 0.5 ==> ComputeEvolution(Number(Finite(v)), Number(Finite(b)), "valtxt") == Success(TextOut("+0"))
  {
    GrowthOfNumbers(v, b);
    if 0.0 < v - b <= 0.5 {
      assert (v - b).Floor == 0;
      assert RoundHalfEven(v - b) == 0;
      assert IntToString(0) == "0";
      var e := ComputeEvolution(Number(Finite(v)), Number(Finite(b)), "valtxt");
      assert e.value.s == "+" + IntToString(0);
      assert "+" + "0" == "+0";
    }
  }

  /** A NaN base with a numeric value makes `valtxt` raise: `round(nan)` is outside the `try`. */
  lemma NanBaseValTextRaises(v: real)
    ensures ComputeEvolution(Number(Finite(v)), Number(NaN), "valtxt") == Failure(ValueError)
    ensures ComputeEvolution(Number(Finite(v)), Number(NaN), "pct") == Success(NumberOut(NaN))
  {
  }

  /** Text or `None` as value or base is a `TypeError` the function does not catch. */
  lemma NonNumericRaises(v: real, s: string)
    requires Lower(s) != "nan"
    ensures ComputeEvolution(Text(s), Number(Finite(v)), "val") == Failure(TypeError)
    ensures ComputeEvolution(Missing, Number(Finite(v)), "val") == Failure(TypeError)
    ensures ComputeEvolution(Number(Finite(v)), Missing, "val") == Failure(TypeError)
  {
  }

  /** A row is written only when the latest length intifies to neither `"-"` nor 0. */
  function RowEmitted(valueLast: Cell): (r: Result<bool, PyError>)
    ensures r.Failure? <==> valueLast.Missing?
    ensures r == Success(true) <==> Intify(valueLast).Success? && Intify(valueLast).value.Int?
                                    && Intify(valueLast).value.n != 0
  {
    match Intify(valueLast)
    case Failure(e) => Failure(e)
    case Success(t) => Success(t != Dash && t != Int(0))
  }

  /** A numeric latest length emits the row exactly when it lies outside [-0.5, 0.5]. */
  lemma RowEmittedNumbers(x: real)
    ensures RowEmitted(Number(Finite(x))) == Success(x < -0.5 || x > 0.5)
    ensures RowEmitted(Number(NaN)) == Success(false)
  {
    if x == -0.5 {
      assert x.Floor == -1;
    }
  }
}
