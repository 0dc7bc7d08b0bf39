/**
 The per-country helpers of the HTML length report: the flag emoji of an
 ISO 3166-1 alpha-2 code (Unicode Technical Standard #51, Annex B),
 `intify`, the growth figure, the absolute growth in km and the rule that
 drops countries without a usable base length.
 */
module HtmlReport {
  import opened Wrappers
  import opened Strings
  import opened Numerics
  import opened PyValues

  /** Regional indicator symbol for an upper-case ASCII letter: U+1F1E6 for A .. U+1F1FF for Z. */
  function RegionalIndicator(c: char): (flag: char)
    requires 'A' <= c <= 'Z'
    ensures 0x1F1E6 <= flag as int <= 0x1F1FF
    ensures flag as int == 127397 + c as int
  {
    (127397 + c as int) as char
  }

  /** The letter a regional indicator symbol stands for. */
  function IndicatorLetter(flag: char): (c: char)
    requires 0x1F1E6 <= flag as int <= 0x1F1FF
    ensures 'A' <= c <= 'Z'
  {
    (flag as int - 127397) as char
  }

  /**
   `iso2_to_flag`: the code is upper-cased; "XK" (Kosovo, a user-assigned
   code) is spelled out, any other two letters map to their two regional
   indicators, anything else to the empty string.
   */
  function Iso2ToFlag(iso2: string): (flag: string)
    ensures |flag| == 0 || |flag| == 2
    ensures |flag| == 2 <==> |iso2| == 2 && IsAsciiLetter(iso2[0]) && IsAsciiLetter(iso2[1])
    ensures |flag| == 2 ==> forall i :: 0 <= i < 2 ==> flag[i] as int == 127397 + UpperChar(iso2[i]) as int
  {
    var code := Upper(iso2);
    if code == "XK" then "\U{1F1FD}\U{1F1F0}"
    else if |code| == 2 && IsAsciiLetter(code[0]) && IsAsciiLetter(code[1]) then
      [RegionalIndicator(code[0]), RegionalIndicator(code[1])]
    else ""
  }

  /** Reads a flag back into its upper-case code. */
  function FlagToIso2(flag: string): Option<string>
  {
    if |flag| == 2 && 0x1F1E6 <= flag[0] as int <= 0x1F1FF && 0x1F1E6 <= flag[1] as int <= 0x1F1FF then
      Some([IndicatorLetter(flag[0]), IndicatorLetter(flag[1])])
    else None
  }

  /** The spelled-out Kosovo flag is the one the general rule gives for X and K. */
  lemma KosovoFlagIsGeneral()
    ensures Iso2ToFlag("XK") == [RegionalIndicator('X'), RegionalIndicator('K')]
    ensures Iso2ToFlag("xk") == Iso2ToFlag("XK")
  {
  }

  /** The flag does not depend on the letter case of the code. */
  lemma FlagCaseInsensitive(iso2: string)
    ensures Iso2ToFlag(iso2) == Iso2ToFlag(Upper(iso2))
    ensures Iso2ToFlag(iso2) == Iso2ToFlag(Lower(iso2))
  {
    UpperNormalises(iso2);
    var u, l := Upper(iso2), Lower(iso2);
    assert |u| == |iso2| == |l|;
    if |iso2| == 2 {
      assert IsAsciiLetter(iso2[0]) <==> IsAsciiLetter(u[0]);
      assert IsAsciiLetter(iso2[1]) <==> IsAsciiLetter(u[1]);
      assert IsAsciiLetter(iso2[0]) <==> IsAsciiLetter(l[0]);
      assert IsAsciiLetter(iso2[1]) <==> IsAsciiLetter(l[1]);
    }
  }

  /** Decoding the flag of a two-letter code gives the upper-cased code back. */
  lemma FlagRoundTrip(iso2: string)
    requires |iso2| == 2 && IsAsciiLetter(iso2[0]) && IsAsciiLetter(iso2[1])
    ensures FlagToIso2(Iso2ToFlag(iso2)) == Some(Upper(iso2))
  {
    var flag := Iso2ToFlag(iso2);
    var code := Upper(iso2);
    assert [IndicatorLetter(flag[0]), IndicatorLetter(flag[1])] == code;
  }

  /**
   `intify` of the HTML report: `round(float(value))`, and `"-"` whenever
   `float` or `round` raises `ValueError` or `TypeError`.
   */
  function Intify(value: Cell): (r: IntText)
    ensures r.Int? <==> PyFloat(value).Success? && PyFloat(value).value.Finite?
  {
    match PyFloat(value)
    case Failure(_) => Dash
    case Success(f) =>
      match PyRound(f)
      case Success(n) => Int(n)
      case Failure(_) => Dash
  }

  /** A numeric cell intifies to its rounding, a NaN or missing cell to `"-"`. */
  lemma IntifyNumbers(x: real)
    ensures Intify(Number(Finite(x))) == Int(RoundHalfEven(x))
    ensures Intify(Number(NaN)) == Dash
    ensures Intify(Missing) == Dash
  {
  }

  /** The decimal text of an integer intifies back to it. */
  lemma IntifyIntText(n: int)
    ensures Intify(Text(IntToString(n))) == Int(n)
  {
    FloatOfIntText(n);
    RoundOfInt(n);
  }

  /** A country row is left out when its base length intifies to `"-"` or 0. */
  predicate RowSkipped(base: Cell)
  {
    Intify(base) == Dash || Intify(base) == Int(0)
  }

  /** A numeric base is kept exactly when it rounds away from 0, i.e. lies outside [-0.5, 0.5]. */
  lemma RowSkippedNumbers(x: real)
    ensures RowSkipped(Number(Finite(x))) <==> -0.5 <= x <= 0.5
    ensures RowSkipped(Number(NaN)) && RowSkipped(Missing)
  {
    if -0.5 <= x <= 0.5 {
      if x == 0.5 {
        assert RoundHalfEven(x) == 0;
      } else if x == -0.5 {
        assert x.Floor == -1;
        assert RoundHalfEven(x) == 0;
      }
    }
  }

  /** The value or the text form of a growth figure. */
  datatype Evolution = AsText(text: PctText) | AsValue(value: Float)

  /** The two forms `compute_evolution` is asked for. */
  datatype ReturnKind = StrKind | FloatKind

  /** The growth in percent, `((value - base) / base) * 100`, or the error it raises. */
  function GrowthPercent(value: Cell, base: Cell): Result<Float, PyError>
  {
    match Numeric(value)
    case Failure(e) => Failure(e)
    case Success(v) =>
      match Numeric(base)
      case Failure(e) => Failure(e)
      case Success(b) =>
        match Div(Sub(v, b), b)
        case Failure(e) => Failure(e)
        case Success(q) => Success(Scale(q, 100.0))
  }

  /**
   `compute_evolution` of the HTML report: every error of the computation
   is caught and gives 0 and `"-"`; the text form is returned exactly when
   `str` is asked for.
   */
  function ComputeEvolution(value: Cell, base: Cell, kind: ReturnKind): (e: Evolution)
    ensures e.AsText? <==> kind == StrKind
  {
    var (val, txt) :=
      match GrowthPercent(value, base)
      case Success(g) => (g, Percent(false, g))
      case Failure(_) => (Finite(0.0), NoGrowth);
    if kind == StrKind then AsText(txt) else AsValue(val)
  }

  /** Applying a growth of `pct` percent to `base` gives back `value`. */
  lemma GrowthRecoversValue(v: real, b: real)
    requires b != 0.0
    ensures var e := ComputeEvolution(Number(Finite(v)), Number(Finite(b)), FloatKind);
      e.value.Finite? && b + b * e.value.x / 100.0 == v
  {
    var q := (v - b) / b;
    assert q * b == v - b;
    assert q * 100.0 / 100.0 == q;
  }

  /** No change is a growth of 0; a zero or non-numeric base gives 0 and `"-"`. */
  lemma GrowthEdgeCases(value: Cell, b: real)
    ensures b != 0.0 ==> ComputeEvolution(Number(Finite(b)), Number(Finite(b)), FloatKind) == AsValue(Finite(0.0))
    ensures ComputeEvolution(value, Number(Finite(0.0)), FloatKind) == AsValue(Finite(0.0))
    ensures ComputeEvolution(value, Number(Finite(0.0)), StrKind) == AsText(NoGrowth)
    ensures !value.Number? ==> ComputeEvolution(value, Number(Finite(b)), StrKind) == AsText(NoGrowth)
  {
  }

  /**
   The absolute growth in km of the HTML report: `(value - base,
   round(value - base))` when both cells are numbers and the difference
   can be rounded, `(0, "-")` otherwise.
   */
  function KmGrowth(value: Cell, base: Cell): (g: (Float, IntText))
    ensures g.1.Int? <==> value.Number? && base.Number? && value.f.Finite? && base.f.Finite?
    ensures g.1.Int? ==> g.0 == Finite(value.f.x - base.f.x)
  {
    if value.Number? && base.Number? then
      var diff := Sub(value.f, base.f);
      match PyRound(diff)
      case Success(n) => (diff, Int(n))
      case Failure(_) => (Finite(0.0), Dash)
    else (Finite(0.0), Dash)
  }

  /** The rounded km growth is within half a kilometre of the exact difference. */
  lemma KmGrowthClose(v: real, b: real)
    ensures var g := KmGrowth(Number(Finite(v)), Number(Finite(b)));
      g.1.Int? && (v - b) - 0.5 <= g.1.n as real <= (v - b) + 0.5
  {
  }
}
