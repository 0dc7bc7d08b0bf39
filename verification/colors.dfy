/**
 Colour helpers of the length reports (defined identically in both report
 scripts): clamping a channel, the `#rrggbb` serialisation of CSS colours
 (CSS Color Module Level 4, section 5.2), and the grey-to-green gradient
 used for growth cells.
 */
module Colors {
  import opened Wrappers
  import opened Numerics
  import opened PyValues

  /** `max(0, min(x, 255))`. */
  function Clamp(x: int): (c: int)
    ensures 0 <= c <= 255
    ensures 0 <= x <= 255 ==> c == x
    ensures x < 0 ==> c == 0
    ensures x > 255 ==> c == 255
  {
    if x < 0 then 0 else if x > 255 then 255 else x
  }

  const HexDigits: string := "0123456789abcdef"

  predicate IsLowerHex(ch: char)
  {
    '0' <= ch <= '9' || 'a' <= ch <= 'f'
  }

  function HexDigit(d: int): (ch: char)
    requires 0 <= d < 16
    ensures IsLowerHex(ch)
  {
    HexDigits[d]
  }

  function HexValue(ch: char): (d: int)
    requires IsLowerHex(ch)
    ensures 0 <= d < 16
  {
    if '0' <= ch <= '9' then ch as int - '0' as int else ch as int - 'a' as int + 10
  }

  /** `format(n, "02x")` for a byte. */
  function Hex2(n: int): string
    requires 0 <= n <= 255
  {
    [HexDigit(n / 16), HexDigit(n % 16)]
  }

  /** `"#{0:02x}{1:02x}{2:02x}".format(clamp(r), clamp(g), clamp(b))`. */
  function RgbToHex(r: int, g: int, b: int): (s: string)
    ensures |s| == 7 && s[0] == '#'
    ensures forall i :: 1 <= i < 7 ==> IsLowerHex(s[i])
  {
    "#" + Hex2(Clamp(r)) + Hex2(Clamp(g)) + Hex2(Clamp(b))
  }

  /** Reads a `#rrggbb` colour back into its three channels. */
  function ParseHexColor(s: string): Option<(int, int, int)>
  {
    if |s| == 7 && s[0] == '#' && forall i :: 1 <= i < 7 ==> IsLowerHex(s[i]) then
      Some((HexValue(s[1]) * 16 + HexValue(s[2]),
            HexValue(s[3]) * 16 + HexValue(s[4]),
            HexValue(s[5]) * 16 + HexValue(s[6])))
    else None
  }

  lemma HexDigitValue(d: int)
    requires 0 <= d < 16
    ensures HexValue(HexDigit(d)) == d
  {
  }

  /** Decoding the serialised colour gives the clamped channels back. */
  lemma RgbToHexRoundTrip(r: int, g: int, b: int)
    ensures ParseHexColor(RgbToHex(r, g, b)) == Some((Clamp(r), Clamp(g), Clamp(b)))
  {
    var s := RgbToHex(r, g, b);
    var cr, cg, cb := Clamp(r), Clamp(g), Clamp(b);
    HexDigitValue(cr / 16); HexDigitValue(cr % 16);
    HexDigitValue(cg / 16); HexDigitValue(cg % 16);
    HexDigitValue(cb / 16); HexDigitValue(cb % 16);
    assert s[1] == HexDigit(cr / 16) && s[2] == HexDigit(cr % 16);
    assert s[3] == HexDigit(cg / 16) && s[4] == HexDigit(cg % 16);
    assert s[5] == HexDigit(cb / 16) && s[6] == HexDigit(cb % 16);
  }

  /** Distinct in-range colours have distinct hex texts. */
  lemma RgbToHexInjective(r: int, g: int, b: int, r': int, g': int, b': int)
    requires 0 <= r <= 255 && 0 <= g <= 255 && 0 <= b <= 255
    requires 0 <= r' <= 255 && 0 <= g' <= 255 && 0 <= b' <= 255
    requires RgbToHex(r, g, b) == RgbToHex(r', g', b')
    ensures r == r' && g == g' && b == b'
  {
    RgbToHexRoundTrip(r, g, b);
    RgbToHexRoundTrip(r', g', b');
  }

  /** The grey used for missing or non-positive growth. */
  const Grey: (int, int, int) := (200, 200, 200)

  /**
   The channels `get_color_evolution` serialises: grey for NaN or a value
   at most 0, otherwise red fading from 170 and green from 255 as the value
   approaches 25, where both saturate.
   */
  function EvolutionChannels(v: Float): (c: (int, int, int))
    ensures v.NaN? || v.x <= 0.0 ==> c == Grey
    ensures v.Finite? && v.x > 0.0 ==> 0 <= c.0 <= 170 && 180 <= c.1 <= 255 && c.2 == 0
    ensures v.Finite? && v.x >= 25.0 ==> c == (0, 180, 0)
  {
    match v
    case NaN => Grey
    case Finite(x) =>
      if x <= 0.0 then Grey
      else
        var pctGreen := (if x < 25.0 then x else 25.0) / 25.0;
        (RoundHalfEven(170.0 * (1.0 - pctGreen)), RoundHalfEven(255.0 - 75.0 * pctGreen), 0)
  }

  /** `get_color_evolution`: the gradient colour as `#rrggbb` text that decodes to its channels. */
  function GetColorEvolution(v: Float): (s: string)
    ensures ParseHexColor(s) == Some(EvolutionChannels(v))
  {
    var (r, g, b) := EvolutionChannels(v);
    RgbToHexRoundTrip(r, g, b);
    RgbToHex(r, g, b)
  }

  /** NaN and non-positive growth are shown in `#c8c8c8`. */
  lemma GreyForNoGrowth(v: Float)
    requires v.NaN? || v.x <= 0.0
    ensures GetColorEvolution(v) == "#c8c8c8"
  {
  }

  /** Positive growth: no blue, red within [0, 170], green within [180, 255]. */
  lemma GrowthChannelBounds(x: real)
    requires x > 0.0
    ensures var (r, g, b) := EvolutionChannels(Finite(x));
      0 <= r <= 170 && 180 <= g <= 255 && b == 0
  {
  }

  /** Growth of 25 or more saturates at `#00b400`. */
  lemma GrowthSaturates(x: real)
    requires x >= 25.0
    ensures EvolutionChannels(Finite(x)) == (0, 180, 0)
    ensures GetColorEvolution(Finite(x)) == "#00b400"
  {
    assert RoundHalfEven(0.0) == 0 && RoundHalfEven(180.0) == 180;
  }

  /** More growth never makes the colour redder or greener. */
  lemma GrowthChannelsNonIncreasing(x: real, y: real)
    requires 0.0 < x <= y
    ensures EvolutionChannels(Finite(y)).0 <= EvolutionChannels(Finite(x)).0
    ensures EvolutionChannels(Finite(y)).1 <= EvolutionChannels(Finite(x)).1
  {
    var px := (if x < 25.0 then x else 25.0) / 25.0;
    var py := (if y < 25.0 then y else 25.0) / 25.0;
    assert px <= py;
    RoundMonotone(170.0 * (1.0 - py), 170.0 * (1.0 - px));
    RoundMonotone(255.0 - 75.0 * py, 255.0 - 75.0 * px);
  }

  /** The serialised gradient is a well-formed colour whose channels are the gradient's. */
  lemma EvolutionColorDecodes(v: Float)
    ensures ParseHexColor(GetColorEvolution(v)) == Some(EvolutionChannels(v))
  {
    var (r, g, b) := EvolutionChannels(v);
    RgbToHexRoundTrip(r, g, b);
    if v.Finite? && v.x > 0.0 {
      GrowthChannelBounds(v.x);
    }
  }
}
