/**
 Text helpers the scripts rely on: Python's `str.split` on one separator
 character, `str.count`, ASCII case mapping, and the decimal rendering and
 parsing of integers (`str(n)`, `int(s)`) and of simple decimal numbers
 (`float(s)`).
 */
module Strings {
  import opened Wrappers

  /** Python `s.split(sep)`: the pieces between separators, always at least one. */
  function Split(s: string, sep: char): (parts: seq<string>)
    ensures |parts| >= 1
    ensures forall i :: 0 <= i < |parts| ==> sep !in parts[i]
    decreases |s|
  {
    if |s| == 0 then [""]
    else
      var rest := Split(s[1..], sep);
      if s[0] == sep then [""] + rest
      else [[s[0]] + rest[0]] + rest[1..]
  }

  /** `sep.join(parts)`: the inverse of `Split`. */
  function Join(parts: seq<string>, sep: char): string
    requires |parts| >= 1
  {
    if |parts| == 1 then parts[0] else parts[0] + [sep] + Join(parts[1..], sep)
  }

  /** Python `s.count(c)` for a single character. */
  function Count(s: string, c: char): nat
  {
    if |s| == 0 then 0 else (if s[0] == c then 1 else 0) + Count(s[1..], c)
  }

  /** Joining the pieces of a split restores the original text. */
  lemma {:induction false} JoinSplit(s: string, sep: char)
    ensures Join(Split(s, sep), sep) == s
    decreases |s|
  {
    if |s| > 0 {
      JoinSplit(s[1..], sep);
      var rest := Split(s[1..], sep);
      if s[0] == sep {
        assert Split(s, sep)[1..] == rest;
      } else {
        var parts := Split(s, sep);
        if |rest| == 1 {
          assert parts == [[s[0]] + rest[0]];
        } else {
          assert parts[1..] == rest[1..];
          assert Join(rest, sep) == rest[0] + [sep] + Join(rest[1..], sep);
        }
      }
    }
  }

  /** Splitting the join of separator-free pieces gives the pieces back. */
  lemma {:induction false} SplitJoin(parts: seq<string>, sep: char)
    requires |parts| >= 1
    requires forall i :: 0 <= i < |parts| ==> sep !in parts[i]
    ensures Split(Join(parts, sep), sep) == parts
    decreases |parts|, |parts[0]|
  {
    if |parts[0]| > 0 {
      var p := parts[0];
      var shorter := [p[1..]] + parts[1..];
      assert shorter[1..] == parts[1..];
      SplitJoin(shorter, sep);
      var j := Join(parts, sep);
      if |parts| == 1 {
        assert j[1..] == Join(shorter, sep);
      } else {
        assert j[1..] == Join(shorter, sep);
      }
      assert j[0] == p[0] && p[0] != sep;
      assert [p[0]] + p[1..] == p;
    } else if |parts| > 1 {
      SplitJoin(parts[1..], sep);
      var j := Join(parts, sep);
      assert j == [sep] + Join(parts[1..], sep);
      assert j[1..] == Join(parts[1..], sep);
      assert [""] + parts[1..] == parts;
    }
  }

  /** A text has one more piece than it has separators. */
  lemma {:induction false} SplitCount(s: string, sep: char)
    ensures |Split(s, sep)| == Count(s, sep) + 1
    decreases |s|
  {
    if |s| > 0 {
      SplitCount(s[1..], sep);
    }
  }

  /** ASCII upper-casing of one character (`str.upper` on ASCII input). */
  function UpperChar(c: char): (u: char)
    ensures 'a' <= c <= 'z' ==> 'A' <= u <= 'Z' && u as int == c as int - 32
    ensures !('a' <= c <= 'z') ==> u == c
  {
    if 'a' <= c <= 'z' then (c as int - 32) as char else c
  }

  /** ASCII lower-casing of one character (`str.lower` on ASCII input). */
  function LowerChar(c: char): (l: char)
    ensures 'A' <= c <= 'Z' ==> 'a' <= l <= 'z' && l as int == c as int + 32
    ensures !('A' <= c <= 'Z') ==> l == c
  {
    if 'A' <= c <= 'Z' then (c as int + 32) as char else c
  }

  function Upper(s: string): (u: string)
    ensures |u| == |s|
    ensures forall i :: 0 <= i < |s| ==> u[i] == UpperChar(s[i])
  {
    if |s| == 0 then "" else [UpperChar(s[0])] + Upper(s[1..])
  }

  function Lower(s: string): (l: string)
    ensures |l| == |s|
    ensures forall i :: 0 <= i < |s| ==> l[i] == LowerChar(s[i])
  {
    if |s| == 0 then "" else [LowerChar(s[0])] + Lower(s[1..])
  }

  /** Upper-casing is idempotent and ignores a previous lower-casing. */
  lemma UpperNormalises(s: string)
    ensures Upper(Upper(s)) == Upper(s)
    ensures Upper(Lower(s)) == Upper(s)
  {
    var u, ul := Upper(Upper(s)), Upper(Lower(s));
    assert forall i :: 0 <= i < |s| ==> u[i] == Upper(s)[i];
    assert forall i :: 0 <= i < |s| ==> ul[i] == Upper(s)[i];
  }

  predicate IsAsciiLetter(c: char)
  {
    'A' <= c <= 'Z' || 'a' <= c <= 'z'
  }

  predicate IsDigit(c: char)
  {
    '0' <= c <= '9'
  }

  predicate AllDigits(s: string)
  {
    forall i :: 0 <= i < |s| ==> IsDigit(s[i])
  }

  function DigitChar(d: nat): (c: char)
    requires d < 10
    ensures IsDigit(c)
    ensures c as int - '0' as int == d
  {
    ('0' as int + d) as char
  }

  function DigitValue(c: char): (d: nat)
    requires IsDigit(c)
    ensures d < 10
    ensures DigitChar(d) == c
  {
    c as int - '0' as int
  }

  /** Decimal digits of a natural number, most significant first, no leading zeros. */
  function NatToString(n: nat): (s: string)
    ensures |s| >= 1 && AllDigits(s)
    ensures |s| > 1 ==> s[0] != '0'
  {
    if n < 10 then [DigitChar(n)] else NatToString(n / 10) + [DigitChar(n % 10)]
  }

  /** Python `str(n)` for an integer. */
  function IntToString(n: int): string
  {
    if n < 0 then "-" + NatToString(-n) else NatToString(n)
  }

  /** Value of a digit string (empty string reads as 0). */
  function DigitsValue(s: string): nat
    requires AllDigits(s)
  {
    if |s| == 0 then 0 else DigitsValue(s[..|s| - 1]) * 10 + DigitValue(s[|s| - 1])
  }

  /**
   Python `int(s)` (and numpy's `astype(int)` on text) restricted to an
   optional sign followed by at least one decimal digit; anything else is
   rejected.
   */
  function ParseInt(s: string): (r: Option<int>)
    ensures r.Some? ==> |s| >= 1 && (IsDigit(s[0]) || (|s| >= 2 && (s[0] == '-' || s[0] == '+')))
    ensures r.Some? ==> forall i :: 1 <= i < |s| ==> IsDigit(s[i])
    ensures |s| >= 1 && AllDigits(s) ==> r == Some(DigitsValue(s) as int)
    ensures |s| >= 2 && s[0] == '-' && AllDigits(s[1..]) ==> r == Some(-(DigitsValue(s[1..]) as int))
    ensures |s| >= 2 && s[0] == '+' && AllDigits(s[1..]) ==> r == Some(DigitsValue(s[1..]) as int)
  {
    if |s| >= 2 && (s[0] == '-' || s[0] == '+') && AllDigits(s[1..]) then
      var magnitude: int := DigitsValue(s[1..]);
      Some(if s[0] == '-' then -magnitude else magnitude)
    else if |s| >= 1 && AllDigits(s) then Some(DigitsValue(s))
    else None
  }

  lemma {:induction false} DigitsOfNat(n: nat)
    ensures DigitsValue(NatToString(n)) == n
  {
    var s := NatToString(n);
    if n >= 10 {
      DigitsOfNat(n / 10);
      assert s[..|s| - 1] == NatToString(n / 10);
      assert DigitValue(s[|s| - 1]) == n % 10;
      assert DigitsValue(s) == (n / 10) * 10 + n % 10;
    } else {
      assert DigitValue(s[0]) == n;
      assert s[..0] == [];
    }
  }

  /** Reading back the text of an integer gives the integer. */
  lemma ParseIntToString(n: int)
    ensures ParseInt(IntToString(n)) == Some(n)
  {
    if n < 0 {
      var digits := NatToString(-n);
      assert IntToString(n) == "-" + digits;
      DigitsOfNat(-n);
      ParseSigned(digits);
      assert -(DigitsValue(digits) as int) == n;
    } else {
      ParseUnsigned(n);
    }
  }

  lemma ParseUnsigned(n: nat)
    ensures ParseInt(IntToString(n)) == Some(n)
  {
    var digits := NatToString(n);
    DigitsOfNat(n);
    assert IntToString(n) == digits;
    assert IsDigit(digits[0]);
  }

  lemma ParseSigned(digits: string)
    requires |digits| >= 1 && AllDigits(digits)
    ensures ParseInt("-" + digits) == Some(-(DigitsValue(digits) as int))
  {
    var t := "-" + digits;
    assert t[1..] == digits;
  }

  /** `10^k` as a real, the scale of a fractional part with `k` digits. */
  function Pow10(k: nat): (p: real)
    ensures p >= 1.0
  {
    if k == 0 then 1.0 else 10.0 * Pow10(k - 1)
  }

  /** The value of the fraction digits `fff` of a literal `ddd.fff`. */
  function FractionValue(f: string): (v: real)
    requires AllDigits(f)
    ensures v >= 0.0
  {
    DigitsValue(f) as real / Pow10(|f|)
  }

  /** An unsigned decimal literal `ddd`, `ddd.fff`, `ddd.` or `.fff`. */
  function UnsignedDecimal(b: string): (r: Option<real>)
    ensures r.Some? ==> |b| >= 1 && Count(b, '.') <= 1
    ensures |b| >= 1 && AllDigits(b) ==> r == Some(DigitsValue(b) as real)
  {
    SplitCount(b, '.');
    DigitsHaveNoDot(b);
    var parts := Split(b, '.');
    if |parts| == 1 && |b| >= 1 && AllDigits(b) then Some(DigitsValue(b) as real)
    else if |parts| == 2 && AllDigits(parts[0]) && AllDigits(parts[1])
         && |parts[0]| + |parts[1]| >= 1 then
      Some(DigitsValue(parts[0]) as real + FractionValue(parts[1]))
    else None
  }

  /**
   Python `float(s)` restricted to plain decimal literals with an optional
   sign; exponents, whitespace, underscores and the special words are
   outside this parser (the caller handles `nan`).
   */
  function ParseDecimal(s: string): (r: Option<real>)
    ensures r.Some? ==> |s| >= 1 && Count(s, '.') <= 1
    ensures |s| >= 1 && AllDigits(s) ==> r == Some(DigitsValue(s) as real)
  {
    if |s| >= 1 && (s[0] == '-' || s[0] == '+') then
      match UnsignedDecimal(s[1..])
      case Some(v) => Some(if s[0] == '-' then -v else v)
      case None => None
    else UnsignedDecimal(s)
  }

  /** Digit text holds no decimal point, so it splits into itself. */
  lemma DigitsHaveNoDot(b: string)
    ensures AllDigits(b) ==> '.' !in b && Split(b, '.') == [b]
  {
    if AllDigits(b) {
      assert '.' !in b by {
        forall i | 0 <= i < |b| ensures b[i] != '.' {
          assert IsDigit(b[i]);
        }
      }
      SplitWithoutSeparator(b, '.');
    }
  }

  lemma UnsignedOfParts(b: string)
    requires |Split(b, '.')| == 2
    requires AllDigits(Split(b, '.')[0]) && AllDigits(Split(b, '.')[1])
    requires |Split(b, '.')[0]| + |Split(b, '.')[1]| >= 1
    ensures UnsignedDecimal(b) == Some(DigitsValue(Split(b, '.')[0]) as real + FractionValue(Split(b, '.')[1]))
  {
  }

  /**
   An unsigned literal `a.f` reads as the integer part plus the fraction
   scaled by the number of fraction digits.
   */
  lemma UnsignedFractionValue(b: string, a: string, f: string)
    requires AllDigits(a) && AllDigits(f) && |a| + |f| >= 1
    requires b == a + "." + f
    ensures UnsignedDecimal(b) == Some(DigitsValue(a) as real + FractionValue(f))
  {
    LiteralUnsigned(b, a, f);
    SplitDecimal(a, f);
    UnsignedOfParts(b);
  }

  /** A literal `a.f` of digit strings splits at its one decimal point. */
  lemma SplitDecimal(a: string, f: string)
    requires AllDigits(a) && AllDigits(f)
    ensures Split(a + "." + f, '.') == [a, f]
  {
    DigitsHaveNoDot(a);
    DigitsHaveNoDot(f);
    assert Join([a, f], '.') == a + "." + f by {
      assert [a, f][1..] == [f];
    }
    SplitJoin([a, f], '.');
  }

  /**
   A literal `a.f` (the text `b`) reads as the integer part plus the
   fraction scaled by the number of fraction digits.
   */
  lemma DecimalFractionValue(b: string, a: string, f: string)
    requires AllDigits(a) && AllDigits(f) && |a| + |f| >= 1
    requires b == a + "." + f
    ensures ParseDecimal(b) == Some(DigitsValue(a) as real + FractionValue(f))
  {
    UnsignedFractionValue(b, a, f);
    LiteralUnsigned(b, a, f);
  }

  /** A `-` in front of a literal `a.f` negates its value. */
  lemma NegativeFractionValue(b: string, a: string, f: string)
    requires AllDigits(a) && AllDigits(f) && |a| + |f| >= 1
    requires b == a + "." + f
    ensures ParseDecimal("-" + b) == Some(-(DigitsValue(a) as real + FractionValue(f)))
  {
    UnsignedFractionValue(b, a, f);
    SignedLiteral('-', b);
  }

  /** A `+` in front of a literal `a.f` changes nothing. */
  lemma PositiveFractionValue(b: string, a: string, f: string)
    requires AllDigits(a) && AllDigits(f) && |a| + |f| >= 1
    requires b == a + "." + f
    ensures ParseDecimal("+" + b) == Some(DigitsValue(a) as real + FractionValue(f))
  {
    UnsignedFractionValue(b, a, f);
    SignedLiteral('+', b);
  }

  /** A literal `a.f` does not start with a sign and is not all digits. */
  lemma LiteralUnsigned(b: string, a: string, f: string)
    requires AllDigits(a) && b == a + "." + f
    ensures |b| >= 1 && b[0] != '-' && b[0] != '+'
    ensures !AllDigits(b)
  {
    assert b[0] == (if |a| >= 1 then a[0] else '.');
    assert b[|a|] == '.';
  }

  /** A sign in front of an unsigned literal negates it for `-` and is ignored for `+`. */
  lemma SignedLiteral(sign: char, b: string)
    requires sign == '-' || sign == '+'
    ensures ParseDecimal([sign] + b) == match UnsignedDecimal(b)
      case Some(v) => Some(if sign == '-' then -v else v)
      case None => None
  {
    assert ([sign] + b)[1..] == b;
  }

  lemma {:induction false} SplitWithoutSeparator(s: string, sep: char)
    requires sep !in s
    ensures Split(s, sep) == [s]
    decreases |s|
  {
    if |s| > 0 {
      assert sep !in s[1..];
      SplitWithoutSeparator(s[1..], sep);
      assert [s[0]] + s[1..] == s;
    }
  }

  /** The decimal text of an integer reads back as the same number. */
  lemma ParseDecimalOfInt(n: int)
    ensures ParseDecimal(IntToString(n)) == Some(n as real)
  {
    var m: nat := if n < 0 then -n else n;
    var digits := NatToString(m);
    DigitsOfNat(m);
    if n < 0 {
      assert IntToString(n) == [('-')] + digits;
      SignedLiteral('-', digits);
    }
  }

}
