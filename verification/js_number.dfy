/** JavaScript numbers as the sources use them: `parseFloat`, `Math.min`,
    `Math.max`, `Math.round` and `Number.prototype.toFixed(1)`. A number is
    an exact real, one of the two infinities, or NaN; IEEE-754 precision and
    signed zero are not modelled. */
module JsNumber {
  import opened JsString

  datatype Num = NaN | NegInfinity | Finite(value: real) | PosInfinity

  /** The order of the non-NaN numbers: -Infinity, the reals, +Infinity. */
  predicate LessEq(a: Num, b: Num)
    requires !a.NaN? && !b.NaN?
  {
    a.NegInfinity? || b.PosInfinity? || (a.Finite? && b.Finite? && a.value <= b.value)
  }

  predicate IsIntegral(x: real) {
    x == x.Floor as real
  }

  /** A finite number with no fractional part. */
  predicate IsInteger(n: Num) {
    n.Finite? && IsIntegral(n.value)
  }

  /** `Math.min(a, b)`: NaN when either argument is NaN, else the smaller. */
  function Min(a: Num, b: Num): (r: Num)
    ensures r.NaN? <==> a.NaN? || b.NaN?
    ensures !r.NaN? ==> (r == a || r == b) && LessEq(r, a) && LessEq(r, b)
  {
    if a.NaN? || b.NaN? then NaN else if LessEq(a, b) then a else b
  }

  /** `Math.max(a, b)`: NaN when either argument is NaN, else the larger. */
  function Max(a: Num, b: Num): (r: Num)
    ensures r.NaN? <==> a.NaN? || b.NaN?
    ensures !r.NaN? ==> (r == a || r == b) && LessEq(a, r) && LessEq(b, r)
  {
    if a.NaN? || b.NaN? then NaN else if LessEq(a, b) then b else a
  }

  /** `Math.round`: the integer nearest to a finite argument, the larger one
      on a tie; NaN and the infinities come back unchanged. */
  function Round(x: Num): (r: Num)
    ensures !x.Finite? ==> r == x
    ensures x.Finite? ==> IsInteger(r) && r.value - 0.5 <= x.value < r.value + 0.5
  {
    if x.Finite? then Finite((x.value + 0.5).Floor as real) else x
  }

  /** Rounding a number between two integers stays between them. */
  lemma RoundWithin(x: real, lo: int, hi: int)
    requires lo as real <= x <= hi as real
    ensures lo as real <= Round(Finite(x)).value <= hi as real
  {
    var k := (x + 0.5).Floor;
    assert Round(Finite(x)).value == k as real;
    assert k <= hi && lo <= k;
  }

  /** Whole numbers round to themselves. */
  lemma RoundOfInteger(k: int)
    ensures Round(Finite(k as real)) == Finite(k as real)
  {
    assert (k as real + 0.5).Floor == k;
  }

  /** `m` times ten to the power `e`, one factor of ten at a time. */
  function Scale(m: real, e: int): (r: real)
    ensures m >= 0.0 ==> r >= 0.0
    ensures e == 0 ==> r == m
    decreases if e < 0 then -e else e
  {
    if e == 0 then m
    else if e > 0 then 10.0 * Scale(m, e - 1)
    else Scale(m, e + 1) / 10.0
  }

  /** Ten to the power `e`. */
  function Pow10(e: nat): (p: nat)
    ensures p >= 1
  {
    if e == 0 then 1 else 10 * Pow10(e - 1)
  }

  /** Scaling by a non-negative exponent multiplies by that power of ten. */
  lemma {:induction false} ScaleUp(m: real, e: nat)
    ensures Scale(m, e) == m * Pow10(e) as real
  {
    if e > 0 {
      ScaleUp(m, e - 1);
      assert Pow10(e) as real == 10.0 * Pow10(e - 1) as real;
    }
  }

  /** Scaling by a negative exponent divides by that power of ten. */
  lemma {:induction false} ScaleDown(m: real, e: nat)
    ensures Scale(m, -(e as int)) * Pow10(e) as real == m
  {
    if e > 0 {
      ScaleDown(m, e - 1);
      assert Scale(m, -(e as int)) == Scale(m, -((e - 1) as int)) / 10.0;
      assert Pow10(e) as real == 10.0 * Pow10(e - 1) as real;
    }
  }

  /** The value of the digits after a decimal point: 0.d1 d2 d3 ... */
  function FractionValue(d: string): (f: real)
    requires AllDigits(d)
    ensures 0.0 <= f < 1.0
  {
    if |d| == 0 then 0.0 else (DigitValue(d[0]) as real + FractionValue(d[1..])) / 10.0
  }

  /** The exponent an ExponentPart (`e` or `E`, an optional sign, at least
      one digit) at the front of `w` denotes; 0 when `w` does not start with
      a complete one, since the longest numeric prefix then stops before it. */
  function ExponentOf(w: string): int {
    if |w| == 0 || (w[0] != 'e' && w[0] != 'E') then 0
    else
      var signed := |w| > 1 && (w[1] == '+' || w[1] == '-');
      var digits := if signed then w[2..] else w[1..];
      var k := LeadingDigits(digits);
      var magnitude: int := DigitsValue(digits[..k]);
      if k == 0 then 0
      else if signed && w[1] == '-' then -magnitude
      else magnitude
  }

  const Infinity: string := "Infinity"

  /** Whether `p` is a prefix of `s`, compared character by character. */
  predicate IsPrefix(p: string, s: string) {
    |p| == 0 || (|s| > 0 && p[0] == s[0] && IsPrefix(p[1..], s[1..]))
  }

  /** Whether `u` starts with the word Infinity. */
  predicate StartsWithInfinity(u: string) {
    IsPrefix(Infinity, u)
  }

  /** `t` without its leading sign character, if it has one. */
  function Unsigned(t: string): (u: string)
    ensures |t| > 0 && (t[0] == '+' || t[0] == '-') ==> u == t[1..]
    ensures |t| == 0 || (t[0] != '+' && t[0] != '-') ==> u == t
  {
    if |t| > 0 && (t[0] == '+' || t[0] == '-') then t[1..] else t
  }

  /** Whether an unsigned StrDecimalLiteral starts `u`: a digit, a point
      followed by a digit, or the word Infinity. */
  predicate StartsNumeric(u: string) {
    || (|u| > 0 && IsDigit(u[0]))
    || (|u| > 1 && u[0] == '.' && IsDigit(u[1]))
    || StartsWithInfinity(u)
  }

  /** Whether some prefix of `s`, after its leading white space, is a
      StrDecimalLiteral, i.e. whether `parseFloat(s)` is not NaN. */
  predicate HasNumericPrefix(s: string) {
    StartsNumeric(Unsigned(TrimStart(s)))
  }

  /** The digits after the point that follows the leading digits of `u`;
      empty when no point follows them. */
  function FractionDigits(u: string): (f: string)
    ensures AllDigits(f)
  {
    var i := LeadingDigits(u);
    if i < |u| && u[i] == '.' then
      var rest := u[i + 1..];
      rest[..LeadingDigits(rest)]
    else []
  }

  /** Where the mantissa at the front of `u` ends: after the leading digits,
      and after the point and its fraction digits when a point follows. */
  function MantissaEnd(u: string): (k: nat)
    ensures k <= |u|
  {
    var i := LeadingDigits(u);
    if i < |u| && u[i] == '.' then i + 1 + |FractionDigits(u)| else i
  }

  /** The value of the longest unsigned StrDecimalLiteral prefix of `u`:
      digits with an optional point, fraction and exponent, or `Infinity`. */
  function ParseUnsigned(u: string): Num {
    var whole := u[..LeadingDigits(u)];
    var fraction := FractionDigits(u);
    if |whole| == 0 && |fraction| == 0 then
      if StartsWithInfinity(u) then PosInfinity else NaN
    else
      var mantissa := DigitsValue(whole) as real + FractionValue(fraction);
      Finite(Scale(mantissa, ExponentOf(u[MantissaEnd(u)..])))
  }

  /** Unary minus, on the numbers `parseFloat` can read. */
  function Negate(m: Num): (r: Num)
    ensures m.Finite? ==> r == Finite(-m.value)
    ensures m.PosInfinity? ==> r.NegInfinity?
    ensures m.NaN? ==> r.NaN?
  {
    match m
    case Finite(v) => Finite(-v)
    case PosInfinity => NegInfinity
    case NegInfinity => PosInfinity
    case NaN => NaN
  }

  /** `parseFloat(s)`: skip leading white space, read an optional sign and
      the longest numeric prefix; NaN when there is none. */
  function ParseFloat(s: string): Num {
    var t := TrimStart(s);
    var m := ParseUnsigned(Unsigned(t));
    if |t| > 0 && t[0] == '-' then Negate(m) else m
  }

  /** The unsigned reading is NaN exactly when no numeric literal starts
      the text; otherwise it is +Infinity or a number that is not negative. */
  lemma ParseUnsignedCases(u: string)
    ensures ParseUnsigned(u).NaN? <==> !StartsNumeric(u)
    ensures ParseUnsigned(u).Finite? ==> ParseUnsigned(u).value >= 0.0
    ensures !ParseUnsigned(u).NegInfinity?
  {
  }

  /** An exponent part is read: "5.e3" (digits, a point with no fraction
      digits, then `e3`) denotes 5000. */
  lemma ExponentLiteral(u: string)
    requires u == "5.e3"
    ensures ParseUnsigned(u) == Finite(5000.0)
  {
    LeadingDigitsUnique(u, 1);
    var rest := u[2..];
    assert rest == "e3";
    LeadingDigitsUnique(rest, 0);
    assert FractionDigits(u) == [];
    assert MantissaEnd(u) == 2;
    var digits := rest[1..];
    assert digits == "3";
    LeadingDigitsUnique(digits, 1);
    assert digits[..1] == "3";
    assert DigitsValue("3") == 3;
    assert ExponentOf(rest) == 3;
    assert DigitsValue(u[..1]) == 5;
    assert FractionValue([]) == 0.0;
    ScaleUp(5.0, 3);
    assert Pow10(3) == 1000;
  }

  /** `parseFloat` gives NaN exactly when no numeric literal follows the
      leading white space and optional sign, and a negative result only
      when that sign is a minus. */
  lemma ParseFloatCases(s: string)
    ensures ParseFloat(s).NaN? <==> !HasNumericPrefix(s)
    ensures var r := ParseFloat(s);
      r.NegInfinity? || (r.Finite? && r.value < 0.0) ==> TrimStart(s)[0] == '-'
  {
    ParseUnsignedCases(Unsigned(TrimStart(s)));
  }

  /** A decimal spelling of a natural number, followed by anything that
      cannot continue a numeric literal, denotes that number. */
  lemma ParseUnsignedOfNatDigits(n: nat, tail: string)
    requires |tail| == 0 || !(IsDigit(tail[0]) || tail[0] == '.' || tail[0] == 'e' || tail[0] == 'E')
    ensures ParseUnsigned(NatToDigits(n) + tail) == Finite(n as real)
  {
    var d := NatToDigits(n);
    var s := d + tail;
    assert s[..|d|] == d;
    LeadingDigitsUnique(s, |d|);
    assert FractionDigits(s) == [];
    assert MantissaEnd(s) == |d|;
    assert s[|d|..] == tail;
    assert ExponentOf(tail) == 0;
    assert FractionValue([]) == 0.0;
    assert Scale(n as real, 0) == n as real;
  }

  /** ... and `parseFloat` reads it as that number. */
  lemma ParseFloatOfNatDigits(n: nat, tail: string)
    requires |tail| == 0 || !(IsDigit(tail[0]) || tail[0] == '.' || tail[0] == 'e' || tail[0] == 'E')
    ensures ParseFloat(NatToDigits(n) + tail) == Finite(n as real)
  {
    var s := NatToDigits(n) + tail;
    assert s[0] == NatToDigits(n)[0];
    ParseUnsignedOfNatDigits(n, tail);
    ParseFloatOfUnsigned(s, Finite(n as real));
  }

  /** The text "0", which stands in for a blank reply, reads as zero. */
  lemma ParseFloatOfZero()
    ensures ParseFloat("0") == Finite(0.0)
  {
    ParseFloatOfNatDigits(0, []);
    assert NatToDigits(0) + [] == "0";
  }

  /** Digits, a point and one fraction digit, with nothing after them,
      denote exactly the decimal number they spell. */
  lemma ParseUnsignedOfOneDecimal(u: string)
    requires |u| >= 3 && u[|u| - 2] == '.' && IsDigit(u[|u| - 1])
    requires forall j :: 0 <= j < |u| - 2 ==> IsDigit(u[j])
    ensures AllDigits(u[..|u| - 2])
    ensures ParseUnsigned(u)
      == Finite(DigitsValue(u[..|u| - 2]) as real + DigitValue(u[|u| - 1]) as real / 10.0)
  {
    var i := |u| - 2;
    var whole, tenth := u[..i], u[i + 1];
    LeadingDigitsUnique(u, i);
    var rest := u[i + 1..];
    assert rest == [tenth];
    LeadingDigitsUnique(rest, 1);
    assert FractionDigits(u) == [tenth];
    assert MantissaEnd(u) == |u|;
    assert FractionValue([tenth]) == DigitValue(tenth) as real / 10.0 by {
      assert [tenth][1..] == [];
    }
    assert u[|u|..] == [];
    assert ExponentOf([]) == 0;
    var mantissa := DigitsValue(whole) as real + FractionValue([tenth]);
    assert Scale(mantissa, 0) == mantissa;
  }

  /** Text that starts with a digit parses as its unsigned reading. */
  lemma ParseFloatOfUnsigned(u: string, m: Num)
    requires |u| > 0 && IsDigit(u[0]) && ParseUnsigned(u) == m
    ensures ParseFloat(u) == m
  {
    LeadingWhiteSpaceUnique(u, 0);
  }

  /** Text that starts with a sign parses as the signed unsigned reading of
      the rest. */
  lemma ParseFloatOfSigned(sign: char, u: string, m: Num)
    requires (sign == '+' || sign == '-') && ParseUnsigned(u) == m
    ensures ParseFloat([sign] + u) == if sign == '-' then Negate(m) else m
  {
    var s := [sign] + u;
    LeadingWhiteSpaceUnique(s, 0);
    assert s[1..] == u;
  }

  /** The integer nearest to `10 * a`, the larger one on a tie. */
  function NearestTenths(a: real): (n: nat)
    requires a >= 0.0
    ensures n as real - 0.5 <= 10.0 * a < n as real + 0.5
  {
    (10.0 * a + 0.5).Floor
  }

  /** The digits of n / 10, a point, and the digit n % 10: the text of
      the number n / 10 with exactly one fraction digit. */
  function PointBeforeLastDigit(n: nat): (s: string)
    ensures |s| >= 3 && s[|s| - 2] == '.' && IsDigit(s[|s| - 1]) && IsDigit(s[0])
  {
    NatToDigits(n / 10) + "." + [DigitChar(n % 10)]
  }

  /** Steps 10-11 of `toFixed` for one fraction digit, as ECMA-262 words
      them: pad the digit string `m` with zeros to at least two digits,
      then put a point before its last digit. */
  function PadAndSplit(m: string): string
    requires |m| > 0
  {
    var padded := if |m| <= 1 then "0" + m else m;
    var k := |padded|;
    padded[..k - 1] + "." + padded[k - 1..]
  }

  /** The point placement above is exactly the one ECMA-262 prescribes. */
  lemma PointBeforeLastDigitAsSpecified(n: nat)
    ensures PointBeforeLastDigit(n) == PadAndSplit(NatToDigits(n))
  {
    var m := NatToDigits(n);
    if n < 10 {
      assert m == [DigitChar(n)];
      assert NatToDigits(n / 10) == "0";
    } else {
      assert m[..|m| - 1] == NatToDigits(n / 10);
      assert m[|m| - 1..] == [DigitChar(n % 10)];
    }
  }

  /** 10^21: from this magnitude on `toFixed` falls back to `ToString`. */
  const ToFixedLimit: real := 1_000_000_000_000_000_000_000.0

  /** `Number.prototype.toFixed(1)` for |x| < 10^21 (section 21.1.3.3 of
      ECMA-262): the integer n nearest to 10|x| (the larger on a tie) is
      written out, padded to two digits, and a point put before its last
      digit; a minus sign goes in front when x < 0. */
  function ToFixed1(x: real): (s: string)
    requires -ToFixedLimit < x < ToFixedLimit
    ensures |s| >= 3 && s[|s| - 2] == '.' && IsDigit(s[|s| - 1])
    ensures (s[0] == '-') <==> x < 0.0
  {
    var negative := x < 0.0;
    var digits := PointBeforeLastDigit(NearestTenths(if negative then -x else x));
    if negative then ['-'] + digits else digits
  }

  /** What `toFixed(1)` writes reads back, under `parseFloat`, as a number
      within 0.05 of the original, and as the original itself when that is
      a whole number of tenths. */
  lemma {:induction false} ToFixed1ReadsBack(x: real)
    requires -ToFixedLimit < x < ToFixedLimit
    ensures ParseFloat(ToFixed1(x)).Finite?
    ensures -0.05 <= ParseFloat(ToFixed1(x)).value - x <= 0.05
    ensures IsIntegral(10.0 * x) ==> ParseFloat(ToFixed1(x)) == Finite(x)
  {
    ToFixed1Parses(x);
    TenthsNearest(x);
  }

  /** The value `toFixed(1)` writes for `x`: the nearest tenth, rounding
      the magnitude half up. */
  function SignedTenths(x: real): real {
    var n := NearestTenths(if x < 0.0 then -x else x);
    if x < 0.0 then -(n as real / 10.0) else n as real / 10.0
  }

  lemma TenthsNearest(x: real)
    ensures -0.05 <= SignedTenths(x) - x <= 0.05
    ensures IsIntegral(10.0 * x) ==> SignedTenths(x) == x
  {
    var negative := x < 0.0;
    var a := if negative then -x else x;
    if IsIntegral(10.0 * x) {
      if negative {
        IntegralNegated(10.0 * x);
        assert 10.0 * a == -(10.0 * x);
      }
      NearestTenthsOfWhole(a);
    }
  }

  lemma ToFixed1Parses(x: real)
    requires -ToFixedLimit < x < ToFixedLimit
    ensures ParseFloat(ToFixed1(x)) == Finite(SignedTenths(x))
  {
    var negative := x < 0.0;
    var n := NearestTenths(if negative then -x else x);
    var u := PointBeforeLastDigit(n);
    var v := n as real / 10.0;
    PointBeforeLastDigitReadsBack(n);
    SignedReadsBack(negative, u, v);
    assert SignedTenths(x) == if negative then -v else v;
  }

  /** A digit-led text, with or without a minus sign in front, reads back
      as its unsigned reading with that sign. */
  lemma SignedReadsBack(negative: bool, u: string, v: real)
    requires |u| > 0 && IsDigit(u[0]) && ParseUnsigned(u) == Finite(v)
    ensures ParseFloat(if negative then ['-'] + u else u) == Finite(if negative then -v else v)
  {
    if negative {
      ParseFloatOfSigned('-', u, Finite(v));
    } else {
      ParseFloatOfUnsigned(u, Finite(v));
    }
  }

  lemma IntegralNegated(y: real)
    requires IsIntegral(y)
    ensures IsIntegral(-y)
  {
    var k := y.Floor;
    assert y == k as real;
    assert -y == (-k) as real;
    assert (-y).Floor == -k;
  }

  /** A whole number of tenths is its own nearest. */
  lemma NearestTenthsOfWhole(a: real)
    requires a >= 0.0 && IsIntegral(10.0 * a)
    ensures NearestTenths(a) as real == 10.0 * a
  {
    var n := NearestTenths(a);
    var k := (10.0 * a).Floor;
    assert (n - k) as real < 1.0 && (k - n) as real < 1.0;
  }

  /** The digits-and-point text for `n` starts with a digit and reads back
      as n / 10. */
  lemma PointBeforeLastDigitReadsBack(n: nat)
    ensures IsDigit(PointBeforeLastDigit(n)[0])
    ensures ParseUnsigned(PointBeforeLastDigit(n)) == Finite(n as real / 10.0)
  {
    var u := PointBeforeLastDigit(n);
    assert u[..|u| - 2] == NatToDigits(n / 10);
    assert u[|u| - 1] == DigitChar(n % 10);
    ParseUnsignedOfOneDecimal(u);
    assert n == 10 * (n / 10) + n % 10;
  }
}
