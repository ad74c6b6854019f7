/** `getSpecMatchPercentage` of backend/openaiClient.js: ask the Gemini
    model how well a product specification matches an RFP requirement and
    turn its reply into a percentage, falling back to 85 when the model is
    not configured or anything throws. The SDK call itself is not modelled:
    what it did is an input. */
module SpecMatch {
  import opened JsString
  import opened JsNumber

  datatype Option<T> = None | Some(value: T)

  /** What the Gemini SDK did once a client could be built: it threw
      (loading the SDK, building the model, `generateContent`, awaiting the
      response or reading its text), or it handed back the reply text. */
  datatype ModelCall = CallThrew | CallReplied(reply: string)

  /** What `getSpecMatchPercentage` sees: `getGeminiModel` returned null,
      something threw, or the model replied with `text`. */
  datatype GeminiOutcome = NoApiKey | Threw | Replied(text: string)

  /** The value returned when there is no key and when anything throws. */
  const DefaultMatchPercentage: real := 85.0

  /** `getGeminiModel`'s key test `!process.env.GEMINI_API_KEY`: an unset
      variable and an empty string are both missing. Only with a key is the
      SDK consulted at all. */
  function OutcomeOf(apiKey: Option<string>, call: ModelCall): (o: GeminiOutcome)
    ensures o.NoApiKey? <==> apiKey == None || apiKey == Some("")
    ensures o.Threw? <==> !o.NoApiKey? && call.CallThrew?
    ensures o.Replied? ==> call == CallReplied(o.text)
  {
    if apiKey.None? || apiKey.value == "" then NoApiKey
    else match call
      case CallThrew => Threw
      case CallReplied(text) => Replied(text)
  }

  /** What `||` substitutes for a blank reply. */
  const ZeroText: string := "0"

  /** `parseFloat(text.trim() || '0')`: an empty trimmed reply reads as "0". */
  function ReplyNumber(text: string): (n: Num)
    ensures |Trim(text)| == 0 ==> n == Finite(0.0)
    ensures |Trim(text)| > 0 ==> n == ParseFloat(Trim(text))
  {
    var t := Trim(text);
    ParseFloatOfZero();
    ParseFloat(if |t| == 0 then ZeroText else t)
  }

  /** `Math.max(0, Math.min(100, p))`. */
  function Clamp(p: Num): (c: Num)
    ensures c.NaN? <==> p.NaN?
    ensures p.Finite? ==> c.Finite? && c.value == (if p.value < 0.0 then 0.0 else if p.value > 100.0 then 100.0 else p.value)
    ensures p.PosInfinity? ==> c == Finite(100.0)
    ensures p.NegInfinity? ==> c == Finite(0.0)
  {
    Max(Finite(0.0), Min(Finite(100.0), p))
  }

  /** `Math.round(Math.max(0, Math.min(100, p)))`: NaN stays NaN, every
      other number becomes a whole number in [0, 100]. */
  function ClampRound(p: Num): (r: Num)
    ensures r.NaN? <==> p.NaN?
    ensures !r.NaN? ==> IsInteger(r) && 0.0 <= r.value <= 100.0
  {
    var c := Clamp(p);
    if c.Finite? then RoundWithin(c.value, 0, 100); Round(c) else Round(c)
  }

  /** The percentage `getSpecMatchPercentage` resolves to, as the code is
      written: 85 without a key or on an exception, otherwise the reply read
      as a number, clamped to [0, 100] and rounded. */
  function SpecMatchPercentage(o: GeminiOutcome): (r: Num)
    ensures !o.Replied? ==> r == Finite(DefaultMatchPercentage)
    ensures !r.NaN? ==> IsInteger(r) && 0.0 <= r.value <= 100.0
  {
    match o
    case NoApiKey => Finite(DefaultMatchPercentage)
    case Threw => Finite(DefaultMatchPercentage)
    case Replied(text) => ClampRound(ReplyNumber(text))
  }

  /** A reply makes the result NaN exactly when, once trimmed, it is not
      blank and `parseFloat` finds no number at its front. */
  lemma NaNExactlyWhenUnreadable(text: string)
    ensures SpecMatchPercentage(Replied(text)).NaN?
      <==> |Trim(text)| > 0 && !HasNumericPrefix(Trim(text))
  {
    if |Trim(text)| > 0 {
      ParseFloatCases(Trim(text));
    }
  }

  /** A blank reply (empty once trimmed) counts as "0", so the result is 0. */
  lemma BlankReplyIsZero(text: string)
    requires |Trim(text)| == 0
    ensures SpecMatchPercentage(Replied(text)) == Finite(0.0)
  {
    assert ReplyNumber(text) == Finite(0.0);
    ClampRoundInteger(0);
  }

  /** A reply that reads as a finite number p gives the integer nearest to
      p clamped to [0, 100], the larger one on a tie: "150" gives 100, "-5"
      gives 0, "72.5" gives 73. */
  lemma FiniteReplyRoundsClamped(text: string)
    requires ReplyNumber(text).Finite?
    ensures var p := ReplyNumber(text).value;
      var c := if p < 0.0 then 0.0 else if p > 100.0 then 100.0 else p;
      var r := SpecMatchPercentage(Replied(text));
      IsInteger(r) && r.value - 0.5 <= c < r.value + 0.5
  {
  }

  /** The percentage as the doc comment of `getSpecMatchPercentage`
      promises it: a whole number in [0, 100] always, with a reply that does
      not read as a number falling back to 85 like every other failure.
      Wherever the code as written yields a number, this agrees with it. */
  function SpecMatchPercentageFixed(o: GeminiOutcome): (r: Num)
    ensures IsInteger(r) && 0.0 <= r.value <= 100.0
    ensures !o.Replied? ==> r == Finite(DefaultMatchPercentage)
    ensures o.Replied? && ReplyNumber(o.text).NaN? ==> r == Finite(DefaultMatchPercentage)
    ensures !SpecMatchPercentage(o).NaN? ==> r == SpecMatchPercentage(o)
  {
    var p := SpecMatchPercentage(o);
    if p.NaN? then Finite(DefaultMatchPercentage) else p
  }

  /** The whole function, from the environment's key and the SDK's
      behaviour. */
  function GetSpecMatchPercentage(apiKey: Option<string>, call: ModelCall): (r: Num)
    ensures apiKey == None || apiKey == Some("") ==> r == Finite(85.0)
    ensures apiKey.Some? && apiKey.value != "" && call.CallThrew? ==> r == Finite(85.0)
    ensures apiKey.Some? && apiKey.value != "" && call.CallReplied?
      ==> r == SpecMatchPercentage(Replied(call.reply))
  {
    SpecMatchPercentage(OutcomeOf(apiKey, call))
  }

  /** Without a key (unset or empty) the result is exactly 85 whatever the
      model would have done: the model is never consulted. */
  lemma MissingKeyIgnoresModel(apiKey: Option<string>, call1: ModelCall, call2: ModelCall)
    requires apiKey == None || apiKey == Some("")
    ensures GetSpecMatchPercentage(apiKey, call1) == Finite(85.0)
    ensures GetSpecMatchPercentage(apiKey, call1) == GetSpecMatchPercentage(apiKey, call2)
  {
  }

  /** A reply without a numeric prefix reads as NaN, and NaN passes through
      `Math.min`, `Math.max` and `Math.round`: the function resolves to NaN,
      not to a number in [0, 100] and not to the 85 fallback. */
  lemma NonNumericReplyIsNaN(text: string)
    requires |Trim(text)| > 0 && !HasNumericPrefix(Trim(text))
    ensures SpecMatchPercentage(Replied(text)) == NaN
  {
    ParseFloatCases(Trim(text));
  }

  /** A reply whose first character is not white space and cannot start a
      number (no digit, sign, point or `I`) is such a reply, whatever
      follows: "N/A", "Not sure", "approximately 80%". */
  lemma WordReplyIsNaN(text: string)
    requires |text| > 0 && !IsWhiteSpace(text[0]) && !IsDigit(text[0])
    requires text[0] != '+' && text[0] != '-' && text[0] != '.' && text[0] != 'I'
    ensures SpecMatchPercentage(Replied(text)) == NaN
  {
    LeadingWhiteSpaceUnique(text, 0);
    var t := Trim(text);
    assert |t| > 0 && t[0] == text[0];
    LeadingWhiteSpaceUnique(t, 0);
    assert TrimStart(t) == t;
    assert Unsigned(t) == t;
    assert !StartsNumeric(t);
    NonNumericReplyIsNaN(text);
  }

  /** The reply "N/A" in particular. */
  lemma NotApplicableReplyIsNaN()
    ensures SpecMatchPercentage(Replied("N/A")) == NaN
  {
    var t := "N/A";
    assert t[0] == 'N';
    WordReplyIsNaN(t);
  }

  /** Whenever the reply has a numeric prefix (or is blank), the result is a
      whole number in [0, 100]. */
  lemma NumericReplyInRange(text: string)
    requires |Trim(text)| == 0 || HasNumericPrefix(Trim(text))
    ensures IsInteger(SpecMatchPercentage(Replied(text)))
    ensures 0.0 <= SpecMatchPercentage(Replied(text)).value <= 100.0
  {
    if |Trim(text)| > 0 {
      ParseFloatCases(Trim(text));
    }
  }

  /** White space around the reply does not change the result. */
  lemma PaddingIgnored(pre: string, text: string, post: string)
    requires AllWhiteSpace(pre) && AllWhiteSpace(post)
    ensures SpecMatchPercentage(Replied(pre + text + post)) == SpecMatchPercentage(Replied(text))
  {
    TrimIgnoresPadding(pre, text, post);
  }

  /** Clamping and rounding leave a whole number in [0, 100] unchanged and
      move any other whole number to the nearer end. */
  lemma ClampRoundInteger(k: int)
    ensures ClampRound(Finite(k as real))
      == Finite(if k < 0 then 0.0 else if k > 100 then 100.0 else k as real)
  {
    var c := if k < 0 then 0 else if k > 100 then 100 else k;
    assert (if k < 0 then 0.0 else if k > 100 then 100.0 else k as real) == c as real;
    assert Clamp(Finite(k as real)) == Finite(c as real);
    RoundOfInteger(c);
  }

  /** A reply that is a whole number followed by anything that does not
      continue a numeric literal, such as "73" or "73%", gives that number
      clamped to [0, 100]. */
  lemma WholeNumberReply(n: nat, tail: string)
    requires IsTrimmed(NatToDigits(n) + tail)
    requires |tail| == 0 || !(IsDigit(tail[0]) || tail[0] == '.' || tail[0] == 'e' || tail[0] == 'E')
    ensures SpecMatchPercentage(Replied(NatToDigits(n) + tail)) == Finite(if n > 100 then 100.0 else n as real)
  {
    var t := NatToDigits(n) + tail;
    ParseFloatOfNatDigits(n, tail);
    TrimmedReply(t, Finite(n as real));
    ClampRoundInteger(n);
  }

  /** Under the corrected reading, "N/A" gives the 85 fallback. */
  lemma FixedNotApplicableIsDefault()
    ensures SpecMatchPercentageFixed(Replied("N/A")) == Finite(85.0)
  {
    NotApplicableReplyIsNaN();
  }

  /** A non-blank reply with no white space at either end is clamped and
      rounded from what `parseFloat` makes of it. */
  lemma TrimmedReply(t: string, m: Num)
    requires |t| > 0 && IsTrimmed(t) && ParseFloat(t) == m
    ensures SpecMatchPercentage(Replied(t)) == ClampRound(m)
  {
    TrimOfPadded([], t, []);
    assert [] + t + [] == t;
    assert ReplyNumber(t) == m;
  }

  /** ... so one that `parseFloat` reads as the finite number v gives v
      clamped to [0, 100] and rounded. */
  lemma TrimmedFiniteReply(t: string, v: real)
    requires |t| > 0 && IsTrimmed(t) && ParseFloat(t) == Finite(v)
    ensures SpecMatchPercentage(Replied(t))
      == Round(Finite(if v < 0.0 then 0.0 else if v > 100.0 then 100.0 else v))
  {
    TrimmedReply(t, Finite(v));
    assert Clamp(Finite(v)) == Finite(if v < 0.0 then 0.0 else if v > 100.0 then 100.0 else v);
  }

  /** A minus sign followed by a whole number gives 0. */
  lemma NegativeWholeReply(n: nat)
    ensures SpecMatchPercentage(Replied(['-'] + NatToDigits(n))) == Finite(0.0)
  {
    var d := NatToDigits(n);
    var t := ['-'] + d;
    assert t[|t| - 1] == d[|d| - 1];
    ParseUnsignedOfNatDigits(n, []);
    assert d + [] == d;
    ParseFloatOfSigned('-', d, Finite(n as real));
    TrimmedFiniteReply(t, -(n as real));
    RoundOfInteger(0);
  }

  /** A reply of digits, a point and one more digit, such as "72.5", gives
      the number it spells clamped to [0, 100] and rounded half up. */
  lemma OneDecimalReply(t: string)
    requires |t| >= 3 && t[|t| - 2] == '.' && IsDigit(t[|t| - 1])
    requires forall j :: 0 <= j < |t| - 2 ==> IsDigit(t[j])
    ensures AllDigits(t[..|t| - 2])
    ensures var v := DigitsValue(t[..|t| - 2]) as real + DigitValue(t[|t| - 1]) as real / 10.0;
      SpecMatchPercentage(Replied(t)) == Round(Finite(if v > 100.0 then 100.0 else v))
  {
    ParseUnsignedOfOneDecimal(t);
    var v := DigitsValue(t[..|t| - 2]) as real + DigitValue(t[|t| - 1]) as real / 10.0;
    ParseFloatOfUnsigned(t, Finite(v));
    TrimmedFiniteReply(t, v);
    assert 0.0 <= v;
  }

  /** The reply "73" gives 73. */
  lemma SeventyThreeReply(t: string)
    requires t == "73"
    ensures SpecMatchPercentage(Replied(t)) == Finite(73.0)
  {
    assert NatToDigits(73) + [] == t;
    WholeNumberReply(73, []);
  }

  /** The reply "73%" gives 73: the sign after the number is ignored. */
  lemma SeventyThreePercentReply(t: string)
    requires t == "73%"
    ensures SpecMatchPercentage(Replied(t)) == Finite(73.0)
  {
    assert NatToDigits(73) + "%" == t;
    WholeNumberReply(73, "%");
  }

  /** The reply "150" gives 100. */
  lemma OverHundredReply(t: string)
    requires t == "150"
    ensures SpecMatchPercentage(Replied(t)) == Finite(100.0)
  {
    assert NatToDigits(150) + [] == t;
    WholeNumberReply(150, []);
  }

  /** The reply "-5" gives 0. */
  lemma NegativeFiveReply(t: string)
    requires t == "-5"
    ensures SpecMatchPercentage(Replied(t)) == Finite(0.0)
  {
    assert ['-'] + NatToDigits(5) == t;
    NegativeWholeReply(5);
  }

  /** The reply "72.5" gives 73: the tie rounds up. */
  lemma HalfwayReply(t: string)
    requires t == "72.5"
    ensures SpecMatchPercentage(Replied(t)) == Finite(73.0)
  {
    assert t[..2] == "72" && DigitsValue("72") == 72;
    OneDecimalReply(t);
    assert (73.0).Floor == 73;
  }
}
