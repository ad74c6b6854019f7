# RFP agent: spec-match scoring and pricing aggregation

This project models two parts of the RFP agent and proves properties of
them.

- **Spec-match scoring.** `getSpecMatchPercentage` in
  `backend/openaiClient.js` asks a Gemini model how well a product
  specification matches an RFP requirement. It turns the model's reply
  into a percentage. Without a `GEMINI_API_KEY` (unset or empty), and
  whenever anything throws, it returns 85. Otherwise it trims the reply,
  reads it with `parseFloat` (a blank reply counts as `'0'`), clamps it to
  [0, 100] with `Math.min`/`Math.max`, and rounds it with `Math.round`.
- **Pricing aggregation.** The server (`backend/server.js`) and the
  pricing view (`src/components/pricing/PricingSummary.tsx`) each hold the
  same literal breakdown: three material lines and three service lines.
  Each sums the line totals with `reduce` into a materials cost, a
  services cost and their sum, the total proposal value. The server sends
  these with both breakdowns from `GET /api/pricing-summary`. The view
  shows each figure in thousands with `(x / 1000).toFixed(1)`, next to the
  line counts.

The JavaScript built-ins these depend on are modelled in their own
modules:

- `JsString`: `String.prototype.trim` with the ECMAScript white-space and
  line-terminator set, plus decimal digits.
- `JsNumber`: numbers as NaN, plus or minus infinity, or an exact real;
  `parseFloat` (the longest StrDecimalLiteral prefix after leading white
  space, including `Infinity`); `Math.min`, `Math.max` and `Math.round`
  with NaN propagating; and `Number.prototype.toFixed(1)` as section
  21.1.3.3 of ECMA-262 describes it.

The other modules are:

- `SpecMatch`: the scoring function.
- `Pricing`: line items, the `reduce`-sum and the three figures.
- `Server`: the server's data and the route's JSON body.
- `PricingView`: the view's data, its figures and its cards.

The SDK is not modelled. What it did is an input: it threw, or it replied
with some text. The environment's key is an input too.

The doc comment of `getSpecMatchPercentage` (backend/openaiClient.js:25-30)
promises a number between 0 and 100. The code has no branch for a reply
that is not a number: `parseFloat` gives NaN, and `Math.min`, `Math.max`
and `Math.round` pass NaN through, so the function resolves to NaN. The
model follows the code and records the gap under Findings.

## Model

| member | source | states |
|---|---|---|
| SpecMatch.OutcomeOf | backend/openaiClient.js:4-7 | The SDK is consulted only with a key: an unset key and an empty key both count as missing, and only with a key can the call throw or reply. |
| SpecMatch.GetSpecMatchPercentage | backend/openaiClient.js:31-73 | With a missing key or a throwing SDK the result is 85; with a key and a reply it is the reply's scored value. |
| SpecMatch.MissingKeyIgnoresModel | backend/openaiClient.js:5-7 | Without a key the result is 85 and does not depend on anything the model would have done. |
| SpecMatch.SpecMatchPercentage | backend/openaiClient.js:33-72 | No key and an exception both give 85; any result that is not NaN is a whole number in [0, 100]. |
| SpecMatch.NaNExactlyWhenUnreadable | backend/openaiClient.js:60-67 | A reply makes the result NaN exactly when it is not blank once trimmed and `parseFloat` finds no number at its front. |
| SpecMatch.ReplyNumber | backend/openaiClient.js:60-62 | A reply that is blank once trimmed reads as 0; any other reply reads as `parseFloat` of its trimmed text. |
| SpecMatch.Clamp | backend/openaiClient.js:65 | NaN stays NaN; a finite value is clamped into [0, 100]; +Infinity becomes 100 and -Infinity becomes 0. |
| SpecMatch.ClampRound | backend/openaiClient.js:65-67 | Clamping then rounding keeps NaN as NaN and turns every other number into a whole number in [0, 100]. |
| SpecMatch.BlankReplyIsZero | backend/openaiClient.js:60-67 | A reply that is empty or all white space scores 0. |
| SpecMatch.FiniteReplyRoundsClamped | backend/openaiClient.js:62-67 | A reply reading as a finite p scores the whole number nearest to p clamped to [0, 100], taking the larger one on a tie. |
| SpecMatch.NumericReplyInRange | backend/openaiClient.js:62-67 | A reply with a numeric prefix scores a whole number in [0, 100]. |
| SpecMatch.PaddingIgnored | backend/openaiClient.js:60 | White space around a reply does not change its score. |
| SpecMatch.NonNumericReplyIsNaN | backend/openaiClient.js:60-67 | A non-blank reply with no numeric prefix yields NaN, not a number in [0, 100]. |
| SpecMatch.WordReplyIsNaN | backend/openaiClient.js:60-67 | A reply whose first character cannot start a number (not white space, a digit, a sign, a point or the I of Infinity) yields NaN. |
| SpecMatch.NotApplicableReplyIsNaN | backend/openaiClient.js:60-67 | The reply "N/A" yields NaN. |
| SpecMatch.WholeNumberReply | backend/openaiClient.js:60-67 | A reply with no surrounding white space that spells a natural number n, followed by anything that cannot continue a number (such as "%"), scores n capped at 100. |
| SpecMatch.NegativeWholeReply | backend/openaiClient.js:60-67 | A reply spelling a negative whole number scores 0. |
| SpecMatch.OneDecimalReply | backend/openaiClient.js:60-67 | A reply of digits with one fraction digit scores its value capped at 100 and rounded half up. |
| SpecMatch.TrimmedReply | backend/openaiClient.js:60-67 | A reply that is already trimmed and non-empty scores what clamping and rounding make of its `parseFloat` reading. |
| SpecMatch.TrimmedFiniteReply | backend/openaiClient.js:60-67 | A trimmed reply reading as a finite v scores v clamped to [0, 100] and rounded. |
| SpecMatch.ClampRoundInteger | backend/openaiClient.js:65-67 | A whole number is left unchanged by clamping and rounding when it is in [0, 100]; below 0 it gives 0 and above 100 it gives 100. |
| SpecMatch.SeventyThreeReply | backend/openaiClient.js:60-67 | The reply "73" scores 73. |
| SpecMatch.SeventyThreePercentReply | backend/openaiClient.js:60-67 | The reply "73%" scores 73: `parseFloat` stops at the percent sign. |
| SpecMatch.OverHundredReply | backend/openaiClient.js:60-67 | The reply "150" scores 100. |
| SpecMatch.NegativeFiveReply | backend/openaiClient.js:60-67 | The reply "-5" scores 0. |
| SpecMatch.HalfwayReply | backend/openaiClient.js:60-67 | The reply "72.5" scores 73: a tie rounds up. |
| SpecMatch.SpecMatchPercentageFixed | backend/openaiClient.js:25-30 | The result the doc comment promises: always a whole number in [0, 100], with 85 for a missing key, an exception or a non-numeric reply; it agrees with the code wherever the code yields a number. |
| SpecMatch.FixedNotApplicableIsDefault | backend/openaiClient.js:25-30 | Under the corrected behaviour, the reply "N/A" scores 85. |
| JsString.Trim | backend/openaiClient.js:60 | `trim` yields a text that is empty or begins and ends with a non-white-space character, and that is the input's middle: only white space is removed from either end. |
| JsString.TrimIgnoresPadding | backend/openaiClient.js:60 | Adding white space at either end of a text does not change its trimmed form. |
| JsString.TrimIdempotent | backend/openaiClient.js:60 | Trimming twice is trimming once. |
| JsNumber.Min | backend/openaiClient.js:65 | `Math.min` of two numbers is NaN if either is NaN; otherwise it is one of them and no greater than either. |
| JsNumber.Max | backend/openaiClient.js:65 | `Math.max` of two numbers is NaN if either is NaN; otherwise it is one of them and no less than either. |
| JsNumber.Round | backend/openaiClient.js:67 | `Math.round` keeps NaN and the infinities; a finite x becomes the whole number within half of x, taking the larger one on a tie. |
| JsNumber.RoundWithin | backend/openaiClient.js:67 | Rounding a number between two whole numbers keeps it between them. |
| JsNumber.ParseFloatCases | backend/openaiClient.js:62 | `parseFloat` is NaN exactly when no numeric literal follows the leading white space and sign, and it is negative only after a minus sign. |
| JsNumber.ParseFloat | backend/openaiClient.js:62 | `parseFloat` itself carries no ensures clause; its meaning is stated by JsNumber.ParseFloatCases, JsNumber.ParseFloatOfNatDigits, JsNumber.ExponentLiteral and JsNumber.ToFixed1ReadsBack. |
| JsNumber.ScaleUp | backend/openaiClient.js:62 | An exponent part `e<k>` with k not negative multiplies the mantissa by 10^k. |
| JsNumber.ScaleDown | backend/openaiClient.js:62 | An exponent part `e-<k>` divides the mantissa by 10^k. |
| JsNumber.ExponentLiteral | backend/openaiClient.js:62 | The literal "5.e3", with an empty fraction and an exponent, reads as 5000. |
| JsNumber.ParseFloatOfNatDigits | backend/openaiClient.js:62 | The decimal digits of a natural number n, followed by anything that cannot continue a literal, read as n. |
| JsNumber.ParseFloatOfZero | backend/openaiClient.js:62 | The fallback text '0' reads as 0. |
| JsNumber.ToFixed1 | src/components/pricing/PricingSummary.tsx:41 | `toFixed(1)` writes at least three characters, a point second from last and a digit last, with a minus sign exactly for a negative number. |
| JsNumber.PointBeforeLastDigitAsSpecified | src/components/pricing/PricingSummary.tsx:41 | Placing the point before the last digit is the padding-and-splitting step ECMA-262 prescribes for `toFixed(1)`. |
| JsNumber.ToFixed1ReadsBack | src/components/pricing/PricingSummary.tsx:41 | The text `toFixed(1)` writes reads back under `parseFloat` within 0.05 of the number, and exactly as the number when that is a whole number of tenths. |
| Pricing.ReduceTotals | backend/server.js:97-98 | The `reduce` over the line totals, started from a value, ends at that value plus the sum of the totals. |
| Pricing.SumAppend | backend/server.js:97-99 | The sum over two breakdowns taken together is the sum of their sums. |
| Pricing.SumNonNegative | backend/server.js:97-98 | With no negative line total, a breakdown's sum is not negative. |
| Pricing.ComputeTotals | backend/server.js:97-99 | The materials cost and services cost are the sums of their breakdowns, the proposal value is their sum, and an empty breakdown costs 0. |
| Pricing.ProposalValueCoversBoth | backend/server.js:97-99 | The proposal value is the sum over both breakdowns taken together as one list of line items. |
| Pricing.TotalsBounded | backend/server.js:97-99 | With no negative line total, every figure is non-negative and each cost is at most the proposal value. |
| Server.PricingSummaryPayload | backend/server.js:110-118 | The route's body passes both breakdowns through unchanged, next to their sums and the proposal value computed from them. |
| Server.PricingSummaryResponse | backend/server.js:110-118 | The route's body for the server's own data carries the server's two breakdowns unchanged, their sums, and the sum of those. |
| Server.DemoTotals | backend/server.js:83-99 | For the server's data the figures are 244900, 30600 and 275500, and the route sends exactly these. |
| Server.DemoLinesConsistent | backend/server.js:83-94 | The server's data has three material and three service lines; each total is quantity times unit price, or hours times rate, and none is negative. |
| PricingView.KFigure | src/components/pricing/PricingSummary.tsx:41 | A figure in thousands has a point before its last digit and starts with a minus sign exactly for a negative amount. |
| PricingView.KFigureIsToFixed | src/components/pricing/PricingSummary.tsx:41 | The figure computed on the whole-number amount is exactly what `(amount / 1000).toFixed(1)` writes when the quotient is taken exactly (see Left out for ties). |
| PricingView.KFigureReadsBack | src/components/pricing/PricingSummary.tsx:41 | A figure reads back under `parseFloat` as the value it shows. |
| PricingView.ShownValueNear | src/components/pricing/PricingSummary.tsx:41 | The value shown is within 0.05 of the amount in thousands, and equals it for a whole number of hundreds. |
| PricingView.Cards | src/components/pricing/PricingSummary.tsx:20-68 | The cards show the line counts of both breakdowns and the figures of the materials sum, the services sum and the sum over both breakdowns. |
| PricingView.SameDataAsServer | src/components/pricing/PricingSummary.tsx:6-22 | The view's breakdown is the server's, so its totals are the server's: 244900, 30600 and 275500. |
| PricingView.DemoCards | src/components/pricing/PricingSummary.tsx:41-68 | For the view's data the cards show 3 material lines, 3 service lines and figures that read as 244.9, 30.6 and 275.5. |
| PricingView.DemoFigureTexts | src/components/pricing/PricingSummary.tsx:41-68 | For the view's data the three cards' texts are exactly "244.9", "30.6" and "275.5". |
| PricingView.MaterialsFigureText | src/components/pricing/PricingSummary.tsx:41 | A materials cost of 244900 is written "244.9". |
| PricingView.ServicesFigureText | src/components/pricing/PricingSummary.tsx:54 | A services cost of 30600 is written "30.6". |
| PricingView.TotalFigureText | src/components/pricing/PricingSummary.tsx:68 | A proposal value of 275500 is written "275.5". |
| PricingView.ExactKFigure | src/components/pricing/PricingSummary.tsx:41 | A whole number of hundreds reads back from its figure as exactly the amount in thousands. |

## Left out

- Building the prompt, the model name, the generation settings and logging are left out. They do not affect the result once the reply is an input.
- The lazily created, cached client (`genAI`) is not modelled. Only whether a key exists decides whether the SDK is consulted.
- The SDK's behaviour is an input (`ModelCall`). Which step of the SDK throws is not distinguished, because every throw ends in the same `catch`.
- Numbers are exact reals, not IEEE-754 doubles: rounding of `parseFloat` and of `/ 1000` to the nearest double, and negative zero, are not modelled.
- `Math.round` of a value in [-0.5, 0) is -0 in JavaScript; the model's 0 is the same number once printed or compared.
- JsNumber.ToFixed1: covers only |x| < 10^21, because from there on `toFixed` falls back to the exponent form of `ToString`.
- PricingView.KFigure: requires the amount to be below 10^24 in magnitude, so that the amount in thousands stays in the range `toFixed` writes in plain digits.
- PricingView.KFigure is computed on the whole-number amount rather than through `ToFixed1`; PricingView.KFigureIsToFixed proves the two are equal.
- PricingView.KFigure: rounds a tie half up on the exact quotient, so for an amount ending in 50 it can differ from JavaScript, where `amount / 1000` is first rounded to a double. For 150 the model writes "0.2", but JavaScript's `(150 / 1000).toFixed(1)` gives "0.1", because the double nearest 0.15 lies just below it. The amounts in the literal breakdowns are whole hundreds, so none of their figures is affected.
- The `$` prefix, the `K` suffix and the page's other markup are rendering and are left out; only the text of each figure is modelled.
- The Express app, the other routes, CORS and the front end's fetch layer are plumbing around the same data and are left out.

## Findings

| source | as written | input that shows it | evidently intended | confidence | as-written member | corrected member |
|---|---|---|---|---|---|---|
| backend/openaiClient.js:62-67 | `parseFloat` of a reply with no numeric prefix is NaN, and `Math.min`, `Math.max` and `Math.round` carry NaN through, so the function resolves to NaN | the model replies "N/A" | a number between 0 and 100, as the doc comment at lines 25-30 promises; 85, like every other failure | not executed | SpecMatch.NotApplicableReplyIsNaN | SpecMatch.SpecMatchPercentageFixed |
