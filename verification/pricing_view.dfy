/** The figures src/components/pricing/PricingSummary.tsx shows: its own
    copy of the breakdown, the same two `reduce`-sums and their total, the
    number of lines in each breakdown, and each sum written in thousands
    with `(x / 1000).toFixed(1)`. */
module PricingView {
  import opened JsString
  import opened JsNumber
  import opened Pricing
  import Server

  /** `pricingBreakdown.materials`. */
  const Materials: seq<LineItem> := [
    Material("Cisco ISR 4451", 5, 12500, 62500),
    Material("Cisco Catalyst 9300", 12, 8200, 98400),
    Material("Palo Alto PA-5220", 3, 28000, 84000)
  ]

  /** `pricingBreakdown.services`. */
  const Services: seq<LineItem> := [
    Service("Installation & Configuration", 120, 150, 18000),
    Service("Performance Testing", 40, 175, 7000),
    Service("Acceptance Testing", 32, 175, 5600)
  ]

  /** 10^24: below it, an amount in thousands stays below 10^21, where
      `toFixed` writes plain decimal digits. */
  const KFigureLimit: int := 1_000_000_000_000_000_000_000_000

  /** The number of tenths of a thousand `(amount / 1000).toFixed(1)`
      shows: |amount| / 100, rounded half up. */
  function ShownTenths(amount: int): nat {
    ((if amount < 0 then -amount else amount) + 50) / 100
  }

  /** The value, in thousands, a K-figure shows. */
  function ShownValue(amount: int): real {
    var v := ShownTenths(amount) as real / 10.0;
    if amount < 0 then -v else v
  }

  /** `(amount / 1000).toFixed(1)`, worked out on the integer amount: a
      minus sign for a negative amount, then the shown tenths with a point
      before their last digit. KFigureIsToFixed shows it is the text
      `toFixed` writes. */
  function KFigure(amount: int): (s: string)
    requires -KFigureLimit < amount < KFigureLimit
    ensures |s| >= 3 && s[|s| - 2] == '.' && IsDigit(s[|s| - 1])
    ensures (s[0] == '-') <==> amount < 0
  {
    var u := PointBeforeLastDigit(ShownTenths(amount));
    if amount < 0 then ['-'] + u else u
  }

  /** The floor of p / 100 is the integer quotient. */
  lemma FloorOfHundredths(p: nat)
    ensures (p as real / 100.0).Floor == p / 100
  {
    var k, r := p / 100, p % 100;
    assert p == 100 * k + r;
    assert p as real / 100.0 == k as real + r as real / 100.0;
  }

  /** The tenths `toFixed(1)` picks for the magnitude of the amount in
      thousands are the shown tenths. */
  lemma NearestTenthsOfAmount(amount: int)
    ensures var magnitude := if amount < 0 then -amount else amount;
      NearestTenths(magnitude as real / 1000.0) == ShownTenths(amount)
  {
    var magnitude := if amount < 0 then -amount else amount;
    var a := magnitude as real / 1000.0;
    assert 10.0 * a + 0.5 == (magnitude + 50) as real / 100.0;
    FloorOfHundredths(magnitude + 50);
  }

  /** The K-figure is exactly what `toFixed(1)` writes for the amount in
      thousands. */
  lemma KFigureIsToFixed(amount: int)
    requires -KFigureLimit < amount < KFigureLimit
    ensures KFigure(amount) == ToFixed1(amount as real / 1000.0)
  {
    var x := amount as real / 1000.0;
    var magnitude := if amount < 0 then -amount else amount;
    assert (x < 0.0) == (amount < 0);
    assert (if x < 0.0 then -x else x) == magnitude as real / 1000.0;
    NearestTenthsOfAmount(amount);
    var u := PointBeforeLastDigit(ShownTenths(amount));
    assert PointBeforeLastDigit(NearestTenths(if x < 0.0 then -x else x)) == u;
    assert KFigure(amount) == if amount < 0 then ['-'] + u else u;
  }

  /** A K-figure reads back, under `parseFloat`, as the value it shows. */
  lemma KFigureReadsBack(amount: int)
    requires -KFigureLimit < amount < KFigureLimit
    ensures ParseFloat(KFigure(amount)) == Finite(ShownValue(amount))
  {
    var n := ShownTenths(amount);
    var u := PointBeforeLastDigit(n);
    PointBeforeLastDigitReadsBack(n);
    var v := n as real / 10.0;
    assert ShownValue(amount) == if amount < 0 then -v else v;
    SignedReadsBack(amount < 0, u, v);
    assert KFigure(amount) == if amount < 0 then ['-'] + u else u;
  }

  /** The value shown is the amount in thousands to within 0.05, and
      exactly that when the amount is a whole number of hundreds. */
  lemma ShownValueNear(amount: int)
    ensures -0.05 <= ShownValue(amount) - amount as real / 1000.0 <= 0.05
    ensures amount % 100 == 0 ==> ShownValue(amount) == amount as real / 1000.0
  {
    var magnitude := if amount < 0 then -amount else amount;
    var n := ShownTenths(amount);
    var p := magnitude + 50;
    assert p == 100 * n + p % 100;
    if amount % 100 == 0 {
      assert magnitude == 100 * (magnitude / 100);
      assert n == magnitude / 100;
    }
  }

  /** The three cards of the summary: each cost as a K-figure, and the line
      count under the materials and the services card. */
  datatype SummaryCards = SummaryCards(
    materialsFigure: string,
    materialsCount: nat,
    servicesFigure: string,
    servicesCount: nat,
    totalFigure: string)

  /** What the component computes and shows for a breakdown: the totals
      `materialsTotal`, `servicesTotal` and `grandTotal`, each written in
      thousands, and the two breakdowns' lengths. The figures are those of
      the sums of the line totals, the last one over both breakdowns. */
  function Cards(materials: seq<LineItem>, services: seq<LineItem>): (c: SummaryCards)
    requires -KFigureLimit < Sum(materials) < KFigureLimit
    requires -KFigureLimit < Sum(services) < KFigureLimit
    requires -KFigureLimit < Sum(materials) + Sum(services) < KFigureLimit
    ensures c.materialsCount == |materials| && c.servicesCount == |services|
    ensures -KFigureLimit < Sum(materials + services) < KFigureLimit
    ensures c.materialsFigure == KFigure(Sum(materials))
    ensures c.servicesFigure == KFigure(Sum(services))
    ensures c.totalFigure == KFigure(Sum(materials + services))
  {
    var t := ComputeTotals(materials, services);
    ProposalValueCoversBoth(materials, services);
    SummaryCards(KFigure(t.materialCost), |materials|, KFigure(t.serviceCost), |services|,
      KFigure(t.totalProposalValue))
  }

  /** The component's literal breakdown is the server's, so its totals are
      the server's: 244900, 30600 and 275500. */
  lemma SameDataAsServer()
    ensures Materials == Server.MaterialsBreakdown && Services == Server.ServicesBreakdown
    ensures ComputeTotals(Materials, Services) == Totals(244900, 30600, 275500)
  {
    Server.DemoTotals();
  }

  /** The cards show 244.9, 30.6 and 275.5 thousand, over 3 material lines
      and 3 service lines; since each total is a whole number of hundreds,
      each figure is exact. */
  lemma DemoCards(materials: seq<LineItem>, services: seq<LineItem>)
    requires materials == Materials && services == Services
    ensures var c := Cards(materials, services);
      && c.materialsCount == 3 && c.servicesCount == 3
      && ParseFloat(c.materialsFigure) == Finite(244.9)
      && ParseFloat(c.servicesFigure) == Finite(30.6)
      && ParseFloat(c.totalFigure) == Finite(275.5)
  {
    SameDataAsServer();
    var t := ComputeTotals(materials, services);
    assert t == Totals(244900, 30600, 275500);
    ExactKFigure(t.materialCost, 244.9);
    ExactKFigure(t.serviceCost, 30.6);
    ExactKFigure(t.totalProposalValue, 275.5);
  }

  /** The text of each card: exactly "244.9", "30.6" and "275.5". */
  lemma DemoFigureTexts(materials: seq<LineItem>, services: seq<LineItem>)
    requires materials == Materials && services == Services
    ensures var c := Cards(materials, services);
      && c.materialsFigure == "244.9"
      && c.servicesFigure == "30.6"
      && c.totalFigure == "275.5"
  {
    SameDataAsServer();
    var t := ComputeTotals(materials, services);
    assert t == Totals(244900, 30600, 275500);
    ProposalValueCoversBoth(materials, services);
    MaterialsFigureText(t.materialCost);
    ServicesFigureText(t.serviceCost);
    TotalFigureText(t.totalProposalValue);
  }

  lemma MaterialsFigureText(amount: int)
    requires amount == 244900
    ensures KFigure(amount) == "244.9"
  {
    assert ShownTenths(amount) == 2449;
    assert NatToDigits(244) == "244";
  }

  lemma ServicesFigureText(amount: int)
    requires amount == 30600
    ensures KFigure(amount) == "30.6"
  {
    assert ShownTenths(amount) == 306;
    assert NatToDigits(30) == "30";
  }

  lemma TotalFigureText(amount: int)
    requires amount == 275500
    ensures KFigure(amount) == "275.5"
  {
    assert ShownTenths(amount) == 2755;
    assert NatToDigits(275) == "275";
  }

  /** A whole number of hundreds reads back from its K-figure as exactly
      the amount in thousands. */
  lemma ExactKFigure(amount: int, thousands: real)
    requires -KFigureLimit < amount < KFigureLimit
    requires amount % 100 == 0 && amount as real == 1000.0 * thousands
    ensures ParseFloat(KFigure(amount)) == Finite(thousands)
  {
    ShownValueNear(amount);
    assert ShownValue(amount) == thousands;
    KFigureReadsBack(amount);
  }
}
