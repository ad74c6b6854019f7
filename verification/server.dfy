/** The pricing part of backend/server.js: the `pricingSummary` literal,
    the totals computed from it once at start-up, and the JSON body that
    `GET /api/pricing-summary` sends. */
module Server {
  import opened Pricing

  /** `pricingSummary.materialsBreakdown`. */
  const MaterialsBreakdown: seq<LineItem> := [
    Material("Cisco ISR 4451", 5, 12500, 62500),
    Material("Cisco Catalyst 9300", 12, 8200, 98400),
    Material("Palo Alto PA-5220", 3, 28000, 84000)
  ]

  /** `pricingSummary.servicesBreakdown`. */
  const ServicesBreakdown: seq<LineItem> := [
    Service("Installation & Configuration", 120, 150, 18000),
    Service("Performance Testing", 40, 175, 7000),
    Service("Acceptance Testing", 32, 175, 5600)
  ]

  /** The object passed to `res.json`: the three figures and both
      breakdowns. */
  datatype PricingPayload = PricingPayload(
    materialCost: int,
    serviceCost: int,
    totalProposalValue: int,
    materialsBreakdown: seq<LineItem>,
    servicesBreakdown: seq<LineItem>)

  /** The payload built from a pricing summary: both breakdowns are passed
      through untouched, next to the sums of their totals and the sum of
      those. */
  function PricingSummaryPayload(materials: seq<LineItem>, services: seq<LineItem>): (p: PricingPayload)
    ensures p.materialsBreakdown == materials && p.servicesBreakdown == services
    ensures p.materialCost == Sum(materials) && p.serviceCost == Sum(services)
    ensures p.totalProposalValue == p.materialCost + p.serviceCost
    ensures p.totalProposalValue == Sum(p.materialsBreakdown + p.servicesBreakdown)
  {
    var t := ComputeTotals(materials, services);
    ProposalValueCoversBoth(materials, services);
    PricingPayload(t.materialCost, t.serviceCost, t.totalProposalValue, materials, services)
  }

  /** What the route answers, for the server's own data. */
  function PricingSummaryResponse(): (p: PricingPayload)
    ensures p.materialsBreakdown == MaterialsBreakdown && p.servicesBreakdown == ServicesBreakdown
    ensures p.materialCost == Sum(MaterialsBreakdown) && p.serviceCost == Sum(ServicesBreakdown)
    ensures p.totalProposalValue == p.materialCost + p.serviceCost
  {
    PricingSummaryPayload(MaterialsBreakdown, ServicesBreakdown)
  }

  /** For the server's data: materials 244900, services 30600, proposal
      value 275500. */
  lemma DemoTotals()
    ensures ComputeTotals(MaterialsBreakdown, ServicesBreakdown)
      == Totals(244900, 30600, 275500)
    ensures var p := PricingSummaryResponse();
      p.materialCost == 244900 && p.serviceCost == 30600 && p.totalProposalValue == 275500
  {
    assert Sum(MaterialsBreakdown) == 244900;
    assert Sum(ServicesBreakdown) == 30600;
  }

  /** The server's data is well formed: three material lines, three service
      lines, and every total is the product of its other fields (5 x 12500,
      12 x 8200, 3 x 28000; 120 x 150, 40 x 175, 32 x 175). */
  lemma DemoLinesConsistent()
    ensures |MaterialsBreakdown| == 3 && AllMaterials(MaterialsBreakdown)
    ensures |ServicesBreakdown| == 3 && AllServices(ServicesBreakdown)
    ensures AllConsistent(MaterialsBreakdown) && AllConsistent(ServicesBreakdown)
    ensures NonNegativeTotals(MaterialsBreakdown) && NonNegativeTotals(ServicesBreakdown)
  {
  }
}
