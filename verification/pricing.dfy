/** The pricing aggregation shared by backend/server.js and
    src/components/pricing/PricingSummary.tsx: line items of a materials and
    a services breakdown, the `reduce` that adds up their totals, and the
    three figures derived from the two sums. */
module Pricing {

  /** A line of the materials breakdown (quantity times unit price) or of
      the services breakdown (hours times rate), with its stated total. */
  datatype LineItem =
    | Material(item: string, quantity: int, unitPrice: int, total: int)
    | Service(item: string, hours: int, rate: int, total: int)

  /** The sum of the `total`s, first item first: the reference meaning of
      "the cost of a breakdown". */
  function Sum(items: seq<LineItem>): int {
    if |items| == 0 then 0 else items[0].total + Sum(items[1..])
  }

  /** `items.reduce((sum, item) => sum + item.total, acc)`: a left fold that
      adds each item's total to the running sum in order. It ends with the
      start value plus the sum of the totals. */
  function ReduceTotals(items: seq<LineItem>, acc: int): (r: int)
    ensures r == acc + Sum(items)
  {
    if |items| == 0 then acc else ReduceTotals(items[1..], acc + items[0].total)
  }

  /** The sum over two breakdowns one after the other is the sum of the two
      sums. */
  lemma {:induction false} SumAppend(a: seq<LineItem>, b: seq<LineItem>)
    ensures Sum(a + b) == Sum(a) + Sum(b)
  {
    if |a| == 0 {
      assert a + b == b;
    } else {
      assert (a + b)[1..] == a[1..] + b;
      SumAppend(a[1..], b);
    }
  }

  predicate NonNegativeTotals(items: seq<LineItem>) {
    forall i :: 0 <= i < |items| ==> items[i].total >= 0
  }

  /** With no negative line totals the sum is not negative. */
  lemma {:induction false} SumNonNegative(items: seq<LineItem>)
    requires NonNegativeTotals(items)
    ensures Sum(items) >= 0
  {
    if |items| > 0 {
      assert NonNegativeTotals(items[1..]) by {
        forall i | 0 <= i < |items| - 1 ensures items[1..][i].total >= 0 {
          assert items[1..][i] == items[i + 1];
        }
      }
      SumNonNegative(items[1..]);
    }
  }

  /** The three figures both the server and the pricing view compute. */
  datatype Totals = Totals(materialCost: int, serviceCost: int, totalProposalValue: int)

  /** The materials cost and the services cost, each a `reduce` from 0, and
      the proposal value as their sum; an empty breakdown costs 0. */
  function ComputeTotals(materials: seq<LineItem>, services: seq<LineItem>): (t: Totals)
    ensures t.materialCost == Sum(materials)
    ensures t.serviceCost == Sum(services)
    ensures t.totalProposalValue == t.materialCost + t.serviceCost
    ensures |materials| == 0 ==> t.materialCost == 0
    ensures |services| == 0 ==> t.serviceCost == 0
  {
    var materialCost := ReduceTotals(materials, 0);
    var serviceCost := ReduceTotals(services, 0);
    Totals(materialCost, serviceCost, materialCost + serviceCost)
  }

  /** The proposal value is the cost of both breakdowns taken together, as
      if they were one list of line items. */
  lemma ProposalValueCoversBoth(materials: seq<LineItem>, services: seq<LineItem>)
    ensures ComputeTotals(materials, services).totalProposalValue == Sum(materials + services)
  {
    SumAppend(materials, services);
  }

  /** With no negative line totals, every figure is non-negative and each
      part is at most the proposal value. */
  lemma TotalsBounded(materials: seq<LineItem>, services: seq<LineItem>)
    requires NonNegativeTotals(materials) && NonNegativeTotals(services)
    ensures var t := ComputeTotals(materials, services);
      && 0 <= t.materialCost <= t.totalProposalValue
      && 0 <= t.serviceCost <= t.totalProposalValue
  {
    SumNonNegative(materials);
    SumNonNegative(services);
  }

  /** A line whose stated total is what its other fields multiply to. The
      code never recomputes a total; this is a property of the data. */
  predicate Consistent(line: LineItem) {
    match line
    case Material(_, quantity, unitPrice, total) => total == quantity * unitPrice
    case Service(_, hours, rate, total) => total == hours * rate
  }

  predicate AllMaterials(items: seq<LineItem>) {
    forall i :: 0 <= i < |items| ==> items[i].Material?
  }

  predicate AllServices(items: seq<LineItem>) {
    forall i :: 0 <= i < |items| ==> items[i].Service?
  }

  predicate AllConsistent(items: seq<LineItem>) {
    forall i :: 0 <= i < |items| ==> Consistent(items[i])
  }
}
