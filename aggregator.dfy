/**
 The portfolio aggregation (app.py, lines 126-157 and 189, 303):
 calculate_portfolio_return and the total-weight figures.

 The allocations are summed; each holding, in portfolio order, gets its
 return from its page, a normalized weight allocation / total (0 when the
 total is not positive) and a contribution return * weight; the
 contributions are accumulated and one record per holding is emitted.

 The page of each holding stands in for the HTTP fetch: pages[i] is the
 text fetched for holdings[i], or None when the fetch failed, and
 ReturnsOf(pages) are the returns fetch_stock_return gives for them.
 */
module Aggregator {
  import opened Wrappers
  import opened Portfolio
  import QuoteExtractor

  /** One row of the per-stock table, with the numbers it displays. */
  datatype Record = Record(stock: string, ret: real, weight: real, contribution: real)

  /** The allocations of all holdings added up. */
  function TotalAllocation(hs: seq<Holding>): real {
    if |hs| == 0 then 0.0 else TotalAllocation(hs[..|hs| - 1]) + hs[|hs| - 1].allocation
  }

  /** Non-negative weights give a non-negative total, and positive weights
      (as the input widgets enforce) a positive total for any non-empty
      portfolio. */
  lemma {:induction false} TotalAllocationSign(hs: seq<Holding>)
    ensures (forall k :: 0 <= k < |hs| ==> hs[k].allocation >= 0.0) ==> TotalAllocation(hs) >= 0.0
    ensures |hs| > 0 && (forall k :: 0 <= k < |hs| ==> hs[k].allocation > 0.0) ==> TotalAllocation(hs) > 0.0
  {
    var n := |hs|;
    if n > 0 {
      TotalAllocationSign(hs[..n - 1]);
      assert forall k :: 0 <= k < n - 1 ==> hs[..n - 1][k] == hs[k];
    }
  }

  /** Appending holdings adds their allocations to the total. */
  lemma {:induction false} TotalAllocationAppend(a: seq<Holding>, b: seq<Holding>)
    ensures TotalAllocation(a + b) == TotalAllocation(a) + TotalAllocation(b)
  {
    if |b| > 0 {
      var n := |b|;
      var c := a + b;
      TotalAllocationAppend(a, b[..n - 1]);
      assert c[..|c| - 1] == a + b[..n - 1];
      assert c[|c| - 1] == b[n - 1];
    } else {
      assert a + b == a;
    }
  }

  /** The normalized weight, guarded against a zero or negative total: the
      share of the total an allocation makes up, or 0 when no share can be
      taken. */
  function Normalized(allocation: real, total: real): real {
    if total > 0.0 then allocation / total else 0.0
  }

  /** The normalized weight times a positive total is the allocation; it
      lies between 0 and 1 for an allocation between 0 and the total; and
      it is 0 when the total is not positive. */
  lemma NormalizedShare(allocation: real, total: real)
    ensures total > 0.0 ==> Normalized(allocation, total) * total == allocation
    ensures total > 0.0 && 0.0 <= allocation <= total ==> 0.0 <= Normalized(allocation, total) <= 1.0
    ensures total <= 0.0 ==> Normalized(allocation, total) == 0.0
  {
    if total > 0.0 {
      var w := allocation / total;
      assert w * total == allocation;
      if 0.0 <= allocation <= total {
        assert w <= 1.0 by {
          assert w * total <= 1.0 * total;
        }
      }
    }
  }

  /** The return of each holding, read from its fetched page; a failed
      fetch gives 0.0 for that holding and leaves the others alone. */
  function ReturnsOf(pages: seq<Option<string>>): (rets: seq<real>)
    ensures |rets| == |pages|
    ensures forall k :: 0 <= k < |pages| ==> rets[k] == QuoteExtractor.FetchReturn(pages[k])
    ensures forall k :: 0 <= k < |pages| && pages[k].None? ==> rets[k] == 0.0
  {
    seq(|pages|, k requires 0 <= k < |pages| => QuoteExtractor.FetchReturn(pages[k]))
  }

  /** The record of one holding, given its return and the total allocation. */
  function RecordOf(h: Holding, ret: real, total: real): Record {
    Record(h.symbol, ret, h.allocation, ret * Normalized(h.allocation, total))
  }

  /** A record names its holding, its return and its raw allocation; its
      contribution times a positive total is return times allocation, and
      it is 0 when the total is not positive. */
  lemma RecordOfContribution(h: Holding, ret: real, total: real)
    ensures var r := RecordOf(h, ret, total);
      && r.stock == h.symbol && r.ret == ret && r.weight == h.allocation
      && (total > 0.0 ==> r.contribution * total == ret * h.allocation)
      && (total <= 0.0 ==> r.contribution == 0.0)
  {
    var w := Normalized(h.allocation, total);
    NormalizedShare(h.allocation, total);
    assert (ret * w) * total == ret * (w * total);
  }

  /** The records of the holdings, in portfolio order. */
  function RecordsOf(hs: seq<Holding>, rets: seq<real>, total: real): seq<Record>
    requires |rets| == |hs|
  {
    if |hs| == 0 then []
    else RecordsOf(hs[..|hs| - 1], rets[..|hs| - 1], total)
         + [RecordOf(hs[|hs| - 1], rets[|hs| - 1], total)]
  }

  /** The sum of the contributions of the records. */
  function SumContributions(rs: seq<Record>): real {
    if |rs| == 0 then 0.0 else SumContributions(rs[..|rs| - 1]) + rs[|rs| - 1].contribution
  }

  /** A table whose every contribution is 0 sums to 0. */
  lemma {:induction false} SumContributionsZero(rs: seq<Record>)
    requires forall k :: 0 <= k < |rs| ==> rs[k].contribution == 0.0
    ensures SumContributions(rs) == 0.0
  {
    var n := |rs|;
    if n > 0 {
      assert forall k :: 0 <= k < n - 1 ==> rs[..n - 1][k] == rs[k];
      SumContributionsZero(rs[..n - 1]);
    }
  }

  /** The sum over two tables one after the other is the sum of their sums. */
  lemma {:induction false} SumContributionsAppend(a: seq<Record>, b: seq<Record>)
    ensures SumContributions(a + b) == SumContributions(a) + SumContributions(b)
  {
    if |b| > 0 {
      var n := |b|;
      var c := a + b;
      SumContributionsAppend(a, b[..n - 1]);
      assert c[..|c| - 1] == a + b[..n - 1];
      assert c[|c| - 1] == b[n - 1];
    } else {
      assert a + b == a;
    }
  }

  /** The returns of the holdings weighted by their raw allocations. */
  function WeightedSum(hs: seq<Holding>, rets: seq<real>): real
    requires |rets| == |hs|
  {
    if |hs| == 0 then 0.0
    else WeightedSum(hs[..|hs| - 1], rets[..|hs| - 1]) + rets[|hs| - 1] * hs[|hs| - 1].allocation
  }

  /** The sum of the normalized weights. */
  function SumNormalized(hs: seq<Holding>, total: real): real {
    if |hs| == 0 then 0.0 else SumNormalized(hs[..|hs| - 1], total) + Normalized(hs[|hs| - 1].allocation, total)
  }

  /** calculate_portfolio_return: one record per holding, in order, and the
      accumulated weighted return, which is the sum of the contributions.
      rets[i] is what fetch_stock_return gave for holdings[i]. */
  method CalculatePortfolioReturn(holdings: seq<Holding>, rets: seq<real>)
    returns (records: seq<Record>, total: real)
    requires |rets| == |holdings|
    ensures records == RecordsOf(holdings, rets, TotalAllocation(holdings))
    ensures total == SumContributions(records)
  {
    var totalAllocation := TotalAllocation(holdings);
    records := [];
    total := 0.0;
    var i := 0;
    while i < |holdings|
      invariant 0 <= i <= |holdings|
      invariant records == RecordsOf(holdings[..i], rets[..i], totalAllocation)
      invariant total == SumContributions(records)
    {
      var ret := rets[i];
      var weight := if totalAllocation > 0.0 then holdings[i].allocation / totalAllocation else 0.0;
      var contribution := ret * weight;
      var next := Record(holdings[i].symbol, ret, holdings[i].allocation, contribution);
      assert next == RecordOf(holdings[i], rets[i], totalAllocation);
      RecordsOfSnoc(holdings, rets, totalAllocation, i);
      SumContributionsSnoc(records, next);
      total := total + contribution;
      records := records + [next];
      i := i + 1;
    }
    assert holdings[..i] == holdings && rets[..i] == rets;
  }

  /** Extending the holdings by one appends one record. */
  lemma RecordsOfSnoc(hs: seq<Holding>, rets: seq<real>, total: real, i: nat)
    requires |rets| == |hs| && i < |hs|
    ensures RecordsOf(hs[..i + 1], rets[..i + 1], total)
            == RecordsOf(hs[..i], rets[..i], total) + [RecordOf(hs[i], rets[i], total)]
  {
    assert hs[..i + 1][..i] == hs[..i] && rets[..i + 1][..i] == rets[..i];
  }

  lemma SumContributionsSnoc(rs: seq<Record>, r: Record)
    ensures SumContributions(rs + [r]) == SumContributions(rs) + r.contribution
  {
    assert (rs + [r])[..|rs|] == rs;
  }

  /** There is one record per holding, in portfolio order, carrying the
      holding's symbol and raw allocation, its return and its weighted
      contribution. */
  lemma {:induction false} RecordsOfAt(hs: seq<Holding>, rets: seq<real>, total: real, k: nat)
    requires |rets| == |hs| && k < |hs|
    ensures |RecordsOf(hs, rets, total)| == |hs|
    ensures RecordsOf(hs, rets, total)[k]
            == Record(hs[k].symbol, rets[k], hs[k].allocation, rets[k] * Normalized(hs[k].allocation, total))
  {
    var n := |hs|;
    var pre := RecordsOf(hs[..n - 1], rets[..n - 1], total);
    RecordsOfLength(hs[..n - 1], rets[..n - 1], total);
    if k < n - 1 {
      RecordsOfAt(hs[..n - 1], rets[..n - 1], total, k);
      assert hs[..n - 1][k] == hs[k] && rets[..n - 1][k] == rets[k];
    }
  }

  lemma {:induction false} RecordsOfLength(hs: seq<Holding>, rets: seq<real>, total: real)
    requires |rets| == |hs|
    ensures |RecordsOf(hs, rets, total)| == |hs|
  {
    if |hs| > 0 {
      RecordsOfLength(hs[..|hs| - 1], rets[..|hs| - 1], total);
    }
  }

  /** An empty portfolio yields no records and a zero return. */
  lemma EmptyPortfolio(rets: seq<real>, total: real)
    requires |rets| == 0
    ensures RecordsOf([], rets, total) == [] && SumContributions(RecordsOf([], rets, total)) == 0.0
  {
  }

  /** When the allocations do not sum to a positive amount every
      contribution is 0, and so is the aggregate return. */
  lemma NonPositiveTotalGivesZero(hs: seq<Holding>, rets: seq<real>, total: real)
    requires |rets| == |hs| && total <= 0.0
    ensures |RecordsOf(hs, rets, total)| == |hs|
    ensures forall k :: 0 <= k < |hs| ==> RecordsOf(hs, rets, total)[k].contribution == 0.0
    ensures SumContributions(RecordsOf(hs, rets, total)) == 0.0
  {
    var rs := RecordsOf(hs, rets, total);
    RecordsOfLength(hs, rets, total);
    forall k | 0 <= k < |hs| ensures rs[k].contribution == 0.0 {
      RecordsOfAt(hs, rets, total, k);
      RecordOfContribution(hs[k], rets[k], total);
    }
    SumContributionsZero(rs);
  }

  lemma DivAdd(a: real, b: real, t: real)
    requires t > 0.0
    ensures a / t + b / t == (a + b) / t
  {
  }

  lemma MulDiv(r: real, a: real, t: real)
    requires t > 0.0
    ensures r * (a / t) == (r * a) / t
  {
  }

  lemma MulAdd(c: real, a: real, b: real)
    ensures c * a + c * b == c * (a + b)
  {
  }

  lemma MulDivCancel(c: real, t: real)
    requires t > 0.0
    ensures c * t / t == c
  {
  }

  lemma DivSelf(t: real)
    requires t > 0.0
    ensures t / t == 1.0
  {
  }

  /** The normalized weights add up to the allocations over the total. */
  lemma {:induction false} SumNormalizedScales(hs: seq<Holding>, total: real)
    requires total > 0.0
    ensures SumNormalized(hs, total) == TotalAllocation(hs) / total
  {
    var n := |hs|;
    if n > 0 {
      SumNormalizedScales(hs[..n - 1], total);
      DivAdd(TotalAllocation(hs[..n - 1]), hs[n - 1].allocation, total);
    }
  }

  /** With a positive total the normalized weights sum to 1. */
  lemma {:induction false} NormalizedWeightsSumToOne(hs: seq<Holding>)
    requires TotalAllocation(hs) > 0.0
    ensures SumNormalized(hs, TotalAllocation(hs)) == 1.0
  {
    SumNormalizedScales(hs, TotalAllocation(hs));
    DivSelf(TotalAllocation(hs));
  }

  /** The sum of the contributions is the allocation-weighted sum of the
      returns divided by the total. */
  lemma {:induction false} ContributionsScale(hs: seq<Holding>, rets: seq<real>, total: real)
    requires |rets| == |hs| && total > 0.0
    ensures SumContributions(RecordsOf(hs, rets, total)) == WeightedSum(hs, rets) / total
  {
    var n := |hs|;
    if n > 0 {
      ContributionsScale(hs[..n - 1], rets[..n - 1], total);
      RecordsOfLength(hs[..n - 1], rets[..n - 1], total);
      var w, r, a := WeightedSum(hs[..n - 1], rets[..n - 1]), rets[n - 1], hs[n - 1].allocation;
      MulDiv(r, a, total);
      DivAdd(w, r * a, total);
    }
  }

  /** The aggregate return is the allocation-weighted average of the
      returns: sum(return_i * alloc_i) / sum(alloc_i). */
  lemma {:induction false} WeightedAverage(hs: seq<Holding>, rets: seq<real>)
    requires |rets| == |hs| && TotalAllocation(hs) > 0.0
    ensures SumContributions(RecordsOf(hs, rets, TotalAllocation(hs)))
            == WeightedSum(hs, rets) / TotalAllocation(hs)
  {
    ContributionsScale(hs, rets, TotalAllocation(hs));
  }

  /** When every holding returns the same figure c (and the allocations sum
      to a positive amount) the portfolio returns c. */
  lemma {:induction false} UniformReturn(hs: seq<Holding>, rets: seq<real>, c: real)
    requires |rets| == |hs| && TotalAllocation(hs) > 0.0
    requires forall k :: 0 <= k < |rets| ==> rets[k] == c
    ensures SumContributions(RecordsOf(hs, rets, TotalAllocation(hs))) == c
  {
    var t := TotalAllocation(hs);
    UniformWeightedSum(hs, rets, c);
    assert WeightedSum(hs, rets) == c * t;
    WeightedAverage(hs, rets);
    assert SumContributions(RecordsOf(hs, rets, t)) == (c * t) / t;
    MulDivCancel(c, t);
  }

  lemma {:induction false} UniformWeightedSum(hs: seq<Holding>, rets: seq<real>, c: real)
    requires |rets| == |hs|
    requires forall k :: 0 <= k < |rets| ==> rets[k] == c
    ensures WeightedSum(hs, rets) == c * TotalAllocation(hs)
  {
    var n := |hs|;
    if n > 0 {
      UniformWeightedSum(hs[..n - 1], rets[..n - 1], c);
      MulAdd(c, TotalAllocation(hs[..n - 1]), hs[n - 1].allocation);
    }
  }

  /** The total-weight warning of the Manage tab: an empty portfolio shows
      no summary and so no warning; otherwise it is shown when the
      allocations are more than one point away from 100. */
  function WeightWarning(hs: seq<Holding>): (warn: bool)
    ensures warn <==> |hs| > 0 && (TotalAllocation(hs) < 99.0 || TotalAllocation(hs) > 101.0)
  {
    if |hs| == 0 then false
    else
      var t := TotalAllocation(hs);
      (if t - 100.0 < 0.0 then 100.0 - t else t - 100.0) > 1.0
  }
}
