/**
 The summary figures drawn from the per-stock records (app.py, lines 182
 and 229-230): the number of stocks with a positive return ("Green
 Stocks") and the best and worst performer, chosen as Python's max and min
 choose them, the first of several equal candidates winning.
 */
module Highlights {
  import opened Wrappers
  import opened Portfolio
  import opened Aggregator

  /** The positions of the records whose return is positive. */
  ghost function PositiveIndices(rs: seq<Record>): set<nat> {
    set k: nat | k < |rs| && rs[k].ret > 0.0
  }

  /** The number of records whose return is positive, counted front to
      back. */
  function PositiveCount(rs: seq<Record>): (n: nat)
    ensures n <= |rs|
  {
    if |rs| == 0 then 0
    else PositiveCount(rs[..|rs| - 1]) + (if rs[|rs| - 1].ret > 0.0 then 1 else 0)
  }

  /** The count is the number of records with a positive return. */
  lemma {:induction false} PositiveCountIsSize(rs: seq<Record>)
    ensures PositiveCount(rs) == |PositiveIndices(rs)|
  {
    var n := |rs|;
    if n > 0 {
      PositiveCountIsSize(rs[..n - 1]);
      var prefix := PositiveIndices(rs[..n - 1]);
      assert n - 1 !in prefix;
      if rs[n - 1].ret > 0.0 {
        assert PositiveIndices(rs) == prefix + {n - 1};
      } else {
        assert PositiveIndices(rs) == prefix;
      }
    }
  }

  /** No stock is green exactly when no return is positive, and every stock
      is green exactly when every return is. */
  lemma {:induction false} PositiveCountExtremes(rs: seq<Record>)
    ensures PositiveCount(rs) == 0 <==> forall k :: 0 <= k < |rs| ==> rs[k].ret <= 0.0
    ensures PositiveCount(rs) == |rs| <==> forall k :: 0 <= k < |rs| ==> rs[k].ret > 0.0
  {
    var n := |rs|;
    if n > 0 {
      PositiveCountExtremes(rs[..n - 1]);
      assert forall k :: 0 <= k < n - 1 ==> rs[..n - 1][k] == rs[k];
    }
  }

  /** The position of a largest return, the first one when several are
      equal, as Python's max keeps its first candidate. */
  function BestPerformer(rs: seq<Record>): (b: nat)
    requires |rs| > 0
    ensures b < |rs|
    ensures forall k :: 0 <= k < |rs| ==> rs[k].ret <= rs[b].ret
    ensures forall k :: 0 <= k < b ==> rs[k].ret < rs[b].ret
  {
    if |rs| == 1 then 0
    else
      var b := BestPerformer(rs[..|rs| - 1]);
      assert forall k :: 0 <= k < |rs| - 1 ==> rs[..|rs| - 1][k] == rs[k];
      if rs[|rs| - 1].ret > rs[b].ret then |rs| - 1 else b
  }

  /** The position of a smallest return, the first one when several are
      equal, as Python's min keeps its first candidate. */
  function WorstPerformer(rs: seq<Record>): (w: nat)
    requires |rs| > 0
    ensures w < |rs|
    ensures forall k :: 0 <= k < |rs| ==> rs[w].ret <= rs[k].ret
    ensures forall k :: 0 <= k < w ==> rs[w].ret < rs[k].ret
  {
    if |rs| == 1 then 0
    else
      var w := WorstPerformer(rs[..|rs| - 1]);
      assert forall k :: 0 <= k < |rs| - 1 ==> rs[..|rs| - 1][k] == rs[k];
      if rs[|rs| - 1].ret < rs[w].ret then |rs| - 1 else w
  }

  /** What the Portfolio tab shows after one refresh. */
  datatype Summary = Summary(
    records: seq<Record>,   // the per-stock table, in portfolio order
    total: real,            // the portfolio return
    positive: nat,          // the green stocks
    count: nat,             // the stocks listed
    totalWeight: real,      // the sum of the raw allocations
    best: nat,              // position of the best performer in records
    worst: nat)             // position of the worst performer in records

  /** One refresh of the Portfolio tab (app.py, lines 167-234): nothing is
      computed for an empty portfolio; otherwise the aggregation runs over
      the holdings in order and the summary figures are drawn from it. */
  method RefreshTab(p: StockData, pages: seq<Option<string>>) returns (s: Option<Summary>)
    requires p.Valid() && |pages| == |p.keys|
    ensures s.None? <==> |p.keys| == 0
    ensures s.Some? ==>
              var hs := p.Holdings();
              var v := s.value;
              && v.records == RecordsOf(hs, ReturnsOf(pages), TotalAllocation(hs))
              && v.total == SumContributions(v.records)
              && v.positive == PositiveCount(v.records)
              && v.count == |hs| == |v.records|
              && v.totalWeight == TotalAllocation(hs)
              && v.best == BestPerformer(v.records)
              && v.worst == WorstPerformer(v.records)
  {
    var hs := p.Holdings();
    if |hs| == 0 {
      return None;
    }
    var records, total := CalculatePortfolioReturn(hs, ReturnsOf(pages));
    RecordsOfLength(hs, ReturnsOf(pages), TotalAllocation(hs));
    s := Some(Summary(records, total, PositiveCount(records), |records|, TotalAllocation(hs),
                      BestPerformer(records), WorstPerformer(records)));
  }
}
