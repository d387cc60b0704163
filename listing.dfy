/**
 * The fund list page: an optional strategy filter, the number of funds shown
 * and the total of their assets under management.
 */
module Listing {
  import opened Wrappers
  import opened Decimals
  import opened Funds

  /** The funds of one strategy, in table order. */
  function WithStrategy(funds: seq<Fund>, strategy: string): (r: seq<Fund>)
    ensures |r| <= |funds|
    ensures forall k :: 0 <= k < |r| ==> r[k].strategy == strategy
  {
    if funds == [] then []
    else (if funds[0].strategy == strategy then [funds[0]] else []) + WithStrategy(funds[1..], strategy)
  }

  /** The funds the list shows: every fund for an empty filter, otherwise those
      whose strategy equals the filter. */
  function SelectFunds(funds: seq<Fund>, strategy: string): (r: seq<Fund>)
    ensures strategy == "" ==> r == funds
    ensures strategy != "" ==> forall k :: 0 <= k < |r| ==> r[k].strategy == strategy
  {
    if strategy == "" then funds else WithStrategy(funds, strategy)
  }

  /** What a fund adds to the total: its amount, or nothing when it has none. */
  function AumValue(f: Fund): real {
    if f.aum.Some? then Value(f.aum.value) else 0.0
  }

  /** `Sum('aum')` over the funds, where null amounts are skipped, together with
      the `or Decimal('0')` default for a sum over no amounts at all. */
  function TotalAum(funds: seq<Fund>): real {
    if funds == [] then 0.0 else TotalAum(funds[..|funds| - 1]) + AumValue(funds[|funds| - 1])
  }

  /** The two figures the page shows. */
  datatype Summary = Summary(count: nat, totalAum: real)

  function Summarize(funds: seq<Fund>, strategy: string): (r: Summary)
    ensures r.count <= |funds|
  {
    var shown := SelectFunds(funds, strategy);
    Summary(|shown|, TotalAum(shown))
  }

  /** The filter keeps every fund of the strategy as often as it occurs, and no other fund. */
  lemma {:induction false} WithStrategyKeepsExactly(funds: seq<Fund>, strategy: string, f: Fund)
    ensures multiset(WithStrategy(funds, strategy))[f] == if f.strategy == strategy then multiset(funds)[f] else 0
  {
    if funds != [] {
      var head := if funds[0].strategy == strategy then [funds[0]] else [];
      var rest := funds[1..];
      WithStrategyKeepsExactly(rest, strategy, f);
      assert funds == [funds[0]] + rest;
      assert multiset(funds) == multiset([funds[0]]) + multiset(rest);
      assert multiset(WithStrategy(funds, strategy)) == multiset(head) + multiset(WithStrategy(rest, strategy));
    }
  }

  /** Filtering a concatenation filters each part. */
  lemma {:induction false} WithStrategyAppend(a: seq<Fund>, b: seq<Fund>, strategy: string)
    ensures WithStrategy(a + b, strategy) == WithStrategy(a, strategy) + WithStrategy(b, strategy)
  {
    if a == [] {
      assert a + b == b;
    } else {
      assert (a + b)[0] == a[0];
      assert (a + b)[1..] == a[1..] + b;
      WithStrategyAppend(a[1..], b, strategy);
    }
  }

  /** Filtering twice by the same strategy is filtering once. */
  lemma {:induction false} SelectFundsIdempotent(funds: seq<Fund>, strategy: string)
    ensures SelectFunds(SelectFunds(funds, strategy), strategy) == SelectFunds(funds, strategy)
  {
    if strategy != "" {
      WithStrategyUnchanged(WithStrategy(funds, strategy), strategy);
    }
  }

  /** A sequence whose funds all have the strategy passes the filter whole. */
  lemma {:induction false} WithStrategyUnchanged(funds: seq<Fund>, strategy: string)
    requires forall k :: 0 <= k < |funds| ==> funds[k].strategy == strategy
    ensures WithStrategy(funds, strategy) == funds
  {
    if funds != [] {
      WithStrategyUnchanged(funds[1..], strategy);
    }
  }

  /** The total of a concatenation is the sum of the totals. */
  lemma {:induction false} TotalAumAppend(a: seq<Fund>, b: seq<Fund>)
    ensures TotalAum(a + b) == TotalAum(a) + TotalAum(b)
  {
    if b != [] {
      var c := a + b;
      assert c[..|c| - 1] == a + b[..|b| - 1];
      TotalAumAppend(a, b[..|b| - 1]);
    } else {
      assert a + b == a;
    }
  }

  /** Funds without an amount add nothing; with none at all the total is 0. */
  lemma {:induction false} TotalAumWithoutAmounts(funds: seq<Fund>)
    requires forall k :: 0 <= k < |funds| ==> funds[k].aum.None?
    ensures TotalAum(funds) == 0.0
  {
    if funds != [] {
      TotalAumWithoutAmounts(funds[..|funds| - 1]);
    }
  }

  /** With no amount negative, the total is not negative. */
  lemma {:induction false} TotalAumNonNegative(funds: seq<Fund>)
    requires forall k :: 0 <= k < |funds| ==> funds[k].aum.None? || !funds[k].aum.value.negative
    ensures TotalAum(funds) >= 0.0
  {
    if funds != [] {
      TotalAumNonNegative(funds[..|funds| - 1]);
      var f := funds[|funds| - 1];
      if f.aum.Some? {
        var d := f.aum.value;
        assert Value(d) == d.coefficient as real / Pow10(d.places) as real;
      }
    }
  }

  /** An empty filter counts and totals every fund. */
  lemma SummarizeUnfiltered(funds: seq<Fund>)
    ensures Summarize(funds, "") == Summary(|funds|, TotalAum(funds))
  {
  }

  /** A filter no fund matches shows a count of 0 and a total of 0. */
  lemma {:induction false} SummarizeNoMatch(funds: seq<Fund>, strategy: string)
    requires strategy != ""
    requires forall k :: 0 <= k < |funds| ==> funds[k].strategy != strategy
    ensures Summarize(funds, strategy) == Summary(0, 0.0)
  {
    var shown := WithStrategy(funds, strategy);
    if shown != [] {
      var f := shown[0];
      WithStrategyKeepsExactly(funds, strategy, f);
    }
  }
}
