/** What the adjusted series mean for a holder of the stock: returns in terms of the corporate actions
    themselves, the anchors of both series, and which rows are published. */
module HolderReturns {
  import opened Wrappers
  import opened CorporateActions
  import opened AdjustedSeries

  // ---------------------------------------------------------------------------
  // What a day's actions give and ask
  // ---------------------------------------------------------------------------

  /** The action changes the holding on bar `i`: it goes through, its ex-date lies within the bars, and
      bar `i` is the first one on or after it. */
  ghost predicate TakesEffect(bars: seq<Bar>, a: Action, i: nat)
    requires i < |bars|
  {
    && a.exDate.Some? && (a.Distribution? ==> a.implemented)
    && bars[0].date <= a.exDate.value <= bars[i].date && (i > 0 ==> bars[i - 1].date < a.exDate.value)
  }

  /** Cash paid per share held. */
  function CashOf(a: Action): real { if a.Distribution? then a.cash.GetOr(0.0) else 0.0 }

  /** Shares given per share held. */
  function SharesOf(a: Action): real { if a.Distribution? then a.bonus.GetOr(0.0) + a.transfer.GetOr(0.0) else 0.0 }

  /** Shares bought per share held, and what is paid for them. */
  function RightsOf(a: Action): real { if a.RightsIssue? then a.ratio else 0.0 }

  function CostOf(a: Action): real { if a.RightsIssue? then a.ratio * a.price else 0.0 }

  /** The sum of one field over the actions that take effect on bar `i`. */
  ghost function OnBar(bars: seq<Bar>, actions: seq<Action>, i: nat, field: Action -> real): real
    requires i < |bars|
  {
    if |actions| == 0 then 0.0
    else
      var n := |actions| - 1;
      OnBar(bars, actions[..n], i, field) + if TakesEffect(bars, actions[n], i) then field(actions[n]) else 0.0
  }

  lemma LandsWhereItTakesEffect(bars: seq<Bar>, a: Action, i: nat)
    requires i < |bars| && Ordered(bars)
    ensures LandsOn(bars, a, i) <==> TakesEffect(bars, a, i)
  {
    if TakesEffect(bars, a, i) { PositionIsFirst(bars, a.exDate.value, i); }
    if LandsOn(bars, a, i) && i > 0 {
      assert bars[i - 1].date < a.exDate.value;
    }
  }

  lemma {:induction false} TotalIsSums(bars: seq<Bar>, actions: seq<Action>, i: nat)
    requires i < |bars| && Ordered(bars)
    ensures Total(bars, actions, i)
         == Event(OnBar(bars, actions, i, CashOf), OnBar(bars, actions, i, SharesOf), OnBar(bars, actions, i, RightsOf),
                  OnBar(bars, actions, i, CostOf))
  {
    hide LandsOn, TakesEffect, Ordered;
    if |actions| > 0 {
      var n := |actions| - 1;
      TotalIsSums(bars, actions[..n], i);
      LandsWhereItTakesEffect(bars, actions[n], i);
    }
  }

  lemma {:induction false} NothingTakesEffect(bars: seq<Bar>, actions: seq<Action>, i: nat, field: Action -> real)
    requires i < |bars| && forall k :: 0 <= k < |actions| ==> !TakesEffect(bars, actions[k], i)
    ensures OnBar(bars, actions, i, field) == 0.0
  {
    hide TakesEffect;
    if |actions| > 0 {
      NothingTakesEffect(bars, actions[..|actions| - 1], i, field);
    }
  }

  lemma NoEventNoSums(bars: seq<Bar>, actions: seq<Action>, i: nat)
    requires i < |bars| && Ordered(bars) && !HasEvent(bars, actions, i)
    ensures OnBar(bars, actions, i, CashOf) == OnBar(bars, actions, i, SharesOf) == 0.0
    ensures OnBar(bars, actions, i, RightsOf) == OnBar(bars, actions, i, CostOf) == 0.0
  {
    forall k | 0 <= k < |actions| ensures !TakesEffect(bars, actions[k], i) { LandsWhereItTakesEffect(bars, actions[k], i); }
    hide TakesEffect, LandsOn, HasEvent;
    NothingTakesEffect(bars, actions, i, CashOf);
    NothingTakesEffect(bars, actions, i, SharesOf);
    NothingTakesEffect(bars, actions, i, RightsOf);
    NothingTakesEffect(bars, actions, i, CostOf);
  }

  /** One share at the previous close is worth, at the day's base, what it became: the shares it turned
      into and the cash it paid, less what the new shares cost. */
  lemma BaseKeepsWealth(bars: seq<Bar>, actions: seq<Action>, deferMissing: bool, aligned: map<int, Event>, factors: map<int, real>, i: nat)
    requires 0 < i < |bars| && Ordered(bars) && bars[i].previousClose.Some?
    requires Aligned(bars, actions, aligned) && (forall date :: date in aligned ==> Diluting(aligned[date]))
    requires AreFactors(bars, aligned, deferMissing, factors)
    ensures Base(bars, factors, i) * (1.0 + OnBar(bars, actions, i, SharesOf) + OnBar(bars, actions, i, RightsOf)) + OnBar(bars, actions, i, CashOf)
         == bars[i].previousClose.value + OnBar(bars, actions, i, CostOf)
  {
    hide Base, AreFactors, HasEvent, Total, OnBar, Ordered;
    BaseIsTheoretical(bars, aligned, deferMissing, factors, i);
    TotalIsSums(bars, actions, i);
    if bars[i].date in aligned {
      assert Diluting(aligned[bars[i].date]);
    } else {
      NoEventNoSums(bars, actions, i);
    }
  }

  /** The holder's return: a day's published return, in either series, is what the shares and the cash at
      the close earn on the previous close and the money put in. */
  lemma ReturnIsTheHolders(bars: seq<Bar>, actions: seq<Action>, deferMissing: bool, aligned: map<int, Event>, factors: map<int, real>,
                           adjustment: Adjustment, i: nat)
    requires 0 < i < |bars| && Ordered(bars) && PositiveFactors(factors)
    requires Aligned(bars, actions, aligned) && (forall date :: date in aligned ==> Diluting(aligned[date]))
    requires AreFactors(bars, aligned, deferMissing, factors)
    ensures
      var r := TotalReturn(AdjustedAt(bars, factors, adjustment, i));
      r.Some? ==>
        && bars[i].close.Some? && bars[i].previousClose.Some?
        && bars[i].close.value * (1.0 + OnBar(bars, actions, i, SharesOf) + OnBar(bars, actions, i, RightsOf))
           == (1.0 + r.value) * (bars[i].previousClose.value + OnBar(bars, actions, i, CostOf) - OnBar(bars, actions, i, CashOf))
  {
    hide Base, AreFactors, Aligned, OnBar, Ordered, TotalReturn, AdjustedAt, PositiveFactors;
    ReturnIsCloseOverBase(bars, factors, adjustment, i);
    var r := TotalReturn(AdjustedAt(bars, factors, adjustment, i));
    if r.Some? {
      BaseKeepsWealth(bars, actions, deferMissing, aligned, factors, i);
      Earned(bars[i].close.value, Base(bars, factors, i), 1.0 + OnBar(bars, actions, i, SharesOf) + OnBar(bars, actions, i, RightsOf),
             bars[i].previousClose.value + OnBar(bars, actions, i, CostOf) - OnBar(bars, actions, i, CashOf), 1.0 + r.value);
    }
  }

  lemma Earned(close: real, base: real, shares: real, paid: real, growth: real)
    requires base > 0.0 && growth == close / base && base * shares == paid
    ensures close * shares == growth * paid
  {
    assert growth * base == close;
    assert growth * (base * shares) == (growth * base) * shares;
  }

  /** A bar adjusts the series exactly if some action takes effect on it; only when missing ex-dates may be
      deferred, the first bar's actions are passed over where the close before them is unknown. An
      adjusting bar has a positive close before it. */
  lemma AdjustsIffTakesEffect(bars: seq<Bar>, actions: seq<Action>, deferMissing: bool, aligned: map<int, Event>, factors: map<int, real>, i: nat)
    requires i < |bars| && Ordered(bars)
    requires Aligned(bars, actions, aligned) && (forall date :: date in aligned ==> Diluting(aligned[date]))
    requires AreFactors(bars, aligned, deferMissing, factors)
    ensures bars[i].date in factors <==>
              && (exists k :: 0 <= k < |actions| && TakesEffect(bars, actions[k], i))
              && (i > 0 || !deferMissing || bars[0].previousClose.Some?)
    ensures bars[i].date in factors ==> bars[i].previousClose.Some? && bars[i].previousClose.value > 0.0
  {
    assert FactorOf(bars, aligned, deferMissing, factors, i);
    hide Ordered, AreFactors, Theoretical, TakesEffect, LandsOn;
    forall k | 0 <= k < |actions| ensures TakesEffect(bars, actions[k], i) <==> LandsOn(bars, actions[k], i) {
      LandsWhereItTakesEffect(bars, actions[k], i);
    }
  }

  // ---------------------------------------------------------------------------
  // The rows
  // ---------------------------------------------------------------------------

  /** The forward series ends at the unadjusted prices, the backward series starts from them. */
  lemma SeriesAreAnchored(bars: seq<Bar>, factors: map<int, real>)
    requires |bars| > 0 && PositiveFactors(factors)
    ensures Factor(bars, factors, Forward, |bars| - 1) == 1.0
    ensures bars[0].date !in factors ==> Factor(bars, factors, Backward, 0) == 1.0
  {
    assert BackwardTo(bars, factors, 0) == 1.0;
    assert BackwardFactor(bars, factors, 0) == Shrink(1.0, StepOn(bars, factors, 0));
  }

  ghost predicate SameShape(raw: Option<real>, adjusted: Option<real>, close: real, adjustedClose: real) {
    (raw.Some? <==> adjusted.Some?) && (raw.Some? ==> adjusted.value * close == raw.value * adjustedClose)
  }

  lemma GrowIs(a: real, f: real)
    ensures Grow(a, f) == a * f
  {
  }

  /** A row's own prices keep their proportions, and stand at its factor. */
  lemma RowsKeepShape(bars: seq<Bar>, factors: map<int, real>, adjustment: Adjustment, i: nat)
    requires i < |bars| && PositiveFactors(factors) && bars[i].close.Some?
    ensures
      var bar, row := bars[i], AdjustedAt(bars, factors, adjustment, i);
      && row.date == bar.date && row.adjustment == adjustment && row.close.Some? && row.close.value == bar.close.value * row.factor
      && row.factor == Factor(bars, factors, adjustment, i)
      && SameShape(bar.open, row.open, bar.close.value, row.close.value)
      && SameShape(bar.high, row.high, bar.close.value, row.close.value)
      && SameShape(bar.low, row.low, bar.close.value, row.close.value)
  {
    hide Factor, PositiveFactors, Grow;
    var bar, f := bars[i], Factor(bars, factors, adjustment, i);
    GrowIs(bar.close.value, f);
    Proportion(bar.open.GetOr(0.0), bar.close.value, f);
    Proportion(bar.high.GetOr(0.0), bar.close.value, f);
    Proportion(bar.low.GetOr(0.0), bar.close.value, f);
  }

  lemma Proportion(a: real, b: real, f: real)
    ensures Grow(a, f) * b == a * Grow(b, f)
  {
  }

  ghost predicate IsRowOf(bars: seq<Bar>, factors: map<int, real>, start: int, end: int, row: AdjustedBar, i: int)
    requires PositiveFactors(factors)
  {
    && 0 <= i < |bars| && start <= bars[i].date <= end
    && (row == AdjustedAt(bars, factors, Forward, i) || row == AdjustedAt(bars, factors, Backward, i))
  }

  /** Nothing outside the requested range is published. */
  lemma {:induction false} RowsComeFromRange(bars: seq<Bar>, factors: map<int, real>, start: int, end: int, n: nat, k: nat)
    requires n <= |bars| && PositiveFactors(factors) && k < |AdjustedRows(bars, factors, start, end, n)|
    ensures exists i :: 0 <= i < n && IsRowOf(bars, factors, start, end, AdjustedRows(bars, factors, start, end, n)[k], i)
  {
    hide AdjustedAt, PositiveFactors;
    if n > 0 {
      var earlier, row := AdjustedRows(bars, factors, start, end, n - 1), AdjustedRows(bars, factors, start, end, n)[k];
      if k < |earlier| {
        RowsComeFromRange(bars, factors, start, end, n - 1, k);
      } else {
        assert IsRowOf(bars, factors, start, end, row, n - 1);
      }
    }
  }

  /** Each bar of the range is published once in either series, as the next two rows. */
  lemma {:induction false} RangeIsPublished(bars: seq<Bar>, factors: map<int, real>, start: int, end: int, n: nat, i: nat) returns (k: nat)
    requires i < n <= |bars| && PositiveFactors(factors) && start <= bars[i].date <= end
    ensures k == |AdjustedRows(bars, factors, start, end, i)| && k + 1 < |AdjustedRows(bars, factors, start, end, n)|
    ensures AdjustedRows(bars, factors, start, end, n)[k] == AdjustedAt(bars, factors, Forward, i)
    ensures AdjustedRows(bars, factors, start, end, n)[k + 1] == AdjustedAt(bars, factors, Backward, i)
  {
    hide AdjustedAt, PositiveFactors;
    if i == n - 1 { k := |AdjustedRows(bars, factors, start, end, i)|; } else { k := RangeIsPublished(bars, factors, start, end, n - 1, i); }
  }

  /** So their number is twice that of the bars in the range. */
  lemma {:induction false} RowsCountTheRange(bars: seq<Bar>, factors: map<int, real>, start: int, end: int, n: nat)
    requires n <= |bars| && PositiveFactors(factors)
    ensures |AdjustedRows(bars, factors, start, end, n)| == 2 * |InTheRange(bars, start, end, n)|
  {
    hide AdjustedAt, PositiveFactors;
    if n > 0 {
      RowsCountTheRange(bars, factors, start, end, n - 1);
      RangeSnoc(bars, start, end, n);
      hide InTheRange;
    }
  }

  ghost function InTheRange(bars: seq<Bar>, start: int, end: int, n: nat): set<nat>
    requires n <= |bars|
  {
    set i | 0 <= i < n && start <= bars[i].date <= end
  }

  lemma RangeSnoc(bars: seq<Bar>, start: int, end: int, n: nat)
    requires 0 < n <= |bars|
    ensures |InTheRange(bars, start, end, n)|
         == |InTheRange(bars, start, end, n - 1)| + if start <= bars[n - 1].date <= end then 1 else 0
  {
    assert InTheRange(bars, start, end, n)
        == InTheRange(bars, start, end, n - 1) + if start <= bars[n - 1].date <= end then {n - 1} else {};
  }
}
