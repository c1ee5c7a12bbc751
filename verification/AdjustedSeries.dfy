/** Forward and backward adjusted prices and the returns computed from them, over exact reals. */
module AdjustedSeries {
  import opened Wrappers
  import opened CorporateActions

  datatype Adjustment = Forward | Backward

  datatype AdjustedBar = AdjustedBar(date: int, adjustment: Adjustment, factor: real, open: Option<real>, high: Option<real>,
                                     low: Option<real>, close: Option<real>, previousClose: Option<real>)

  // ---------------------------------------------------------------------------
  // Factors of single events
  // ---------------------------------------------------------------------------

  /** Share ratios are never negative, so the denominator below is at least one. */
  ghost predicate Diluting(e: Event) { e.bonus + e.rightsRatio >= 0.0 }

  /** The ex-right price that leaves a holder's wealth unchanged. */
  function Theoretical(previousClose: real, e: Event): (price: real)
    requires e.bonus + e.rightsRatio >= 0.0
    ensures price * (1.0 + e.bonus + e.rightsRatio) + e.cash == previousClose + e.rightsValue
  {
    (previousClose - e.cash + e.rightsValue) / (1.0 + e.bonus + e.rightsRatio)
  }

  /** An event on the first bar whose earlier close is unknown adjusts nothing. */
  predicate Skipped(bars: seq<Bar>, i: nat, deferMissing: bool)
    requires i < |bars|
  {
    deferMissing && i == 0 && bars[i].previousClose.None?
  }

  ghost predicate Usable(bar: Bar, e: Event)
    requires Diluting(e)
  {
    bar.previousClose.Some? && bar.previousClose.value > 0.0 && Theoretical(bar.previousClose.value, e) > 0.0
  }

  /** The factors of the aligned events: one per event that adjusts something. */
  ghost predicate AreFactors(bars: seq<Bar>, aligned: map<int, Event>, deferMissing: bool, factors: map<int, real>)
    requires forall date :: date in aligned ==> Diluting(aligned[date])
  {
    && (forall date :: date in factors ==> date in aligned && factors[date] > 0.0)
    && forall i :: 0 <= i < |bars| ==> FactorOf(bars, aligned, deferMissing, factors, i)
  }

  ghost predicate FactorOf(bars: seq<Bar>, aligned: map<int, Event>, deferMissing: bool, factors: map<int, real>, i: nat)
    requires i < |bars| && forall date :: date in aligned ==> Diluting(aligned[date])
  {
    var date := bars[i].date;
    && (date in factors <==> date in aligned && !Skipped(bars, i, deferMissing))
    && (date in factors ==> Usable(bars[i], aligned[date])
                            && factors[date] * bars[i].previousClose.value == Theoretical(bars[i].previousClose.value, aligned[date]))
  }

  ghost predicate AllUsable(bars: seq<Bar>, aligned: map<int, Event>, deferMissing: bool)
    requires forall date :: date in aligned ==> Diluting(aligned[date])
  {
    forall i :: 0 <= i < |bars| && bars[i].date in aligned && !Skipped(bars, i, deferMissing) ==> Usable(bars[i], aligned[bars[i].date])
  }

  lemma Quotient(t: real, p: real)
    requires t > 0.0 && p > 0.0
    ensures t / p > 0.0 && (t / p) * p == t
  {
  }

  /** `_event_factors`, second half. */
  method EventFactors(bars: seq<Bar>, aligned: map<int, Event>, deferMissing: bool) returns (r: Result<map<int, real>, Problem>)
    requires Ordered(bars) && forall date :: date in aligned ==> HasBar(bars, date) && Diluting(aligned[date])
    ensures r.Success? <==> AllUsable(bars, aligned, deferMissing)
    ensures r.Success? ==> AreFactors(bars, aligned, deferMissing, r.value)
  {
    var factors: map<int, real> := map[];
    for i := 0 to |bars|
      invariant forall k :: 0 <= k < i ==> FactorOf(bars, aligned, deferMissing, factors, k)
      invariant forall date :: date in factors ==> date in aligned && factors[date] > 0.0
      invariant forall k :: i <= k < |bars| ==> bars[k].date !in factors
    {
      var bar := bars[i];
      if bar.date in aligned && !(bar.previousClose.None? && deferMissing && i == 0) {
        assert !Skipped(bars, i, deferMissing);
        if bar.previousClose.None? || bar.previousClose.value <= 0.0 {
          assert !Usable(bars[i], aligned[bar.date]);
          return Failure(NoPreviousClose(bar.date));
        }
        var theoretical := Theoretical(bar.previousClose.value, aligned[bar.date]);
        if theoretical <= 0.0 {
          assert !Usable(bars[i], aligned[bar.date]);
          return Failure(NonPositivePrice(bar.date));
        }
        Quotient(theoretical, bar.previousClose.value);
        ghost var before := factors;
        factors := factors[bar.date := theoretical / bar.previousClose.value];
        forall k | 0 <= k < i ensures FactorOf(bars, aligned, deferMissing, factors, k) {
          assert FactorOf(bars, aligned, deferMissing, before, k) && bars[k].date != bar.date;
        }
      }
      assert FactorOf(bars, aligned, deferMissing, factors, i);
    }
    forall i | 0 <= i < |bars| && bars[i].date in aligned && !Skipped(bars, i, deferMissing)
      ensures Usable(bars[i], aligned[bars[i].date])
    {
      assert FactorOf(bars, aligned, deferMissing, factors, i);
    }
    r := Success(factors);
  }

  // ---------------------------------------------------------------------------
  // Cumulative factors
  // ---------------------------------------------------------------------------

  ghost predicate PositiveFactors(factors: map<int, real>) {
    forall date :: date in factors ==> factors[date] > 0.0
  }

  function StepOn(bars: seq<Bar>, factors: map<int, real>, i: nat): real
    requires i < |bars|
  {
    if bars[i].date in factors then factors[bars[i].date] else 1.0
  }

  function Grow(factor: real, step: real): (r: real)
    ensures factor > 0.0 && step > 0.0 ==> r > 0.0
  {
    factor * step
  }

  function Shrink(factor: real, step: real): (r: real)
    requires step != 0.0
    ensures factor > 0.0 && step > 0.0 ==> r > 0.0 && Grow(r, step) == factor
  {
    factor / step
  }

  /** The product of the factors after bar `i`. */
  ghost function ForwardFactor(bars: seq<Bar>, factors: map<int, real>, i: nat): (f: real)
    requires i < |bars| && PositiveFactors(factors)
    ensures f > 0.0
    decreases |bars| - i
  {
    if i == |bars| - 1 then 1.0 else Grow(ForwardFactor(bars, factors, i + 1), StepOn(bars, factors, i + 1))
  }

  /** One over the product of the first `n` bars' factors. */
  ghost function BackwardTo(bars: seq<Bar>, factors: map<int, real>, n: nat): (f: real)
    requires n <= |bars| && PositiveFactors(factors)
    ensures f > 0.0
  {
    if n == 0 then 1.0 else Shrink(BackwardTo(bars, factors, n - 1), StepOn(bars, factors, n - 1))
  }

  ghost function BackwardFactor(bars: seq<Bar>, factors: map<int, real>, i: nat): (f: real)
    requires i < |bars| && PositiveFactors(factors)
    ensures f > 0.0
  {
    BackwardTo(bars, factors, i + 1)
  }

  ghost function Factor(bars: seq<Bar>, factors: map<int, real>, adjustment: Adjustment, i: nat): (f: real)
    requires i < |bars| && PositiveFactors(factors)
    ensures f > 0.0
  {
    if adjustment == Forward then ForwardFactor(bars, factors, i) else BackwardFactor(bars, factors, i)
  }

  /** The two series differ by one constant over all bars. */
  lemma {:induction false} ForwardIsConstantMultiple(bars: seq<Bar>, factors: map<int, real>, i: nat)
    requires i < |bars| && PositiveFactors(factors)
    ensures ForwardFactor(bars, factors, i) == AllFactors(bars, factors) * BackwardFactor(bars, factors, i)
  {
    hide AllFactors, Grow, Shrink;
    var f, step := ForwardFactor(bars, factors, i), StepOn(bars, factors, i);
    var b := BackwardTo(bars, factors, i);
    if i > 0 {
      ForwardIsConstantMultiple(bars, factors, i - 1);
    } else {
      AllFactorsDef(bars, factors);
    }
    DivideOut(f, b, step, AllFactors(bars, factors));
  }

  /** The product of every factor. */
  ghost function AllFactors(bars: seq<Bar>, factors: map<int, real>): real
    requires |bars| > 0 && PositiveFactors(factors)
  {
    Grow(ForwardFactor(bars, factors, 0), StepOn(bars, factors, 0))
  }

  lemma AllFactorsDef(bars: seq<Bar>, factors: map<int, real>)
    requires |bars| > 0 && PositiveFactors(factors)
    ensures Grow(ForwardFactor(bars, factors, 0), StepOn(bars, factors, 0)) == AllFactors(bars, factors) * 1.0
  {
  }

  lemma DivideOut(f: real, b: real, step: real, scale: real)
    requires step > 0.0 && Grow(f, step) == scale * b
    ensures f == scale * Shrink(b, step)
  {
    assert (scale * (b / step)) * step == scale * b;
    assert f == f * step / step;
  }

  /** Each bar's factor is the previous bar's times or over the day's own step. */
  lemma StepOfFactor(bars: seq<Bar>, factors: map<int, real>, adjustment: Adjustment, i: nat)
    requires 0 < i < |bars| && PositiveFactors(factors)
    ensures Factor(bars, factors, adjustment, i - 1) == Grow(Factor(bars, factors, adjustment, i), StepOn(bars, factors, i))
  {
    hide Grow, Shrink;
  }

  // ---------------------------------------------------------------------------
  // The adjusted bars
  // ---------------------------------------------------------------------------

  function Times(value: Option<real>, factor: real): Option<real> {
    if value.Some? then Some(Grow(value.value, factor)) else None
  }

  /** A bar's own prices take its factor, its previous close the previous bar's. */
  function Adjusted(bar: Bar, adjustment: Adjustment, factor: real, previousFactor: real): AdjustedBar {
    AdjustedBar(bar.date, adjustment, factor, Times(bar.open, factor), Times(bar.high, factor), Times(bar.low, factor),
                Times(bar.close, factor), Times(bar.previousClose, previousFactor))
  }

  ghost function AdjustedAt(bars: seq<Bar>, factors: map<int, real>, adjustment: Adjustment, i: nat): AdjustedBar
    requires i < |bars| && PositiveFactors(factors)
  {
    Adjusted(bars[i], adjustment, Factor(bars, factors, adjustment, i), Factor(bars, factors, adjustment, if i == 0 then 0 else i - 1))
  }

  ghost function AdjustedRows(bars: seq<Bar>, factors: map<int, real>, start: int, end: int, n: nat): seq<AdjustedBar>
    requires n <= |bars| && PositiveFactors(factors)
  {
    if n == 0 then []
    else
      var earlier := AdjustedRows(bars, factors, start, end, n - 1);
      if start <= bars[n - 1].date <= end
      then earlier + [AdjustedAt(bars, factors, Forward, n - 1), AdjustedAt(bars, factors, Backward, n - 1)] else earlier
  }

  ghost predicate HoldsFactors(bars: seq<Bar>, factors: map<int, real>, adjustment: Adjustment, found: map<int, real>)
    requires PositiveFactors(factors)
  {
    forall k :: 0 <= k < |bars| ==> bars[k].date in found && found[bars[k].date] == Factor(bars, factors, adjustment, k)
  }

  /** The pass over the reversed bars. */
  method ForwardPass(bars: seq<Bar>, factors: map<int, real>) returns (found: map<int, real>)
    requires Ordered(bars) && PositiveFactors(factors)
    ensures HoldsFactors(bars, factors, Forward, found)
  {
    hide Grow, Shrink;
    found := map[];
    var cumulative := 1.0;
    for i := |bars| downto 0
      invariant forall k :: i <= k < |bars| ==> bars[k].date in found && found[bars[k].date] == ForwardFactor(bars, factors, k)
      invariant cumulative == if i == |bars| then 1.0 else Grow(ForwardFactor(bars, factors, i), StepOn(bars, factors, i))
    {
      found := found[bars[i].date := cumulative];
      assert cumulative == ForwardFactor(bars, factors, i);
      cumulative := Grow(cumulative, if bars[i].date in factors then factors[bars[i].date] else 1.0);
    }
  }

  method BackwardPass(bars: seq<Bar>, factors: map<int, real>) returns (found: map<int, real>)
    requires Ordered(bars) && PositiveFactors(factors)
    ensures HoldsFactors(bars, factors, Backward, found)
  {
    hide Grow, Shrink;
    found := map[];
    var cumulative := 1.0;
    for i := 0 to |bars|
      invariant forall k :: 0 <= k < i ==> bars[k].date in found && found[bars[k].date] == BackwardFactor(bars, factors, k)
      invariant cumulative == BackwardTo(bars, factors, i)
    {
      cumulative := Shrink(cumulative, if bars[i].date in factors then factors[bars[i].date] else 1.0);
      assert cumulative == BackwardFactor(bars, factors, i);
      found := found[bars[i].date := cumulative];
    }
  }

  /** Both passes over the bars and the output loop. */
  method AdjustBars(bars: seq<Bar>, factors: map<int, real>, start: int, end: int) returns (rows: seq<AdjustedBar>)
    requires Ordered(bars) && PositiveFactors(factors)
    ensures rows == AdjustedRows(bars, factors, start, end, |bars|)
  {
    hide ForwardFactor, BackwardFactor, Ordered, PositiveFactors;
    var forwards := ForwardPass(bars, factors);
    var backwards := BackwardPass(bars, factors);
    rows := [];
    for i := 0 to |bars|
      invariant rows == AdjustedRows(bars, factors, start, end, i)
    {
      if start <= bars[i].date <= end {
        var previous := if i > 0 then bars[i - 1].date else bars[i].date;
        rows := rows + [Adjusted(bars[i], Forward, forwards[bars[i].date], forwards[previous]),
                        Adjusted(bars[i], Backward, backwards[bars[i].date], backwards[previous])];
      }
    }
  }

  /** `calculate_adjusted_daily_bars`: it succeeds exactly when every in-range action can be placed
      and prices an ex-right close. */
  method CalculateAdjusted(bars: seq<Bar>, actions: seq<Action>, start: int, end: int, deferMissing: bool)
    returns (r: Result<seq<AdjustedBar>, Problem>, ghost aligned: map<int, Event>, ghost factors: map<int, real>)
    requires Ordered(bars) && forall k :: 0 <= k < |actions| ==> ValidAction(actions[k])
    ensures bars == [] ==> r == Success([])
    ensures bars != [] && r.Success? ==>
      && Aligned(bars, actions, aligned) && (forall date :: date in aligned ==> Diluting(aligned[date]))
      && AreFactors(bars, aligned, deferMissing, factors) && r.value == AdjustedRows(bars, factors, start, end, |bars|)
    ensures bars != [] && r.Failure? ==>
      || (r.error.NoBar? && !deferMissing && HasExDate(bars, actions, r.error.date) && !HasBar(bars, r.error.date))
      || (Aligned(bars, actions, aligned) && (forall date :: date in aligned ==> Diluting(aligned[date]))
          && !AllUsable(bars, aligned, deferMissing))
  {
    aligned, factors := map[], map[];
    if bars == [] { r := Success([]); return; }
    var events := AlignEvents(bars, actions, deferMissing);
    if events.Failure? { r := Failure(events.error); return; }
    aligned := events.value;
    EventsDilute(bars, actions, aligned);
    var found := EventFactors(bars, events.value, deferMissing);
    if found.Failure? { r := Failure(found.error); return; }
    factors := found.value;
    var rows := AdjustBars(bars, found.value, start, end);
    r := Success(rows);
  }

  /** What the records guarantee on construction. */
  ghost predicate ValidAction(a: Action) {
    match a
    case Distribution(_, _, cash, bonus, transfer) => cash.GetOr(0.0) >= 0.0 && bonus.GetOr(0.0) >= 0.0 && transfer.GetOr(0.0) >= 0.0
    case RightsIssue(_, ratio, price) => ratio > 0.0 && price >= 0.0
  }

  lemma EventsDilute(bars: seq<Bar>, actions: seq<Action>, aligned: map<int, Event>)
    requires |bars| > 0 && Aligned(bars, actions, aligned) && forall k :: 0 <= k < |actions| ==> ValidAction(actions[k])
    ensures forall date :: date in aligned ==> Diluting(aligned[date])
  {
    forall date | date in aligned ensures Diluting(aligned[date]) {
      var i :| 0 <= i < |bars| && bars[i].date == date;
      TotalDilutes(bars, actions, i);
    }
  }

  lemma {:induction false} TotalDilutes(bars: seq<Bar>, actions: seq<Action>, i: nat)
    requires |bars| > 0 && forall k :: 0 <= k < |actions| ==> ValidAction(actions[k])
    ensures Total(bars, actions, i).bonus >= 0.0 && Total(bars, actions, i).rightsRatio >= 0.0
  {
    if |actions| > 0 {
      TotalDilutes(bars, actions[..|actions| - 1], i);
      assert ValidAction(actions[|actions| - 1]);
    }
  }

  // ---------------------------------------------------------------------------
  // Returns
  // ---------------------------------------------------------------------------

  /** `total_return_1d` of one adjusted bar. */
  function TotalReturn(bar: AdjustedBar): Option<real> {
    if bar.close.Some? && bar.previousClose.Some? && bar.previousClose.value > 0.0
    then Some(bar.close.value / bar.previousClose.value - 1.0) else None
  }

  /** The price a holder starts the day from. */
  ghost function Base(bars: seq<Bar>, factors: map<int, real>, i: nat): real
    requires i < |bars| && bars[i].previousClose.Some?
  {
    Grow(bars[i].previousClose.value, if i == 0 then 1.0 else StepOn(bars, factors, i))
  }

  /** One plus the return is close over the day's base, whichever series it is computed from; it
      exists exactly when both raw prices do and the previous close is positive. */
  lemma ReturnIsCloseOverBase(bars: seq<Bar>, factors: map<int, real>, adjustment: Adjustment, i: nat)
    requires i < |bars| && PositiveFactors(factors)
    ensures
      var r, bar := TotalReturn(AdjustedAt(bars, factors, adjustment, i)), bars[i];
      && (r.Some? <==> bar.close.Some? && bar.previousClose.Some? && bar.previousClose.value > 0.0)
      && (r.Some? ==> Base(bars, factors, i) > 0.0 && r.value + 1.0 == bar.close.value / Base(bars, factors, i))
  {
    hide Grow, TotalReturn;
    var bar, row := bars[i], AdjustedAt(bars, factors, adjustment, i);
    ReturnOf(row);
    if bar.close.Some? && bar.previousClose.Some? {
      var f, step := Factor(bars, factors, adjustment, i), if i == 0 then 1.0 else StepOn(bars, factors, i);
      assert Factor(bars, factors, adjustment, if i == 0 then 0 else i - 1) == Grow(f, step) by {
        if i > 0 { StepOfFactor(bars, factors, adjustment, i); } else { GrowByOne(f); }
      }
      ScaledReturn(bar.close.value, bar.previousClose.value, f, step, row.close.value, row.previousClose.value, Base(bars, factors, i));
    }
  }

  lemma GrowByOne(f: real)
    ensures Grow(f, 1.0) == f
  {
  }

  lemma ReturnOf(row: AdjustedBar)
    ensures TotalReturn(row).Some? <==> row.close.Some? && row.previousClose.Some? && row.previousClose.value > 0.0
    ensures TotalReturn(row).Some? ==> TotalReturn(row).value + 1.0 == row.close.value / row.previousClose.value
  {
  }

  /** A common factor cancels out of a return. */
  lemma ScaledReturn(close: real, previous: real, f: real, step: real, c: real, p: real, base: real)
    requires f > 0.0 && step > 0.0
    requires c == Grow(close, f) && p == Grow(previous, Grow(f, step)) && base == Grow(previous, step)
    ensures p > 0.0 <==> previous > 0.0
    ensures previous > 0.0 ==> base > 0.0 && c / p == close / base
  {
    SignOfProduct(previous, f * step);
    if previous > 0.0 {
      SignOfProduct(previous, step);
      var q := close / base;
      assert q * base == close;
      assert q * p == (q * base) * f;
    }
  }

  lemma SignOfProduct(p: real, f: real)
    requires f > 0.0
    ensures p * f > 0.0 <==> p > 0.0
  {
  }

  /** On a bar that carries an adjusting event the base is the theoretical ex-right price; on every
      other bar after the first it is the previous close. */
  lemma BaseIsTheoretical(bars: seq<Bar>, aligned: map<int, Event>, deferMissing: bool, factors: map<int, real>, i: nat)
    requires 0 < i < |bars| && forall date :: date in aligned ==> Diluting(aligned[date])
    requires AreFactors(bars, aligned, deferMissing, factors) && bars[i].previousClose.Some?
    ensures Base(bars, factors, i)
         == if bars[i].date in aligned then Theoretical(bars[i].previousClose.value, aligned[bars[i].date]) else bars[i].previousClose.value
  {
    assert FactorOf(bars, aligned, deferMissing, factors, i);
  }

  /** A day's return depends on that day's own step alone. */
  lemma ReturnIgnoresOtherEvents(bars: seq<Bar>, factors: map<int, real>, others: map<int, real>, adjustment: Adjustment, i: nat)
    requires i < |bars| && PositiveFactors(factors) && PositiveFactors(others)
    requires i == 0 || StepOn(bars, factors, i) == StepOn(bars, others, i)
    ensures TotalReturn(AdjustedAt(bars, factors, adjustment, i)) == TotalReturn(AdjustedAt(bars, others, adjustment, i))
  {
    ReturnIsCloseOverBase(bars, factors, adjustment, i);
    ReturnIsCloseOverBase(bars, others, adjustment, i);
    if bars[i].previousClose.Some? {
      assert Base(bars, factors, i) == Base(bars, others, i);
    }
    hide AdjustedAt, TotalReturn, Base;
  }

  /** Two lists of corporate actions that land alike on a day give it the same return, whatever else
      they hold: no other action, earlier or later, moves it. */
  lemma ReturnIgnoresOtherActions(bars: seq<Bar>, actions: seq<Action>, others: seq<Action>, deferMissing: bool,
                                  aligned: map<int, Event>, aligned': map<int, Event>, factors: map<int, real>,
                                  factors': map<int, real>, adjustment: Adjustment, i: nat)
    requires i < |bars| && Landing(bars, actions, i) == Landing(bars, others, i)
    requires Aligned(bars, actions, aligned) && Aligned(bars, others, aligned')
    requires (forall date :: date in aligned ==> Diluting(aligned[date])) && forall date :: date in aligned' ==> Diluting(aligned'[date])
    requires AreFactors(bars, aligned, deferMissing, factors) && AreFactors(bars, aligned', deferMissing, factors')
    ensures TotalReturn(AdjustedAt(bars, factors, adjustment, i)) == TotalReturn(AdjustedAt(bars, factors', adjustment, i))
  {
    SameEventAligned(bars, actions, others, aligned, aligned', i);
    hide Aligned, Landing, TotalReturn, AdjustedAt, Theoretical, Usable, Grow;
    SameStep(bars, aligned, aligned', deferMissing, factors, factors', i);
    ReturnIgnoresOtherEvents(bars, factors, factors', adjustment, i);
  }

  lemma SameEventAligned(bars: seq<Bar>, actions: seq<Action>, others: seq<Action>, aligned: map<int, Event>, aligned': map<int, Event>, i: nat)
    requires i < |bars| && Landing(bars, actions, i) == Landing(bars, others, i)
    requires Aligned(bars, actions, aligned) && Aligned(bars, others, aligned')
    ensures bars[i].date in aligned <==> bars[i].date in aligned'
    ensures bars[i].date in aligned ==> aligned[bars[i].date] == aligned'[bars[i].date]
  {
    hide Landing, Total, HasEvent, SumOf;
    TotalOfLanding(bars, actions, i);
    TotalOfLanding(bars, others, i);
    HasEventIffLanding(bars, actions, i);
    HasEventIffLanding(bars, others, i);
  }

  lemma SameStep(bars: seq<Bar>, aligned: map<int, Event>, aligned': map<int, Event>, deferMissing: bool, factors: map<int, real>,
                 factors': map<int, real>, i: nat)
    requires i < |bars| && (forall date :: date in aligned ==> Diluting(aligned[date])) && forall date :: date in aligned' ==> Diluting(aligned'[date])
    requires AreFactors(bars, aligned, deferMissing, factors) && AreFactors(bars, aligned', deferMissing, factors')
    requires bars[i].date in aligned <==> bars[i].date in aligned'
    requires bars[i].date in aligned ==> aligned[bars[i].date] == aligned'[bars[i].date]
    ensures StepOn(bars, factors, i) == StepOn(bars, factors', i)
  {
    assert FactorOf(bars, aligned, deferMissing, factors, i) && FactorOf(bars, aligned', deferMissing, factors', i);
    hide AreFactors, Theoretical;
    if bars[i].date in factors {
      SameQuotient(factors[bars[i].date], factors'[bars[i].date], bars[i].previousClose.value);
    }
  }

  lemma SameQuotient(a: real, b: real, p: real)
    requires p > 0.0 && a * p == b * p
    ensures a == b
  {
    assert (a - b) * p == 0.0;
  }

  /** Each previous close is the prior bar's close. */
  ghost predicate Linked(bars: seq<Bar>, from: nat, to: nat)
    requires from <= to < |bars|
  {
    && (forall i :: from <= i <= to ==> bars[i].close.Some? && bars[i].close.value > 0.0)
    && (forall i :: from < i <= to ==> bars[i].previousClose == bars[i - 1].close)
  }

  ghost function AdjustedClose(bars: seq<Bar>, factors: map<int, real>, adjustment: Adjustment, i: nat): real
    requires i < |bars| && PositiveFactors(factors) && bars[i].close.Some?
  {
    Grow(bars[i].close.value, Factor(bars, factors, adjustment, i))
  }

  lemma CloseAt(bars: seq<Bar>, factors: map<int, real>, adjustment: Adjustment, i: nat)
    requires i < |bars| && PositiveFactors(factors) && bars[i].close.Some?
    ensures AdjustedAt(bars, factors, adjustment, i).close == Some(AdjustedClose(bars, factors, adjustment, i))
    ensures bars[i].close.value > 0.0 ==> AdjustedClose(bars, factors, adjustment, i) > 0.0
  {
    hide Factor, PositiveFactors;
    SignOfProduct(bars[i].close.value, Factor(bars, factors, adjustment, i));
  }

  /** Between linked bars one plus the return is the ratio of the two adjusted closes. */
  lemma LinkedReturn(bars: seq<Bar>, factors: map<int, real>, adjustment: Adjustment, i: nat)
    requires 0 < i < |bars| && PositiveFactors(factors)
    requires bars[i].close.Some? && bars[i - 1].close.Some? && bars[i - 1].close.value > 0.0
    requires bars[i].previousClose == bars[i - 1].close
    ensures TotalReturn(AdjustedAt(bars, factors, adjustment, i)).Some?
    ensures AdjustedClose(bars, factors, adjustment, i - 1) > 0.0
    ensures 1.0 + TotalReturn(AdjustedAt(bars, factors, adjustment, i)).value
         == AdjustedClose(bars, factors, adjustment, i) / AdjustedClose(bars, factors, adjustment, i - 1)
  {
    hide Factor, PositiveFactors, TotalReturn, Grow;
    CloseAt(bars, factors, adjustment, i - 1);
    ReturnOf(AdjustedAt(bars, factors, adjustment, i));
  }

  /** The compounded return over `(from, to]`. */
  ghost function Compounded(bars: seq<Bar>, factors: map<int, real>, adjustment: Adjustment, from: nat, to: nat): real
    requires from <= to < |bars| && PositiveFactors(factors) && Linked(bars, from, to)
  {
    if from == to then 1.0
    else
      LinkedReturn(bars, factors, adjustment, to);
      Extended(Compounded(bars, factors, adjustment, from, to - 1), TotalReturn(AdjustedAt(bars, factors, adjustment, to)).value)
  }

  function Extended(compounded: real, dayReturn: real): real { compounded * (1.0 + dayReturn) }

  /** Compounded returns are the ratio of the adjusted closes, across any events in between. */
  lemma {:induction false} ReturnsTelescope(bars: seq<Bar>, factors: map<int, real>, adjustment: Adjustment, from: nat, to: nat)
    requires from <= to < |bars| && PositiveFactors(factors) && Linked(bars, from, to)
    ensures
      var first, last := AdjustedAt(bars, factors, adjustment, from).close, AdjustedAt(bars, factors, adjustment, to).close;
      && first.Some? && last.Some? && first.value > 0.0
      && Compounded(bars, factors, adjustment, from, to) == last.value / first.value
  {
    hide AdjustedAt, AdjustedClose, TotalReturn, PositiveFactors, Extended;
    CloseAt(bars, factors, adjustment, from);
    if from < to {
      CloseAt(bars, factors, adjustment, to - 1);
      CloseAt(bars, factors, adjustment, to);
      ReturnsTelescope(bars, factors, adjustment, from, to - 1);
      LinkedReturn(bars, factors, adjustment, to);
      Chain(AdjustedClose(bars, factors, adjustment, from), AdjustedClose(bars, factors, adjustment, to - 1),
            AdjustedClose(bars, factors, adjustment, to), TotalReturn(AdjustedAt(bars, factors, adjustment, to)).value);
    }
  }

  lemma Chain(a: real, b: real, c: real, r: real)
    requires a > 0.0 && b > 0.0 && 1.0 + r == c / b
    ensures Extended(b / a, r) == c / a
  {
    var x, y := b / a, c / b;
    assert x * a == b && y * b == c;
    assert (x * y) * a == c;
  }
}
