/** Aligning corporate actions with the trading days that can carry them: an action whose ex-date
    has no bar is deferred to the next bar, and nothing is lost or counted twice. */
module CorporateActions {
  import opened Wrappers

  datatype Bar = Bar(date: int, open: Option<real>, high: Option<real>, low: Option<real>, close: Option<real>,
                     previousClose: Option<real>)

  datatype Action =
    | Distribution(exDate: Option<int>, implemented: bool, cash: Option<real>, bonus: Option<real>, transfer: Option<real>)
    | RightsIssue(exDate: Option<int>, ratio: real, price: real)

  datatype Event = Event(cash: real, bonus: real, rightsRatio: real, rightsValue: real)

  datatype Problem = NoBar(date: int) | NoSubsequentBar(date: int) | NoPreviousClose(date: int) | NonPositivePrice(date: int)

  const NO_EVENT := Event(0.0, 0.0, 0.0, 0.0)

  function Plus(e: Event, f: Event): Event {
    Event(e.cash + f.cash, e.bonus + f.bonus, e.rightsRatio + f.rightsRatio, e.rightsValue + f.rightsValue)
  }

  /** One trading day per bar, in order. */
  ghost predicate Ordered(bars: seq<Bar>) {
    forall i, j :: 0 <= i < j < |bars| ==> bars[i].date < bars[j].date
  }

  function Contribution(a: Action): Event {
    match a
    case Distribution(_, _, cash, bonus, transfer) => Event(cash.GetOr(0.0), bonus.GetOr(0.0) + transfer.GetOr(0.0), 0.0, 0.0)
    case RightsIssue(_, ratio, price) => Event(0.0, 0.0, ratio, ratio * price)
  }

  /** The action takes effect between the first and the last bar. */
  predicate InRange(bars: seq<Bar>, a: Action)
    requires |bars| > 0
  {
    && a.exDate.Some? && (a.Distribution? ==> a.implemented)
    && bars[0].date <= a.exDate.value <= bars[|bars| - 1].date
  }

  predicate HasBar(bars: seq<Bar>, date: int) {
    exists i :: 0 <= i < |bars| && bars[i].date == date
  }

  /** The first bar on or after a date. */
  ghost function Position(bars: seq<Bar>, date: int): (i: nat)
    requires |bars| > 0 && date <= bars[|bars| - 1].date
    ensures i < |bars| && date <= bars[i].date && forall k :: 0 <= k < i ==> bars[k].date < date
  {
    if date <= bars[0].date then 0 else 1 + Position(bars[1..], date)
  }

  lemma PositionIsFirst(bars: seq<Bar>, date: int, i: nat)
    requires Ordered(bars) && i < |bars| && date <= bars[i].date && (i > 0 ==> bars[i - 1].date < date)
    ensures date <= bars[|bars| - 1].date && Position(bars, date) == i
  {
    var p := Position(bars, date);
    assert p <= i;
  }

  ghost predicate LandsOn(bars: seq<Bar>, a: Action, i: nat)
    requires |bars| > 0
  {
    InRange(bars, a) && Position(bars, a.exDate.value) == i
  }

  /** Everything that takes effect on bar `i`. */
  ghost function Total(bars: seq<Bar>, actions: seq<Action>, i: nat): Event
    requires |bars| > 0
  {
    if |actions| == 0 then NO_EVENT
    else
      var n := |actions| - 1;
      var earlier := Total(bars, actions[..n], i);
      if LandsOn(bars, actions[n], i) then Plus(earlier, Contribution(actions[n])) else earlier
  }

  ghost predicate HasEvent(bars: seq<Bar>, actions: seq<Action>, i: nat)
    requires |bars| > 0
  {
    exists k :: 0 <= k < |actions| && LandsOn(bars, actions[k], i)
  }

  /** The actions that land on bar `i`. */
  ghost function Landing(bars: seq<Bar>, actions: seq<Action>, i: nat): seq<Action>
    requires |bars| > 0
  {
    if |actions| == 0 then []
    else
      var n := |actions| - 1;
      Landing(bars, actions[..n], i) + if LandsOn(bars, actions[n], i) then [actions[n]] else []
  }

  ghost function SumOf(actions: seq<Action>): Event {
    if |actions| == 0 then NO_EVENT else Plus(SumOf(actions[..|actions| - 1]), Contribution(actions[|actions| - 1]))
  }

  /** A bar's event is decided by the actions that land on it alone. */
  lemma {:induction false} TotalOfLanding(bars: seq<Bar>, actions: seq<Action>, i: nat)
    requires |bars| > 0
    ensures Total(bars, actions, i) == SumOf(Landing(bars, actions, i))
  {
    hide LandsOn, Contribution, Plus;
    if |actions| > 0 {
      var n := |actions| - 1;
      TotalOfLanding(bars, actions[..n], i);
      SumOfSnoc(Landing(bars, actions[..n], i), actions[n]);
      hide SumOf;
    }
  }

  lemma SumOfSnoc(actions: seq<Action>, a: Action)
    ensures SumOf(actions + [a]) == Plus(SumOf(actions), Contribution(a))
    ensures actions + [] == actions
  {
    assert (actions + [a])[..|actions|] == actions;
  }

  lemma {:induction false} HasEventIffLanding(bars: seq<Bar>, actions: seq<Action>, i: nat)
    requires |bars| > 0
    ensures HasEvent(bars, actions, i) <==> Landing(bars, actions, i) != []
  {
    hide LandsOn;
    if |actions| > 0 {
      var n := |actions| - 1;
      HasEventIffLanding(bars, actions[..n], i);
      HasEventSnoc(bars, actions, i);
      hide HasEvent;
    }
  }

  lemma HasEventSnoc(bars: seq<Bar>, actions: seq<Action>, i: nat)
    requires |bars| > 0 && |actions| > 0
    ensures HasEvent(bars, actions, i) <==> HasEvent(bars, actions[..|actions| - 1], i) || LandsOn(bars, actions[|actions| - 1], i)
  {
    hide LandsOn;
    var init := actions[..|actions| - 1];
    assert forall k :: 0 <= k < |init| ==> init[k] == actions[k];
  }

  /** Exactly the bars an action lands on carry an event, and it is everything landing there. */
  ghost predicate Aligned(bars: seq<Bar>, actions: seq<Action>, events: map<int, Event>)
    requires |bars| > 0
  {
    && (forall date :: date in events ==> HasBar(bars, date))
    && (forall i :: 0 <= i < |bars| ==> (bars[i].date in events <==> HasEvent(bars, actions, i)))
    && (forall i :: 0 <= i < |bars| && bars[i].date in events ==> events[bars[i].date] == Total(bars, actions, i))
  }

  // ---------------------------------------------------------------------------
  // Conservation
  // ---------------------------------------------------------------------------

  ghost function InRangeTotal(bars: seq<Bar>, actions: seq<Action>): Event
    requires |bars| > 0
  {
    if |actions| == 0 then NO_EVENT
    else
      var n := |actions| - 1;
      var earlier := InRangeTotal(bars, actions[..n]);
      if InRange(bars, actions[n]) then Plus(earlier, Contribution(actions[n])) else earlier
  }

  ghost function SumOfBars(bars: seq<Bar>, actions: seq<Action>, n: nat): Event
    requires 0 < |bars| && n <= |bars|
  {
    if n == 0 then NO_EVENT else Plus(SumOfBars(bars, actions, n - 1), Total(bars, actions, n - 1))
  }

  /** Deferral conserves: over all bars the events add up to every in-range action, once each. */
  lemma {:induction false} DeferralConserves(bars: seq<Bar>, actions: seq<Action>)
    requires |bars| > 0
    ensures SumOfBars(bars, actions, |bars|) == InRangeTotal(bars, actions)
  {
    if |actions| == 0 {
      NothingToSum(bars, |bars|);
    } else {
      var n := |actions| - 1;
      DeferralConserves(bars, actions[..n]);
      OneMoreAction(bars, actions, |bars|);
    }
  }

  lemma {:induction false} NothingToSum(bars: seq<Bar>, n: nat)
    requires 0 < |bars| && n <= |bars|
    ensures SumOfBars(bars, [], n) == NO_EVENT
  {
    if n > 0 { NothingToSum(bars, n - 1); }
  }

  /** The last action adds to exactly one bar. */
  lemma {:induction false} OneMoreAction(bars: seq<Bar>, actions: seq<Action>, n: nat)
    requires 0 < |bars| && n <= |bars| && |actions| > 0
    ensures
      var a, before := actions[|actions| - 1], SumOfBars(bars, actions[..|actions| - 1], n);
      SumOfBars(bars, actions, n)
      == if InRange(bars, a) && Position(bars, a.exDate.value) < n then Plus(before, Contribution(a)) else before
  {
    if n > 0 { OneMoreAction(bars, actions, n - 1); }
  }

  // ---------------------------------------------------------------------------
  // By ex-date, then by bar
  // ---------------------------------------------------------------------------

  /** Everything with exactly this ex-date. */
  ghost function ByExDate(bars: seq<Bar>, actions: seq<Action>, date: int): Event
    requires |bars| > 0
  {
    if |actions| == 0 then NO_EVENT
    else
      var n := |actions| - 1;
      var earlier := ByExDate(bars, actions[..n], date);
      if InRange(bars, actions[n]) && actions[n].exDate.value == date then Plus(earlier, Contribution(actions[n])) else earlier
  }

  /** What the ex-dates in `dates` bring to bar `i`. */
  ghost function Partial(bars: seq<Bar>, actions: seq<Action>, dates: set<int>, i: nat): Event
    requires |bars| > 0
  {
    if |actions| == 0 then NO_EVENT
    else
      var n := |actions| - 1;
      var earlier := Partial(bars, actions[..n], dates, i);
      if LandsOn(bars, actions[n], i) && actions[n].exDate.value in dates then Plus(earlier, Contribution(actions[n])) else earlier
  }

  lemma {:induction false} NothingYet(bars: seq<Bar>, actions: seq<Action>, i: nat)
    requires |bars| > 0
    ensures Partial(bars, actions, {}, i) == NO_EVENT
  {
    if |actions| > 0 { NothingYet(bars, actions[..|actions| - 1], i); }
  }

  lemma {:induction false} OneMoreDate(bars: seq<Bar>, actions: seq<Action>, dates: set<int>, date: int, i: nat)
    requires |bars| > 0 && date !in dates && date <= bars[|bars| - 1].date
    ensures Partial(bars, actions, dates + {date}, i)
         == if Position(bars, date) == i then Plus(Partial(bars, actions, dates, i), ByExDate(bars, actions, date))
            else Partial(bars, actions, dates, i)
  {
    if |actions| > 0 { OneMoreDate(bars, actions[..|actions| - 1], dates, date, i); }
  }

  lemma {:induction false} EveryDateSeen(bars: seq<Bar>, actions: seq<Action>, dates: set<int>, i: nat)
    requires |bars| > 0
    requires forall k :: 0 <= k < |actions| && InRange(bars, actions[k]) ==> actions[k].exDate.value in dates
    ensures Partial(bars, actions, dates, i) == Total(bars, actions, i)
  {
    if |actions| > 0 {
      assert forall k :: 0 <= k < |actions| - 1 ==> actions[..|actions| - 1][k] == actions[k];
      EveryDateSeen(bars, actions[..|actions| - 1], dates, i);
    }
  }

  ghost predicate HasExDate(bars: seq<Bar>, actions: seq<Action>, date: int)
    requires |bars| > 0
  {
    exists k :: 0 <= k < |actions| && InRange(bars, actions[k]) && actions[k].exDate.value == date
  }

  ghost predicate Distinct(days: seq<int>) {
    forall i, j :: 0 <= i < j < |days| ==> days[i] != days[j]
  }

  /** Accumulates the in-range actions by ex-date, in order of first appearance. */
  method GroupByExDate(bars: seq<Bar>, actions: seq<Action>) returns (events: map<int, Event>, days: seq<int>)
    requires |bars| > 0
    ensures Distinct(days) && forall date :: date in days <==> date in events
    ensures forall date :: date in events <==> HasExDate(bars, actions, date)
    ensures forall date :: date in events ==> events[date] == ByExDate(bars, actions, date)
  {
    events, days := map[], [];
    for k := 0 to |actions|
      invariant Distinct(days) && forall date :: date in days <==> date in events
      invariant forall date :: date in events <==> HasExDate(bars, actions[..k], date)
      invariant forall date :: (if date in events then events[date] else NO_EVENT) == ByExDate(bars, actions[..k], date)
    {
      ghost var earlier := actions[..k];
      assert actions[..k + 1][..k] == earlier && actions[..k + 1][k] == actions[k];
      if InRange(bars, actions[k]) {
        var date := actions[k].exDate.value;
        assert HasExDate(bars, actions[..k + 1], date);
        if date !in events { days := days + [date]; }
        events := events[date := Plus(if date in events then events[date] else NO_EVENT, Contribution(actions[k]))];
      }
      forall date ensures HasExDate(bars, actions[..k + 1], date) <==>
          HasExDate(bars, earlier, date) || (InRange(bars, actions[k]) && actions[k].exDate.value == date) {
        if HasExDate(bars, earlier, date) {
          var j :| 0 <= j < k && InRange(bars, earlier[j]) && earlier[j].exDate.value == date;
          assert actions[..k + 1][j] == earlier[j];
        }
      }
    }
    assert actions[..|actions|] == actions;
  }

  /** The first bar strictly after a date. */
  method NextBar(bars: seq<Bar>, date: int) returns (next: Option<int>)
    requires Ordered(bars) && |bars| > 0
    ensures next.None? <==> bars[|bars| - 1].date <= date
    ensures next.Some? && !HasBar(bars, date) ==> next == Some(bars[Position(bars, date)].date)
  {
    for i := 0 to |bars|
      invariant forall k :: 0 <= k < i ==> bars[k].date <= date
    {
      if bars[i].date > date {
        if !HasBar(bars, date) { PositionIsFirst(bars, date, i); }
        return Some(bars[i].date);
      }
    }
    next := None;
  }

  /** Aligns the actions with the bars. Deferral never lacks a subsequent bar, so the only failure
      is an in-range ex-date without a bar when deferral is off. */
  method AlignEvents(bars: seq<Bar>, actions: seq<Action>, deferMissing: bool) returns (r: Result<map<int, Event>, Problem>)
    requires Ordered(bars) && |bars| > 0
    ensures r.Success? <==> deferMissing || forall date :: HasExDate(bars, actions, date) ==> HasBar(bars, date)
    ensures r.Success? ==> Aligned(bars, actions, r.value)
    ensures r.Failure? ==> r.error.NoBar? && HasExDate(bars, actions, r.error.date) && !HasBar(bars, r.error.date)
  {
    var events, days := GroupByExDate(bars, actions);
    var aligned: map<int, Event> := map[];
    ghost var done: set<int> := {};
    forall i | 0 <= i < |bars| ensures Partial(bars, actions, {}, i) == NO_EVENT { NothingYet(bars, actions, i); }
    for k := 0 to |days|
      invariant forall date :: date in done <==> date in days[..k]
      invariant deferMissing || forall date :: date in done ==> HasBar(bars, date)
      invariant AlignedSoFar(bars, actions, done, aligned)
    {
      var date := days[k];
      assert HasExDate(bars, actions, date) && date !in days[..k];
      var effective := date;
      if !HasBar(bars, date) {
        if !deferMissing { return Failure(NoBar(date)); }
        var next := NextBar(bars, date);
        if next.None? { assert false; }
        effective := next.value;
      }
      OneDateAligned(bars, actions, done, aligned, date, effective);
      aligned := AddAt(aligned, effective, events[date]);
      done := done + {date};
    }
    AllDatesAligned(bars, actions, done, aligned);
    r := Success(aligned);
  }

  /** The ex-dates processed so far are aligned. */
  ghost predicate AlignedSoFar(bars: seq<Bar>, actions: seq<Action>, done: set<int>, aligned: map<int, Event>)
    requires |bars| > 0
  {
    && (forall date :: date in done ==> bars[0].date <= date <= bars[|bars| - 1].date)
    && (forall date :: date in aligned ==> HasBar(bars, date))
    && (forall i :: 0 <= i < |bars| ==> (bars[i].date in aligned <==> LandedOn(bars, done, i)))
    && (forall i :: 0 <= i < |bars| ==>
          EventOn(bars, aligned, i) == Partial(bars, actions, done, i))
  }

  ghost predicate LandedOn(bars: seq<Bar>, done: set<int>, i: nat)
    requires |bars| > 0
  {
    exists date :: date in done && date <= bars[|bars| - 1].date && Position(bars, date) == i
  }

  lemma OneDateLands(bars: seq<Bar>, done: set<int>, date: int, i: nat)
    requires |bars| > 0 && date <= bars[|bars| - 1].date
    ensures LandedOn(bars, done + {date}, i) <==> LandedOn(bars, done, i) || i == Position(bars, date)
  {
    if i == Position(bars, date) { assert date in done + {date}; }
    if LandedOn(bars, done, i) {
      var d :| d in done && d <= bars[|bars| - 1].date && Position(bars, d) == i;
      assert d in done + {date};
    }
  }

  function AddAt(aligned: map<int, Event>, date: int, event: Event): map<int, Event> {
    aligned[date := Plus(if date in aligned then aligned[date] else NO_EVENT, event)]
  }

  lemma EffectiveBar(bars: seq<Bar>, date: int, i: nat)
    requires Ordered(bars) && i < |bars| && date <= bars[|bars| - 1].date
    ensures HasBar(bars, date) ==> bars[Position(bars, date)].date == date
    ensures bars[i].date == bars[Position(bars, date)].date <==> i == Position(bars, date)
  {
    if HasBar(bars, date) {
      var k :| 0 <= k < |bars| && bars[k].date == date;
      PositionIsFirst(bars, date, k);
    }
  }

  ghost function EventOn(bars: seq<Bar>, aligned: map<int, Event>, i: nat): Event
    requires i < |bars|
  {
    if bars[i].date in aligned then aligned[bars[i].date] else NO_EVENT
  }

  lemma BarAligned(bars: seq<Bar>, actions: seq<Action>, done: set<int>, aligned: map<int, Event>, date: int, i: nat)
    requires Ordered(bars) && i < |bars| && AlignedSoFar(bars, actions, done, aligned)
    requires date <= bars[|bars| - 1].date && date !in done
    ensures
      var after := AddAt(aligned, bars[Position(bars, date)].date, ByExDate(bars, actions, date));
      && (bars[i].date in after <==> LandedOn(bars, done + {date}, i))
      && EventOn(bars, after, i) == Partial(bars, actions, done + {date}, i)
  {
    EffectiveBar(bars, date, i);
    OneMoreDate(bars, actions, done, date, i);
    OneDateLands(bars, done, date, i);
    hide Position, Partial, ByExDate, LandedOn, HasBar, Ordered;
    assert EventOn(bars, aligned, i) == Partial(bars, actions, done, i);
  }

  lemma EffectiveIsBar(bars: seq<Bar>, date: int, effective: int)
    requires Ordered(bars) && |bars| > 0 && date <= bars[|bars| - 1].date
    requires effective == if HasBar(bars, date) then date else bars[Position(bars, date)].date
    ensures effective == bars[Position(bars, date)].date && HasBar(bars, effective)
  {
    EffectiveBar(bars, date, 0);
  }

  lemma OneDateAligned(bars: seq<Bar>, actions: seq<Action>, done: set<int>, aligned: map<int, Event>, date: int, effective: int)
    requires Ordered(bars) && |bars| > 0 && AlignedSoFar(bars, actions, done, aligned)
    requires bars[0].date <= date <= bars[|bars| - 1].date && date !in done
    requires effective == if HasBar(bars, date) then date else bars[Position(bars, date)].date
    ensures AlignedSoFar(bars, actions, done + {date}, AddAt(aligned, effective, ByExDate(bars, actions, date)))
  {
    hide Position, Partial, ByExDate, LandedOn, HasBar, Plus, EventOn, Ordered;
    EffectiveIsBar(bars, date, effective);
    var after := AddAt(aligned, effective, ByExDate(bars, actions, date));
    forall i | 0 <= i < |bars|
      ensures bars[i].date in after <==> LandedOn(bars, done + {date}, i)
      ensures EventOn(bars, after, i) == Partial(bars, actions, done + {date}, i)
    {
      BarAligned(bars, actions, done, aligned, date, i);
    }
  }

  lemma AllDatesAligned(bars: seq<Bar>, actions: seq<Action>, done: set<int>, aligned: map<int, Event>)
    requires Ordered(bars) && |bars| > 0 && AlignedSoFar(bars, actions, done, aligned)
    requires forall date :: date in done <==> HasExDate(bars, actions, date)
    ensures Aligned(bars, actions, aligned)
  {
    forall k | 0 <= k < |actions| && InRange(bars, actions[k]) ensures actions[k].exDate.value in done {
      assert HasExDate(bars, actions, actions[k].exDate.value);
    }
    forall i | 0 <= i < |bars|
      ensures LandedOn(bars, done, i) <==> HasEvent(bars, actions, i)
      ensures Partial(bars, actions, done, i) == Total(bars, actions, i)
    {
      EveryDateSeen(bars, actions, done, i);
      if LandedOn(bars, done, i) {
        var d :| d in done && d <= bars[|bars| - 1].date && Position(bars, d) == i;
        var k :| 0 <= k < |actions| && InRange(bars, actions[k]) && actions[k].exDate.value == d;
        assert LandsOn(bars, actions[k], i);
      }
      if HasEvent(bars, actions, i) {
        var k :| 0 <= k < |actions| && LandsOn(bars, actions[k], i);
        assert actions[k].exDate.value in done;
      }
    }
    hide Position, Partial, Total, LandedOn, HasEvent;
  }
}
