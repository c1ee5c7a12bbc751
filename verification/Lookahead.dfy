/** The two-step lookahead: tomorrow's published price, computed from the post-close
    checkpoint, against actually running tomorrow's close. */
module Lookahead {
  import opened Wrappers
  import opened TradingCalendar
  import opened RegulationRules
  import opened MonitorDay
  import opened TriggerPrice
  import opened MonitorThreshold
  import opened ThresholdExactness
  import opened MonitorRuns
  import opened MonitorCounts

  function WindowOf(rule: Rule): nat {
    match rule
    case Deviation(_, _, _, _, window, _, _, _) => window
    case Turnover(_, _, _, _, _) => 0
    case EventCount(_, _, _, _, countWindow, _, _, _) => countWindow
  }

  /** The next source still lists every session the rules' windows reach back to. */
  ghost predicate KeepsWindows(s: Session, s': Session, rules: seq<Rule>) {
    && Follows(s, s')
    && (|s'.dates| == |s.dates| + 1 || forall rule :: rule in rules ==> WindowOf(rule) <= |s'.dates|)
  }

  /** The next source keeps the rows of the sessions already listed. */
  ghost predicate KeepsRows(s: Session, c: Candidate, c': Candidate) {
    && c'.applicability == c.applicability
    && forall d :: d in s.dates ==> (d in c.rows <==> d in c'.rows) && (d in c.rows ==> c'.rows[d] == c.rows[d])
  }

  lemma LastNOfLongSuffix(dates: seq<Date>, k: nat, n: nat)
    requires k <= |dates| && (k == 0 || n <= |dates| - k)
    ensures LastN(dates[k..], n) == LastN(dates, n)
  {
    if k == 0 { assert dates[0..] == dates; } else if |dates| > n { assert dates[k..][|dates| - k - n..] == dates[|dates| - n..]; }
  }

  /** Before the next session there is exactly the calendar that just closed. */
  lemma HistoriesAgree(s: Session, s': Session, window: nat)
    requires ValidSession(s) && ValidSession(s') && Follows(s, s') && window >= 1
    requires |s'.dates| == |s.dates| + 1 || window <= |s'.dates|
    ensures LastN(Before(s.dates, s.next), window - 1) == LastN(Before(s'.dates, s'.today), window - 1)
    ensures LastN(Before(s.dates, s.next) + [s.next], window) == LastN(Before(s'.dates, s'.today) + [s'.today], window)
    ensures forall d :: d in LastN(Before(s.dates, s.next), window - 1) ==> d in s.dates
  {
    hide Before, LastN, Follows, ValidSession;
    AllBeforeNext(s);
    TodayEndsTheCalendar(s', 1);
    var k := DroppedSessions(s, s');
    LastNOfLongSuffix(s.dates, k, window - 1);
    LastNOfLongSuffix(s.dates + [s.next], k, window);
  }

  /** How many of the oldest sessions the next source no longer lists. */
  lemma DroppedSessions(s: Session, s': Session) returns (k: nat)
    requires ValidSession(s) && ValidSession(s') && Follows(s, s')
    ensures k < |s.dates| && |s'.dates| == |s.dates| + 1 - k
    ensures s'.dates == (s.dates + [s.next])[k..]
    ensures Before(s'.dates, s'.today) == s.dates[k..]
    ensures s'.today == s.next
  {
    k :| 0 <= k < |s.dates| && s'.dates == (s.dates + [s.next])[k..];
    TodayEndsTheCalendar(s', 1);
    hide Before, LastN, ValidSession, Follows;
    SnocSuffix(Before(s'.dates, s'.today), s'.today, s.dates, s.next, k);
  }

  lemma SnocSuffix(a: seq<Date>, x: Date, b: seq<Date>, y: Date, k: nat)
    requires k <= |b| && a + [x] == (b + [y])[k..]
    ensures a == b[k..] && x == y
  {
    assert (b + [y])[k..] == b[k..] + [y];
    assert |a| == |b| - k && (a + [x])[|a|] == x && (b[k..] + [y])[|a|] == y;
    forall i | 0 <= i < |a| ensures a[i] == b[k..][i] { assert (a + [x])[i] == (b[k..] + [y])[i]; }
  }

  lemma AllBeforeNext(s: Session)
    requires ValidSession(s)
    ensures Before(s.dates, s.next) == s.dates
  {
    forall i | 0 <= i < |s.dates| ensures s.dates[i] < s.next {
      assert i < |s.dates| - 1 ==> s.dates[i] < s.dates[|s.dates| - 1];
    }
    BeforeAll(s.dates, s.next);
  }

  /** Tomorrow's threshold seen from today is today's threshold seen from tomorrow. */
  lemma ThresholdCarriesOver(s: Session, s': Session, rules: seq<Rule>, c: Candidate, c': Candidate, rule: Rule,
                             st: State, reference: real, index: real, limits: PriceLimits)
    requires ValidRules(rules) && rule in rules && ValidSession(s) && ValidSession(s')
    requires KeepsWindows(s, s', rules) && KeepsRows(s, c, c')
    ensures ThresholdOf(s, rules, c, rule, Some(st), s.next, Some(reference), Some(index), None, limits).Ticks()
         == ThresholdOf(s', rules, c', rule, Some(st), s'.today, Some(reference), Some(index), None, limits).Ticks()
  {
    hide PriceThreshold, PendingCount, LastN, Before;
    assert ValidRule(rule);
    match rule {
      case Turnover(_, _, _, _, _) =>
      case Deviation(_, _, _, _, window, _, _, _) =>
        PriceCarriesOver(s, s', c, c', rule, st, reference, index, limits);
      case EventCount(_, _, _, direction, countWindow, _, _, _) =>
        HistoriesAgree(s, s', countWindow);
        var ordinary := OrdinaryRule(rules, direction);
        if ordinary.Some? {
          PriceCarriesOver(s, s', c, c', ordinary.value, st, reference, index, limits);
        }
    }
  }

  /** The price search looks back over the same sessions from either source. */
  lemma SearchesAgree(s: Session, s': Session, rule: Rule, st: State)
    requires rule.Deviation? && rule.window >= 1 && ValidSession(s) && ValidSession(s') && Follows(s, s')
    requires |s'.dates| == |s.dates| + 1 || rule.window <= |s'.dates|
    ensures SearchHistory(s, Some(st), rule, s.next) == SearchHistory(s', Some(st), rule, s'.today)
    ensures forall d :: d in SearchHistory(s, Some(st), rule, s.next) ==> d in s.dates
  {
    hide LastN, Before, ValidSession;
    HistoriesAgree(s, s', rule.window);
  }

  lemma KeptRowsAgree(s: Session, c: Candidate, c': Candidate, history: seq<Date>)
    requires KeepsRows(s, c, c')
    requires forall d :: d in history ==> d in s.dates
    ensures AllPriced(c.rows, history) <==> AllPriced(c'.rows, history)
    ensures AllPriced(c.rows, history) ==> forall d :: d in history ==> d in c.rows && d in c'.rows && c.rows[d] == c'.rows[d]
  {
    forall i | 0 <= i < |history| ensures Priced(c.rows, history[i]) <==> Priced(c'.rows, history[i]) {
      var d := history[i];
      assert d in history && d in s.dates;
    }
    if AllPriced(c.rows, history) {
      forall d | d in history ensures d in c.rows {
        var i :| 0 <= i < |history| && history[i] == d;
        assert Priced(c.rows, history[i]);
      }
    }
  }

  lemma PriceCarriesOver(s: Session, s': Session, c: Candidate, c': Candidate, rule: Rule, st: State,
                         reference: real, index: real, limits: PriceLimits)
    requires ValidRule(rule) && rule.Deviation? && ValidSession(s) && ValidSession(s') && Follows(s, s')
    requires |s'.dates| == |s.dates| + 1 || rule.window <= |s'.dates|
    requires KeepsRows(s, c, c')
    ensures PriceThreshold(s, c.rows, rule, Some(st), s.next, reference, index, limits).Ticks()
         == PriceThreshold(s', c'.rows, rule, Some(st), s'.today, reference, index, limits).Ticks()
  {
    hide SearchHistory, LastN, Before, PriceThreshold, TriggerTicks, Follows, ValidSession, AllPriced, KeepsRows;
    var history := SearchHistory(s, Some(st), rule, s.next);
    SearchesAgree(s, s', rule, st);
    KeptRowsAgree(s, c, c', history);
    PriceTicks(s, c.rows, rule, Some(st), s.next, reference, index, limits);
    PriceTicks(s', c'.rows, rule, Some(st), s'.today, reference, index, limits);
    if AllPriced(c.rows, history) {
      TriggerTicksDependOnHistory(c.rows, c'.rows, history, reference, 1.0 + index, rule.threshold, rule.direction);
    }
  }

  /** A complete close already saw every row tomorrow's windows need. */
  lemma {:induction false} NextCloseMissesNothing(s: Session, s': Session, rules: seq<Rule>, c: Candidate, c': Candidate,
                                                  st: Option<State>, st': State)
    requires (forall rule :: rule in rules ==> ValidRule(rule)) && ValidSession(s) && ValidSession(s') && Follows(s, s')
    requires Fits(s, st) && Fits(s', Some(st')) && MissingReturns(s, rules, c, st) == {}
    requires forall d :: d in s.dates && Priced(c.rows, d) ==> Priced(c'.rows, d)
    requires Priced(c'.rows, s'.today)
    requires forall level :: Floor(s, st, level) <= Floor(s', Some(st'), level)
    ensures MissingReturns(s', rules, c', Some(st')) == {}
  {
    hide RuleDates, PriceVerdict, ReasonsOf, ValidSession, Fits, Floor, Follows, Priced, AllPriced;
    if |rules| > 0 {
      var n := |rules| - 1;
      assert rules[n] in rules && ValidRule(rules[n]);
      NextCloseMissesNothing(s, s', rules[..n], c, c', st, st');
      if rules[n].Deviation? {
        CompleteMeansPriced(s, rules, c, st, rules[n]);
        NextWindowIsPriced(s, s', rules[n], c, c', st, st');
        PricedMeansNoReason(s', c', Some(st'), rules[n]);
      }
    }
  }

  lemma NextWindowIsPriced(s: Session, s': Session, rule: Rule, c: Candidate, c': Candidate, st: Option<State>, st': State)
    requires ValidRule(rule) && rule.Deviation? && ValidSession(s) && ValidSession(s') && Follows(s, s')
    requires Fits(s, st) && Fits(s', Some(st')) && AllPriced(c.rows, RuleDates(s, st, rule))
    requires forall d :: d in s.dates && Priced(c.rows, d) ==> Priced(c'.rows, d)
    requires Priced(c'.rows, s'.today)
    requires Floor(s, st, rule.level) <= Floor(s', Some(st'), rule.level)
    ensures AllPriced(c'.rows, RuleDates(s', Some(st'), rule))
  {
    WindowOfSuccessor(s, s', rule.window);
    hide Floor, LastN;
    var dates, dates' := RuleDates(s, st, rule), RuleDates(s', Some(st'), rule);
    forall i | 0 <= i < |dates'| ensures Priced(c'.rows, dates'[i]) {
      assert dates'[i] in dates';
      if dates'[i] != s'.today {
        assert dates'[i] in dates;
      }
    }
  }

  lemma StepIsClose(s: Session, rules: seq<Rule>, c: Candidate, st: Option<State>)
    requires (forall rule :: rule in rules ==> ValidRule(rule)) && ValidSession(s) && Fits(s, st)
    ensures Step(s, rules, c, st) == Close(s, rules, c, st, true)
  {
    hide StepWith, Retained;
  }

  /** After a complete close, an applicable stock with both returns closes completely again. */
  lemma NextCloseIsComplete(s: Session, s': Session, rules: seq<Rule>, c: Candidate, c': Candidate, st: Option<State>)
    requires ValidRules(rules) && ValidSession(s) && ValidSession(s') && Follows(s, s') && Fits(s, st)
    requires OrderedResets(st, s.today) && Step(s, rules, c, st).state.complete
    requires Fits(s', Some(Step(s, rules, c, st).state))
    requires KeepsRows(s, c, c') && Priced(c'.rows, s'.today)
    ensures Reasons(s', rules, c', Some(Step(s, rules, c, st).state)) == {}
  {
    var st' := Step(s, rules, c, st).state;
    hide Step, Reasons, Floor, Fits, Priced, OrderedResets;
    StepIsClose(s, rules, c, st);
    FloorsMoveForward(s, s', rules, c, st);
    CompleteHasNoReasons(s, rules, c, st);
    CompleteReachesSearch(s, rules, c, st);
    assert forall d :: d in s.dates && Priced(c.rows, d) ==> Priced(c'.rows, d) by { KeptRowsStayPriced(s, c, c'); }
    NextCloseMissesNothing(s, s', rules, c, c', st, st');
    NothingIsMissing(s', rules, c', Some(st'));
  }

  lemma KeptRowsStayPriced(s: Session, c: Candidate, c': Candidate)
    requires KeepsRows(s, c, c')
    ensures forall d :: d in s.dates && Priced(c.rows, d) ==> Priced(c'.rows, d)
  {
  }

  lemma NothingIsMissing(s: Session, rules: seq<Rule>, c: Candidate, st: Option<State>)
    requires (forall rule :: rule in rules ==> ValidRule(rule)) && ValidSession(s) && Fits(s, st)
    requires st.Some? && st.value.complete && st.value.reasons == {} && c.applicability.Applicable? && Priced(c.rows, s.today)
    requires MissingReturns(s, rules, c, st) == {}
    ensures Reasons(s, rules, c, st) == {}
  {
  }

  lemma CompleteHasNoReasons(s: Session, rules: seq<Rule>, c: Candidate, st: Option<State>)
    requires (forall rule :: rule in rules ==> ValidRule(rule)) && ValidSession(s) && Fits(s, st)
    requires Step(s, rules, c, st).state.complete
    ensures Reasons(s, rules, c, st) == {} && Step(s, rules, c, st).state.reasons == {}
  {
    hide Reasons, Verdicts, BaseVerdicts, EventsOf, Retained;
  }

  lemma FloorsMoveForward(s: Session, s': Session, rules: seq<Rule>, c: Candidate, st: Option<State>)
    requires (forall rule :: rule in rules ==> ValidRule(rule)) && ValidSession(s) && Follows(s, s') && Fits(s, st)
    requires OrderedResets(st, s.today) && Fits(s', Some(Step(s, rules, c, st).state))
    ensures forall level :: Floor(s, st, level) <= Floor(s', Some(Step(s, rules, c, st).state), level)
  {
    StepIsClose(s, rules, c, st);
    hide Step, Close, HasLevel, HasPriceEvent, ValidSession, ValidRule, Floor, NotEarlier;
    CloseMovesResets(s, rules, c, st, true);
    FloorsGrow(s, s', st, Step(s, rules, c, st).state);
  }

  lemma FloorsGrow(s: Session, s': Session, st: Option<State>, st': State)
    requires s.start == s'.start && Fits(s', Some(st'))
    requires st.Some? ==> NotEarlier(st.value.abnormalReset, st'.abnormalReset) && NotEarlier(st.value.seriousReset, st'.seriousReset)
    ensures forall level :: Floor(s, st, level) <= Floor(s', Some(st'), level)
  {
  }

  lemma ClosingKeepsRows(s: Session, s': Session, c: Candidate, c': Candidate, ticks: int, reference: real, index: Return)
    requires ValidSession(s) && Follows(s, s') && KeepsRows(s, c, c') && ticks > 0 && reference > 0.0
    ensures KeepsRows(s, c, ClosedAt(c', s'.today, ticks, reference, index))
    ensures Priced(ClosedAt(c', s'.today, ticks, reference, index).rows, s'.today)
  {
    AllBeforeNext(s);
    assert forall d :: d in s.dates ==> d < s.next;
  }

  /** The lookahead commutes with running the next session: once a close is complete, tomorrow's
      close is complete too, and a rule fires on it if and only if it reaches the price published
      today from the post-close checkpoint, resets caused by today's close included. */
  lemma LookaheadCommutes(s: Session, s': Session, rules: seq<Rule>, c: Candidate, c': Candidate, st: Option<State>,
                          n: nat, ticks: int, reference: real, scenario: Return, limits: PriceLimits)
    requires ValidRules(rules) && ValidSession(s) && ValidSession(s') && Fits(s, st)
    requires KeepsWindows(s, s', rules) && KeepsRows(s, c, c')
    requires OrderedResets(st, s.today) && Step(s, rules, c, st).state.complete
    requires n < |rules| && !rules[n].Turnover? && Effective(rules[n], s.next)
    requires rules[n].EventCount? ==> OneOrdinaryRule(rules, rules[n].direction)
    requires ticks > 0 && reference > 0.0
    ensures
      var after := Some(Step(s, rules, c, st).state);
      && Fits(s', after)
      && var tomorrow := Step(s', rules, ClosedAt(c', s'.today, ticks, reference, scenario), after);
         var published := ThresholdOf(s, rules, c, rules[n], after, s.next, Some(reference), Some(scenario), None, limits);
         && tomorrow.state.complete
         && (tomorrow.verdicts[n].Triggered() <==> Reaches(published.Ticks(), DirectionOf(rules[n]), ticks))
  {
    hide Step, Close, ThresholdOf, ClosedAt, Reaches, Reasons, Pending, CountOf, LastN;
    var o := Step(s, rules, c, st);
    StepIsClose(s, rules, c, st);
    CloseFits(s, s', rules, c, st, true);
    assert rules[n] in rules && ValidRule(rules[n]);
    ClosingKeepsRows(s, s', c, c', ticks, reference, scenario);
    NextCloseIsComplete(s, s', rules, c, ClosedAt(c', s'.today, ticks, reference, scenario), st);
    VerdictAt(s', rules, ClosedAt(c', s'.today, ticks, reference, scenario), Some(o.state), n);
    ThresholdCarriesOver(s, s', rules, c, c', rules[n], o.state, reference, scenario, limits);
    if rules[n].Deviation? {
      DeviationTriggersIffReached(s', rules, c', Some(o.state), n, ticks, reference, scenario, limits);
    } else {
      CompleteNeeds(s, rules, c, st, true);
      CompleteCloseCountsBelow(s, rules, c, st, true);
      CountsBelowCarriesOver(s, s', rules, o.state, rules[n]);
      CountTriggersIffReached(s', rules, c', Some(o.state), n, ticks, reference, scenario, limits);
    }
  }

  // ---------------------------------------------------------------------------
  // The projection that publishes both thresholds
  // ---------------------------------------------------------------------------

  datatype Branch = NoNewReset | AbnormalReset | SeriousReset

  datatype Condition = Condition(code: string, today: Threshold, next: Threshold)

  /** Which reset the (hypothetical) close causes: read off its events. */
  function BranchOf(events: seq<Event>): (branch: Branch)
    ensures branch == SeriousReset <==> HasLevel(events, Serious)
    ensures branch == AbnormalReset <==> HasPriceEvent(events) && !HasLevel(events, Serious)
  {
    if exists i :: 0 <= i < |events| && events[i].level == Serious then
      assert HasLevel(events, Serious) by { var i :| 0 <= i < |events| && events[i].level == Serious; assert events[i] in events; }
      SeriousReset
    else if exists i :: 0 <= i < |events| && events[i].kind == Price then
      assert HasPriceEvent(events) by { var i :| 0 <= i < |events| && events[i].kind == Price; assert events[i] in events; }
      AbnormalReset
    else NoNewReset
  }

  /** `project_monitor_close` and `_conditions` for one stock: run the close, then publish today's
      threshold from the old checkpoint and tomorrow's from the new one. The published branch
      names exactly the resets that the new checkpoint carries to the next session. */
  method ProjectClose(s: Session, rules: seq<Rule>, c: Candidate, st: Option<State>, reference: Option<real>,
                      index: Option<real>, nextReference: Option<real>, scenario: real, limits: PriceLimits,
                      nextLimits: PriceLimits)
    returns (o: Outcome, branch: Branch, conditions: seq<Condition>)
    requires ValidRules(rules) && ValidSession(s) && Fits(s, st) && OrderedResets(st, s.today)
    requires (reference.Some? ==> reference.value > 0.0) && (nextReference.Some? ==> nextReference.value > 0.0)
    ensures o == Step(s, rules, c, st)
    ensures branch == SeriousReset <==> o.state.seriousReset == Some(s.next)
    ensures branch != NoNewReset <==> o.state.abnormalReset == Some(s.next)
    ensures |conditions| == |rules|
    ensures forall i :: 0 <= i < |rules| ==> conditions[i] == Condition(rules[i].code,
      ThresholdOf(s, rules, c, rules[i], st, s.today, reference, index, None, limits),
      ThresholdOf(s, rules, c, rules[i], Some(o.state), s.next, nextReference, Some(scenario), None, nextLimits))
  {
    hide Step, Close, ThresholdOf, Fits, ValidSession, OrderedResets, HasLevel, HasPriceEvent;
    o := CloseSymbol(s, rules, c, st);
    StepIsClose(s, rules, c, st);
    CloseMovesResets(s, rules, c, st, true);
    branch := BranchOf(o.events);
    conditions := [];
    for i := 0 to |rules|
      invariant |conditions| == i
      invariant forall j :: 0 <= j < i ==> conditions[j] == Condition(rules[j].code,
        ThresholdOf(s, rules, c, rules[j], st, s.today, reference, index, None, limits),
        ThresholdOf(s, rules, c, rules[j], Some(o.state), s.next, nextReference, Some(scenario), None, nextLimits))
    {
      assert rules[i] in rules && ValidRule(rules[i]);
      var today := PublishThreshold(s, rules, c, rules[i], st, s.today, reference, index, None, limits);
      var next := PublishThreshold(s, rules, c, rules[i], Some(o.state), s.next, nextReference, Some(scenario), None, nextLimits);
      conditions := conditions + [Condition(rules[i].code, today, next)];
    }
  }
}
