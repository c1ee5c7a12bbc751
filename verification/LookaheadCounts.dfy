/** The rest of the two-step lookahead: after a close that left a gap, and for count rules when a
    segment has several ordinary rules in one direction. */
module LookaheadCounts {
  import opened Wrappers
  import opened TradingCalendar
  import opened RegulationRules
  import opened MonitorDay
  import opened TriggerPrice
  import opened MonitorThreshold
  import opened ThresholdExactness
  import opened MonitorRuns
  import opened MonitorCompleteness
  import opened MonitorCounts
  import opened CountPrices
  import opened Lookahead

  /** After a close that left a gap nothing fires tomorrow, and no price is published for it. */
  lemma BrokenLookahead(s: Session, s': Session, rules: seq<Rule>, c: Candidate, c': Candidate, st: Option<State>, n: nat,
                        reference: Option<real>, scenario: Option<real>, issue: Option<string>, limits: PriceLimits)
    requires ValidRules(rules) && ValidSession(s) && ValidSession(s') && Fits(s, st) && Follows(s, s')
    requires n < |rules| && !Step(s, rules, c, st).state.complete
    ensures
      var after := Some(Step(s, rules, c, st).state);
      && Fits(s', after)
      && !Step(s', rules, c', after).state.complete && !Step(s', rules, c', after).verdicts[n].Triggered()
      && ValidRule(rules[n]) && ThresholdOf(s, rules, c, rules[n], after, s.next, reference, scenario, issue, limits).Ticks() == None
  {
    hide Step, Close, Fits, ValidSession, Reasons, PriceThreshold, PendingCount, LastN, Before;
    StepIsClose(s, rules, c, st);
    CloseFits(s, s', rules, c, st, true);
    assert rules[n] in rules;
    var after := Step(s, rules, c, st).state;
    StepIsClose(s', rules, c', Some(after));
    BrokenOnce(s', rules, c', after, true);
    VerdictAt(s', rules, c', Some(after), n);
  }

  /** What the price published today promises about a close of `ticks` tomorrow. */
  ghost predicate AnswersAt(s: Session, s': Session, rules: seq<Rule>, c: Candidate, c': Candidate, after: State, n: nat,
                            ticks: int, reference: real, scenario: Return, limits: PriceLimits)
    requires ValidRules(rules) && ValidSession(s') && Fits(s', Some(after)) && n < |rules| && ValidRule(rules[n])
    requires ticks > 0 && reference > 0.0
  {
    Step(s', rules, ClosedAt(c', s'.today, ticks, reference, scenario), Some(after)).verdicts[n].Triggered()
    <==> Reaches(ThresholdOf(s, rules, c, rules[n], Some(after), s.next, Some(reference), Some(scenario), None, limits).Ticks(),
                 DirectionOf(rules[n]), ticks)
  }

  function PriceTomorrow(s: Session, c: Candidate, rule: Rule, st: State, reference: real, index: real, limits: PriceLimits): Option<int>
    requires ValidRule(rule) && rule.Deviation?
  {
    PriceThreshold(s, c.rows, rule, Some(st), s.next, reference, index, limits).Ticks()
  }

  /** No ordinary rule of the direction has an easier price for tomorrow than the first one. */
  ghost predicate FirstIsEasiestTomorrow(s: Session, rules: seq<Rule>, c: Candidate, direction: Direction, st: State,
                                         reference: real, index: real, limits: PriceLimits)
    requires forall rule :: rule in rules ==> ValidRule(rule)
  {
    forall j :: 0 <= j < |rules| && IsOrdinary(rules[j], direction) ==>
      OrdinaryRule(rules, direction).Some?
      && NoEasier(PriceTomorrow(s, c, OrdinaryRule(rules, direction).value, st, reference, index, limits),
                  PriceTomorrow(s, c, rules[j], st, reference, index, limits), direction)
  }

  /** The events pending for tomorrow are the same from either source. */
  lemma PendingTomorrow(s: Session, s': Session, rules: seq<Rule>, rule: Rule, st: State)
    requires ValidRules(rules) && rule in rules && rule.EventCount? && ValidSession(s) && ValidSession(s') && KeepsWindows(s, s', rules)
    ensures Pending(s', rule, Some(st), s'.today) == Pending(s, rule, Some(st), s.next)
  {
    hide PendingCount, LastN, Before, ValidSession;
    assert ValidRule(rule);
    HistoriesAgree(s, s', rule.countWindow);
  }

  lemma PriceFromEither(s: Session, s': Session, rules: seq<Rule>, c: Candidate, c': Candidate, rule: Rule, st: State,
                        reference: real, index: real, limits: PriceLimits)
    requires (forall r :: r in rules ==> ValidRule(r)) && rule in rules && rule.Deviation?
    requires ValidSession(s) && ValidSession(s') && KeepsWindows(s, s', rules) && KeepsRows(s, c, c')
    ensures ValidRule(rule)
    ensures OrdinaryPrice(s', c', rule, Some(st), reference, index, limits) == PriceTomorrow(s, c, rule, st, reference, index, limits)
  {
    hide PriceThreshold, ValidSession, KeepsRows;
    assert ValidRule(rule);
    PriceCarriesOver(s, s', c, c', rule, st, reference, index, limits);
  }

  lemma EasiestCarriesOver(s: Session, s': Session, rules: seq<Rule>, c: Candidate, c': Candidate, direction: Direction, st: State,
                           reference: real, index: real, limits: PriceLimits)
    requires (forall r :: r in rules ==> ValidRule(r)) && ValidSession(s) && ValidSession(s')
    requires KeepsWindows(s, s', rules) && KeepsRows(s, c, c')
    ensures FirstIsEasiest(s', rules, c', direction, Some(st), reference, index, limits) <==>
      FirstIsEasiestTomorrow(s, rules, c, direction, st, reference, index, limits)
  {
    hide OrdinaryPrice, PriceTomorrow, NoEasier, ValidSession, KeepsRows, KeepsWindows, OrdinaryRule, ValidRule;
    var first := OrdinaryRule(rules, direction);
    if first.Some? { PriceFromEither(s, s', rules, c, c', first.value, st, reference, index, limits); }
    forall j | 0 <= j < |rules| && IsOrdinary(rules[j], direction)
      ensures ValidRule(rules[j])
      ensures OrdinaryPrice(s', c', rules[j], Some(st), reference, index, limits) == PriceTomorrow(s, c, rules[j], st, reference, index, limits)
    {
      assert rules[j] in rules;
      PriceFromEither(s, s', rules, c, c', rules[j], st, reference, index, limits);
    }
  }

  /** Every close of tomorrow is complete. */
  lemma TomorrowCompletes(s: Session, s': Session, rules: seq<Rule>, c: Candidate, c': Candidate, st: Option<State>, ticks: int,
                          reference: real, scenario: Return)
    requires ValidRules(rules) && ValidSession(s) && ValidSession(s') && Follows(s, s') && Fits(s, st) && KeepsRows(s, c, c')
    requires OrderedResets(st, s.today) && Step(s, rules, c, st).state.complete && Fits(s', Some(Step(s, rules, c, st).state))
    requires ticks > 0 && reference > 0.0
    ensures Reasons(s', rules, ClosedAt(c', s'.today, ticks, reference, scenario), Some(Step(s, rules, c, st).state)) == {}
  {
    hide Step, Fits, ValidSession, OrderedResets, KeepsRows, ClosedAt, Follows, Priced;
    ClosingKeepsRows(s, s', c, c', ticks, reference, scenario);
    NextCloseIsComplete(s, s', rules, c, ClosedAt(c', s'.today, ticks, reference, scenario), st);
  }

  /** On one close, today's promise is tomorrow's. */
  lemma AnswerCarriesOver(s: Session, s': Session, rules: seq<Rule>, c: Candidate, c': Candidate, st: State, n: nat, ticks: int,
                          reference: real, scenario: Return, limits: PriceLimits)
    requires ValidRules(rules) && ValidSession(s) && ValidSession(s') && Fits(s', Some(st))
    requires KeepsWindows(s, s', rules) && KeepsRows(s, c, c') && n < |rules| && rules[n].EventCount? && ValidRule(rules[n])
    requires ticks > 0 && reference > 0.0
    requires Reasons(s', rules, ClosedAt(c', s'.today, ticks, reference, scenario), Some(st)) == {}
    ensures AnswersAt(s, s', rules, c, c', st, n, ticks, reference, scenario, limits)
       <==> ExactAt(s', rules, c', Some(st), n, ticks, reference, scenario, limits)
  {
    hide Step, ThresholdOf, Reasons, ClosedAt, Reaches, Fits, ValidSession, KeepsRows, KeepsWindows;
    assert rules[n] in rules;
    VerdictAt(s', rules, ClosedAt(c', s'.today, ticks, reference, scenario), Some(st), n);
    ThresholdCarriesOver(s, s', rules, c, c', rules[n], st, reference, scenario, limits);
  }

  lemma PendingBelowTomorrow(s: Session, s': Session, rules: seq<Rule>, c: Candidate, st: Option<State>, n: nat)
    requires ValidRules(rules) && ValidSession(s) && ValidSession(s') && Follows(s, s') && Fits(s, st) && OrderedResets(st, s.today)
    requires Step(s, rules, c, st).state.complete && Fits(s', Some(Step(s, rules, c, st).state)) && n < |rules| && rules[n].EventCount?
    ensures Pending(s', rules[n], Some(Step(s, rules, c, st).state), s'.today) < rules[n].required
  {
    hide Step, Close, Fits, ValidSession, Follows, PendingCount, CountOf, LastN, Reasons;
    assert rules[n] in rules;
    StepIsClose(s, rules, c, st);
    CompleteNeeds(s, rules, c, st, true);
    CompleteCloseCountsBelow(s, rules, c, st, true);
    CountsBelowCarriesOver(s, s', rules, Step(s, rules, c, st).state, rules[n]);
  }

  /** With any number of ordinary rules: after a complete close the count price published today for
      tomorrow answers for every close of tomorrow if and only if the rule is not one event short, or
      no ordinary rule has an easier price than the first. All of it is known today. */
  lemma CountLookaheadIsExactIff(s: Session, s': Session, rules: seq<Rule>, c: Candidate, c': Candidate, st: Option<State>,
                                 n: nat, reference: real, scenario: Return, limits: PriceLimits)
    requires ValidRules(rules) && ValidSession(s) && ValidSession(s') && Fits(s, st)
    requires KeepsWindows(s, s', rules) && KeepsRows(s, c, c')
    requires OrderedResets(st, s.today) && Step(s, rules, c, st).state.complete
    requires n < |rules| && rules[n].EventCount? && Effective(rules[n], s.next) && reference > 0.0
    ensures
      var after := Step(s, rules, c, st).state;
      && Fits(s', Some(after)) && ValidRule(rules[n])
      && ((forall ticks: int :: ticks > 0 ==> AnswersAt(s, s', rules, c, c', after, n, ticks, reference, scenario, limits)) <==>
            || Pending(s, rules[n], Some(after), s.next) != rules[n].required - 1
            || FirstIsEasiestTomorrow(s, rules, c, rules[n].direction, after, reference, scenario, limits))
  {
    hide Step, Close, Reasons, ExactAt, AnswersAt, FirstIsEasiest, FirstIsEasiestTomorrow, Pending, Fits, ValidSession, KeepsRows,
      ClosedAt, OrderedResets;
    var after := Step(s, rules, c, st).state;
    StepIsClose(s, rules, c, st);
    CloseFits(s, s', rules, c, st, true);
    assert rules[n] in rules;
    PendingBelowTomorrow(s, s', rules, c, st, n);
    PendingTomorrow(s, s', rules, rules[n], after);
    TomorrowCompletes(s, s', rules, c, c', st, 1, reference, scenario);
    EasiestCarriesOver(s, s', rules, c, c', rules[n].direction, after, reference, scenario, limits);
    CountPriceIsExactForEveryClose(s', rules, c', Some(after), n, reference, scenario, limits);
    forall ticks: int | ticks > 0
      ensures AnswersAt(s, s', rules, c, c', after, n, ticks, reference, scenario, limits)
         <==> ExactAt(s', rules, c', Some(after), n, ticks, reference, scenario, limits)
    {
      TomorrowCompletes(s, s', rules, c, c', st, ticks, reference, scenario);
      AnswerCarriesOver(s, s', rules, c, c', after, n, ticks, reference, scenario, limits);
    }
  }
}
