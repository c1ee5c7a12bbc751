/** Count rules when a segment has several ordinary rules in one direction: what fires them, and
    when the one published price, the first ordinary rule's, tells the truth. */
module CountPrices {
  import opened Wrappers
  import opened TradingCalendar
  import opened RegulationRules
  import opened DeviationWindows
  import opened MonitorDay
  import opened TriggerPrice
  import opened MonitorThreshold
  import opened ThresholdExactness
  import opened MonitorRuns
  import opened MonitorCompleteness
  import opened MonitorCounts

  /** The close reaches the price of the ordinary rule at position `j`. */
  predicate OrdinaryReached(s: Session, rules: seq<Rule>, c: Candidate, direction: Direction, j: nat, st: Option<State>,
                            ticks: int, reference: real, index: real, limits: PriceLimits)
    requires j < |rules| && ValidRule(rules[j])
  {
    IsOrdinary(rules[j], direction)
    && Reaches(PriceThreshold(s, c.rows, rules[j], st, s.today, reference, index, limits).Ticks(), direction, ticks)
  }

  ghost predicate SomeOrdinaryReached(s: Session, rules: seq<Rule>, c: Candidate, direction: Direction, st: Option<State>,
                                      ticks: int, reference: real, index: real, limits: PriceLimits)
    requires forall rule :: rule in rules ==> ValidRule(rule)
  {
    exists j :: 0 <= j < |rules| && OrdinaryReached(s, rules, c, direction, j, st, ticks, reference, index, limits)
  }

  lemma HitIffReached(s: Session, rules: seq<Rule>, c: Candidate, direction: Direction, j: nat, st: Option<State>,
                      ticks: int, reference: real, index: Return, limits: PriceLimits)
    requires ValidRules(rules) && ValidSession(s) && Fits(s, st) && j < |rules| && ticks > 0 && reference > 0.0
    requires direction != NoDirection && ValidRule(rules[j])
    requires Reasons(s, rules, ClosedAt(c, s.today, ticks, reference, index), st) == {}
    ensures Hits(rules[j], BaseVerdicts(s, rules, ClosedAt(c, s.today, ticks, reference, index), st)[j], Abnormal, direction, Price)
        <==> OrdinaryReached(s, rules, c, direction, j, st, ticks, reference, index, limits)
  {
    var c' := ClosedAt(c, s.today, ticks, reference, index);
    hide Reasons, Evaluate, RuleDates, PriceThreshold, Fits, ValidSession, ClosedAt, MissingReturns;
    assert rules[j] in rules;
    if rules[j].Deviation? {
      BaseVerdictAt(s, rules, c', st, j);
      CompleteReachesSearch(s, rules, c', st);
      CompleteMeansPriced(s, rules, c', st, rules[j]);
      PriceThresholdInverts(s, c, rules[j], st, ticks, reference, index, limits);
    } else if rules[j].EventCount? {
      CountRulesWait(s, rules, c', st, j);
    }
  }

  lemma CountRulesWait(s: Session, rules: seq<Rule>, c: Candidate, st: Option<State>, j: nat)
    requires (forall rule :: rule in rules ==> ValidRule(rule)) && ValidSession(s) && Fits(s, st)
    requires j < |rules| && rules[j].EventCount?
    ensures !BaseVerdicts(s, rules, c, st)[j].Triggered()
  {
    hide Reasons;
  }

  /** A count rule fires on a close exactly when one more event is needed and the close reaches the
      price of some ordinary rule in its direction. */
  lemma CountTriggersIffSomeOrdinaryReached(s: Session, rules: seq<Rule>, c: Candidate, st: Option<State>, k: nat, ticks: int,
                                            reference: real, index: Return, limits: PriceLimits)
    requires ValidRules(rules) && ValidSession(s) && Fits(s, st) && k < |rules| && rules[k].EventCount?
    requires Pending(s, rules[k], st, s.today) < rules[k].required && ticks > 0 && reference > 0.0
    ensures
      var o := Step(s, rules, ClosedAt(c, s.today, ticks, reference, index), st);
      o.verdicts[k].Triggered() <==>
        && o.state.complete && Pending(s, rules[k], st, s.today) == rules[k].required - 1
        && SomeOrdinaryReached(s, rules, c, rules[k].direction, st, ticks, reference, index, limits)
  {
    hide Step, Reasons, BaseVerdicts, PendingCount, Hits, OrdinaryReached, CountVerdict, EventsOf, Fits, ValidSession, ClosedAt;
    var direction := rules[k].direction;
    assert rules[k] in rules && ValidRule(rules[k]);
    var c' := ClosedAt(c, s.today, ticks, reference, index);
    VerdictAt(s, rules, c', st, k);
    if Reasons(s, rules, c', st) == {} {
      CountIsPendingPlusToday(s, rules, c', st, k);
      var base := BaseVerdicts(s, rules, c', st);
      forall j | 0 <= j < |rules|
        ensures Hits(rules[j], base[j], Abnormal, direction, Price) <==>
          OrdinaryReached(s, rules, c, direction, j, st, ticks, reference, index, limits)
      {
        assert rules[j] in rules;
        HitIffReached(s, rules, c, direction, j, st, ticks, reference, index, limits);
      }
    }
  }

  /** The published price of a count rule is the first ordinary rule's. */
  ghost predicate FirstReached(s: Session, rules: seq<Rule>, c: Candidate, direction: Direction, st: Option<State>,
                               ticks: int, reference: real, index: real, limits: PriceLimits)
    requires forall rule :: rule in rules ==> ValidRule(rule)
  {
    var first := OrdinaryRule(rules, direction);
    first.Some?
    && Reaches(PriceThreshold(s, c.rows, first.value, st, s.today, reference, index, limits).Ticks(), direction, ticks)
  }

  lemma PublishedCountPrice(s: Session, rules: seq<Rule>, c: Candidate, st: Option<State>, k: nat, ticks: int,
                            reference: real, index: Return, limits: PriceLimits)
    requires ValidRules(rules) && ValidSession(s) && Fits(s, st) && k < |rules| && rules[k].EventCount?
    requires Effective(rules[k], s.today) && ticks > 0 && reference > 0.0
    requires Reasons(s, rules, ClosedAt(c, s.today, ticks, reference, index), st) == {}
    ensures Reaches(ThresholdOf(s, rules, c, rules[k], st, s.today, Some(reference), Some(index), None, limits).Ticks(),
                    rules[k].direction, ticks)
        <==> Pending(s, rules[k], st, s.today) == rules[k].required - 1
             && FirstReached(s, rules, c, rules[k].direction, st, ticks, reference, index, limits)
  {
    hide Reasons, PriceThreshold, PendingCount, LastN, Before, ValidSession, Fits, MissingReturns;
    CompleteReachesSearch(s, rules, ClosedAt(c, s.today, ticks, reference, index), st);
    assert rules[k] in rules && ValidRule(rules[k]);
  }

  lemma FirstIsSome(s: Session, rules: seq<Rule>, c: Candidate, direction: Direction, st: Option<State>,
                    ticks: int, reference: real, index: real, limits: PriceLimits)
    requires forall rule :: rule in rules ==> ValidRule(rule)
    ensures FirstReached(s, rules, c, direction, st, ticks, reference, index, limits) ==>
      SomeOrdinaryReached(s, rules, c, direction, st, ticks, reference, index, limits)
  {
    hide PriceThreshold, Reaches;
    if FirstReached(s, rules, c, direction, st, ticks, reference, index, limits) {
      var j :| 0 <= j < |rules| && rules[j] == OrdinaryRule(rules, direction).value;
      assert OrdinaryReached(s, rules, c, direction, j, st, ticks, reference, index, limits);
    }
  }

  /** With several ordinary rules in one direction the published price misses exactly the closes
      that are one event short, reach another ordinary rule's price, and not the first one's. */
  lemma CountPriceIsExactIff(s: Session, rules: seq<Rule>, c: Candidate, st: Option<State>, k: nat, ticks: int,
                             reference: real, index: Return, limits: PriceLimits)
    requires ValidRules(rules) && ValidSession(s) && Fits(s, st) && k < |rules| && rules[k].EventCount?
    requires Pending(s, rules[k], st, s.today) < rules[k].required && Effective(rules[k], s.today) && ticks > 0 && reference > 0.0
    ensures
      var o := Step(s, rules, ClosedAt(c, s.today, ticks, reference, index), st);
      var t := ThresholdOf(s, rules, c, rules[k], st, s.today, Some(reference), Some(index), None, limits);
      (o.verdicts[k].Triggered() <==> o.state.complete && Reaches(t.Ticks(), rules[k].direction, ticks))
      <==> !(&& o.state.complete && Pending(s, rules[k], st, s.today) == rules[k].required - 1
             && SomeOrdinaryReached(s, rules, c, rules[k].direction, st, ticks, reference, index, limits)
             && !FirstReached(s, rules, c, rules[k].direction, st, ticks, reference, index, limits))
  {
    hide Step, Reasons, PendingCount, ThresholdOf, SomeOrdinaryReached, FirstReached, Reaches, ClosedAt, Fits, ValidSession;
    CountTriggersIffSomeOrdinaryReached(s, rules, c, st, k, ticks, reference, index, limits);
    FirstIsSome(s, rules, c, rules[k].direction, st, ticks, reference, index, limits);
    VerdictAt(s, rules, ClosedAt(c, s.today, ticks, reference, index), st, k);
    if Reasons(s, rules, ClosedAt(c, s.today, ticks, reference, index), st) == {} {
      PublishedCountPrice(s, rules, c, st, k, ticks, reference, index, limits);
    }
  }

  // ---------------------------------------------------------------------------
  // A condition on the published prices
  // ---------------------------------------------------------------------------

  /** Every close that reaches the second price reaches the first one. */
  predicate NoEasier(first: Option<int>, other: Option<int>, direction: Direction) {
    other.None? || (first.Some? && if direction == Up then first.value <= other.value else other.value <= first.value)
  }

  function OrdinaryPrice(s: Session, c: Candidate, rule: Rule, st: Option<State>, reference: real, index: real, limits: PriceLimits): Option<int>
    requires ValidRule(rule) && rule.Deviation?
  {
    PriceThreshold(s, c.rows, rule, st, s.today, reference, index, limits).Ticks()
  }

  /** What the count rule's published price promises about a close of `ticks`. */
  ghost predicate ExactAt(s: Session, rules: seq<Rule>, c: Candidate, st: Option<State>, k: nat, ticks: int,
                          reference: real, index: Return, limits: PriceLimits)
    requires ValidRules(rules) && ValidSession(s) && Fits(s, st) && k < |rules| && rules[k].EventCount? && ticks > 0 && reference > 0.0
  {
    var o := Step(s, rules, ClosedAt(c, s.today, ticks, reference, index), st);
    var t := ThresholdOf(s, rules, c, rules[k], st, s.today, Some(reference), Some(index), None, limits);
    o.verdicts[k].Triggered() <==> o.state.complete && Reaches(t.Ticks(), rules[k].direction, ticks)
  }

  /** No ordinary rule of the direction has an easier price than the first one. */
  ghost predicate FirstIsEasiest(s: Session, rules: seq<Rule>, c: Candidate, direction: Direction, st: Option<State>,
                                 reference: real, index: real, limits: PriceLimits)
    requires forall rule :: rule in rules ==> ValidRule(rule)
  {
    forall j :: 0 <= j < |rules| && IsOrdinary(rules[j], direction) ==>
      OrdinaryRule(rules, direction).Some?
      && NoEasier(OrdinaryPrice(s, c, OrdinaryRule(rules, direction).value, st, reference, index, limits),
                  OrdinaryPrice(s, c, rules[j], st, reference, index, limits), direction)
  }

  /** A missing observation is missing whatever today's price is. */
  lemma VerdictReasonsIgnorePrice(s: Session, c: Candidate, st: Option<State>, rule: Rule, a: int, b: int, reference: real, index: Return)
    requires ValidRule(rule) && rule.Deviation? && ValidSession(s) && Fits(s, st) && a > 0 && b > 0 && reference > 0.0
    ensures ReasonsOf(PriceVerdict(s, ClosedAt(c, s.today, a, reference, index), st, rule))
         == ReasonsOf(PriceVerdict(s, ClosedAt(c, s.today, b, reference, index), st, rule))
  {
    var dates := RuleDates(s, st, rule);
    hide RuleDates, RowAt, SuffixDeviation, Fits, ValidSession;
    FirstMissingIgnoresPrice(c, dates, s.today, a, b, reference, index);
  }

  lemma {:induction false} FirstMissingIgnoresPrice(c: Candidate, dates: seq<Date>, today: Date, a: int, b: int, reference: real, index: Return)
    requires a > 0 && b > 0 && reference > 0.0
    ensures FirstUnpriced(ClosedAt(c, today, a, reference, index).rows, dates) == FirstUnpriced(ClosedAt(c, today, b, reference, index).rows, dates)
  {
    if |dates| > 0 {
      FirstMissingIgnoresPrice(c, dates[1..], today, a, b, reference, index);
    }
  }

  lemma {:induction false} MissingIgnoresPrice(s: Session, rules: seq<Rule>, c: Candidate, st: Option<State>, a: int, b: int,
                                               reference: real, index: Return)
    requires (forall rule :: rule in rules ==> ValidRule(rule)) && ValidSession(s) && Fits(s, st) && a > 0 && b > 0 && reference > 0.0
    ensures MissingReturns(s, rules, ClosedAt(c, s.today, a, reference, index), st)
         == MissingReturns(s, rules, ClosedAt(c, s.today, b, reference, index), st)
  {
    hide ClosedAt, PriceVerdict, ReasonsOf, Fits, ValidSession;
    if |rules| > 0 {
      var n := |rules| - 1;
      MissingIgnoresPrice(s, rules[..n], c, st, a, b, reference, index);
      assert rules[n] in rules;
      if rules[n].Deviation? { VerdictReasonsIgnorePrice(s, c, st, rules[n], a, b, reference, index); }
    }
  }

  /** Whether a close is complete does not depend on its price. */
  lemma ReasonsIgnorePrice(s: Session, rules: seq<Rule>, c: Candidate, st: Option<State>, a: int, b: int, reference: real, index: Return)
    requires (forall rule :: rule in rules ==> ValidRule(rule)) && ValidSession(s) && Fits(s, st) && a > 0 && b > 0 && reference > 0.0
    ensures Reasons(s, rules, ClosedAt(c, s.today, a, reference, index), st)
         == Reasons(s, rules, ClosedAt(c, s.today, b, reference, index), st)
  {
    MissingIgnoresPrice(s, rules, c, st, a, b, reference, index);
    hide MissingReturns, RowAt, Fits, ValidSession;
  }

  lemma PriceIsPositive(s: Session, c: Candidate, rule: Rule, st: Option<State>, reference: real, index: real, limits: PriceLimits)
    requires ValidRule(rule) && rule.Deviation?
    ensures OrdinaryPrice(s, c, rule, st, reference, index, limits).Some? ==> OrdinaryPrice(s, c, rule, st, reference, index, limits).value > 0
  {
    hide SearchHistory, BestPrice, FirstUnpriced, RoundToTick;
  }

  /** Every close that reaches an ordinary price reaches the first one exactly when none is easier. */
  lemma SomeReachedImpliesFirst(s: Session, rules: seq<Rule>, c: Candidate, direction: Direction, st: Option<State>,
                                reference: real, index: real, limits: PriceLimits)
    requires forall rule :: rule in rules ==> ValidRule(rule)
    ensures FirstIsEasiest(s, rules, c, direction, st, reference, index, limits) <==>
      forall ticks: int :: ticks > 0 && SomeOrdinaryReached(s, rules, c, direction, st, ticks, reference, index, limits) ==>
        FirstReached(s, rules, c, direction, st, ticks, reference, index, limits)
  {
    hide PriceThreshold;
    if FirstIsEasiest(s, rules, c, direction, st, reference, index, limits) {
      forall ticks: int | ticks > 0 && SomeOrdinaryReached(s, rules, c, direction, st, ticks, reference, index, limits)
        ensures FirstReached(s, rules, c, direction, st, ticks, reference, index, limits)
      {
        var j :| 0 <= j < |rules| && OrdinaryReached(s, rules, c, direction, j, st, ticks, reference, index, limits);
        assert rules[j] in rules && IsOrdinary(rules[j], direction);
      }
    } else {
      var j :| 0 <= j < |rules| && IsOrdinary(rules[j], direction)
        && !(OrdinaryRule(rules, direction).Some?
             && NoEasier(OrdinaryPrice(s, c, OrdinaryRule(rules, direction).value, st, reference, index, limits),
                         OrdinaryPrice(s, c, rules[j], st, reference, index, limits), direction));
      assert rules[j] in rules;
      PriceIsPositive(s, c, rules[j], st, reference, index, limits);
      var ticks := OrdinaryPrice(s, c, rules[j], st, reference, index, limits).value;
      assert OrdinaryReached(s, rules, c, direction, j, st, ticks, reference, index, limits);
      assert !FirstReached(s, rules, c, direction, st, ticks, reference, index, limits);
    }
  }

  /** One close is exact unless it is complete, one event short, and reaches another price only. */
  lemma ExactAtIff(s: Session, rules: seq<Rule>, c: Candidate, st: Option<State>, k: nat, ticks: int,
                   reference: real, index: Return, limits: PriceLimits)
    requires ValidRules(rules) && ValidSession(s) && Fits(s, st) && k < |rules| && rules[k].EventCount?
    requires Pending(s, rules[k], st, s.today) < rules[k].required && Effective(rules[k], s.today) && ticks > 0 && reference > 0.0
    ensures ExactAt(s, rules, c, st, k, ticks, reference, index, limits) <==>
      || Pending(s, rules[k], st, s.today) != rules[k].required - 1
      || Reasons(s, rules, ClosedAt(c, s.today, 1, reference, index), st) != {}
      || (SomeOrdinaryReached(s, rules, c, rules[k].direction, st, ticks, reference, index, limits) ==>
            FirstReached(s, rules, c, rules[k].direction, st, ticks, reference, index, limits))
  {
    hide Step, Reasons, PendingCount, ThresholdOf, SomeOrdinaryReached, FirstReached, Reaches, ClosedAt, Fits, ValidSession;
    CountPriceIsExactIff(s, rules, c, st, k, ticks, reference, index, limits);
    VerdictAt(s, rules, ClosedAt(c, s.today, ticks, reference, index), st, k);
    ReasonsIgnorePrice(s, rules, c, st, ticks, 1, reference, index);
  }

  /** The exact condition, checkable before the close: a count rule's published price answers for
      every close if and only if the rule is not one event short, no price could make the close
      complete, or no ordinary rule of its direction has an easier price than the first one. */
  lemma CountPriceIsExactForEveryClose(s: Session, rules: seq<Rule>, c: Candidate, st: Option<State>, k: nat,
                                       reference: real, index: Return, limits: PriceLimits)
    requires ValidRules(rules) && ValidSession(s) && Fits(s, st) && k < |rules| && rules[k].EventCount?
    requires Pending(s, rules[k], st, s.today) < rules[k].required && Effective(rules[k], s.today) && reference > 0.0
    ensures (forall ticks: int :: ticks > 0 ==> ExactAt(s, rules, c, st, k, ticks, reference, index, limits)) <==>
      || Pending(s, rules[k], st, s.today) != rules[k].required - 1
      || Reasons(s, rules, ClosedAt(c, s.today, 1, reference, index), st) != {}
      || FirstIsEasiest(s, rules, c, rules[k].direction, st, reference, index, limits)
  {
    hide ExactAt, FirstIsEasiest, SomeOrdinaryReached, FirstReached, Reasons, ClosedAt, PendingCount, Fits, ValidSession;
    SomeReachedImpliesFirst(s, rules, c, rules[k].direction, st, reference, index, limits);
    forall ticks: int | ticks > 0
      ensures ExactAt(s, rules, c, st, k, ticks, reference, index, limits) <==>
        || Pending(s, rules[k], st, s.today) != rules[k].required - 1
        || Reasons(s, rules, ClosedAt(c, s.today, 1, reference, index), st) != {}
        || (SomeOrdinaryReached(s, rules, c, rules[k].direction, st, ticks, reference, index, limits) ==>
              FirstReached(s, rules, c, rules[k].direction, st, ticks, reference, index, limits))
    {
      ExactAtIff(s, rules, c, st, k, ticks, reference, index, limits);
    }
  }

  /** Along every run and with any number of ordinary rules: from a reachable checkpoint a count rule
      fires exactly on a complete close that is one event short and reaches an ordinary price. */
  lemma CountRuleFiresOnRuns(rules: seq<Rule>, run: seq<Input>, k: nat, n: nat, ticks: int, reference: real, index: Return,
                             limits: PriceLimits)
    requires ValidRun(rules, run) && k < |run| && run[k].candidate.Some? && n < |rules| && rules[n].EventCount?
    requires ticks > 0 && reference > 0.0
    ensures
      var s, c, st := run[k].session, run[k].candidate.value, StateAfter(rules, run, k, true);
      var o := Step(s, rules, ClosedAt(c, s.today, ticks, reference, index), st);
      o.verdicts[n].Triggered() <==>
        && o.state.complete && Pending(s, rules[n], st, s.today) == rules[n].required - 1
        && SomeOrdinaryReached(s, rules, c, rules[n].direction, st, ticks, reference, index, limits)
  {
    hide StateAfter, Step, ClosedAt, SomeOrdinaryReached, PendingCount;
    PendingStaysBelow(rules, run, k, n);
    CountTriggersIffSomeOrdinaryReached(run[k].session, rules, run[k].candidate.value, StateAfter(rules, run, k, true), n,
                                        ticks, reference, index, limits);
  }

  // ---------------------------------------------------------------------------
  // Two ordinary rules
  // ---------------------------------------------------------------------------

  /** An ordinary rule over up to `window` sessions that asks for `threshold` percent upwards. */
  function Rising(code: string, window: nat, threshold: real): Rule {
    Deviation(code, "main", Abnormal, Up, window, threshold, 0, None)
  }

  /** On the monitor's first session no window reaches further back, whatever its length. */
  lemma FirstDayPrice(rows: Rows, code: string, window: nat, threshold: real, ticks: int, limits: PriceLimits)
    requires window >= 1 && threshold > 0.0 && ticks > 0 && 10.0 * (threshold / 100.0 + 1.0) == PriceAt(ticks)
    ensures PriceThreshold(DAY, rows, Rising(code, window, threshold), None, 1, 10.0, 0.0, limits).Ticks() == Some(ticks)
  {
    var rule := Rising(code, window, threshold);
    var history := SearchHistory(DAY, None, rule, 1);
    BeforeSnoc([], 1, 1);
    assert history == [];
    SearchOverNothing(rows, history, 10.0, 1.0, threshold, Up);
    TickRoundsToItself(ticks, Up);
    PriceTicks(DAY, rows, rule, None, 1, 10.0, 0.0, limits);
  }

  const DAY := Session(1, 1, 2, [1])

  const NEWCOMER := Candidate("x", "main", Applicable, map[], map[])

  function TwoOrdinaryRules(): seq<Rule> {
    [Rising("a", 1, 20.0), Rising("b", 2, 10.0), EventCount("n", "main", Serious, Up, 10, 1, 0, None)]
  }

  lemma TwoRuleList()
    ensures |TwoOrdinaryRules()| == 3 && ValidSession(DAY)
    ensures TwoOrdinaryRules()[0] == Rising("a", 1, 20.0) && TwoOrdinaryRules()[1] == Rising("b", 2, 10.0)
    ensures TwoOrdinaryRules()[2] == EventCount("n", "main", Serious, Up, 10, 1, 0, None)
    ensures IsOrdinary(TwoOrdinaryRules()[1], Up) && OrdinaryRule(TwoOrdinaryRules(), Up) == Some(Rising("a", 1, 20.0))
  {
  }

  lemma TwoRulesAreValid()
    ensures ValidRules(TwoOrdinaryRules()) && DistinctDimensions(TwoOrdinaryRules())
    ensures ValidRule(TwoOrdinaryRules()[1])
  {
    TwoRuleList();
    hide TwoOrdinaryRules, ValidSession, IsOrdinary, OrdinaryRule;
    assert forall rule :: rule in TwoOrdinaryRules() ==> rule == TwoOrdinaryRules()[0] || rule == TwoOrdinaryRules()[1] || rule == TwoOrdinaryRules()[2];
  }

  lemma FirstPricePublished(limits: PriceLimits)
    ensures forall rule :: rule in TwoOrdinaryRules() ==> ValidRule(rule)
    ensures ThresholdOf(DAY, TwoOrdinaryRules(), NEWCOMER, TwoOrdinaryRules()[2], None, 1, Some(10.0), Some(0.0), None, limits).Ticks()
         == Some(1200)
  {
    hide PriceThreshold, TwoOrdinaryRules, OrdinaryRule, LastN, Before, Rising, ValidRules, ValidSession;
    TwoRuleList();
    TwoRulesEach();
    FirstDayPrice(map[], "a", 1, 20.0, 1200, limits);
    var rules := TwoOrdinaryRules();
    assert rules[0] in rules && rules[2] in rules;
  }

  lemma SecondIsReached(limits: PriceLimits)
    ensures ValidRule(TwoOrdinaryRules()[1])
    ensures OrdinaryReached(DAY, TwoOrdinaryRules(), NEWCOMER, Up, 1, None, 1150, 10.0, 0.0, limits)
  {
    hide PriceThreshold;
    FirstDayPrice(map[], "b", 2, 10.0, 1100, limits);
  }

  lemma NothingPendingYet()
    ensures Pending(DAY, TwoOrdinaryRules()[2], None, 1) == 0 && TwoOrdinaryRules()[2].EventCount?
  {
    hide LastN, Before;
  }

  lemma NewcomerCloses()
    ensures ClosedAt(NEWCOMER, 1, 1150, 10.0, 0.0).applicability.Applicable? && Priced(ClosedAt(NEWCOMER, 1, 1150, 10.0, 0.0).rows, 1)
  {
  }

  lemma TwoRulesEach()
    ensures forall rule :: rule in TwoOrdinaryRules() ==> ValidRule(rule)
  {
    TwoRulesAreValid();
    hide TwoOrdinaryRules;
  }

  lemma SecondRuleFires(limits: PriceLimits)
    ensures ValidRules(TwoOrdinaryRules()) && ValidSession(DAY)
    ensures Step(DAY, TwoOrdinaryRules(), ClosedAt(NEWCOMER, 1, 1150, 10.0, 0.0), None).verdicts[2].Triggered()
  {
    hide PriceThreshold, TwoOrdinaryRules, Rising, ValidRules, ValidSession, Step, Reasons, ClosedAt, OrdinaryReached, PendingCount,
      ValidRule;
    TwoRuleList();
    TwoRulesAreValid();
    SecondIsReached(limits);
    var rules, c := TwoOrdinaryRules(), ClosedAt(NEWCOMER, 1, 1150, 10.0, 0.0);
    NothingPendingYet();
    NewcomerCloses();
    CountTriggersIffSomeOrdinaryReached(DAY, rules, NEWCOMER, None, 2, 1150, 10.0, 0.0, limits);
    TwoRulesEach();
    NothingToMiss(DAY, rules, c);
    VerdictAt(DAY, rules, c, None, 2);
  }

  /** Rules asking for 20% in one session and for 10% in two, which the program accepts together: a
      close at 11.50 fires the count rule, while its published price is 12.00. */
  lemma TwoOrdinaryRulesDisagree(limits: PriceLimits)
    ensures ValidRules(TwoOrdinaryRules()) && DistinctDimensions(TwoOrdinaryRules()) && ValidSession(DAY)
    ensures
      var published := ThresholdOf(DAY, TwoOrdinaryRules(), NEWCOMER, TwoOrdinaryRules()[2], None, 1, Some(10.0), Some(0.0), None, limits);
      && Step(DAY, TwoOrdinaryRules(), ClosedAt(NEWCOMER, 1, 1150, 10.0, 0.0), None).verdicts[2].Triggered()
      && !Reaches(published.Ticks(), Up, 1150)
  {
    hide Step, ThresholdOf, ValidRules, DistinctDimensions, TwoOrdinaryRules;
    TwoRuleList();
    TwoRulesAreValid();
    FirstPricePublished(limits);
    SecondRuleFires(limits);
  }

  /** On the monitor's first session every rule needs nothing but that session's row. */
  lemma NothingToMiss(s: Session, rules: seq<Rule>, c: Candidate)
    requires s == DAY && (forall rule :: rule in rules ==> ValidRule(rule))
    requires c.applicability.Applicable? && Priced(c.rows, 1)
    ensures Reasons(s, rules, c, None) == {}
  {
    NothingMissing(s, rules, c, None);
  }
}
