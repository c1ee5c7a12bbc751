/** What a published threshold or scenario warning says beyond its price: when there is one, whether the
    day's limits let it be reached, and where its window starts. */
module PublishedPrices {
  import opened Wrappers
  import opened TradingCalendar
  import opened RegulationRules
  import opened DeviationWindows
  import opened MonitorDay
  import opened TriggerPrice
  import opened MonitorThreshold
  import opened ThresholdExactness
  import opened ScenarioPrices
  import opened MonitorReports

  // ---------------------------------------------------------------------------
  // The threshold's price
  // ---------------------------------------------------------------------------

  /** A price that the day's limit still allows reaches the trigger. */
  ghost predicate Reachable(direction: Direction, ticks: int, limits: PriceLimits) {
    exists n: int :: Allows(direction, n, limits) && Reaches(Some(ticks), direction, n)
  }

  predicate Allows(direction: Direction, n: int, limits: PriceLimits) {
    if direction == Up then n <= limits.upper else limits.lower <= n
  }

  /** A close of `n` ticks makes some window over the history and the target session meet the threshold. */
  ghost predicate Fires(rows: Rows, history: seq<Date>, rule: Rule, reference: real, projected: real, n: int)
    requires rule.Deviation? && AllPriced(rows, history) && reference > 0.0
  {
    exists i :: 0 <= i <= |history| && WindowMeets(rows, history, i, reference, projected, rule.threshold, rule.direction, PriceAt(n))
  }

  /** The window that starts at position `i` of the history meets the threshold at the price, and every
      earlier start asks for a more extreme one or has no positive one. */
  ghost predicate FirstBestStart(rows: Rows, history: seq<Date>, rule: Rule, reference: real, projected: real, ticks: int, i: int)
    requires rule.Deviation? && AllPriced(rows, history) && reference > 0.0
  {
    && 0 <= i <= |history|
    && WindowMeets(rows, history, i, reference, projected, rule.threshold, rule.direction, PriceAt(ticks))
    && RawPrice(rows, history, i, reference, projected, rule.threshold) > 0.0
    && (forall j :: 0 <= j <= |history| && RawPrice(rows, history, j, reference, projected, rule.threshold) > 0.0 ==>
          !Beyond(rule.direction, RawPrice(rows, history, i, reference, projected, rule.threshold),
                  RawPrice(rows, history, j, reference, projected, rule.threshold)))
    && (forall j :: 0 <= j < i && RawPrice(rows, history, j, reference, projected, rule.threshold) > 0.0 ==>
          RawPrice(rows, history, j, reference, projected, rule.threshold) != RawPrice(rows, history, i, reference, projected, rule.threshold))
  }

  /** Among equally good starts the search keeps the first. */
  lemma {:induction false} BestIsFirst(rows: Rows, history: seq<Date>, k: nat, reference: real, index: real, threshold: real, direction: Direction)
    requires AllPriced(rows, history) && k <= |history| + 1
    ensures
      var best := BestPrice(rows, history, k, reference, index, threshold, direction);
      best.Some? ==> forall j :: 0 <= j < best.value.start && RawPrice(rows, history, j, reference, index, threshold) > 0.0 ==>
        RawPrice(rows, history, j, reference, index, threshold) != best.value.raw
  {
    hide RawPrice, AllPriced, BestPrice;
    if k > 0 {
      BestIsFirst(rows, history, k - 1, reference, index, threshold, direction);
      BestNext(rows, history, k - 1, reference, index, threshold, direction);
      BestPriceIsBest(rows, history, k - 1, reference, index, threshold, direction);
    } else { BestOfNone(rows, history, reference, index, threshold, direction); }
  }

  lemma LimitDecides(direction: Direction, ticks: int, limits: PriceLimits)
    ensures (if direction == Up then ticks <= limits.upper else limits.lower <= ticks) <==> Reachable(direction, ticks, limits)
  {
    if Allows(direction, ticks, limits) { assert Reaches(Some(ticks), direction, ticks); }
  }

  /** What each answer of the price search means: the first gap of the history; no positive close fires;
      or the least extreme positive close that fires, whether the limits allow one that reaches it, and
      the first of the best window starts. */
  ghost predicate Means(t: Threshold, rows: Rows, history: seq<Date>, rule: Rule, target: Date, reference: real, projected: real, limits: PriceLimits)
    requires rule.Deviation? && reference > 0.0
  {
    match t
    case Unpriced(MissingReturn(d)) => exists i :: FirstGap(rows, history, i) && history[i] == d
    case Unpriced(missing) =>
      missing == NoPositivePrice && AllPriced(rows, history) && forall n: int :: n > 0 ==> !Fires(rows, history, rule, reference, projected, n)
    case At(ticks, reachable, start) =>
      && AllPriced(rows, history) && ticks > 0
      && (forall n: int :: n > 0 ==> (Fires(rows, history, rule, reference, projected, n) <==> Reaches(Some(ticks), rule.direction, n)))
      && (reachable <==> Reachable(rule.direction, ticks, limits))
      && exists i :: FirstBestStart(rows, history, rule, reference, projected, ticks, i) && start == if i < |history| then history[i] else target
  }

  lemma PriceThresholdMeans(s: Session, rows: Rows, rule: Rule, st: Option<State>, target: Date, reference: real, index: Return,
                            limits: PriceLimits)
    requires ValidRule(rule) && rule.Deviation? && reference > 0.0
    ensures Means(PriceThreshold(s, rows, rule, st, target, reference, index, limits), rows, SearchHistory(s, st, rule, target),
                  rule, target, reference, 1.0 + index, limits)
  {
    hide SearchHistory, FirstUnpriced, BestPrice, RoundToTick, WindowMeets, RawPrice, Reachable, Reaches, FirstGap, Priced, Beyond;
    var history, projected := SearchHistory(s, st, rule, target), 1.0 + index;
    FirstUnpricedIsFirst(rows, history);
    if FirstUnpriced(rows, history).None? {
      var trigger := TriggerTicks(rows, history, reference, projected, rule.threshold, rule.direction);
      forall n: int | n > 0 ensures Fires(rows, history, rule, reference, projected, n) <==> Reaches(trigger, rule.direction, n) {
        InversionIsExact(rows, history, reference, projected, rule.threshold, rule.direction, n);
      }
      NoPriceReachesNothing(rule.direction);
      if trigger.Some? {
        LimitDecides(rule.direction, trigger.value, limits);
        StartIsFirstBest(rows, history, rule, reference, projected);
      }
    }
  }

  lemma NoPriceReachesNothing(direction: Direction)
    ensures forall n: int :: !Reaches(None, direction, n)
  {
  }

  lemma StartIsFirstBest(rows: Rows, history: seq<Date>, rule: Rule, reference: real, projected: real)
    requires ValidRule(rule) && rule.Deviation? && reference > 0.0 && AllPriced(rows, history)
    requires TriggerTicks(rows, history, reference, projected, rule.threshold, rule.direction).Some?
    ensures
      var best := BestPrice(rows, history, |history| + 1, reference, projected, rule.threshold, rule.direction);
      var ticks := TriggerTicks(rows, history, reference, projected, rule.threshold, rule.direction).value;
      best.Some? && FirstBestStart(rows, history, rule, reference, projected, ticks, best.value.start)
  {
    hide BestPrice, RoundToTick, WindowMeets, RawPrice, Priced, Beyond;
    var best := BestPrice(rows, history, |history| + 1, reference, projected, rule.threshold, rule.direction);
    BestPriceIsBest(rows, history, |history| + 1, reference, projected, rule.threshold, rule.direction);
    BestIsFirst(rows, history, |history| + 1, reference, projected, rule.threshold, rule.direction);
    RoundedPriceSatisfies(rows, history, best.value.start, reference, projected, rule.threshold, rule.direction);
  }

  // ---------------------------------------------------------------------------
  // The guards
  // ---------------------------------------------------------------------------

  /** Everything `_threshold` asks for before it searches a price. */
  ghost predicate MaySearch(s: Session, c: Candidate, rule: Rule, st: Option<State>, target: Date, reference: Option<real>,
                            index: Option<real>, issue: Option<string>) {
    && rule.effective <= target && (forall last :: rule.expire == Some(last) ==> target <= last)
    && c.applicability.Applicable? && !rule.Turnover? && issue.None?
    && (if st.None? then target == s.start else st.value.complete)
    && reference.Some? && index.Some?
  }

  /** A price is published only when every guard passes: it is then the rule's own or, for a count rule
      exactly one event short, the first ordinary rule's of its direction. */
  lemma ThresholdNeedsItsGuards(s: Session, rules: seq<Rule>, c: Candidate, rule: Rule, st: Option<State>, target: Date,
                                reference: Option<real>, index: Option<real>, issue: Option<string>, limits: PriceLimits)
    requires ValidRule(rule) && forall r :: r in rules ==> ValidRule(r)
    ensures
      var t := ThresholdOf(s, rules, c, rule, st, target, reference, index, issue, limits);
      && (!MaySearch(s, c, rule, st, target, reference, index, issue) ==> t.Unpriced?)
      && (MaySearch(s, c, rule, st, target, reference, index, issue) && rule.Deviation? ==>
            t == PriceThreshold(s, c.rows, rule, st, target, reference.value, index.value, limits))
      && (MaySearch(s, c, rule, st, target, reference, index, issue) && rule.EventCount? ==>
            if Pending(s, rule, st, target) != rule.required - 1 then t == Unpriced(MoreThanOneCloseEvent)
            else if OrdinaryRule(rules, rule.direction).None? then t == Unpriced(NoOrdinaryRule)
            else t == PriceThreshold(s, c.rows, OrdinaryRule(rules, rule.direction).value, st, target, reference.value, index.value, limits))
  {
    hide PriceThreshold, PendingCount, LastN, Before, OrdinaryRule;
  }

  /** The reasons a price can be missing before the search, with the guard of each, in their order. */
  ghost predicate Fails(reason: Missing, s: Session, c: Candidate, rule: Rule, st: Option<State>, target: Date,
                        reference: Option<real>, index: Option<real>, issue: Option<string>) {
    match reason
    case RuleNotEffective => target < rule.effective || exists last :: rule.expire == Some(last) && last < target
    case NotApplicable(why) => c.applicability == Excluded(why)
    case TurnoverHasNoPrice => rule.Turnover?
    case QuoteIssue(why) => issue == Some(why)
    case MissingCheckpoint => st.None? && target != s.start
    case BrokenChain => st.Some? && !st.value.complete
    case UnverifiedReference => reference.None? || index.None?
    case _ => false
  }

  function GuardRank(reason: Missing): nat {
    match reason
    case RuleNotEffective => 0
    case NotApplicable(_) => 1
    case TurnoverHasNoPrice => 2
    case QuoteIssue(_) => 3
    case MissingCheckpoint => 4
    case BrokenChain => 5
    case UnverifiedReference => 6
    case _ => 7
  }

  /** The reason given is that of the first guard that fails. */
  lemma FirstGuardNamesReason(s: Session, rules: seq<Rule>, c: Candidate, rule: Rule, st: Option<State>, target: Date,
                              reference: Option<real>, index: Option<real>, issue: Option<string>, limits: PriceLimits, reason: Missing)
    requires ValidRule(rule) && forall r :: r in rules ==> ValidRule(r)
    requires Fails(reason, s, c, rule, st, target, reference, index, issue)
    requires forall other :: Fails(other, s, c, rule, st, target, reference, index, issue) ==> GuardRank(reason) <= GuardRank(other)
    ensures ThresholdOf(s, rules, c, rule, st, target, reference, index, issue, limits) == Unpriced(reason)
  {
    hide PriceThreshold, PendingCount, LastN, Before, OrdinaryRule;
    assert !Fails(RuleNotEffective, s, c, rule, st, target, reference, index, issue) || reason == RuleNotEffective;
    assert reason.RuleNotEffective? || reason.NotApplicable? || c.applicability.Applicable? by {
      if c.applicability.Excluded? { assert Fails(NotApplicable(c.applicability.why), s, c, rule, st, target, reference, index, issue); }
    }
    assert GuardRank(reason) <= 2 || !Fails(TurnoverHasNoPrice, s, c, rule, st, target, reference, index, issue);
    assert GuardRank(reason) <= 3 || issue.None? by {
      if issue.Some? { assert Fails(QuoteIssue(issue.value), s, c, rule, st, target, reference, index, issue); }
    }
    assert GuardRank(reason) <= 4 || !Fails(MissingCheckpoint, s, c, rule, st, target, reference, index, issue);
    assert GuardRank(reason) <= 5 || !Fails(BrokenChain, s, c, rule, st, target, reference, index, issue);
  }

  /** The ordinary rule chosen is the first one of its direction. */
  lemma {:induction false} OrdinaryIsFirst(rules: seq<Rule>, direction: Direction)
    ensures OrdinaryRule(rules, direction).Some? ==>
      exists k :: 0 <= k < |rules| && rules[k] == OrdinaryRule(rules, direction).value && forall j :: 0 <= j < k ==> !IsOrdinary(rules[j], direction)
  {
    hide IsOrdinary;
    if |rules| > 0 && OrdinaryRule(rules, direction).Some? {
      if IsOrdinary(rules[0], direction) {
        assert rules[0] == OrdinaryRule(rules, direction).value;
      } else {
        OrdinaryIsFirst(rules[1..], direction);
        var k :| 0 <= k < |rules| - 1 && rules[1..][k] == OrdinaryRule(rules[1..], direction).value
          && forall j :: 0 <= j < k ==> !IsOrdinary(rules[1..][j], direction);
        forall j | 0 <= j < k + 1 ensures !IsOrdinary(rules[j], direction) { if j > 0 { assert rules[j] == rules[1..][j - 1]; } }
        assert rules[k + 1] == OrdinaryRule(rules, direction).value;
      }
    }
  }

  // ---------------------------------------------------------------------------
  // Counts
  // ---------------------------------------------------------------------------

  /** One of the last `window` sessions. */
  ghost predicate AmongLast(dates: seq<Date>, window: nat, d: Date) {
    exists k :: 0 <= k < |dates| && |dates| - window <= k && dates[k] == d
  }

  /** The logged events a count rule counts: ordinary price events of its direction, dated in one of the
      window's sessions and not before the floor. */
  ghost function CountedPositions(events: seq<Event>, direction: Direction, dates: seq<Date>, window: nat, floor: Date): set<nat> {
    set i | 0 <= i < |events| && IsCounted(events[i], direction, dates, window, floor)
  }

  ghost predicate IsCounted(e: Event, direction: Direction, dates: seq<Date>, window: nat, floor: Date) {
    e.level == Abnormal && e.kind == Price && e.direction == direction && AmongLast(dates, window, e.date) && floor <= e.date
  }

  lemma InLastN(dates: seq<Date>, window: nat, d: Date)
    ensures d in LastN(dates, window) <==> AmongLast(dates, window, d)
  {
    var tail := LastN(dates, window);
    if d in tail {
      var i :| 0 <= i < |tail| && tail[i] == d;
      assert dates[|dates| - |tail| + i] == d;
    }
    if k :| 0 <= k < |dates| && |dates| - window <= k && dates[k] == d {
      assert tail[k - (|dates| - |tail|)] == d;
    }
  }

  lemma {:induction false} CountIsEventsInWindow(events: seq<Event>, direction: Direction, dates: seq<Date>, window: nat, floor: Date)
    ensures CountOf(events, direction, LastN(dates, window), floor) == |CountedPositions(events, direction, dates, window, floor)|
  {
    hide IsCounted, Counts, LastN;
    if |events| == 0 {
      assert CountedPositions(events, direction, dates, window, floor) == {};
    } else {
      var n := |events| - 1;
      CountIsEventsInWindow(events[..n], direction, dates, window, floor);
      CountedSnoc(events, direction, dates, window, floor);
      SameCount(events[n], direction, dates, window, floor);
    }
  }

  lemma SameCount(e: Event, direction: Direction, dates: seq<Date>, window: nat, floor: Date)
    ensures Counts(e, direction, LastN(dates, window), floor) <==> IsCounted(e, direction, dates, window, floor)
  {
    hide LastN, AmongLast;
    InLastN(dates, window, e.date);
  }

  lemma CountedSnoc(events: seq<Event>, direction: Direction, dates: seq<Date>, window: nat, floor: Date)
    requires |events| > 0
    ensures
      var n := |events| - 1;
      |CountedPositions(events, direction, dates, window, floor)|
        == |CountedPositions(events[..n], direction, dates, window, floor)| + if IsCounted(events[n], direction, dates, window, floor) then 1 else 0
  {
    hide IsCounted;
    var n := |events| - 1;
    var before, after := CountedPositions(events[..n], direction, dates, window, floor), CountedPositions(events, direction, dates, window, floor);
    assert after == before + if IsCounted(events[n], direction, dates, window, floor) then {n} else {};
  }

  /** On a complete close a count rule's verdict is the number of such events in the kept log and among
      today's, against its requirement. */
  lemma CountVerdictCounts(s: Session, rules: seq<Rule>, c: Candidate, st: Option<State>, k: nat)
    requires (forall rule :: rule in rules ==> ValidRule(rule)) && ValidSession(s) && Fits(s, st)
    requires k < |rules| && rules[k].EventCount? && Step(s, rules, c, st).state.complete
    ensures
      var log := Retained(s, LogOf(st)) + EventsOf(s.today, rules, BaseVerdicts(s, rules, c, st), Abnormal);
      var count := |CountedPositions(log, rules[k].direction, s.dates, rules[k].countWindow, Floor(s, st, Serious))|;
      Step(s, rules, c, st).verdicts[k] == Counted(count >= rules[k].required, count)
  {
    hide EventsOf, BaseVerdicts, Retained, CountOf, LastN, Floor, CountedPositions, Step, ValidSession, Fits;
    var log := Retained(s, LogOf(st)) + EventsOf(s.today, rules, BaseVerdicts(s, rules, c, st), Abnormal);
    VerdictAt(s, rules, c, st, k);
    CountIsEventsInWindow(log, rules[k].direction, s.dates, rules[k].countWindow, Floor(s, st, Serious));
  }

  /** The floor of a level: the latest of the monitor start and the resets that bound the level. */
  lemma FloorIsLatestReset(s: Session, st: State, level: Level)
    requires Fits(s, Some(st))
    ensures
      var floor := Floor(s, Some(st), level);
      && s.start <= floor
      && (st.seriousReset.Some? ==> st.seriousReset.value <= floor)
      && (level == Abnormal && st.abnormalReset.Some? ==> st.abnormalReset.value <= floor)
      && (floor == s.start || st.seriousReset == Some(floor) || (level == Abnormal && st.abnormalReset == Some(floor)))
  {
  }

  // ---------------------------------------------------------------------------
  // Scenario warnings
  // ---------------------------------------------------------------------------

  lemma AnswerStartsThere(rows: Rows, history: seq<Date>, i: nat, reference: real, index: real, threshold: real)
    requires i <= |history| && AllPriced(rows, history[i..])
    ensures AnswerAt(rows, history, i, reference, index, threshold).start == i
  {
    hide StockFactor, IndexFactor;
  }

  /** Equally required returns are decided by the window start: the earliest upwards, the latest downwards. */
  lemma {:induction false} ChoiceBreaksTies(rows: Rows, history: seq<Date>, k: nat, i: nat, reference: real, index: real,
                                            threshold: real, direction: Direction)
    requires i < k <= |history| + 1 && reference > 0.0 && Solvable(rows, history, i, reference, index, threshold)
    requires
      var best := Choose(rows, history, k, reference, index, threshold, direction);
      best.Some? && AnswerAt(rows, history, i, reference, index, threshold).required == best.value.required
    ensures
      var best := Choose(rows, history, k, reference, index, threshold, direction);
      if direction == Up then best.value.start <= i else i <= best.value.start
  {
    hide AnswerAt, AllPriced, Choose;
    ChooseNext(rows, history, k - 1, reference, index, threshold, direction);
    if AllPriced(rows, history[k - 1..]) { AnswerStartsThere(rows, history, k - 1, reference, index, threshold); }
    if i < k - 1 {
      var before := Choose(rows, history, k - 1, reference, index, threshold, direction);
      ChoiceIsExtreme(rows, history, k - 1, i, reference, index, threshold, direction);
      RequiredOrdersRaw(rows, history, before.value.start, i, reference, index, threshold);
      if Choose(rows, history, k, reference, index, threshold, direction) == before {
        ChoiceBreaksTies(rows, history, k - 1, i, reference, index, threshold, direction);
      }
    }
  }

  lemma TickPrice(ticks: int, tick: real)
    ensures Multiple(ticks, tick) == ticks as real * tick
  {
  }

  lemma NothingSolvable(rows: Rows, history: seq<Date>, reference: real, index: real, threshold: real, direction: Direction)
    requires reference > 0.0 && Choose(rows, history, |history| + 1, reference, index, threshold, direction).None?
    ensures forall j :: 0 <= j <= |history| ==> !Solvable(rows, history, j, reference, index, threshold)
  {
    hide Choose, Solvable;
    forall j | 0 <= j <= |history| ensures !Solvable(rows, history, j, reference, index, threshold) {
      if Solvable(rows, history, j, reference, index, threshold) {
        ChoiceIsExtreme(rows, history, |history| + 1, j, reference, index, threshold, direction);
      }
    }
  }

  /** A scenario warning is about a solvable window that no other beats, ties decided by its start; its
      price is that window's rounded to the stock's tick, and it is reachable when some price that the
      limit allows reaches it. Without a warning no window is solvable. */
  lemma WarningMeans(rows: Rows, history: seq<Date>, next: Date, scenario: nat, reference: real, threshold: real,
                     direction: Direction, tick: real, lower: real, upper: real)
    requires tick > 0.0 && scenario < |SCENARIOS| && reference > 0.0
    ensures
      var index := 1.0 + SCENARIOS[scenario];
      var ws := WarningFor(rows, history, next, scenario, reference, threshold, direction, tick, lower, upper);
      && |ws| <= 1
      && (ws == [] ==> forall j :: 0 <= j <= |history| ==> !Solvable(rows, history, j, reference, index, threshold))
      && (|ws| == 1 ==>
            && ws[0].scenario == scenario && ws[0].ticks == RoundToTick(ws[0].raw, tick, direction)
            && (ws[0].reachable <==> TickReachable(direction, ws[0].ticks, tick, lower, upper))
            && exists i :: IsChosen(rows, history, reference, index, threshold, direction, i, ws[0].raw)
                 && ws[0].start == if i < |history| then history[i] else next)
  {
    hide Choose, RoundToTick, AnswerAt, AllPriced, Solvable, IsChosen, TickReachable, Multiple;
    var index := 1.0 + SCENARIOS[scenario];
    var best := Choose(rows, history, |history| + 1, reference, index, threshold, direction);
    if best.None? {
      NothingSolvable(rows, history, reference, index, threshold, direction);
    } else {
      ChosenStart(rows, history, reference, index, threshold, direction);
      TickLimitDecides(direction, RoundToTick(best.value.raw, tick, direction), tick, lower, upper);
      TickPrice(RoundToTick(best.value.raw, tick, direction), tick);
    }
  }

  predicate Ties(rows: Rows, history: seq<Date>, j: nat, reference: real, index: real, threshold: real, raw: real)
    requires j <= |history|
  {
    Solvable(rows, history, j, reference, index, threshold) && AnswerAt(rows, history, j, reference, index, threshold).raw == raw
  }

  ghost predicate IsChosen(rows: Rows, history: seq<Date>, reference: real, index: real, threshold: real, direction: Direction, i: int, raw: real) {
    && 0 <= i <= |history| && Solvable(rows, history, i, reference, index, threshold)
    && AnswerAt(rows, history, i, reference, index, threshold).raw == raw
    && (forall j :: 0 <= j <= |history| && Solvable(rows, history, j, reference, index, threshold) ==>
          !Beyond(direction, raw, AnswerAt(rows, history, j, reference, index, threshold).raw))
    && (forall j :: 0 <= j <= |history| && Ties(rows, history, j, reference, index, threshold, raw) ==>
          if direction == Up then i <= j else j <= i)
  }

  lemma ChosenStart(rows: Rows, history: seq<Date>, reference: real, index: real, threshold: real, direction: Direction)
    requires reference > 0.0 && Choose(rows, history, |history| + 1, reference, index, threshold, direction).Some?
    ensures
      var best := Choose(rows, history, |history| + 1, reference, index, threshold, direction).value;
      IsChosen(rows, history, reference, index, threshold, direction, best.start, best.raw)
  {
    hide Choose, AnswerAt, AllPriced, Beyond;
    var best := Choose(rows, history, |history| + 1, reference, index, threshold, direction).value;
    forall j | 0 <= j <= |history| && Solvable(rows, history, j, reference, index, threshold)
      ensures !Beyond(direction, best.raw, AnswerAt(rows, history, j, reference, index, threshold).raw)
      ensures AnswerAt(rows, history, j, reference, index, threshold).raw == best.raw ==> if direction == Up then best.start <= j else j <= best.start
    {
      ChoiceIsExtreme(rows, history, |history| + 1, j, reference, index, threshold, direction);
      RequiredOrdersRaw(rows, history, best.start, j, reference, index, threshold);
      if AnswerAt(rows, history, j, reference, index, threshold).raw == best.raw {
        ChoiceBreaksTies(rows, history, |history| + 1, j, reference, index, threshold, direction);
      }
    }
  }

  predicate AllowsTick(direction: Direction, n: int, tick: real, lower: real, upper: real) {
    if direction == Up then Multiple(n, tick) <= upper else lower <= Multiple(n, tick)
  }

  ghost predicate TickReachable(direction: Direction, ticks: int, tick: real, lower: real, upper: real) {
    exists n: int :: AllowsTick(direction, n, tick, lower, upper) && Reaches(Some(ticks), direction, n)
  }

  lemma TickLimitDecides(direction: Direction, ticks: int, tick: real, lower: real, upper: real)
    requires tick > 0.0
    ensures (if direction == Up then Multiple(ticks, tick) <= upper else Multiple(ticks, tick) >= lower) <==>
      TickReachable(direction, ticks, tick, lower, upper)
  {
    hide Multiple;
    if AllowsTick(direction, ticks, tick, lower, upper) { assert Reaches(Some(ticks), direction, ticks); }
    if n: int :| AllowsTick(direction, n, tick, lower, upper) && Reaches(Some(ticks), direction, n) {
      if direction == Up { TicksGrow(ticks, n, tick); } else { TicksGrow(n, ticks, tick); }
    }
  }
}
