/** The intraday price thresholds: `_threshold`, and their exactness against the close. */
module MonitorThreshold {
  import opened Wrappers
  import opened TradingCalendar
  import opened RegulationRules
  import opened DeviationWindows
  import opened MonitorDay
  import opened TriggerPrice

  datatype Missing =
    | RuleNotEffective
    | NotApplicable(why: string)
    | TurnoverHasNoPrice
    | QuoteIssue(issue: string)
    | MissingCheckpoint
    | BrokenChain
    | UnverifiedReference
    | MoreThanOneCloseEvent
    | NoOrdinaryRule
    | MissingReturn(date: Date)
    | NoPositivePrice

  /** A price in ticks with its reachability inside the day's limits, or why there is none. */
  datatype Threshold =
    | At(ticks: int, reachable: bool, start: Date)
    | Unpriced(missing: Missing)
  {
    function Ticks(): Option<int> { if this.At? then Some(ticks) else None }
  }

  datatype PriceLimits = PriceLimits(lower: int, upper: int)

  predicate Effective(rule: Rule, day: Date) {
    rule.effective <= day && (rule.expire.Some? ==> day <= rule.expire.value)
  }

  /** Logged ordinary events that would still count at `target`. */
  function PendingCount(events: seq<Event>, direction: Direction, sessions: seq<Date>,
                        start: Date, floor: Date, target: Date): nat
  {
    if |events| == 0 then 0
    else
      var e := events[|events| - 1];
      PendingCount(events[..|events| - 1], direction, sessions, start, floor, target)
      + if Counts(e, direction, sessions, floor) && start <= e.date < target then 1 else 0
  }

  /** The first ordinary deviation rule in a direction. */
  function OrdinaryRule(rules: seq<Rule>, direction: Direction): (ordinary: Option<Rule>)
    ensures ordinary.Some? ==> ordinary.value in rules && IsOrdinary(ordinary.value, direction)
    ensures ordinary.None? ==> forall rule :: rule in rules ==> !IsOrdinary(rule, direction)
  {
    if |rules| == 0 then None
    else if IsOrdinary(rules[0], direction) then Some(rules[0])
    else OrdinaryRule(rules[1..], direction)
  }

  predicate IsOrdinary(rule: Rule, direction: Direction) {
    rule.Deviation? && rule.level == Abnormal && rule.direction == direction
  }

  function SearchFloor(s: Session, st: Option<State>, level: Level): Date {
    match st
    case None => s.start
    case Some(st) =>
      var reset := Max(s.start, st.seriousReset.GetOr(s.start));
      if level == Abnormal then Max(reset, st.abnormalReset.GetOr(reset)) else reset
  }

  /** The sessions a window ending at `target` may start from, before `target` itself. */
  function SearchHistory(s: Session, st: Option<State>, rule: Rule, target: Date): seq<Date>
    requires rule.Deviation? && rule.window >= 1
  {
    From(LastN(Before(s.dates, target), rule.window - 1), SearchFloor(s, st, rule.level))
  }

  function PriceThreshold(s: Session, rows: Rows, rule: Rule, st: Option<State>, target: Date,
                          reference: real, index: real, limits: PriceLimits): Threshold
    requires ValidRule(rule) && rule.Deviation?
  {
    var history := SearchHistory(s, st, rule, target);
    match FirstUnpriced(rows, history)
    case Some(d) => Unpriced(MissingReturn(d))
    case None =>
      match TriggerTicks(rows, history, reference, 1.0 + index, rule.threshold, rule.direction)
      case None => Unpriced(NoPositivePrice)
      case Some(ticks) =>
        var best := BestPrice(rows, history, |history| + 1, reference, 1.0 + index, rule.threshold, rule.direction);
        At(ticks,
           if rule.direction == Up then ticks <= limits.upper else limits.lower <= ticks,
           if best.value.start < |history| then history[best.value.start] else target)
  }

  /** `_threshold` for one rule, one target session and one index return. */
  function ThresholdOf(s: Session, rules: seq<Rule>, c: Candidate, rule: Rule, st: Option<State>, target: Date,
                       reference: Option<real>, index: Option<real>, issue: Option<string>, limits: PriceLimits): Threshold
    requires ValidRule(rule) && forall r :: r in rules ==> ValidRule(r)
  {
    if !Effective(rule, target) then Unpriced(RuleNotEffective)
    else if c.applicability.Excluded? then Unpriced(NotApplicable(c.applicability.why))
    else if rule.Turnover? then Unpriced(TurnoverHasNoPrice)
    else if issue.Some? then Unpriced(QuoteIssue(issue.value))
    else if st.None? && target != s.start then Unpriced(MissingCheckpoint)
    else if st.Some? && !st.value.complete then Unpriced(BrokenChain)
    else if reference.None? || index.None? then Unpriced(UnverifiedReference)
    else if rule.EventCount? then
      var sessions := LastN(Before(s.dates, target) + [target], rule.countWindow);
      var floor := if st.Some? then st.value.seriousReset.GetOr(s.start) else s.start;
      if PendingCount(LogOf(st), rule.direction, sessions, s.start, floor, target) != rule.required - 1
      then Unpriced(MoreThanOneCloseEvent)
      else
        match OrdinaryRule(rules, rule.direction)
        case None => Unpriced(NoOrdinaryRule)
        case Some(ordinary) => PriceThreshold(s, c.rows, ordinary, st, target, reference.value, index.value, limits)
    else PriceThreshold(s, c.rows, rule, st, target, reference.value, index.value, limits)
  }

  // ---------------------------------------------------------------------------
  // The price search as the program runs it
  // ---------------------------------------------------------------------------

  lemma RawPriceFromFactors(rows: Rows, history: seq<Date>, i: nat, reference: real, index: real, threshold: real,
                            stock: real, benchmark: real)
    requires AllPriced(rows, history) && i <= |history|
    requires stock == StockFactor(rows, history[i..]) && benchmark == IndexFactor(rows, history[i..])
    ensures Boundary(reference, threshold, benchmark * index, stock) == RawPrice(rows, history, i, reference, index, threshold)
  {
  }

  /** The search loop: the first best positive raw price, with the factors it was found with. */
  method FindBest(rows: Rows, history: seq<Date>, reference: real, index: real, threshold: real, direction: Direction)
    returns (best: Option<Solution>, stockFactor: real, indexFactor: real)
    requires AllPriced(rows, history)
    ensures best == BestPrice(rows, history, |history| + 1, reference, index, threshold, direction)
    ensures best.Some? ==> stockFactor == StockFactor(rows, history[best.value.start..])
    ensures best.Some? ==> indexFactor == IndexFactor(rows, history[best.value.start..]) * index
  {
    hide StockFactor, IndexFactor, Boundary, RawPrice, BestPrice, Priced;
    best, stockFactor, indexFactor := None, 1.0, 1.0;
    BestOfNone(rows, history, reference, index, threshold, direction);
    for k := 0 to |history| + 1
      invariant best == BestPrice(rows, history, k, reference, index, threshold, direction)
      invariant best.Some? ==> stockFactor == StockFactor(rows, history[best.value.start..])
      invariant best.Some? ==> indexFactor == IndexFactor(rows, history[best.value.start..]) * index
    {
      var stock, benchmark := CompoundWindow(rows, history[k..]);
      var raw := Boundary(reference, threshold, benchmark * index, stock);
      RawPriceFromFactors(rows, history, k, reference, index, threshold, stock, benchmark);
      BestNext(rows, history, k, reference, index, threshold, direction);
      if raw > 0.0 && (best.None? || Beyond(direction, best.value.raw, raw)) {
        best, stockFactor, indexFactor := Some(Solution(raw, k)), stock, benchmark * index;
      }
    }
  }

  /** The price of `_threshold` with its one-tick correction: the correction is reached only
      when the rounded price does not satisfy the threshold, which never happens exactly. */
  method SearchPrice(rows: Rows, history: seq<Date>, reference: real, index: real,
                     threshold: real, direction: Direction) returns (ticks: Option<int>)
    requires AllPriced(rows, history) && reference > 0.0 && direction != NoDirection
    ensures ticks == TriggerTicks(rows, history, reference, index, threshold, direction)
  {
    hide StockFactor, IndexFactor, BestPrice;
    var best, stockFactor, indexFactor := FindBest(rows, history, reference, index, threshold, direction);
    if best.None? {
      return None;
    }
    var price := RoundToTick(best.value.raw, TICK, direction);
    var deviation := (stockFactor * (PriceAt(price) / reference) - indexFactor) * 100.0;
    RoundedPriceSatisfies(rows, history, best.value.start, reference, index, threshold, direction);
    assert Meets(direction, deviation, threshold);
    if !Meets(direction, deviation, threshold) {
      price := if direction == Up then price + 1 else price - 1;
    }
    ticks := if price > 0 then Some(price) else None;
  }

  lemma RoundedPriceSatisfies(rows: Rows, history: seq<Date>, i: nat, reference: real, index: real,
                              threshold: real, direction: Direction)
    requires AllPriced(rows, history) && i <= |history| && reference > 0.0 && direction != NoDirection
    ensures
      var price := RoundToTick(RawPrice(rows, history, i, reference, index, threshold), TICK, direction);
      WindowMeets(rows, history, i, reference, index, threshold, direction, PriceAt(price))
  {
    var raw := RawPrice(rows, history, i, reference, index, threshold);
    var price := RoundToTick(raw, TICK, direction);
    RoundingIsExact(raw, TICK, direction, price);
    WindowMeetsIffPastRaw(rows, history, i, reference, index, threshold, direction, PriceAt(price));
  }

  /** The price part of `_threshold`: check the rows, search, round, and place in the limits. */
  method FindThreshold(s: Session, rows: Rows, rule: Rule, st: Option<State>, target: Date,
                       reference: real, index: real, limits: PriceLimits) returns (t: Threshold)
    requires ValidRule(rule) && rule.Deviation? && reference > 0.0
    ensures t == PriceThreshold(s, rows, rule, st, target, reference, index, limits)
  {
    var history := SearchHistory(s, st, rule, target);
    var missing := CheckRows(rows, history);
    if missing.Some? {
      return Unpriced(MissingReturn(missing.value));
    }
    hide SearchHistory, FirstUnpriced, BestPrice, RoundToTick;
    var best, _, _ := FindBest(rows, history, reference, 1.0 + index, rule.threshold, rule.direction);
    var ticks := SearchPrice(rows, history, reference, 1.0 + index, rule.threshold, rule.direction);
    if ticks.None? {
      return Unpriced(NoPositivePrice);
    }
    t := At(ticks.value,
            if rule.direction == Up then ticks.value <= limits.upper else limits.lower <= ticks.value,
            if best.value.start < |history| then history[best.value.start] else target);
  }

  /** `_threshold`: every guard in turn, then the price search of the rule itself or, for a count
      rule one event short, of the first ordinary rule in its direction. */
  method PublishThreshold(s: Session, rules: seq<Rule>, c: Candidate, rule: Rule, st: Option<State>, target: Date,
                          reference: Option<real>, index: Option<real>, issue: Option<string>, limits: PriceLimits)
    returns (t: Threshold)
    requires ValidRule(rule) && (forall r :: r in rules ==> ValidRule(r)) && (reference.Some? ==> reference.value > 0.0)
    ensures t == ThresholdOf(s, rules, c, rule, st, target, reference, index, issue, limits)
  {
    hide PriceThreshold, PendingCount, LastN, Before;
    if !Effective(rule, target) { return Unpriced(RuleNotEffective); }
    if c.applicability.Excluded? { return Unpriced(NotApplicable(c.applicability.why)); }
    if rule.Turnover? { return Unpriced(TurnoverHasNoPrice); }
    if issue.Some? { return Unpriced(QuoteIssue(issue.value)); }
    if st.None? && target != s.start { return Unpriced(MissingCheckpoint); }
    if st.Some? && !st.value.complete { return Unpriced(BrokenChain); }
    if reference.None? || index.None? { return Unpriced(UnverifiedReference); }
    var priced := rule;
    if rule.EventCount? {
      var sessions := LastN(Before(s.dates, target) + [target], rule.countWindow);
      var floor := if st.Some? then st.value.seriousReset.GetOr(s.start) else s.start;
      if PendingCount(LogOf(st), rule.direction, sessions, s.start, floor, target) != rule.required - 1 {
        return Unpriced(MoreThanOneCloseEvent);
      }
      var ordinary := OrdinaryRule(rules, rule.direction);
      if ordinary.None? { return Unpriced(NoOrdinaryRule); }
      priced := ordinary.value;
    }
    t := FindThreshold(s, c.rows, priced, st, target, reference.value, index.value, limits);
  }
}
