/** A published price threshold and the close that follows agree exactly. */
module ThresholdExactness {
  import opened Wrappers
  import opened TradingCalendar
  import opened RegulationRules
  import opened DeviationWindows
  import opened MonitorDay
  import opened TriggerPrice
  import opened MonitorThreshold

  /** The row of a session that closes at `ticks`. */
  function RowAt(ticks: int, reference: real, index: Return): Row
    requires ticks > 0 && reference > 0.0
  {
    PositiveQuotient(PriceAt(ticks), reference);
    Row(Some(PriceAt(ticks) / reference - 1.0), Some(index))
  }

  /** The stock's inputs once the session closes at `ticks`. */
  function ClosedAt(c: Candidate, day: Date, ticks: int, reference: real, index: Return): Candidate
    requires ticks > 0 && reference > 0.0
  {
    c.(rows := c.rows[day := RowAt(ticks, reference, index)])
  }

  /** The eligible sessions of today's close are the searched history and today. */
  lemma EligibleIsHistoryAndToday(s: Session, st: Option<State>, rule: Rule)
    requires ValidRule(rule) && rule.Deviation? && ValidSession(s) && Fits(s, st)
    ensures RuleDates(s, st, rule) == SearchHistory(s, st, rule, s.today) + [s.today]
    ensures forall d :: d in SearchHistory(s, st, rule, s.today) ==> d < s.today
  {
    hide Floor, SearchFloor, Eligible, From, LastN, Before, Fits;
    FloorByToday(s, st, rule.level);
    var earlier := s.dates[..|s.dates| - 1];
    assert s.dates == earlier + [s.today];
    assert forall i :: 0 <= i < |earlier| ==> earlier[i] < s.today;
    hide Increasing;
    EligibleOfSnoc(earlier, s.today, rule.window, Floor(s, st, rule.level));
    HistoryIsEarlier(s, st, rule);
  }

  lemma HistoryIsEarlier(s: Session, st: Option<State>, rule: Rule)
    requires rule.Deviation? && rule.window >= 1
    ensures forall d :: d in SearchHistory(s, st, rule, s.today) ==> d < s.today
  {
    hide SearchFloor, From, LastN, Before;
  }

  lemma FloorByToday(s: Session, st: Option<State>, level: Level)
    requires ValidSession(s) && Fits(s, st)
    ensures SearchFloor(s, st, level) == Floor(s, st, level) <= s.today
  {
  }

  lemma EligibleOfSnoc(earlier: seq<Date>, today: Date, window: nat, floor: Date)
    requires window >= 1 && floor <= today
    requires forall i :: 0 <= i < |earlier| ==> earlier[i] < today
    ensures Eligible(earlier + [today], window, floor)
         == From(LastN(Before(earlier + [today], today), window - 1), floor) + [today]
  {
    BeforeSnoc(earlier, today, today);
    BeforeAll(earlier, today);
    assert earlier + [] == earlier;
    LastNSnoc(earlier, today, window);
    FromSnoc(LastN(earlier, window - 1), today, floor);
  }

  /** With nothing missing, every deviation rule saw every row of its window. */
  lemma {:induction false} CompleteMeansPriced(s: Session, rules: seq<Rule>, c: Candidate, st: Option<State>, rule: Rule)
    requires (forall r :: r in rules ==> ValidRule(r)) && ValidSession(s) && Fits(s, st)
    requires MissingReturns(s, rules, c, st) == {}
    requires rule in rules && rule.Deviation?
    ensures AllPriced(c.rows, RuleDates(s, st, rule))
  {
    var n := |rules| - 1;
    if rules[n] == rule {
      var e := PriceVerdict(s, c, st, rule);
      assert ReasonsOf(e) == {};
    } else {
      CompleteMeansPriced(s, rules[..n], c, st, rule);
    }
  }

  /** Suffixes of history-and-today are exactly the windows the search considered. */
  lemma SuffixIsWindow(rows: Rows, history: seq<Date>, today: Date, i: nat, ticks: int, reference: real, index: Return,
                       threshold: real, direction: Direction)
    requires i <= |history| && reference > 0.0 && ticks > 0
    requires AllPriced(rows, history) && today in rows && rows[today] == RowAt(ticks, reference, index)
    ensures Meets(direction, SuffixDeviation(rows, history + [today], |history| + 1 - i), threshold)
        <==> WindowMeets(rows, history, i, reference, 1.0 + index, threshold, direction, PriceAt(ticks))
  {
    var all := history + [today];
    var window := all[|all| - (|history| + 1 - i)..];
    assert window == history[i..] + [today];
    assert window[..|window| - 1] == history[i..];
    assert StockFactor(rows, window) == StockFactor(rows, history[i..]) * (1.0 + rows[today].stock.value);
    assert IndexFactor(rows, window) == IndexFactor(rows, history[i..]) * (1.0 + rows[today].index.value);
  }

  lemma PricedAlike(rows: Rows, rows': Rows, history: seq<Date>)
    requires AllPriced(rows, history)
    requires forall d :: d in history ==> d in rows' && rows'[d] == rows[d]
    ensures AllPriced(rows', history)
  {
    forall i | 0 <= i < |history| ensures Priced(rows', history[i]) {
      var d := history[i];
      assert d in history && Priced(rows, history[i]);
    }
  }

  lemma RawPriceDependsOnHistory(rows: Rows, rows': Rows, history: seq<Date>, i: nat, reference: real,
                                 index: real, threshold: real)
    requires AllPriced(rows, history) && i <= |history|
    requires forall d :: d in history ==> d in rows' && rows'[d] == rows[d]
    ensures AllPriced(rows', history)
    ensures RawPrice(rows, history, i, reference, index, threshold) == RawPrice(rows', history, i, reference, index, threshold)
  {
    PricedAlike(rows, rows', history);
    FactorsDependOnDates(rows, rows', history[i..]);
  }

  /** The price search looks only at the history's rows. */
  lemma {:induction false} SearchDependsOnHistory(rows: Rows, rows': Rows, history: seq<Date>, k: nat, reference: real,
                                                  index: real, threshold: real, direction: Direction)
    requires AllPriced(rows, history) && k <= |history| + 1
    requires forall d :: d in history ==> d in rows' && rows'[d] == rows[d]
    ensures AllPriced(rows', history)
    ensures BestPrice(rows, history, k, reference, index, threshold, direction)
         == BestPrice(rows', history, k, reference, index, threshold, direction)
  {
    hide RawPrice, AllPriced, BestPrice;
    PricedAlike(rows, rows', history);
    if k > 0 {
      SearchDependsOnHistory(rows, rows', history, k - 1, reference, index, threshold, direction);
      RawPriceDependsOnHistory(rows, rows', history, k - 1, reference, index, threshold);
      BestNext(rows, history, k - 1, reference, index, threshold, direction);
      BestNext(rows', history, k - 1, reference, index, threshold, direction);
    } else {
      BestOfNone(rows, history, reference, index, threshold, direction);
      BestOfNone(rows', history, reference, index, threshold, direction);
    }
  }

  lemma TriggerTicksDependOnHistory(rows: Rows, rows': Rows, history: seq<Date>, reference: real, index: real,
                                    threshold: real, direction: Direction)
    requires AllPriced(rows, history)
    requires forall d :: d in history ==> d in rows' && rows'[d] == rows[d]
    ensures AllPriced(rows', history)
    ensures TriggerTicks(rows, history, reference, index, threshold, direction)
         == TriggerTicks(rows', history, reference, index, threshold, direction)
  {
    hide BestPrice;
    SearchDependsOnHistory(rows, rows', history, |history| + 1, reference, index, threshold, direction);
  }

  lemma AllPricedWithToday(rows: Rows, history: seq<Date>, today: Date, ticks: int, reference: real, index: Return)
    requires AllPriced(rows, history) && reference > 0.0 && ticks > 0
    requires today in rows && rows[today] == RowAt(ticks, reference, index)
    ensures AllPriced(rows, history + [today])
  {
  }

  /** Some suffix of history-and-today meets the threshold iff some window of the search does. */
  lemma SuffixesAreWindows(rows: Rows, history: seq<Date>, today: Date, all: seq<Date>, ticks: int, reference: real,
                           index: Return, projected: real, threshold: real, direction: Direction)
    requires projected == 1.0 + index && reference > 0.0 && ticks > 0
    requires AllPriced(rows, history) && all == history + [today] && AllPriced(rows, all)
    requires today in rows && rows[today] == RowAt(ticks, reference, index)
    ensures (exists n :: 1 <= n <= |all| && Meets(direction, SuffixDeviation(rows, all, n), threshold))
       <==> (exists i :: 0 <= i <= |history| && WindowMeets(rows, history, i, reference, projected, threshold, direction, PriceAt(ticks)))
  {
    hide StockFactor, IndexFactor, SuffixDeviation, WindowMeets, RowAt, AllPriced, Meets;
    if n :| 1 <= n <= |all| && Meets(direction, SuffixDeviation(rows, all, n), threshold) {
      SuffixIsWindow(rows, history, today, |all| - n, ticks, reference, index, threshold, direction);
    }
    if i :| 0 <= i <= |history| && WindowMeets(rows, history, i, reference, projected, threshold, direction, PriceAt(ticks)) {
      SuffixIsWindow(rows, history, today, i, ticks, reference, index, threshold, direction);
      assert Meets(direction, SuffixDeviation(rows, all, |history| + 1 - i), threshold);
    }
  }

  /** A complete deviation evaluation triggers iff the close reaches the searched price. */
  lemma EvaluationInverts(rows: Rows, rule: Rule, history: seq<Date>, today: Date, ticks: int, reference: real, index: Return)
    requires ValidRule(rule) && rule.Deviation? && ticks > 0 && reference > 0.0
    requires AllPriced(rows, history) && today in rows && rows[today] == RowAt(ticks, reference, index)
    ensures Evaluate(rows, rule, history + [today]).Triggered() <==>
      Reaches(TriggerTicks(rows, history, reference, 1.0 + index, rule.threshold, rule.direction), rule.direction, ticks)
  {
    hide StockFactor, IndexFactor, SuffixDeviation, WindowMeets, TriggerTicks, Evaluate, RowAt, Reaches, AllPriced;
    AllPricedWithToday(rows, history, today, ticks, reference, index);
    TriggersIffSomeWindowMeets(rows, rule, history + [today]);
    InversionIsExact(rows, history, reference, 1.0 + index, rule.threshold, rule.direction, ticks);
    SuffixesAreWindows(rows, history, today, history + [today], ticks, reference, index, 1.0 + index, rule.threshold, rule.direction);
  }

  /** What a step reports for one rule, and when its checkpoint is complete. */
  lemma VerdictAt(s: Session, rules: seq<Rule>, c: Candidate, st: Option<State>, k: nat)
    requires (forall rule :: rule in rules ==> ValidRule(rule)) && ValidSession(s) && Fits(s, st) && k < |rules|
    ensures
      var o := Step(s, rules, c, st);
      var ordinary := EventsOf(s.today, rules, BaseVerdicts(s, rules, c, st), Abnormal);
      && (o.state.complete <==> Reasons(s, rules, c, st) == {})
      && (!o.state.complete ==> o.verdicts[k] == Incomplete(None))
      && (o.state.complete && !rules[k].EventCount? ==> o.verdicts[k] == PriceVerdict(s, c, st, rules[k]))
      && (o.state.complete && rules[k].EventCount? ==>
            o.verdicts[k] == CountVerdict(s, rules[k], Retained(s, LogOf(st)) + ordinary, Floor(s, st, Serious)))
  {
    hide EventsOf, PriceVerdict, CountVerdict, Reasons, Retained, Floor;
  }

  /** A usable checkpoint and close let the threshold reach its price search. */
  lemma CompleteReachesSearch(s: Session, rules: seq<Rule>, c: Candidate, st: Option<State>)
    requires (forall rule :: rule in rules ==> ValidRule(rule)) && ValidSession(s) && Fits(s, st)
    requires Reasons(s, rules, c, st) == {}
    ensures c.applicability.Applicable? && Priced(c.rows, s.today)
    ensures st.None? ==> s.today == s.start
    ensures st.Some? ==> st.value.complete
    ensures MissingReturns(s, rules, c, st) == {}
  {
    var opening := OpeningReasons(s, c, st);
    assert NoCheckpoint !in opening && NoCurrentReturn !in opening;
    assert ApplicabilityReasons(c.applicability) <= opening;
  }

  /** Evaluation of today's close against the price searched before it. */
  lemma PriceThresholdInverts(s: Session, c: Candidate, rule: Rule, st: Option<State>, ticks: int, reference: real,
                              index: Return, limits: PriceLimits)
    requires ValidRule(rule) && rule.Deviation? && ValidSession(s) && Fits(s, st) && ticks > 0 && reference > 0.0
    requires AllPriced(ClosedAt(c, s.today, ticks, reference, index).rows, RuleDates(s, st, rule))
    ensures
      var rows := ClosedAt(c, s.today, ticks, reference, index).rows;
      Evaluate(rows, rule, RuleDates(s, st, rule)).Triggered() <==>
        Reaches(PriceThreshold(s, c.rows, rule, st, s.today, reference, index, limits).Ticks(), rule.direction, ticks)
  {
    var rows := ClosedAt(c, s.today, ticks, reference, index).rows;
    var history := SearchHistory(s, st, rule, s.today);
    hide Evaluate, BestPrice, SearchHistory, RuleDates, Reaches, PriceThreshold, TriggerTicks, Fits, ValidSession, Priced;
    EligibleIsHistoryAndToday(s, st, rule);
    PricedBeforeToday(c, history, s.today, ticks, reference, index);
    PriceTicksOver(s, c.rows, rows, rule, st, s.today, reference, index, limits);
    EvaluationInverts(rows, rule, history, s.today, ticks, reference, index);
  }

  /** Closing today changes no earlier row. */
  lemma PricedBeforeToday(c: Candidate, history: seq<Date>, today: Date, ticks: int, reference: real, index: Return)
    requires ticks > 0 && reference > 0.0 && forall d :: d in history ==> d < today
    requires AllPriced(ClosedAt(c, today, ticks, reference, index).rows, history + [today])
    ensures AllPriced(ClosedAt(c, today, ticks, reference, index).rows, history)
    ensures forall d :: d in history ==> d in c.rows && c.rows[d] == ClosedAt(c, today, ticks, reference, index).rows[d]
  {
    hide RowAt;
    var rows := ClosedAt(c, today, ticks, reference, index).rows;
    forall i | 0 <= i < |history| ensures Priced(rows, history[i]) && history[i] < today {
      assert (history + [today])[i] == history[i] && history[i] in history;
    }
  }

  /** The price threshold is the trigger price over the searched history, when its rows are there. */
  lemma PriceTicks(s: Session, rows: Rows, rule: Rule, st: Option<State>, target: Date, reference: real, index: real,
                   limits: PriceLimits)
    requires ValidRule(rule) && rule.Deviation?
    ensures
      var history := SearchHistory(s, st, rule, target);
      PriceThreshold(s, rows, rule, st, target, reference, index, limits).Ticks()
        == if AllPriced(rows, history)
           then TriggerTicks(rows, history, reference, 1.0 + index, rule.threshold, rule.direction) else None
  {
    hide BestPrice, SearchHistory, FirstUnpriced;
  }

  lemma PriceTicksOver(s: Session, rows: Rows, rows': Rows, rule: Rule, st: Option<State>, target: Date, reference: real,
                       index: real, limits: PriceLimits)
    requires ValidRule(rule) && rule.Deviation?
    requires AllPriced(rows', SearchHistory(s, st, rule, target))
    requires forall d :: d in SearchHistory(s, st, rule, target) ==> d in rows && rows[d] == rows'[d]
    ensures PriceThreshold(s, rows, rule, st, target, reference, index, limits).Ticks()
         == TriggerTicks(rows', SearchHistory(s, st, rule, target), reference, 1.0 + index, rule.threshold, rule.direction)
  {
    PriceTicks(s, rows, rule, st, target, reference, index, limits);
    hide SearchHistory, TriggerTicks, PriceThreshold;
    TriggerTicksDependOnHistory(rows', rows, SearchHistory(s, st, rule, target), reference, 1.0 + index, rule.threshold, rule.direction);
  }

  /** With a usable checkpoint, applicability and effect, only the price search is left. */
  lemma ThresholdIsPriceSearch(s: Session, rules: seq<Rule>, c: Candidate, rule: Rule, st: Option<State>, target: Date,
                               reference: real, index: real, limits: PriceLimits)
    requires (forall r :: r in rules ==> ValidRule(r)) && ValidRule(rule) && rule.Deviation?
    requires Effective(rule, target) && c.applicability.Applicable?
    requires if st.None? then target == s.start else st.value.complete
    ensures ThresholdOf(s, rules, c, rule, st, target, Some(reference), Some(index), None, limits)
         == PriceThreshold(s, c.rows, rule, st, target, reference, index, limits)
  {
    hide PriceThreshold;
  }

  /** Exact inversion: a deviation rule fires on a positive tick close if and only if the
      checkpoint is complete and the close reaches the threshold published before it. */
  lemma DeviationTriggersIffReached(s: Session, rules: seq<Rule>, c: Candidate, st: Option<State>, k: nat, ticks: int,
                                    reference: real, index: Return, limits: PriceLimits)
    requires ValidRules(rules) && ValidSession(s) && Fits(s, st) && k < |rules| && rules[k].Deviation?
    requires Effective(rules[k], s.today) && ticks > 0 && reference > 0.0
    ensures
      var o := Step(s, rules, ClosedAt(c, s.today, ticks, reference, index), st);
      var t := ThresholdOf(s, rules, c, rules[k], st, s.today, Some(reference), Some(index), None, limits);
      o.verdicts[k].Triggered() <==> o.state.complete && Reaches(t.Ticks(), rules[k].direction, ticks)
  {
    hide Step, PriceThreshold, Evaluate, RuleDates, Reaches, ThresholdOf, Reasons, MissingReturns;
    var c' := ClosedAt(c, s.today, ticks, reference, index);
    VerdictAt(s, rules, c', st, k);
    if Reasons(s, rules, c', st) == {} {
      CompleteReachesSearch(s, rules, c', st);
      CompleteMeansPriced(s, rules, c', st, rules[k]);
      PriceThresholdInverts(s, c, rules[k], st, ticks, reference, index, limits);
      ThresholdIsPriceSearch(s, rules, c, rules[k], st, s.today, reference, index, limits);
    }
  }

  // ---------------------------------------------------------------------------
  // The count path
  // ---------------------------------------------------------------------------

  lemma {:induction false} CountOfConcat(a: seq<Event>, b: seq<Event>, direction: Direction, sessions: seq<Date>, floor: Date)
    ensures CountOf(a + b, direction, sessions, floor) == CountOf(a, direction, sessions, floor) + CountOf(b, direction, sessions, floor)
  {
    hide CountOf, Counts;
    if |b| == 0 {
      CountOfNone(direction, sessions, floor);
      assert a + b == a;
    } else {
      var n := |b| - 1;
      CountOfConcat(a, b[..n], direction, sessions, floor);
      assert b == b[..n] + [b[n]] && a + b == (a + b[..n]) + [b[n]];
      CountOfSnoc(b[..n], b[n], direction, sessions, floor);
      CountOfSnoc(a + b[..n], b[n], direction, sessions, floor);
    }
  }

  lemma PendingSnoc(events: seq<Event>, e: Event, direction: Direction, sessions: seq<Date>, start: Date, floor: Date, target: Date)
    ensures PendingCount(events + [e], direction, sessions, start, floor, target)
         == PendingCount(events, direction, sessions, start, floor, target)
            + if Counts(e, direction, sessions, floor) && start <= e.date < target then 1 else 0
  {
    assert (events + [e])[..|events|] == events;
  }

  lemma NothingPending(s: Session, direction: Direction, sessions: seq<Date>, floor: Date, target: Date)
    ensures PendingCount([], direction, sessions, s.start, floor, target) == 0
    ensures CountOf(Retained(s, []), direction, sessions, floor) == 0
  {
  }

  /** An earlier event that counts has been retained, and a retained one is pending. */
  lemma PendingIsKept(s: Session, e: Event, direction: Direction, sessions: seq<Date>, floor: Date, target: Date)
    requires e.date < target && forall d :: d in sessions && d < target ==> d in LastN(s.dates, LOG_SESSIONS)
    ensures Counts(e, direction, sessions, floor) && s.start <= e.date < target <==> InLog(s, e) && Counts(e, direction, sessions, floor)
  {
    hide LastN;
  }

  /** Pruning the log changes no count over the sessions a count rule may look at. */
  lemma {:induction false} PendingIsRetainedCount(s: Session, events: seq<Event>, direction: Direction, sessions: seq<Date>,
                                                  floor: Date, target: Date)
    requires forall i :: 0 <= i < |events| ==> events[i].date < target
    requires forall d :: d in sessions && d < target ==> d in LastN(s.dates, LOG_SESSIONS)
    ensures PendingCount(events, direction, sessions, s.start, floor, target)
         == CountOf(Retained(s, events), direction, sessions, floor)
  {
    hide CountOf, Counts, Retained, PendingCount, InLog, LastN;
    if |events| == 0 {
      NothingPending(s, direction, sessions, floor, target);
    } else {
      var n := |events| - 1;
      PendingIsRetainedCount(s, events[..n], direction, sessions, floor, target);
      LastOf(events);
      RetainedSnoc(s, events[..n], events[n]);
      PendingSnoc(events[..n], events[n], direction, sessions, s.start, floor, target);
      PendingIsKept(s, events[n], direction, sessions, floor, target);
      CountOfSnoc(Retained(s, events[..n]), events[n], direction, sessions, floor);
      assert Retained(s, events[..n]) + [] == Retained(s, events[..n]);
    }
  }

  ghost predicate OneOrdinaryRule(rules: seq<Rule>, direction: Direction) {
    forall i, j :: 0 <= i < j < |rules| ==> !(IsOrdinary(rules[i], direction) && IsOrdinary(rules[j], direction))
  }

  lemma CountOfOne(e: Event, direction: Direction, sessions: seq<Date>, floor: Date)
    ensures CountOf([e], direction, sessions, floor) == if Counts(e, direction, sessions, floor) then 1 else 0
  {
  }

  /** Today adds one ordinary event in a direction iff some ordinary rule there triggers. */
  lemma TodayAddsOne(today: Date, rules: seq<Rule>, verdicts: seq<Evaluated>, direction: Direction,
                     sessions: seq<Date>, floor: Date)
    requires |rules| == |verdicts| && direction != NoDirection && today in sessions && floor <= today
    ensures CountOf(EventsOf(today, rules, verdicts, Abnormal), direction, sessions, floor)
         == if exists i :: 0 <= i < |rules| && Hits(rules[i], verdicts[i], Abnormal, direction, Price) then 1 else 0
  {
    hide EventFor, CountOf, Hits, Counts;
    var down := EventFor(today, rules, verdicts, Abnormal, Down, Price);
    var other := EventFor(today, rules, verdicts, Abnormal, NoDirection, TurnoverKind);
    var up := EventFor(today, rules, verdicts, Abnormal, Up, Price);
    CountOfConcat(down + other, up, direction, sessions, floor);
    CountOfConcat(down, other, direction, sessions, floor);
    CountOfGroup(today, rules, verdicts, Down, Price, direction, sessions, floor);
    CountOfGroup(today, rules, verdicts, NoDirection, TurnoverKind, direction, sessions, floor);
    CountOfGroup(today, rules, verdicts, Up, Price, direction, sessions, floor);
  }

  lemma CountOfGroup(today: Date, rules: seq<Rule>, verdicts: seq<Evaluated>, d: Direction, kind: EventKind,
                     direction: Direction, sessions: seq<Date>, floor: Date)
    requires |rules| == |verdicts| && today in sessions && floor <= today
    ensures CountOf(EventFor(today, rules, verdicts, Abnormal, d, kind), direction, sessions, floor)
         == if d == direction && kind == Price && exists i :: 0 <= i < |rules| && Hits(rules[i], verdicts[i], Abnormal, d, kind)
            then 1 else 0
  {
    var group := EventFor(today, rules, verdicts, Abnormal, d, kind);
    hide EventFor;
    if |group| == 1 {
      assert group == [group[0]] && group[0] in group;
      CountOfOne(group[0], direction, sessions, floor);
    }
  }

  /** An ordinary price event appears iff the one ordinary rule of that direction triggers. */
  lemma OrdinaryHitsAreTheRule(rules: seq<Rule>, verdicts: seq<Evaluated>, direction: Direction, k: nat)
    requires ValidRules(rules) && |rules| == |verdicts| && OneOrdinaryRule(rules, direction) && direction != NoDirection
    requires k < |rules| && IsOrdinary(rules[k], direction)
    ensures (exists i :: 0 <= i < |rules| && Hits(rules[i], verdicts[i], Abnormal, direction, Price)) <==> verdicts[k].Triggered()
  {
    forall i | 0 <= i < |rules| && Hits(rules[i], verdicts[i], Abnormal, direction, Price) ensures i == k {
      assert rules[i] in rules;
      assert IsOrdinary(rules[i], direction);
    }
    assert Hits(rules[k], verdicts[k], Abnormal, direction, Price) <==> verdicts[k].Triggered();
  }

  lemma NoOrdinaryNoHits(rules: seq<Rule>, verdicts: seq<Evaluated>, direction: Direction)
    requires ValidRules(rules) && |rules| == |verdicts| && direction != NoDirection
    requires OrdinaryRule(rules, direction).None?
    ensures !exists i :: 0 <= i < |rules| && Hits(rules[i], verdicts[i], Abnormal, direction, Price)
  {
    forall i | 0 <= i < |rules| ensures !Hits(rules[i], verdicts[i], Abnormal, direction, Price) {
      assert rules[i] in rules;
    }
  }

  /** The events a count rule still sees before `target`, as `_threshold` counts them. */
  function Pending(s: Session, rule: Rule, st: Option<State>, target: Date): nat
    requires rule.EventCount?
  {
    PendingCount(LogOf(st), rule.direction, LastN(Before(s.dates, target) + [target], rule.countWindow), s.start,
                 if st.Some? then st.value.seriousReset.GetOr(s.start) else s.start, target)
  }

  /** On a complete close the count is the pending count plus today's ordinary event. */
  lemma CountIsPendingPlusToday(s: Session, rules: seq<Rule>, c: Candidate, st: Option<State>, k: nat)
    requires ValidRules(rules) && ValidSession(s) && Fits(s, st) && k < |rules| && rules[k].EventCount?
    ensures
      var base := BaseVerdicts(s, rules, c, st);
      var log := Retained(s, LogOf(st)) + EventsOf(s.today, rules, base, Abnormal);
      CountVerdict(s, rules[k], log, Floor(s, st, Serious)).Triggered() <==>
        Pending(s, rules[k], st, s.today)
        + (if exists i :: 0 <= i < |rules| && Hits(rules[i], base[i], Abnormal, rules[k].direction, Price) then 1 else 0)
        >= rules[k].required
  {
    hide EventsOf, BaseVerdicts, Retained, CountOf, PendingCount, Hits, StepWith;
    var rule := rules[k];
    assert rule in rules && ValidRule(rule);
    var base := BaseVerdicts(s, rules, c, st);
    var sessions, floor := LastN(s.dates, rule.countWindow), Floor(s, st, Serious);
    TodayEndsTheCalendar(s, rule.countWindow);
    hide LastN;
    PendingIsRetainedCount(s, LogOf(st), rule.direction, sessions, floor, s.today);
    CountOfConcat(Retained(s, LogOf(st)), EventsOf(s.today, rules, base, Abnormal), rule.direction, sessions, floor);
    TodayAddsOne(s.today, rules, base, rule.direction, sessions, floor);
  }

  lemma TodayEndsTheCalendar(s: Session, window: nat)
    requires ValidSession(s) && 1 <= window <= LOG_SESSIONS
    ensures Before(s.dates, s.today) + [s.today] == s.dates
    ensures s.today in LastN(s.dates, window)
    ensures forall d :: d in LastN(s.dates, window) ==> d in LastN(s.dates, LOG_SESSIONS)
  {
    var earlier := s.dates[..|s.dates| - 1];
    assert s.dates == earlier + [s.today];
    BeforeSnoc(earlier, s.today, s.today);
    BeforeAll(earlier, s.today);
    LastNMonotone(s.dates, window, LOG_SESSIONS);
    assert LastN(s.dates, window)[|LastN(s.dates, window)| - 1] == s.today;
  }

  lemma SameApplicability(c: Candidate, day: Date, ticks: int, reference: real, index: Return)
    requires ticks > 0 && reference > 0.0
    ensures ClosedAt(c, day, ticks, reference, index).applicability == c.applicability
  {
  }

  lemma NothingReaches(direction: Direction, ticks: int)
    ensures !Reaches(None, direction, ticks)
  {
  }

  /** The price of the first ordinary rule in a direction, if there is one. */
  function OrdinaryTicks(s: Session, rules: seq<Rule>, c: Candidate, st: Option<State>, direction: Direction, target: Date,
                         reference: real, index: real, limits: PriceLimits): Option<int>
    requires forall rule :: rule in rules ==> ValidRule(rule)
  {
    match OrdinaryRule(rules, direction)
    case None => None
    case Some(ordinary) => PriceThreshold(s, c.rows, ordinary, st, target, reference, index, limits).Ticks()
  }

  /** On a complete close the one ordinary rule of a direction hits iff the close reaches its price. */
  lemma OrdinaryHitIsReached(s: Session, rules: seq<Rule>, c: Candidate, st: Option<State>, direction: Direction, ticks: int,
                             reference: real, index: Return, limits: PriceLimits)
    requires ValidRules(rules) && ValidSession(s) && Fits(s, st) && direction != NoDirection
    requires OneOrdinaryRule(rules, direction) && ticks > 0 && reference > 0.0
    requires Reasons(s, rules, ClosedAt(c, s.today, ticks, reference, index), st) == {}
    ensures
      var base := BaseVerdicts(s, rules, ClosedAt(c, s.today, ticks, reference, index), st);
      (exists i :: 0 <= i < |rules| && Hits(rules[i], base[i], Abnormal, direction, Price))
        <==> Reaches(OrdinaryTicks(s, rules, c, st, direction, s.today, reference, index, limits), direction, ticks)
  {
    hide PriceThreshold, Evaluate, RuleDates, Reasons, MissingReturns, Hits, BaseVerdicts, OrdinaryRule, Fits, ValidSession, OneOrdinaryRule,
      ClosedAt;
    var c' := ClosedAt(c, s.today, ticks, reference, index);
    var base := BaseVerdicts(s, rules, c', st);
    CompleteReachesSearch(s, rules, c', st);
    match OrdinaryRule(rules, direction) {
      case None =>
        NoOrdinaryNoHits(rules, base, direction);
      case Some(ordinary) =>
        var j :| 0 <= j < |rules| && rules[j] == ordinary;
        OrdinaryHitsAreTheRule(rules, base, direction, j);
        BaseVerdictAt(s, rules, c', st, j);
        CompleteMeansPriced(s, rules, c', st, ordinary);
        PriceThresholdInverts(s, c, ordinary, st, ticks, reference, index, limits);
    }
  }

  /** One event short, a count rule's threshold is the ordinary rule's; otherwise it has none. */
  lemma ThresholdIsOrdinarySearch(s: Session, rules: seq<Rule>, c: Candidate, rule: Rule, st: Option<State>, reference: real,
                                  index: real, limits: PriceLimits)
    requires (forall r :: r in rules ==> ValidRule(r)) && ValidRule(rule) && rule.EventCount?
    requires Effective(rule, s.today) && c.applicability.Applicable?
    requires if st.None? then s.today == s.start else st.value.complete
    ensures ThresholdOf(s, rules, c, rule, st, s.today, Some(reference), Some(index), None, limits).Ticks()
         == if Pending(s, rule, st, s.today) == rule.required - 1
            then OrdinaryTicks(s, rules, c, st, rule.direction, s.today, reference, index, limits) else None
  {
    hide PriceThreshold, PendingCount, OrdinaryRule, LastN, Before;
  }

  /** Count-path exactness: while fewer than `required` events are pending, a count rule fires
      if and only if exactly one more is needed and the close reaches the ordinary rule's price.
      Whenever the threshold has no price, no single close can fire it. */
  lemma CountTriggersIffReached(s: Session, rules: seq<Rule>, c: Candidate, st: Option<State>, k: nat, ticks: int,
                                reference: real, index: Return, limits: PriceLimits)
    requires ValidRules(rules) && ValidSession(s) && Fits(s, st) && k < |rules| && rules[k].EventCount?
    requires OneOrdinaryRule(rules, rules[k].direction)
    requires Pending(s, rules[k], st, s.today) < rules[k].required
    requires Effective(rules[k], s.today) && ticks > 0 && reference > 0.0
    ensures
      var o := Step(s, rules, ClosedAt(c, s.today, ticks, reference, index), st);
      var t := ThresholdOf(s, rules, c, rules[k], st, s.today, Some(reference), Some(index), None, limits);
      o.verdicts[k].Triggered() <==> o.state.complete && Reaches(t.Ticks(), rules[k].direction, ticks)
  {
    hide Step, PriceThreshold, Reasons, MissingReturns, EventsOf, CountVerdict, Hits, Pending, BaseVerdicts, ThresholdOf, ClosedAt,
      Retained, LogOf, Fits, ValidSession, Floor, Reaches, Effective, OneOrdinaryRule;
    var rule := rules[k];
    assert rule in rules && ValidRule(rule);
    var c' := ClosedAt(c, s.today, ticks, reference, index);
    VerdictAt(s, rules, c', st, k);
    if Reasons(s, rules, c', st) == {} {
      CompleteReachesSearch(s, rules, c', st);
      SameApplicability(c, s.today, ticks, reference, index);
      CountIsPendingPlusToday(s, rules, c', st, k);
      OrdinaryHitIsReached(s, rules, c, st, rule.direction, ticks, reference, index, limits);
      ThresholdIsOrdinarySearch(s, rules, c, rule, st, reference, index, limits);
      NothingReaches(rule.direction, ticks);
    }
  }

  lemma BaseVerdictAt(s: Session, rules: seq<Rule>, c: Candidate, st: Option<State>, k: nat)
    requires (forall rule :: rule in rules ==> ValidRule(rule)) && ValidSession(s) && Fits(s, st) && k < |rules|
    requires Reasons(s, rules, c, st) == {} && ValidRule(rules[k]) && rules[k].Deviation?
    ensures BaseVerdicts(s, rules, c, st)[k] == Evaluate(c.rows, rules[k], RuleDates(s, st, rules[k]))
  {
    hide Reasons, Evaluate, RuleDates;
  }
}
