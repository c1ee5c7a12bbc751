/** The next-session prices published with the daily calculation: `_candidate_at` resolves the
    resets in force tomorrow, `_solve_deviation_scenarios` inverts each rule per index scenario. */
module ScenarioPrices {
  import opened Wrappers
  import opened TradingCalendar
  import opened RegulationRules
  import opened DeviationWindows
  import opened TriggerPrice
  import opened MonitorThreshold
  import opened ThresholdExactness
  import opened Lookahead

  // ---------------------------------------------------------------------------
  // Resets in force on a given day
  // ---------------------------------------------------------------------------

  /** An official announcement; `published` is its local date. */
  datatype Announcement = Announcement(level: Level, periodEnd: Date, published: Date, reset: Option<Date>, observed: int)

  datatype Source = Source(tradeDate: Date, watermark: int, calendar: seq<Date>)

  function FirstAfter(calendar: seq<Date>, d: Date): (day: Option<Date>)
    ensures day.Some? ==> day.value in calendar && d < day.value
  {
    if |calendar| == 0 then None
    else if d < calendar[0] then Some(calendar[0])
    else FirstAfter(calendar[1..], d)
  }

  /** The boundary an announcement sets, once it is in force on `asOf`. */
  function BoundaryAt(source: Source, a: Announcement, level: Level, asOf: Date): Option<Date> {
    if a.observed > source.watermark || a.periodEnd > source.tradeDate || a.published > asOf || a.level != level then None
    else
      var reset := if a.reset.Some? then a.reset else FirstAfter(source.calendar, a.published);
      if reset.Some? && reset.value <= asOf then reset else None
  }

  function Later(a: Option<Date>, b: Option<Date>): Option<Date> {
    if a.None? then b else if b.None? then a else Some(Max(a.value, b.value))
  }

  /** `_candidate_at`: the latest boundary in force, explicit or announced. */
  function ResetAt(source: Source, announcements: seq<Announcement>, boundary: Option<Date>, level: Level, asOf: Date): Option<Date> {
    if |announcements| == 0 then (if boundary.Some? && boundary.value <= asOf then boundary else None)
    else
      var n := |announcements| - 1;
      Later(ResetAt(source, announcements[..n], boundary, level, asOf), BoundaryAt(source, announcements[n], level, asOf))
  }

  predicate NotAfter(a: Option<Date>, b: Option<Date>) {
    a.Some? ==> b.Some? && a.value <= b.value
  }

  /** Looking one day further can only move the reset forward, and never past that day. */
  lemma {:induction false} ResetMovesForward(source: Source, announcements: seq<Announcement>, boundary: Option<Date>,
                                             level: Level, asOf: Date, asOf': Date)
    requires asOf <= asOf'
    ensures NotAfter(ResetAt(source, announcements, boundary, level, asOf), ResetAt(source, announcements, boundary, level, asOf'))
    ensures ResetAt(source, announcements, boundary, level, asOf').Some? ==>
      ResetAt(source, announcements, boundary, level, asOf').value <= asOf'
  {
    if |announcements| > 0 {
      ResetMovesForward(source, announcements[..|announcements| - 1], boundary, level, asOf, asOf');
    }
  }

  // ---------------------------------------------------------------------------
  // The solver
  // ---------------------------------------------------------------------------

  /** Python's `dates[-n:]`: for n = 0 this is the whole sequence, not the empty one. */
  function NegativeSlice(dates: seq<Date>, n: nat): seq<Date> {
    if n == 0 then dates else LastN(dates, n)
  }

  function FromReset(dates: seq<Date>, reset: Option<Date>): seq<Date> {
    if reset.None? then dates else From(dates, reset.value)
  }

  /** Tomorrow's history as the solver slices it. */
  function SolverHistory(dates: seq<Date>, window: nat, reset: Option<Date>): seq<Date>
    requires window >= 1
  {
    FromReset(NegativeSlice(dates, window - 1), reset)
  }

  /** A scenario solution: the required return, the window start and the unrounded price. */
  datatype Answer = Answer(required: real, start: nat, raw: real)

  function AnswerFor(i: nat, reference: real, threshold: real, projectedIndex: real, stock: real): Answer
    requires stock > 0.0
  {
    var required := (threshold / 100.0 + projectedIndex) / stock - 1.0;
    Answer(required, i, reference * (1.0 + required))
  }

  function AnswerAt(rows: Rows, history: seq<Date>, i: nat, reference: real, index: real, threshold: real): Answer
    requires i <= |history| && AllPriced(rows, history[i..])
  {
    AnswerFor(i, reference, threshold, IndexFactor(rows, history[i..]) * index, StockFactor(rows, history[i..]))
  }

  /** Ties go to the earlier start upwards and to the later start downwards. */
  predicate Replaces(direction: Direction, best: Option<Answer>, c: Answer) {
    best.None? || if direction == Up then c.required < best.value.required else c.required >= best.value.required
  }

  /** The chosen solution over starts 0..k-1; windows with a missing row are skipped. */
  function Choose(rows: Rows, history: seq<Date>, k: nat, reference: real, index: real, threshold: real,
                  direction: Direction): (best: Option<Answer>)
    requires k <= |history| + 1
    ensures best.Some? ==>
      && best.value.start < k && AllPriced(rows, history[best.value.start..]) && best.value.raw > 0.0
      && best.value == AnswerAt(rows, history, best.value.start, reference, index, threshold)
  {
    if k == 0 then None
    else
      var best := Choose(rows, history, k - 1, reference, index, threshold, direction);
      if !AllPriced(rows, history[k - 1..]) then best
      else
        var c := AnswerAt(rows, history, k - 1, reference, index, threshold);
        if c.raw > 0.0 && Replaces(direction, best, c) then Some(c) else best
  }

  lemma RequiredGivesRaw(rows: Rows, history: seq<Date>, i: nat, reference: real, index: real, threshold: real)
    requires i <= |history| && AllPriced(rows, history) && reference > 0.0
    ensures AnswerAt(rows, history, i, reference, index, threshold).raw == RawPrice(rows, history, i, reference, index, threshold)
  {
    Reassociate(reference, threshold / 100.0 + IndexFactor(rows, history[i..]) * index, StockFactor(rows, history[i..]));
  }

  lemma Reassociate(a: real, b: real, c: real)
    requires c > 0.0
    ensures a * (1.0 + (b / c - 1.0)) == a * b / c
  {
    var q := b / c;
    assert q * c == b;
    assert a * q * c == a * b;
    assert a * b / c == a * q;
  }

  lemma ChooseNext(rows: Rows, history: seq<Date>, k: nat, reference: real, index: real, threshold: real, direction: Direction)
    requires k <= |history|
    ensures
      var before := Choose(rows, history, k, reference, index, threshold, direction);
      Choose(rows, history, k + 1, reference, index, threshold, direction) ==
        if !AllPriced(rows, history[k..]) then before
        else
          var c := AnswerAt(rows, history, k, reference, index, threshold);
          if c.raw > 0.0 && Replaces(direction, before, c) then Some(c) else before
  {
    hide AllPriced, AnswerAt, Replaces;
  }

  /** With nothing skipped, the solver's best raw price is the threshold search's. */
  lemma {:induction false} ChoiceIsBestPrice(rows: Rows, history: seq<Date>, k: nat, reference: real, index: real,
                                             threshold: real, direction: Direction)
    requires AllPriced(rows, history) && k <= |history| + 1 && reference > 0.0
    ensures
      var choice := Choose(rows, history, k, reference, index, threshold, direction);
      var best := BestPrice(rows, history, k, reference, index, threshold, direction);
      && (choice.Some? <==> best.Some?)
      && (choice.Some? ==> choice.value.raw == best.value.raw)
  {
    hide RawPrice, AnswerAt, Choose, AllPriced;
    if k > 0 {
      ChoiceIsBestPrice(rows, history, k - 1, reference, index, threshold, direction);
      ChooseNext(rows, history, k - 1, reference, index, threshold, direction);
      SuffixPriced(rows, history, k - 1);
      RequiredGivesRaw(rows, history, k - 1, reference, index, threshold);
      var choice := Choose(rows, history, k - 1, reference, index, threshold, direction);
      if choice.Some? {
        RequiredOrdersRaw(rows, history, choice.value.start, k - 1, reference, index, threshold);
      }
    } else { NothingChosen(rows, history, reference, index, threshold, direction); }
  }

  lemma SuffixPriced(rows: Rows, history: seq<Date>, i: nat)
    requires AllPriced(rows, history) && i <= |history|
    ensures AllPriced(rows, history[i..])
  {
    hide Priced;
  }

  lemma NothingChosen(rows: Rows, history: seq<Date>, reference: real, index: real, threshold: real, direction: Direction)
    ensures Choose(rows, history, 0, reference, index, threshold, direction) == None
  {
  }

  lemma RequiredOrdersRaw(rows: Rows, history: seq<Date>, i: nat, j: nat, reference: real, index: real, threshold: real)
    requires i <= |history| && j <= |history| && reference > 0.0
    requires AllPriced(rows, history[i..]) && AllPriced(rows, history[j..])
    ensures
      var a, b := AnswerAt(rows, history, i, reference, index, threshold), AnswerAt(rows, history, j, reference, index, threshold);
      && (a.required < b.required <==> a.raw < b.raw)
      && (a.required == b.required <==> a.raw == b.raw)
  {
    var a, b := AnswerAt(rows, history, i, reference, index, threshold), AnswerAt(rows, history, j, reference, index, threshold);
    LessScales(1.0 + a.required, 1.0 + b.required, reference);
    LessScales(1.0 + b.required, 1.0 + a.required, reference);
  }

  /** A published scenario price, in ticks of the stock's own tick size. */
  function ScenarioTicks(rows: Rows, history: seq<Date>, reference: real, index: real, threshold: real,
                         direction: Direction, tick: real): Option<int>
    requires tick > 0.0
  {
    var best := Choose(rows, history, |history| + 1, reference, index, threshold, direction);
    if best.None? then None else Some(RoundToTick(best.value.raw, tick, direction))
  }

  /** The index scenarios of the configuration, as returns. */
  const SCENARIOS: seq<real> := [-0.02, 0.0, 0.02]

  datatype Warning = Warning(scenario: nat, raw: real, ticks: int, reachable: bool, start: Date)

  /** A chosen solution rounded to the stock's tick and placed in the price limits. */
  function WarningOf(best: Answer, history: seq<Date>, next: Date, scenario: nat, direction: Direction,
                     tick: real, lower: real, upper: real): Warning
    requires tick > 0.0
  {
    var ticks := RoundToTick(best.raw, tick, direction);
    Warning(scenario, best.raw, ticks,
            if direction == Up then ticks as real * tick <= upper else ticks as real * tick >= lower,
            if best.start < |history| then history[best.start] else next)
  }

  /** What one scenario contributes: a warning, or nothing when no window has a positive price. */
  function WarningFor(rows: Rows, history: seq<Date>, next: Date, scenario: nat, reference: real, threshold: real,
                      direction: Direction, tick: real, lower: real, upper: real): seq<Warning>
    requires tick > 0.0 && scenario < |SCENARIOS|
  {
    var best := Choose(rows, history, |history| + 1, reference, 1.0 + SCENARIOS[scenario], threshold, direction);
    if best.None? then [] else [WarningOf(best.value, history, next, scenario, direction, tick, lower, upper)]
  }

  /** One window: compound it unless a row is missing. */
  method TryWindow(rows: Rows, history: seq<Date>, i: nat, reference: real, index: real, threshold: real) returns (a: Option<Answer>)
    requires i <= |history|
    ensures a.Some? <==> AllPriced(rows, history[i..])
    ensures a.Some? ==> a.value == AnswerAt(rows, history, i, reference, index, threshold)
  {
    var missing := CheckRows(rows, history[i..]);
    if missing.Some? {
      return None;
    }
    var stock, benchmark := CompoundWindow(rows, history[i..]);
    hide AnswerFor;
    a := Some(AnswerFor(i, reference, threshold, benchmark * index, stock));
  }

  /** `_solve_deviation_scenarios`: three index scenarios over every window ending tomorrow. */
  method SolveScenarios(rows: Rows, dates: seq<Date>, next: Date, rule: Rule, reset: Option<Date>,
                        reference: Option<real>, limits: Option<(real, real, real)>) returns (warnings: seq<Warning>)
    requires ValidRule(rule) && rule.Deviation? && (limits.Some? ==> limits.value.2 > 0.0)
    ensures reference.None? || limits.None? ==> warnings == []
    ensures reference.Some? && limits.Some? ==>
      var history := SolverHistory(dates, rule.window, reset);
      var (lower, upper, tick) := limits.value;
      warnings == WarningFor(rows, history, next, 0, reference.value, rule.threshold, rule.direction, tick, lower, upper)
                + WarningFor(rows, history, next, 1, reference.value, rule.threshold, rule.direction, tick, lower, upper)
                + WarningFor(rows, history, next, 2, reference.value, rule.threshold, rule.direction, tick, lower, upper)
  {
    warnings := [];
    if reference.None? || limits.None? {
      return;
    }
    var history := SolverHistory(dates, rule.window, reset);
    var (lower, upper, tick) := limits.value;
    hide SolverHistory, WarningFor;
    for scenario := 0 to |SCENARIOS|
      invariant warnings ==
        (if scenario > 0 then WarningFor(rows, history, next, 0, reference.value, rule.threshold, rule.direction, tick, lower, upper) else [])
        + (if scenario > 1 then WarningFor(rows, history, next, 1, reference.value, rule.threshold, rule.direction, tick, lower, upper) else [])
        + (if scenario > 2 then WarningFor(rows, history, next, 2, reference.value, rule.threshold, rule.direction, tick, lower, upper) else [])
    {
      var found := SolveScenario(rows, history, next, scenario, reference.value, rule.threshold, rule.direction, tick, lower, upper);
      warnings := warnings + found;
    }
  }

  method SolveScenario(rows: Rows, history: seq<Date>, next: Date, scenario: nat, reference: real, threshold: real,
                       direction: Direction, tick: real, lower: real, upper: real) returns (found: seq<Warning>)
    requires tick > 0.0 && scenario < |SCENARIOS|
    ensures found == WarningFor(rows, history, next, scenario, reference, threshold, direction, tick, lower, upper)
  {
    var best := BestWindow(rows, history, reference, 1.0 + SCENARIOS[scenario], threshold, direction);
    hide Choose, WarningOf;
    found := if best.None? then [] else [WarningOf(best.value, history, next, scenario, direction, tick, lower, upper)];
  }

  method BestWindow(rows: Rows, history: seq<Date>, reference: real, index: real, threshold: real, direction: Direction)
    returns (best: Option<Answer>)
    ensures best == Choose(rows, history, |history| + 1, reference, index, threshold, direction)
  {
    hide AnswerAt;
    best := None;
    for i := 0 to |history| + 1
      invariant best == Choose(rows, history, i, reference, index, threshold, direction)
    {
      var a := TryWindow(rows, history, i, reference, index, threshold);
      if a.Some? && a.value.raw > 0.0 && Replaces(direction, best, a.value) {
        best := a;
      }
    }
  }

  // ---------------------------------------------------------------------------
  // Results
  // ---------------------------------------------------------------------------

  /** The solver's history is the threshold search's, exactly when the rule looks back more than
      one session or nothing lies on or after the reset: for a one-session rule the slice
      `[-0:]` keeps the whole calendar. */
  lemma SolverHistoryIsExact(dates: seq<Date>, window: nat, reset: Date)
    requires window >= 1
    ensures SolverHistory(dates, window, Some(reset)) == From(LastN(dates, window - 1), reset)
      <==> (window >= 2 || forall d :: d in dates ==> d < reset)
  {
    if window == 1 {
      assert LastN(dates, 0) == [];
      var kept := From(dates, reset);
      assert forall d :: d in kept <==> d in dates && reset <= d;
      assert kept == [] || kept[0] in kept;
    }
  }

  /** A complete current window covers tomorrow's history: nothing is skipped. */
  lemma CompleteWindowCoversTomorrow(rows: Rows, dates: seq<Date>, window: nat, today: Option<Date>, tomorrow: Option<Date>)
    requires window >= 2 && NotAfter(today, tomorrow)
    requires AllPriced(rows, FromReset(LastN(dates, window), today))
    ensures AllPriced(rows, SolverHistory(dates, window, tomorrow))
  {
    var seen, history := FromReset(LastN(dates, window), today), SolverHistory(dates, window, tomorrow);
    LastNMonotone(dates, window - 1, window);
    forall i | 0 <= i < |history| ensures Priced(rows, history[i]) {
      assert history[i] in history;
      assert history[i] in seen;
    }
  }

  /** When positive, the scenario price is the one `_threshold` computes for the same reset,
      reference and scenario, as soon as the two searches share their history. */
  lemma ScenarioPriceIsThreshold(s: Session, rows: Rows, rule: Rule, st: Option<State>, reference: real, scenario: real,
                                 limits: PriceLimits)
    requires ValidSession(s) && ValidRule(rule) && rule.Deviation? && reference > 0.0
    requires rule.window >= 2 || forall d :: d in s.dates ==> d < SearchFloor(s, st, rule.level)
    requires AllPriced(rows, SolverHistory(s.dates, rule.window, Some(SearchFloor(s, st, rule.level))))
    ensures
      var history := SolverHistory(s.dates, rule.window, Some(SearchFloor(s, st, rule.level)));
      var price := ScenarioTicks(rows, history, reference, 1.0 + scenario, rule.threshold, rule.direction, TICK);
      PriceThreshold(s, rows, rule, st, s.next, reference, scenario, limits).Ticks()
        == if price.Some? && price.value > 0 then price else None
  {
    hide SolverHistory, SearchHistory, SearchFloor, Choose, BestPrice, PriceThreshold, RoundToTick, ValidSession;
    var history := SolverHistory(s.dates, rule.window, Some(SearchFloor(s, st, rule.level)));
    SharedHistory(s, rule, st);
    PriceTicks(s, rows, rule, st, s.next, reference, scenario, limits);
    ChoiceIsBestPrice(rows, history, |history| + 1, reference, 1.0 + scenario, rule.threshold, rule.direction);
  }

  /** Where the slice is right, the solver searches the threshold's history. */
  lemma SharedHistory(s: Session, rule: Rule, st: Option<State>)
    requires ValidSession(s) && rule.Deviation? && rule.window >= 1
    requires rule.window >= 2 || forall d :: d in s.dates ==> d < SearchFloor(s, st, rule.level)
    ensures SolverHistory(s.dates, rule.window, Some(SearchFloor(s, st, rule.level))) == SearchHistory(s, st, rule, s.next)
  {
    hide SolverHistory, SearchFloor, Before;
    SolverHistoryIsExact(s.dates, rule.window, SearchFloor(s, st, rule.level));
    AllBeforeNext(s);
  }

  /** A weaker index tomorrow never raises a trigger price: prices are ordered by scenario. */
  lemma PricesOrderedByScenario(rows: Rows, history: seq<Date>, reference: real, threshold: real, direction: Direction,
                                tick: real, lower: real, higher: real)
    requires tick > 0.0 && reference > 0.0 && lower <= higher && direction != NoDirection
    requires direction == Up ==> threshold > 0.0 && lower > 0.0
    ensures
      var low := ScenarioTicks(rows, history, reference, lower, threshold, direction, tick);
      var high := ScenarioTicks(rows, history, reference, higher, threshold, direction, tick);
      low.Some? && high.Some? ==> low.value <= high.value
  {
    var low := Choose(rows, history, |history| + 1, reference, lower, threshold, direction);
    var high := Choose(rows, history, |history| + 1, reference, higher, threshold, direction);
    hide Choose, AnswerAt;
    if low.Some? && high.Some? {
      if direction == Up {
        RawGrowsWithIndex(rows, history, high.value.start, reference, threshold, lower, higher);
        RawIsPositiveUp(rows, history, high.value.start, reference, threshold, lower);
        ChoiceIsExtreme(rows, history, |history| + 1, high.value.start, reference, lower, threshold, direction);
      } else {
        RawGrowsWithIndex(rows, history, low.value.start, reference, threshold, lower, higher);
        ChoiceIsExtreme(rows, history, |history| + 1, low.value.start, reference, higher, threshold, direction);
      }
      RoundingIsMonotone(low.value.raw, high.value.raw, tick, direction);
    }
  }

  predicate Solvable(rows: Rows, history: seq<Date>, i: nat, reference: real, index: real, threshold: real)
    requires i <= |history|
  {
    AllPriced(rows, history[i..]) && AnswerAt(rows, history, i, reference, index, threshold).raw > 0.0
  }

  /** No window with a positive price beats the chosen one. */
  lemma {:induction false} ChoiceIsExtreme(rows: Rows, history: seq<Date>, k: nat, i: nat, reference: real, index: real,
                                           threshold: real, direction: Direction)
    requires i < k <= |history| + 1 && reference > 0.0 && Solvable(rows, history, i, reference, index, threshold)
    ensures
      var best := Choose(rows, history, k, reference, index, threshold, direction);
      best.Some? && !Beyond(direction, best.value.raw, AnswerAt(rows, history, i, reference, index, threshold).raw)
  {
    hide AnswerAt, AllPriced, Choose;
    var best := Choose(rows, history, k - 1, reference, index, threshold, direction);
    ChooseNext(rows, history, k - 1, reference, index, threshold, direction);
    if i < k - 1 {
      ChoiceIsExtreme(rows, history, k - 1, i, reference, index, threshold, direction);
    }
    if best.Some? && AllPriced(rows, history[k - 1..]) {
      RequiredOrdersRaw(rows, history, best.value.start, k - 1, reference, index, threshold);
    }
  }

  lemma RawGrowsWithIndex(rows: Rows, history: seq<Date>, i: nat, reference: real, threshold: real, lower: real, higher: real)
    requires i <= |history| && AllPriced(rows, history[i..]) && reference > 0.0 && lower <= higher
    ensures AnswerAt(rows, history, i, reference, lower, threshold).raw <= AnswerAt(rows, history, i, reference, higher, threshold).raw
  {
    hide IndexFactor, StockFactor, AllPriced;
    ScaledIndexGrows(IndexFactor(rows, history[i..]), lower, higher);
    AnswerGrows(i, reference, threshold, IndexFactor(rows, history[i..]) * lower, IndexFactor(rows, history[i..]) * higher,
                StockFactor(rows, history[i..]));
  }

  lemma ScaledIndexGrows(factor: real, lower: real, higher: real)
    requires factor > 0.0 && lower <= higher
    ensures factor * lower <= factor * higher
  {
    LessScales(higher, lower, factor);
  }

  lemma AnswerGrows(i: nat, reference: real, threshold: real, a: real, b: real, stock: real)
    requires stock > 0.0 && reference > 0.0 && a <= b
    ensures AnswerFor(i, reference, threshold, a, stock).raw <= AnswerFor(i, reference, threshold, b, stock).raw
  {
    QuotientGrows(threshold / 100.0 + a, threshold / 100.0 + b, stock, reference);
  }

  lemma QuotientGrows(a: real, b: real, c: real, scale: real)
    requires c > 0.0 && scale > 0.0 && a <= b
    ensures scale * (1.0 + (a / c - 1.0)) <= scale * (1.0 + (b / c - 1.0))
  {
    var p, q := a / c, b / c;
    assert p * c == a && q * c == b;
    LessScales(q, p, c);
    LessScales(q, p, scale);
  }

  lemma RawIsPositiveUp(rows: Rows, history: seq<Date>, i: nat, reference: real, threshold: real, index: real)
    requires i <= |history| && AllPriced(rows, history[i..]) && reference > 0.0 && threshold > 0.0 && index > 0.0
    ensures AnswerAt(rows, history, i, reference, index, threshold).raw > 0.0
  {
    var bf, sf := IndexFactor(rows, history[i..]), StockFactor(rows, history[i..]);
    assert bf * index > 0.0;
    PositiveQuotient(threshold / 100.0 + bf * index, sf);
  }

  lemma RoundingIsMonotone(a: real, b: real, tick: real, direction: Direction)
    requires tick > 0.0 && a <= b && direction != NoDirection
    ensures RoundToTick(a, tick, direction) <= RoundToTick(b, tick, direction)
  {
    RoundingIsExact(a, tick, direction, RoundToTick(b, tick, direction));
    RoundingIsExact(b, tick, direction, RoundToTick(a, tick, direction));
  }
}
