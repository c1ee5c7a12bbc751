/** When the published scenario price is the threshold's: always for a rule that looks back more
    than one session, and never reliably for a one-session rule, whose history is sliced wrongly. */
module OneSessionPrices {
  import opened Wrappers
  import opened TradingCalendar
  import opened RegulationRules
  import opened DeviationWindows
  import opened TriggerPrice
  import opened MonitorThreshold
  import opened ThresholdExactness
  import opened MonitorCompleteness
  import opened ScenarioPrices

  /** Tomorrow's history as the solver keeps it for this rule and checkpoint. */
  function KeptHistory(s: Session, rule: Rule, st: Option<State>): seq<Date>
    requires rule.Deviation? && rule.window >= 1
  {
    SolverHistory(s.dates, rule.window, Some(SearchFloor(s, st, rule.level)))
  }

  /** The two programs publish the same price for tomorrow, or neither publishes a positive one. */
  predicate PricesAgree(s: Session, rows: Rows, rule: Rule, st: Option<State>, reference: real, scenario: real, limits: PriceLimits)
    requires ValidRule(rule) && rule.Deviation?
  {
    var price := ScenarioTicks(rows, KeptHistory(s, rule, st), reference, 1.0 + scenario, rule.threshold, rule.direction, TICK);
    PriceThreshold(s, rows, rule, st, s.next, reference, scenario, limits).Ticks() == Published(price)
  }

  /** What a program publishes of a price search: nothing unless the price is positive. */
  function Published(price: Option<int>): Option<int> { if price.Some? && price.value > 0 then price else None }

  // ---------------------------------------------------------------------------
  // The closes for which prices are published
  // ---------------------------------------------------------------------------

  /** `today` is the reset in force today: past, and not after the one in force tomorrow. */
  predicate InForce(s: Session, rule: Rule, st: Option<State>, today: Option<Date>) {
    today.Some? ==> today.value <= s.today && today.value <= SearchFloor(s, st, rule.level)
  }

  /** The sessions today's evaluation looks at. */
  function SeenToday(s: Session, rule: Rule, today: Option<Date>): seq<Date>
    requires rule.Deviation?
  {
    FromReset(LastN(s.dates, rule.window), today)
  }

  /** Today's evaluation of the rule is complete: of no other rule are prices solved. */
  predicate CompleteToday(s: Session, rows: Rows, rule: Rule, today: Option<Date>)
    requires rule.Deviation?
  {
    SeenToday(s, rule, today) != [] && AllPriced(rows, SeenToday(s, rule, today))
  }

  /** It did not trigger either: a triggered rule gets its current warning and no prices of its own. */
  predicate QuietToday(s: Session, rows: Rows, rule: Rule, today: Option<Date>)
    requires rule.Deviation?
  {
    CompleteToday(s, rows, rule, today) && !Evaluate(rows, rule, SeenToday(s, rule, today)).Triggered()
  }

  lemma SeesToday(s: Session, rule: Rule, st: Option<State>, today: Option<Date>)
    requires ValidSession(s) && rule.Deviation? && rule.window == 1 && InForce(s, rule, st, today)
    ensures SeenToday(s, rule, today) == [s.today]
  {
    assert LastN(s.dates, 1) == [] + [s.today];
    if today.Some? { FromSnoc([], s.today, today.value); }
  }

  // ---------------------------------------------------------------------------
  // The rows that tell the two histories apart
  // ---------------------------------------------------------------------------

  /** Flat returns on every session, but for one on which stock and index move alike. */
  function OneMove(dates: seq<Date>, day: Date, move: Return): Rows {
    map d | d in dates :: if d == day then Row(Some(move), Some(move)) else Row(Some(0.0), Some(0.0))
  }

  lemma {:induction false} FromIncreasing(dates: seq<Date>, reset: Date)
    requires Increasing(dates)
    ensures Increasing(From(dates, reset))
  {
    if |dates| > 0 {
      FromIncreasing(dates[..|dates| - 1], reset);
      var earlier := From(dates[..|dates| - 1], reset);
      forall k | 0 <= k < |earlier| ensures earlier[k] < dates[|dates| - 1] {
        assert earlier[k] in earlier;
        var i :| 0 <= i < |dates| - 1 && dates[..|dates| - 1][i] == earlier[k];
      }
    }
  }

  /** The one move is the whole factor, of stock and index, of every window that contains its day. */
  lemma {:induction false} MoveFactors(dates: seq<Date>, kept: seq<Date>, day: Date, move: Return)
    requires Increasing(kept) && forall d :: d in kept ==> d in dates
    ensures AllPriced(OneMove(dates, day, move), kept)
    ensures StockFactor(OneMove(dates, day, move), kept) == if day in kept then 1.0 + move else 1.0
    ensures IndexFactor(OneMove(dates, day, move), kept) == if day in kept then 1.0 + move else 1.0
  {
    hide StockFactor, IndexFactor, Increasing, OneMove;
    var rows := OneMove(dates, day, move);
    FlatButOne(dates, kept, day, move);
    if |kept| > 0 {
      var n := |kept| - 1;
      IncreasingIsDistinct(kept);
      MoveFactors(dates, kept[..n], day, move);
      FactorsSnoc(rows, kept);
      OneFactorMore(StockFactor(rows, kept[..n]), if kept[n] == day then move else 0.0);
      OneFactorMore(IndexFactor(rows, kept[..n]), if kept[n] == day then move else 0.0);
    } else { NoFactors(rows); }
  }

  lemma FlatButOne(dates: seq<Date>, kept: seq<Date>, day: Date, move: Return)
    requires forall d :: d in kept ==> d in dates
    ensures AllPriced(OneMove(dates, day, move), kept)
    ensures |kept| > 0 ==>
      var m := if kept[|kept| - 1] == day then move else 0.0;
      OneMove(dates, day, move)[kept[|kept| - 1]] == Row(Some(m), Some(m))
  {
    forall i | 0 <= i < |kept| ensures kept[i] in OneMove(dates, day, move) { var d := kept[i]; assert d in kept && d in dates; }
  }

  lemma IncreasingIsDistinct(kept: seq<Date>)
    requires |kept| > 0 && Increasing(kept)
    ensures Increasing(kept[..|kept| - 1]) && kept[|kept| - 1] !in kept[..|kept| - 1]
    ensures kept == kept[..|kept| - 1] + [kept[|kept| - 1]]
    ensures forall d :: d in kept[..|kept| - 1] ==> d in kept
  {
  }

  lemma StockSnoc(rows: Rows, kept: seq<Date>)
    requires |kept| > 0 && AllPriced(rows, kept) && AllPriced(rows, kept[..|kept| - 1])
    ensures StockFactor(rows, kept) == StockFactor(rows, kept[..|kept| - 1]) * (1.0 + rows[kept[|kept| - 1]].stock.value)
  {
    hide IndexFactor, AllPriced;
  }

  lemma IndexSnoc(rows: Rows, kept: seq<Date>)
    requires |kept| > 0 && AllPriced(rows, kept) && AllPriced(rows, kept[..|kept| - 1])
    ensures IndexFactor(rows, kept) == IndexFactor(rows, kept[..|kept| - 1]) * (1.0 + rows[kept[|kept| - 1]].index.value)
  {
    hide StockFactor, AllPriced;
  }

  lemma FactorsSnoc(rows: Rows, kept: seq<Date>)
    requires |kept| > 0 && AllPriced(rows, kept)
    ensures AllPriced(rows, kept[..|kept| - 1])
    ensures StockFactor(rows, kept) == StockFactor(rows, kept[..|kept| - 1]) * (1.0 + rows[kept[|kept| - 1]].stock.value)
    ensures IndexFactor(rows, kept) == IndexFactor(rows, kept[..|kept| - 1]) * (1.0 + rows[kept[|kept| - 1]].index.value)
  {
    StockSnoc(rows, kept);
    IndexSnoc(rows, kept);
    hide StockFactor, IndexFactor;
  }

  lemma NoFactors(rows: Rows)
    ensures StockFactor(rows, []) == 1.0 && IndexFactor(rows, []) == 1.0
  {
  }

  lemma OneFactorMore(factor: real, move: real)
    ensures move == 0.0 ==> factor * (1.0 + move) == factor
    ensures factor == 1.0 ==> factor * (1.0 + move) == 1.0 + move
  {
  }

  /** A session on which stock and index move alike deviates by nothing and triggers no rule. */
  lemma MoveIsQuiet(s: Session, rule: Rule, st: Option<State>, today: Option<Date>, move: Return)
    requires ValidSession(s) && ValidRule(rule) && rule.Deviation? && rule.window == 1 && InForce(s, rule, st, today)
    ensures QuietToday(s, OneMove(s.dates, s.today, move), rule, today)
  {
    hide OneMove, Evaluate, SeenToday, InForce, StockFactor, IndexFactor;
    var rows, seen := OneMove(s.dates, s.today, move), SeenToday(s, rule, today);
    SeesToday(s, rule, st, today);
    MoveFactors(s.dates, seen, s.today, move);
    assert seen[|seen| - 1..] == seen;
    TriggersIffSomeWindowMeets(rows, rule, seen);
  }

  // ---------------------------------------------------------------------------
  // Prices apart
  // ---------------------------------------------------------------------------

  /** Raw prices a whole unit apart never round to the same tick. */
  lemma RoundsApart(a: real, b: real, direction: Direction)
    requires a + 1.0 <= b
    ensures RoundToTick(a, TICK, direction) < RoundToTick(b, TICK, direction)
  {
    var m, n := RoundToTick(a, TICK, direction), RoundToTick(b, TICK, direction);
    hide RoundToTick;
    if m >= n { TicksGrow(n, m, TICK); }
  }

  lemma AtLeastOne(raw: real)
    requires raw >= 1.0
    ensures RoundToTick(raw, TICK, Down) > 0
  {
    RoundsApart(raw - 1.0, raw, Down);
    hide RoundToTick;
    if RoundToTick(raw, TICK, Down) <= 0 { TicksGrow(RoundToTick(raw, TICK, Down) + 1, 1, TICK); }
  }

  /** A price at least as extreme as the moved one is never the plain one a unit away. */
  lemma PublishedApart(direction: Direction, price: int, moved: real, plain: real)
    requires direction != NoDirection
    requires if direction == Up then moved > 0.0 && moved + 1.0 <= plain else plain + 1.0 <= moved && moved >= 1.0
    requires if direction == Up then price <= RoundToTick(moved, TICK, Up) else price >= RoundToTick(moved, TICK, direction)
    ensures Published(Some(price)) != if plain > 0.0 then Published(Some(RoundToTick(plain, TICK, direction))) else None
  {
    hide RoundToTick;
    if direction == Up { RoundsApart(moved, plain, Up); RoundsApart(0.0, plain, Up); TickRoundsToItself(0, Up); }
    else { RoundsApart(plain, moved, Down); AtLeastOne(moved); }
  }

  /** The raw price of a window on which stock and index moved by the same factor. */
  function MovedPrice(reference: real, threshold: real, factor: real, index: real): real
    requires factor > 0.0
  {
    Boundary(reference, threshold, factor * index, factor)
  }

  /** The window starting at the first kept session is priced from the move alone. */
  lemma MovedWindow(dates: seq<Date>, kept: seq<Date>, day: Date, move: Return, reference: real, index: real, threshold: real)
    requires Increasing(kept) && day in kept && (forall d :: d in kept ==> d in dates) && reference > 0.0
    ensures AllPriced(OneMove(dates, day, move), kept) && AllPriced(OneMove(dates, day, move), kept[0..])
    ensures AnswerAt(OneMove(dates, day, move), kept, 0, reference, index, threshold).raw
         == MovedPrice(reference, threshold, 1.0 + move, index)
  {
    hide StockFactor, IndexFactor, OneMove, Increasing;
    MoveFactors(dates, kept, day, move);
    assert kept[0..] == kept;
    RequiredGivesRaw(OneMove(dates, day, move), kept, 0, reference, index, threshold);
  }

  /** With a positive moved price, the solver's answer is at least as extreme as it. */
  lemma SolverReachesMove(dates: seq<Date>, kept: seq<Date>, day: Date, move: Return, reference: real, index: real,
                          threshold: real, direction: Direction)
    requires Increasing(kept) && day in kept && (forall d :: d in kept ==> d in dates) && direction != NoDirection
    requires reference > 0.0 && MovedPrice(reference, threshold, 1.0 + move, index) > 0.0
    ensures
      var price := ScenarioTicks(OneMove(dates, day, move), kept, reference, index, threshold, direction, TICK);
      var moved := RoundToTick(MovedPrice(reference, threshold, 1.0 + move, index), TICK, direction);
      price.Some? && if direction == Up then price.value <= moved else price.value >= moved
  {
    hide AnswerAt, Choose, OneMove, RoundToTick, Increasing, MovedPrice;
    var rows, raw := OneMove(dates, day, move), MovedPrice(reference, threshold, 1.0 + move, index);
    MovedWindow(dates, kept, day, move, reference, index, threshold);
    ChoiceIsExtreme(rows, kept, |kept| + 1, 0, reference, index, threshold, direction);
    var best := Choose(rows, kept, |kept| + 1, reference, index, threshold, direction).value.raw;
    if direction == Up { RoundingIsMonotone(best, raw, TICK, direction); } else { RoundingIsMonotone(raw, best, TICK, direction); }
  }

  // ---------------------------------------------------------------------------
  // The separating move and reference
  // ---------------------------------------------------------------------------

  function Size(x: real): real { if x < 0.0 then -x else x }

  lemma ThresholdSize(rule: Rule)
    requires ValidRule(rule) && rule.Deviation?
    ensures Size(rule.threshold / 100.0) > 0.0
    ensures rule.direction == Up ==> rule.threshold / 100.0 == Size(rule.threshold / 100.0)
    ensures rule.direction != Up ==> rule.direction == Down && rule.threshold / 100.0 == -Size(rule.threshold / 100.0)
  {
  }

  /** By how much stock and index grow: enough to leave half of the threshold's weight in the price. */
  function SeparatingFactor(need: real, index: real): (factor: real)
    requires need > 0.0 && index > 0.0
    ensures factor > 2.0
  {
    PositiveQuotient(need, index);
    2.0 + 2.0 * (need / index)
  }

  function SeparatingReference(need: real, index: real): (reference: real)
    requires need > 0.0 && index > 0.0
    ensures reference > 0.0
  {
    PositiveQuotient(2.0, need);
    PositiveQuotient(2.0, index);
    2.0 / need + 2.0 / index
  }

  /** `share` of the threshold's weight is left in the moved price. */
  lemma MovedPriceIs(reference: real, threshold: real, factor: real, index: real, share: real)
    requires factor > 0.0 && share * factor == 1.0
    ensures MovedPrice(reference, threshold, factor, index) == reference * (threshold / 100.0 * share + index)
  {
    var need := threshold / 100.0;
    var x := reference * (need * share + index);
    assert (need * share + index) * factor == need * (share * factor) + factor * index;
    assert x * factor == reference * (need + factor * index);
  }

  lemma Products(need: real, index: real, reference: real, factor: real, share: real)
    requires need > 0.0 && index > 0.0 && reference == SeparatingReference(need, index)
    requires factor == SeparatingFactor(need, index) && share * factor == 1.0
    ensures reference * need >= 2.0 && reference * index >= 2.0
    ensures 0.0 < share <= 0.5 && need * share <= index / 2.0
  {
    var a, b, c := 2.0 / need, 2.0 / index, need / index;
    PositiveQuotient(2.0, need);
    PositiveQuotient(2.0, index);
    PositiveQuotient(need, index);
    assert a * need == 2.0 && b * index == 2.0 && c * index == need;
    assert a * index > 0.0 && b * need > 0.0;
    assert (a + b) * need == a * need + b * need && (a + b) * index == a * index + b * index;
    ShareIsSmall(need, index, c, factor, share);
  }

  lemma ShareIsSmall(need: real, index: real, c: real, factor: real, share: real)
    requires need > 0.0 && index > 0.0 && c * index == need && factor == 2.0 + 2.0 * c && c > 0.0 && share * factor == 1.0
    ensures 0.0 < share <= 0.5 && need * share <= index / 2.0
  {
    LessScales(0.0, share, factor);
    LessScales(0.5, share, factor);
    assert share * factor == 2.0 * share + 2.0 * (share * c);
    assert share * c <= 0.5;
    assert need * share == index * (share * c);
    LessScales(0.5, share * c, index);
  }

  /** At that reference the two raw prices are at least a unit apart, the moved one the easier. */
  lemma RawPricesApart(rule: Rule, index: real, need: real)
    requires ValidRule(rule) && rule.Deviation? && index > 0.0 && need == Size(rule.threshold / 100.0) > 0.0
    ensures
      var reference, factor := SeparatingReference(need, index), SeparatingFactor(need, index);
      var moved, plain := MovedPrice(reference, rule.threshold, factor, index), Boundary(reference, rule.threshold, index, 1.0);
      if rule.direction == Up then moved > 0.0 && moved + 1.0 <= plain else plain + 1.0 <= moved && moved >= 1.0
  {
    hide SeparatingReference, SeparatingFactor, MovedPrice, Size;
    ThresholdSize(rule);
    var reference, factor := SeparatingReference(need, index), SeparatingFactor(need, index);
    var share := 1.0 / factor;
    assert share * factor == 1.0;
    Products(need, index, reference, factor, share);
    MovedPriceIs(reference, rule.threshold, factor, index, share);
    Apart(reference, need, index, share);
  }

  lemma Apart(reference: real, need: real, index: real, share: real)
    requires reference > 0.0 && need > 0.0 && index > 0.0 && reference * need >= 2.0 && reference * index >= 2.0
    requires 0.0 < share <= 0.5 && need * share <= index / 2.0
    ensures reference * (need * share + index) > 0.0
    ensures reference * (need * share + index) + 1.0 <= reference * (need + index)
    ensures reference * (-need + index) + 1.0 <= reference * (-need * share + index)
    ensures reference * (-need * share + index) >= 1.0
  {
    var rn, ri, rs := reference * need, reference * index, reference * (need * share);
    assert rs == rn * share;
    LessScales(0.5, share, rn);
    LessScales(index / 2.0, need * share, reference);
    assert reference * (need * share + index) == rs + ri && reference * (need + index) == rn + ri;
    assert reference * (-need + index) == -rn + ri && reference * (-need * share + index) == -rs + ri;
    assert rs > 0.0;
  }

  // ---------------------------------------------------------------------------
  // Results
  // ---------------------------------------------------------------------------

  /** A one-session rule whose reset is past: rows on which it is complete and quiet today, and a
      reference, for which the published scenario price is not the threshold's. */
  lemma OneSessionPricesDiffer(s: Session, rule: Rule, st: Option<State>, today: Option<Date>, scenario: Return, limits: PriceLimits)
    returns (rows: Rows, reference: real)
    requires ValidSession(s) && ValidRule(rule) && rule.Deviation? && rule.window == 1
    requires InForce(s, rule, st, today) && SearchFloor(s, st, rule.level) <= s.today
    ensures reference > 0.0 && QuietToday(s, rows, rule, today) && AllPriced(rows, KeptHistory(s, rule, st))
    ensures !PricesAgree(s, rows, rule, st, reference, scenario, limits)
  {
    hide SeparatingFactor, SeparatingReference, OneMove, RoundToTick, KeptHistory, StockFactor, IndexFactor, ScenarioTicks,
      MovedPrice, Boundary, PriceThreshold, Increasing, ValidSession, Published, InForce, QuietToday, SearchFloor, Size;
    ThresholdSize(rule);
    var index, need := 1.0 + scenario, Size(rule.threshold / 100.0);
    var kept := KeptHistory(s, rule, st);
    var move: Return := SeparatingFactor(need, index) - 1.0;
    reference := SeparatingReference(need, index);
    rows := OneMove(s.dates, s.today, move);
    KeptToday(s, rule, st);
    RawPricesApart(rule, index, need);
    MoveFactors(s.dates, kept, s.today, move);
    MoveIsQuiet(s, rule, st, today, move);
    SolverReachesMove(s.dates, kept, s.today, move, reference, index, rule.threshold, rule.direction);
    ThresholdOfOneSession(s, rows, rule, st, reference, scenario, limits);
    PublishedApart(rule.direction, ScenarioTicks(rows, kept, reference, index, rule.threshold, rule.direction, TICK).value,
                   MovedPrice(reference, rule.threshold, 1.0 + move, index), Boundary(reference, rule.threshold, index, 1.0));
  }

  /** The solver keeps today when the reset is past. */
  lemma KeptToday(s: Session, rule: Rule, st: Option<State>)
    requires ValidSession(s) && rule.Deviation? && rule.window == 1 && SearchFloor(s, st, rule.level) <= s.today
    ensures s.today in KeptHistory(s, rule, st) && Increasing(KeptHistory(s, rule, st))
    ensures forall d :: d in KeptHistory(s, rule, st) ==> d in s.dates
  {
    FromIncreasing(s.dates, SearchFloor(s, st, rule.level));
    hide SearchFloor;
    assert s.dates[|s.dates| - 1] in s.dates;
  }

  /** The threshold of a one-session rule searches no history. */
  lemma ThresholdOfOneSession(s: Session, rows: Rows, rule: Rule, st: Option<State>, reference: real, scenario: real, limits: PriceLimits)
    requires ValidRule(rule) && rule.Deviation? && rule.window == 1
    ensures
      var raw := Boundary(reference, rule.threshold, 1.0 + scenario, 1.0);
      PriceThreshold(s, rows, rule, st, s.next, reference, scenario, limits).Ticks()
        == if raw > 0.0 then Published(Some(RoundToTick(raw, TICK, rule.direction))) else None
  {
    var history := SearchHistory(s, st, rule, s.next);
    assert LastN(Before(s.dates, s.next), 0) == [];
    assert history == [];
    hide SearchHistory, TriggerTicks, RoundToTick, PriceThreshold, Boundary;
    PriceTicks(s, rows, rule, st, s.next, reference, scenario, limits);
    SearchOverNothing(rows, history, reference, 1.0 + scenario, rule.threshold, rule.direction);
  }

  /** Where the slice is right, every complete close has agreeing prices. */
  lemma AgreeOnCompleteCloses(s: Session, rows: Rows, rule: Rule, st: Option<State>, today: Option<Date>, reference: real,
                              scenario: real, limits: PriceLimits)
    requires ValidSession(s) && ValidRule(rule) && rule.Deviation? && reference > 0.0
    requires InForce(s, rule, st, today) && CompleteToday(s, rows, rule, today)
    requires rule.window >= 2 || s.today < SearchFloor(s, st, rule.level)
    ensures PricesAgree(s, rows, rule, st, reference, scenario, limits)
  {
    hide SolverHistory, SearchFloor, PriceThreshold, ScenarioTicks, FromReset, LastN, ValidSession;
    if rule.window >= 2 {
      CompleteWindowCoversTomorrow(rows, s.dates, rule.window, today, Some(SearchFloor(s, st, rule.level)));
    } else {
      NothingKept(s, rule, st);
    }
    ScenarioPriceIsThreshold(s, rows, rule, st, reference, scenario, limits);
  }

  lemma NothingKept(s: Session, rule: Rule, st: Option<State>)
    requires ValidSession(s) && rule.Deviation? && rule.window == 1 && s.today < SearchFloor(s, st, rule.level)
    ensures KeptHistory(s, rule, st) == [] && forall d :: d in s.dates ==> d < SearchFloor(s, st, rule.level)
  {
    hide SearchFloor;
    forall d | d in s.dates ensures d <= s.today { NothingAfterToday(s, d); }
    SolverHistoryIsExact(s.dates, 1, SearchFloor(s, st, rule.level));
    assert LastN(s.dates, 0) == [];
  }

  /** The exact condition: for a rule, its resets and an index scenario, the published price is the
      threshold's for all references and all rows on which the rule is complete and quiet today if and
      only if the rule looks back more than one session or its reset is still to come. The same holds
      of all rows on which it is complete: a count rule publishes the prices of a rule that triggered. */
  lemma PricesAgreeIff(s: Session, rule: Rule, st: Option<State>, today: Option<Date>, scenario: Return, limits: PriceLimits)
    requires ValidSession(s) && ValidRule(rule) && rule.Deviation? && InForce(s, rule, st, today)
    ensures (forall rows: Rows, reference: real :: reference > 0.0 && QuietToday(s, rows, rule, today) ==>
              PricesAgree(s, rows, rule, st, reference, scenario, limits))
        <==> (rule.window >= 2 || s.today < SearchFloor(s, st, rule.level))
    ensures (forall rows: Rows, reference: real :: reference > 0.0 && CompleteToday(s, rows, rule, today) ==>
              PricesAgree(s, rows, rule, st, reference, scenario, limits))
        <==> (rule.window >= 2 || s.today < SearchFloor(s, st, rule.level))
  {
    hide PricesAgree, SearchFloor, CompleteToday, InForce, ValidSession, Evaluate, SeenToday;
    if rule.window >= 2 || s.today < SearchFloor(s, st, rule.level) {
      forall rows: Rows, reference: real | reference > 0.0 && CompleteToday(s, rows, rule, today)
        ensures PricesAgree(s, rows, rule, st, reference, scenario, limits)
      {
        AgreeOnCompleteCloses(s, rows, rule, st, today, reference, scenario, limits);
      }
    } else {
      var rows, reference := OneSessionPricesDiffer(s, rule, st, today, scenario, limits);
    }
  }

  // ---------------------------------------------------------------------------
  // A small case
  // ---------------------------------------------------------------------------

  const FIRST_DAY := Session(1, 1, 2, [1])

  const TEN_IN_ONE := Deviation("a", "main", Abnormal, Up, 1, 10.0, 0, None)

  /** Today the stock rose by 5% against a flat index. */
  function FivePercent(): Rows { map[1 := Row(Some(0.05), Some(0.0))] }

  /** 5% up today, a one-session rule of 10%, reference 10.00: the rule is complete and quiet, the
      threshold asks for 11.00, the scenario solver publishes 10.48. */
  lemma OneSessionRuleDisagrees(limits: PriceLimits)
    ensures ValidSession(FIRST_DAY) && ValidRule(TEN_IN_ONE) && QuietToday(FIRST_DAY, FivePercent(), TEN_IN_ONE, None)
    ensures PriceThreshold(FIRST_DAY, FivePercent(), TEN_IN_ONE, None, 2, 10.0, 0.0, limits).Ticks() == Some(1100)
    ensures ScenarioTicks(FivePercent(), KeptHistory(FIRST_DAY, TEN_IN_ONE, None), 10.0, 1.0, 10.0, Up, TICK) == Some(1048)
  {
    hide RoundToTick, ScenarioTicks, PriceThreshold, FivePercent, QuietToday;
    ThresholdOfOneSession(FIRST_DAY, FivePercent(), TEN_IN_ONE, None, 10.0, 0.0, limits);
    TickRoundsToItself(1100, Up);
    FiveIsQuiet();
    KeepsTheDay();
    SolverOverToday([1]);
  }

  lemma KeepsTheDay()
    ensures KeptHistory(FIRST_DAY, TEN_IN_ONE, None) == [1]
  {
    FromSnoc([], 1, 1);
    assert [] + [1] == [1];
  }

  lemma FiveFactors(dates: seq<Date>)
    requires dates == [1]
    ensures AllPriced(FivePercent(), dates) && StockFactor(FivePercent(), dates) == 1.05 && IndexFactor(FivePercent(), dates) == 1.0
  {
    NoFactors(FivePercent());
    assert dates[..|dates| - 1] == [];
    FactorsSnoc(FivePercent(), dates);
  }

  lemma FiveIsQuiet()
    ensures QuietToday(FIRST_DAY, FivePercent(), TEN_IN_ONE, None)
  {
    var seen := SeenToday(FIRST_DAY, TEN_IN_ONE, None);
    SeesToday(FIRST_DAY, TEN_IN_ONE, None, None);
    hide SeenToday, FivePercent, StockFactor, IndexFactor, Evaluate;
    FiveFactors(seen);
    assert seen[|seen| - 1..] == seen;
    TriggersIffSomeWindowMeets(FivePercent(), TEN_IN_ONE, seen);
  }

  /** Over that one session the solver's best window starts on it. */
  lemma SolverOverToday(one: seq<Date>)
    requires one == [1]
    ensures ScenarioTicks(FivePercent(), one, 10.0, 1.0, 10.0, Up, TICK) == Some(1048)
  {
    hide StockFactor, IndexFactor, RoundToTick, FivePercent, Choose;
    var rows := FivePercent();
    assert one[0..] == [1] && one[1..] == [];
    FiveFactors(one[0..]);
    NoFactors(rows);
    NothingChosen(rows, one, 10.0, 1.0, 10.0, Up);
    ChooseNext(rows, one, 0, 10.0, 1.0, 10.0, Up);
    ChooseNext(rows, one, 1, 10.0, 1.0, 10.0, Up);
    var first, second := AnswerAt(rows, one, 0, 10.0, 1.0, 10.0), AnswerAt(rows, one, 1, 10.0, 1.0, 10.0);
    assert first.raw * 1.05 == 11.0 && first.required < 0.1 && second.required == 0.1;
    RoundsBetween(first.raw, 1048);
  }

  lemma RoundsBetween(value: real, ticks: int)
    requires PriceAt(ticks - 1) < value <= PriceAt(ticks)
    ensures RoundToTick(value, TICK, Up) == ticks
  {
    hide RoundToTick;
    RoundingIsExact(value, TICK, Up, ticks);
    RoundingIsExact(value, TICK, Up, ticks - 1);
  }
}
