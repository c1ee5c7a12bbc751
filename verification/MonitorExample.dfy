/** A run in which everything the run theorems speak of happens: two adjacent closes, each complete,
    each with an ordinary event, and a count rule that fires on both. */
module MonitorExample {
  import opened Wrappers
  import opened TradingCalendar
  import opened RegulationRules
  import opened DeviationWindows
  import opened MonitorDay
  import opened MonitorThreshold
  import opened ThresholdExactness
  import opened MonitorRuns
  import opened MonitorCompleteness
  import opened MonitorCounts
  import opened Lookahead

  const TEN_PERCENT := Deviation("d", "main", Abnormal, Up, 1, 10.0, 0, None)

  const ONE_EVENT := EventCount("n", "main", Serious, Up, 10, 1, 0, None)

  function Rules(): seq<Rule> { [TEN_PERCENT, ONE_EVENT] }

  /** Both sessions close 20% up against a flat index. */
  function RisingRows(): Rows { map[1 := Row(Some(0.2), Some(0.0)), 2 := Row(Some(0.2), Some(0.0))] }

  function Rising(): Candidate { Candidate("x", "main", Applicable, RisingRows(), map[]) }

  function Run(): seq<Input> {
    [Input(DAY_ONE, Some(Rising())), Input(DAY_TWO, Some(Rising()))]
  }

  const DAY_ONE := Session(1, 1, 2, [1])

  const DAY_TWO := Session(1, 2, 3, [1, 2])

  lemma SessionsAreValid()
    ensures ValidSession(DAY_ONE) && ValidSession(DAY_TWO) && Follows(DAY_ONE, DAY_TWO)
  {
    assert DAY_TWO.dates == (DAY_ONE.dates + [2])[0..];
  }

  lemma RulesAreValid()
    ensures ValidRules(Rules()) && DistinctDimensions(Rules())
  {
  }

  lemma RunIsValid()
    ensures ValidRun(Rules(), Run()) && PersistentRows(Run()) && forall i :: 0 <= i < 2 ==> GoodClose(Run()[i])
  {
    RulesAreValid();
    SessionsAreValid();
    hide ValidRules, Rules, ValidSession, Follows;
    assert Run()[0].session == DAY_ONE && Run()[1].session == DAY_TWO;
    assert forall d :: 1 <= d <= 2 ==> Priced(RisingRows(), d);
    hide Priced, RisingRows;
  }

  /** A one-session rule of 10% triggers on a complete close of 20%. */
  lemma RuleTriggers(s: Session, st: Option<State>)
    requires ValidSession(s) && Fits(s, st) && (s.today == 1 || s.today == 2)
    ensures Evaluate(RisingRows(), TEN_PERCENT, RuleDates(s, st, TEN_PERCENT)).Triggered()
  {
    EligibleIsHistoryAndToday(s, st, TEN_PERCENT);
    NoHistory(s, st);
    var dates := RuleDates(s, st, TEN_PERCENT);
    assert [] + [s.today] == [s.today];
    hide RuleDates, Floor, SearchHistory, ValidSession, Fits, RisingRows;
    OneDay(dates, s.today);
    TriggersIffSomeWindowMeets(RisingRows(), TEN_PERCENT, dates);
  }

  lemma NoHistory(s: Session, st: Option<State>)
    ensures SearchHistory(s, st, TEN_PERCENT, s.today) == []
  {
    assert LastN(Before(s.dates, s.today), 0) == [];
  }

  lemma OneDay(dates: seq<Date>, d: Date)
    requires dates == [d] && (d == 1 || d == 2)
    ensures AllPriced(RisingRows(), dates) && SuffixDeviation(RisingRows(), dates, 1) == 20.0
  {
    var rows := RisingRows();
    assert dates[|dates| - 1..] == dates && dates[..0] == [];
    assert StockFactor(rows, []) == 1.0 && IndexFactor(rows, []) == 1.0;
    assert StockFactor(rows, dates) == 1.0 * (1.0 + rows[d].stock.value);
    assert IndexFactor(rows, dates) == 1.0 * (1.0 + rows[d].index.value);
  }

  lemma RunInput(k: nat)
    requires k < 2
    ensures |Run()| == 2 && Run()[k].candidate == Some(Rising()) && Rising().rows == RisingRows()
    ensures Run()[k].session == if k == 0 then DAY_ONE else DAY_TWO
    ensures Run()[0].session.today == Run()[0].session.start
  {
    hide RisingRows;
  }

  lemma RuleList()
    ensures |Rules()| == 2 && Rules()[0] == TEN_PERCENT && Rules()[1] == ONE_EVENT && ValidRule(TEN_PERCENT) && ValidRules(Rules())
  {
  }

  /** Each of the two closes is complete and emits an ordinary event. */
  lemma CloseEmits(k: nat) returns (e: Event)
    requires k < 2
    ensures ValidRun(Rules(), Run()) && Complete(StateAfter(Rules(), Run(), k + 1, true))
    ensures e in OutcomeAt(Rules(), Run(), k, true).events && Ordinary(e) && e.direction == Up && e.date == Run()[k].session.today
  {
    hide StateAfter, OutcomeAt, Run, RisingRows, Rules, Rising, ValidRun, ValidRules, Close, Reasons, BaseVerdicts, Evaluate, Fits,
      ValidSession, RuleDates, Follows;
    RunIsValid();
    RunInput(k);
    var s, c, st := Run()[k].session, Run()[k].candidate.value, StateAfter(Rules(), Run(), k, true);
    UnbrokenChainCompletes(Rules(), Run(), k + 1, true);
    RunStep(Rules(), Run(), k, true);
    RuleTriggers(s, st);
    RuleList();
    CompleteNeeds(s, Rules(), c, st, true);
    BaseVerdictAt(s, Rules(), c, st, 0);
    e := FirstEvent(s, c, st);
  }

  lemma TriggeredGroup(today: Date, verdicts: seq<Evaluated>) returns (e: Event)
    requires |verdicts| == |Rules()| && verdicts[0].Triggered()
    ensures e in EventsOf(today, Rules(), verdicts, Abnormal) && Ordinary(e) && e.direction == Up && e.date == today
  {
    hide EventFor;
    assert Hits(Rules()[0], verdicts[0], Abnormal, Up, Price);
    var group := EventFor(today, Rules(), verdicts, Abnormal, Up, Price);
    assert |group| == 1;
    e := group[0];
    assert e in group;
  }

  lemma FirstEvent(s: Session, c: Candidate, st: Option<State>) returns (e: Event)
    requires ValidRules(Rules()) && ValidSession(s) && Fits(s, st)
    requires BaseVerdicts(s, Rules(), c, st)[0].Triggered()
    ensures e in Close(s, Rules(), c, st, true).events && Ordinary(e) && e.direction == Up && e.date == s.today
  {
    hide BaseVerdicts, Close, Verdicts, LogFor, Fits, ValidSession, EventFor, EventsOf, Rules;
    var base := BaseVerdicts(s, Rules(), c, st);
    CloseShape(s, Rules(), c, st, true);
    e := TriggeredGroup(s.today, base);
  }

  /** The hypotheses of the run theorems can be met: both closes have an ordinary event, the second
      one's windows start after the first, and the count rule counts the first event only on its day. */
  lemma RunTheoremsApply() returns (e: Event, f: Event)
    ensures ValidRun(Rules(), Run())
    ensures e in OutcomeAt(Rules(), Run(), 0, true).events && f in OutcomeAt(Rules(), Run(), 1, true).events
    ensures Ordinary(e) && Ordinary(f) && e.date == 1 && forall w :: w in f.starts ==> 1 < w
    ensures Contributes(Rules(), Run(), 0, true, 1, e) && !Contributes(Rules(), Run(), 1, true, 1, e)
  {
    hide OutcomeAt, Contributes, ValidRun, StateAfter, Rules, Run, Rising, RisingRows;
    RunIsValid();
    RunInput(0);
    RunInput(1);
    RuleList();
    e := CloseEmits(0);
    f := CloseEmits(1);
    CountsOnItsDay(e);
    DisjointWindows(Rules(), Run(), 0, 1, true, e, f);
    NoEventCountsTwice(Rules(), Run(), 0, 1, true, 1, 1, e);
  }

  /** An ordinary event of the day meets a requirement of one at once. */
  lemma OneEventFires(s: Session, rules: seq<Rule>, c: Candidate, st: Option<State>)
    requires ValidRules(rules) && ValidSession(s) && Fits(s, st) && Reasons(s, rules, c, st) == {}
    requires |rules| == 2 && rules[0] == TEN_PERCENT && rules[1] == ONE_EVENT && BaseVerdicts(s, rules, c, st)[0].Triggered()
    ensures Close(s, rules, c, st, true).verdicts[1].Triggered()
  {
    hide Step, Reasons, BaseVerdicts, PendingCount, CountVerdict, EventsOf, Fits, ValidSession;
    StepIsClose(s, rules, c, st);
    VerdictAt(s, rules, c, st, 1);
    CountIsPendingPlusToday(s, rules, c, st, 1);
    assert Hits(rules[0], BaseVerdicts(s, rules, c, st)[0], Abnormal, Up, Price);
    hide Close;
  }

  /** An ordinary event is in the new checkpoint's log and inside every count window of its day. */
  lemma CountedToday(s: Session, rules: seq<Rule>, c: Candidate, st: Option<State>, rule: Rule, e: Event)
    requires ValidRules(rules) && ValidSession(s) && Fits(s, st) && rule.EventCount? && 1 <= rule.countWindow <= LOG_SESSIONS
    requires e in Close(s, rules, c, st, true).events && Ordinary(e) && e.direction == rule.direction && e.date == s.today
    ensures e in Close(s, rules, c, st, true).state.events
    ensures Counts(e, rule.direction, LastN(s.dates, rule.countWindow), Floor(s, st, Serious))
  {
    CloseShape(s, rules, c, st, true);
    TodayEndsTheCalendar(s, rule.countWindow);
    FloorByToday(s, st, Serious);
    hide Close, EventsOf, BaseVerdicts, Verdicts, LogFor, LastN, Floor, ValidSession, Fits;
  }

  lemma CountsOnItsDay(e: Event)
    requires ValidRun(Rules(), Run()) && Complete(StateAfter(Rules(), Run(), 1, true))
    requires e in OutcomeAt(Rules(), Run(), 0, true).events && Ordinary(e) && e.direction == Up && e.date == 1
    ensures Contributes(Rules(), Run(), 0, true, 1, e)
  {
    hide StateAfter, OutcomeAt, Run, RisingRows, Rules, Rising, ValidRun, ValidRules, Close, Reasons, BaseVerdicts, Evaluate, Fits,
      ValidSession, RuleDates, Follows, Counts, Floor, LastN;
    RunInput(0);
    RuleList();
    var s, c, st := Run()[0].session, Run()[0].candidate.value, StateAfter(Rules(), Run(), 0, true);
    RunStep(Rules(), Run(), 0, true);
    CompleteNeeds(s, Rules(), c, st, true);
    RuleTriggers(s, st);
    BaseVerdictAt(s, Rules(), c, st, 0);
    OneEventFires(s, Rules(), c, st);
    CountedToday(s, Rules(), c, st, ONE_EVENT, e);
  }
}
