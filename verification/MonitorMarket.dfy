/** Whole runs of the daily calculation over all stocks: no day refuses its checkpoints, and each
    stock gets the checkpoints of its own run. */
module MonitorMarket {
  import opened Wrappers
  import opened TradingCalendar
  import opened RegulationRules
  import opened MonitorDay
  import opened MonitorRuns
  import opened Lookahead

  datatype Day = Day(session: Session, candidates: seq<Candidate>)

  ghost predicate DistinctCandidates(candidates: seq<Candidate>) {
    forall i, j :: 0 <= i < j < |candidates| ==> candidates[i].symbol != candidates[j].symbol
  }

  /** Successive sessions, each listing a stock at most once. */
  ghost predicate ValidDays(active: seq<Rule>, days: seq<Day>) {
    && (forall rule :: rule in active ==> ValidRule(rule))
    && (forall k :: 0 <= k < |days| ==> ValidSession(days[k].session) && DistinctCandidates(days[k].candidates))
    && (forall j, k :: 0 <= j && k == j + 1 && k < |days| ==> Follows(days[j].session, days[k].session))
  }

  function StatesOf(outcomes: seq<Outcome>): (states: seq<State>)
    ensures |states| == |outcomes| && forall i :: 0 <= i < |states| ==> states[i] == outcomes[i].state
  {
    seq(|outcomes|, i requires 0 <= i < |outcomes| => outcomes[i].state)
  }

  ghost predicate AllFit(s: Session, states: seq<State>) {
    forall st :: st in states ==> Fits(s, Some(st))
  }

  /** What one day's calculation reports for each candidate. */
  ghost function DayOutcomes(s: Session, active: seq<Rule>, candidates: seq<Candidate>, states: seq<State>): (outcomes: seq<Outcome>)
    requires (forall rule :: rule in active ==> ValidRule(rule)) && ValidSession(s) && AllFit(s, states)
    ensures |outcomes| == |candidates|
  {
    Closes(s, active, candidates, states)
  }

  // ---------------------------------------------------------------------------
  // One day
  // ---------------------------------------------------------------------------

  lemma OutcomeOfCandidate(s: Session, active: seq<Rule>, candidates: seq<Candidate>, states: seq<State>, i: nat)
    requires (forall rule :: rule in active ==> ValidRule(rule)) && ValidSession(s) && AllFit(s, states) && i < |candidates|
    ensures
      var c := candidates[i];
      DayOutcomes(s, active, candidates, states)[i] == Close(s, RulesFor(active, c.segment), c, Lookup(states, c.symbol), true)
    ensures DayOutcomes(s, active, candidates, states)[i].state.symbol == candidates[i].symbol
    ensures DayOutcomes(s, active, candidates, states)[i].state.through == s.today
  {
    var c := candidates[i];
    StepIsClose(s, RulesFor(active, c.segment), c, Lookup(states, c.symbol));
    hide Step, BaseVerdicts, Verdicts, Reasons, EventsOf, Fits, ValidSession, LogFor;
  }

  lemma LookupFits(s: Session, states: seq<State>, symbol: string)
    requires AllFit(s, states)
    ensures Fits(s, Lookup(states, symbol))
  {
  }

  lemma DayStatesFit(s: Session, s': Session, active: seq<Rule>, candidates: seq<Candidate>, states: seq<State>)
    requires (forall rule :: rule in active ==> ValidRule(rule)) && ValidSession(s) && AllFit(s, states) && Follows(s, s')
    ensures AllFit(s', StatesOf(DayOutcomes(s, active, candidates, states)))
  {
    hide Close, DayOutcomes, Fits, ValidSession, Follows;
    var outcomes := DayOutcomes(s, active, candidates, states);
    forall st | st in StatesOf(outcomes) ensures Fits(s', Some(st)) {
      var i :| 0 <= i < |outcomes| && StatesOf(outcomes)[i] == st;
      OutcomeOfCandidate(s, active, candidates, states, i);
      LookupFits(s, states, candidates[i].symbol);
      CloseFits(s, s', RulesFor(active, candidates[i].segment), candidates[i], Lookup(states, candidates[i].symbol), true);
    }
  }

  lemma DayStatesAreDistinct(s: Session, active: seq<Rule>, candidates: seq<Candidate>, states: seq<State>)
    requires (forall rule :: rule in active ==> ValidRule(rule)) && ValidSession(s) && AllFit(s, states) && DistinctCandidates(candidates)
    ensures
      var after := StatesOf(DayOutcomes(s, active, candidates, states));
      DistinctSymbols(after) && forall i :: 0 <= i < |after| ==> after[i].symbol == candidates[i].symbol && after[i].through == s.today
  {
    hide Close, DayOutcomes, AllFit, ValidSession;
    forall i | 0 <= i < |candidates|
      ensures DayOutcomes(s, active, candidates, states)[i].state.symbol == candidates[i].symbol
      ensures DayOutcomes(s, active, candidates, states)[i].state.through == s.today
    {
      OutcomeOfCandidate(s, active, candidates, states, i);
    }
  }

  /** The checkpoints of one session are those the next one expects. */
  lemma PrecedingSession(s: Session, s': Session)
    requires ValidSession(s) && ValidSession(s') && Follows(s, s')
    ensures PreviousSession(s') == Some(s.today)
  {
    hide Before, Follows, Increasing;
    var k := DroppedSessions(s, s');
    assert s.dates[k..][|s.dates| - k - 1] == s.dates[|s.dates| - 1];
  }

  // ---------------------------------------------------------------------------
  // Runs
  // ---------------------------------------------------------------------------

  /** All checkpoints after the first `k` days. */
  ghost function StatesAfter(active: seq<Rule>, days: seq<Day>, k: nat): (states: seq<State>)
    requires ValidDays(active, days) && k <= |days|
    ensures k < |days| ==> AllFit(days[k].session, states)
  {
    if k == 0 then []
    else
      var before := StatesAfter(active, days, k - 1);
      var d := days[k - 1];
      if k < |days| then
        DayStatesFit(d.session, days[k].session, active, d.candidates, before);
        StatesOf(DayOutcomes(d.session, active, d.candidates, before))
      else StatesOf(DayOutcomes(d.session, active, d.candidates, before))
  }

  function Find(candidates: seq<Candidate>, symbol: string): (found: Option<Candidate>)
    ensures found.Some? ==> found.value in candidates && found.value.symbol == symbol
    ensures found.None? ==> forall i :: 0 <= i < |candidates| ==> candidates[i].symbol != symbol
  {
    if |candidates| == 0 then None
    else if candidates[|candidates| - 1].symbol == symbol then Some(candidates[|candidates| - 1])
    else Find(candidates[..|candidates| - 1], symbol)
  }

  /** One stock's part of the days. */
  function RunOf(days: seq<Day>, symbol: string): (run: seq<Input>)
    ensures |run| == |days| && forall k :: 0 <= k < |days| ==> run[k] == Input(days[k].session, Find(days[k].candidates, symbol))
  {
    seq(|days|, k requires 0 <= k < |days| => Input(days[k].session, Find(days[k].candidates, symbol)))
  }

  /** The stock stays in one segment, whose rules are valid. */
  ghost predicate InSegment(active: seq<Rule>, days: seq<Day>, symbol: string, segment: string) {
    && ValidRules(RulesFor(active, segment))
    && forall k, i :: 0 <= k < |days| && 0 <= i < |days[k].candidates| && days[k].candidates[i].symbol == symbol ==>
         days[k].candidates[i].segment == segment
  }

  lemma RunIsValid(active: seq<Rule>, days: seq<Day>, symbol: string, segment: string)
    requires ValidDays(active, days) && InSegment(active, days, symbol, segment)
    ensures ValidRun(RulesFor(active, segment), RunOf(days, symbol))
  {
    hide ValidRules, ValidSession, Follows;
    var run := RunOf(days, symbol);
    forall i, j | 0 <= i && j == i + 1 && j < |run| ensures Follows(run[i].session, run[j].session) {
      assert Follows(days[i].session, days[j].session);
    }
  }

  lemma {:induction false} LookupAt(states: seq<State>, i: nat)
    requires DistinctSymbols(states) && i < |states|
    ensures Lookup(states, states[i].symbol) == Some(states[i])
  {
    var n := |states| - 1;
    if i < n {
      assert states[i].symbol != states[n].symbol;
      LookupAt(states[..n], i);
    }
  }

  lemma LookupNone(states: seq<State>, symbol: string)
    requires forall i :: 0 <= i < |states| ==> states[i].symbol != symbol
    ensures Lookup(states, symbol) == None
  {
  }

  /** Each stock's checkpoint after a day is the one its own close leaves. */
  lemma StockAfterDay(s: Session, active: seq<Rule>, candidates: seq<Candidate>, states: seq<State>, symbol: string)
    requires (forall rule :: rule in active ==> ValidRule(rule)) && ValidSession(s) && AllFit(s, states) && DistinctCandidates(candidates)
    ensures Lookup(StatesOf(DayOutcomes(s, active, candidates, states)), symbol) ==
      match Find(candidates, symbol)
      case None => None
      case Some(c) => Some(Close(s, RulesFor(active, c.segment), c, Lookup(states, symbol), true).state)
  {
    hide Close, DayOutcomes, AllFit, ValidSession;
    var after := StatesOf(DayOutcomes(s, active, candidates, states));
    DayStatesAreDistinct(s, active, candidates, states);
    match Find(candidates, symbol)
    case None => LookupNone(after, symbol);
    case Some(c) =>
      var i :| 0 <= i < |candidates| && candidates[i] == c;
      OutcomeOfCandidate(s, active, candidates, states, i);
      LookupAt(after, i);
  }

  /** After any number of days over all stocks, each stock's checkpoint is that of its own run. */
  lemma {:induction false} EachStockHasItsRun(active: seq<Rule>, days: seq<Day>, k: nat, symbol: string, segment: string)
    requires ValidDays(active, days) && InSegment(active, days, symbol, segment) && k <= |days|
    ensures ValidRun(RulesFor(active, segment), RunOf(days, symbol))
    ensures Lookup(StatesAfter(active, days, k), symbol) == StateAfter(RulesFor(active, segment), RunOf(days, symbol), k, true)
  {
    hide Close, DayOutcomes, ValidRun, AllFit, Lookup, ValidSession, Follows, ValidRules, Find, StatesOf, StatesAfter, StateAfter,
      Fits, InSegment;
    RunIsValid(active, days, symbol, segment);
    if k == 0 {
      NothingYet(active, days, RulesFor(active, segment), RunOf(days, symbol));
      LookupNone([], symbol);
    } else {
      EachStockHasItsRun(active, days, k - 1, symbol, segment);
      StockAfterDay(days[k - 1].session, active, days[k - 1].candidates, StatesAfter(active, days, k - 1), symbol);
      FoundInSegment(active, days, k - 1, symbol, segment);
      StatesStep(active, days, k);
      StateStep(RulesFor(active, segment), RunOf(days, symbol), k);
    }
  }

  lemma NothingYet(active: seq<Rule>, days: seq<Day>, rules: seq<Rule>, run: seq<Input>)
    requires ValidDays(active, days) && ValidRun(rules, run)
    ensures StatesAfter(active, days, 0) == [] && StateAfter(rules, run, 0, true) == None
  {
    hide ValidRules, ValidSession, Follows;
  }

  lemma FoundInSegment(active: seq<Rule>, days: seq<Day>, k: nat, symbol: string, segment: string)
    requires InSegment(active, days, symbol, segment) && k < |days|
    ensures Find(days[k].candidates, symbol).Some? ==> Find(days[k].candidates, symbol).value.segment == segment
  {
    var found := Find(days[k].candidates, symbol);
    hide Find, ValidRules;
    if found.Some? {
      var i :| 0 <= i < |days[k].candidates| && days[k].candidates[i] == found.value;
    }
  }

  lemma StatesStep(active: seq<Rule>, days: seq<Day>, k: nat)
    requires ValidDays(active, days) && 0 < k <= |days|
    ensures StatesAfter(active, days, k)
         == StatesOf(DayOutcomes(days[k - 1].session, active, days[k - 1].candidates, StatesAfter(active, days, k - 1)))
  {
    hide DayOutcomes, AllFit, ValidSession, Follows;
  }

  lemma StateStep(rules: seq<Rule>, run: seq<Input>, k: nat)
    requires ValidRun(rules, run) && 0 < k <= |run|
    ensures StateAfter(rules, run, k, true) ==
      match run[k - 1].candidate
      case None => None
      case Some(c) => Some(Close(run[k - 1].session, rules, c, StateAfter(rules, run, k - 1, true), true).state)
  {
    hide Close, ValidRules, ValidSession, Follows;
  }

  /** What a day's calculation is given is what it accepts. */
  lemma DayAccepts(active: seq<Rule>, days: seq<Day>, k: nat)
    requires ValidDays(active, days) && k < |days|
    ensures DistinctSymbols(StatesAfter(active, days, k))
    ensures forall st :: st in StatesAfter(active, days, k) ==> Some(st.through) == PreviousSession(days[k].session)
  {
    hide DayOutcomes, AllFit, PreviousSession, Follows;
    if k > 0 {
      var d := days[k - 1];
      assert Follows(d.session, days[k].session);
      DayStatesAreDistinct(d.session, active, d.candidates, StatesAfter(active, days, k - 1));
      PrecedingSession(d.session, days[k].session);
    }
  }

  /** The daily calculation day after day: it never refuses, and ends with everyone's checkpoints. */
  method RunDays(active: seq<Rule>, days: seq<Day>) returns (states: seq<State>, outcomes: seq<seq<Outcome>>)
    requires ValidDays(active, days)
    ensures states == StatesAfter(active, days, |days|) && |outcomes| == |days|
    ensures forall k :: 0 <= k < |days| ==> outcomes[k] == DayOutcomes(days[k].session, active, days[k].candidates, StatesAfter(active, days, k))
  {
    hide Closes, DayOutcomes, AllFit, Follows, ValidSession, PreviousSession, DistinctSymbols, StatesAfter, Fits, ValidRule;
    states, outcomes := [], [];
    NoStatesYet(active, days);
    for k := 0 to |days|
      invariant states == StatesAfter(active, days, k) && |outcomes| == k
      invariant forall j :: 0 <= j < k ==> outcomes[j] == DayOutcomes(days[j].session, active, days[j].candidates, StatesAfter(active, days, j))
    {
      DayAccepts(active, days, k);
      FitsEach(days[k].session, states);
      StatesStep(active, days, k + 1);
      ghost var expected := DayOutcomes(days[k].session, active, days[k].candidates, states);
      IsDayOutcomes(days[k].session, active, days[k].candidates, states);
      var r := CalculateMonitorDay(days[k].session, active, days[k].candidates, states);
      OnlyTwoRefusals(r);
      states, outcomes := StatesOf(r.value), outcomes + [r.value];
    }
  }

  lemma IsDayOutcomes(s: Session, active: seq<Rule>, candidates: seq<Candidate>, states: seq<State>)
    requires (forall rule :: rule in active ==> ValidRule(rule)) && ValidSession(s) && AllFit(s, states)
    requires forall st :: st in states ==> Fits(s, Some(st))
    ensures DayOutcomes(s, active, candidates, states) == Closes(s, active, candidates, states)
  {
    hide Closes;
  }

  lemma FitsEach(s: Session, states: seq<State>)
    requires AllFit(s, states)
    ensures forall st :: st in states ==> Fits(s, Some(st))
  {
  }

  lemma NoStatesYet(active: seq<Rule>, days: seq<Day>)
    requires ValidDays(active, days)
    ensures StatesAfter(active, days, 0) == []
  {
    hide ValidSession, Follows;
  }

  /** The two refusals are all there are. */
  lemma OnlyTwoRefusals(r: Result<seq<Outcome>, DayError>)
    ensures r.Success? || r == Failure(DuplicateCheckpoint) || r == Failure(NotThePrecedingSession)
  {
    if r.Failure? { assert r.error == DuplicateCheckpoint || r.error == NotThePrecedingSession; }
  }
}
