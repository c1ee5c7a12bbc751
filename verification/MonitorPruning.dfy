/** The log pruned to ten sessions gives the same verdicts as a log that is never pruned. */
module MonitorPruning {
  import opened Wrappers
  import opened TradingCalendar
  import opened RegulationRules
  import opened MonitorDay
  import opened MonitorRuns
  import opened MonitorCounts

  /** Two checkpoints that differ only in how much log they keep; what a close at the same
      session would retain of either log is the same. */
  ghost predicate SameButLog(s: Session, pruned: Option<State>, full: Option<State>) {
    && (pruned.Some? <==> full.Some?)
    && (pruned.Some? ==>
          && full.value == pruned.value.(events := full.value.events)
          && Retained(s, pruned.value.events) == Retained(s, full.value.events))
  }

  lemma {:induction false} RetainedConcat(s: Session, a: seq<Event>, b: seq<Event>)
    ensures Retained(s, a + b) == Retained(s, a) + Retained(s, b)
  {
    hide Retained, InLog;
    if |b| == 0 {
      RetainedNone(s);
      AppendNothing(Retained(s, a));
      assert a + b == a;
    } else {
      var n := |b| - 1;
      RetainedConcat(s, a, b[..n]);
      LastOf(b);
      Associate(a, b[..n], [b[n]]);
      RetainedSnoc(s, a + b[..n], b[n]);
      RetainedSnoc(s, b[..n], b[n]);
      Associate(Retained(s, a), Retained(s, b[..n]), if InLog(s, b[n]) then [b[n]] else []);
    }
  }

  lemma {:induction false} RetainedTwice(s: Session, events: seq<Event>)
    ensures Retained(s, Retained(s, events)) == Retained(s, events)
  {
    hide Retained, InLog;
    if |events| == 0 {
      RetainedNone(s);
    } else {
      var n := |events| - 1;
      RetainedTwice(s, events[..n]);
      LastOf(events);
      RetainedSnoc(s, events[..n], events[n]);
      RetainedSnoc(s, Retained(s, events[..n]), events[n]);
      AppendNothing(Retained(s, events[..n]));
    }
  }

  /** What the next session retains, it retains of what this session retained. */
  lemma {:induction false} RetainedNext(s: Session, s': Session, events: seq<Event>)
    requires Follows(s, s') && forall i :: 0 <= i < |events| ==> events[i].date < s'.today
    ensures Retained(s', Retained(s, events)) == Retained(s', events)
  {
    hide Retained, InLog, Follows;
    if |events| == 0 {
      RetainedNone(s);
      RetainedNone(s');
    } else {
      var n := |events| - 1;
      RetainedNext(s, s', events[..n]);
      LogNarrows(s, s', events[n]);
      LastOf(events);
      RetainedSnoc(s, events[..n], events[n]);
      RetainedSnoc(s', events[..n], events[n]);
      RetainedSnoc(s', Retained(s, events[..n]), events[n]);
      AppendNothing(Retained(s, events[..n]));
      AppendNothing(Retained(s', events[..n]));
    }
  }

  /** What the next session still keeps of earlier events, this one kept. */
  lemma LogNarrows(s: Session, s': Session, e: Event)
    requires Follows(s, s') && e.date < s'.today
    ensures InLog(s', e) ==> InLog(s, e)
  {
    WindowOfSuccessor(s, s', LOG_SESSIONS);
    hide LastN;
  }

  /** Reasons and price verdicts never look at the log. */
  lemma {:induction false} ReasonsIgnoreLog(s: Session, rules: seq<Rule>, c: Candidate, st: State, st': State)
    requires (forall rule :: rule in rules ==> ValidRule(rule)) && ValidSession(s) && Fits(s, Some(st)) && Fits(s, Some(st'))
    requires st' == st.(events := st'.events)
    ensures MissingReturns(s, rules, c, Some(st)) == MissingReturns(s, rules, c, Some(st'))
  {
    if |rules| > 0 {
      var n := |rules| - 1;
      ReasonsIgnoreLog(s, rules[..n], c, st, st');
      assert rules[n] in rules && ValidRule(rules[n]);
      VerdictIgnoresLog(s, rules[n], c, st, st');
    }
  }

  lemma VerdictIgnoresLog(s: Session, rule: Rule, c: Candidate, st: State, st': State)
    requires ValidRule(rule) && ValidSession(s) && Fits(s, Some(st)) && Fits(s, Some(st'))
    requires st' == st.(events := st'.events)
    ensures PriceVerdict(s, c, Some(st), rule) == PriceVerdict(s, c, Some(st'), rule)
  {
  }

  /** Equal retained logs give every count rule the same verdict. */
  lemma LogsCountAlike(s: Session, rules: seq<Rule>, pruned: State, full: State, ordinary: seq<Event>, rule: Rule)
    requires ValidRules(rules) && ValidSession(s) && Fits(s, Some(pruned)) && Fits(s, Some(full))
    requires SameButLog(s, Some(pruned), Some(full)) && rule in rules && rule.EventCount?
    ensures CountVerdict(s, rule, LogFor(s, Some(pruned), true) + ordinary, Floor(s, Some(pruned), Serious))
         == CountVerdict(s, rule, LogFor(s, Some(full), false) + ordinary, Floor(s, Some(full), Serious))
  {
    var window, floor := LastN(s.dates, rule.countWindow), Floor(s, Some(full), Serious);
    hide CountOf, LastN, Retained;
    ThresholdExactness.CountOfConcat(LogFor(s, Some(pruned), true), ordinary, rule.direction, window, floor);
    ThresholdExactness.CountOfConcat(LogFor(s, Some(full), false), ordinary, rule.direction, window, floor);
    CountOfLog(s, Some(full), rule, true);
  }

  lemma SameRetention(s: Session, pruned: Option<State>, full: Option<State>, events: seq<Event>)
    requires SameButLog(s, pruned, full)
    ensures Retained(s, LogFor(s, pruned, true) + events) == Retained(s, LogFor(s, full, false) + events)
  {
    hide Retained;
    RetainedConcat(s, LogFor(s, pruned, true), events);
    RetainedConcat(s, LogFor(s, full, false), events);
    RetainedTwice(s, LogOf(pruned));
  }

  /** With equal verdicts and events, the two new checkpoints differ at most in their log. */
  lemma SameCheckpoint(s: Session, rules: seq<Rule>, c: Candidate, pruned: Option<State>, full: Option<State>)
    requires ValidRules(rules) && ValidSession(s) && Fits(s, pruned) && Fits(s, full) && SameButLog(s, pruned, full)
    requires Reasons(s, rules, c, pruned) == Reasons(s, rules, c, full)
    requires BaseVerdicts(s, rules, c, pruned) == BaseVerdicts(s, rules, c, full)
    requires
      var ordinary := EventsOf(s.today, rules, BaseVerdicts(s, rules, c, pruned), Abnormal);
      Verdicts(s, rules, c, pruned, LogFor(s, pruned, true) + ordinary) == Verdicts(s, rules, c, full, LogFor(s, full, false) + ordinary)
    ensures
      var p, f := Close(s, rules, c, pruned, true).state, Close(s, rules, c, full, false).state;
      f == p.(events := f.events)
  {
    hide EventsOf, Verdicts, BaseVerdicts, Reasons, Retained, LogFor, Fits;
  }

  /** One close of two such checkpoints agrees on everything but the kept log. */
  lemma CloseIgnoresPruning(s: Session, rules: seq<Rule>, c: Candidate, pruned: Option<State>, full: Option<State>)
    requires ValidRules(rules) && ValidSession(s) && Fits(s, pruned) && Fits(s, full) && SameButLog(s, pruned, full)
    ensures
      var p, f := Close(s, rules, c, pruned, true), Close(s, rules, c, full, false);
      && p.verdicts == f.verdicts && p.events == f.events
      && SameButLog(s, Some(p.state), Some(f.state))
  {
    hide EventsOf, Verdicts, BaseVerdicts, Reasons, Retained, LogFor, SameButLog, ValidSession, Fits;
    var ordinary := EventsOf(s.today, rules, BaseVerdicts(s, rules, c, pruned), Abnormal);
    BaseIgnoresLog(s, rules, c, pruned, full);
    CloseShape(s, rules, c, pruned, true);
    CloseShape(s, rules, c, full, false);
    VerdictsIgnoreLog(s, rules, c, pruned, full, ordinary);
    SameRetention(s, pruned, full, Close(s, rules, c, pruned, true).events);
    SameCheckpoint(s, rules, c, pruned, full);
    SameLogs(s, Close(s, rules, c, pruned, true).state, Close(s, rules, c, full, false).state);
  }

  lemma BaseIgnoresLog(s: Session, rules: seq<Rule>, c: Candidate, pruned: Option<State>, full: Option<State>)
    requires ValidRules(rules) && ValidSession(s) && Fits(s, pruned) && Fits(s, full) && SameButLog(s, pruned, full)
    ensures Reasons(s, rules, c, pruned) == Reasons(s, rules, c, full)
    ensures BaseVerdicts(s, rules, c, pruned) == BaseVerdicts(s, rules, c, full)
  {
    if pruned.Some? {
      ReasonsIgnoreLog(s, rules, c, pruned.value, full.value);
      forall i | 0 <= i < |rules| ensures PriceVerdict(s, c, pruned, rules[i]) == PriceVerdict(s, c, full, rules[i]) {
        assert rules[i] in rules && ValidRule(rules[i]);
        VerdictIgnoresLog(s, rules[i], c, pruned.value, full.value);
      }
    }
    hide PriceVerdict, MissingReturns, OpeningReasons;
    assert OpeningReasons(s, c, pruned) == OpeningReasons(s, c, full);
  }

  lemma VerdictsIgnoreLog(s: Session, rules: seq<Rule>, c: Candidate, pruned: Option<State>, full: Option<State>, ordinary: seq<Event>)
    requires ValidRules(rules) && ValidSession(s) && Fits(s, pruned) && Fits(s, full) && SameButLog(s, pruned, full)
    requires Reasons(s, rules, c, pruned) == Reasons(s, rules, c, full)
    requires BaseVerdicts(s, rules, c, pruned) == BaseVerdicts(s, rules, c, full)
    ensures Verdicts(s, rules, c, pruned, LogFor(s, pruned, true) + ordinary)
         == Verdicts(s, rules, c, full, LogFor(s, full, false) + ordinary)
  {
    if pruned.Some? {
      forall i | 0 <= i < |rules| && rules[i].EventCount?
        ensures CountVerdict(s, rules[i], LogFor(s, pruned, true) + ordinary, Floor(s, pruned, Serious))
             == CountVerdict(s, rules[i], LogFor(s, full, false) + ordinary, Floor(s, full, Serious))
      {
        LogsCountAlike(s, rules, pruned.value, full.value, ordinary, rules[i]);
      }
    }
    hide CountVerdict, BaseVerdicts, Reasons, LogFor;
  }

  lemma SameLogs(s: Session, p: State, f: State)
    requires f == p.(events := f.events) && Retained(s, p.events) == Retained(s, f.events)
    ensures SameButLog(s, Some(p), Some(f))
  {
  }

  lemma SameAtStart(s: Session)
    ensures SameButLog(s, None, None)
  {
  }

  lemma SameApartFromLog(s: Session, p: State, f: State)
    requires SameButLog(s, Some(p), Some(f))
    ensures f == p.(events := f.events)
  {
  }

  /** Checkpoints alike for the session they close are alike for the next one. */
  lemma SameForSuccessor(s: Session, s': Session, p: State, f: State)
    requires Follows(s, s') && Fits(s', Some(p)) && Fits(s', Some(f)) && SameButLog(s, Some(p), Some(f))
    ensures SameButLog(s', Some(p), Some(f))
  {
    hide Retained, Follows;
    RetainedNext(s, s', p.events);
    RetainedNext(s, s', f.events);
  }

  lemma SameAtNextSession(rules: seq<Rule>, run: seq<Input>, k: nat)
    requires ValidRun(rules, run) && 0 < k < |run|
    requires SameButLog(run[k - 1].session, StateAfter(rules, run, k - 1, true), StateAfter(rules, run, k - 1, false))
    ensures SameButLog(run[k].session, StateAfter(rules, run, k, true), StateAfter(rules, run, k, false))
  {
    hide StateAfter, Close, OutcomeAt, Retained, SameButLog, Fits, ValidSession;
    RunStep(rules, run, k, true);
    RunStep(rules, run, k, false);
    RunStep(rules, run, k - 1, true);
    RunStep(rules, run, k - 1, false);
    if run[k - 1].candidate.Some? {
      CloseIgnoresPruning(run[k - 1].session, rules, run[k - 1].candidate.value,
                          StateAfter(rules, run, k - 1, true), StateAfter(rules, run, k - 1, false));
      SameForSuccessor(run[k - 1].session, run[k].session, StateAfter(rules, run, k, true).value, StateAfter(rules, run, k, false).value);
    } else { SameAtStart(run[k].session); }
  }

  /** Pruning is invisible: at every session of every run the pruned and the unpruned monitor
      report the same verdicts and events and keep the same checkpoint apart from the log. */
  lemma {:induction false} PruningIsInvisible(rules: seq<Rule>, run: seq<Input>, k: nat)
    requires ValidRun(rules, run) && k < |run|
    ensures SameButLog(run[k].session, StateAfter(rules, run, k, true), StateAfter(rules, run, k, false))
    ensures run[k].candidate.Some? ==>
      var p, f := OutcomeAt(rules, run, k, true), OutcomeAt(rules, run, k, false);
      p.verdicts == f.verdicts && p.events == f.events && f.state == p.state.(events := f.state.events)
  {
    hide StateAfter, Close, OutcomeAt, Retained, SameButLog, Fits, ValidSession;
    RunStep(rules, run, k, true);
    RunStep(rules, run, k, false);
    if k > 0 {
      PruningIsInvisible(rules, run, k - 1);
      SameAtNextSession(rules, run, k);
    } else { SameAtStart(run[k].session); }
    if run[k].candidate.Some? {
      CloseIgnoresPruning(run[k].session, rules, run[k].candidate.value,
                          StateAfter(rules, run, k, true), StateAfter(rules, run, k, false));
      SameApartFromLog(run[k].session, OutcomeAt(rules, run, k, true).state, OutcomeAt(rules, run, k, false).state);
    }
  }

  lemma FullLogGrows(s: Session, rules: seq<Rule>, c: Candidate, st: Option<State>)
    requires (forall rule :: rule in rules ==> ValidRule(rule)) && ValidSession(s) && Fits(s, st)
    ensures Close(s, rules, c, st, false).state.events == LogOf(st) + Close(s, rules, c, st, false).events
  {
    hide EventsOf, Verdicts, Reasons, BaseVerdicts, Fits, ValidSession, ValidRule;
  }

  /** The unpruned monitor forgets nothing: along an unbroken run its log still holds every event that any
      earlier close emitted. */
  lemma {:induction false} FullLogKeepsEverything(rules: seq<Rule>, run: seq<Input>, j: nat, k: nat, e: Event)
    requires ValidRun(rules, run) && j < k <= |run| && forall i :: j <= i < k ==> run[i].candidate.Some?
    requires e in OutcomeAt(rules, run, j, false).events
    ensures StateAfter(rules, run, k, false).Some? && e in StateAfter(rules, run, k, false).value.events
  {
    hide StateAfter, Close, OutcomeAt, Fits, ValidSession;
    RunStep(rules, run, k - 1, false);
    FullLogGrows(run[k - 1].session, rules, run[k - 1].candidate.value, StateAfter(rules, run, k - 1, false));
    if j < k - 1 { FullLogKeepsEverything(rules, run, j, k - 1, e); }
  }
}
