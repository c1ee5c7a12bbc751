/** Event counts over whole runs: safety, single use, and the pruned log. */
module MonitorCounts {
  import opened Wrappers
  import opened TradingCalendar
  import opened RegulationRules
  import opened DeviationWindows
  import opened MonitorDay
  import opened TriggerPrice
  import opened MonitorThreshold
  import opened ThresholdExactness
  import opened MonitorRuns

  function SeriousFloor(s: Session, st: State): Date { st.seriousReset.GetOr(s.start) }

  /** Un-reset ordinary events in each count window number fewer than the rule requires. */
  ghost predicate CountsBelow(s: Session, rules: seq<Rule>, st: State) {
    forall rule :: rule in rules && rule.EventCount? ==>
      CountOf(st.events, rule.direction, LastN(s.dates, rule.countWindow), SeriousFloor(s, st)) < rule.required
  }

  lemma {:induction false} CountOfMonotone(events: seq<Event>, direction: Direction, sessions: seq<Date>, floor: Date,
                                           sessions': seq<Date>, floor': Date)
    requires forall i :: 0 <= i < |events| && Counts(events[i], direction, sessions', floor') ==>
      Counts(events[i], direction, sessions, floor)
    ensures CountOf(events, direction, sessions', floor') <= CountOf(events, direction, sessions, floor)
  {
    if |events| > 0 {
      CountOfMonotone(events[..|events| - 1], direction, sessions, floor, sessions', floor');
    }
  }

  lemma {:induction false} CountOfNothing(events: seq<Event>, direction: Direction, sessions: seq<Date>, floor: Date)
    requires forall i :: 0 <= i < |events| ==> !Counts(events[i], direction, sessions, floor)
    ensures CountOf(events, direction, sessions, floor) == 0
  {
    if |events| > 0 {
      CountOfNothing(events[..|events| - 1], direction, sessions, floor);
    }
  }

  /** Pruning removes nothing a count over recent sessions could see. */
  lemma {:induction false} CountOfRetained(s: Session, events: seq<Event>, direction: Direction, sessions: seq<Date>, floor: Date)
    requires s.start <= floor && forall d :: d in sessions ==> d in LastN(s.dates, LOG_SESSIONS)
    ensures CountOf(Retained(s, events), direction, sessions, floor) == CountOf(events, direction, sessions, floor)
  {
    hide Retained, CountOf;
    if |events| == 0 {
      RetainedNone(s);
      CountOfNone(direction, sessions, floor);
    } else {
      var n := |events| - 1;
      CountOfRetained(s, events[..n], direction, sessions, floor);
      LastOf(events);
      RetainedSnoc(s, events[..n], events[n]);
      CountOfSnoc(events[..n], events[n], direction, sessions, floor);
      CountOfSnoc(Retained(s, events[..n]), events[n], direction, sessions, floor);
      AppendNothing(Retained(s, events[..n]));
    }
  }

  lemma CountOfLog(s: Session, st: Option<State>, rule: Rule, prune: bool)
    requires ValidSession(s) && Fits(s, st) && rule.EventCount? && rule.countWindow <= LOG_SESSIONS
    ensures CountOf(LogFor(s, st, prune), rule.direction, LastN(s.dates, rule.countWindow), Floor(s, st, Serious))
         == CountOf(LogOf(st), rule.direction, LastN(s.dates, rule.countWindow), Floor(s, st, Serious))
  {
    LastNMonotone(s.dates, rule.countWindow, LOG_SESSIONS);
    CountOfRetained(s, LogOf(st), rule.direction, LastN(s.dates, rule.countWindow), Floor(s, st, Serious));
  }

  /** The next session's window adds only that session to the last one's. */
  lemma WindowOfSuccessor(s: Session, s': Session, n: nat)
    requires Follows(s, s') && n >= 1
    ensures forall d :: d in LastN(s'.dates, n) ==> d in LastN(s.dates, n) || d == s'.today
  {
    hide LastN;
    var k :| 0 <= k < |s.dates| && s'.dates == (s.dates + [s.next])[k..];
    LastNOfSuffix(s.dates + [s.next], k, n);
    LastNSnoc(s.dates, s.next, n);
    LastNMonotone(s.dates, n - 1, n);
    var kept := LastN(s.dates, n - 1);
    forall d | d in LastN(s'.dates, n) ensures d in LastN(s.dates, n) || d == s'.today {
      InSnoc(kept, s.next, d);
    }
  }

  /** Below the requirement before the next session opens means pending below it too. */
  lemma CountsBelowCarriesOver(s: Session, s': Session, rules: seq<Rule>, st: State, rule: Rule)
    requires ValidRules(rules) && ValidSession(s') && Follows(s, s') && Fits(s', Some(st))
    requires CountsBelow(s, rules, st) && rule in rules && rule.EventCount?
    ensures CountOf(st.events, rule.direction, LastN(s'.dates, rule.countWindow), SeriousFloor(s', st)) < rule.required
    ensures Pending(s', rule, Some(st), s'.today) < rule.required
  {
    hide CountOf, LastN, PendingCount, Fits, ValidSession, ValidRules, Follows, Pending;
    assert ValidRule(rule) && rule.countWindow <= LOG_SESSIONS by { CountRuleIsShort(rules, rule); }
    NarrowerWindowCountsLess(s, s', st, rule);
    PendingCountsWindow(s', st, rule);
  }

  lemma CountRuleIsShort(rules: seq<Rule>, rule: Rule)
    requires ValidRules(rules) && rule in rules && rule.EventCount?
    ensures ValidRule(rule) && rule.countWindow <= LOG_SESSIONS
  {
  }

  /** The next session's window, before that session has events, counts no more than the last one's. */
  lemma NarrowerWindowCountsLess(s: Session, s': Session, st: State, rule: Rule)
    requires Follows(s, s') && Fits(s', Some(st)) && rule.EventCount? && rule.countWindow >= 1
    ensures CountOf(st.events, rule.direction, LastN(s'.dates, rule.countWindow), SeriousFloor(s', st))
         <= CountOf(st.events, rule.direction, LastN(s.dates, rule.countWindow), SeriousFloor(s, st))
  {
    WindowOfSuccessor(s, s', rule.countWindow);
    hide CountOf, LastN;
    CountOfMonotone(st.events, rule.direction, LastN(s.dates, rule.countWindow), SeriousFloor(s, st),
                    LastN(s'.dates, rule.countWindow), SeriousFloor(s', st));
  }

  lemma PendingCountsWindow(s: Session, st: State, rule: Rule)
    requires ValidSession(s) && Fits(s, Some(st)) && rule.EventCount? && 1 <= rule.countWindow <= LOG_SESSIONS
    ensures Pending(s, rule, Some(st), s.today) == CountOf(st.events, rule.direction, LastN(s.dates, rule.countWindow), SeriousFloor(s, st))
  {
    hide CountOf, LastN, PendingCount, Before, Retained;
    TodayEndsTheCalendar(s, rule.countWindow);
    PendingIsRetainedCount(s, st.events, rule.direction, LastN(s.dates, rule.countWindow), SeriousFloor(s, st), s.today);
    CountOfLog(s, Some(st), rule, true);
  }

  /** A complete close leaves every count below its requirement: either no count rule fired,
      or the serious reset moved past everything counted. */
  lemma CompleteCloseCountsBelow(s: Session, rules: seq<Rule>, c: Candidate, st: Option<State>, prune: bool)
    requires ValidRules(rules) && ValidSession(s) && Fits(s, st) && Reasons(s, rules, c, st) == {}
    requires OrderedResets(st, s.today)
    ensures CountsBelow(s, rules, Close(s, rules, c, st, prune).state)
  {
    var o := Close(s, rules, c, st, prune);
    forall rule | rule in rules && rule.EventCount?
      ensures CountOf(o.state.events, rule.direction, LastN(s.dates, rule.countWindow), SeriousFloor(s, o.state)) < rule.required
    {
      RuleCountsBelow(s, rules, c, st, prune, rule);
    }
  }

  lemma RuleCountsBelow(s: Session, rules: seq<Rule>, c: Candidate, st: Option<State>, prune: bool, rule: Rule)
    requires ValidRules(rules) && ValidSession(s) && Fits(s, st) && Reasons(s, rules, c, st) == {}
    requires OrderedResets(st, s.today) && rule in rules && rule.EventCount?
    ensures
      var o := Close(s, rules, c, st, prune);
      CountOf(o.state.events, rule.direction, LastN(s.dates, rule.countWindow), SeriousFloor(s, o.state)) < rule.required
  {
    hide StepWith, Verdicts, BaseVerdicts, Reasons, LogFor, CountOf, LastN, EventsOf, Close, Fits, OrderedResets, SeriousFloor;
    if HasLevel(Close(s, rules, c, st, prune).events, Serious) {
      var e :| e in Close(s, rules, c, st, prune).events && e.level == Serious;
      SeriousMovesReset(s, rules, c, st, prune, e);
      CloseDates(s, rules, c, st, prune);
      CountOfNothing(Close(s, rules, c, st, prune).state.events, rule.direction, LastN(s.dates, rule.countWindow), s.next);
    } else {
      QuietRuleCountsBelow(s, rules, c, st, prune, rule);
    }
  }

  /** Without a serious event no count rule reached its requirement. */
  lemma QuietRuleCountsBelow(s: Session, rules: seq<Rule>, c: Candidate, st: Option<State>, prune: bool, rule: Rule)
    requires ValidRules(rules) && ValidSession(s) && Fits(s, st) && Reasons(s, rules, c, st) == {}
    requires OrderedResets(st, s.today) && rule in rules && rule.EventCount?
    requires !HasLevel(Close(s, rules, c, st, prune).events, Serious)
    ensures
      var o := Close(s, rules, c, st, prune);
      CountOf(o.state.events, rule.direction, LastN(s.dates, rule.countWindow), SeriousFloor(s, o.state)) < rule.required
  {
    var ordinary := EventsOf(s.today, rules, BaseVerdicts(s, rules, c, st), Abnormal);
    var log := LogFor(s, st, prune) + ordinary;
    var verdicts := Verdicts(s, rules, c, st, log);
    var serious := EventsOf(s.today, rules, verdicts, Serious);
    hide StepWith, Verdicts, BaseVerdicts, Reasons, LogFor, CountOf, LastN, EventsOf, Close, Fits, OrderedResets;
    CloseShape(s, rules, c, st, prune);
    NoSeriousEvents(s.today, rules, verdicts, ordinary);
    QuietResetStays(s, rules, c, st, prune);
    VerdictsByKind(s, rules, c, st, log);
    var i :| 0 <= i < |rules| && rules[i] == rule;
    NoSeriousNoHit(s.today, rules, verdicts, i);
    hide HasLevel, Floor;
    assert log + [] == log;
  }

  lemma NoSeriousEvents(today: Date, rules: seq<Rule>, verdicts: seq<Evaluated>, ordinary: seq<Event>)
    requires |rules| == |verdicts| && !HasLevel(ordinary + EventsOf(today, rules, verdicts, Serious), Serious)
    ensures EventsOf(today, rules, verdicts, Serious) == []
  {
    var serious := EventsOf(today, rules, verdicts, Serious);
    assert forall i :: 0 <= i < |serious| ==> serious[i].level == Serious;
    hide HasLevel, EventsOf;
    if |serious| > 0 { LastHasLevel(ordinary, serious, Serious); }
  }

  lemma LastHasLevel(a: seq<Event>, b: seq<Event>, level: Level)
    requires |b| > 0 && b[|b| - 1].level == level
    ensures HasLevel(a + b, level)
  {
    assert (a + b)[|a + b| - 1] == b[|b| - 1];
  }

  lemma QuietResetStays(s: Session, rules: seq<Rule>, c: Candidate, st: Option<State>, prune: bool)
    requires ValidRules(rules) && ValidSession(s) && Fits(s, st)
    requires !HasLevel(Close(s, rules, c, st, prune).events, Serious)
    ensures SeriousFloor(s, Close(s, rules, c, st, prune).state) == Floor(s, st, Serious)
  {
    var ordinary := EventsOf(s.today, rules, BaseVerdicts(s, rules, c, st), Abnormal);
    var verdicts := Verdicts(s, rules, c, st, LogFor(s, st, prune) + ordinary);
    hide EventsOf, Verdicts, BaseVerdicts, Reasons, LogFor, Fits, ValidSession;
    NoSeriousEvents(s.today, rules, verdicts, ordinary);
  }

  lemma SeriousMovesReset(s: Session, rules: seq<Rule>, c: Candidate, st: Option<State>, prune: bool, e: Event)
    requires ValidRules(rules) && ValidSession(s) && Fits(s, st) && OrderedResets(st, s.today)
    requires e in Close(s, rules, c, st, prune).events && e.level == Serious
    ensures SeriousFloor(s, Close(s, rules, c, st, prune).state) == s.next
  {
    CloseMovesResets(s, rules, c, st, prune);
    hide Close, Fits;
    assert HasLevel(Close(s, rules, c, st, prune).events, Serious);
  }

  lemma NoSeriousNoHit(today: Date, rules: seq<Rule>, verdicts: seq<Evaluated>, i: nat)
    requires ValidRules(rules) && |rules| == |verdicts| && i < |rules| && rules[i].EventCount?
    requires EventsOf(today, rules, verdicts, Serious) == []
    ensures !verdicts[i].Triggered()
  {
    assert rules[i] in rules && ValidRule(rules[i]);
    var down := EventFor(today, rules, verdicts, Serious, Down, Price);
    var up := EventFor(today, rules, verdicts, Serious, Up, Price);
    assert |down| == 0 && |up| == 0;
    assert verdicts[i].Triggered() ==> Hits(rules[i], verdicts[i], Serious, rules[i].direction, Price);
  }

  lemma CloseShape(s: Session, rules: seq<Rule>, c: Candidate, st: Option<State>, prune: bool)
    requires (forall rule :: rule in rules ==> ValidRule(rule)) && ValidSession(s) && Fits(s, st)
    ensures
      var o := Close(s, rules, c, st, prune);
      var ordinary := EventsOf(s.today, rules, BaseVerdicts(s, rules, c, st), Abnormal);
      var log := LogFor(s, st, prune) + ordinary;
      var serious := EventsOf(s.today, rules, Verdicts(s, rules, c, st, log), Serious);
      && o.events == ordinary + serious
      && o.verdicts == Verdicts(s, rules, c, st, log)
      && o.state.events == LogFor(s, st, prune) + (ordinary + serious)
      && o.state.events == log + serious
  {
    hide EventsOf, Verdicts, BaseVerdicts, Reasons, LogFor;
  }

  lemma CloseDates(s: Session, rules: seq<Rule>, c: Candidate, st: Option<State>, prune: bool)
    requires (forall rule :: rule in rules ==> ValidRule(rule)) && ValidSession(s) && Fits(s, st)
    ensures var events := Close(s, rules, c, st, prune).state.events; forall i :: 0 <= i < |events| ==> events[i].date < s.next
  {
    var s' := Session(s.start, s.next, s.next + 1, s.dates + [s.next]);
    assert Follows(s, s') by { assert s'.dates == (s.dates + [s.next])[0..]; }
    CloseFits(s, s', rules, c, st, prune);
  }

  /** Count safety: in every reachable checkpoint, the un-reset ordinary events per direction in
      each count window number fewer than the rule requires. */
  lemma {:induction false} CountsStayBelow(rules: seq<Rule>, run: seq<Input>, k: nat, prune: bool)
    requires ValidRun(rules, run) && 0 < k <= |run| && StateAfter(rules, run, k, prune).Some?
    ensures CountsBelow(run[k - 1].session, rules, StateAfter(rules, run, k, prune).value)
  {
    hide StateAfter, Close;
    RunStep(rules, run, k - 1, prune);
    var s, c, st := run[k - 1].session, run[k - 1].candidate.value, StateAfter(rules, run, k - 1, prune);
    if Reasons(s, rules, c, st) == {} {
      if k > 1 { ResetsStayOrdered(rules, run, k - 1, prune); }
      CompleteCloseCountsBelow(s, rules, c, st, prune);
    } else {
      IncompleteIsSilent(s, rules, c, st, prune);
      if st.Some? {
        CountsStayBelow(rules, run, k - 1, prune);
      }
      forall rule | rule in rules && rule.EventCount?
        ensures CountOf(LogFor(s, st, prune), rule.direction, LastN(s.dates, rule.countWindow), Floor(s, st, Serious)) < rule.required
      {
        assert ValidRule(rule);
        CountOfLog(s, st, rule, prune);
        if st.Some? {
          CountsBelowCarriesOver(run[k - 2].session, s, rules, st.value, rule);
        }
      }
    }
  }

  /** From every reachable checkpoint a count rule has fewer events pending than it requires. */
  lemma PendingStaysBelow(rules: seq<Rule>, run: seq<Input>, k: nat, n: nat)
    requires ValidRun(rules, run) && k < |run| && n < |rules| && rules[n].EventCount?
    ensures Pending(run[k].session, rules[n], StateAfter(rules, run, k, true), run[k].session.today) < rules[n].required
  {
    hide StateAfter, Close, PendingCount, CountOf, LastN;
    var s, st := run[k].session, StateAfter(rules, run, k, true);
    assert rules[n] in rules && ValidRule(rules[n]);
    if st.Some? {
      FirstStateIsEmpty(rules, run);
      assert Follows(run[k - 1].session, s);
      CountsStayBelow(rules, run, k, true);
      CountsBelowCarriesOver(run[k - 1].session, s, rules, st.value, rules[n]);
    } else {
      NothingPendingAtFirst(s, rules[n]);
    }
  }

  lemma FirstStateIsEmpty(rules: seq<Rule>, run: seq<Input>)
    requires ValidRun(rules, run)
    ensures StateAfter(rules, run, 0, true) == None
  {
  }

  /** Exactly when a count rule fires, from any reachable checkpoint: on a complete close that
      reaches the one ordinary rule's published price, and only if one more event was needed. */
  lemma CountRuleFiresExactly(rules: seq<Rule>, run: seq<Input>, k: nat, n: nat, ticks: int, reference: real, index: Return,
                              limits: PriceLimits)
    requires ValidRun(rules, run) && k < |run| && run[k].candidate.Some? && n < |rules| && rules[n].EventCount?
    requires OneOrdinaryRule(rules, rules[n].direction)
    requires Effective(rules[n], run[k].session.today) && ticks > 0 && reference > 0.0
    ensures
      var s, c, st := run[k].session, run[k].candidate.value, StateAfter(rules, run, k, true);
      var o := Step(s, rules, ClosedAt(c, s.today, ticks, reference, index), st);
      var t := ThresholdOf(s, rules, c, rules[n], st, s.today, Some(reference), Some(index), None, limits);
      && (o.verdicts[n].Triggered() <==> o.state.complete && Reaches(t.Ticks(), rules[n].direction, ticks))
      && (o.verdicts[n].Triggered() ==> Pending(s, rules[n], st, s.today) == rules[n].required - 1)
  {
    hide StateAfter, Step, Close, ThresholdOf, Pending, CountOf, ClosedAt, LastN;
    var s, c, st := run[k].session, run[k].candidate.value, StateAfter(rules, run, k, true);
    assert rules[n] in rules && ValidRule(rules[n]);
    PendingStaysBelow(rules, run, k, n);
    CountTriggersIffReached(s, rules, c, st, n, ticks, reference, index, limits);
    if ThresholdOf(s, rules, c, rules[n], st, s.today, Some(reference), Some(index), None, limits).At? {
      CountPriceNeedsOneMore(s, rules, c, rules[n], st, s.today, reference, index, limits);
    }
  }

  lemma NothingPendingAtFirst(s: Session, rule: Rule)
    requires rule.EventCount?
    ensures Pending(s, rule, None, s.today) == 0
  {
  }

  lemma CountPriceNeedsOneMore(s: Session, rules: seq<Rule>, c: Candidate, rule: Rule, st: Option<State>, target: Date,
                               reference: real, index: real, limits: PriceLimits)
    requires (forall r :: r in rules ==> ValidRule(r)) && ValidRule(rule) && rule.EventCount?
    requires ThresholdOf(s, rules, c, rule, st, target, Some(reference), Some(index), None, limits).At?
    ensures Pending(s, rule, st, target) == rule.required - 1
  {
    hide PriceThreshold, PendingCount, LastN, Before;
  }

  /** The count rule counted this event on a session where it fired. */
  ghost predicate Contributes(rules: seq<Rule>, run: seq<Input>, k: nat, prune: bool, n: nat, e: Event)
    requires ValidRun(rules, run) && k < |run| && run[k].candidate.Some? && n < |rules|
  {
    var s, st, o := run[k].session, StateAfter(rules, run, k, prune), OutcomeAt(rules, run, k, prune);
    && rules[n].EventCount? && o.verdicts[n].Triggered()
    && e in o.state.events
    && Counts(e, rules[n].direction, LastN(s.dates, rules[n].countWindow), Floor(s, st, Serious))
  }

  /** No ordinary event contributes to serious hits on two different sessions. */
  lemma NoEventCountsTwice(rules: seq<Rule>, run: seq<Input>, j: nat, k: nat, prune: bool, m: nat, n: nat, e: Event)
    requires ValidRun(rules, run) && j < k < |run| && run[j].candidate.Some? && run[k].candidate.Some?
    requires m < |rules| && n < |rules| && Contributes(rules, run, j, prune, m, e)
    ensures !Contributes(rules, run, k, prune, n, e)
  {
    hide StateAfter, Contributes;
    ContributionBounds(rules, run, j, prune, m, e);
    if Contributes(rules, run, k, prune, n, e) {
      ContributionBounds(rules, run, k, prune, n, e);
      CompleteChain(rules, run, j + 1, k + 1, prune);
      ResetsMoveForward(rules, run, j + 1, k, prune);
    }
  }

  /** A contributing event lies between the serious boundary before its session and the one after. */
  lemma ContributionBounds(rules: seq<Rule>, run: seq<Input>, k: nat, prune: bool, n: nat, e: Event)
    requires ValidRun(rules, run) && k < |run| && run[k].candidate.Some? && n < |rules|
    requires Contributes(rules, run, k, prune, n, e)
    ensures Complete(StateAfter(rules, run, k + 1, prune))
    ensures StateAfter(rules, run, k + 1, prune).value.seriousReset == Some(run[k].session.next)
    ensures e.date < run[k].session.next
    ensures Floor(run[k].session, StateAfter(rules, run, k, prune), Serious) <= e.date
  {
    hide StateAfter, OutcomeAt, Close, LastN;
    var s, c, st := run[k].session, run[k].candidate.value, StateAfter(rules, run, k, prune);
    RunStep(rules, run, k, prune);
    TriggerNeedsCompleteness(s, rules, c, st, prune, n);
    CountHitResets(rules, run, k, prune, n);
    CloseDates(s, rules, c, st, prune);
  }

  lemma TriggerNeedsCompleteness(s: Session, rules: seq<Rule>, c: Candidate, st: Option<State>, prune: bool, n: nat)
    requires ValidRules(rules) && ValidSession(s) && Fits(s, st) && n < |rules|
    requires Close(s, rules, c, st, prune).verdicts[n].Triggered()
    ensures Reasons(s, rules, c, st) == {} && Close(s, rules, c, st, prune).state.complete
  {
    hide Reasons, EventsOf, CountVerdict, PriceVerdict;
  }

  /** A firing count rule moves both resets to the next session and so puts everything counted behind
      them. */
  lemma CountHitResets(rules: seq<Rule>, run: seq<Input>, k: nat, prune: bool, n: nat)
    requires ValidRun(rules, run) && k < |run| && run[k].candidate.Some? && n < |rules| && rules[n].EventCount?
    requires OutcomeAt(rules, run, k, prune).verdicts[n].Triggered()
    ensures StateAfter(rules, run, k + 1, prune).Some?
    ensures StateAfter(rules, run, k + 1, prune).value.seriousReset == Some(run[k].session.next)
    ensures StateAfter(rules, run, k + 1, prune).value.abnormalReset == Some(run[k].session.next)
  {
    hide StateAfter, OutcomeAt, Close, EventsOf;
    RunStep(rules, run, k, prune);
    var s, c, st := run[k].session, run[k].candidate.value, StateAfter(rules, run, k, prune);
    if k > 0 { ResetsStayOrdered(rules, run, k, prune); }
    CloseShape(s, rules, c, st, prune);
    CloseMovesResets(s, rules, c, st, prune);
    var o := Close(s, rules, c, st, prune);
    var ordinary := EventsOf(s.today, rules, BaseVerdicts(s, rules, c, st), Abnormal);
    var serious := EventsOf(s.today, rules, o.verdicts, Serious);
    if serious == [] {
      NoSeriousNoHit(s.today, rules, o.verdicts, n);
    }
    assert serious[0] in ordinary + serious;
  }
}
