/** Whole runs of the day-by-day monitor for one stock under fixed rules. */
module MonitorRuns {
  import opened Wrappers
  import opened TradingCalendar
  import opened RegulationRules
  import opened DeviationWindows
  import opened MonitorDay

  /** One session of a run; a stock may be missing from a session's candidates. */
  datatype Input = Input(session: Session, candidate: Option<Candidate>)

  ghost predicate ValidRun(rules: seq<Rule>, run: seq<Input>) {
    && ValidRules(rules)
    && (forall i :: 0 <= i < |run| ==> ValidSession(run[i].session))
    && (forall i, j :: 0 <= i && j == i + 1 && j < |run| ==> Follows(run[i].session, run[j].session))
  }

  /** The log a close starts from: pruned as published, or kept in full for comparison. */
  function LogFor(s: Session, st: Option<State>, prune: bool): seq<Event> {
    if prune then Retained(s, LogOf(st)) else LogOf(st)
  }

  function Close(s: Session, rules: seq<Rule>, c: Candidate, st: Option<State>, prune: bool): Outcome
    requires (forall rule :: rule in rules ==> ValidRule(rule)) && ValidSession(s) && Fits(s, st)
  {
    StepWith(s, rules, c, st, LogFor(s, st, prune))
  }

  /** The checkpoint after the first `k` sessions. */
  function StateAfter(rules: seq<Rule>, run: seq<Input>, k: nat, prune: bool): (st: Option<State>)
    requires ValidRun(rules, run) && k <= |run|
    ensures k < |run| ==> Fits(run[k].session, st)
    decreases k
  {
    if k == 0 then None
    else
      var before := StateAfter(rules, run, k - 1, prune);
      match run[k - 1].candidate
      case None => None
      case Some(c) =>
        var o := Close(run[k - 1].session, rules, c, before, prune);
        if k < |run| then CloseFits(run[k - 1].session, run[k].session, rules, c, before, prune); Some(o.state) else Some(o.state)
  }

  /** The outcome of session `k`, when the stock is present. */
  function OutcomeAt(rules: seq<Rule>, run: seq<Input>, k: nat, prune: bool): Outcome
    requires ValidRun(rules, run) && k < |run| && run[k].candidate.Some?
  {
    Close(run[k].session, rules, run[k].candidate.value, StateAfter(rules, run, k, prune), prune)
  }

  // ---------------------------------------------------------------------------
  // One close
  // ---------------------------------------------------------------------------

  /** A close's checkpoint is usable at the next session. */
  lemma CloseFits(s: Session, s': Session, rules: seq<Rule>, c: Candidate, st: Option<State>, prune: bool)
    requires (forall rule :: rule in rules ==> ValidRule(rule)) && ValidSession(s) && Fits(s, st) && Follows(s, s')
    ensures Fits(s', Some(Close(s, rules, c, st, prune).state))
  {
    var log := LogFor(s, st, prune);
    RetainedMembers(s, LogOf(st));
    EventsStayBefore(log, Close(s, rules, c, st, prune).events, s'.today);
    hide EventsOf, Verdicts, Reasons, BaseVerdicts, LogFor, Retained;
  }

  lemma EventsStayBefore(log: seq<Event>, added: seq<Event>, day: Date)
    requires forall e :: e in log ==> e.date < day
    requires forall e :: e in added ==> e.date < day
    ensures forall i :: 0 <= i < |log + added| ==> (log + added)[i].date < day
  {
    forall i | 0 <= i < |log + added| ensures (log + added)[i].date < day {
      assert (log + added)[i] in log || (log + added)[i] in added;
    }
  }

  lemma {:induction false} RetainedMembers(s: Session, events: seq<Event>)
    ensures forall e :: e in Retained(s, events) <==>
      e in events && e.date in LastN(s.dates, LOG_SESSIONS) && s.start <= e.date
  {
    if |events| > 0 {
      var n := |events| - 1;
      RetainedMembers(s, events[..n]);
      assert events == events[..n] + [events[n]];
    }
  }

  lemma NothingTriggers(s: Session, rules: seq<Rule>, c: Candidate, st: Option<State>, log: seq<Event>)
    requires (forall rule :: rule in rules ==> ValidRule(rule)) && ValidSession(s) && Fits(s, st)
    requires Reasons(s, rules, c, st) != {}
    ensures Verdicts(s, rules, c, st, log) == BaseVerdicts(s, rules, c, st)
    ensures forall i :: 0 <= i < |rules| ==> !BaseVerdicts(s, rules, c, st)[i].Triggered()
  {
    hide Reasons, Fits, ValidSession, ValidRule;
  }

  lemma NoHitNoEvent(today: Date, rules: seq<Rule>, verdicts: seq<Evaluated>, level: Level)
    requires |rules| == |verdicts| && forall i :: 0 <= i < |rules| ==> !verdicts[i].Triggered()
    ensures EventsOf(today, rules, verdicts, level) == []
  {
    hide EventFor;
  }

  lemma AppendNothing(events: seq<Event>)
    ensures events + [] == events
  {
  }

  /** Missing observations silence every rule. */
  lemma IncompleteIsSilent(s: Session, rules: seq<Rule>, c: Candidate, st: Option<State>, prune: bool)
    requires (forall rule :: rule in rules ==> ValidRule(rule)) && ValidSession(s) && Fits(s, st)
    requires Reasons(s, rules, c, st) != {}
    ensures
      var o := Close(s, rules, c, st, prune);
      && o.events == [] && !o.state.complete
      && o.state.abnormalReset == (if st.Some? then st.value.abnormalReset else None)
      && o.state.seriousReset == (if st.Some? then st.value.seriousReset else None)
      && o.state.events == LogFor(s, st, prune)
  {
    hide Reasons, BaseVerdicts, EventsOf, Verdicts, LogFor, Fits, ValidSession, ValidRule;
    var base := BaseVerdicts(s, rules, c, st);
    NothingTriggers(s, rules, c, st, LogFor(s, st, prune) + EventsOf(s.today, rules, base, Abnormal));
    NoHitNoEvent(s.today, rules, base, Abnormal);
    NoHitNoEvent(s.today, rules, base, Serious);
    AppendNothing(LogFor(s, st, prune));
    AppendNothing([]);
  }

  ghost predicate HasLevel(events: seq<Event>, level: Level) {
    exists e :: e in events && e.level == level
  }

  ghost predicate HasPriceEvent(events: seq<Event>) {
    exists e :: e in events && e.kind == Price
  }

  ghost predicate OrderedResets(st: Option<State>, next: Date) {
    st.Some? ==>
      && (st.value.seriousReset.Some? ==>
            st.value.abnormalReset.Some? && st.value.seriousReset.value <= st.value.abnormalReset.value)
      && (st.value.abnormalReset.Some? ==> st.value.abnormalReset.value <= next)
  }

  /** A later reset value never precedes an earlier one. */
  predicate NotEarlier(before: Option<Date>, after: Option<Date>) {
    before.Some? ==> after.Some? && before.value <= after.value
  }

  /** What the resets are decided on is visible in the day's events. */
  lemma LevelsOfDay(ordinary: seq<Event>, serious: seq<Event>)
    requires (forall e :: e in ordinary ==> e.level == Abnormal) && forall e :: e in serious ==> e.level == Serious
    ensures |serious| > 0 <==> HasLevel(ordinary + serious, Serious)
    ensures HasPrice(ordinary) || |serious| > 0 <==> HasLevel(ordinary + serious, Serious) || HasPriceEvent(ordinary + serious)
  {
    if |serious| > 0 { assert serious[0] in ordinary + serious; }
    if i :| 0 <= i < |ordinary| && ordinary[i].kind == Price { assert ordinary[i] in ordinary + serious; }
  }

  lemma TodayBeforeNext(s: Session)
    requires ValidSession(s)
    ensures s.today < s.next
  {
  }

  /** One close keeps the resets ordered, moves them only forward, and moves them to the next
      session exactly for a price event (ordinary reset) or a serious event (both resets). */
  lemma CloseMovesResets(s: Session, rules: seq<Rule>, c: Candidate, st: Option<State>, prune: bool)
    requires (forall rule :: rule in rules ==> ValidRule(rule)) && ValidSession(s) && Fits(s, st)
    requires OrderedResets(st, s.today)
    ensures
      var o := Close(s, rules, c, st, prune);
      && OrderedResets(Some(o.state), s.next)
      && (st.Some? ==> NotEarlier(st.value.abnormalReset, o.state.abnormalReset))
      && (st.Some? ==> NotEarlier(st.value.seriousReset, o.state.seriousReset))
      && (HasLevel(o.events, Serious) <==> o.state.seriousReset == Some(s.next))
      && (HasLevel(o.events, Serious) || HasPriceEvent(o.events) <==> o.state.abnormalReset == Some(s.next))
  {
    hide EventsOf, Verdicts, Reasons, BaseVerdicts, LogFor, HasPrice, HasLevel, HasPriceEvent, ValidSession, ValidRule;
    var ordinary := EventsOf(s.today, rules, BaseVerdicts(s, rules, c, st), Abnormal);
    var serious := EventsOf(s.today, rules, Verdicts(s, rules, c, st, LogFor(s, st, prune) + ordinary), Serious);
    LevelsOfDay(ordinary, serious);
    TodayBeforeNext(s);
  }

  /** Windows of price events start no earlier than the level's reset boundary. */
  lemma PriceWindowsRespectResets(s: Session, rules: seq<Rule>, c: Candidate, st: Option<State>, prune: bool, e: Event)
    requires (forall rule :: rule in rules ==> ValidRule(rule)) && ValidSession(s) && Fits(s, st)
    requires e in Close(s, rules, c, st, prune).events && e.kind == Price
    ensures e.date == s.today
    ensures forall w :: w in e.starts ==> Floor(s, st, e.level) <= w
  {
    var base := BaseVerdicts(s, rules, c, st);
    var ordinary := EventsOf(s.today, rules, base, Abnormal);
    var verdicts := Verdicts(s, rules, c, st, LogFor(s, st, prune) + ordinary);
    var chosen := if e in ordinary then base else verdicts;
    assert e in EventsOf(s.today, rules, chosen, e.level) by { hide EventsOf, Verdicts, BaseVerdicts, Reasons; }
    if Reasons(s, rules, c, st) != {} {
      IncompleteIsSilent(s, rules, c, st, prune);
    } else {
      VerdictsByKind(s, rules, c, st, LogFor(s, st, prune) + ordinary);
      EventIsOfItsGroup(s.today, rules, chosen, e);
      hide EventsOf, EventFor, Verdicts, BaseVerdicts, Reasons, StepWith;
      StartsRespectFloor(s, rules, c, st, chosen, e);
    }
  }

  lemma VerdictsByKind(s: Session, rules: seq<Rule>, c: Candidate, st: Option<State>, log: seq<Event>)
    requires (forall rule :: rule in rules ==> ValidRule(rule)) && ValidSession(s) && Fits(s, st)
    requires Reasons(s, rules, c, st) == {}
    ensures
      var base, verdicts := BaseVerdicts(s, rules, c, st), Verdicts(s, rules, c, st, log);
      forall i :: 0 <= i < |rules| ==>
        && (rules[i].Deviation? ==> base[i] == verdicts[i] == PriceVerdict(s, c, st, rules[i]))
        && (rules[i].EventCount? ==> base[i] == Incomplete(None) && verdicts[i] == CountVerdict(s, rules[i], log, Floor(s, st, Serious)))
  {
    hide Reasons, CountVerdict, Evaluate;
  }

  lemma EventIsOfItsGroup(today: Date, rules: seq<Rule>, verdicts: seq<Evaluated>, e: Event)
    requires |rules| == |verdicts| && e in EventsOf(today, rules, verdicts, e.level)
    ensures e.date == today
    ensures e in EventFor(today, rules, verdicts, e.level, e.direction, e.kind)
  {
    hide EventFor;
  }

  /** The window of a price rule's verdict starts no earlier than the rule's floor. */
  lemma StartAfterFloor(s: Session, c: Candidate, st: Option<State>, rule: Rule, verdict: Evaluated)
    requires ValidRule(rule) && ValidSession(s) && Fits(s, st)
    requires rule.Deviation? ==> verdict == PriceVerdict(s, c, st, rule)
    requires !rule.Deviation? ==> !verdict.Measured?
    ensures Floor(s, st, rule.level) <= StartOf(verdict, s.today)
  {
    hide ValidSession, Evaluate;
    FloorIsPast(s, st, rule.level);
    if rule.Deviation? {
      var dates := RuleDates(s, st, rule);
      StartIsEligible(c.rows, rule, dates, s.today);
    }
  }

  lemma FloorIsPast(s: Session, st: Option<State>, level: Level)
    requires ValidSession(s) && Fits(s, st)
    ensures Floor(s, st, level) <= s.today
  {
  }

  lemma StartIsEligible(rows: Rows, rule: Rule, dates: seq<Date>, today: Date)
    requires rule.Deviation? && |dates| > 0
    ensures !Evaluate(rows, rule, dates).Incomplete? ==> StartOf(Evaluate(rows, rule, dates), today) in dates
    ensures Evaluate(rows, rule, dates).Incomplete? ==> StartOf(Evaluate(rows, rule, dates), today) == today
  {
    hide ExtremeLength, SuffixDeviation, FirstUnpriced;
  }

  lemma StartsRespectFloor(s: Session, rules: seq<Rule>, c: Candidate, st: Option<State>, verdicts: seq<Evaluated>, e: Event)
    requires (forall rule :: rule in rules ==> ValidRule(rule)) && ValidSession(s) && Fits(s, st)
    requires |verdicts| == |rules|
    requires forall i :: 0 <= i < |rules| && rules[i].Deviation? ==> verdicts[i] == PriceVerdict(s, c, st, rules[i])
    requires forall i :: 0 <= i < |rules| && rules[i].EventCount? ==> !verdicts[i].Measured?
    requires e.kind == Price && e in EventFor(s.today, rules, verdicts, e.level, e.direction, Price)
    ensures forall w :: w in e.starts ==> Floor(s, st, e.level) <= w
  {
    hide RuleDates, PriceVerdict, Fits, ValidSession, Floor, EventFor, StartOf, ValidRule;
    forall w | w in e.starts ensures Floor(s, st, e.level) <= w {
      var i :| 0 <= i < |rules| && Hits(rules[i], verdicts[i], e.level, e.direction, Price) && StartOf(verdicts[i], s.today) == w;
      assert rules[i] in rules;
      StartAfterFloor(s, c, st, rules[i], verdicts[i]);
    }
  }

  // ---------------------------------------------------------------------------
  // Whole runs
  // ---------------------------------------------------------------------------

  /** One session of a run is one close against the checkpoint before it. */
  lemma RunStep(rules: seq<Rule>, run: seq<Input>, k: nat, prune: bool)
    requires ValidRun(rules, run) && k < |run|
    ensures ValidSession(run[k].session) && Fits(run[k].session, StateAfter(rules, run, k, prune))
    ensures run[k].candidate.None? ==> StateAfter(rules, run, k + 1, prune).None?
    ensures run[k].candidate.Some? ==>
      var o := Close(run[k].session, rules, run[k].candidate.value, StateAfter(rules, run, k, prune), prune);
      OutcomeAt(rules, run, k, prune) == o && StateAfter(rules, run, k + 1, prune) == Some(o.state)
    ensures k > 0 ==> Follows(run[k - 1].session, run[k].session)
    ensures StateAfter(rules, run, 0, prune) == None
  {
    hide Close;
  }

  /** In every reachable checkpoint the serious reset is at most the abnormal reset, which is
      at most the next session. */
  lemma {:induction false} ResetsStayOrdered(rules: seq<Rule>, run: seq<Input>, k: nat, prune: bool)
    requires ValidRun(rules, run) && 0 < k <= |run|
    ensures OrderedResets(StateAfter(rules, run, k, prune), run[k - 1].session.next)
  {
    var s := run[k - 1].session;
    if k > 1 {
      ResetsStayOrdered(rules, run, k - 1, prune);
      assert Follows(run[k - 2].session, s);
    }
    if run[k - 1].candidate.Some? {
      CloseMovesResets(s, rules, run[k - 1].candidate.value, StateAfter(rules, run, k - 1, prune), prune);
    }
    hide Close;
  }

  ghost predicate ForwardResets(before: State, after: State) {
    NotEarlier(before.abnormalReset, after.abnormalReset) && NotEarlier(before.seriousReset, after.seriousReset)
  }

  lemma ResetsMoveOnce(rules: seq<Rule>, run: seq<Input>, k: nat, prune: bool)
    requires ValidRun(rules, run) && 0 < k < |run|
    requires StateAfter(rules, run, k, prune).Some? && StateAfter(rules, run, k + 1, prune).Some?
    ensures ForwardResets(StateAfter(rules, run, k, prune).value, StateAfter(rules, run, k + 1, prune).value)
  {
    hide StateAfter, Close, OutcomeAt;
    RunStep(rules, run, k, prune);
    ResetsStayOrdered(rules, run, k, prune);
    CloseMovesResets(run[k].session, rules, run[k].candidate.value, StateAfter(rules, run, k, prune), prune);
  }

  lemma ForwardTwice(a: State, b: State, c: State)
    requires ForwardResets(a, b) && ForwardResets(b, c)
    ensures ForwardResets(a, c)
  {
  }

  lemma ForwardAtRest(a: State)
    ensures ForwardResets(a, a)
  {
  }

  /** While the checkpoint chain is unbroken, both resets only move forward. */
  lemma {:induction false} ResetsMoveForward(rules: seq<Rule>, run: seq<Input>, j: nat, k: nat, prune: bool)
    requires ValidRun(rules, run) && 0 < j <= k <= |run|
    requires forall i :: j <= i <= k ==> StateAfter(rules, run, i, prune).Some?
    ensures ForwardResets(StateAfter(rules, run, j, prune).value, StateAfter(rules, run, k, prune).value)
  {
    hide StateAfter, ValidRun, ForwardResets;
    if j < k {
      ResetsMoveForward(rules, run, j, k - 1, prune);
      ResetsMoveOnce(rules, run, k - 1, prune);
      ForwardTwice(StateAfter(rules, run, j, prune).value, StateAfter(rules, run, k - 1, prune).value, StateAfter(rules, run, k, prune).value);
    } else { ForwardAtRest(StateAfter(rules, run, j, prune).value); }
  }

  ghost predicate Complete(st: Option<State>) {
    st.Some? && st.value.complete
  }

  lemma TodayAfterStart(rules: seq<Rule>, run: seq<Input>, k: nat)
    requires ValidRun(rules, run) && 0 < k < |run|
    ensures run[0].session.start == run[k].session.start
    ensures run[k].session.start <= run[0].session.today < run[k].session.today
  {
    assert Follows(run[k - 1].session, run[k].session);
    if k > 1 { TodayAfterStart(rules, run, k - 1); }
  }

  /** A complete close needs a complete checkpoint, an applicable stock and both returns. */
  lemma CompleteNeeds(s: Session, rules: seq<Rule>, c: Candidate, st: Option<State>, prune: bool)
    requires (forall rule :: rule in rules ==> ValidRule(rule)) && ValidSession(s) && Fits(s, st)
    requires Close(s, rules, c, st, prune).state.complete
    ensures Reasons(s, rules, c, st) == {}
    ensures st.None? ==> s.today == s.start
    ensures st.Some? ==> st.value.complete
    ensures c.applicability.Applicable? && Priced(c.rows, s.today)
  {
    var opening := OpeningReasons(s, c, st);
    assert NoCheckpoint !in opening && NoCurrentReturn !in opening && ApplicabilityReasons(c.applicability) <= opening;
  }

  /** A complete checkpoint has an unbroken chain of complete checkpoints behind it. */
  lemma {:induction false} CompleteChain(rules: seq<Rule>, run: seq<Input>, j: nat, k: nat, prune: bool)
    requires ValidRun(rules, run) && 0 < j <= k <= |run|
    requires Complete(StateAfter(rules, run, k, prune))
    ensures forall i :: j <= i <= k ==> Complete(StateAfter(rules, run, i, prune))
    decreases k - j
  {
    hide StateAfter, Close, OutcomeAt;
    if j < k {
      RunStep(rules, run, k - 1, prune);
      CompleteNeeds(run[k - 1].session, rules, run[k - 1].candidate.value, StateAfter(rules, run, k - 1, prune), prune);
      TodayAfterStart(rules, run, k - 1);
      CompleteChain(rules, run, j, k - 1, prune);
    }
  }

  /** Only complete closes emit events, and then on the session's own date. */
  lemma EmissionNeedsCompleteness(rules: seq<Rule>, run: seq<Input>, k: nat, prune: bool, e: Event)
    requires ValidRun(rules, run) && k < |run| && run[k].candidate.Some?
    requires e in OutcomeAt(rules, run, k, prune).events
    ensures Complete(StateAfter(rules, run, k + 1, prune))
    ensures e.date == run[k].session.today
  {
    var s, c, st := run[k].session, run[k].candidate.value, StateAfter(rules, run, k, prune);
    if Reasons(s, rules, c, st) != {} {
      IncompleteIsSilent(s, rules, c, st, prune);
    }
    hide EventsOf, Verdicts, BaseVerdicts, Reasons;
  }

  ghost predicate Ordinary(e: Event) { e.level == Abnormal && e.kind == Price }

  /** Disjoint windows: after an ordinary price event, every window of a later ordinary price
      event starts on a later session; after a serious event, so does every later price window. */
  lemma DisjointWindows(rules: seq<Rule>, run: seq<Input>, j: nat, k: nat, prune: bool, e: Event, f: Event)
    requires ValidRun(rules, run) && j < k < |run| && run[j].candidate.Some? && run[k].candidate.Some?
    requires e in OutcomeAt(rules, run, j, prune).events && f in OutcomeAt(rules, run, k, prune).events
    requires f.kind == Price && ((Ordinary(e) && Ordinary(f)) || e.level == Serious)
    ensures e.date == run[j].session.today
    ensures forall w :: w in f.starts ==> e.date < w
  {
    hide StateAfter, Close, OutcomeAt;
    var s, st := run[k].session, StateAfter(rules, run, k, prune);
    RunStep(rules, run, j, prune);
    RunStep(rules, run, k, prune);
    EmissionNeedsCompleteness(rules, run, j, prune, e);
    EmissionNeedsCompleteness(rules, run, k, prune, f);
    CompleteChain(rules, run, j + 1, k + 1, prune);
    if j > 0 { ResetsStayOrdered(rules, run, j, prune); }
    CloseMovesResets(run[j].session, rules, run[j].candidate.value, StateAfter(rules, run, j, prune), prune);
    ResetsMoveForward(rules, run, j + 1, k, prune);
    PriceWindowsRespectResets(s, rules, run[k].candidate.value, st, prune, f);
    assert run[j].session.next <= Floor(s, st, f.level);
  }
}
