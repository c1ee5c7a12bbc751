/** Which runs leave a complete checkpoint, and what a broken chain can still do. */
module MonitorCompleteness {
  import opened Wrappers
  import opened TradingCalendar
  import opened RegulationRules
  import opened MonitorDay
  import opened MonitorRuns

  /** The stock was applicable and had both returns on the session it closed. */
  ghost predicate GoodClose(input: Input) {
    && input.candidate.Some?
    && input.candidate.value.applicability.Applicable?
    && Priced(input.candidate.value.rows, input.session.today)
  }

  /** A session's return does not appear in, or vanish from, later sources. */
  ghost predicate PersistentRows(run: seq<Input>) {
    forall i, j :: 0 <= i < j < |run| && run[i].candidate.Some? && run[j].candidate.Some? ==>
      (Priced(run[j].candidate.value.rows, run[i].session.today) <==>
       Priced(run[i].candidate.value.rows, run[i].session.today))
  }

  lemma NothingAfterToday(s: Session, d: Date)
    requires ValidSession(s) && d in s.dates
    ensures d <= s.today
  {
    var i :| 0 <= i < |s.dates| && s.dates[i] == d;
    assert i < |s.dates| - 1 ==> s.dates[i] < s.dates[|s.dates| - 1];
  }

  lemma SuccessorDates(s: Session, s': Session, d: Date)
    requires Follows(s, s') && d in s'.dates
    ensures d in s.dates || d == s'.today
  {
    var n :| 0 <= n < |s.dates| && s'.dates == (s.dates + [s.next])[n..];
    InSuffix(s.dates + [s.next], n, d);
    InSnoc(s.dates, s.next, d);
  }

  /** Every session a source lists since the monitor start was closed by the run. */
  lemma {:induction false} RunCoversCalendar(rules: seq<Rule>, run: seq<Input>, k: nat, d: Date)
    requires ValidRun(rules, run) && k < |run| && run[0].session.today == run[0].session.start
    requires d in run[k].session.dates && run[k].session.start <= d
    ensures exists i :: 0 <= i <= k && run[i].session.today == d
  {
    var s := run[k].session;
    assert ValidSession(s);
    if k == 0 {
      NothingAfterToday(s, d);
    } else if d != s.today {
      assert Follows(run[k - 1].session, s);
      SuccessorDates(run[k - 1].session, s, d);
      RunCoversCalendar(rules, run, k - 1, d);
    }
  }

  /** A window never reaches back before the monitor start. */
  lemma WindowSincePriced(s: Session, rule: Rule, c: Candidate, st: Option<State>)
    requires ValidRule(rule) && rule.Deviation? && ValidSession(s) && Fits(s, st)
    requires forall d :: d in s.dates && s.start <= d ==> Priced(c.rows, d)
    ensures AllPriced(c.rows, RuleDates(s, st, rule))
  {
    hide ValidSession, Priced, LastN;
    var dates := RuleDates(s, st, rule);
    assert s.start <= Floor(s, st, rule.level);
    hide Fits, Floor;
    forall i | 0 <= i < |dates| ensures Priced(c.rows, dates[i]) {
      var d := dates[i];
      assert d in dates;
    }
  }

  lemma {:induction false} NothingMissing(s: Session, rules: seq<Rule>, c: Candidate, st: Option<State>)
    requires (forall rule :: rule in rules ==> ValidRule(rule)) && ValidSession(s) && Fits(s, st)
    requires forall d :: d in s.dates && s.start <= d ==> Priced(c.rows, d)
    ensures MissingReturns(s, rules, c, st) == {}
  {
    hide RuleDates, PriceVerdict, ReasonsOf, ValidSession, Fits, Priced, AllPriced, ValidRule;
    if |rules| > 0 {
      var n := |rules| - 1;
      NothingMissing(s, rules[..n], c, st);
      assert rules[n] in rules;
      if rules[n].Deviation? {
        WindowSincePriced(s, rules[n], c, st);
        PricedMeansNoReason(s, c, st, rules[n]);
      }
    }
  }

  lemma CompleteMeansNoReasons(rules: seq<Rule>, run: seq<Input>, k: nat, prune: bool)
    requires ValidRun(rules, run) && 0 < k <= |run| && StateAfter(rules, run, k, prune).Some?
    ensures var st := StateAfter(rules, run, k, prune).value; st.complete <==> st.reasons == {}
  {
    RunStep(rules, run, k - 1, prune);
    hide EventsOf, Verdicts, BaseVerdicts, Reasons;
  }

  lemma GoodCandidate(input: Input)
    requires GoodClose(input)
    ensures input.candidate.Some?
  {
  }

  /** Along a chain of good closes every listed session since the start is priced in the last source. */
  lemma ChainIsPriced(rules: seq<Rule>, run: seq<Input>, k: nat)
    requires ValidRun(rules, run) && PersistentRows(run) && 0 < k <= |run|
    requires run[0].session.today == run[0].session.start
    requires forall i :: 0 <= i < k ==> GoodClose(run[i])
    ensures
      var s := run[k - 1].session;
      run[k - 1].candidate.Some? && forall d :: d in s.dates && s.start <= d ==> Priced(run[k - 1].candidate.value.rows, d)
  {
    hide ValidRun, Priced;
    assert GoodClose(run[k - 1]);
    var s, c := run[k - 1].session, run[k - 1].candidate.value;
    forall d | d in s.dates && s.start <= d ensures Priced(c.rows, d) {
      RunCoversCalendar(rules, run, k - 1, d);
      var i :| 0 <= i <= k - 1 && run[i].session.today == d;
      assert GoodClose(run[i]);
    }
  }

  /** A good close on an unbroken checkpoint, with its whole calendar priced, is complete. */
  lemma GoodCloseCompletes(input: Input, rules: seq<Rule>, st: Option<State>, prune: bool)
    requires (forall rule :: rule in rules ==> ValidRule(rule)) && ValidSession(input.session) && Fits(input.session, st)
    requires GoodClose(input)
    requires if st.None? then input.session.today == input.session.start else st.value.reasons == {} && Complete(st)
    requires forall d :: d in input.session.dates && input.session.start <= d ==> Priced(input.candidate.value.rows, d)
    ensures Complete(Some(Close(input.session, rules, input.candidate.value, st, prune).state))
  {
    hide EventsOf, Verdicts, BaseVerdicts, MissingReturns, ValidSession, Fits;
    NothingMissing(input.session, rules, input.candidate.value, st);
  }

  lemma {:induction false} UnbrokenChainCompletes(rules: seq<Rule>, run: seq<Input>, k: nat, prune: bool)
    requires ValidRun(rules, run) && PersistentRows(run) && 0 < k <= |run|
    requires run[0].session.today == run[0].session.start
    requires forall i :: 0 <= i < k ==> GoodClose(run[i])
    ensures Complete(StateAfter(rules, run, k, prune))
  {
    hide StateAfter, Close, Fits, ValidSession, Reasons, GoodClose, PersistentRows;
    RunStep(rules, run, k - 1, prune);
    GoodCandidate(run[k - 1]);
    var s, c, st := run[k - 1].session, run[k - 1].candidate.value, StateAfter(rules, run, k - 1, prune);
    if k > 1 {
      UnbrokenChainCompletes(rules, run, k - 1, prune);
      CompleteMeansNoReasons(rules, run, k - 1, prune);
    }
    ChainIsPriced(rules, run, k);
    GoodCloseCompletes(run[k - 1], rules, st, prune);
  }

  /** A checkpoint is complete if and only if the stock has an unbroken chain of applicable,
      fully priced closes from the monitor start. */
  lemma CompleteIffUnbrokenChain(rules: seq<Rule>, run: seq<Input>, k: nat, prune: bool)
    requires ValidRun(rules, run) && PersistentRows(run) && 0 < k <= |run|
    ensures Complete(StateAfter(rules, run, k, prune)) <==>
      run[0].session.today == run[0].session.start && forall i :: 0 <= i < k ==> GoodClose(run[i])
  {
    hide StateAfter, Close, Fits, ValidSession, PersistentRows, Priced, OutcomeAt;
    if Complete(StateAfter(rules, run, k, prune)) {
      CompleteChain(rules, run, 1, k, prune);
      forall i | 0 <= i < k ensures GoodClose(run[i]) && (i == 0 ==> run[0].session.today == run[0].session.start) {
        assert Complete(StateAfter(rules, run, i + 1, prune));
        RunStep(rules, run, i, prune);
        CompleteNeeds(run[i].session, rules, run[i].candidate.value, StateAfter(rules, run, i, prune), prune);
      }
    } else if run[0].session.today == run[0].session.start && forall i :: 0 <= i < k ==> GoodClose(run[i]) {
      UnbrokenChainCompletes(rules, run, k, prune);
    }
  }

  lemma BrokenOnce(s: Session, rules: seq<Rule>, c: Candidate, st: State, prune: bool)
    requires (forall rule :: rule in rules ==> ValidRule(rule)) && ValidSession(s) && Fits(s, Some(st))
    requires !st.complete
    ensures
      var o := Close(s, rules, c, Some(st), prune);
      && !o.state.complete && st.reasons <= o.state.reasons && o.events == []
      && o.state.abnormalReset == st.abnormalReset && o.state.seriousReset == st.seriousReset
  {
    assert NoCheckpoint in OpeningReasons(s, c, Some(st));
    IncompleteIsSilent(s, rules, c, Some(st), prune);
  }

  ghost predicate Frozen(before: State, after: State) {
    && !after.complete && before.reasons <= after.reasons
    && after.abnormalReset == before.abnormalReset && after.seriousReset == before.seriousReset
  }

  ghost predicate Silent(rules: seq<Rule>, run: seq<Input>, i: nat, prune: bool)
    requires ValidRun(rules, run) && i < |run|
  {
    run[i].candidate.Some? && OutcomeAt(rules, run, i, prune).events == []
  }

  lemma FrozenAtRest(st: State)
    requires !st.complete
    ensures Frozen(st, st)
  {
  }

  lemma FrozenTwice(a: State, b: State, c: State)
    requires Frozen(a, b) && Frozen(b, c)
    ensures Frozen(a, c)
  {
  }

  lemma FrozenIsBroken(before: State, after: State)
    requires Frozen(before, after)
    ensures !after.complete
  {
  }

  lemma BrokenStep(rules: seq<Rule>, run: seq<Input>, i: nat, before: State, prune: bool)
    requires ValidRun(rules, run) && i < |run| && StateAfter(rules, run, i, prune).Some? && StateAfter(rules, run, i + 1, prune).Some?
    requires Frozen(before, StateAfter(rules, run, i, prune).value)
    ensures Frozen(before, StateAfter(rules, run, i + 1, prune).value) && Silent(rules, run, i, prune)
  {
    hide StateAfter, Close, OutcomeAt, Frozen, Fits, ValidSession;
    RunStep(rules, run, i, prune);
    var st, c := StateAfter(rules, run, i, prune).value, run[i].candidate.value;
    FrozenIsBroken(before, st);
    FrozenOnce(run[i].session, rules, c, st, prune);
    FrozenTwice(before, st, Close(run[i].session, rules, c, Some(st), prune).state);
  }

  lemma FrozenOnce(s: Session, rules: seq<Rule>, c: Candidate, st: State, prune: bool)
    requires (forall rule :: rule in rules ==> ValidRule(rule)) && ValidSession(s) && Fits(s, Some(st)) && !st.complete
    ensures Frozen(st, Close(s, rules, c, Some(st), prune).state) && Close(s, rules, c, Some(st), prune).events == []
  {
    hide Close, Fits, ValidSession;
    BrokenOnce(s, rules, c, st, prune);
  }

  /** Once broken, a chain stays broken: reasons only grow, no event is emitted, resets are frozen. */
  lemma {:induction false} BrokenStaysBroken(rules: seq<Rule>, run: seq<Input>, j: nat, k: nat, prune: bool)
    requires ValidRun(rules, run) && 0 < j <= k <= |run|
    requires forall i :: j <= i <= k ==> StateAfter(rules, run, i, prune).Some?
    requires !StateAfter(rules, run, j, prune).value.complete
    ensures Frozen(StateAfter(rules, run, j, prune).value, StateAfter(rules, run, k, prune).value)
    ensures forall i :: j <= i < k ==> Silent(rules, run, i, prune)
  {
    hide StateAfter, Frozen, Silent, ValidRun;
    if j < k {
      BrokenStaysBroken(rules, run, j, k - 1, prune);
      BrokenStep(rules, run, k - 1, StateAfter(rules, run, j, prune).value, prune);
    } else { FrozenAtRest(StateAfter(rules, run, j, prune).value); }
  }

  /** A stock that misses a session never recovers a complete checkpoint. */
  lemma MissedSessionIsFinal(rules: seq<Rule>, run: seq<Input>, j: nat, k: nat, prune: bool)
    requires ValidRun(rules, run) && j < k <= |run| && run[j].candidate.None?
    ensures !Complete(StateAfter(rules, run, k, prune))
  {
    hide StateAfter;
    RunStep(rules, run, j, prune);
    if Complete(StateAfter(rules, run, k, prune)) {
      CompleteChain(rules, run, j + 1, k, prune);
    }
  }
}
