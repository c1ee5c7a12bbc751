/** What a close reports about its rules: which rules each event names, which windows it starts from,
    and which gap each reason stands for. */
module MonitorReports {
  import opened Wrappers
  import opened TradingCalendar
  import opened RegulationRules
  import opened DeviationWindows
  import opened MonitorDay

  // ---------------------------------------------------------------------------
  // Events
  // ---------------------------------------------------------------------------

  ghost function HitCodes(rules: seq<Rule>, verdicts: seq<Evaluated>, level: Level, direction: Direction, kind: EventKind): set<string>
    requires |rules| == |verdicts|
  {
    set i | 0 <= i < |rules| && Hits(rules[i], verdicts[i], level, direction, kind) :: rules[i].code
  }

  ghost function HitStarts(today: Date, rules: seq<Rule>, verdicts: seq<Evaluated>, level: Level, direction: Direction, kind: EventKind): set<Date>
    requires |rules| == |verdicts|
  {
    set i | 0 <= i < |rules| && Hits(rules[i], verdicts[i], level, direction, kind) :: StartOf(verdicts[i], today)
  }

  /** The event carries exactly the codes of the triggered rules of its level, direction and kind, and
      exactly the sessions on which their windows start. */
  ghost predicate Names(e: Event, today: Date, rules: seq<Rule>, verdicts: seq<Evaluated>)
    requires |rules| == |verdicts|
  {
    && e.date == today
    && e.codes == HitCodes(rules, verdicts, e.level, e.direction, e.kind) && e.codes != {}
    && e.starts == HitStarts(today, rules, verdicts, e.level, e.direction, e.kind)
  }

  lemma CodesSnoc(rules: seq<Rule>, verdicts: seq<Evaluated>, level: Level, direction: Direction, kind: EventKind)
    requires |rules| == |verdicts| > 0
    ensures
      var n := |rules| - 1;
      var earlier := HitCodes(rules[..n], verdicts[..n], level, direction, kind);
      HitCodes(rules, verdicts, level, direction, kind)
        == if Hits(rules[n], verdicts[n], level, direction, kind) then earlier + {rules[n].code} else earlier
  {
    hide Hits;
    var n := |rules| - 1;
    var init, initVerdicts := rules[..n], verdicts[..n];
    forall code | code in HitCodes(init, initVerdicts, level, direction, kind) ensures code in HitCodes(rules, verdicts, level, direction, kind) {
      var i :| 0 <= i < n && Hits(init[i], initVerdicts[i], level, direction, kind) && init[i].code == code;
      assert Hits(rules[i], verdicts[i], level, direction, kind);
    }
    forall i | 0 <= i < n && Hits(rules[i], verdicts[i], level, direction, kind)
      ensures rules[i].code in HitCodes(init, initVerdicts, level, direction, kind)
    {
      assert Hits(init[i], initVerdicts[i], level, direction, kind);
    }
  }

  lemma StartsSnoc(today: Date, rules: seq<Rule>, verdicts: seq<Evaluated>, level: Level, direction: Direction, kind: EventKind)
    requires |rules| == |verdicts| > 0
    ensures
      var n := |rules| - 1;
      var earlier := HitStarts(today, rules[..n], verdicts[..n], level, direction, kind);
      HitStarts(today, rules, verdicts, level, direction, kind)
        == if Hits(rules[n], verdicts[n], level, direction, kind) then earlier + {StartOf(verdicts[n], today)} else earlier
  {
    hide Hits, StartOf;
    var n := |rules| - 1;
    var init, initVerdicts := rules[..n], verdicts[..n];
    forall d | d in HitStarts(today, init, initVerdicts, level, direction, kind)
      ensures d in HitStarts(today, rules, verdicts, level, direction, kind)
    {
      var i :| 0 <= i < n && Hits(init[i], initVerdicts[i], level, direction, kind) && StartOf(initVerdicts[i], today) == d;
      assert Hits(rules[i], verdicts[i], level, direction, kind);
    }
    forall i | 0 <= i < n && Hits(rules[i], verdicts[i], level, direction, kind)
      ensures StartOf(verdicts[i], today) in HitStarts(today, init, initVerdicts, level, direction, kind)
    {
      assert Hits(init[i], initVerdicts[i], level, direction, kind);
    }
  }

  /** The event one more triggered rule joins, or opens, names it as well. */
  lemma JoinedIsNamed(today: Date, group: seq<Event>, rules: seq<Rule>, verdicts: seq<Evaluated>, level: Level, direction: Direction,
                      kind: EventKind)
    requires |rules| == |verdicts| > 0 && Hits(rules[|rules| - 1], verdicts[|rules| - 1], level, direction, kind) && |group| <= 1
    requires
      var n := |rules| - 1;
      if group == [] then
        HitCodes(rules[..n], verdicts[..n], level, direction, kind) == {} && HitStarts(today, rules[..n], verdicts[..n], level, direction, kind) == {}
      else
        && group[0].level == level && group[0].direction == direction && group[0].kind == kind
        && Names(group[0], today, rules[..n], verdicts[..n])
    ensures Names(Merge(group, today, rules[|rules| - 1], verdicts[|rules| - 1]), today, rules, verdicts)
  {
    hide Hits, StartOf, HitCodes, HitStarts, Merge;
    var n := |rules| - 1;
    CodesSnoc(rules, verdicts, level, direction, kind);
    StartsSnoc(today, rules, verdicts, level, direction, kind);
    OneMoreHit(today, group, rules[n], verdicts[n], level, direction, kind);
  }

  /** Grouping loses no rule: an event names all rules that hit it, and no event means none did. */
  lemma {:induction false} EventNamesItsRules(today: Date, rules: seq<Rule>, verdicts: seq<Evaluated>, level: Level,
                                              direction: Direction, kind: EventKind)
    requires |rules| == |verdicts|
    ensures
      var group := EventFor(today, rules, verdicts, level, direction, kind);
      && (forall e :: e in group ==> Names(e, today, rules, verdicts))
      && (group == [] ==>
            HitCodes(rules, verdicts, level, direction, kind) == {} && HitStarts(today, rules, verdicts, level, direction, kind) == {})
  {
    hide Hits, StartOf, HitCodes, HitStarts, Merge, Names;
    if |rules| == 0 {
      NoHits(today, level, direction, kind);
    } else {
      var n := |rules| - 1;
      EventNamesItsRules(today, rules[..n], verdicts[..n], level, direction, kind);
      var group := EventFor(today, rules[..n], verdicts[..n], level, direction, kind);
      assert |group| == 1 ==> group[0] in group;
      if Hits(rules[n], verdicts[n], level, direction, kind) {
        JoinedIsNamed(today, group, rules, verdicts, level, direction, kind);
        assert EventFor(today, rules, verdicts, level, direction, kind) == [Merge(group, today, rules[n], verdicts[n])];
      } else {
        assert EventFor(today, rules, verdicts, level, direction, kind) == group;
        NotJoined(today, group, rules, verdicts, level, direction, kind);
      }
    }
  }

  lemma NotJoined(today: Date, group: seq<Event>, rules: seq<Rule>, verdicts: seq<Evaluated>, level: Level, direction: Direction,
                  kind: EventKind)
    requires |rules| == |verdicts| > 0 && !Hits(rules[|rules| - 1], verdicts[|rules| - 1], level, direction, kind)
    requires forall e :: e in group ==>
      e.level == level && e.direction == direction && e.kind == kind && Names(e, today, rules[..|rules| - 1], verdicts[..|rules| - 1])
    requires group == [] ==>
      HitCodes(rules[..|rules| - 1], verdicts[..|rules| - 1], level, direction, kind) == {}
      && HitStarts(today, rules[..|rules| - 1], verdicts[..|rules| - 1], level, direction, kind) == {}
    ensures forall e :: e in group ==> Names(e, today, rules, verdicts)
    ensures group == [] ==>
      HitCodes(rules, verdicts, level, direction, kind) == {} && HitStarts(today, rules, verdicts, level, direction, kind) == {}
  {
    hide Hits, StartOf, HitCodes, HitStarts;
    CodesSnoc(rules, verdicts, level, direction, kind);
    StartsSnoc(today, rules, verdicts, level, direction, kind);
  }

  lemma NoHits(today: Date, level: Level, direction: Direction, kind: EventKind)
    ensures HitCodes([], [], level, direction, kind) == {} && HitStarts(today, [], [], level, direction, kind) == {}
  {
  }

  lemma OneMoreHit(today: Date, group: seq<Event>, rule: Rule, verdict: Evaluated, level: Level, direction: Direction, kind: EventKind)
    requires |group| <= 1 && Hits(rule, verdict, level, direction, kind)
    requires |group| == 1 ==> group[0].date == today && group[0].level == level && group[0].direction == direction && group[0].kind == kind
    ensures
      var e := Merge(group, today, rule, verdict);
      && e.date == today && e.level == level && e.direction == direction && e.kind == kind
      && rule.code in e.codes && e.codes == (if |group| == 1 then group[0].codes else {}) + {rule.code}
      && e.starts == (if |group| == 1 then group[0].starts else {}) + {StartOf(verdict, today)}
  {
  }

  // ---------------------------------------------------------------------------
  // One close and one day
  // ---------------------------------------------------------------------------

  /** Ordinary events are judged before the count rules, serious ones after. */
  function Judged(base: seq<Evaluated>, verdicts: seq<Evaluated>, level: Level): seq<Evaluated> {
    if level == Abnormal then base else verdicts
  }

  /** Every event names exactly its triggered rules. */
  ghost predicate EventsNamed(events: seq<Event>, today: Date, rules: seq<Rule>, base: seq<Evaluated>, verdicts: seq<Evaluated>)
    requires |rules| == |base| == |verdicts|
  {
    forall e :: e in events ==> Names(e, today, rules, Judged(base, verdicts, e.level))
  }

  /** Every triggered rule is named by an event of its level, direction and kind. */
  ghost predicate RulesReported(events: seq<Event>, rules: seq<Rule>, base: seq<Evaluated>, verdicts: seq<Evaluated>)
    requires |rules| == |base| == |verdicts|
  {
    forall i :: 0 <= i < |rules| && Judged(base, verdicts, rules[i].level)[i].Triggered() ==> Reported(events, rules[i])
  }

  ghost predicate Reported(events: seq<Event>, rule: Rule) {
    exists e :: e in events && e.level == rule.level && e.direction == DirectionOf(rule) && e.kind == KindOf(rule) && rule.code in e.codes
  }

  /** Ordinary events come before serious ones, and at either level by direction; no two share both. */
  ghost predicate InGroupOrder(events: seq<Event>) {
    forall i, j :: 0 <= i < j < |events| ==> ComesBefore(events[i], events[j])
  }

  predicate ComesBefore(a: Event, b: Event) {
    if a.level == b.level then Rank(a.direction) < Rank(b.direction) else a.level == Abnormal
  }

  /** Directions sort by their names. */
  function Rank(d: Direction): nat {
    match d
    case Down => 0
    case NoDirection => 1
    case Up => 2
  }

  lemma LevelEventsNamed(today: Date, rules: seq<Rule>, verdicts: seq<Evaluated>, level: Level)
    requires |rules| == |verdicts|
    ensures forall e :: e in EventsOf(today, rules, verdicts, level) ==> e.level == level && Names(e, today, rules, verdicts)
    ensures InGroupOrder(EventsOf(today, rules, verdicts, level))
  {
    hide EventFor, Names;
    EventNamesItsRules(today, rules, verdicts, level, Down, Price);
    EventNamesItsRules(today, rules, verdicts, level, NoDirection, TurnoverKind);
    EventNamesItsRules(today, rules, verdicts, level, Up, Price);
    GroupsInOrder(EventFor(today, rules, verdicts, level, Down, Price), EventFor(today, rules, verdicts, level, NoDirection, TurnoverKind),
                  EventFor(today, rules, verdicts, level, Up, Price), level);
  }

  lemma GroupsInOrder(down: seq<Event>, other: seq<Event>, up: seq<Event>, level: Level)
    requires |down| <= 1 && |other| <= 1 && |up| <= 1 && forall e :: e in down + other + up ==> e.level == level
    requires (forall e :: e in down ==> e.direction == Down) && (forall e :: e in other ==> e.direction == NoDirection)
    requires forall e :: e in up ==> e.direction == Up
    ensures InGroupOrder(down + other + up)
  {
    var all := down + other + up;
    forall i, j | 0 <= i < j < |all| ensures ComesBefore(all[i], all[j]) {
      assert i == 0 || i == 1;
    }
  }

  lemma LevelRulesReported(today: Date, rules: seq<Rule>, verdicts: seq<Evaluated>, level: Level, i: nat)
    requires |rules| == |verdicts| && i < |rules| && ValidRule(rules[i])
    requires rules[i].level == level && verdicts[i].Triggered()
    ensures Reported(EventsOf(today, rules, verdicts, level), rules[i])
  {
    hide EventFor, HitStarts;
    var direction, kind := DirectionOf(rules[i]), KindOf(rules[i]);
    EventNamesItsRules(today, rules, verdicts, level, direction, kind);
    var group := EventFor(today, rules, verdicts, level, direction, kind);
    assert Hits(rules[i], verdicts[i], level, direction, kind);
    assert rules[i].code in HitCodes(rules, verdicts, level, direction, kind);
    assert group[0] in group;
  }

  /** What a close reports: its events name exactly the triggered rules, and all of them. */
  lemma CloseReportsEvents(s: Session, rules: seq<Rule>, c: Candidate, st: Option<State>)
    requires (forall rule :: rule in rules ==> ValidRule(rule)) && ValidSession(s) && Fits(s, st)
    ensures
      var o, base := Step(s, rules, c, st), BaseVerdicts(s, rules, c, st);
      && |o.verdicts| == |rules|
      && EventsNamed(o.events, s.today, rules, base, o.verdicts) && RulesReported(o.events, rules, base, o.verdicts)
      && InGroupOrder(o.events)
  {
    hide EventsOf, BaseVerdicts, Verdicts, Reasons, Names, Reported, Retained, LogOf, Fits, ValidSession, ValidRule, InGroupOrder;
    var o, base := Step(s, rules, c, st), BaseVerdicts(s, rules, c, st);
    var ordinary, serious := EventsOf(s.today, rules, base, Abnormal), EventsOf(s.today, rules, o.verdicts, Serious);
    assert o.events == ordinary + serious;
    LevelEventsNamed(s.today, rules, base, Abnormal);
    LevelEventsNamed(s.today, rules, o.verdicts, Serious);
    GroupsOfBothLevels(ordinary, serious);
    forall i | 0 <= i < |rules| && Judged(base, o.verdicts, rules[i].level)[i].Triggered() ensures Reported(o.events, rules[i]) {
      assert rules[i] in rules;
      LevelRulesReported(s.today, rules, Judged(base, o.verdicts, rules[i].level), rules[i].level, i);
      ReportedAmong(ordinary, serious, rules[i]);
    }
  }

  lemma GroupsOfBothLevels(ordinary: seq<Event>, serious: seq<Event>)
    requires InGroupOrder(ordinary) && InGroupOrder(serious)
    requires (forall e :: e in ordinary ==> e.level == Abnormal) && forall e :: e in serious ==> e.level == Serious
    ensures InGroupOrder(ordinary + serious)
  {
  }

  lemma ReportedAmong(ordinary: seq<Event>, serious: seq<Event>, rule: Rule)
    ensures Reported(ordinary, rule) || Reported(serious, rule) ==> Reported(ordinary + serious, rule)
  {
  }

  /** The same for every candidate of a day. */
  lemma DayReportsEvents(s: Session, active: seq<Rule>, candidates: seq<Candidate>, states: seq<State>, i: nat)
    requires (forall rule :: rule in active ==> ValidRule(rule)) && ValidSession(s)
    requires (forall st :: st in states ==> Fits(s, Some(st))) && i < |candidates|
    ensures
      var c := candidates[i];
      var rules, st := RulesFor(active, c.segment), Lookup(states, c.symbol);
      var o, base := Closes(s, active, candidates, states)[i], BaseVerdicts(s, rules, c, st);
      && |o.verdicts| == |rules|
      && EventsNamed(o.events, s.today, rules, base, o.verdicts) && RulesReported(o.events, rules, base, o.verdicts)
      && InGroupOrder(o.events)
  {
    hide Step, ValidSession, ValidRule, EventsNamed, RulesReported, InGroupOrder, BaseVerdicts;
    var c := candidates[i];
    CloseReportsEvents(s, RulesFor(active, c.segment), c, Lookup(states, c.symbol));
  }

  // ---------------------------------------------------------------------------
  // Verdicts and reasons
  // ---------------------------------------------------------------------------

  /** The session a deviation rule's incompleteness names is the first of its window without a return. */
  lemma {:induction false} FirstUnpricedIsFirst(rows: Rows, dates: seq<Date>)
    ensures FirstUnpriced(rows, dates).Some? ==> exists i :: FirstGap(rows, dates, i) && dates[i] == FirstUnpriced(rows, dates).value
  {
    if |dates| > 0 && Priced(rows, dates[0]) {
      FirstUnpricedIsFirst(rows, dates[1..]);
      if FirstUnpriced(rows, dates[1..]).Some? {
        var i :| FirstGap(rows, dates[1..], i) && dates[1..][i] == FirstUnpriced(rows, dates[1..]).value;
        LaterGap(rows, dates, i);
      }
    } else if |dates| > 0 { assert FirstGap(rows, dates, 0); }
  }

  ghost predicate FirstGap(rows: Rows, dates: seq<Date>, i: int) {
    0 <= i < |dates| && !Priced(rows, dates[i]) && forall j :: 0 <= j < i ==> Priced(rows, dates[j])
  }

  lemma LaterGap(rows: Rows, dates: seq<Date>, i: int)
    requires |dates| > 0 && Priced(rows, dates[0]) && FirstGap(rows, dates[1..], i)
    ensures FirstGap(rows, dates, i + 1)
  {
    hide Priced;
    forall j | 0 <= j < i + 1 ensures Priced(rows, dates[j]) {
      if j > 0 { assert dates[1..][j - 1] == dates[j]; }
    }
  }

  /** No window of the eligible sessions deviates further than the one from position `k`, and no shorter one
      as far. */
  ghost predicate ShortestExtreme(rows: Rows, direction: Direction, eligible: seq<Date>, k: int)
    requires AllPriced(rows, eligible)
  {
    && 0 <= k < |eligible|
    && forall j :: 0 <= j < |eligible| ==>
         && !Beyond(direction, DeviationOf(rows, eligible[j..]), DeviationOf(rows, eligible[k..]))
         && (j > k ==> DeviationOf(rows, eligible[j..]) != DeviationOf(rows, eligible[k..]))
  }

  predicate Reports(v: Evaluated, rule: Rule, value: real, start: Date)
    requires rule.Deviation?
  {
    v.Measured? && v.value == value && v.start == Some(start) && (v.triggered <==> Meets(rule.direction, value, rule.threshold))
  }

  /** A complete evaluation reports the shortest extreme window: its deviation, its start, and whether it
      meets the threshold. */
  lemma ReportsShortestExtreme(rows: Rows, rule: Rule, eligible: seq<Date>, today: Date)
    requires rule.Deviation? && |eligible| > 0 && AllPriced(rows, eligible)
    ensures exists k ::
      && ShortestExtreme(rows, rule.direction, eligible, k)
      && Reports(Evaluate(rows, rule, eligible), rule, DeviationOf(rows, eligible[k..]), eligible[k])
      && StartOf(Evaluate(rows, rule, eligible), today) == eligible[k]
  {
    hide DeviationOf, Priced, FirstUnpriced;
    var n := |eligible|;
    var best := ExtremeLength(rows, eligible, rule.direction, n);
    var k := n - best;
    forall j | 0 <= j < n
      ensures !Beyond(rule.direction, DeviationOf(rows, eligible[j..]), DeviationOf(rows, eligible[k..]))
      ensures j > k ==> DeviationOf(rows, eligible[j..]) != DeviationOf(rows, eligible[k..])
    {
      assert SuffixDeviation(rows, eligible, n - j) == DeviationOf(rows, eligible[j..]);
    }
    assert ShortestExtreme(rows, rule.direction, eligible, k);
  }

  /** A gap some deviation rule's window starts with. */
  ghost predicate GapOf(s: Session, rules: seq<Rule>, c: Candidate, st: Option<State>, r: Reason)
    requires (forall rule :: rule in rules ==> ValidRule(rule)) && ValidSession(s) && Fits(s, st)
  {
    exists k, i :: RuleGap(s, rules, c, st, k, i, r)
  }

  /** The reason names the first session without a return in the window of rule `k`. */
  ghost predicate RuleGap(s: Session, rules: seq<Rule>, c: Candidate, st: Option<State>, k: int, i: int, r: Reason)
    requires (forall rule :: rule in rules ==> ValidRule(rule)) && ValidSession(s) && Fits(s, st)
  {
    && 0 <= k < |rules| && rules[k].Deviation? && ValidRule(rules[k])
    && FirstGap(c.rows, RuleDates(s, st, rules[k]), i) && r == NoReturnOn(RuleDates(s, st, rules[k])[i])
  }

  lemma FirstGapIsOne(rows: Rows, dates: seq<Date>, i: int, j: int)
    requires FirstGap(rows, dates, i) && FirstGap(rows, dates, j)
    ensures i == j
  {
    hide Priced;
  }

  /** One rule's reason is its first gap. */
  lemma ReasonOfRule(s: Session, rule: Rule, c: Candidate, st: Option<State>, r: Reason)
    requires ValidRule(rule) && rule.Deviation? && ValidSession(s) && Fits(s, st)
    ensures r in ReasonsOf(PriceVerdict(s, c, st, rule)) <==>
      exists i :: FirstGap(c.rows, RuleDates(s, st, rule), i) && r == NoReturnOn(RuleDates(s, st, rule)[i])
  {
    hide RuleDates, ExtremeLength, SuffixDeviation, Priced, ValidSession, Fits;
    var dates := RuleDates(s, st, rule);
    FirstUnpricedIsFirst(c.rows, dates);
    if FirstUnpriced(c.rows, dates).Some? {
      var i :| FirstGap(c.rows, dates, i) && dates[i] == FirstUnpriced(c.rows, dates).value;
      forall j | FirstGap(c.rows, dates, j) ensures j == i { FirstGapIsOne(c.rows, dates, i, j); }
    } else {
      forall j ensures !FirstGap(c.rows, dates, j) { if 0 <= j < |dates| { assert Priced(c.rows, dates[j]); } }
    }
  }

  lemma {:induction false} MissingReturnsAreGaps(s: Session, rules: seq<Rule>, c: Candidate, st: Option<State>, r: Reason)
    requires (forall rule :: rule in rules ==> ValidRule(rule)) && ValidSession(s) && Fits(s, st)
    ensures r in MissingReturns(s, rules, c, st) <==> GapOf(s, rules, c, st, r)
  {
    hide ReasonsOf, PriceVerdict, RuleDates, FirstGap, ValidSession, Fits, ValidRule, GapOf;
    if |rules| == 0 {
      NoGap(s, c, st, r);
    } else {
      var n := |rules| - 1;
      MissingReturnsAreGaps(s, rules[..n], c, st, r);
      assert rules[n] in rules;
      GapSnoc(s, rules, c, st, r);
      if rules[n].Deviation? { ReasonOfRule(s, rules[n], c, st, r); }
    }
  }

  lemma NoGap(s: Session, c: Candidate, st: Option<State>, r: Reason)
    requires ValidSession(s) && Fits(s, st)
    ensures !GapOf(s, [], c, st, r)
  {
  }

  lemma GapSnoc(s: Session, rules: seq<Rule>, c: Candidate, st: Option<State>, r: Reason)
    requires (forall rule :: rule in rules ==> ValidRule(rule)) && ValidSession(s) && Fits(s, st) && |rules| > 0
    ensures
      var last := rules[|rules| - 1];
      && ValidRule(last)
      && (GapOf(s, rules, c, st, r) <==>
            || GapOf(s, rules[..|rules| - 1], c, st, r)
            || (last.Deviation? && exists i :: FirstGap(c.rows, RuleDates(s, st, last), i) && r == NoReturnOn(RuleDates(s, st, last)[i])))
  {
    hide RuleDates, Priced, ValidSession, Fits;
    var n := |rules| - 1;
    var init, last := rules[..n], rules[n];
    assert last in rules;
    if GapOf(s, rules, c, st, r) {
      var k, i :| RuleGap(s, rules, c, st, k, i, r);
      if k < n { assert init[k] == rules[k] && RuleGap(s, init, c, st, k, i, r); }
    }
    if GapOf(s, init, c, st, r) {
      var k, i :| RuleGap(s, init, c, st, k, i, r);
      assert init[k] == rules[k] && RuleGap(s, rules, c, st, k, i, r);
    }
    if last.Deviation? {
      forall i | FirstGap(c.rows, RuleDates(s, st, last), i) && r == NoReturnOn(RuleDates(s, st, last)[i]) ensures GapOf(s, rules, c, st, r) {
        assert RuleGap(s, rules, c, st, n, i, r);
      }
    }
  }

  /** Why a close is unusable before any rule is looked at. */
  ghost predicate OpensWith(s: Session, c: Candidate, st: Option<State>, r: Reason) {
    || (st.Some? && r in st.value.reasons)
    || (r == NoCheckpoint && if st.None? then s.today != s.start else !st.value.complete)
    || (c.applicability.Excluded? && r == Inapplicable(c.applicability.why))
    || (r == NoCurrentReturn && !Priced(c.rows, s.today))
  }

  /** The reasons a checkpoint keeps: everything that already spoilt the close, or, if nothing did, the
      first session without a return of each deviation rule's window. */
  lemma CloseReasonsAre(s: Session, rules: seq<Rule>, c: Candidate, st: Option<State>, r: Reason)
    requires (forall rule :: rule in rules ==> ValidRule(rule)) && ValidSession(s) && Fits(s, st)
    ensures r in Step(s, rules, c, st).state.reasons <==>
      if exists o :: OpensWith(s, c, st, o) then OpensWith(s, c, st, r) else GapOf(s, rules, c, st, r)
    ensures Step(s, rules, c, st).state.complete <==> Step(s, rules, c, st).state.reasons == {}
  {
    hide EventsOf, BaseVerdicts, Verdicts, Retained, LogOf, MissingReturns, OpeningReasons, GapOf, OpensWith, ValidSession, Fits, ValidRule;
    forall o ensures o in OpeningReasons(s, c, st) <==> OpensWith(s, c, st, o) { OpeningReasonsOpen(s, c, st, o); }
    MissingReturnsAreGaps(s, rules, c, st, r);
    SomeOpening(OpeningReasons(s, c, st));
  }

  lemma SomeOpening(reasons: set<Reason>)
    ensures reasons != {} <==> exists o :: o in reasons
  {
  }

  lemma OpeningReasonsOpen(s: Session, c: Candidate, st: Option<State>, o: Reason)
    ensures o in OpeningReasons(s, c, st) <==> OpensWith(s, c, st, o)
  {
  }

  /** On a complete close a turnover rule reports what its evaluation gave. */
  lemma TurnoverIsReported(s: Session, rules: seq<Rule>, c: Candidate, st: Option<State>, k: nat)
    requires (forall rule :: rule in rules ==> ValidRule(rule)) && ValidSession(s) && Fits(s, st)
    requires k < |rules| && rules[k].Turnover? && rules[k].code in c.turnover && Step(s, rules, c, st).state.complete
    ensures |Step(s, rules, c, st).verdicts| == |rules| && Step(s, rules, c, st).verdicts[k] == c.turnover[rules[k].code]
  {
    hide EventsOf, Retained, LogOf, Reasons, CountVerdict;
  }
}
