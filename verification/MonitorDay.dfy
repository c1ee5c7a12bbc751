/** One verified close: `calculate_monitor_day` and `_monitor_events`. */
module MonitorDay {
  import opened Wrappers
  import opened TradingCalendar
  import opened RegulationRules
  import opened DeviationWindows

  datatype Applicability = Applicable | Excluded(why: string)

  /** One stock's inputs; `turnover` is what the turnover rules evaluate to. */
  datatype Candidate = Candidate(symbol: string, segment: string, applicability: Applicability,
                                 rows: Rows, turnover: map<string, Evaluated>)

  datatype Outcome = Outcome(verdicts: seq<Evaluated>, events: seq<Event>, state: State)

  /** The earliest session a rule of the given level may look back to. */
  function Floor(s: Session, st: Option<State>, level: Level): (floor: Date)
  {
    match st
    case None => s.start
    case Some(st) =>
      var serious := st.seriousReset.GetOr(s.start);
      if level == Serious then serious
      else Max(s.start, Max(st.abnormalReset.GetOr(s.start), serious))
  }

  /** Resets lie between the monitor start and the session being closed; no logged event
      is as late as that session. Every checkpoint of the preceding session is like this. */
  ghost predicate Fits(s: Session, st: Option<State>) {
    st.Some? ==>
      && (st.value.abnormalReset.Some? ==> s.start <= st.value.abnormalReset.value <= s.today)
      && (st.value.seriousReset.Some? ==> s.start <= st.value.seriousReset.value <= s.today)
      && (forall i :: 0 <= i < |st.value.events| ==> st.value.events[i].date < s.today)
  }

  function RuleDates(s: Session, st: Option<State>, rule: Rule): (eligible: seq<Date>)
    requires rule.Deviation? && rule.window >= 1 && ValidSession(s) && Fits(s, st)
    ensures |eligible| > 0
  {
    assert s.today == LastN(s.dates, rule.window)[|LastN(s.dates, rule.window)| - 1];
    assert s.today in Eligible(s.dates, rule.window, Floor(s, st, rule.level));
    Eligible(s.dates, rule.window, Floor(s, st, rule.level))
  }

  function ApplicabilityReasons(a: Applicability): (reasons: set<Reason>)
    ensures reasons == {} <==> a.Applicable?
  {
    match a
    case Applicable => {}
    case Excluded(why) => {Inapplicable(why)}
  }

  /** What already makes the close unusable before any rule is evaluated. */
  function OpeningReasons(s: Session, c: Candidate, st: Option<State>): set<Reason> {
    (if st.Some? then st.value.reasons else {})
    + (if (st.None? && s.today != s.start) || (st.Some? && !st.value.complete) then {NoCheckpoint} else {})
    + ApplicabilityReasons(c.applicability)
    + (if Priced(c.rows, s.today) then {} else {NoCurrentReturn})
  }

  /** The evaluation of everything except count rules, when nothing is missing. */
  function PriceVerdict(s: Session, c: Candidate, st: Option<State>, rule: Rule): Evaluated
    requires ValidRule(rule) && ValidSession(s) && Fits(s, st)
  {
    match rule
    case Deviation(_, _, _, _, _, _, _, _) => Evaluate(c.rows, rule, RuleDates(s, st, rule))
    case Turnover(code, _, _, _, _) => if code in c.turnover then c.turnover[code] else Incomplete(None)
    case EventCount(_, _, _, _, _, _, _, _) => Incomplete(None)
  }

  function MissingReturns(s: Session, rules: seq<Rule>, c: Candidate, st: Option<State>): set<Reason>
    requires (forall rule :: rule in rules ==> ValidRule(rule)) && ValidSession(s) && Fits(s, st)
  {
    if |rules| == 0 then {}
    else
      MissingReturns(s, rules[..|rules| - 1], c, st)
      + if rules[|rules| - 1].Deviation? then ReasonsOf(PriceVerdict(s, c, st, rules[|rules| - 1])) else {}
  }

  function ReasonsOf(e: Evaluated): set<Reason> {
    if e.Incomplete? && e.missing.Some? then {NoReturnOn(e.missing.value)} else {}
  }

  function Reasons(s: Session, rules: seq<Rule>, c: Candidate, st: Option<State>): set<Reason>
    requires (forall rule :: rule in rules ==> ValidRule(rule)) && ValidSession(s) && Fits(s, st)
  {
    var opening := OpeningReasons(s, c, st);
    if opening != {} then opening else MissingReturns(s, rules, c, st)
  }

  /** A deviation rule whose window is priced names no missing session. */
  lemma PricedMeansNoReason(s: Session, c: Candidate, st: Option<State>, rule: Rule)
    requires ValidRule(rule) && rule.Deviation? && ValidSession(s) && Fits(s, st) && AllPriced(c.rows, RuleDates(s, st, rule))
    ensures ReasonsOf(PriceVerdict(s, c, st, rule)) == {}
  {
    hide RuleDates, ValidSession, Fits;
  }

  function BaseVerdicts(s: Session, rules: seq<Rule>, c: Candidate, st: Option<State>): (verdicts: seq<Evaluated>)
    requires (forall rule :: rule in rules ==> ValidRule(rule)) && ValidSession(s) && Fits(s, st)
    ensures |verdicts| == |rules|
  {
    if Reasons(s, rules, c, st) == {}
    then seq(|rules|, i requires 0 <= i < |rules| => PriceVerdict(s, c, st, rules[i]))
    else seq(|rules|, i => Incomplete(None))
  }

  function DirectionOf(rule: Rule): Direction {
    if rule.Turnover? then NoDirection else rule.direction
  }

  function KindOf(rule: Rule): EventKind {
    if rule.Turnover? then TurnoverKind else Price
  }

  predicate Hits(rule: Rule, verdict: Evaluated, level: Level, direction: Direction, kind: EventKind) {
    rule.level == level && DirectionOf(rule) == direction && KindOf(rule) == kind && verdict.Triggered()
  }

  function StartOf(verdict: Evaluated, today: Date): Date {
    if verdict.Measured? then verdict.start.GetOr(today) else today
  }

  /** A triggered rule joins, or opens, its direction and kind's event. */
  function Merge(group: seq<Event>, today: Date, rule: Rule, verdict: Evaluated): Event {
    if |group| == 0
    then Event(today, rule.level, DirectionOf(rule), KindOf(rule), {rule.code}, {StartOf(verdict, today)})
    else group[0].(codes := group[0].codes + {rule.code}, starts := group[0].starts + {StartOf(verdict, today)})
  }

  /** At most one event for each level, direction and kind of a close. */
  function EventFor(today: Date, rules: seq<Rule>, verdicts: seq<Evaluated>,
                    level: Level, direction: Direction, kind: EventKind): (events: seq<Event>)
    requires |rules| == |verdicts|
    ensures |events| <= 1
    ensures |events| == 1 <==> exists i :: 0 <= i < |rules| && Hits(rules[i], verdicts[i], level, direction, kind)
    ensures forall e :: e in events ==> e.date == today && e.level == level && e.direction == direction && e.kind == kind
    ensures forall e, d :: e in events && d in e.starts ==>
      exists i :: 0 <= i < |rules| && Hits(rules[i], verdicts[i], level, direction, kind) && StartOf(verdicts[i], today) == d
  {
    if |rules| == 0 then []
    else
      var n := |rules| - 1;
      var group := EventFor(today, rules[..n], verdicts[..n], level, direction, kind);
      if Hits(rules[n], verdicts[n], level, direction, kind)
      then [Merge(group, today, rules[n], verdicts[n])]
      else group
  }

  /** The day's events of one level, ordered by direction and kind. */
  function EventsOf(today: Date, rules: seq<Rule>, verdicts: seq<Evaluated>, level: Level): (events: seq<Event>)
    requires |rules| == |verdicts|
    ensures forall e :: e in events ==> e.date == today && e.level == level
  {
    EventFor(today, rules, verdicts, level, Down, Price)
    + EventFor(today, rules, verdicts, level, NoDirection, TurnoverKind)
    + EventFor(today, rules, verdicts, level, Up, Price)
  }

  /** Whether an event counts towards a serious count rule on some day. */
  predicate Counts(e: Event, direction: Direction, sessions: seq<Date>, floor: Date) {
    e.level == Abnormal && e.kind == Price && e.direction == direction && e.date in sessions && floor <= e.date
  }

  function CountOf(events: seq<Event>, direction: Direction, sessions: seq<Date>, floor: Date): nat {
    if |events| == 0 then 0
    else
      CountOf(events[..|events| - 1], direction, sessions, floor)
      + if Counts(events[|events| - 1], direction, sessions, floor) then 1 else 0
  }

  /** The event is recent enough to stay in the log. */
  predicate InLog(s: Session, e: Event) { e.date in LastN(s.dates, LOG_SESSIONS) && s.start <= e.date }

  /** The part of a checkpoint's log that a new checkpoint keeps. */
  function Retained(s: Session, events: seq<Event>): seq<Event> {
    if |events| == 0 then []
    else
      var last := events[|events| - 1];
      Retained(s, events[..|events| - 1]) + if InLog(s, last) then [last] else []
  }

  lemma RetainedNone(s: Session)
    ensures Retained(s, []) == []
  {
  }

  lemma CountOfNone(direction: Direction, sessions: seq<Date>, floor: Date)
    ensures CountOf([], direction, sessions, floor) == 0
  {
  }

  lemma RetainedSnoc(s: Session, events: seq<Event>, e: Event)
    ensures Retained(s, events + [e]) == Retained(s, events) + if InLog(s, e) then [e] else []
  {
    assert (events + [e])[..|events|] == events;
  }

  lemma CountOfSnoc(events: seq<Event>, e: Event, direction: Direction, sessions: seq<Date>, floor: Date)
    ensures CountOf(events + [e], direction, sessions, floor)
         == CountOf(events, direction, sessions, floor) + if Counts(e, direction, sessions, floor) then 1 else 0
  {
    assert (events + [e])[..|events|] == events;
  }

  lemma LastOf<T>(s: seq<T>)
    requires |s| > 0
    ensures s == s[..|s| - 1] + [s[|s| - 1]]
  {
  }

  function LogOf(st: Option<State>): seq<Event> {
    if st.Some? then st.value.events else []
  }

  function CountVerdict(s: Session, rule: Rule, log: seq<Event>, floor: Date): Evaluated
    requires rule.EventCount?
  {
    var count := CountOf(log, rule.direction, LastN(s.dates, rule.countWindow), floor);
    Counted(count >= rule.required, count)
  }

  function Verdicts(s: Session, rules: seq<Rule>, c: Candidate, st: Option<State>, log: seq<Event>): (verdicts: seq<Evaluated>)
    requires (forall rule :: rule in rules ==> ValidRule(rule)) && ValidSession(s) && Fits(s, st)
    ensures |verdicts| == |rules|
  {
    var base := BaseVerdicts(s, rules, c, st);
    if Reasons(s, rules, c, st) != {} then base
    else
      seq(|rules|, i requires 0 <= i < |rules| =>
        if rules[i].EventCount? then CountVerdict(s, rules[i], log, Floor(s, st, Serious)) else base[i])
  }

  predicate HasPrice(events: seq<Event>) {
    exists i :: 0 <= i < |events| && events[i].kind == Price
  }

  /** One stock's close, against the log `history` of its earlier events. */
  function StepWith(s: Session, rules: seq<Rule>, c: Candidate, st: Option<State>, history: seq<Event>): (o: Outcome)
    requires (forall rule :: rule in rules ==> ValidRule(rule)) && ValidSession(s) && Fits(s, st)
    ensures |o.verdicts| == |rules|
  {
    var ordinary := EventsOf(s.today, rules, BaseVerdicts(s, rules, c, st), Abnormal);
    var verdicts := Verdicts(s, rules, c, st, history + ordinary);
    var serious := EventsOf(s.today, rules, verdicts, Serious);
    var reasons := Reasons(s, rules, c, st);
    Outcome(
      verdicts,
      ordinary + serious,
      State(c.symbol, s.today, reasons == {},
            if HasPrice(ordinary) || |serious| > 0 then Some(s.next) else if st.Some? then st.value.abnormalReset else None,
            if |serious| > 0 then Some(s.next) else if st.Some? then st.value.seriousReset else None,
            history + (ordinary + serious),
            reasons))
  }

  /** One stock's close as published: the log is pruned before it is used. */
  function Step(s: Session, rules: seq<Rule>, c: Candidate, st: Option<State>): Outcome
    requires (forall rule :: rule in rules ==> ValidRule(rule)) && ValidSession(s) && Fits(s, st)
  {
    StepWith(s, rules, c, st, Retained(s, LogOf(st)))
  }

  // ---------------------------------------------------------------------------
  // The implementation, proved against the functions above
  // ---------------------------------------------------------------------------

  /** `_monitor_events`: group triggered rules by direction and kind, then emit in order. */
  method MonitorEvents(today: Date, rules: seq<Rule>, verdicts: seq<Evaluated>, level: Level) returns (events: seq<Event>)
    requires |rules| == |verdicts|
    requires forall rule :: rule in rules ==> ValidRule(rule)
    ensures events == EventsOf(today, rules, verdicts, level)
  {
    hide Merge, ValidRule, Group, EventFor;
    var groups: map<(Direction, EventKind), Event> := map[];
    NoGroups();
    NoEventYet(today, level);
    assert rules[..0] == [] && verdicts[..0] == [];
    for i := 0 to |rules|
      invariant forall d, k :: Group(groups, d, k) == EventFor(today, rules[..i], verdicts[..i], level, d, k)
    {
      ghost var before := groups;
      var d, k := DirectionOf(rules[i]), KindOf(rules[i]);
      var e := Merge(Group(groups, d, k), today, rules[i], verdicts[i]);
      if rules[i].level == level && verdicts[i].Triggered() {
        groups := groups[(d, k) := e];
      }
      forall d', k' ensures Group(groups, d', k') == EventFor(today, rules[..i + 1], verdicts[..i + 1], level, d', k') {
        EventsSoFar(today, rules, verdicts, i, level, d', k');
        GroupUpdate(before, d, k, e, d', k');
      }
    }
    assert rules[..|rules|] == rules && verdicts[..|rules|] == verdicts;
    events := Group(groups, Down, Price) + Group(groups, NoDirection, TurnoverKind) + Group(groups, Up, Price);
  }

  lemma NoGroups()
    ensures forall d, k :: Group(map[], d, k) == []
  {
  }

  lemma NoEventYet(today: Date, level: Level)
    ensures forall d, k :: EventFor(today, [], [], level, d, k) == []
  {
  }

  /** One more rule changes at most its own group. */
  lemma EventsSoFar(today: Date, rules: seq<Rule>, verdicts: seq<Evaluated>, i: nat, level: Level, d: Direction, k: EventKind)
    requires i < |rules| == |verdicts|
    ensures EventFor(today, rules[..i + 1], verdicts[..i + 1], level, d, k) ==
      if Hits(rules[i], verdicts[i], level, d, k)
      then [Merge(EventFor(today, rules[..i], verdicts[..i], level, d, k), today, rules[i], verdicts[i])]
      else EventFor(today, rules[..i], verdicts[..i], level, d, k)
  {
    hide Merge, Hits;
    assert rules[..i + 1][..i] == rules[..i] && verdicts[..i + 1][..i] == verdicts[..i];
  }

  lemma GroupUpdate(groups: map<(Direction, EventKind), Event>, d: Direction, k: EventKind, e: Event, d': Direction, k': EventKind)
    ensures Group(groups[(d, k) := e], d', k') == if d' == d && k' == k then [e] else Group(groups, d', k')
  {
    assert (d', k') == (d, k) <==> d' == d && k' == k;
  }

  function Group(groups: map<(Direction, EventKind), Event>, direction: Direction, kind: EventKind): seq<Event> {
    if (direction, kind) in groups then [groups[(direction, kind)]] else []
  }

  /** One rule's item before missing observations are taken into account. */
  method EvaluateRule(s: Session, rule: Rule, c: Candidate, st: Option<State>) returns (item: Evaluated)
    requires ValidRule(rule) && ValidSession(s) && Fits(s, st)
    ensures item == PriceVerdict(s, c, st, rule)
  {
    item := Incomplete(None);
    if rule.Deviation? {
      item := EvaluateDeviation(c.rows, rule, RuleDates(s, st, rule));
    } else if rule.Turnover? && rule.code in c.turnover {
      item := c.turnover[rule.code];
    }
  }

  /** The price and turnover pass: one missing price observation spoils every verdict. */
  method EvaluateRules(s: Session, rules: seq<Rule>, c: Candidate, st: Option<State>)
    returns (evaluated: seq<Evaluated>, reasons: set<Reason>)
    requires (forall rule :: rule in rules ==> ValidRule(rule)) && ValidSession(s) && Fits(s, st)
    ensures evaluated == BaseVerdicts(s, rules, c, st)
    ensures reasons == Reasons(s, rules, c, st)
  {
    hide PriceVerdict, OpeningReasons, Fits, ValidSession, ValidRule;
    reasons := OpeningReasons(s, c, st);
    evaluated := seq(|rules|, i => Incomplete(None));
    if reasons == {} {
      for i := 0 to |rules|
        invariant |evaluated| == |rules|
        invariant forall j :: 0 <= j < i ==> evaluated[j] == PriceVerdict(s, c, st, rules[j])
        invariant reasons == MissingReturns(s, rules[..i], c, st)
      {
        assert rules[..i + 1][..i] == rules[..i] && rules[i] in rules;
        var item := EvaluateRule(s, rules[i], c, st);
        evaluated := evaluated[i := item];
        // A missing price observation makes later resets unknowable.
        if rules[i].Deviation? {
          reasons := reasons + ReasonsOf(item);
        }
      }
      assert rules[..|rules|] == rules;
      if reasons != {} {
        evaluated := seq(|rules|, i => Incomplete(None));
      }
    }
  }

  /** The count pass, over the retained log and today's ordinary events. */
  method EvaluateCounts(s: Session, rules: seq<Rule>, c: Candidate, st: Option<State>,
                        base: seq<Evaluated>, reasons: set<Reason>, log: seq<Event>) returns (verdicts: seq<Evaluated>)
    requires (forall rule :: rule in rules ==> ValidRule(rule)) && ValidSession(s) && Fits(s, st)
    requires base == BaseVerdicts(s, rules, c, st) && reasons == Reasons(s, rules, c, st)
    ensures verdicts == Verdicts(s, rules, c, st, log)
  {
    verdicts := base;
    ghost var expected := Verdicts(s, rules, c, st, log);
    for i := 0 to |rules|
      invariant |verdicts| == |rules|
      invariant forall j :: 0 <= j < |rules| ==> verdicts[j] == if j < i then expected[j] else base[j]
    {
      if rules[i].EventCount? && reasons == {} {
        verdicts := verdicts[i := CountVerdict(s, rules[i], log, Floor(s, st, Serious))];
      }
    }
  }

  /** One iteration of the candidate loop. */
  method CloseSymbol(s: Session, rules: seq<Rule>, c: Candidate, st: Option<State>) returns (o: Outcome)
    requires (forall rule :: rule in rules ==> ValidRule(rule)) && ValidSession(s) && Fits(s, st)
    ensures o == Step(s, rules, c, st)
  {
    var evaluated, reasons := EvaluateRules(s, rules, c, st);
    var ordinary := MonitorEvents(s.today, rules, evaluated, Abnormal);
    var history := Retained(s, LogOf(st));
    evaluated := EvaluateCounts(s, rules, c, st, evaluated, reasons, history + ordinary);
    var serious := MonitorEvents(s.today, rules, evaluated, Serious);
    o := Outcome(evaluated, ordinary + serious,
                 State(c.symbol, s.today, reasons == {},
                       if HasPrice(ordinary) || |serious| > 0 then Some(s.next)
                       else if st.Some? then st.value.abnormalReset else None,
                       if |serious| > 0 then Some(s.next)
                       else if st.Some? then st.value.seriousReset else None,
                       history + (ordinary + serious), reasons));
  }

  function RulesFor(active: seq<Rule>, segment: string): (rules: seq<Rule>)
    ensures forall rule :: rule in rules <==> rule in active && rule.segment == segment
  {
    if |active| == 0 then []
    else
      var n := |active| - 1;
      RulesFor(active[..n], segment) + if active[n].segment == segment then [active[n]] else []
  }

  datatype DayError = DuplicateCheckpoint | NotThePrecedingSession

  function Lookup(states: seq<State>, symbol: string): (st: Option<State>)
    ensures st.Some? ==> st.value in states && st.value.symbol == symbol
    ensures st.None? ==> forall x :: x in states ==> x.symbol != symbol
  {
    if |states| == 0 then None
    else if states[|states| - 1].symbol == symbol then Some(states[|states| - 1])
    else Lookup(states[..|states| - 1], symbol)
  }

  ghost predicate DistinctSymbols(states: seq<State>) {
    forall i, j :: 0 <= i < j < |states| ==> states[i].symbol != states[j].symbol
  }

  function PreviousSession(s: Session): Option<Date> {
    var earlier := Before(s.dates, s.today);
    if |earlier| == 0 then None else Some(earlier[|earlier| - 1])
  }

  /** The checkpoints keyed by symbol, or nothing when a symbol repeats. */
  method IndexStates(states: seq<State>) returns (bySymbol: Option<map<string, State>>)
    ensures bySymbol.Some? <==> DistinctSymbols(states)
    ensures bySymbol.Some? ==> forall x :: Lookup(states, x) == if x in bySymbol.value then Some(bySymbol.value[x]) else None
  {
    hide Lookup, DistinctSymbols;
    var indexed: map<string, State> := map[];
    NothingIndexed(states);
    for i := 0 to |states|
      invariant DistinctSymbols(states[..i])
      invariant forall x :: Lookup(states[..i], x) == if x in indexed then Some(indexed[x]) else None
    {
      var symbol := states[i].symbol;
      NextIsDistinct(states, i);
      if symbol in indexed {
        return None;
      }
      ghost var before := indexed;
      indexed := indexed[symbol := states[i]];
      forall x ensures Lookup(states[..i + 1], x) == if x in indexed then Some(indexed[x]) else None {
        NextLookup(states, i, x);
        assert x in indexed <==> x in before || x == symbol;
      }
    }
    assert states[..|states|] == states;
    bySymbol := Some(indexed);
  }

  lemma NothingIndexed(states: seq<State>)
    ensures DistinctSymbols(states[..0]) && forall x :: Lookup(states[..0], x) == None
  {
  }

  lemma DistinctSnoc(states: seq<State>, i: nat)
    requires i < |states| && DistinctSymbols(states[..i]) && forall j :: 0 <= j < i ==> states[j].symbol != states[i].symbol
    ensures DistinctSymbols(states[..i + 1])
  {
    var before, after := states[..i], states[..i + 1];
    forall a, b | 0 <= a < b < |after| ensures after[a].symbol != after[b].symbol {
      if b < i { assert before[a].symbol != before[b].symbol; }
    }
  }

  /** A symbol already looked up is a repetition; a new one keeps the symbols distinct. */
  lemma NextIsDistinct(states: seq<State>, i: nat)
    requires i < |states| && DistinctSymbols(states[..i])
    ensures Lookup(states[..i], states[i].symbol).None? ==> DistinctSymbols(states[..i + 1])
    ensures Lookup(states[..i], states[i].symbol).Some? ==> !DistinctSymbols(states)
  {
    var earlier := Lookup(states[..i], states[i].symbol);
    if earlier.Some? {
      var j :| 0 <= j < i && states[..i][j] == earlier.value;
      assert states[j].symbol == states[i].symbol;
    } else {
      forall j | 0 <= j < i ensures states[j].symbol != states[i].symbol {
        var x := states[..i][j];
        assert x in states[..i];
      }
      DistinctSnoc(states, i);
    }
  }

  lemma NextLookup(states: seq<State>, i: nat, x: string)
    requires i < |states|
    ensures Lookup(states[..i + 1], x) == if x == states[i].symbol then Some(states[i]) else Lookup(states[..i], x)
  {
    assert states[..i + 1][..i] == states[..i];
  }

  /** A candidate's close involves its own checkpoint only. */
  function CloseOf(s: Session, active: seq<Rule>, c: Candidate, st: Option<State>): Outcome
    requires (forall rule :: rule in active ==> ValidRule(rule)) && ValidSession(s) && Fits(s, st)
  {
    Step(s, RulesFor(active, c.segment), c, st)
  }

  ghost function Closes(s: Session, active: seq<Rule>, candidates: seq<Candidate>, states: seq<State>): (outcomes: seq<Outcome>)
    requires (forall rule :: rule in active ==> ValidRule(rule)) && ValidSession(s)
    requires forall st :: st in states ==> Fits(s, Some(st))
    ensures |outcomes| == |candidates|
  {
    seq(|candidates|, i requires 0 <= i < |candidates| =>
      CloseOf(s, active, candidates[i], Lookup(states, candidates[i].symbol)))
  }

  method AllPreceding(s: Session, states: seq<State>) returns (ok: bool)
    ensures ok <==> forall st :: st in states ==> Some(st.through) == PreviousSession(s)
  {
    for i := 0 to |states|
      invariant forall j :: 0 <= j < i ==> Some(states[j].through) == PreviousSession(s)
    {
      if Some(states[i].through) != PreviousSession(s) {
        assert states[i] in states;
        return false;
      }
    }
    ok := true;
  }

  /** `calculate_monitor_day`. */
  method CalculateMonitorDay(s: Session, active: seq<Rule>, candidates: seq<Candidate>, states: seq<State>)
    returns (r: Result<seq<Outcome>, DayError>)
    requires (forall rule :: rule in active ==> ValidRule(rule)) && ValidSession(s)
    requires forall st :: st in states ==> Fits(s, Some(st))
    ensures r == Failure(DuplicateCheckpoint) <==> !DistinctSymbols(states)
    ensures r == Failure(NotThePrecedingSession) <==>
      (DistinctSymbols(states) && exists st :: st in states && Some(st.through) != PreviousSession(s))
    ensures r.Success? ==> r.value == Closes(s, active, candidates, states)
  {
    hide Step;
    var bySymbol := IndexStates(states);
    if bySymbol.None? {
      return Failure(DuplicateCheckpoint);
    }
    var preceding := AllPreceding(s, states);
    if !preceding {
      return Failure(NotThePrecedingSession);
    }
    ghost var expected := Closes(s, active, candidates, states);
    var outcomes: seq<Outcome> := [];
    for i := 0 to |candidates|
      invariant outcomes == expected[..i]
    {
      var c := candidates[i];
      var st := if c.symbol in bySymbol.value then Some(bySymbol.value[c.symbol]) else None;
      var o := CloseSymbol(s, RulesFor(active, c.segment), c, st);
      outcomes := outcomes + [o];
    }
    r := Success(outcomes);
  }
}
