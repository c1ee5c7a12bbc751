/** Rules, daily returns and checkpoints of the regulation monitor. */
module RegulationRules {
  import opened Wrappers
  import opened TradingCalendar

  datatype Direction = Up | Down | NoDirection
  datatype Level = Abnormal | Serious

  /** A regulation rule; thresholds are percentages, windows are trading sessions. */
  datatype Rule =
    | Deviation(code: string, segment: string, level: Level, direction: Direction,
                window: nat, threshold: real, effective: Date, expire: Option<Date>)
    | Turnover(code: string, segment: string, level: Level, effective: Date, expire: Option<Date>)
    | EventCount(code: string, segment: string, level: Level, direction: Direction,
                 countWindow: nat, required: nat, effective: Date, expire: Option<Date>)

  /** A simple return; the source rejects anything at or below a total loss. */
  type Return = r: real | -1.0 < r witness 0.0

  datatype Row = Row(stock: Option<Return>, index: Option<Return>)

  type Rows = map<Date, Row>

  predicate Priced(rows: Rows, d: Date) {
    d in rows && rows[d].stock.Some? && rows[d].index.Some?
  }

  predicate AllPriced(rows: Rows, dates: seq<Date>) {
    forall i :: 0 <= i < |dates| ==> Priced(rows, dates[i])
  }

  /** What the checks on a rule demand of each kind. */
  predicate ValidRule(rule: Rule) {
    match rule
    case Deviation(_, _, _, direction, window, threshold, _, _) =>
      && window >= 1
      && ((direction == Up && threshold > 0.0) || (direction == Down && threshold < 0.0))
    case Turnover(_, _, _, _, _) => true
    case EventCount(_, _, _, direction, countWindow, required, _, _) =>
      direction != NoDirection && countWindow >= 1 && required >= 1
  }

  /** Rule codes are unique, and count rules describe serious events over at most
      the ten sessions a checkpoint keeps. */
  ghost predicate ValidRules(rules: seq<Rule>) {
    && (forall rule :: rule in rules ==> ValidRule(rule))
    && (forall i, j :: 0 <= i < j < |rules| ==> rules[i].code != rules[j].code)
    && (forall rule :: rule in rules && rule.EventCount? ==> rule.level == Serious && rule.countWindow <= LOG_SESSIONS)
  }

  /** A rule set names each segment, level, kind, direction and window once. */
  ghost predicate SameDimension(a: Rule, b: Rule) {
    && a.segment == b.segment && a.level == b.level
    && ((a.Deviation? && b.Deviation? && a.direction == b.direction && a.window == b.window)
        || (a.EventCount? && b.EventCount? && a.direction == b.direction && a.countWindow == b.countWindow))
  }

  ghost predicate DistinctDimensions(rules: seq<Rule>) {
    forall i, j :: 0 <= i < j < |rules| ==> !SameDimension(rules[i], rules[j])
  }

  const LOG_SESSIONS: nat := 10

  datatype EventKind = Price | TurnoverKind

  /** A simulated close event; count and deviation rules share the price kind. */
  datatype Event = Event(date: Date, level: Level, direction: Direction, kind: EventKind,
                         codes: set<string>, starts: set<Date>)

  datatype Reason =
    | NoCheckpoint
    | Inapplicable(why: string)
    | NoCurrentReturn
    | NoReturnOn(date: Date)

  /** One symbol's checkpoint. An absent reset means "the monitor start". */
  datatype State = State(symbol: string, through: Date, complete: bool,
                         abnormalReset: Option<Date>, seriousReset: Option<Date>,
                         events: seq<Event>, reasons: set<Reason>)

  /** A source's calendar: `dates` ends at the session being closed. */
  datatype Session = Session(start: Date, today: Date, next: Date, dates: seq<Date>)

  ghost predicate ValidSession(s: Session) {
    && |s.dates| > 0
    && s.dates[|s.dates| - 1] == s.today
    && Increasing(s.dates)
    && s.start <= s.today < s.next
  }

  /** The next source: one more session, possibly dropping the oldest ones, never the last. */
  ghost predicate Follows(s: Session, s': Session) {
    && s'.start == s.start
    && s'.today == s.next
    && exists k :: 0 <= k < |s.dates| && s'.dates == (s.dates + [s.next])[k..]
  }
}
