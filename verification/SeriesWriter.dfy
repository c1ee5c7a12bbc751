/** The single-writer queue of the opening-auction series: a producer submitting rounds and closing,
    and one consumer thread persisting them, under every schedule. */
module SeriesWriter {
  import opened Wrappers

  const SERIES_ROUND_COUNT: nat := 32

  datatype Item = Round(sample: nat) | Stop

  /** What one persistence call does: return, raise an `Exception` of some type, or raise something
      the consumer does not catch. */
  datatype Outcome = Done | Raised(error: nat) | Fatal

  datatype Entry = Entry(sample: nat, outcome: Outcome)

  datatype Consumer = Idle | Busy(item: Item) | Stopped | Dead

  /** Where the producer is: sampling, in `close_and_wait` before each of its blocking calls, or
      past all of them. */
  datatype Producer = Sampling | PuttingStop | JoiningQueue | JoiningThread | Returned

  /** `submitted` and `log` record history: the rounds put on the queue and the calls finished. */
  datatype State = State(queue: seq<Item>, unfinished: int, producer: Producer, consumer: Consumer,
                         persisted: seq<nat>, failed: seq<nat>, firstError: Option<nat>,
                         submitted: seq<nat>, log: seq<Entry>)

  const START := State([], 0, Sampling, Idle, [], [], None, [], [])

  datatype Step = Submit(sample: nat) | Close | PutStop | QueueJoined | ThreadJoined | Take | Finish(outcome: Outcome)

  // ---------------------------------------------------------------------------
  // Steps
  // ---------------------------------------------------------------------------

  /** Whether a step can be taken; a put on a full queue blocks. */
  predicate Enabled(s: State, step: Step) {
    match step
    case Submit(_) => s.producer == Sampling && |s.queue| < SERIES_ROUND_COUNT
    case Close => s.producer == Sampling
    case PutStop => s.producer == PuttingStop && |s.queue| < SERIES_ROUND_COUNT
    case QueueJoined => s.producer == JoiningQueue && s.unfinished == 0
    case ThreadJoined => s.producer == JoiningThread && s.consumer in {Stopped, Dead}
    case Take => s.consumer == Idle && |s.queue| > 0
    case Finish(_) => s.consumer.Busy?
  }

  /** The bookkeeping after one persistence call. */
  function Record(s: State, sample: nat, outcome: Outcome): State {
    var logged := s.(log := s.log + [Entry(sample, outcome)], unfinished := s.unfinished - 1);
    match outcome
    case Done => logged.(persisted := s.persisted + [sample], consumer := Idle)
    case Raised(error) =>
      logged.(failed := s.failed + [sample], firstError := if s.firstError.None? then Some(error) else s.firstError, consumer := Idle)
    case Fatal => logged.(consumer := Dead)
  }

  function Next(s: State, step: Step): State
    requires Enabled(s, step)
  {
    match step
    case Submit(sample) => s.(queue := s.queue + [Round(sample)], unfinished := s.unfinished + 1, submitted := s.submitted + [sample])
    case Close => s.(producer := PuttingStop)
    case PutStop => s.(queue := s.queue + [Stop], unfinished := s.unfinished + 1, producer := JoiningQueue)
    case QueueJoined => s.(producer := JoiningThread)
    case ThreadJoined => s.(producer := Returned)
    case Take => s.(queue := s.queue[1..], consumer := Busy(s.queue[0]))
    case Finish(outcome) =>
      if s.consumer.item.Stop? then s.(unfinished := s.unfinished - 1, consumer := Stopped) else Record(s, s.consumer.item.sample, outcome)
  }

  /** A schedule from the start: the state it leads to, if each of its steps was possible. */
  ghost function Run(steps: seq<Step>): Option<State> {
    if |steps| == 0 then Some(START)
    else
      var before := Run(steps[..|steps| - 1]);
      if before.Some? && Enabled(before.value, steps[|steps| - 1]) then Some(Next(before.value, steps[|steps| - 1])) else None
  }

  ghost predicate Runs(steps: seq<Step>) { Run(steps).Some? }

  ghost function After(steps: seq<Step>): State
    requires Runs(steps)
  {
    Run(steps).value
  }

  // ---------------------------------------------------------------------------
  // The invariant
  // ---------------------------------------------------------------------------

  function Samples(items: seq<Item>): seq<nat> {
    if |items| == 0 then []
    else Samples(items[..|items| - 1]) + if items[|items| - 1].Round? then [items[|items| - 1].sample] else []
  }

  function Logged(log: seq<Entry>): seq<nat> {
    if |log| == 0 then [] else Logged(log[..|log| - 1]) + [log[|log| - 1].sample]
  }

  function Having(log: seq<Entry>, done: bool): seq<nat> {
    if |log| == 0 then []
    else
      var last := log[|log| - 1];
      Having(log[..|log| - 1], done) + if (if done then last.outcome.Done? else last.outcome.Raised?) then [last.sample] else []
  }

  function FirstError(log: seq<Entry>): Option<nat> {
    if |log| == 0 then None
    else
      var earlier := FirstError(log[..|log| - 1]);
      if earlier.Some? then earlier else if log[|log| - 1].outcome.Raised? then Some(log[|log| - 1].outcome.error) else None
  }

  ghost predicate RaisesFirst(log: seq<Entry>, i: int) {
    0 <= i < |log| && log[i].outcome.Raised? && forall j :: 0 <= j < i ==> !log[j].outcome.Raised?
  }

  /** The error kept is that of the first call that raised one. */
  lemma {:induction false} FirstErrorIsFirst(log: seq<Entry>)
    ensures FirstError(log).Some? <==> exists i :: 0 <= i < |log| && log[i].outcome.Raised?
    ensures forall i :: RaisesFirst(log, i) ==> FirstError(log) == Some(log[i].outcome.error)
  {
    if |log| > 0 {
      var n := |log| - 1;
      var init := log[..n];
      FirstErrorIsFirst(init);
      if FirstError(init).Some? {
        var i :| 0 <= i < n && init[i].outcome.Raised?;
        assert log[i].outcome.Raised?;
      } else {
        forall i | 0 <= i < n ensures !log[i].outcome.Raised? { assert log[i] == init[i]; }
      }
      forall i | RaisesFirst(log, i) ensures FirstError(log) == Some(log[i].outcome.error) {
        if i < n { assert RaisesFirst(init, i); }
      }
    }
  }

  function InHand(c: Consumer): seq<nat> { if c.Busy? && c.item.Round? then [c.item.sample] else [] }

  predicate NoStop(items: seq<Item>) { forall i :: 0 <= i < |items| ==> items[i].Round? }

  /** The stop token is put once, last, and is somewhere until the consumer has stopped. */
  ghost predicate StopSound(s: State) {
    match s.producer
    case Sampling => NoStop(s.queue) && s.consumer != Busy(Stop) && s.consumer != Stopped
    case PuttingStop => NoStop(s.queue) && s.consumer != Busy(Stop) && s.consumer != Stopped
    case _ =>
      || (|s.queue| > 0 && s.queue[|s.queue| - 1] == Stop && NoStop(s.queue[..|s.queue| - 1]) && s.consumer != Busy(Stop) && s.consumer != Stopped)
      || (s.queue == [] && s.consumer in {Busy(Stop), Stopped})
  }

  /** Nothing is lost, repeated or reordered between submission, the queue, the consumer and the
      log, and the lists agree with the log. */
  ghost predicate Accounted(s: State) {
    && s.submitted == Logged(s.log) + (InHand(s.consumer) + Samples(s.queue))
    && s.persisted == Having(s.log, true) && s.failed == Having(s.log, false) && s.firstError == FirstError(s.log)
  }

  /** The unfinished count is what has been put and not yet done. */
  ghost predicate Counted(s: State) {
    && s.unfinished == |s.queue| + (if s.consumer.Busy? then 1 else 0)
    && (s.producer in {JoiningThread, Returned} ==> s.unfinished == 0)
  }

  ghost predicate HasFatal(log: seq<Entry>) { exists i :: 0 <= i < |log| && log[i].outcome.Fatal? }

  ghost predicate Invariant(s: State) {
    Accounted(s) && Counted(s) && StopSound(s) && (s.consumer == Dead <==> HasFatal(s.log))
  }

  lemma SamplesAppend(items: seq<Item>, item: Item)
    ensures Samples(items + [item]) == Samples(items) + if item.Round? then [item.sample] else []
  {
    assert (items + [item])[..|items|] == items;
  }

  lemma {:induction false} SamplesHead(items: seq<Item>)
    requires |items| > 0
    ensures Samples(items) == (if items[0].Round? then [items[0].sample] else []) + Samples(items[1..])
  {
    if |items| == 1 {
      assert items[..0] == [] && items[1..] == [];
    } else {
      var n := |items| - 1;
      SamplesHead(items[..n]);
      assert items[..n][1..] == items[1..][..n - 1] && items[1..][n - 1] == items[n];
    }
  }

  lemma {:induction false} SamplesCount(items: seq<Item>)
    requires NoStop(items)
    ensures |Samples(items)| == |items|
  {
    if |items| > 0 { SamplesCount(items[..|items| - 1]); }
  }

  lemma LogAppend(log: seq<Entry>, e: Entry)
    ensures Logged(log + [e]) == Logged(log) + [e.sample]
    ensures Having(log + [e], true) == Having(log, true) + if e.outcome.Done? then [e.sample] else []
    ensures Having(log + [e], false) == Having(log, false) + if e.outcome.Raised? then [e.sample] else []
    ensures FirstError(log + [e])
         == if FirstError(log).Some? then FirstError(log) else if e.outcome.Raised? then Some(e.outcome.error) else None
  {
    assert (log + [e])[..|log|] == log;
  }

  lemma SubmitKeepsInvariant(s: State, sample: nat)
    requires Invariant(s) && Enabled(s, Submit(sample))
    ensures Invariant(Next(s, Submit(sample)))
  {
    SamplesAppend(s.queue, Round(sample));
    hide Samples, Logged, Having, FirstError, HasFatal;
  }

  lemma ProducerKeepsInvariant(s: State, step: Step)
    requires Invariant(s) && Enabled(s, step) && !step.Take? && !step.Finish?
    ensures Invariant(Next(s, step))
  {
    if step.Submit? {
      SubmitKeepsInvariant(s, step.sample);
    } else if step.PutStop? {
      PutStopKeepsInvariant(s);
    } else {
      hide Samples, Logged, Having, FirstError, HasFatal;
    }
  }

  lemma PutStopKeepsInvariant(s: State)
    requires Invariant(s) && Enabled(s, PutStop)
    ensures Invariant(Next(s, PutStop))
  {
    SamplesAppend(s.queue, Stop);
    hide Samples, Logged, Having, FirstError, HasFatal;
    assert (s.queue + [Stop])[..|s.queue|] == s.queue;
  }

  lemma TakeKeepsInvariant(s: State)
    requires Invariant(s) && Enabled(s, Take)
    ensures Invariant(Next(s, Take))
  {
    SamplesHead(s.queue);
    hide Samples, Logged, Having, FirstError, HasFatal;
    assert Counted(Next(s, Take));
    TakeKeepsStop(s);
  }

  lemma TakeKeepsStop(s: State)
    requires StopSound(s) && Enabled(s, Take)
    ensures StopSound(Next(s, Take))
  {
    var q := s.queue;
    assert |q| > 1 ==> q[1..][..|q| - 2] == q[..|q| - 1][1..] && q[1..][|q| - 2] == q[|q| - 1];
  }

  lemma FinishAccounts(s: State, sample: nat, outcome: Outcome)
    requires Accounted(s) && s.consumer == Busy(Round(sample))
    ensures Accounted(Record(s, sample, outcome))
  {
    var e := Entry(sample, outcome);
    LogAppend(s.log, e);
    hide Samples, Logged, Having, FirstError;
    assert Logged(s.log) + ([sample] + Samples(s.queue)) == (Logged(s.log) + [sample]) + ([] + Samples(s.queue));
  }

  lemma FatalAppend(log: seq<Entry>, e: Entry)
    ensures HasFatal(log + [e]) <==> HasFatal(log) || e.outcome.Fatal?
  {
    assert (log + [e])[|log|] == e && forall i :: 0 <= i < |log| ==> (log + [e])[i] == log[i];
  }

  lemma StopAccounts(s: State)
    requires Accounted(s) && s.consumer == Busy(Stop)
    ensures Accounted(s.(unfinished := s.unfinished - 1, consumer := Stopped))
  {
    hide Samples, Logged, Having, FirstError;
  }

  lemma FinishCounts(s: State, outcome: Outcome)
    requires Counted(s) && StopSound(s) && s.consumer.Busy?
    ensures Counted(Next(s, Finish(outcome))) && StopSound(Next(s, Finish(outcome)))
  {
    hide Samples, Logged, Having, FirstError, NoStop;
  }

  lemma FinishKeepsInvariant(s: State, outcome: Outcome)
    requires Invariant(s) && Enabled(s, Finish(outcome))
    ensures Invariant(Next(s, Finish(outcome)))
  {
    hide Accounted, Counted, StopSound, HasFatal;
    FinishCounts(s, outcome);
    if s.consumer.item.Round? {
      FinishAccounts(s, s.consumer.item.sample, outcome);
      FatalAppend(s.log, Entry(s.consumer.item.sample, outcome));
    } else {
      StopAccounts(s);
    }
  }

  lemma {:induction false} InvariantHolds(steps: seq<Step>)
    requires Runs(steps)
    ensures Invariant(After(steps))
  {
    if |steps| > 0 {
      var n := |steps| - 1;
      InvariantHolds(steps[..n]);
      var s := After(steps[..n]);
      hide Invariant;
      match steps[n]
      case Take => TakeKeepsInvariant(s);
      case Finish(outcome) => FinishKeepsInvariant(s, outcome);
      case Submit(_) => ProducerKeepsInvariant(s, steps[n]);
      case Close => ProducerKeepsInvariant(s, steps[n]);
      case PutStop => ProducerKeepsInvariant(s, steps[n]);
      case QueueJoined => ProducerKeepsInvariant(s, steps[n]);
      case ThreadJoined => ProducerKeepsInvariant(s, steps[n]);
    }
  }

  // ---------------------------------------------------------------------------
  // What every schedule guarantees
  // ---------------------------------------------------------------------------

  /** Before closing, the queue holds no more than was submitted. */
  lemma QueueWithinSubmitted(s: State)
    requires Invariant(s) && s.producer == Sampling
    ensures |s.queue| <= |s.submitted|
  {
    SamplesCount(s.queue);
    hide Samples, Logged, Having, FirstError, HasFatal;
  }

  /** The queue never holds more than its bound. */
  lemma {:induction false} QueueIsBounded(steps: seq<Step>)
    requires Runs(steps)
    ensures |After(steps).queue| <= SERIES_ROUND_COUNT
  {
    if |steps| > 0 { QueueIsBounded(steps[..|steps| - 1]); }
  }

  /** Sampling never blocks on the queue: in a series of 32 rounds, whenever a round is due, its put
      is possible. */
  lemma SamplingNeverBlocks(steps: seq<Step>, sample: nat)
    requires Runs(steps) && After(steps).producer == Sampling && |After(steps).submitted| < SERIES_ROUND_COUNT
    ensures Enabled(After(steps), Submit(sample))
  {
    InvariantHolds(steps);
    QueueWithinSubmitted(After(steps));
    hide Invariant, Run;
  }

  /** What a schedule has not finished yet, of the rounds submitted so far and of closing. */
  ghost function Remaining(s: State): int {
    (match s.producer case Sampling => 6 case PuttingStop => 5 case JoiningQueue => 2 case JoiningThread => 1 case Returned => 0)
    + 2 * |s.queue| + if s.consumer.Busy? then 1 else 0
  }

  /** A submission leaves three steps to do, its own included; every other step does one. */
  lemma EveryStepIsProgress(s: State, step: Step)
    requires Invariant(s) && Enabled(s, step)
    ensures 0 <= Remaining(Next(s, step))
    ensures Remaining(Next(s, step)) - 3 * |Next(s, step).submitted| < Remaining(s) - 3 * |s.submitted|
  {
    hide Samples, Logged, Having, FirstError, HasFatal;
  }

  /** While persistence calls only return or raise exceptions, close_and_wait cannot deadlock: until
      it has returned, some thread can always take a step. */
  lemma NeverDeadlocks(steps: seq<Step>) returns (step: Step)
    requires Runs(steps) && After(steps).producer != Returned && After(steps).consumer != Dead
    ensures Enabled(After(steps), step) && (step.Finish? ==> step.outcome == Done)
  {
    InvariantHolds(steps);
    hide Samples, Logged, Having, FirstError, Runs, After;
    var s := After(steps);
    if s.consumer.Busy? {
      step := Finish(Done);
    } else if s.producer == Sampling {
      step := Close;
    } else if s.consumer == Idle && |s.queue| > 0 {
      step := Take;
    } else if s.producer == PuttingStop {
      step := PutStop;
    } else if s.producer == JoiningQueue {
      step := QueueJoined;
    } else {
      step := ThreadJoined;
    }
  }

  /** Schedules are finite: three steps a submission and six for closing. */
  lemma {:induction false} SchedulesAreBounded(steps: seq<Step>)
    requires Runs(steps)
    ensures |steps| + Remaining(After(steps)) <= 6 + 3 * |After(steps).submitted| && Remaining(After(steps)) >= 0
  {
    if |steps| > 0 {
      var n := |steps| - 1;
      SchedulesAreBounded(steps[..n]);
      InvariantHolds(steps[..n]);
      EveryStepIsProgress(After(steps[..n]), steps[n]);
      hide Remaining, Invariant, Next;
    }
  }

  /** When close_and_wait returns, every submitted round has been persisted or has failed. */
  lemma NothingIsLost(steps: seq<Step>)
    requires Runs(steps) && After(steps).producer == Returned
    ensures
      var s := After(steps);
      && Logged(s.log) == s.submitted && s.persisted == Having(s.log, true) && s.failed == Having(s.log, false)
      && s.firstError == FirstError(s.log) && s.consumer == Stopped
  {
    InvariantHolds(steps);
    var s := After(steps);
    assert Samples([]) == [];
    hide Samples, Logged, Having, FirstError, Runs, After;
    assert s.queue == [];
  }

  /** The persisted and the failed sequences partition the log, each in its order. */
  ghost predicate Splits(whole: seq<nat>, a: seq<nat>, b: seq<nat>) {
    if |whole| == 0 then a == [] && b == []
    else
      var init, last := whole[..|whole| - 1], whole[|whole| - 1];
      || (|a| > 0 && a[|a| - 1] == last && Splits(init, a[..|a| - 1], b))
      || (|b| > 0 && b[|b| - 1] == last && Splits(init, a, b[..|b| - 1]))
  }

  lemma {:induction false} LogSplits(log: seq<Entry>)
    requires forall i :: 0 <= i < |log| ==> !log[i].outcome.Fatal?
    ensures Splits(Logged(log), Having(log, true), Having(log, false))
  {
    if |log| > 0 {
      var n := |log| - 1;
      LogSplits(log[..n]);
      var whole, a, b := Logged(log), Having(log, true), Having(log, false);
      assert whole[..|whole| - 1] == Logged(log[..n]);
      if log[n].outcome.Done? {
        assert a[..|a| - 1] == Having(log[..n], true) && b == Having(log[..n], false);
      } else {
        assert b[..|b| - 1] == Having(log[..n], false) && a == Having(log[..n], true);
      }
    }
  }

  /** The outcome of every completed run: persisted and failed rounds split the submitted ones, each
      in submission order, and the first error is that of the first failed round. */
  lemma OutcomePartitionsSubmissions(steps: seq<Step>)
    requires Runs(steps) && After(steps).producer == Returned
    ensures Splits(After(steps).submitted, After(steps).persisted, After(steps).failed)
    ensures After(steps).firstError.None? <==> After(steps).failed == []
  {
    NothingIsLost(steps);
    InvariantHolds(steps);
    var s := After(steps);
    hide After, Runs;
    LogSplits(s.log);
    ErrorIffFailed(s.log);
  }

  lemma {:induction false} ErrorIffFailed(log: seq<Entry>)
    ensures FirstError(log).None? <==> Having(log, false) == []
  {
    if |log| > 0 { ErrorIffFailed(log[..|log| - 1]); }
  }

  /** Once a persistence call raises something that is not an `Exception`, the consumer is dead, the
      stop token is never done, and close_and_wait never returns. */
  lemma FatalNeverReturns(steps: seq<Step>)
    requires Runs(steps)
    ensures After(steps).consumer == Dead ==> After(steps).producer !in {JoiningThread, Returned}
  {
    InvariantHolds(steps);
    hide Samples, Logged, Having, FirstError;
  }

  /** Such a consumer is one short schedule away. */
  lemma DeadConsumerIsReachable() returns (steps: seq<Step>)
    ensures Runs(steps) && After(steps).consumer == Dead && HasFatal(After(steps).log)
  {
    steps := [Step.Submit(0), Take, Finish(Fatal)];
    assert steps[..2][..1] == steps[..1] && steps[..1][..0] == [] && steps[..2] == [Step.Submit(0), Take];
    assert Run([]) == Some(START);
    assert Run(steps[..1]) == Some(Next(START, Step.Submit(0)));
    assert Run(steps[..2]).Some?;
    assert After(steps).log[0] == Entry(0, Fatal);
  }

  /** No thread can take another step. */
  ghost predicate Stuck(s: State) { forall step :: !Enabled(s, step) }

  /** The exact condition: a schedule that cannot be extended has returned from close_and_wait if and
      only if no persistence call raised something that is not an `Exception`. */
  lemma ReturnsIffNoFatal(steps: seq<Step>)
    requires Runs(steps) && Stuck(After(steps))
    ensures After(steps).producer == Returned <==> !HasFatal(After(steps).log)
  {
    InvariantHolds(steps);
    FatalNeverReturns(steps);
    hide Accounted, Counted, StopSound, HasFatal, Run, Enabled;
    if After(steps).producer != Returned && After(steps).consumer != Dead {
      var step := NeverDeadlocks(steps);
    }
  }

  // ---------------------------------------------------------------------------
  // The writer object
  // ---------------------------------------------------------------------------

  class Writer {
    var queue: seq<Item>
    var unfinished: int
    var closed: bool
    var consumer: Consumer
    var persisted: seq<nat>
    var failed: seq<nat>
    var firstError: Option<nat>
    ghost var producer: Producer
    ghost var submitted: seq<nat>
    ghost var log: seq<Entry>

    ghost function Value(): State
      reads this
    {
      State(queue, unfinished, producer, consumer, persisted, failed, firstError, submitted, log)
    }

    ghost predicate Valid()
      reads this
    {
      Invariant(Value()) && (closed <==> producer != Sampling)
    }

    constructor ()
      ensures Valid() && Value() == START
    {
      queue, unfinished, closed, consumer, persisted, failed, firstError := [], 0, false, Idle, [], [], None;
      producer, submitted, log := Sampling, [], [];
    }

    /** Refused once closed; otherwise the put of a queue that has room, which a full one waits for. */
    method Submit(sample: nat) returns (accepted: bool)
      requires Valid() && (closed || |queue| < SERIES_ROUND_COUNT)
      modifies this
      ensures Valid() && accepted == !old(closed)
      ensures accepted ==> Enabled(old(Value()), Step.Submit(sample)) && Value() == Next(old(Value()), Step.Submit(sample))
      ensures !accepted ==> Value() == old(Value())
    {
      if closed { return false; }
      ProducerKeepsInvariant(Value(), Step.Submit(sample));
      hide Invariant;
      queue, unfinished := queue + [Round(sample)], unfinished + 1;
      submitted := submitted + [sample];
      accepted := true;
    }

    method TakeItem()
      requires Valid() && consumer == Idle && |queue| > 0
      modifies this
      ensures Valid() && Enabled(old(Value()), Take) && Value() == Next(old(Value()), Take)
    {
      TakeKeepsInvariant(Value());
      hide Invariant;
      queue, consumer := queue[1..], Busy(queue[0]);
    }

    /** The bookkeeping after a persistence call returned, raised or killed the thread. */
    method RecordOutcome(sample: nat, outcome: Outcome)
      modifies this
      ensures Value() == Record(old(Value()), sample, outcome) && closed == old(closed)
    {
      if outcome.Done? {
        persisted, consumer := persisted + [sample], Idle;
      } else if outcome.Raised? {
        failed, consumer := failed + [sample], Idle;
        if firstError.None? { firstError := Some(outcome.error); }
      } else {
        consumer := Dead;
      }
      log, unfinished := log + [Entry(sample, outcome)], unfinished - 1;
    }

    /** The body of the consumer loop after its `get`: `outcome` is what the persistence call does. */
    method FinishItem(outcome: Outcome)
      requires Valid() && consumer.Busy?
      modifies this
      ensures Valid() && Enabled(old(Value()), Finish(outcome)) && Value() == Next(old(Value()), Finish(outcome))
    {
      FinishKeepsInvariant(Value(), outcome);
      hide Invariant, Record;
      if consumer.item.Stop? {
        consumer, unfinished := Stopped, unfinished - 1;
      } else {
        RecordKeepsProducer(Value(), consumer.item.sample, outcome);
        RecordOutcome(consumer.item.sample, outcome);
      }
    }

    /** One turn of the consumer thread. */
    method Turn(outcome: Outcome)
      requires Valid() && consumer == Idle && |queue| > 0 && outcome != Fatal
      modifies this
      ensures Valid() && producer == old(producer) && submitted == old(submitted) && queue == old(queue[1..])
      ensures consumer == if old(queue[0]).Stop? then Stopped else Idle
    {
      TakeItem();
      FinishItem(outcome);
    }

    /** The consumer's turns while the stop token finds no room. */
    method MakeRoom(calls: nat -> Outcome) returns (n: nat)
      requires Valid() && consumer == Idle && producer == PuttingStop && forall i :: calls(i) != Fatal
      modifies this
      ensures Valid() && consumer == Idle && producer == PuttingStop && submitted == old(submitted)
      ensures |queue| < SERIES_ROUND_COUNT
    {
      n := 0;
      while |queue| >= SERIES_ROUND_COUNT
        invariant Valid() && consumer == Idle && producer == PuttingStop && submitted == old(submitted)
        decreases |queue|
      {
        hide Invariant;
        QueueHasRound(Value());
        Turn(calls(n));
        n := n + 1;
      }
    }

    /** The consumer's turns until every put is done. */
    method Drain(calls: nat -> Outcome, from: nat)
      requires Valid() && consumer == Idle && producer == JoiningQueue && forall i :: calls(i) != Fatal
      modifies this
      ensures Valid() && consumer == Stopped && producer == JoiningQueue && submitted == old(submitted) && unfinished == 0
    {
      var n := from;
      while unfinished > 0
        invariant Valid() && consumer in {Idle, Stopped} && producer == JoiningQueue && submitted == old(submitted)
        decreases |queue|
      {
        WaitingForStop(Value());
        hide Invariant;
        Turn(calls(n));
        n := n + 1;
      }
      WaitingForStop(Value());
      hide Invariant;
    }

    method PutStopToken()
      requires Valid() && producer == PuttingStop && |queue| < SERIES_ROUND_COUNT
      modifies this
      ensures Valid() && Enabled(old(Value()), PutStop) && Value() == Next(old(Value()), PutStop)
    {
      PutStopKeepsInvariant(Value());
      hide Invariant;
      queue, unfinished, producer := queue + [Stop], unfinished + 1, JoiningQueue;
    }

    /** Both joins, once nothing is unfinished and the thread has stopped. */
    method Join() returns (outcome: (seq<nat>, seq<nat>, Option<nat>))
      requires Valid() && producer == JoiningQueue && unfinished == 0 && consumer == Stopped
      modifies this
      ensures Valid() && producer == Returned && consumer == Stopped && submitted == old(submitted)
      ensures outcome == (persisted, failed, firstError)
      ensures Splits(submitted, persisted, failed) && (firstError.None? <==> failed == [])
    {
      ProducerKeepsInvariant(Value(), QueueJoined);
      ProducerKeepsInvariant(Next(Value(), QueueJoined), ThreadJoined);
      ReturnedSplits(Next(Next(Value(), QueueJoined), ThreadJoined));
      hide Invariant, Splits;
      producer := JoiningThread;
      producer := Returned;
      outcome := (persisted, failed, firstError);
    }

    /** `close_and_wait` with the consumer's turns in between: `calls` answers each persistence call
        and never kills the consumer. */
    method CloseAndWait(calls: nat -> Outcome) returns (outcome: Option<(seq<nat>, seq<nat>, Option<nat>)>)
      requires Valid() && consumer == Idle && forall i :: calls(i) != Fatal
      modifies this
      ensures Valid() && submitted == old(submitted)
      ensures outcome.None? <==> old(closed)
      ensures outcome.None? ==> Value() == old(Value())
      ensures outcome.Some? ==>
        && producer == Returned && consumer == Stopped && outcome.value == (persisted, failed, firstError)
        && Splits(submitted, persisted, failed) && (firstError.None? <==> failed == [])
    {
      if closed { return None; }
      ProducerKeepsInvariant(Value(), Close);
      hide Invariant, Splits;
      closed, producer := true, PuttingStop;
      var n := MakeRoom(calls);
      PutStopToken();
      Drain(calls, n);
      var found := Join();
      outcome := Some(found);
    }
  }

  lemma WaitingForStop(s: State)
    requires Invariant(s) && s.producer == JoiningQueue && s.consumer in {Idle, Stopped}
    ensures if s.unfinished > 0 then s.consumer == Idle && |s.queue| > 0 else s.unfinished == 0 && s.consumer == Stopped
  {
    hide Samples, Logged, Having, FirstError;
  }

  lemma RecordKeepsProducer(s: State, sample: nat, outcome: Outcome)
    ensures Record(s, sample, outcome).producer == s.producer
  {
  }

  lemma QueueHasRound(s: State)
    requires Invariant(s) && s.producer == PuttingStop && |s.queue| > 0
    ensures s.queue[0].Round?
  {
    hide Samples, Logged, Having, FirstError;
  }

  lemma ReturnedSplits(s: State)
    requires Invariant(s) && s.producer == Returned && s.consumer == Stopped
    ensures Splits(s.submitted, s.persisted, s.failed) && (s.firstError.None? <==> s.failed == [])
  {
    assert Samples([]) == [];
    hide Samples, Logged, Having, FirstError;
    assert s.queue == [] && s.submitted == Logged(s.log);
    assert forall i :: 0 <= i < |s.log| ==> !s.log[i].outcome.Fatal?;
    LogSplits(s.log);
    ErrorIffFailed(s.log);
  }
}
