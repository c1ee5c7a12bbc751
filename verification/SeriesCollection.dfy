/** The producer of the opening-auction series: one valid captured round per slot, whatever the
    clock and the endpoints do. */
module SeriesCollection {
  import opened Wrappers
  import opened SeriesWriter

  // ---------------------------------------------------------------------------
  // Slots, in seconds after 09:15:00
  // ---------------------------------------------------------------------------

  const CADENCE := 20
  const PRE_CLOSE := 30
  const PRE_CLOSE_TIME := 593

  /** `earlyPreClose` is whether the day's layout moves round 30 to 09:24:53. */
  function Slot(sample: nat, earlyPreClose: bool): int {
    if earlyPreClose && sample == PRE_CLOSE then PRE_CLOSE_TIME else CADENCE * sample
  }

  function Deadline(sample: nat, earlyPreClose: bool): int {
    if earlyPreClose && sample == PRE_CLOSE - 1 then PRE_CLOSE_TIME else CADENCE * (sample + 1)
  }

  /** In both layouts the sampling windows tile the session: each is non-empty and ends where the
      next begins. */
  lemma WindowsTile(sample: nat, earlyPreClose: bool)
    requires sample < SERIES_ROUND_COUNT
    ensures Slot(sample, earlyPreClose) < Deadline(sample, earlyPreClose)
    ensures sample + 1 < SERIES_ROUND_COUNT ==> Deadline(sample, earlyPreClose) == Slot(sample + 1, earlyPreClose)
  {
  }

  // ---------------------------------------------------------------------------
  // Rounds and their invariants
  // ---------------------------------------------------------------------------

  datatype Status = Running | Succeeded | Partial | Failed

  datatype RoundState = RoundState(session: nat, sample: nat, scheduled: int, collected: Option<int>, status: Status,
                                   attempts: nat, expected: nat, successful: nat, failed: nat, selected: Option<nat>)

  /** What constructing a round checks. */
  ghost predicate ValidRound(r: RoundState, earlyPreClose: bool) {
    && r.sample < SERIES_ROUND_COUNT && r.scheduled == Slot(r.sample, earlyPreClose)
    && (r.collected.Some? ==> r.collected.value >= r.scheduled)
    && r.attempts <= 2 && r.expected > 0
    && match r.status
       case Running => r.collected.None? && r.attempts == 0 && r.successful == 0 && r.failed == 0 && r.selected.None?
       case Succeeded => r.collected.Some? && r.attempts >= 1 && r.successful == r.expected && r.failed == 0 && r.selected.Some?
       case Partial => r.collected.Some? && r.attempts >= 1 && r.successful + r.failed == r.expected && r.selected.Some?
       case Failed => r.collected.Some? && r.attempts == 0 && r.successful == 0 && r.failed == r.expected && r.selected.None?
  }

  datatype Attempt = Attempt(ingestion: nat, session: nat, sample: nat, succeeded: bool, accepted: nat, elapsed: nat)

  /** An attempt made for a round: complete exactly as far as its flag says. */
  ghost predicate ValidAttempt(a: Attempt, r: RoundState) {
    a.session == r.session && a.sample == r.sample && a.accepted <= r.expected && (a.succeeded ==> a.accepted == r.expected)
  }

  datatype CapturedRound = CapturedRound(running: RoundState, completed: RoundState, attempts: seq<Attempt>)

  /** What constructing a captured round checks. */
  ghost predicate ValidCaptured(c: CapturedRound) {
    && (c.running.session, c.running.sample, c.running.scheduled, c.running.expected)
       == (c.completed.session, c.completed.sample, c.completed.scheduled, c.completed.expected)
    && c.running.status == Running && c.completed.status != Running
    && c.completed.attempts == |c.attempts|
    && (forall i, j :: 0 <= i < j < |c.attempts| ==> c.attempts[i].ingestion != c.attempts[j].ingestion)
    && (c.completed.selected.Some? ==> exists i :: 0 <= i < |c.attempts| && c.attempts[i].ingestion == c.completed.selected.value)
    && (forall i :: 0 <= i < |c.attempts| ==> c.attempts[i].session == c.running.session && c.attempts[i].sample == c.running.sample)
  }

  // ---------------------------------------------------------------------------
  // The clock
  // ---------------------------------------------------------------------------

  /** Any amount of time may pass before each reading. */
  class Clock {
    var now: int
    var readings: nat
    const gaps: nat -> nat

    constructor (start: int, gaps: nat -> nat)
      ensures now == start
    {
      this.now, this.readings, this.gaps := start, 0, gaps;
    }

    method Read() returns (t: int)
      modifies this
      ensures t == now && now >= old(now)
    {
      now, readings := now + gaps(readings), readings + 1;
      t := now;
    }

    method Sleep(seconds: nat)
      modifies this
      ensures now == old(now) + seconds
    {
      now := now + seconds;
    }
  }

  // ---------------------------------------------------------------------------
  // One round
  // ---------------------------------------------------------------------------

  const MAX_ENDPOINT_ATTEMPTS: nat := 2

  /** What each endpoint would give for a round: an attempt, or nothing when storing its Raw object
      fails. Attempts belong to the round and have unique ingestions. */
  ghost predicate Offers(results: seq<Option<Attempt>>, r: RoundState) {
    && |results| <= MAX_ENDPOINT_ATTEMPTS
    && (forall i :: 0 <= i < |results| && results[i].Some? ==> ValidAttempt(results[i].value, r))
    && (forall i, j :: 0 <= i < j < |results| && results[i].Some? && results[j].Some? ==>
          results[i].value.ingestion != results[j].value.ingestion)
  }

  /** How a round ended after its first `tried` endpoints. */
  ghost predicate EndedAs(c: CapturedRound, results: seq<Option<Attempt>>, tried: nat) {
    && tried <= |results|
    && (forall i :: 0 <= i < tried - 1 ==> results[i].Some? && !results[i].value.succeeded)
    && (c.completed.status == Failed <==> tried == 0 || results[tried - 1].None?)
    && (c.completed.status == Succeeded <==> tried > 0 && results[tried - 1].Some? && results[tried - 1].value.succeeded)
    && (c.completed.status == Failed ==> c.attempts == [])
    && (c.completed.status != Failed ==>
          && |c.attempts| == tried && (forall i :: 0 <= i < tried ==> results[i] == Some(c.attempts[i]))
          && c.completed.selected == Some(c.attempts[tried - 1].ingestion) && c.completed.successful == c.attempts[tried - 1].accepted)
  }

  function FailedRound(r: RoundState, at: int): RoundState {
    r.(collected := Some(at), status := Failed, failed := r.expected)
  }

  lemma AtMostTwo(results: seq<Option<Attempt>>, r: RoundState)
    requires Offers(results, r)
    ensures |results| <= MAX_ENDPOINT_ATTEMPTS
  {
  }

  lemma RunningIsRunning(r: RoundState, earlyPreClose: bool)
    requires ValidRound(r, earlyPreClose) && r.status == Running
    ensures r.attempts == 0
  {
  }

  /** A round that ends without a usable attempt. */
  lemma FailedEnding(r: RoundState, at: int, results: seq<Option<Attempt>>, tried: nat, earlyPreClose: bool)
    requires ValidRound(r, earlyPreClose) && r.status == Running && at >= r.scheduled && tried <= |results|
    requires tried == 0 || results[tried - 1].None?
    requires forall i :: 0 <= i < tried - 1 ==> results[i].Some? && !results[i].value.succeeded
    ensures
      var c := CapturedRound(r, FailedRound(r, at), []);
      ValidRound(c.completed, earlyPreClose) && ValidCaptured(c) && EndedAs(c, results, tried) && c.completed.status == Failed && c.running == r
  {
  }

  /** The attempts taken from what the endpoints offer fit together. */
  lemma AttemptsFit(results: seq<Option<Attempt>>, r: RoundState, attempts: seq<Attempt>)
    requires Offers(results, r) && |attempts| <= |results| && forall i :: 0 <= i < |attempts| ==> results[i] == Some(attempts[i])
    ensures |attempts| <= MAX_ENDPOINT_ATTEMPTS && forall i :: 0 <= i < |attempts| ==> ValidAttempt(attempts[i], r)
    ensures forall i, j :: 0 <= i < j < |attempts| ==> attempts[i].ingestion != attempts[j].ingestion
  {
    hide ValidAttempt;
    forall i | 0 <= i < |attempts| ensures ValidAttempt(attempts[i], r) { assert results[i].Some?; }
    forall i, j | 0 <= i < j < |attempts| ensures attempts[i].ingestion != attempts[j].ingestion {
      assert results[i].value.ingestion != results[j].value.ingestion;
    }
  }

  /** A round that ends with its last attempt selected. */
  lemma CompletedEnding(c: CapturedRound, results: seq<Option<Attempt>>, attempts: seq<Attempt>)
    requires 0 < |attempts| <= |results| && forall i :: 0 <= i < |attempts| ==> results[i] == Some(attempts[i])
    requires forall i :: 0 <= i < |attempts| - 1 ==> !attempts[i].succeeded
    requires c.attempts == attempts && c.completed.status == (if attempts[|attempts| - 1].succeeded then Succeeded else Partial)
    requires c.completed.selected == Some(attempts[|attempts| - 1].ingestion)
    requires c.completed.successful == attempts[|attempts| - 1].accepted
    ensures EndedAs(c, results, |attempts|)
  {
  }

  /** Each attempt was started inside the slot, and a further one only where both the budget and what the
      one before it took still fitted. */
  ghost predicate Fitted(starts: seq<int>, from: int, deadline: int, budget: nat, results: seq<Option<Attempt>>) {
    |starts| <= |results| && forall i :: 0 <= i < |starts| ==> StartFits(starts, from, deadline, budget, results, i)
  }

  ghost predicate StartFits(starts: seq<int>, from: int, deadline: int, budget: nat, results: seq<Option<Attempt>>, i: nat)
    requires i < |starts| <= |results|
  {
    && from <= starts[i] < deadline
    && (i > 0 ==> starts[i - 1] <= starts[i] && starts[i] + budget < deadline && results[i - 1].Some?
                  && starts[i] + results[i - 1].value.elapsed < deadline)
  }

  /** Endpoints are left untried only after a success, a storing failure, or when no time was left. */
  ghost predicate GaveUpInTime(at: int, results: seq<Option<Attempt>>, tried: nat, deadline: int, budget: nat)
    requires tried <= |results|
  {
    tried < |results| ==>
      || at >= deadline
      || (tried > 0 && (results[tried - 1].None? || results[tried - 1].value.succeeded
                        || at + budget >= deadline || at + results[tried - 1].value.elapsed >= deadline))
  }

  /** `_collect_round`: endpoints in turn until one succeeds or time runs out. Storing failures end
      the round as failed and discard its earlier attempts. */
  method CollectRound(clock: Clock, r: RoundState, deadline: int, budget: nat, results: seq<Option<Attempt>>, earlyPreClose: bool)
    returns (c: CapturedRound, ghost tried: nat, ghost starts: seq<int>)
    requires ValidRound(r, earlyPreClose) && r.status == Running && Offers(results, r) && clock.now >= r.scheduled
    modifies clock
    ensures clock.now >= old(clock.now)
    ensures c.running == r && ValidRound(c.completed, earlyPreClose) && ValidCaptured(c) && EndedAs(c, results, tried)
    ensures c.completed.collected == Some(clock.now) && GaveUpInTime(clock.now, results, tried, deadline, budget)
    ensures |starts| == tried && Fitted(starts, old(clock.now), deadline, budget, results)
  {
    hide ValidRound, ValidCaptured, EndedAs, ValidAttempt, Offers, FailedRound;
    var attempts: seq<Attempt> := [];
    tried, starts := 0, [];
    AtMostTwo(results, r);
    RunningIsRunning(r, earlyPreClose);
    var number := 0;
    while number < |results|
      invariant number == tried == |attempts| <= |results| && clock.now >= old(clock.now)
      invariant forall i :: 0 <= i < tried ==> results[i] == Some(attempts[i])
      invariant forall i :: 0 <= i < tried ==> !attempts[i].succeeded
      invariant |starts| == tried && (tried > 0 ==> starts[tried - 1] <= clock.now)
      invariant Fitted(starts, old(clock.now), deadline, budget, results)
      decreases |results| - number
    {
      var t := clock.Read();
      if t >= deadline { break; }
      if number > 0 {
        t := clock.Read();
        if t + Max(budget, attempts[number - 1].elapsed) >= deadline { break; }
      }
      OneMoreStart(starts, t, old(clock.now), deadline, budget, results);
      tried, starts := number + 1, starts + [t];
      if results[number].None? {
        c := Failing(clock, r, results, tried, earlyPreClose);
        return;
      }
      attempts := attempts + [results[number].value];
      number := number + 1;
      if attempts[number - 1].succeeded {
        AttemptsFit(results, r, attempts);
        c := Completed(clock, r, attempts, earlyPreClose);
        CompletedEnding(c, results, attempts);
        return;
      }
    }
    if number == 0 {
      c := Failing(clock, r, results, tried, earlyPreClose);
    } else {
      AttemptsFit(results, r, attempts);
      c := Completed(clock, r, attempts, earlyPreClose);
      CompletedEnding(c, results, attempts);
    }
  }

  lemma OneMoreStart(starts: seq<int>, t: int, from: int, deadline: int, budget: nat, results: seq<Option<Attempt>>)
    requires Fitted(starts, from, deadline, budget, results) && |starts| < |results| && from <= t < deadline
    requires var n := |starts|; n > 0 ==> starts[n - 1] <= t && results[n - 1].Some?
                                          && t + budget < deadline && t + results[n - 1].value.elapsed < deadline
    ensures Fitted(starts + [t], from, deadline, budget, results)
  {
    var longer := starts + [t];
    forall i | 0 <= i < |longer| ensures StartFits(longer, from, deadline, budget, results, i) {
      if i < |starts| { assert StartFits(starts, from, deadline, budget, results, i); }
    }
  }

  function Max(a: int, b: int): int { if a >= b then a else b }

  /** The failed round of one that ends without a usable attempt. */
  method Failing(clock: Clock, r: RoundState, results: seq<Option<Attempt>>, ghost tried: nat, earlyPreClose: bool) returns (c: CapturedRound)
    requires ValidRound(r, earlyPreClose) && r.status == Running && clock.now >= r.scheduled && tried <= |results|
    requires tried == 0 || results[tried - 1].None?
    requires forall i :: 0 <= i < tried - 1 ==> results[i].Some? && !results[i].value.succeeded
    modifies clock
    ensures clock.now >= old(clock.now)
    ensures c.running == r && ValidRound(c.completed, earlyPreClose) && ValidCaptured(c) && EndedAs(c, results, tried)
    ensures c.completed.status == Failed && c.completed.collected == Some(clock.now)
  {
    hide ValidRound, ValidCaptured, EndedAs;
    var t := clock.Read();
    c := CapturedRound(r, FailedRound(r, t), []);
    FailedEnding(r, t, results, tried, earlyPreClose);
  }

  /** The completed round of a non-empty list of attempts: the last one is selected. */
  method Completed(clock: Clock, r: RoundState, attempts: seq<Attempt>, earlyPreClose: bool) returns (c: CapturedRound)
    requires ValidRound(r, earlyPreClose) && r.status == Running && clock.now >= r.scheduled
    requires 0 < |attempts| <= MAX_ENDPOINT_ATTEMPTS && forall i :: 0 <= i < |attempts| ==> ValidAttempt(attempts[i], r)
    requires forall i, j :: 0 <= i < j < |attempts| ==> attempts[i].ingestion != attempts[j].ingestion
    modifies clock
    ensures clock.now >= old(clock.now)
    ensures c.running == r && c.attempts == attempts && ValidRound(c.completed, earlyPreClose) && ValidCaptured(c)
    ensures c.completed.status == (if attempts[|attempts| - 1].succeeded then Succeeded else Partial)
    ensures c.completed.selected == Some(attempts[|attempts| - 1].ingestion)
    ensures c.completed.successful == attempts[|attempts| - 1].accepted && c.completed.collected == Some(clock.now)
  {
    var last := attempts[|attempts| - 1];
    var t := clock.Read();
    c := CapturedRound(r, r.(collected := Some(t), status := if last.succeeded then Succeeded else Partial, attempts := |attempts|,
                             successful := last.accepted, failed := r.expected - last.accepted, selected := Some(last.ingestion)), attempts);
  }

  // ---------------------------------------------------------------------------
  // A session
  // ---------------------------------------------------------------------------

  function RunningRound(session: nat, sample: nat, expected: nat, earlyPreClose: bool): RoundState {
    RoundState(session, sample, Slot(sample, earlyPreClose), None, Running, 0, expected, 0, 0, None)
  }

  /** A captured round of that slot which passes both of the checks made on it. */
  ghost predicate IsRoundOf(c: CapturedRound, session: nat, sample: nat, expected: nat, earlyPreClose: bool) {
    ValidCaptured(c) && ValidRound(c.completed, earlyPreClose) && c.running == RunningRound(session, sample, expected, earlyPreClose)
  }

  /** How a slot's round came about: the endpoints asked, in their order, from its start and before its
      deadline, and how the last answer ended it. */
  ghost predicate TakenInSlot(c: CapturedRound, results: seq<Option<Attempt>>, sample: nat, budget: nat, earlyPreClose: bool) {
    exists starts: seq<int> ::
      && Fitted(starts, Slot(sample, earlyPreClose), Deadline(sample, earlyPreClose), budget, results)
      && EndedAs(c, results, |starts|) && c.completed.collected.Some?
      && GaveUpInTime(c.completed.collected.value, results, |starts|, Deadline(sample, earlyPreClose), budget)
  }

  function Range(n: nat): seq<nat> { if n == 0 then [] else Range(n - 1) + [n - 1] }

  lemma NewRoundIsValid(session: nat, sample: nat, expected: nat, earlyPreClose: bool)
    requires sample < SERIES_ROUND_COUNT && expected > 0
    ensures
      var r := RunningRound(session, sample, expected, earlyPreClose);
      ValidRound(r, earlyPreClose) && r.status == Running && r.scheduled == Slot(sample, earlyPreClose)
  {
  }

  lemma NotSampled(c: CapturedRound, results: seq<Option<Attempt>>, sample: nat, budget: nat, earlyPreClose: bool)
    requires EndedAs(c, results, 0) && c.completed.collected.Some? && c.completed.collected.value >= Deadline(sample, earlyPreClose)
    ensures TakenInSlot(c, results, sample, budget, earlyPreClose) && c.attempts == []
  {
    assert Fitted([], Slot(sample, earlyPreClose), Deadline(sample, earlyPreClose), budget, results);
  }

  lemma Taken(c: CapturedRound, results: seq<Option<Attempt>>, sample: nat, budget: nat, earlyPreClose: bool, from: int, starts: seq<int>)
    requires Slot(sample, earlyPreClose) <= from && Fitted(starts, from, Deadline(sample, earlyPreClose), budget, results)
    requires EndedAs(c, results, |starts|) && c.completed.collected.Some?
    requires GaveUpInTime(c.completed.collected.value, results, |starts|, Deadline(sample, earlyPreClose), budget)
    ensures TakenInSlot(c, results, sample, budget, earlyPreClose)
  {
    hide EndedAs, GaveUpInTime;
    var slot, deadline := Slot(sample, earlyPreClose), Deadline(sample, earlyPreClose);
    forall i | 0 <= i < |starts| ensures StartFits(starts, slot, deadline, budget, results, i) {
      assert StartFits(starts, from, deadline, budget, results, i);
    }
    assert Fitted(starts, slot, deadline, budget, results);
  }

  /** One slot of the session: a missed slot fails without sampling, an early one waits. */
  method SampleSlot(clock: Clock, session: nat, sample: nat, expected: nat, budget: nat, results: seq<Option<Attempt>>, earlyPreClose: bool)
    returns (c: CapturedRound)
    requires sample < SERIES_ROUND_COUNT && expected > 0
    requires Offers(results, RunningRound(session, sample, expected, earlyPreClose))
    modifies clock
    ensures clock.now >= old(clock.now)
    ensures IsRoundOf(c, session, sample, expected, earlyPreClose)
    ensures TakenInSlot(c, results, sample, budget, earlyPreClose)
    ensures old(clock.now) >= Deadline(sample, earlyPreClose) ==> c.completed.status == Failed && c.attempts == []
  {
    hide ValidRound, ValidCaptured, EndedAs, Offers, FailedRound, TakenInSlot, Fitted, GaveUpInTime;
    var r := RunningRound(session, sample, expected, earlyPreClose);
    var deadline := Deadline(sample, earlyPreClose);
    WindowsTile(sample, earlyPreClose);
    var now := clock.Read();
    NewRoundIsValid(session, sample, expected, earlyPreClose);
    if now >= deadline {
      c := Failing(clock, r, results, 0, earlyPreClose);
      NotSampled(c, results, sample, budget, earlyPreClose);
      return;
    }
    if now < r.scheduled { clock.Sleep(r.scheduled - now); }
    ghost var from := clock.now;
    ghost var tried, starts;
    c, tried, starts := CollectRound(clock, r, deadline, budget, results, earlyPreClose);
    Taken(c, results, sample, budget, earlyPreClose, from, starts);
  }

  /** Up to `turns` turns of the consumer thread. */
  method Consume(writer: Writer, turns: nat, calls: nat -> Outcome)
    requires writer.Valid() && writer.consumer == Idle && writer.producer == Sampling && forall i :: calls(i) != Fatal
    modifies writer
    ensures writer.Valid() && writer.consumer == Idle && writer.producer == Sampling && writer.submitted == old(writer.submitted)
  {
    var n := 0;
    while n < turns && |writer.queue| > 0
      invariant writer.Valid() && writer.consumer == Idle && writer.producer == Sampling && writer.submitted == old(writer.submitted)
      decreases turns - n
    {
      OnlyRounds(writer.Value());
      hide Invariant;
      writer.Turn(calls(n));
      n := n + 1;
    }
  }

  lemma OnlyRounds(s: State)
    requires Invariant(s) && s.producer == Sampling && |s.queue| > 0
    ensures s.queue[0].Round?
  {
  }

  /** A writer that is still accepting rounds, between two turns of its consumer. */
  ghost predicate Accepting(writer: Writer)
    reads writer
  {
    writer.Valid() && writer.consumer == Idle && writer.producer == Sampling
  }

  /** Handing one round over always finds room, and the consumer may then run for a while. */
  method HandOver(writer: Writer, sample: nat, turns: nat, calls: nat -> Outcome)
    requires Accepting(writer) && |writer.submitted| < SERIES_ROUND_COUNT && forall i :: calls(i) != Fatal
    modifies writer
    ensures Accepting(writer) && writer.submitted == old(writer.submitted) + [sample]
  {
    hide Invariant;
    QueueWithinSubmitted(writer.Value());
    var accepted := writer.Submit(sample);
    Consume(writer, turns, calls);
  }

  /** The sampling loop. */
  method SampleAll(clock: Clock, writer: Writer, session: nat, expected: nat, budget: nat, earlyPreClose: bool,
                   results: nat -> seq<Option<Attempt>>, turns: nat -> nat, calls: nat -> Outcome, stopAt: nat)
    returns (rounds: seq<CapturedRound>)
    requires expected > 0 && (forall i :: calls(i) != Fatal) && Accepting(writer) && writer.submitted == []
    requires forall k :: 0 <= k < SERIES_ROUND_COUNT ==> Offers(results(k), RunningRound(session, k, expected, earlyPreClose))
    modifies clock, writer
    ensures |rounds| == if stopAt < SERIES_ROUND_COUNT then stopAt else SERIES_ROUND_COUNT
    ensures forall k :: 0 <= k < |rounds| ==>
      IsRoundOf(rounds[k], session, k, expected, earlyPreClose) && TakenInSlot(rounds[k], results(k), k, budget, earlyPreClose)
    ensures Accepting(writer) && writer.submitted == Range(|rounds|)
  {
    hide IsRoundOf, RunningRound, Offers, Accepting, TakenInSlot;
    rounds := [];
    while |rounds| < SERIES_ROUND_COUNT && |rounds| != stopAt
      invariant |rounds| <= SERIES_ROUND_COUNT && |rounds| <= stopAt
      invariant Accepting(writer) && writer.submitted == Range(|rounds|)
      invariant forall k :: 0 <= k < |rounds| ==>
        IsRoundOf(rounds[k], session, k, expected, earlyPreClose) && TakenInSlot(rounds[k], results(k), k, budget, earlyPreClose)
      decreases SERIES_ROUND_COUNT - |rounds|
    {
      var sample := |rounds|;
      RangeLength(sample);
      var c := SampleSlot(clock, session, sample, expected, budget, results(sample), earlyPreClose);
      HandOver(writer, sample, turns(sample), calls);
      rounds := rounds + [c];
    }
  }

  /** `collect`: samples every slot, unless an exception stops it at slot `stopAt`, with the consumer
      running in between. One valid round per slot reaches the writer, in order, and when it is
      closed each of them has been persisted or has failed. */
  method Collect(clock: Clock, session: nat, expected: nat, budget: nat, earlyPreClose: bool,
                 results: nat -> seq<Option<Attempt>>, turns: nat -> nat, calls: nat -> Outcome, stopAt: nat)
    returns (rounds: seq<CapturedRound>, persisted: seq<nat>, failed: seq<nat>, error: Option<nat>)
    requires expected > 0 && forall i :: calls(i) != Fatal
    requires forall k :: 0 <= k < SERIES_ROUND_COUNT ==> Offers(results(k), RunningRound(session, k, expected, earlyPreClose))
    modifies clock
    ensures |rounds| == if stopAt < SERIES_ROUND_COUNT then stopAt else SERIES_ROUND_COUNT
    ensures forall k :: 0 <= k < |rounds| ==>
      IsRoundOf(rounds[k], session, k, expected, earlyPreClose) && TakenInSlot(rounds[k], results(k), k, budget, earlyPreClose)
    ensures Splits(Range(|rounds|), persisted, failed) && (error.None? <==> failed == [])
  {
    hide Invariant, Splits, IsRoundOf, Offers, TakenInSlot;
    var writer := new Writer();
    rounds := SampleAll(clock, writer, session, expected, budget, earlyPreClose, results, turns, calls, stopAt);
    var outcome := writer.CloseAndWait(calls);
    persisted, failed, error := outcome.value.0, outcome.value.1, outcome.value.2;
  }

  lemma {:induction false} RangeLength(n: nat)
    ensures |Range(n)| == n && forall i :: 0 <= i < n ==> Range(n)[i] == i
  {
    if n > 0 { RangeLength(n - 1); }
  }
}
