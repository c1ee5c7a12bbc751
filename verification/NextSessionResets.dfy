/** Which reset is in force on a day, and the scenario prices solved from it: `_candidate_at`,
    `_selected_reset_date` and `_solve_deviation_scenarios` together. */
module NextSessionResets {
  import opened Wrappers
  import opened TradingCalendar
  import opened RegulationRules
  import opened ScenarioPrices

  // ---------------------------------------------------------------------------
  // The reset in force
  // ---------------------------------------------------------------------------

  /** The announcement counts for the level on that day: observed by the watermark, about a period that
      has ended, and published by then. */
  predicate Announced(source: Source, a: Announcement, level: Level, asOf: Date) {
    a.level == level && a.observed <= source.watermark && a.periodEnd <= source.tradeDate && a.published <= asOf
  }

  /** The first session after a date. */
  ghost predicate NextSession(calendar: seq<Date>, after: Date, d: Date) {
    d in calendar && after < d && forall x :: x in calendar && after < x ==> d <= x
  }

  /** A date set for the level: by the explicit boundary, or by an announcement that names it or, naming
      none, was published just before it. */
  ghost predicate IsSet(source: Source, announcements: seq<Announcement>, boundary: Option<Date>, level: Level, asOf: Date, d: Date) {
    d <= asOf && (boundary == Some(d) || exists i :: 0 <= i < |announcements| && Sets(source, announcements[i], level, asOf, d))
  }

  ghost predicate Sets(source: Source, a: Announcement, level: Level, asOf: Date, d: Date) {
    Announced(source, a, level, asOf) && if a.reset.Some? then a.reset == Some(d) else NextSession(source.calendar, a.published, d)
  }

  /** The latest date set, if any is. */
  ghost predicate IsLatestSet(source: Source, announcements: seq<Announcement>, boundary: Option<Date>, level: Level, asOf: Date,
                              reset: Option<Date>)
  {
    match reset
    case None => forall d :: !IsSet(source, announcements, boundary, level, asOf, d)
    case Some(r) =>
      IsSet(source, announcements, boundary, level, asOf, r)
      && forall d :: IsSet(source, announcements, boundary, level, asOf, d) ==> d <= r
  }

  lemma {:induction false} FirstAfterIsNext(calendar: seq<Date>, after: Date, d: Date)
    requires Increasing(calendar)
    ensures FirstAfter(calendar, after) == Some(d) <==> NextSession(calendar, after, d)
  {
    if |calendar| > 0 {
      assert forall x :: x in calendar <==> x == calendar[0] || x in calendar[1..];
      forall x | x in calendar[1..] ensures calendar[0] < x {
        var i :| 0 <= i < |calendar| - 1 && calendar[1..][i] == x;
      }
      FirstAfterIsNext(calendar[1..], after, d);
    }
  }

  lemma BoundarySets(source: Source, a: Announcement, level: Level, asOf: Date, d: Date)
    requires Increasing(source.calendar)
    ensures BoundaryAt(source, a, level, asOf) == Some(d) <==> d <= asOf && Sets(source, a, level, asOf, d)
  {
    hide Increasing, NextSession, FirstAfter;
    FirstAfterIsNext(source.calendar, a.published, d);
  }

  lemma SetSnoc(source: Source, announcements: seq<Announcement>, boundary: Option<Date>, level: Level, asOf: Date, d: Date)
    requires |announcements| > 0
    ensures
      var n := |announcements| - 1;
      IsSet(source, announcements, boundary, level, asOf, d) <==>
        IsSet(source, announcements[..n], boundary, level, asOf, d) || (d <= asOf && Sets(source, announcements[n], level, asOf, d))
  {
    hide Sets;
    var n := |announcements| - 1;
    var init := announcements[..n];
    assert forall i :: 0 <= i < n ==> init[i] == announcements[i];
  }

  /** The resolved reset is the latest date set for its level. */
  lemma {:induction false} ResetIsLatest(source: Source, announcements: seq<Announcement>, boundary: Option<Date>, level: Level, asOf: Date)
    requires Increasing(source.calendar)
    ensures IsLatestSet(source, announcements, boundary, level, asOf, ResetAt(source, announcements, boundary, level, asOf))
  {
    hide BoundaryAt, Sets, Increasing;
    if |announcements| > 0 {
      var n := |announcements| - 1;
      ResetIsLatest(source, announcements[..n], boundary, level, asOf);
      var last := BoundaryAt(source, announcements[n], level, asOf);
      forall d
        ensures IsSet(source, announcements, boundary, level, asOf, d) <==>
          IsSet(source, announcements[..n], boundary, level, asOf, d) || last == Some(d)
      {
        SetSnoc(source, announcements, boundary, level, asOf, d);
        BoundarySets(source, announcements[n], level, asOf, d);
      }
      hide IsSet;
    }
  }

  /** There is only one latest date. */
  lemma LatestIsUnique(source: Source, announcements: seq<Announcement>, boundary: Option<Date>, level: Level, asOf: Date,
                       a: Option<Date>, b: Option<Date>)
    requires IsLatestSet(source, announcements, boundary, level, asOf, a) && IsLatestSet(source, announcements, boundary, level, asOf, b)
    ensures a == b
  {
    hide IsSet;
  }

  /** `_candidate_at`, for one level: collect what is set, then take the maximum. */
  method ResolveReset(source: Source, announcements: seq<Announcement>, boundary: Option<Date>, level: Level, asOf: Date)
    returns (reset: Option<Date>)
    requires Increasing(source.calendar)
    ensures IsLatestSet(source, announcements, boundary, level, asOf, reset)
  {
    hide BoundaryAt, Sets, Later;
    reset := if boundary.Some? && boundary.value <= asOf then boundary else None;
    assert announcements[..0] == [];
    for i := 0 to |announcements|
      invariant reset == ResetAt(source, announcements[..i], boundary, level, asOf)
    {
      assert announcements[..i + 1][..i] == announcements[..i];
      reset := Later(reset, BoundaryAt(source, announcements[i], level, asOf));
    }
    assert announcements[..|announcements|] == announcements;
    ResetIsLatest(source, announcements, boundary, level, asOf);
  }

  // ---------------------------------------------------------------------------
  // The solver under that reset
  // ---------------------------------------------------------------------------

  /** The warnings of the three index scenarios, solved from a history. */
  function Solved(rows: Rows, history: seq<Date>, next: Date, rule: Rule, reference: real, limits: (real, real, real)): seq<Warning>
    requires rule.Deviation? && limits.2 > 0.0
  {
    WarningFor(rows, history, next, 0, reference, rule.threshold, rule.direction, limits.2, limits.0, limits.1)
    + WarningFor(rows, history, next, 1, reference, rule.threshold, rule.direction, limits.2, limits.0, limits.1)
    + WarningFor(rows, history, next, 2, reference, rule.threshold, rule.direction, limits.2, limits.0, limits.1)
  }

  /** One rule's prices for tomorrow: resolve tomorrow's reset of the rule's level, then solve from the
      history sliced and clipped with it. */
  method SolveTomorrow(source: Source, announcements: seq<Announcement>, abnormal: Option<Date>, serious: Option<Date>,
                       rows: Rows, dates: seq<Date>, next: Date, rule: Rule, reference: real, limits: (real, real, real))
    returns (warnings: seq<Warning>)
    requires Increasing(source.calendar) && ValidRule(rule) && rule.Deviation? && limits.2 > 0.0
    ensures forall reset ::
      IsLatestSet(source, announcements, if rule.level == Abnormal then abnormal else serious, rule.level, next, reset) ==>
        warnings == Solved(rows, SolverHistory(dates, rule.window, reset), next, rule, reference, limits)
  {
    hide IsLatestSet, SolverHistory, WarningFor;
    var boundary := if rule.level == Abnormal then abnormal else serious;
    var reset := ResolveReset(source, announcements, boundary, rule.level, next);
    forall other | IsLatestSet(source, announcements, boundary, rule.level, next, other) ensures other == reset {
      LatestIsUnique(source, announcements, boundary, rule.level, next, other, reset);
    }
    warnings := SolveScenarios(rows, dates, next, rule, reset, Some(reference), Some(limits));
  }
}
