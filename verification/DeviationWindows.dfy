/** The cumulative deviation of a stock from its benchmark over every suffix of a
    window: `_eligible_dates` and `_evaluate_deviation`. */
module DeviationWindows {
  import opened Wrappers
  import opened TradingCalendar
  import opened RegulationRules

  /** The compounded stock return over `dates`. */
  function StockFactor(rows: Rows, dates: seq<Date>): (f: real)
    requires AllPriced(rows, dates)
    ensures f > 0.0
  {
    if |dates| == 0 then 1.0
    else StockFactor(rows, dates[..|dates| - 1]) * (1.0 + rows[dates[|dates| - 1]].stock.value)
  }

  /** The compounded benchmark return over `dates`. */
  function IndexFactor(rows: Rows, dates: seq<Date>): (f: real)
    requires AllPriced(rows, dates)
    ensures f > 0.0
  {
    if |dates| == 0 then 1.0
    else IndexFactor(rows, dates[..|dates| - 1]) * (1.0 + rows[dates[|dates| - 1]].index.value)
  }

  function DeviationOf(rows: Rows, dates: seq<Date>): real
    requires AllPriced(rows, dates)
  {
    (StockFactor(rows, dates) - IndexFactor(rows, dates)) * 100.0
  }

  lemma {:induction false} FactorsDependOnDates(rows: Rows, rows': Rows, dates: seq<Date>)
    requires AllPriced(rows, dates)
    requires forall d :: d in dates ==> d in rows' && rows'[d] == rows[d]
    ensures AllPriced(rows', dates)
    ensures StockFactor(rows, dates) == StockFactor(rows', dates)
    ensures IndexFactor(rows, dates) == IndexFactor(rows', dates)
  {
    if |dates| > 0 {
      FactorsDependOnDates(rows, rows', dates[..|dates| - 1]);
    }
  }

  function Eligible(dates: seq<Date>, window: nat, reset: Date): (eligible: seq<Date>)
    ensures forall d :: d in eligible <==> d in LastN(dates, window) && reset <= d
  {
    From(LastN(dates, window), reset)
  }

  /** `a` is strictly further in the rule's direction than `b`. */
  predicate Beyond(direction: Direction, a: real, b: real) {
    if direction == Up then a > b else a < b
  }

  predicate Meets(direction: Direction, value: real, threshold: real) {
    if direction == Up then value >= threshold else value <= threshold
  }

  /** Deviation over the last `n` eligible sessions. */
  function SuffixDeviation(rows: Rows, eligible: seq<Date>, n: nat): real
    requires n <= |eligible|
    requires AllPriced(rows, eligible)
  {
    DeviationOf(rows, eligible[|eligible| - n..])
  }

  /** The shortest suffix, among those of length 1..n, whose deviation is extreme. */
  function ExtremeLength(rows: Rows, eligible: seq<Date>, direction: Direction, n: nat): (best: nat)
    requires 1 <= n <= |eligible|
    requires AllPriced(rows, eligible)
    ensures 1 <= best <= n
    ensures forall k :: 1 <= k <= n ==>
      !Beyond(direction, SuffixDeviation(rows, eligible, k), SuffixDeviation(rows, eligible, best))
    ensures forall k :: 1 <= k < best ==>
      Beyond(direction, SuffixDeviation(rows, eligible, best), SuffixDeviation(rows, eligible, k))
  {
    if n == 1 then 1
    else
      var best := ExtremeLength(rows, eligible, direction, n - 1);
      if Beyond(direction, SuffixDeviation(rows, eligible, n), SuffixDeviation(rows, eligible, best)) then n else best
  }

  /** What one rule's evaluation reports for one close. */
  datatype Evaluated =
    | Incomplete(missing: Option<Date>)
    | Measured(triggered: bool, value: real, start: Option<Date>)
    | Counted(triggered: bool, count: nat)
  {
    predicate Triggered() { !this.Incomplete? && triggered }
  }

  function FirstUnpriced(rows: Rows, dates: seq<Date>): (missing: Option<Date>)
    ensures missing.None? <==> AllPriced(rows, dates)
    ensures missing.Some? ==> missing.value in dates && !Priced(rows, missing.value)
  {
    if |dates| == 0 then None
    else if !Priced(rows, dates[0]) then Some(dates[0])
    else FirstUnpriced(rows, dates[1..])
  }

  /** The evaluation of a deviation rule over its eligible sessions. */
  function Evaluate(rows: Rows, rule: Rule, eligible: seq<Date>): Evaluated
    requires rule.Deviation? && |eligible| > 0
  {
    match FirstUnpriced(rows, eligible)
    case Some(d) => Incomplete(Some(d))
    case None =>
      var best := ExtremeLength(rows, eligible, rule.direction, |eligible|);
      var value := SuffixDeviation(rows, eligible, best);
      Measured(Meets(rule.direction, value, rule.threshold), value, Some(eligible[|eligible| - best]))
  }

  /** A complete evaluation triggers exactly when some suffix window meets the threshold. */
  lemma TriggersIffSomeWindowMeets(rows: Rows, rule: Rule, eligible: seq<Date>)
    requires ValidRule(rule) && rule.Deviation? && |eligible| > 0
    requires AllPriced(rows, eligible)
    ensures Evaluate(rows, rule, eligible).Triggered() <==>
      exists n :: 1 <= n <= |eligible| && Meets(rule.direction, SuffixDeviation(rows, eligible, n), rule.threshold)
  {
    var best := ExtremeLength(rows, eligible, rule.direction, |eligible|);
    if exists n :: 1 <= n <= |eligible| && Meets(rule.direction, SuffixDeviation(rows, eligible, n), rule.threshold) {
      var n :| 1 <= n <= |eligible| && Meets(rule.direction, SuffixDeviation(rows, eligible, n), rule.threshold);
      assert !Beyond(rule.direction, SuffixDeviation(rows, eligible, n), SuffixDeviation(rows, eligible, best));
    }
  }

  lemma EvaluationOf(rows: Rows, rule: Rule, eligible: seq<Date>)
    requires rule.Deviation? && |eligible| > 0
    ensures !AllPriced(rows, eligible) ==> Evaluate(rows, rule, eligible) == Incomplete(FirstUnpriced(rows, eligible))
    ensures AllPriced(rows, eligible) ==>
      var best := ExtremeLength(rows, eligible, rule.direction, |eligible|);
      var value := SuffixDeviation(rows, eligible, best);
      Evaluate(rows, rule, eligible) == Measured(Meets(rule.direction, value, rule.threshold), value, Some(eligible[|eligible| - best]))
  {
    hide FirstUnpriced, ExtremeLength, SuffixDeviation, AllPriced;
  }

  lemma SuffixValue(rows: Rows, eligible: seq<Date>, n: nat)
    requires n <= |eligible| && AllPriced(rows, eligible)
    ensures AllPriced(rows, eligible[|eligible| - n..])
    ensures SuffixDeviation(rows, eligible, n)
         == (StockFactor(rows, eligible[|eligible| - n..]) - IndexFactor(rows, eligible[|eligible| - n..])) * 100.0
  {
    hide StockFactor, IndexFactor, Priced;
  }

  lemma NextExtreme(rows: Rows, eligible: seq<Date>, direction: Direction, n: nat)
    requires 1 <= n <= |eligible| && AllPriced(rows, eligible)
    ensures n == 1 ==> ExtremeLength(rows, eligible, direction, n) == 1
    ensures n > 1 ==>
      var best := ExtremeLength(rows, eligible, direction, n - 1);
      ExtremeLength(rows, eligible, direction, n) ==
        if Beyond(direction, SuffixDeviation(rows, eligible, n), SuffixDeviation(rows, eligible, best)) then n else best
  {
    hide SuffixDeviation, Beyond, AllPriced;
  }

  /** `_evaluate_deviation`: check the rows, compound every suffix, keep the first extreme. */
  method EvaluateDeviation(rows: Rows, rule: Rule, eligible: seq<Date>) returns (e: Evaluated)
    requires ValidRule(rule) && rule.Deviation? && |eligible| > 0
    ensures e == Evaluate(rows, rule, eligible)
    ensures !e.Incomplete? <==> AllPriced(rows, eligible)
    ensures !e.Incomplete? ==> AllPriced(rows, eligible) && (e.triggered <==>
      exists n :: 1 <= n <= |eligible| && Meets(rule.direction, SuffixDeviation(rows, eligible, n), rule.threshold))
  {
    hide StockFactor, IndexFactor, ExtremeLength, SuffixDeviation, Evaluate, Beyond, Meets, Priced;
    var missing := CheckRows(rows, eligible);
    EvaluationOf(rows, rule, eligible);
    if missing.Some? {
      return Incomplete(missing);
    }
    var best, bestValue := 0, 0.0;
    for length := 1 to |eligible| + 1
      invariant length == 1 ==> best == 0
      invariant length > 1 ==> best == ExtremeLength(rows, eligible, rule.direction, length - 1)
      invariant length > 1 ==> bestValue == SuffixDeviation(rows, eligible, best)
    {
      var stock, index := CompoundWindow(rows, eligible[|eligible| - length..]);
      var value := (stock - index) * 100.0;
      SuffixValue(rows, eligible, length);
      NextExtreme(rows, eligible, rule.direction, length);
      if best == 0 || Beyond(rule.direction, value, bestValue) {
        best, bestValue := length, value;
      }
    }
    TriggersIffSomeWindowMeets(rows, rule, eligible);
    e := Measured(Meets(rule.direction, bestValue, rule.threshold), bestValue, Some(eligible[|eligible| - best]));
  }

  /** Every expected session must have both returns. */
  method CheckRows(rows: Rows, dates: seq<Date>) returns (missing: Option<Date>)
    ensures missing == FirstUnpriced(rows, dates)
  {
    for i := 0 to |dates|
      invariant FirstUnpriced(rows, dates) == FirstUnpriced(rows, dates[i..])
    {
      if !Priced(rows, dates[i]) {
        return Some(dates[i]);
      }
    }
    missing := None;
  }

  /** The inner loop: multiply both factors session by session. */
  method CompoundWindow(rows: Rows, dates: seq<Date>) returns (stock: real, index: real)
    requires AllPriced(rows, dates)
    ensures stock == StockFactor(rows, dates) && index == IndexFactor(rows, dates)
  {
    stock, index := 1.0, 1.0;
    for i := 0 to |dates|
      invariant AllPriced(rows, dates[..i])
      invariant stock == StockFactor(rows, dates[..i])
      invariant index == IndexFactor(rows, dates[..i])
    {
      assert dates[..i + 1][..i] == dates[..i];
      stock := stock * (1.0 + rows[dates[i]].stock.value);
      index := index * (1.0 + rows[dates[i]].index.value);
    }
    assert dates[..|dates|] == dates;
  }
}
