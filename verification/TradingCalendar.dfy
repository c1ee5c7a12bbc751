/** Sessions are ordinals; a source carries a strictly increasing sequence of them. */
module TradingCalendar {
  type Date = int

  ghost predicate Increasing(dates: seq<Date>) {
    forall i, j :: 0 <= i < j < |dates| ==> dates[i] < dates[j]
  }

  /** Python's `dates[-n:]` for n >= 1 (and the empty tail for n = 0). */
  function LastN(dates: seq<Date>, n: nat): (tail: seq<Date>)
    ensures |tail| <= n
    ensures forall d :: d in tail ==> d in dates
  {
    if |dates| <= n then dates else dates[|dates| - n..]
  }

  /** The sessions on or after a reset boundary, in order. */
  function From(dates: seq<Date>, reset: Date): (kept: seq<Date>)
    ensures forall d :: d in kept <==> d in dates && reset <= d
  {
    if |dates| == 0 then []
    else
      var last := dates[|dates| - 1];
      From(dates[..|dates| - 1], reset) + if reset <= last then [last] else []
  }

  /** The sessions strictly before a target, in order. */
  function Before(dates: seq<Date>, target: Date): (kept: seq<Date>)
    ensures forall d :: d in kept <==> d in dates && d < target
  {
    if |dates| == 0 then []
    else
      var last := dates[|dates| - 1];
      Before(dates[..|dates| - 1], target) + if last < target then [last] else []
  }

  function Max(a: Date, b: Date): Date { if a < b then b else a }

  lemma InSuffix(dates: seq<Date>, k: nat, d: Date)
    requires k <= |dates| && d in dates[k..]
    ensures d in dates
  {
    var i :| 0 <= i < |dates| - k && dates[k..][i] == d;
    assert dates[k + i] == d;
  }

  lemma InSnoc(dates: seq<Date>, last: Date, d: Date)
    requires d in dates + [last]
    ensures d in dates || d == last
  {
  }

  /** One more session at the end shortens the reachable history by exactly one. */
  lemma LastNSnoc(dates: seq<Date>, d: Date, n: nat)
    requires n >= 1
    ensures LastN(dates + [d], n) == LastN(dates, n - 1) + [d]
  {
    assert |dates + [d]| > n ==> (dates + [d])[|dates| + 1 - n..] == dates[|dates| + 1 - n..] + [d];
  }

  lemma FromSnoc(dates: seq<Date>, d: Date, reset: Date)
    ensures From(dates + [d], reset) == From(dates, reset) + if reset <= d then [d] else []
  {
    assert (dates + [d])[..|dates|] == dates;
  }

  lemma BeforeSnoc(dates: seq<Date>, d: Date, target: Date)
    ensures Before(dates + [d], target) == Before(dates, target) + if d < target then [d] else []
  {
    assert (dates + [d])[..|dates|] == dates;
  }

  lemma {:induction false} BeforeAll(dates: seq<Date>, target: Date)
    requires forall i :: 0 <= i < |dates| ==> dates[i] < target
    ensures Before(dates, target) == dates
  {
    if |dates| > 0 {
      BeforeAll(dates[..|dates| - 1], target);
      assert dates == dates[..|dates| - 1] + [dates[|dates| - 1]];
    }
  }

  lemma LastNMonotone(dates: seq<Date>, m: nat, n: nat)
    requires m <= n
    ensures forall d :: d in LastN(dates, m) ==> d in LastN(dates, n)
  {
    forall d | d in LastN(dates, m) ensures d in LastN(dates, n) {
      if |dates| > n {
        var i :| 0 <= i < |LastN(dates, m)| && LastN(dates, m)[i] == d;
        assert LastN(dates, n)[i + n - m] == d;
      }
    }
  }

  /** A tail of a calendar only sees sessions the calendar's own tail sees. */
  lemma LastNOfSuffix(dates: seq<Date>, k: nat, n: nat)
    requires k <= |dates|
    ensures forall d :: d in LastN(dates[k..], n) ==> d in LastN(dates, n)
  {
    var tail := dates[k..];
    if |tail| > n {
      assert tail[|tail| - n..] == dates[|dates| - n..];
    } else if |dates| > n {
      assert tail == dates[|dates| - n..][|dates[|dates| - n..]| - |tail|..];
    }
  }
}
