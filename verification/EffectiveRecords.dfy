/** Two-pointer scans over dated records: share capital and classification memberships. */
module EffectiveRecords {
  import opened Wrappers
  import opened CorporateActions

  // ---------------------------------------------------------------------------
  // The record in force
  // ---------------------------------------------------------------------------

  /** Sorted by date; records of one date keep their given order. */
  ghost predicate Sorted(dates: seq<int>) {
    forall i, j :: 0 <= i < j < |dates| ==> dates[i] <= dates[j]
  }

  /** The latest record effective on or before a date: everything up to it is effective by then,
      everything after it is not. */
  ghost predicate InForce(dates: seq<int>, date: int, found: Option<nat>) {
    match found
    case None => forall i :: 0 <= i < |dates| ==> dates[i] > date
    case Some(k) => k < |dates| && dates[k] <= date && forall i :: k < i < |dates| ==> dates[i] > date
  }

  ghost function Latest(dates: seq<int>, date: int): (found: Option<nat>)
    ensures InForce(dates, date, found)
  {
    if |dates| == 0 then None
    else if dates[|dates| - 1] <= date then Some(|dates| - 1) else Latest(dates[..|dates| - 1], date)
  }

  lemma InForceIsUnique(dates: seq<int>, date: int, a: Option<nat>, b: Option<nat>)
    requires InForce(dates, date, a) && InForce(dates, date, b)
    ensures a == b
  {
  }

  /** In a sorted list it is the one with the greatest effective date not after the day, and of
      several with that date the last. */
  lemma LatestIsNewest(dates: seq<int>, date: int, i: nat)
    requires Sorted(dates) && i < |dates| && dates[i] <= date
    ensures Latest(dates, date).Some? && i <= Latest(dates, date).value && dates[i] <= dates[Latest(dates, date).value] <= date
  {
  }

  /** Advances a pointer past every record effective by `date`. */
  method Advance(dates: seq<int>, date: int, from: nat) returns (index: nat)
    requires Sorted(dates) && from <= |dates| && forall i :: 0 <= i < from ==> dates[i] <= date
    ensures from <= index <= |dates|
    ensures forall i :: 0 <= i < index ==> dates[i] <= date
    ensures Latest(dates, date) == if index == 0 then None else Some(index - 1)
  {
    index := from;
    while index < |dates| && dates[index] <= date
      invariant from <= index <= |dates| && forall i :: 0 <= i < index ==> dates[i] <= date
    {
      index := index + 1;
    }
    InForceIsUnique(dates, date, Latest(dates, date), if index == 0 then None else Some(index - 1));
  }

  // ---------------------------------------------------------------------------
  // Market capitalizations
  // ---------------------------------------------------------------------------

  datatype Capital = Capital(effective: int, total: nat, circulating: Option<nat>, listed: Option<nat>)

  datatype MarketCap = MarketCap(date: int, total: real, circulating: Option<real>)

  function EffectiveDates(capital: seq<Capital>): (dates: seq<int>)
    ensures |dates| == |capital| && forall i :: 0 <= i < |capital| ==> dates[i] == capital[i].effective
  {
    seq(|capital|, i requires 0 <= i < |capital| => capital[i].effective)
  }

  /** A priced bar valued at one capital record: listed A shares stand in for circulating shares. */
  function ValuedAt(bar: Bar, c: Capital): MarketCap
    requires bar.close.Some?
  {
    var shares := if c.listed.Some? then c.listed else c.circulating;
    MarketCap(bar.date, bar.close.value * c.total as real,
              if shares.Some? then Some(bar.close.value * shares.value as real) else None)
  }

  /** The row of one bar, valued at the record in force that day: none without a close or a record. */
  ghost function CapRow(bar: Bar, capital: seq<Capital>, start: int, end: int): seq<MarketCap> {
    var found := Latest(EffectiveDates(capital), bar.date);
    if start <= bar.date <= end && bar.close.Some? && found.Some? then [ValuedAt(bar, capital[found.value])] else []
  }

  ghost function CapRows(bars: seq<Bar>, capital: seq<Capital>, start: int, end: int): seq<MarketCap> {
    if |bars| == 0 then []
    else CapRows(bars[..|bars| - 1], capital, start, end) + CapRow(bars[|bars| - 1], capital, start, end)
  }

  /** `calculate_market_capitalizations`. */
  method CalculateMarketCaps(bars: seq<Bar>, capital: seq<Capital>, start: int, end: int) returns (rows: seq<MarketCap>)
    requires Ordered(bars) && Sorted(EffectiveDates(capital))
    ensures rows == CapRows(bars, capital, start, end)
  {
    hide Latest, ValuedAt;
    var dates := EffectiveDates(capital);
    var index := 0;
    rows := [];
    for b := 0 to |bars|
      invariant index <= |capital| && (b < |bars| ==> forall i :: 0 <= i < index ==> dates[i] <= bars[b].date)
      invariant rows == CapRows(bars[..b], capital, start, end)
    {
      assert bars[..b + 1][..b] == bars[..b];
      var bar := bars[b];
      index := Advance(dates, bar.date, index);
      if start <= bar.date <= end && bar.close.Some? && index > 0 {
        rows := rows + [ValuedAt(bar, capital[index - 1])];
      }
      assert b + 1 < |bars| ==> bar.date < bars[b + 1].date;
    }
    assert bars[..|bars|] == bars;
  }

  /** The row values a bar's close at a capital record: all shares, and the listed A shares or, when
      those are unknown, the circulating ones. */
  ghost predicate Values(row: MarketCap, bar: Bar, c: Capital) {
    && row.date == bar.date && bar.close.Some? && row.total == bar.close.value * c.total as real
    && (c.listed.Some? ==> row.circulating == Some(bar.close.value * c.listed.value as real))
    && (c.listed.None? && c.circulating.Some? ==> row.circulating == Some(bar.close.value * c.circulating.value as real))
    && (c.listed.None? && c.circulating.None? ==> row.circulating.None?)
  }

  /** The bar is priced, in the range, and valued at the newest record effective by its day. */
  ghost predicate IsValued(bars: seq<Bar>, capital: seq<Capital>, start: int, end: int, i: int, row: MarketCap) {
    && 0 <= i < |bars| && start <= bars[i].date <= end
    && exists k: nat :: k < |capital| && InForce(EffectiveDates(capital), bars[i].date, Some(k)) && Values(row, bars[i], capital[k])
  }

  lemma ValuedAtValues(bar: Bar, c: Capital)
    requires bar.close.Some?
    ensures Values(ValuedAt(bar, c), bar, c)
  {
    var row := ValuedAt(bar, c);
    assert row.total == bar.close.value * c.total as real;
    if c.listed.Some? {
      assert row.circulating.Some?;
      assert row.circulating.value == bar.close.value * c.listed.value as real;
    } else if c.circulating.Some? {
      assert row.circulating.value == bar.close.value * c.circulating.value as real;
    }
  }

  lemma RowIsValued(bars: seq<Bar>, capital: seq<Capital>, start: int, end: int, i: nat)
    requires i < |bars|
    ensures forall row :: row in CapRow(bars[i], capital, start, end) ==> IsValued(bars, capital, start, end, i, row)
  {
    var dates := EffectiveDates(capital);
    var found := Latest(dates, bars[i].date);
    hide InForce, Latest;
    if start <= bars[i].date <= end && bars[i].close.Some? && found.Some? {
      InForceWithin(dates, bars[i].date, found.value);
      ValuedAtValues(bars[i], capital[found.value]);
    }
  }

  /** A bar can be valued when it is in the range, priced, and some record is effective by its day. */
  lemma ValuedWhenKnown(bar: Bar, capital: seq<Capital>, start: int, end: int)
    ensures CapRow(bar, capital, start, end) == [] <==>
      !(start <= bar.date <= end) || bar.close.None? || forall k :: 0 <= k < |capital| ==> bar.date < capital[k].effective
  {
    NoneInForce(EffectiveDates(capital), bar.date);
    hide Latest;
  }

  lemma InForceWithin(dates: seq<int>, date: int, k: nat)
    requires InForce(dates, date, Some(k))
    ensures k < |dates|
  {
  }

  lemma NoneInForce(dates: seq<int>, date: int)
    ensures Latest(dates, date).None? <==> forall k :: 0 <= k < |dates| ==> date < dates[k]
  {
  }

  lemma StillValued(bars: seq<Bar>, capital: seq<Capital>, start: int, end: int, i: int, row: MarketCap)
    requires |bars| > 0 && IsValued(bars[..|bars| - 1], capital, start, end, i, row)
    ensures IsValued(bars, capital, start, end, i, row)
  {
    hide InForce, Values;
    assert bars[..|bars| - 1][i] == bars[i];
  }

  /** Every row values some bar. */
  lemma {:induction false} CapRowsValueBars(bars: seq<Bar>, capital: seq<Capital>, start: int, end: int, row: MarketCap)
    requires row in CapRows(bars, capital, start, end)
    ensures exists i :: IsValued(bars, capital, start, end, i, row)
  {
    hide CapRow, IsValued;
    var n := |bars| - 1;
    if row in CapRows(bars[..n], capital, start, end) {
      CapRowsValueBars(bars[..n], capital, start, end, row);
      var i :| IsValued(bars[..n], capital, start, end, i, row);
      StillValued(bars, capital, start, end, i, row);
    } else {
      RowIsValued(bars, capital, start, end, n);
    }
  }

  /** Every bar of the range that is priced while some record is effective has a row of its own. */
  lemma {:induction false} KnownBarsAreValued(bars: seq<Bar>, capital: seq<Capital>, start: int, end: int, i: nat) returns (row: MarketCap)
    requires i < |bars| && start <= bars[i].date <= end && bars[i].close.Some?
    requires exists k :: 0 <= k < |capital| && capital[k].effective <= bars[i].date
    ensures row in CapRows(bars, capital, start, end) && IsValued(bars, capital, start, end, i, row)
  {
    hide CapRow, IsValued;
    var n := |bars| - 1;
    if i < n {
      row := KnownBarsAreValued(bars[..n], capital, start, end, i);
      StillValued(bars, capital, start, end, i, row);
    } else {
      ValuedWhenKnown(bars[n], capital, start, end);
      RowIsValued(bars, capital, start, end, n);
      row := CapRow(bars[n], capital, start, end)[0];
    }
  }

  // ---------------------------------------------------------------------------
  // Classification metrics
  // ---------------------------------------------------------------------------

  type Symbol = nat

  datatype Snapshot = Snapshot(date: int, members: seq<Symbol>)

  /** What one trading day offers about its symbols. */
  datatype Day = Day(date: int, volumes: map<Symbol, nat>, amounts: map<Symbol, real>, gains: map<Symbol, real>, caps: map<Symbol, real>)

  datatype Metric = Metric(date: int, snapshotDate: int, members: nat, priced: nat, advancing: nat, declining: nat, flat: nat,
                           volume: Option<nat>, volumeMembers: nat, amount: Option<real>, amountMembers: nat,
                           equalWeight: Option<real>, cap: Option<real>, capMembers: nat)

  function SnapshotDates(snapshots: seq<Snapshot>): (dates: seq<int>)
    ensures |dates| == |snapshots| && forall i :: 0 <= i < |snapshots| ==> dates[i] == snapshots[i].date
  {
    seq(|snapshots|, i requires 0 <= i < |snapshots| => snapshots[i].date)
  }

  ghost predicate UniqueMembers(s: Snapshot) {
    forall i, j :: 0 <= i < j < |s.members| ==> s.members[i] != s.members[j]
  }

  ghost function VolumeOf(members: seq<Symbol>, day: Day): nat {
    if |members| == 0 then 0
    else
      var m := members[|members| - 1];
      VolumeOf(members[..|members| - 1], day) + if m in day.volumes then day.volumes[m] else 0
  }

  ghost function SumOver(members: seq<Symbol>, values: map<Symbol, real>): real {
    if |members| == 0 then 0.0
    else
      var m := members[|members| - 1];
      SumOver(members[..|members| - 1], values) + if m in values then values[m] else 0.0
  }

  function AsSet(members: seq<Symbol>): set<Symbol> { set i | 0 <= i < |members| :: members[i] }

  ghost function Risers(day: Day): set<Symbol> { set m | m in day.gains && day.gains[m] > 0.0 }

  ghost function Fallers(day: Day): set<Symbol> { set m | m in day.gains && day.gains[m] < 0.0 }

  /** How many members belong to a group of symbols. */
  ghost function CountIn(members: seq<Symbol>, group: set<Symbol>): nat { |AsSet(members) * group| }

  ghost predicate IsMean(mean: Option<real>, total: real, n: nat) {
    (mean.Some? <==> n > 0) && (n > 0 ==> mean.value * n as real == total)
  }

  /** A metric row means what its columns say about the snapshot's members that day: totals of
      volume and amount only when every member has one, of market capitalization when any has. */
  ghost predicate Describes(m: Metric, s: Snapshot, day: Day) {
    && m.date == day.date && m.snapshotDate == s.date && m.members == |s.members|
    && m.priced == CountIn(s.members, day.gains.Keys)
    && m.advancing == CountIn(s.members, Risers(day)) && m.declining == CountIn(s.members, Fallers(day))
    && m.flat == CountIn(s.members, day.gains.Keys - Risers(day) - Fallers(day))
    && m.volumeMembers == CountIn(s.members, day.volumes.Keys) && m.amountMembers == CountIn(s.members, day.amounts.Keys)
    && m.volume == (if AsSet(s.members) <= day.volumes.Keys then Some(VolumeOf(s.members, day)) else None)
    && m.amount == (if AsSet(s.members) <= day.amounts.Keys then Some(SumOver(s.members, day.amounts)) else None)
    && m.capMembers == CountIn(s.members, day.caps.Keys)
    && m.cap == (if AsSet(s.members) !! day.caps.Keys then None else Some(SumOver(s.members, day.caps)))
    && IsMean(m.equalWeight, SumOver(s.members, day.gains), m.priced)
  }

  /** One more member adds itself to the groups it belongs to. */
  lemma OneMoreMember(members: seq<Symbol>, group: set<Symbol>, i: nat)
    requires i < |members| && forall j :: 0 <= j < i ==> members[j] != members[i]
    ensures CountIn(members[..i + 1], group) == CountIn(members[..i], group) + if members[i] in group then 1 else 0
  {
    var m, before := members[i], AsSet(members[..i]);
    assert AsSet(members[..i + 1]) == before + {m} by {
      forall x | x in before ensures x in AsSet(members[..i + 1]) {
        var j :| 0 <= j < i && members[j] == x;
        assert members[..i + 1][j] == x;
      }
      assert members[..i + 1][i] == m;
    }
    assert m !in before;
    hide AsSet;
    if m in group {
      assert (before + {m}) * group == before * group + {m};
    } else {
      assert (before + {m}) * group == before * group;
    }
  }

  lemma CountSplits(members: seq<Symbol>, a: set<Symbol>, b: set<Symbol>)
    requires a !! b
    ensures CountIn(members, a + b) == CountIn(members, a) + CountIn(members, b)
  {
    var all := AsSet(members);
    hide AsSet;
    assert all * (a + b) == all * a + all * b;
    assert (all * a) !! (all * b);
  }

  /** Every member belongs to a group exactly when as many do as there are members. */
  lemma AllBelong(members: seq<Symbol>, group: set<Symbol>)
    requires forall i, j :: 0 <= i < j < |members| ==> members[i] != members[j]
    ensures CountIn(members, group) == |members| <==> AsSet(members) <= group
  {
    MemberCount(members);
    var all := AsSet(members);
    hide AsSet;
    assert all <= group ==> all * group == all;
    if |all * group| == |all| { SubsetOfSameSize(all * group, all); }
  }

  lemma SubsetOfSameSize<T>(a: set<T>, b: set<T>)
    requires a <= b && |a| == |b|
    ensures a == b
  {
    assert |b| == |a| + |b - a| by { assert b == a + (b - a); }
  }

  lemma {:induction false} MemberCount(members: seq<Symbol>)
    requires forall i, j :: 0 <= i < j < |members| ==> members[i] != members[j]
    ensures |AsSet(members)| == |members|
  {
    if |members| > 0 {
      var n := |members| - 1;
      MemberCount(members[..n]);
      assert AsSet(members) == AsSet(members[..n]) + {members[n]} by {
        forall m | m in AsSet(members) ensures m in AsSet(members[..n]) + {members[n]} {
          var j :| 0 <= j < |members| && members[j] == m;
          if j < n { assert members[..n][j] == m; }
        }
      }
      assert members[n] !in AsSet(members[..n]);
    }
  }

  /** Some member belongs to a group exactly when the count is positive. */
  lemma SomeBelong(members: seq<Symbol>, group: set<Symbol>)
    ensures CountIn(members, group) > 0 <==> !(AsSet(members) !! group)
  {
    var all := AsSet(members);
    hide AsSet;
    if all !! group {
      assert all * group == {};
    } else {
      var m :| m in all && m in group;
      assert m in all * group;
    }
  }

  datatype Tally = Tally(priced: nat, advancing: nat, declining: nat, gain: real, volumeMembers: nat, volume: nat,
                         amountMembers: nat, amount: real, capMembers: nat, cap: real)

  /** The totals over some members. */
  ghost function TallyOf(members: seq<Symbol>, day: Day): Tally {
    Tally(CountIn(members, day.gains.Keys), CountIn(members, Risers(day)), CountIn(members, Fallers(day)), SumOver(members, day.gains),
          CountIn(members, day.volumes.Keys), VolumeOf(members, day), CountIn(members, day.amounts.Keys), SumOver(members, day.amounts),
          CountIn(members, day.caps.Keys), SumOver(members, day.caps))
  }

  /** One member's contribution. */
  function CountMember(t: Tally, day: Day, m: Symbol): Tally {
    var gain := if m in day.gains then day.gains[m] else 0.0;
    Tally(t.priced + (if m in day.gains then 1 else 0), t.advancing + (if gain > 0.0 then 1 else 0),
          t.declining + (if gain < 0.0 then 1 else 0), t.gain + gain,
          t.volumeMembers + (if m in day.volumes then 1 else 0), t.volume + (if m in day.volumes then day.volumes[m] else 0),
          t.amountMembers + (if m in day.amounts then 1 else 0), t.amount + (if m in day.amounts then day.amounts[m] else 0.0),
          t.capMembers + (if m in day.caps then 1 else 0), t.cap + (if m in day.caps then day.caps[m] else 0.0))
  }

  lemma OneMoreTally(members: seq<Symbol>, day: Day, i: nat)
    requires i < |members| && forall j :: 0 <= j < i ==> members[j] != members[i]
    ensures TallyOf(members[..i + 1], day) == CountMember(TallyOf(members[..i], day), day, members[i])
  {
    hide CountIn;
    OneMoreMember(members, day.gains.Keys, i);
    OneMoreMember(members, Risers(day), i);
    OneMoreMember(members, Fallers(day), i);
    OneMoreMember(members, day.volumes.Keys, i);
    OneMoreMember(members, day.amounts.Keys, i);
    OneMoreMember(members, day.caps.Keys, i);
    assert members[..i + 1][..i] == members[..i] && members[..i + 1][i] == members[i];
  }

  /** The member loop. */
  method CountMembers(members: seq<Symbol>, day: Day) returns (t: Tally)
    requires forall i, j :: 0 <= i < j < |members| ==> members[i] != members[j]
    ensures t == TallyOf(members, day)
  {
    hide TallyOf, CountIn;
    t := Tally(0, 0, 0, 0.0, 0, 0, 0, 0.0, 0, 0.0);
    NothingTallied(day);
    assert members[..0] == [];
    for i := 0 to |members|
      invariant t == TallyOf(members[..i], day)
    {
      OneMoreTally(members, day, i);
      var m := members[i];
      if m in day.volumes {
        t := t.(volume := t.volume + day.volumes[m], volumeMembers := t.volumeMembers + 1);
      }
      if m in day.amounts {
        t := t.(amount := t.amount + day.amounts[m], amountMembers := t.amountMembers + 1);
      }
      if m in day.gains {
        var gain := day.gains[m];
        t := t.(gain := t.gain + gain, priced := t.priced + 1,
                advancing := t.advancing + (if gain > 0.0 then 1 else 0), declining := t.declining + if gain < 0.0 then 1 else 0);
      }
      if m in day.caps {
        t := t.(cap := t.cap + day.caps[m], capMembers := t.capMembers + 1);
      }
    }
    assert members[..|members|] == members;
  }

  lemma NothingTallied(day: Day)
    ensures TallyOf([], day) == Tally(0, 0, 0, 0.0, 0, 0, 0, 0.0, 0, 0.0)
  {
    NoMembers();
    hide CountIn;
  }

  lemma NoMembers()
    ensures forall group :: CountIn([], group) == 0
  {
    assert AsSet([]) == {};
    forall group: set<Symbol> ensures CountIn([], group) == 0 { assert {} * group == {}; }
  }

  /** Advancing, declining and unchanged members partition the priced ones. */
  lemma Partition(members: seq<Symbol>, day: Day)
    ensures CountIn(members, day.gains.Keys)
         == CountIn(members, Risers(day)) + CountIn(members, Fallers(day)) + CountIn(members, day.gains.Keys - Risers(day) - Fallers(day))
  {
    var a, d, p := Risers(day), Fallers(day), day.gains.Keys;
    hide CountIn;
    assert p == (a + d) + (p - a - d) && a !! d;
    CountSplits(members, a, d);
    CountSplits(members, a + d, p - a - d);
  }

  /** The members left over by the other two counts. */
  function LeftOver(priced: nat, advancing: nat, declining: nat): nat {
    if advancing + declining <= priced then priced - advancing - declining else 0
  }

  /** The row of a finished tally. */
  function RowOf(snapshotDate: int, members: nat, date: int, t: Tally, equalWeight: Option<real>): Metric {
    Metric(date, snapshotDate, members, t.priced, t.advancing, t.declining, LeftOver(t.priced, t.advancing, t.declining),
           if t.volumeMembers == members then Some(t.volume) else None, t.volumeMembers,
           if t.amountMembers == members then Some(t.amount) else None, t.amountMembers,
           equalWeight, if t.capMembers > 0 then Some(t.cap) else None, t.capMembers)
  }

  lemma TallyDescribes(s: Snapshot, day: Day, equalWeight: Option<real>)
    requires UniqueMembers(s) && IsMean(equalWeight, SumOver(s.members, day.gains), CountIn(s.members, day.gains.Keys))
    ensures Describes(RowOf(s.date, |s.members|, day.date, TallyOf(s.members, day), equalWeight), s, day)
  {
    hide CountIn, AsSet, VolumeOf, SumOver, Risers, Fallers, IsMean;
    AllBelong(s.members, day.volumes.Keys);
    AllBelong(s.members, day.amounts.Keys);
    SomeBelong(s.members, day.caps.Keys);
    Partition(s.members, day);
  }

  /** The row of one snapshot and day. */
  method Summarize(s: Snapshot, day: Day) returns (m: Metric)
    requires UniqueMembers(s)
    ensures Describes(m, s, day)
  {
    hide Describes, IsMean, RowOf, CountIn, SumOver;
    var t := CountMembers(s.members, day);
    var equalWeight := Mean(t.gain, t.priced);
    TallyDescribes(s, day, equalWeight);
    m := RowOf(s.date, |s.members|, day.date, t, equalWeight);
  }

  method Mean(total: real, n: nat) returns (mean: Option<real>)
    ensures IsMean(mean, total, n)
  {
    mean := if n > 0 then Some(total / n as real) else None;
  }

  /** One row per day that has a snapshot in force, describing that snapshot. */
  ghost predicate MetricRows(snapshots: seq<Snapshot>, days: seq<Day>, rows: seq<Metric>) {
    if |days| == 0 then rows == []
    else
      var day, earlier := days[|days| - 1], days[..|days| - 1];
      var found := Latest(SnapshotDates(snapshots), day.date);
      if found.None? then MetricRows(snapshots, earlier, rows)
      else
        && |rows| > 0 && MetricRows(snapshots, earlier, rows[..|rows| - 1])
        && Describes(rows[|rows| - 1], snapshots[found.value], day)
  }

  /** `calculate_classification_metrics`, for one classification. */
  method CalculateClassification(snapshots: seq<Snapshot>, days: seq<Day>) returns (rows: seq<Metric>)
    requires Sorted(SnapshotDates(snapshots)) && forall k :: 0 <= k < |snapshots| ==> UniqueMembers(snapshots[k])
    requires forall i, j :: 0 <= i < j < |days| ==> days[i].date < days[j].date
    ensures MetricRows(snapshots, days, rows)
  {
    hide Describes, Latest, UniqueMembers, Sorted, InForce;
    var dates := SnapshotDates(snapshots);
    var index := 0;
    rows := [];
    for d := 0 to |days|
      invariant index <= |snapshots| && (d < |days| ==> forall i :: 0 <= i < index ==> dates[i] <= days[d].date)
      invariant MetricRows(snapshots, days[..d], rows)
    {
      assert days[..d + 1][..d] == days[..d];
      var day := days[d];
      index := Advance(dates, day.date, index);
      if index > 0 {
        var row := Summarize(snapshots[index - 1], day);
        assert (rows + [row])[..|rows|] == rows;
        rows := rows + [row];
      }
      assert d + 1 < |days| ==> day.date < days[d + 1].date;
    }
    assert days[..|days|] == days;
  }

  /** Every classification in turn. */
  method CalculateClassifications(groups: seq<seq<Snapshot>>, days: seq<Day>) returns (rows: seq<seq<Metric>>)
    requires forall g :: 0 <= g < |groups| ==> Sorted(SnapshotDates(groups[g])) && forall k :: 0 <= k < |groups[g]| ==> UniqueMembers(groups[g][k])
    requires forall i, j :: 0 <= i < j < |days| ==> days[i].date < days[j].date
    ensures |rows| == |groups| && forall g :: 0 <= g < |groups| ==> MetricRows(groups[g], days, rows[g])
  {
    hide MetricRows, UniqueMembers, Sorted;
    rows := [];
    for g := 0 to |groups|
      invariant |rows| == g && forall h :: 0 <= h < g ==> MetricRows(groups[h], days, rows[h])
    {
      var found := CalculateClassification(groups[g], days);
      rows := rows + [found];
    }
  }
}
