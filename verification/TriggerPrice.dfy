/** Inverting a deviation rule into a closing price: `_round_to_tick` and the price
    search shared by `_threshold` and the scenario solver. */
module TriggerPrice {
  import opened Wrappers
  import opened TradingCalendar
  import opened RegulationRules
  import opened DeviationWindows

  const TICK: real := 0.01

  function PriceAt(ticks: int): real { ticks as real * TICK }

  function Multiple(n: int, tick: real): real { n as real * tick }

  /** `_round_to_tick`, as a number of ticks. */
  function RoundToTick(value: real, tick: real, direction: Direction): (ticks: int)
    requires tick > 0.0
    ensures direction == Up ==> Multiple(ticks - 1, tick) < value <= Multiple(ticks, tick)
    ensures direction != Up ==> Multiple(ticks, tick) <= value < Multiple(ticks + 1, tick)
  {
    var q := value / tick;
    var n := if direction == Up then -((-q).Floor) else q.Floor;
    TickBounds(value, q, tick, n);
    n
  }

  lemma TickBounds(value: real, q: real, tick: real, n: int)
    requires tick > 0.0 && q == value / tick
    ensures (n - 1) as real < q <= n as real ==> Multiple(n - 1, tick) < value <= Multiple(n, tick)
    ensures n as real <= q < (n + 1) as real ==> Multiple(n, tick) <= value < Multiple(n + 1, tick)
  {
    assert q * tick == value;
    LessScales((n - 1) as real, q, tick);
    LessScales(n as real, q, tick);
    LessScales(q, n as real, tick);
    LessScales(q, (n + 1) as real, tick);
    if q <= n as real { assert value <= n as real * tick; }
  }

  lemma LessScales(a: real, b: real, c: real)
    requires c > 0.0
    ensures a < b <==> a * c < b * c
    ensures a == b ==> a * c == b * c
  {
    assert b * c - a * c == (b - a) * c;
    if a < b { assert (b - a) * c > 0.0; } else { assert (a - b) * c >= 0.0; }
  }

  /** A tick price is on the triggering side of `value` iff it is on that side of its rounding. */
  lemma RoundingIsExact(value: real, tick: real, direction: Direction, n: int)
    requires tick > 0.0 && direction != NoDirection
    ensures Meets(direction, Multiple(n, tick), value) <==>
      (if direction == Up then n >= RoundToTick(value, tick, direction) else n <= RoundToTick(value, tick, direction))
  {
    var r := RoundToTick(value, tick, direction);
    hide RoundToTick, Multiple;
    if direction == Up {
      if n >= r { TicksGrow(r, n, tick); } else { TicksGrow(n, r - 1, tick); }
    } else {
      if n <= r { TicksGrow(n, r, tick); } else { TicksGrow(r + 1, n, tick); }
    }
  }

  lemma TicksGrow(a: int, b: int, tick: real)
    requires a <= b && tick > 0.0
    ensures Multiple(a, tick) <= Multiple(b, tick)
  {
    assert Multiple(b, tick) - Multiple(a, tick) == (b as real - a as real) * tick;
    assert b as real - a as real >= 0.0;
  }

  /** The close that puts a window with these factors exactly on the threshold. */
  function Boundary(reference: real, threshold: real, projectedIndex: real, stock: real): real
    requires stock > 0.0
  {
    reference * (threshold / 100.0 + projectedIndex) / stock
  }

  /** The close at which the window starting at `history[i]` would sit exactly on the threshold. */
  function RawPrice(rows: Rows, history: seq<Date>, i: nat, reference: real, index: real, threshold: real): real
    requires AllPriced(rows, history) && i <= |history|
  {
    Boundary(reference, threshold, IndexFactor(rows, history[i..]) * index, StockFactor(rows, history[i..]))
  }

  datatype Solution = Solution(raw: real, start: nat)

  /** The best positive raw price over window starts 0..k-1; the first one among equals. */
  function BestPrice(rows: Rows, history: seq<Date>, k: nat, reference: real, index: real,
                     threshold: real, direction: Direction): (best: Option<Solution>)
    requires AllPriced(rows, history) && k <= |history| + 1
    ensures best.Some? ==>
      && best.value.start < k && 0.0 < best.value.raw
      && best.value.raw == RawPrice(rows, history, best.value.start, reference, index, threshold)
  {
    if k == 0 then None
    else
      var earlier := BestPrice(rows, history, k - 1, reference, index, threshold, direction);
      var raw := RawPrice(rows, history, k - 1, reference, index, threshold);
      if raw > 0.0 && (earlier.None? || Beyond(direction, earlier.value.raw, raw)) then Some(Solution(raw, k - 1))
      else earlier
  }

  lemma BestNext(rows: Rows, history: seq<Date>, k: nat, reference: real, index: real, threshold: real, direction: Direction)
    requires AllPriced(rows, history) && k <= |history|
    ensures
      var earlier := BestPrice(rows, history, k, reference, index, threshold, direction);
      var raw := RawPrice(rows, history, k, reference, index, threshold);
      BestPrice(rows, history, k + 1, reference, index, threshold, direction) ==
        if raw > 0.0 && (earlier.None? || Beyond(direction, earlier.value.raw, raw)) then Some(Solution(raw, k)) else earlier
  {
    hide RawPrice, AllPriced;
  }

  lemma BestOfNone(rows: Rows, history: seq<Date>, reference: real, index: real, threshold: real, direction: Direction)
    requires AllPriced(rows, history)
    ensures BestPrice(rows, history, 0, reference, index, threshold, direction) == None
  {
  }

  /** The search finds nothing only when no start has a positive price; otherwise no start beats it. */
  lemma {:induction false} BestPriceIsBest(rows: Rows, history: seq<Date>, k: nat, reference: real, index: real,
                                           threshold: real, direction: Direction)
    requires AllPriced(rows, history) && k <= |history| + 1
    ensures
      var best := BestPrice(rows, history, k, reference, index, threshold, direction);
      && (best.None? <==> forall i :: 0 <= i < k ==> RawPrice(rows, history, i, reference, index, threshold) <= 0.0)
      && (best.Some? ==> forall i :: 0 <= i < k && RawPrice(rows, history, i, reference, index, threshold) > 0.0 ==>
            !Beyond(direction, best.value.raw, RawPrice(rows, history, i, reference, index, threshold)))
  {
    hide RawPrice;
    if k > 0 {
      BestPriceIsBest(rows, history, k - 1, reference, index, threshold, direction);
    }
  }

  /** The trigger price in ticks, when a positive one exists. */
  function TriggerTicks(rows: Rows, history: seq<Date>, reference: real, index: real,
                        threshold: real, direction: Direction): (ticks: Option<int>)
    requires AllPriced(rows, history)
    ensures ticks.Some? ==> ticks.value > 0
  {
    var best := BestPrice(rows, history, |history| + 1, reference, index, threshold, direction);
    if best.None? then None
    else
      var ticks := RoundToTick(best.value.raw, TICK, direction);
      if ticks <= 0 then None else Some(ticks)
  }

  /** A close of `ticks` is at or beyond the trigger price; no price means nothing reaches it. */
  predicate Reaches(trigger: Option<int>, direction: Direction, ticks: int) {
    trigger.Some? && if direction == Up then ticks >= trigger.value else ticks <= trigger.value
  }

  /** The window starting at `history[i]` meets the threshold once today closes at `close`. */
  predicate WindowMeets(rows: Rows, history: seq<Date>, i: nat, reference: real, index: real,
                        threshold: real, direction: Direction, close: real)
    requires AllPriced(rows, history) && i <= |history| && reference > 0.0
  {
    Meets(direction,
          (StockFactor(rows, history[i..]) * (close / reference) - IndexFactor(rows, history[i..]) * index) * 100.0,
          threshold)
  }

  lemma WindowMeetsIffPastRaw(rows: Rows, history: seq<Date>, i: nat, reference: real, index: real,
                              threshold: real, direction: Direction, close: real)
    requires AllPriced(rows, history) && i <= |history| && reference > 0.0
    ensures WindowMeets(rows, history, i, reference, index, threshold, direction, close) <==>
      Meets(direction, close, RawPrice(rows, history, i, reference, index, threshold))
  {
    hide StockFactor, IndexFactor;
    MovesAcross(StockFactor(rows, history[i..]), close, reference,
                IndexFactor(rows, history[i..]) * index, threshold / 100.0);
  }

  /** Moving the factors of a deviation across the threshold keeps the comparison. */
  lemma MovesAcross(stock: real, close: real, reference: real, index: real, threshold: real)
    requires stock > 0.0 && reference > 0.0
    ensures stock * (close / reference) - index >= threshold <==> close >= reference * (threshold + index) / stock
    ensures stock * (close / reference) - index <= threshold <==> close <= reference * (threshold + index) / stock
  {
    var need := threshold + index;
    var q, raw := close / reference, reference * need / stock;
    assert q * reference == close && raw * stock == reference * need;
    LessScales(stock * q, need, reference);
    LessScales(need, stock * q, reference);
    LessScales(close, raw, stock);
    LessScales(raw, close, stock);
    assert stock * q * reference == close * stock;
  }

  /** The inversion is exact: a positive tick close makes some window meet the threshold
      if and only if it reaches the trigger price. */
  lemma InversionIsExact(rows: Rows, history: seq<Date>, reference: real, index: real,
                         threshold: real, direction: Direction, ticks: int)
    requires AllPriced(rows, history) && reference > 0.0 && direction != NoDirection && ticks > 0
    requires direction == Up ==> threshold > 0.0 && index > 0.0
    ensures (exists i :: 0 <= i <= |history| && WindowMeets(rows, history, i, reference, index, threshold, direction, PriceAt(ticks)))
      <==> Reaches(TriggerTicks(rows, history, reference, index, threshold, direction), direction, ticks)
  {
    var best := BestPrice(rows, history, |history| + 1, reference, index, threshold, direction);
    BestPriceIsBest(rows, history, |history| + 1, reference, index, threshold, direction);
    hide RawPrice, WindowMeets, StockFactor, IndexFactor;
    forall i | 0 <= i <= |history|
      ensures WindowMeets(rows, history, i, reference, index, threshold, direction, PriceAt(ticks)) <==>
        Meets(direction, PriceAt(ticks), RawPrice(rows, history, i, reference, index, threshold))
    {
      WindowMeetsIffPastRaw(rows, history, i, reference, index, threshold, direction, PriceAt(ticks));
    }
    if direction == Up {
      UpRawIsPositive(rows, history, reference, index, threshold);
    }
    if best.Some? {
      RoundingIsExact(best.value.raw, TICK, direction, ticks);
      assert WindowMeets(rows, history, best.value.start, reference, index, threshold, direction, PriceAt(ticks)) <==>
        Meets(direction, PriceAt(ticks), best.value.raw);
    }
  }

  lemma UpRawIsPositive(rows: Rows, history: seq<Date>, reference: real, index: real, threshold: real)
    requires AllPriced(rows, history) && reference > 0.0 && threshold > 0.0 && index > 0.0
    ensures forall i :: 0 <= i <= |history| ==> RawPrice(rows, history, i, reference, index, threshold) > 0.0
  {
    forall i | 0 <= i <= |history| ensures RawPrice(rows, history, i, reference, index, threshold) > 0.0 {
      var sf, bf := StockFactor(rows, history[i..]), IndexFactor(rows, history[i..]);
      assert bf * index > 0.0;
      var need := threshold / 100.0 + bf * index;
      assert reference * need > 0.0;
      PositiveQuotient(reference * need, sf);
    }
  }

  lemma PositiveQuotient(a: real, b: real)
    requires a > 0.0 && b > 0.0
    ensures a / b > 0.0
  {
    assert a / b * b == a;
    LessScales(0.0, a / b, b);
  }

  /** Without earlier sessions the price is the threshold itself, rounded. */
  lemma SearchOverNothing(rows: Rows, none: seq<Date>, reference: real, index: real, threshold: real, direction: Direction)
    requires none == []
    ensures
      var raw := Boundary(reference, threshold, index, 1.0);
      TriggerTicks(rows, none, reference, index, threshold, direction)
        == if raw > 0.0 && RoundToTick(raw, TICK, direction) > 0 then Some(RoundToTick(raw, TICK, direction)) else None
  {
    var raw := Boundary(reference, threshold, index, 1.0);
    assert StockFactor(rows, none[0..]) == 1.0 && IndexFactor(rows, none[0..]) == 1.0;
    hide Boundary, RoundToTick, StockFactor, IndexFactor;
    assert RawPrice(rows, none, 0, reference, index, threshold) == raw;
    assert BestPrice(rows, none, 0, reference, index, threshold, direction) == None;
    hide RawPrice;
    assert BestPrice(rows, none, 1, reference, index, threshold, direction) == if raw > 0.0 then Some(Solution(raw, 0)) else None;
    hide BestPrice;
  }

  /** A whole tick rounds to itself. */
  lemma TickRoundsToItself(ticks: int, direction: Direction)
    requires direction != NoDirection
    ensures RoundToTick(PriceAt(ticks), TICK, direction) == ticks
  {
    hide RoundToTick;
    RoundingIsExact(PriceAt(ticks), TICK, direction, ticks);
    RoundingIsExact(PriceAt(ticks), TICK, direction, if direction == Up then ticks - 1 else ticks + 1);
  }
}
