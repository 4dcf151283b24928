/** The candlesticks of one symbol's last minutes, evicted lazily by the map's size, against the fold of all
    logged trades. */
module CandlestickStore {
  import opened Sets
  import opened Timestamps
  import opened Trades
  import opened Candlestick

  type Candles = map<int, Candle>

  /** operator[] creates a fresh candlestick for a new minute. */
  function WithTrade(limits: Limits, m: Candles, t: Trade): Candles {
    var k := MinuteFloor(t.timestamp);
    m[k := Added(if k in m then m[k] else Fresh(limits), t)]
  }

  predicate IsStale(c: Candle, oldest: int) { MinuteFloor(c.closeTimestamp) < oldest }

  /** Which stale candlestick goes depends on the hash map's own order. */
  ghost predicate Evicted(m: Candles, oldest: int, m': Candles) {
    || (exists k :: k in m && IsStale(m[k], oldest) && m' == m - {k})
    || (m' == m && forall k :: k in m ==> !IsStale(m[k], oldest))
  }

  /** What adding a trade may do. */
  ghost predicate Step(limits: Limits, minutesToStore: nat, m: Candles, t: Trade, now: int, m': Candles) {
    var oldest := Threshold(now, minutesToStore);
    if t.timestamp < oldest then m' == m
    else
      var added := WithTrade(limits, m, t);
      if |added| > minutesToStore then Evicted(added, oldest, m') else m' == added
  }

  datatype StaticCandle = StaticCandle(open: real, close: real, min: real, max: real, volume: real)

  const NO_CANDLE := StaticCandle(0.0, 0.0, 0.0, 0.0, 0.0)

  function Static(c: Candle): StaticCandle {
    StaticCandle(c.openPrice, c.closePrice, c.minPrice, c.maxPrice, c.volume as real / FLOAT_TO_INT_FACTOR as real)
  }

  class CandlestickManager {
    var candlesticks: map<int, Candle>
    const minutesToStore: nat
    const limits: Limits

    constructor (timeWindow: nat, limits: Limits)
      ensures candlesticks == map[] && minutesToStore == timeWindow && this.limits == limits
    {
      candlesticks, minutesToStore, this.limits := map[], timeWindow, limits;
    }

    method AddTrade(t: Trade, now: int)
      modifies this
      ensures Step(limits, minutesToStore, old(candlesticks), t, now, candlesticks)
    {
      var minAcceptable := MinuteFloor(now) - MS_IN_MIN * (minutesToStore - 1);
      assert minAcceptable == Threshold(now, minutesToStore);
      if t.timestamp < minAcceptable {
        return;
      }
      var minute := MinuteFloor(t.timestamp);
      var candle := if minute in candlesticks then candlesticks[minute] else Fresh(limits);
      candlesticks := candlesticks[minute := Added(candle, t)];
      ghost var added := candlesticks;
      assert added == WithTrade(limits, old(candlesticks), t);
      if |candlesticks| > minutesToStore {
        var left := candlesticks.Keys;
        while left != {}
          invariant left <= added.Keys && candlesticks == added
          invariant forall k :: k in added && k !in left ==> !IsStale(added[k], minAcceptable)
          decreases |left|
        {
          NonEmpty(left);
          var k :| k in left;
          left := left - {k};
          if MinuteFloor(candlesticks[k].closeTimestamp) < minAcceptable {
            candlesticks := candlesticks - {k};
            assert Evicted(added, minAcceptable, candlesticks);
            return;
          }
        }
        assert Evicted(added, minAcceptable, candlesticks);
      }
    }

    method GetCandlestick(timestampMs: int) returns (r: StaticCandle)
      ensures timestampMs in candlesticks ==> r == Static(candlesticks[timestampMs])
      ensures timestampMs !in candlesticks ==> r == StaticCandle(0.0, 0.0, 0.0, 0.0, 0.0)
    {
      if timestampMs !in candlesticks {
        r := NO_CANDLE;
      } else {
        r := Static(candlesticks[timestampMs]);
      }
    }
  }

  // ----- runs -----

  datatype Arrival = Arrival(now: int, trade: Trade)

  /** The clock does not run backward, and no trade is stamped in a minute that has not begun. */
  predicate ValidLog(log: seq<Arrival>) {
    forall i :: 0 <= i < |log| ==>
      && 0 <= log[i].now
      && 0 <= log[i].trade.timestamp < INT64_MAX
      && MinuteFloor(log[i].trade.timestamp) <= MinuteFloor(log[i].now)
      && (i > 0 ==> log[i - 1].now <= log[i].now)
  }

  /** A run of the manager on a log: the map before the first call and after each one. */
  ghost predicate Run(limits: Limits, minutesToStore: nat, log: seq<Arrival>, maps: seq<Candles>) {
    && |maps| == |log| + 1
    && maps[0] == map[]
    && forall i :: 0 <= i < |log| ==> Step(limits, minutesToStore, maps[i], log[i].trade, log[i].now, maps[i + 1])
  }

  /** All logged trades of one minute, in order of arrival, accepted or not. */
  function TradesOf(log: seq<Arrival>, minute: int): seq<Trade> {
    if log == [] then []
    else
      var init, t := TradesOf(log[..|log| - 1], minute), log[|log| - 1].trade;
      if MinuteFloor(t.timestamp) == minute then init + [t] else init
  }

  /** Every candlestick closes in its own minute, and those of the window are exactly the logged ones. */
  ghost predicate Agrees(limits: Limits, m: Candles, log: seq<Arrival>, oldest: int, current: int) {
    && (forall k :: k in m ==> IsMinute(k) && k <= current && MinuteFloor(m[k].closeTimestamp) == k)
    && (forall k :: k >= oldest ==> (k in m <==> TradesOf(log, k) != []))
    && (forall k :: k in m && k >= oldest ==> m[k] == Fold(limits, TradesOf(log, k)))
  }

  lemma AddedCloses(c: Candle, t: Trade, k: int)
    requires t.timestamp >= 0 && MinuteFloor(t.timestamp) == k
    requires MinuteFloor(c.closeTimestamp) == k || c.closeTimestamp < 0
    ensures MinuteFloor(Added(c, t).closeTimestamp) == k
  {
  }

  lemma LogGrows(log: seq<Arrival>, a: Arrival, k: int)
    ensures TradesOf(log + [a], k) == TradesOf(log, k) + if MinuteFloor(a.trade.timestamp) == k then [a.trade] else []
  {
    assert (log + [a])[..|log|] == log;
  }

  lemma FoldGrows(limits: Limits, ts: seq<Trade>, t: Trade)
    ensures Fold(limits, ts + [t]) == Added(Fold(limits, ts), t)
  {
    assert (ts + [t])[..|ts|] == ts;
  }

  lemma TradeAgrees(limits: Limits, m: Candles, log: seq<Arrival>, a: Arrival, oldest: int, current: int)
    requires Agrees(limits, m, log, oldest, current) && a.trade.timestamp >= 0
    requires oldest <= MinuteFloor(a.trade.timestamp) <= current && IsMinute(MinuteFloor(a.trade.timestamp))
    ensures Agrees(limits, WithTrade(limits, m, a.trade), log + [a], oldest, current)
  {
    var k := MinuteFloor(a.trade.timestamp);
    var c := if k in m then m[k] else Fresh(limits);
    AddedCloses(c, a.trade, k);
    assert c == Fold(limits, TradesOf(log, k));
    FoldGrows(limits, TradesOf(log, k), a.trade);
    forall j: int
      ensures TradesOf(log + [a], j) == TradesOf(log, j) + if k == j then [a.trade] else []
    {
      LogGrows(log, a, j);
    }
  }

  lemma OldTradeAgrees(limits: Limits, m: Candles, log: seq<Arrival>, a: Arrival, oldest: int, current: int)
    requires Agrees(limits, m, log, oldest, current) && MinuteFloor(a.trade.timestamp) < oldest
    ensures Agrees(limits, m, log + [a], oldest, current)
  {
    forall j: int | j >= oldest
      ensures TradesOf(log + [a], j) == TradesOf(log, j)
    {
      LogGrows(log, a, j);
    }
  }

  /** One more entry than fits means a stale one exists, so the eviction brings the map back to size and
      touches no minute of the window. */
  lemma EvictionFits(limits: Limits, m: Candles, log: seq<Arrival>, minutesToStore: nat, current: int, m': Candles)
    requires IsMinute(current) && |m| == minutesToStore + 1
    requires Agrees(limits, m, log, Oldest(current, minutesToStore), current)
    requires Evicted(m, Oldest(current, minutesToStore), m')
    ensures |m'| == minutesToStore
    ensures Agrees(limits, m', log, Oldest(current, minutesToStore), current)
  {
    var oldest := Oldest(current, minutesToStore);
    assert |m.Keys| == |m|;
    if forall k :: k in m ==> !IsStale(m[k], oldest) {
      MinutesInWindow(m.Keys, current, minutesToStore);
    }
    var k :| k in m && IsStale(m[k], oldest) && m' == m - {k};
    assert m'.Keys == m.Keys - {k};
    assert |m'.Keys| == |m'|;
  }

  lemma StepKeeps(limits: Limits, minutesToStore: nat, m: Candles, log: seq<Arrival>, a: Arrival, m': Candles,
                  current: int)
    requires a.trade.timestamp >= 0 && a.now >= 0 && MinuteFloor(a.trade.timestamp) <= MinuteFloor(a.now)
    requires current <= MinuteFloor(a.now) && |m| <= minutesToStore
    requires Agrees(limits, m, log, Oldest(current, minutesToStore), current)
    requires Step(limits, minutesToStore, m, a.trade, a.now, m')
    ensures |m'| <= minutesToStore
    ensures Agrees(limits, m', log + [a], Threshold(a.now, minutesToStore), MinuteFloor(a.now))
  {
    var now, oldest := MinuteFloor(a.now), Threshold(a.now, minutesToStore);
    FloorOfTimestamp(a.now);
    FloorOfTimestamp(a.trade.timestamp);
    MinutesBeforeAreMinutes(now, minutesToStore - 1);
    BelowMinute(a.trade.timestamp, oldest);
    WindowMoves(limits, m, log, minutesToStore, current, now);
    if a.trade.timestamp < oldest {
      OldTradeAgrees(limits, m, log, a, oldest, now);
    } else {
      AcceptedTradeKeeps(limits, minutesToStore, m, log, a, m', now);
    }
  }

  lemma WindowMoves(limits: Limits, m: Candles, log: seq<Arrival>, minutesToStore: nat, current: int, now: int)
    requires Agrees(limits, m, log, Oldest(current, minutesToStore), current) && current <= now
    ensures Agrees(limits, m, log, Oldest(now, minutesToStore), now)
  {
  }

  lemma AcceptedTradeKeeps(limits: Limits, minutesToStore: nat, m: Candles, log: seq<Arrival>, a: Arrival, m': Candles,
                           now: int)
    requires a.trade.timestamp >= 0 && IsMinute(now) && |m| <= minutesToStore
    requires Oldest(now, minutesToStore) <= MinuteFloor(a.trade.timestamp) <= now
    requires IsMinute(MinuteFloor(a.trade.timestamp))
    requires Agrees(limits, m, log, Oldest(now, minutesToStore), now)
    requires var added := WithTrade(limits, m, a.trade);
             if |added| > minutesToStore then Evicted(added, Oldest(now, minutesToStore), m') else m' == added
    ensures |m'| <= minutesToStore
    ensures Agrees(limits, m', log + [a], Oldest(now, minutesToStore), now)
  {
    var added := WithTrade(limits, m, a.trade);
    TradeAgrees(limits, m, log, a, Oldest(now, minutesToStore), now);
    assert added.Keys == m.Keys + {MinuteFloor(a.trade.timestamp)};
    assert |added.Keys| == |added| && |m.Keys| == |m|;
    if |added| > minutesToStore {
      EvictionFits(limits, added, log + [a], minutesToStore, now, m');
    }
  }

  /** The current minute when the log ends. */
  function Current(log: seq<Arrival>): int { if log == [] then 0 else MinuteFloor(log[|log| - 1].now) }

  /** After every call of every run: never more candlesticks than minutes to store, and each minute of the
      window holds exactly the fold of its logged trades. */
  lemma {:induction false} RunAgrees(limits: Limits, minutesToStore: nat, log: seq<Arrival>, maps: seq<Candles>)
    requires ValidLog(log) && Run(limits, minutesToStore, log, maps)
    ensures |maps[|log|]| <= minutesToStore
    ensures Agrees(limits, maps[|log|], log, Oldest(Current(log), minutesToStore), Current(log))
    decreases |log|
  {
    if log == [] {
      EmptyAgrees(limits, minutesToStore);
    } else {
      RunPrefix(limits, minutesToStore, log, maps);
      RunAgrees(limits, minutesToStore, log[..|log| - 1], maps[..|log|]);
      LastStepKeeps(limits, minutesToStore, log, maps[|log| - 1], maps[|log|]);
    }
  }

  lemma EmptyAgrees(limits: Limits, minutesToStore: nat)
    ensures Agrees(limits, map[], [], Oldest(0, minutesToStore), 0)
  {
  }

  lemma RunPrefix(limits: Limits, minutesToStore: nat, log: seq<Arrival>, maps: seq<Candles>)
    requires log != [] && ValidLog(log) && Run(limits, minutesToStore, log, maps)
    ensures ValidLog(log[..|log| - 1]) && Run(limits, minutesToStore, log[..|log| - 1], maps[..|log|])
    ensures maps[..|log|][|log| - 1] == maps[|log| - 1]
    ensures Step(limits, minutesToStore, maps[|log| - 1], log[|log| - 1].trade, log[|log| - 1].now, maps[|log|])
  {
  }

  lemma LastStepKeeps(limits: Limits, minutesToStore: nat, log: seq<Arrival>, m: Candles, m': Candles)
    requires log != [] && ValidLog(log) && |m| <= minutesToStore
    requires var init := log[..|log| - 1];
             Agrees(limits, m, init, Oldest(Current(init), minutesToStore), Current(init))
    requires Step(limits, minutesToStore, m, log[|log| - 1].trade, log[|log| - 1].now, m')
    ensures |m'| <= minutesToStore
    ensures Agrees(limits, m', log, Oldest(Current(log), minutesToStore), Current(log))
  {
    var n := |log| - 1;
    assert log == log[..n] + [log[n]];
    ClockMoves(log);
    StepKeeps(limits, minutesToStore, m, log[..n], log[n], m', Current(log[..n]));
  }

  lemma ClockMoves(log: seq<Arrival>)
    requires log != [] && ValidLog(log)
    ensures Current(log[..|log| - 1]) <= Current(log)
  {
    var n := |log| - 1;
    if n > 0 {
      FloorMonotone(log[n - 1].now, log[n].now);
    } else {
      FloorOfTimestamp(log[n].now);
    }
  }

  /** What GetCandlestick finds, at any later time, for a minute still in the window. */
  lemma WindowMinuteExact(limits: Limits, minutesToStore: nat, log: seq<Arrival>, maps: seq<Candles>, now: int, k: int)
    requires ValidLog(log) && Run(limits, minutesToStore, log, maps)
    requires Current(log) <= MinuteFloor(now) && k >= Threshold(now, minutesToStore)
    ensures var m := maps[|log|];
            if TradesOf(log, k) == [] then k !in m else k in m && m[k] == Fold(limits, TradesOf(log, k))
  {
    RunAgrees(limits, minutesToStore, log, maps);
  }

  /** What the reported numbers mean, in terms of all logged trades of a minute still in the window. */
  lemma ReportedCandle(limits: Limits, minutesToStore: nat, log: seq<Arrival>, maps: seq<Candles>, now: int, k: int)
    requires ValidLog(log) && Run(limits, minutesToStore, log, maps)
    requires Current(log) <= MinuteFloor(now) && k >= Threshold(now, minutesToStore)
    requires TradesOf(log, k) != [] && InRange(limits, TradesOf(log, k))
    ensures k in maps[|log|] && Describes(limits, Static(maps[|log|][k]), TradesOf(log, k))
  {
    WindowMinuteExact(limits, minutesToStore, log, maps, now, k);
    FoldDescribes(limits, TradesOf(log, k));
  }

  /** Open of the first to arrive of the earliest, close of the last to arrive of the latest, the extreme prices,
      and the whole volume; the highest price is wrong only if no price reaches the smallest positive normal number. */
  ghost predicate Describes(limits: Limits, r: StaticCandle, ts: seq<Trade>) {
    && (exists i :: FirstEarliest(ts, i) && r.open == ts[i].price)
    && (exists i :: LastLatest(ts, i) && r.close == ts[i].price)
    && IsLowest(ts, r.min)
    && (IsHighest(ts, r.max) || (r.max == limits.min && forall i :: 0 <= i < |ts| ==> ts[i].price < limits.min))
    && r.volume * 1000000.0 == TotalVolume(ts) as real
  }

  lemma FoldDescribes(limits: Limits, ts: seq<Trade>)
    requires ts != [] && InRange(limits, ts)
    ensures Describes(limits, Static(Fold(limits, ts)), ts)
  {
    FoldOpens(limits, ts);
    FoldCloses(limits, ts);
    FoldLowest(limits, ts);
    FoldHighestIff(limits, ts);
    FoldVolume(limits, ts);
  }
}
