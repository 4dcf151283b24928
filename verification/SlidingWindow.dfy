/** The lazily pruned moving average against recomputation from the whole log of calls. */
module SlidingWindow {
  import opened Ledgers
  import opened MovingAverage
  import opened Sequences
  import opened Timestamps
  import opened Trades

  /** A call and the clock it read. */
  datatype Event =
    | Arrived(now: int, trade: Trade)
    | Queried(now: int)

  type Log = seq<Event>

  /** The minute whose entry a call may create. */
  function EventMinute(e: Event): int {
    match e
    case Arrived(_, t) => MinuteFloor(t.timestamp)
    case Queried(now) => MinuteFloor(now)
  }

  /** What a call adds if it is not refused. */
  function ShareOf(e: Event): Share {
    match e
    case Arrived(_, t) => Share(EventMinute(e), Contribution(t), [t])
    case Queried(_) => Share(EventMinute(e), EMPTY, [])
  }

  /** All calls, refused or not. */
  function Shares(log: Log): Ledger { if log == [] then [] else Shares(Init(log)) + [ShareOf(Last(log))] }

  /** Some trade of this minute arrived, or some query ran in it. */
  predicate Touched(log: Log, minute: int) { minute in Minutes(Shares(log)) }

  // ----- runs -----

  function Clock(log: Log): int { if log == [] then 0 else Last(log).now }

  /** The clock does not run backward, and no trade is stamped in a minute that has not begun. */
  predicate ValidLog(log: Log) {
    log == [] ||
    (&& ValidLog(Init(log))
     && Clock(Init(log)) <= Last(log).now
     && (Last(log).Arrived? ==>
           0 <= Last(log).trade.timestamp && MinuteFloor(Last(log).trade.timestamp) <= MinuteFloor(Last(log).now)))
  }

  ghost function After(a: Averages, minutesToStore: nat, e: Event): Averages {
    match e
    case Arrived(now, t) => AfterTrade(a, minutesToStore, t, now)
    case Queried(now) => AfterQuery(a, minutesToStore, now)
  }

  ghost function Replay(minutesToStore: nat, log: Log): Averages {
    if log == [] then Averages(map[], EMPTY) else After(Replay(minutesToStore, Init(log)), minutesToStore, Last(log))
  }

  // ----- a call adds its share to one entry and then prunes -----

  /** A call that came too late. */
  predicate Refused(e: Event, minutesToStore: nat) {
    e.Arrived? && e.trade.timestamp < Threshold(e.now, minutesToStore)
  }

  function WithShare(a: Averages, share: Share): Averages {
    Averages(a.perMinute[share.minute := At(a.perMinute, share.minute).Plus(share.value)], a.total.Plus(share.value))
  }

  lemma CallAddsShare(a: Averages, minutesToStore: nat, e: Event)
    ensures After(a, minutesToStore, e) ==
              if Refused(e, minutesToStore) then a
              else PrunedIfLarge(WithShare(a, ShareOf(e)), minutesToStore, Threshold(e.now, minutesToStore))
  {
    if e.Queried? {
      QueryIsShare(a, e);
    } else {
      TradeIsShare(a, e);
    }
  }

  lemma QueryIsShare(a: Averages, e: Event)
    requires e.Queried?
    ensures WithMinute(a, MinuteFloor(e.now)) == WithShare(a, ShareOf(e))
  {
    PlusEmpty(At(a.perMinute, MinuteFloor(e.now)));
    PlusEmpty(a.total);
  }

  lemma TradeIsShare(a: Averages, e: Event)
    requires e.Arrived?
    ensures WithTrade(a, e.trade) == WithShare(a, ShareOf(e))
  {
  }

  // ----- totals: no assumption on clocks and timestamps -----

  lemma ShareKeepsTotals(a: Averages, share: Share)
    requires a.total == Total(a.perMinute)
    ensures WithShare(a, share).total == Total(WithShare(a, share).perMinute)
  {
    ShareAdded(a.perMinute, share.minute, share.value);
  }

  lemma PruneKeepsTotals(a: Averages, minutesToStore: nat, threshold: int)
    requires a.total == Total(a.perMinute)
    ensures PrunedIfLarge(a, minutesToStore, threshold).total
         == Total(PrunedIfLarge(a, minutesToStore, threshold).perMinute)
  {
    if |a.perMinute| > minutesToStore {
      TotalPartition(a.perMinute, threshold);
      TakeBack(Total(Kept(a.perMinute, threshold)), Total(Stale(a.perMinute, threshold)));
    }
  }

  lemma TakeBack(kept: SimpleAverage, stale: SimpleAverage)
    ensures kept.Plus(stale).Minus(stale) == kept
  {
  }

  /** Every call keeps the totals equal to the sums over the map, whatever clock it reads and however its trade is
      stamped. */
  lemma CallKeepsTotals(a: Averages, minutesToStore: nat, e: Event)
    requires a.total == Total(a.perMinute)
    ensures After(a, minutesToStore, e).total == Total(After(a, minutesToStore, e).perMinute)
  {
    CallAddsShare(a, minutesToStore, e);
    ShareKeepsTotals(a, ShareOf(e));
    PruneKeepsTotals(WithShare(a, ShareOf(e)), minutesToStore, Threshold(e.now, minutesToStore));
  }

  /** So after any calls at all the totals are the sums over the map. */
  lemma {:induction false} TotalsAlways(minutesToStore: nat, log: Log)
    ensures Replay(minutesToStore, log).total == Total(Replay(minutesToStore, log).perMinute)
  {
    if log != [] {
      TotalsAlways(minutesToStore, Init(log));
      CallKeepsTotals(Replay(minutesToStore, Init(log)), minutesToStore, Last(log));
    }
  }

  // ----- the window: what every call keeps -----

  /** Entries from the window agree with the ledger; entries before it may linger. */
  ghost predicate Agrees(m: PerMinute, ledger: Ledger, oldest: int, current: int) {
    && (forall k :: k in m ==> IsMinute(k) && k <= current)
    && (forall k :: k >= oldest ==> (k in m <==> k in Minutes(ledger)))
    && (forall k :: k in m && k >= oldest ==> m[k] == MinuteTotal(ledger, k))
  }

  /** The invariant of runs: entries in the window match the log, and there are never more entries than minutes to
      store. */
  ghost predicate Consistent(a: Averages, ledger: Ledger, minutesToStore: nat, current: int) {
    && Agrees(a.perMinute, ledger, Oldest(current, minutesToStore), current)
    && |a.perMinute| <= minutesToStore
  }

  /** Once a minute has passed, what is known about the log still holds. */
  lemma WindowMoves(m: PerMinute, ledger: Ledger, oldest: int, current: int, oldest': int, current': int)
    requires Agrees(m, ledger, oldest, current) && oldest <= oldest' && current <= current'
    ensures Agrees(m, ledger, oldest', current')
  {
  }

  /** Adding a share to its minute's entry keeps the map in step with the longer ledger. */
  lemma EntryAdded(m: PerMinute, ledger: Ledger, share: Share, oldest: int, current: int)
    requires Agrees(m, ledger, oldest, current) && oldest <= share.minute <= current && IsMinute(share.minute)
    ensures Agrees(m[share.minute := At(m, share.minute).Plus(share.value)], ledger + [share], oldest, current)
  {
    MinutesGrow(ledger, share);
    EntryOfShare(m, ledger, share);
    forall j: int
      ensures MinuteTotal(ledger + [share], j)
           == if share.minute == j then MinuteTotal(ledger, j).Plus(share.value) else MinuteTotal(ledger, j)
    {
      MinuteTotalGrows(ledger, share, j);
    }
  }

  lemma EntryOfShare(m: PerMinute, ledger: Ledger, share: Share)
    requires share.minute in m <==> share.minute in Minutes(ledger)
    requires share.minute in m ==> m[share.minute] == MinuteTotal(ledger, share.minute)
    ensures At(m, share.minute).Plus(share.value) == MinuteTotal(ledger + [share], share.minute)
  {
    MinuteTotalGrows(ledger, share, share.minute);
    if share.minute !in m {
      AbsentIsEmpty(ledger, share.minute);
    }
  }

  /** A share before the window changes nothing in it. */
  lemma ShareIgnored(m: PerMinute, ledger: Ledger, share: Share, oldest: int, current: int)
    requires Agrees(m, ledger, oldest, current) && share.minute < oldest
    ensures Agrees(m, ledger + [share], oldest, current)
  {
    MinutesGrow(ledger, share);
    forall j: int | j >= oldest
      ensures MinuteTotal(ledger + [share], j) == MinuteTotal(ledger, j)
    {
      MinuteTotalGrows(ledger, share, j);
    }
  }

  lemma PrunedConsistent(a: Averages, ledger: Ledger, minutesToStore: nat, current: int)
    requires IsMinute(current) && Agrees(a.perMinute, ledger, Oldest(current, minutesToStore), current)
    ensures Consistent(PrunedIfLarge(a, minutesToStore, Oldest(current, minutesToStore)), ledger, minutesToStore,
                       current)
  {
    if |a.perMinute| > minutesToStore {
      var kept := Kept(a.perMinute, Oldest(current, minutesToStore));
      MinutesInWindow(kept.Keys, current, minutesToStore);
      assert |kept.Keys| == |kept|;
    }
  }

  /** Every call keeps the invariant, whatever the order in which late trades arrive. */
  lemma CallKeepsConsistent(a: Averages, log: Log, window: nat, current: int, e: Event)
    requires ValidLog(log + [e]) && MinuteFloor(Clock(log)) == current
    requires Consistent(a, Shares(log), window + 1, current)
    ensures Consistent(After(a, window + 1, e), Shares(log + [e]), window + 1, MinuteFloor(e.now))
  {
    var now := MinuteFloor(e.now);
    ClockMoves(log, e);
    WindowMoves(a.perMinute, Shares(log), Oldest(current, window + 1), current, Oldest(now, window + 1), now);
    SharesGrow(log, e);
    CallInWindow(a, Shares(log), window, e);
  }

  lemma SharesGrow(log: Log, e: Event)
    ensures Shares(log + [e]) == Shares(log) + [ShareOf(e)]
  {
    Appended(log, e);
  }

  lemma CallInWindow(a: Averages, ledger: Ledger, window: nat, e: Event)
    requires var now := MinuteFloor(e.now);
             && IsMinute(now) && IsMinute(EventMinute(e)) && EventMinute(e) <= now
             && (e.Arrived? ==> e.trade.timestamp >= 0)
             && Agrees(a.perMinute, ledger, Oldest(now, window + 1), now) && |a.perMinute| <= window + 1
    ensures Consistent(After(a, window + 1, e), ledger + [ShareOf(e)], window + 1, MinuteFloor(e.now))
  {
    CallAddsShare(a, window + 1, e);
    RefusedIff(e, window);
    if Refused(e, window + 1) {
      ShareIgnored(a.perMinute, ledger, ShareOf(e), Threshold(e.now, window + 1), MinuteFloor(e.now));
    } else {
      ShareKeepsConsistent(a, ledger, ShareOf(e), window, MinuteFloor(e.now));
    }
  }

  lemma ShareKeepsConsistent(a: Averages, ledger: Ledger, share: Share, window: nat, now: int)
    requires IsMinute(now) && Agrees(a.perMinute, ledger, Oldest(now, window + 1), now)
    requires Oldest(now, window + 1) <= share.minute <= now && IsMinute(share.minute)
    ensures Consistent(PrunedIfLarge(WithShare(a, share), window + 1, Oldest(now, window + 1)), ledger + [share],
                       window + 1, now)
  {
    EntryAdded(a.perMinute, ledger, share, Oldest(now, window + 1), now);
    PrunedConsistent(WithShare(a, share), ledger + [share], window + 1, now);
  }

  /** From the epoch on, a call is refused exactly when its minute is before the window. */
  lemma RefusedIff(e: Event, window: nat)
    requires IsMinute(MinuteFloor(e.now)) && (e.Arrived? ==> e.trade.timestamp >= 0)
    ensures Refused(e, window + 1) <==> EventMinute(e) < Oldest(MinuteFloor(e.now), window + 1)
  {
    MinutesBeforeAreMinutes(MinuteFloor(e.now), window);
    if e.Arrived? {
      BelowMinute(e.trade.timestamp, Threshold(e.now, window + 1));
    }
  }

  lemma ClockMoves(log: Log, e: Event)
    requires ValidLog(log + [e])
    ensures ValidLog(log) && MinuteFloor(Clock(log)) <= MinuteFloor(e.now)
    ensures IsMinute(MinuteFloor(e.now)) && IsMinute(EventMinute(e)) && EventMinute(e) <= MinuteFloor(e.now)
    ensures e.Arrived? ==> e.trade.timestamp >= 0
  {
    Appended(log, e);
    ClockNonNegative(log);
    FloorMonotone(Clock(log), e.now);
    FloorOfTimestamp(e.now);
    if e.Arrived? {
      FloorOfTimestamp(e.trade.timestamp);
    }
  }

  lemma {:induction false} ClockNonNegative(log: Log)
    requires ValidLog(log)
    ensures Clock(log) >= 0
  {
    if log != [] {
      ClockNonNegative(Init(log));
    }
  }

  lemma {:induction false} RunsConsistent(window: nat, log: Log)
    requires ValidLog(log)
    ensures Consistent(Replay(window + 1, log), Shares(log), window + 1, MinuteFloor(Clock(log)))
  {
    if log != [] {
      RunsConsistent(window, Init(log));
      SplitLast(log);
      CallKeepsConsistent(Replay(window + 1, Init(log)), Init(log), window, MinuteFloor(Clock(Init(log))), Last(log));
    }
  }

  // ----- what a query reports -----

  /** A map that has exactly the minutes of a window, each with its total, adds up to the window. */
  lemma EntriesSumToWindow(m: PerMinute, ledger: Ledger, lo: int, hi: int)
    requires forall k :: k in m ==> lo <= k < hi && m[k] == MinuteTotal(ledger, k)
    requires forall k :: lo <= k < hi && k in Minutes(ledger) ==> k in m
    ensures Total(m) == WindowTotal(ledger, lo, hi)
  {
    forall i | 0 <= i < |ledger|
      ensures ledger[i].minute in m.Keys <==> lo <= ledger[i].minute < hi
    {
      MinutesContain(ledger, i);
    }
    assert m == EntriesOf(m.Keys, ledger);
    EntriesTotal(m.Keys, ledger);
    WindowIsOnly(ledger, lo, hi, m.Keys);
  }

  /** The window a query at this time is documented to cover: the given number of past minutes. */
  function Documented(log: Log, window: nat, now: int): SimpleAverage {
    WindowTotal(Shares(log), MinuteBefore(MinuteFloor(now), window), MinuteFloor(now))
  }

  /** What lingers from before the window when a query has been answered. */
  ghost function Leftover(log: Log, window: nat, now: int): SimpleAverage {
    var after := AfterQuery(Replay(window + 1, log), window + 1, now);
    Total(Stale(after.perMinute, MinuteBefore(MinuteFloor(now), window)))
  }

  /** Exactly what a query reports, after any run: the documented window plus the leftovers. */
  lemma QueryReports(log: Log, window: nat, now: int)
    requires ValidLog(log) && Clock(log) <= now
    ensures Reported(Replay(window + 1, log), window + 1, now)
         == Documented(log, window, now).Plus(Leftover(log, window, now))
    ensures Reported(Replay(window + 1, log), window + 1, now) == Documented(log, window, now)
            <==> Leftover(log, window, now) == EMPTY
  {
    QueryAccounts(log, window, now);
    QueriesAddNothing(log, now, MinuteBefore(MinuteFloor(now), window), MinuteFloor(now));
    TotalsDiffer(Documented(log, window, now), Leftover(log, window, now));
  }

  /** So a query is exact exactly when it finds the map too large, and prunes, or what it finds from before the
      window sums to nothing. */
  lemma QueryExactIff(log: Log, window: nat, now: int)
    requires ValidLog(log) && Clock(log) <= now
    ensures var found := WithMinute(Replay(window + 1, log), MinuteFloor(now)).perMinute;
            Reported(Replay(window + 1, log), window + 1, now) == Documented(log, window, now) <==>
              |found| > window + 1 || Total(Stale(found, MinuteBefore(MinuteFloor(now), window))) == EMPTY
  {
    QueryReports(log, window, now);
    LeftoverUnlessPruned(WithMinute(Replay(window + 1, log), MinuteFloor(now)), window + 1,
                         MinuteBefore(MinuteFloor(now), window));
  }

  lemma LeftoverUnlessPruned(a: Averages, minutesToStore: nat, oldest: int)
    ensures Total(Stale(PrunedIfLarge(a, minutesToStore, oldest).perMinute, oldest)) ==
              if |a.perMinute| > minutesToStore then EMPTY else Total(Stale(a.perMinute, oldest))
  {
    assert Stale(Kept(a.perMinute, oldest), oldest).Keys == {};
  }

  lemma TotalsDiffer(a: SimpleAverage, b: SimpleAverage)
    ensures a.Plus(b) == a <==> b == EMPTY
  {
  }

  lemma QueryAccounts(log: Log, window: nat, now: int)
    requires ValidLog(log) && Clock(log) <= now
    ensures Reported(Replay(window + 1, log), window + 1, now) ==
              WindowTotal(Shares(log + [Queried(now)]), MinuteBefore(MinuteFloor(now), window), MinuteFloor(now))
              .Plus(Leftover(log, window, now))
  {
    QueryConsistent(log, window, now);
    ConsistentReport(AfterQuery(Replay(window + 1, log), window + 1, now), Shares(log + [Queried(now)]), window,
                     MinuteFloor(now));
  }

  lemma QueryConsistent(log: Log, window: nat, now: int)
    requires ValidLog(log) && Clock(log) <= now
    ensures var after := AfterQuery(Replay(window + 1, log), window + 1, now);
            && Consistent(after, Shares(log + [Queried(now)]), window + 1, MinuteFloor(now))
            && after.total == Total(after.perMinute)
    ensures Touched(log + [Queried(now)], MinuteFloor(now))
  {
    Appended(log, Queried(now));
    RunsConsistent(window, log + [Queried(now)]);
    TotalsAlways(window + 1, log + [Queried(now)]);
    MinutesGrow(Shares(log), ShareOf(Queried(now)));
  }

  lemma QueriesAddNothing(log: Log, now: int, lo: int, hi: int)
    ensures WindowTotal(Shares(log + [Queried(now)]), lo, hi) == WindowTotal(Shares(log), lo, hi)
  {
    Appended(log, Queried(now));
    WindowTotalGrows(Shares(log), ShareOf(Queried(now)), lo, hi);
    PlusEmpty(WindowTotal(Shares(log), lo, hi));
  }

  lemma ConsistentReport(after: Averages, ledger: Ledger, window: nat, current: int)
    requires Consistent(after, ledger, window + 1, current) && current in Minutes(ledger)
    requires after.total == Total(after.perMinute)
    ensures after.total.Minus(At(after.perMinute, current)) ==
              WindowTotal(ledger, MinuteBefore(current, window), current)
              .Plus(Total(Stale(after.perMinute, MinuteBefore(current, window))))
  {
    var oldest := MinuteBefore(current, window);
    TotalPartition(after.perMinute, oldest);
    WindowSplits(after.perMinute, ledger, oldest, current);
    MinusLaws(after.perMinute[current], WindowTotal(ledger, oldest, current), Total(Stale(after.perMinute, oldest)));
  }

  /** The entries of the window are the current minute's and those the query is about. */
  lemma WindowSplits(m: PerMinute, ledger: Ledger, oldest: int, current: int)
    requires Agrees(m, ledger, oldest, current) && current in Minutes(ledger) && oldest <= current
    ensures current in m
    ensures Total(Kept(m, oldest)) == m[current].Plus(WindowTotal(ledger, oldest, current))
  {
    TotalSplit(Kept(m, oldest), current);
    EntriesSumToWindow(Kept(m, oldest) - {current}, ledger, oldest, current);
  }

  /** Every minute of the window saw a trade stamped in it arrive, or a query run in it. */
  predicate Covered(log: Log, window: nat, now: int) {
    forall j :: 1 <= j <= window ==> Touched(log, MinuteBefore(MinuteFloor(now), j))
  }

  /** The sliding window theorem: when every past minute of the window was touched, a query reports exactly
      the logged trades of those minutes, in whatever order and however late they arrived. */
  lemma CoveredWindowExact(log: Log, window: nat, now: int)
    requires ValidLog(log) && Clock(log) <= now && Covered(log, window, now)
    ensures Reported(Replay(window + 1, log), window + 1, now) == Documented(log, window, now)
  {
    QueryReports(log, window, now);
    CoveredHasNoLeftover(log, window, now);
    PlusEmpty(Documented(log, window, now));
  }

  lemma CoveredHasNoLeftover(log: Log, window: nat, now: int)
    requires ValidLog(log) && Clock(log) <= now && Covered(log, window, now)
    ensures Leftover(log, window, now) == EMPTY
  {
    AskedWindow(log, window, now);
    NoStaleSurvives(WithMinute(Replay(window + 1, log), MinuteFloor(now)), window, MinuteFloor(now));
  }

  lemma AskedWindow(log: Log, window: nat, now: int)
    requires ValidLog(log) && Clock(log) <= now && Covered(log, window, now)
    ensures forall j :: 0 <= j < window + 1 ==>
              MinuteBefore(MinuteFloor(now), j) in WithMinute(Replay(window + 1, log), MinuteFloor(now)).perMinute.Keys
  {
    ClockOrder(log, now);
    RunsConsistent(window, log);
    FullWindow(Replay(window + 1, log), Shares(log), window, MinuteFloor(Clock(log)), MinuteFloor(now));
  }

  lemma ClockOrder(log: Log, now: int)
    requires ValidLog(log) && Clock(log) <= now
    ensures MinuteFloor(Clock(log)) <= MinuteFloor(now)
  {
    ClockNonNegative(log);
    FloorMonotone(Clock(log), now);
  }

  lemma FullWindow(a: Averages, ledger: Ledger, window: nat, last: int, current: int)
    requires Consistent(a, ledger, window + 1, last) && last <= current
    requires forall j :: 1 <= j <= window ==> MinuteBefore(current, j) in Minutes(ledger)
    ensures forall j :: 0 <= j < window + 1 ==> MinuteBefore(current, j) in WithMinute(a, current).perMinute.Keys
  {
    WindowMoves(a.perMinute, ledger, Oldest(last, window + 1), last, MinuteBefore(current, window), current);
  }

  lemma NoStaleSurvives(asked: Averages, window: nat, current: int)
    requires forall j :: 0 <= j < window + 1 ==> MinuteBefore(current, j) in asked.perMinute.Keys
    ensures var oldest := MinuteBefore(current, window);
            Total(Stale(PrunedIfLarge(asked, window + 1, oldest).perMinute, oldest)) == EMPTY
  {
    var oldest := MinuteBefore(current, window);
    if k :| k in asked.perMinute && k < oldest {
      StaleMeansLarge(asked.perMinute, current, window, k);
    }
    assert Stale(PrunedIfLarge(asked, window + 1, oldest).perMinute, oldest).Keys == {};
  }

  /** A lingering entry beside a full window makes the map too large. */
  lemma StaleMeansLarge(m: PerMinute, current: int, window: nat, k: int)
    requires forall j :: 0 <= j < window + 1 ==> MinuteBefore(current, j) in m.Keys
    requires k in m && k < MinuteBefore(current, window)
    ensures |m| > window + 1
  {
    AllMinutesInWindow(m.Keys - {k}, current, window + 1);
    assert |m.Keys| == |m|;
  }
}
