/** Runs that show why the documented usage rule of the moving average is not enough, and what pruning may find. */
module UsageRule {
  import opened Ledgers
  import opened MovingAverage
  import opened RetainedTrades
  import opened Sequences
  import opened Sets
  import opened SlidingWindow
  import opened Timestamps
  import opened Trades

  /** The rule in the class comment: some call in every minute of the window and in the current one, which
      has the query itself. */
  predicate CalledEveryMinute(log: Log, window: nat, now: int) {
    forall j :: 1 <= j <= window ==>
      exists i :: 0 <= i < |log| && MinuteFloor(log[i].now) == MinuteBefore(MinuteFloor(now), j)
  }

  // ----- late trades linger -----

  /** The same trade arrives in its own minute and in the next one. */
  function LateLog(t: Trade, k: int): Log { [Arrived(t.timestamp, t), Arrived(k + 60000, t)] }

  predicate InMinute(t: Trade, k: int) { t.timestamp >= 0 && MinuteFloor(t.timestamp) == k }

  lemma MinuteStarts(t: Trade, k: int)
    requires InMinute(t, k)
    ensures IsMinute(k) && 0 <= k <= t.timestamp < k + 60000
    ensures MinuteFloor(k + 60000) == k + 60000 && MinuteFloor(k + 120000) == k + 120000
  {
    FloorOfTimestamp(t.timestamp);
    FloorOfTimestamp(k + 60000);
    FloorOfTimestamp(k + 120000);
  }

  /** In any minute: some call runs in every minute, yet a query two minutes later over one past minute still counts
      both arrivals, where it should count neither.  Its answer is right only if the trade adds nothing. */
  lemma LateTradesLinger(t: Trade, k: int)
    requires InMinute(t, k)
    ensures var log, now, c := LateLog(t, k), k + 120000, Contribution(t);
            var reported := Reported(Replay(2, log), 2, now);
            && ValidLog(log) && CalledEveryMinute(log, 1, now)
            && Documented(log, 1, now) == EMPTY && reported == c.Plus(c)
            && (reported == Documented(log, 1, now) <==> c == EMPTY)
  {
    MinuteStarts(t, k);
    LateIsValid(t, k);
    LateDocumented(t, k);
    LateReported(t, k);
    Doubled(Contribution(t));
  }

  lemma Doubled(c: SimpleAverage)
    ensures c.Plus(c) == EMPTY <==> c == EMPTY
    ensures EMPTY.Plus(c).Plus(c) == c.Plus(c)
  {
  }

  lemma ValidGrows(log: Log, e: Event)
    requires ValidLog(log) && Clock(log) <= e.now
    requires e.Arrived? ==> 0 <= e.trade.timestamp && MinuteFloor(e.trade.timestamp) <= MinuteFloor(e.now)
    ensures ValidLog(log + [e]) && Clock(log + [e]) == e.now
  {
    Appended(log, e);
  }

  lemma LateIsValid(t: Trade, k: int)
    requires InMinute(t, k)
    ensures ValidLog(LateLog(t, k)) && CalledEveryMinute(LateLog(t, k), 1, k + 120000)
  {
    MinuteStarts(t, k);
    ValidGrows([], Arrived(t.timestamp, t));
    ValidGrows([Arrived(t.timestamp, t)], Arrived(k + 60000, t));
    assert [] + [Arrived(t.timestamp, t)] == [Arrived(t.timestamp, t)];
    assert [Arrived(t.timestamp, t)] + [Arrived(k + 60000, t)] == LateLog(t, k);
    assert MinuteFloor(LateLog(t, k)[1].now) == MinuteBefore(MinuteFloor(k + 120000), 1);
  }

  lemma LateShares(t: Trade, k: int)
    requires InMinute(t, k)
    ensures var share := Share(k, Contribution(t), [t]); Shares(LateLog(t, k)) == [share, share]
  {
    SharesGrow([], Arrived(t.timestamp, t));
    SharesGrow([Arrived(t.timestamp, t)], Arrived(k + 60000, t));
    assert [] + [Arrived(t.timestamp, t)] == [Arrived(t.timestamp, t)];
    assert [Arrived(t.timestamp, t)] + [Arrived(k + 60000, t)] == LateLog(t, k);
  }

  lemma LateDocumented(t: Trade, k: int)
    requires InMinute(t, k)
    ensures Documented(LateLog(t, k), 1, k + 120000) == EMPTY
  {
    MinuteStarts(t, k);
    LateShares(t, k);
    TwoOutside(Share(k, Contribution(t), [t]), k + 60000, k + 120000);
  }

  lemma TwoOutside(share: Share, lo: int, hi: int)
    requires share.minute < lo
    ensures WindowTotal([share, share], lo, hi) == EMPTY
  {
    WindowTotalGrows([], share, lo, hi);
    WindowTotalGrows([share], share, lo, hi);
    assert [] + [share] == [share] && [share] + [share] == [share, share];
  }

  lemma LateRetained(t: Trade, k: int)
    requires InMinute(t, k)
    ensures var share := Share(k, Contribution(t), [t]); Retained(2, LateLog(t, k)) == [share, share]
  {
    var share, d, e := Share(k, Contribution(t), [t]), Arrived(t.timestamp, t), Arrived(k + 60000, t);
    MinuteStarts(t, k);
    assert Init(LateLog(t, k)) == [d] && Last(LateLog(t, k)) == e && Init([d]) == [] && Last([d]) == d;
    assert ShareOf(d) == share && ShareOf(e) == share;
    assert !Refused(d, 2) && !Refused(e, 2);
    OneMinute(share);
    assert Retained(2, [d]) == [] + [share] == [share];
    assert [share] + [share] == [share, share];
  }

  lemma OneMinute(share: Share)
    ensures Minutes([share]) == {share.minute} == Minutes([share, share])
  {
    MinutesGrow([], share);
    MinutesGrow([share], share);
    assert [] + [share] == [share] && [share] + [share] == [share, share];
  }

  lemma LateReported(t: Trade, k: int)
    requires InMinute(t, k)
    ensures Reported(Replay(2, LateLog(t, k)), 2, k + 120000) == Contribution(t).Plus(Contribution(t))
  {
    var share, now := Share(k, Contribution(t), [t]), k + 120000;
    MinuteStarts(t, k);
    LateRetained(t, k);
    Appended(LateLog(t, k), Queried(now));
    QueryKeepsTwo(share, ShareOf(Queried(now)));
    ReportedIsSum(2, LateLog(t, k), now);
  }

  /** Two minutes are not too many, so the query prunes nothing. */
  lemma QueryKeepsTwo(share: Share, query: Share)
    requires share.minute != query.minute
    ensures var ledger := [share, share] + [query];
            && (forall threshold :: Trimmed(ledger, 2, threshold) == ledger)
            && Sum(Only(ledger, Minutes(ledger) - {query.minute})) == share.value.Plus(share.value)
  {
    var ledger := [share, share] + [query];
    OneMinute(share);
    MinutesGrow([share, share], query);
    assert Minutes(ledger) - {query.minute} == {share.minute};
    Appended([share, share], query);
    OnlyAll([share, share], {share.minute});
    assert Only(ledger, {share.minute}) == [share, share];
    SumGrows([], share);
    SumGrows([share], share);
    assert [] + [share] == [share] && [share] + [share] == [share, share];
    Doubled(share.value);
  }

  // ----- pruning may find any number of stale entries -----

  /** A query in each of the first n minutes. */
  function Queries(n: nat): Log { if n == 0 then [] else Queries(n - 1) + [Queried(60000 * (n - 1))] }

  lemma {:induction false} QueriesRetained(n: nat, window: nat)
    requires n <= window + 1
    ensures HoldsFirst(Queries(n), n, window)
  {
    if n > 0 {
      QueriesRetained(n - 1, window);
      OneQueryMore(Queries(n - 1), n - 1, window);
    }
  }

  /** As many minutes are held, all before the n-th. */
  predicate HoldsFirst(log: Log, n: nat, window: nat) {
    var minutes := Minutes(Retained(window + 1, log));
    |minutes| == n && forall k :: k in minutes ==> 0 <= k < 60000 * n
  }

  lemma OneQueryMore(log: Log, n: nat, window: nat)
    requires n <= window && HoldsFirst(log, n, window)
    ensures HoldsFirst(log + [Queried(60000 * n)], n + 1, window)
  {
    StartOfMinute(n);
    RetainedUntrimmed(log, Queried(60000 * n), window);
    OneMinuteMore(Minutes(Retained(window + 1, log)), 60000 * n);
  }

  /** A query that leaves the map small enough only adds its minute. */
  lemma RetainedUntrimmed(log: Log, e: Event, window: nat)
    requires e.Queried? && |Minutes(Retained(window + 1, log))| <= window
    ensures Minutes(Retained(window + 1, log + [e])) == Minutes(Retained(window + 1, log)) + {EventMinute(e)}
  {
    Appended(log, e);
    MinutesGrow(Retained(window + 1, log), ShareOf(e));
  }

  lemma StartOfMinute(i: nat)
    ensures MinuteFloor(60000 * i) == 60000 * i
  {
    assert 60000 * i % MS_IN_MIN == 0;
  }

  lemma OneMinuteMore(minutes: set<int>, last: int)
    requires forall k :: k in minutes ==> 0 <= k < last
    ensures |minutes + {last}| == |minutes| + 1
  {
  }

  /** A window full of minutes, then silence for longer than the window: the next query prunes them all at once. */
  lemma PruneFindsMany(window: nat)
    ensures var log, now := Queries(window + 1), 60000 * (2 * window + 2);
            var found := WithMinute(Replay(window + 1, log), MinuteFloor(now)).perMinute;
            && |found| == window + 2 && |Stale(found, Threshold(now, window + 1))| == window + 1
  {
    var log, now := Queries(window + 1), 60000 * (2 * window + 2);
    var ledger := Retained(window + 1, log);
    QueriesRetained(window + 1, window);
    ReplayIsRetained(window + 1, log);
    NowIsMinute(window);
    var m, found := StateOf(ledger).perMinute, WithMinute(StateOf(ledger), now).perMinute;
    assert m.Keys == Minutes(ledger) && found.Keys == m.Keys + {now};
    assert |found.Keys| == |found|;
    var stale := Stale(found, Threshold(now, window + 1));
    assert stale.Keys == m.Keys && |stale.Keys| == |stale|;
  }

  lemma NowIsMinute(window: nat)
    ensures var now := 60000 * (2 * window + 2);
            MinuteFloor(now) == now && Threshold(now, window + 1) >= 60000 * (window + 1)
  {
    StartOfMinute(2 * window + 2);
  }

  // ----- when pruning finds exactly one -----

  /** The minutes of a window and the current one. */
  function WindowMinutes(current: int, window: nat): set<int> {
    set j | 0 <= j < window + 1 :: MinuteBefore(current, j)
  }

  lemma WindowMinuteIff(current: int, window: nat, k: int)
    requires IsMinute(current)
    ensures k in WindowMinutes(current, window) <==> IsMinute(k) && MinuteBefore(current, window) <= k <= current
  {
    if IsMinute(k) && MinuteBefore(current, window) <= k <= current {
      var j := (current - k) / MS_IN_MIN;
      MinuteDistance(current, k);
      assert MinuteBefore(current, j) == k && 0 <= j < window + 1;
    }
    if k in WindowMinutes(current, window) {
      var j :| 0 <= j < window + 1 && k == MinuteBefore(current, j);
      MinutesBeforeAreMinutes(current, j);
    }
  }

  lemma MinuteDistance(current: int, k: int)
    requires IsMinute(current) && IsMinute(k)
    ensures current - k == (current - k) / MS_IN_MIN * MS_IN_MIN
  {
  }

  lemma WindowSize(current: int, window: nat)
    requires IsMinute(current)
    ensures |WindowMinutes(current, window)| == window + 1
  {
    var minutes := WindowMinutes(current, window);
    forall k | k in minutes
      ensures IsMinute(k) && MinuteBefore(current, window) <= k <= current
    {
      WindowMinuteIff(current, window, k);
    }
    MinutesInWindow(minutes, current, window + 1);
    AllMinutesInWindow(minutes, current, window + 1);
  }

  /** The minutes of the window for which the log has neither a trade nor a query. */
  function Missing(log: Log, current: int, window: nat): set<int> {
    WindowMinutes(current, window) - Minutes(Shares(log))
  }

  /** The map a call finds when it decides whether to prune. */
  ghost function Found(log: Log, window: nat, e: Event): PerMinute {
    WithShare(Replay(window + 1, log), ShareOf(e)).perMinute
  }

  /** One prune finds one stale entry for each minute missing from the window, and one more.  This holds of trades and
      queries alike, whenever the call prunes. */
  lemma PruneFinds(log: Log, window: nat, e: Event)
    requires ValidLog(log + [e]) && !Refused(e, window + 1) && |Found(log, window, e)| > window + 1
    ensures |Stale(Found(log, window, e), Threshold(e.now, window + 1))|
         == 1 + |Missing(log + [e], MinuteFloor(e.now), window)|
  {
    var current, found := MinuteFloor(e.now), Found(log, window, e);
    ClockMoves(log, e);
    FoundAgrees(log, window, e);
    FoundSize(log, window, e);
    EntriesSplit(found, Minutes(Shares(log + [e])), current, window);
  }

  lemma FoundSize(log: Log, window: nat, e: Event)
    requires ValidLog(log) && |Found(log, window, e)| > window + 1
    ensures |Found(log, window, e)| == window + 2
  {
    RunsConsistent(window, log);
    OneEntryMore(Replay(window + 1, log), ShareOf(e));
  }

  lemma OneEntryMore(a: Averages, share: Share)
    ensures |WithShare(a, share).perMinute| <= |a.perMinute| + 1
  {
    var m, m' := a.perMinute, WithShare(a, share).perMinute;
    assert m'.Keys == m.Keys + {share.minute};
    assert |m'.Keys| == |m'| && |m.Keys| == |m|;
  }

  lemma FoundAgrees(log: Log, window: nat, e: Event)
    requires ValidLog(log + [e]) && !Refused(e, window + 1)
    ensures Agrees(Found(log, window, e), Shares(log + [e]), Threshold(e.now, window + 1), MinuteFloor(e.now))
  {
    var now := MinuteFloor(e.now);
    ClockMoves(log, e);
    RunsConsistent(window, log);
    WindowMoves(Replay(window + 1, log).perMinute, Shares(log), Oldest(MinuteFloor(Clock(log)), window + 1),
                MinuteFloor(Clock(log)), Oldest(now, window + 1), now);
    RefusedIff(e, window);
    SharesGrow(log, e);
    EntryAdded(Replay(window + 1, log).perMinute, Shares(log), ShareOf(e), Oldest(now, window + 1), now);
  }

  lemma KeysSplit(m: PerMinute, minutes: set<int>, current: int, window: nat)
    requires IsMinute(current)
    requires forall k :: k in m ==> IsMinute(k) && k <= current
    requires forall k :: k >= MinuteBefore(current, window) ==> (k in m <==> k in minutes)
    ensures var stale := Stale(m, MinuteBefore(current, window)).Keys;
            && m.Keys == stale + WindowMinutes(current, window) * minutes
            && forall k :: k in stale ==> k !in WindowMinutes(current, window)
  {
    forall k: int
      ensures k in WindowMinutes(current, window) <==> IsMinute(k) && MinuteBefore(current, window) <= k <= current
    {
      WindowMinuteIff(current, window, k);
    }
  }

  lemma SizesSplit(keys: set<int>, stale: set<int>, all: set<int>, minutes: set<int>)
    requires keys == stale + all * minutes && forall k :: k in stale ==> k !in all
    ensures |keys| == |stale| + |all| - |all - minutes|
  {
    var held := all * minutes;
    forall k: int
      ensures k !in stale * held
    {
      if k in stale {
        assert k !in all;
      }
    }
    assert |stale + held| == |stale| + |held|;
    assert all == held + (all - minutes);
  }

  /** A map one entry larger than the window: what the window lacks, the past has. */
  lemma EntriesSplit(m: PerMinute, minutes: set<int>, current: int, window: nat)
    requires IsMinute(current) && |m| == window + 2
    requires forall k :: k in m ==> IsMinute(k) && k <= current
    requires forall k :: k >= MinuteBefore(current, window) ==> (k in m <==> k in minutes)
    ensures |Stale(m, MinuteBefore(current, window))| == 1 + |WindowMinutes(current, window) - minutes|
  {
    var stale := Stale(m, MinuteBefore(current, window));
    KeysSplit(m, minutes, current, window);
    WindowSize(current, window);
    SizesSplit(m.Keys, stale.Keys, WindowMinutes(current, window), minutes);
    assert |m.Keys| == |m| && |stale.Keys| == |stale|;
  }

  /** So it finds one, as the comment on prune expects, if and only if the window is complete: each of its minutes and
      the current one saw a trade or a query, this call included. */
  lemma PruneFindsOneIff(log: Log, window: nat, e: Event)
    requires ValidLog(log + [e]) && !Refused(e, window + 1) && |Found(log, window, e)| > window + 1
    ensures |Stale(Found(log, window, e), Threshold(e.now, window + 1))| == 1 <==>
            forall j :: 0 <= j <= window ==> Touched(log + [e], MinuteBefore(MinuteFloor(e.now), j))
  {
    var current := MinuteFloor(e.now);
    var missing := Missing(log + [e], current, window);
    PruneFinds(log, window, e);
    if missing == {} {
      forall j | 0 <= j <= window
        ensures Touched(log + [e], MinuteBefore(current, j))
      {
        assert MinuteBefore(current, j) in WindowMinutes(current, window);
        assert MinuteBefore(current, j) !in missing;
      }
    } else {
      var k := Pick(missing);
      var j :| 0 <= j < window + 1 && k == MinuteBefore(current, j);
      assert !Touched(log + [e], MinuteBefore(current, j));
    }
  }

  lemma QueryTouches(log: Log, now: int, k: int)
    ensures Touched(log + [Queried(now)], k) <==> k == MinuteFloor(now) || Touched(log, k)
  {
    SharesGrow(log, Queried(now));
    MinutesGrow(Shares(log), ShareOf(Queried(now)));
  }

  lemma QueryCompletes(log: Log, window: nat, now: int)
    ensures (forall j :: 0 <= j <= window ==> Touched(log + [Queried(now)], MinuteBefore(MinuteFloor(now), j)))
            <==> Covered(log, window, now)
  {
    forall j | 0 <= j <= window
      ensures Touched(log + [Queried(now)], MinuteBefore(MinuteFloor(now), j))
              <==> j == 0 || Touched(log, MinuteBefore(MinuteFloor(now), j))
    {
      QueryTouches(log, now, MinuteBefore(MinuteFloor(now), j));
    }
  }

  /** For a query this is the condition under which its answer is shown to be exact. */
  lemma QueryPrunesOneIff(log: Log, window: nat, now: int)
    requires ValidLog(log) && Clock(log) <= now && |Found(log, window, Queried(now))| > window + 1
    ensures |Stale(Found(log, window, Queried(now)), Threshold(now, window + 1))| == 1 <==> Covered(log, window, now)
  {
    ValidGrows(log, Queried(now));
    PruneFindsOneIff(log, window, Queried(now));
    QueryCompletes(log, window, now);
  }
}
