/** What a moving average holds, as a function of its calls, with no assumption on clocks or timestamps; and how
    much its integer arithmetic loses. */
module RetainedTrades {
  import opened Bits
  import opened Ledgers
  import opened MovingAverage
  import opened Sequences
  import opened SlidingWindow
  import opened Timestamps
  import opened Trades

  // ----- the shares still counted -----

  function MinutesFrom(ledger: Ledger, threshold: int): set<int> { set k | k in Minutes(ledger) && k >= threshold }

  /** With too many minutes, those before the threshold go. */
  function Trimmed(ledger: Ledger, minutesToStore: nat, threshold: int): Ledger {
    if |Minutes(ledger)| > minutesToStore then Only(ledger, MinutesFrom(ledger, threshold)) else ledger
  }

  function Retained(minutesToStore: nat, log: Log): Ledger {
    if log == [] then []
    else
      var before, e := Retained(minutesToStore, Init(log)), Last(log);
      if Refused(e, minutesToStore) then before
      else Trimmed(before + [ShareOf(e)], minutesToStore, Threshold(e.now, minutesToStore))
  }

  /** The map and the totals of a ledger. */
  function StateOf(ledger: Ledger): Averages { Averages(EntriesOf(Minutes(ledger), ledger), Sum(ledger)) }

  lemma ShareState(ledger: Ledger, share: Share)
    ensures WithShare(StateOf(ledger), share) == StateOf(ledger + [share])
  {
    MinutesGrow(ledger, share);
    SumGrows(ledger, share);
    EntryOfShare(EntriesOf(Minutes(ledger), ledger), ledger, share);
    forall j | j in Minutes(ledger) && j != share.minute
      ensures MinuteTotal(ledger + [share], j) == MinuteTotal(ledger, j)
    {
      MinuteTotalGrows(ledger, share, j);
    }
    assert WithShare(StateOf(ledger), share).perMinute == EntriesOf(Minutes(ledger + [share]), ledger + [share]);
  }

  lemma KeptEntries(ledger: Ledger, threshold: int)
    ensures var kept := Only(ledger, MinutesFrom(ledger, threshold));
            Kept(EntriesOf(Minutes(ledger), ledger), threshold) == EntriesOf(Minutes(kept), kept)
  {
    var minutes := MinutesFrom(ledger, threshold);
    OnlyMinutes(ledger, minutes);
    assert Minutes(Only(ledger, minutes)) == minutes;
    forall j | j in minutes
      ensures MinuteTotal(Only(ledger, minutes), j) == MinuteTotal(ledger, j)
    {
      OnlyMinuteTotal(ledger, minutes, j);
    }
  }

  lemma PrunedState(ledger: Ledger, threshold: int)
    ensures Pruned(StateOf(ledger), threshold) == StateOf(Only(ledger, MinutesFrom(ledger, threshold)))
  {
    var m, kept := EntriesOf(Minutes(ledger), ledger), Only(ledger, MinutesFrom(ledger, threshold));
    KeptEntries(ledger, threshold);
    AllEntriesTotal(ledger);
    AllEntriesTotal(kept);
    TotalPartition(m, threshold);
    TakeBack(Sum(kept), Total(Stale(m, threshold)));
  }

  lemma EntriesCount(ledger: Ledger)
    ensures |StateOf(ledger).perMinute| == |Minutes(ledger)|
  {
    assert StateOf(ledger).perMinute.Keys == Minutes(ledger);
    assert |StateOf(ledger).perMinute.Keys| == |StateOf(ledger).perMinute|;
  }

  lemma TrimmedState(ledger: Ledger, minutesToStore: nat, threshold: int)
    ensures PrunedIfLarge(StateOf(ledger), minutesToStore, threshold)
         == StateOf(Trimmed(ledger, minutesToStore, threshold))
  {
    EntriesCount(ledger);
    if |Minutes(ledger)| > minutesToStore {
      PrunedState(ledger, threshold);
    }
  }

  /** After any calls at all, the map has one entry for each retained minute, each entry is the sum of that minute's
      retained shares, and the totals are the sums of all of them. */
  lemma {:induction false} ReplayIsRetained(minutesToStore: nat, log: Log)
    ensures Replay(minutesToStore, log) == StateOf(Retained(minutesToStore, log))
  {
    if log == [] {
      assert EntriesOf(Minutes([]), []) == map[];
    } else {
      ReplayIsRetained(minutesToStore, Init(log));
      CallState(Retained(minutesToStore, Init(log)), minutesToStore, Last(log));
    }
  }

  lemma CallState(ledger: Ledger, minutesToStore: nat, e: Event)
    ensures After(StateOf(ledger), minutesToStore, e) ==
              if Refused(e, minutesToStore) then StateOf(ledger)
              else StateOf(Trimmed(ledger + [ShareOf(e)], minutesToStore, Threshold(e.now, minutesToStore)))
  {
    CallAddsShare(StateOf(ledger), minutesToStore, e);
    ShareState(ledger, ShareOf(e));
    TrimmedState(ledger + [ShareOf(e)], minutesToStore, Threshold(e.now, minutesToStore));
  }

  // ----- the sums of trades -----

  /** What trades add to the sums; and, from the trades alone: their scaled volumes, the products of their scaled prices
      and volumes, and their exact worths, prices and volumes. */
  datatype Tally = Tally(value: SimpleAverage, count: int, products: int, worth: real, prices: real, volumes: real,
                         trades: nat)
  {
    function Plus(other: Tally): Tally {
      Tally(value.Plus(other.value), count + other.count, products + other.products, worth + other.worth,
            prices + other.prices, volumes + other.volumes, trades + other.trades)
    }

    predicate CountsVolume() { value.count == count }

    /** Counted from the scaled integers, the sum is short by less than one unit per trade.  Counted from the real
        prices and volumes, it is short by at most one unit, the price and the volume of each trade, and the count by
        less than one unit per trade. */
    predicate LosesLittle() {
      && 0 <= products - value.sum * 1000000 <= trades * 999999
      && 0.0 <= worth * 1000000.0 - value.sum as real <= trades as real + prices + volumes
      && 0.0 <= volumes * 1000000.0 - value.count as real <= trades as real
    }
  }

  const NOTHING := Tally(EMPTY, 0, 0, 0.0, 0.0, 0.0, 0)

  function Product(t: Trade): int { Scale(t.price) * Scale(t.volume) }

  function TallyOf(t: Trade): Tally {
    Tally(Contribution(t), Scale(t.volume), Product(t), t.price * t.volume, t.price, t.volume, 1)
  }

  function Tallied(one: Trade -> Tally, ts: seq<Trade>): Tally {
    if ts == [] then NOTHING else Tallied(one, Init(ts)).Plus(one(Last(ts)))
  }

  function TallyOfAll(ts: seq<Trade>): Tally { Tallied(TallyOf, ts) }

  predicate NonNegative(ts: seq<Trade>) { forall t :: t in ts ==> t.price >= 0.0 && t.volume >= 0.0 }

  lemma NonNegativeReals(a: real, b: real)
    requires a >= 0.0 && b >= 0.0
    ensures a * b >= 0.0
  {
  }

  lemma OneMinus(d: real, z: real)
    ensures (1.0 - d) * z == z - d * z
  {
  }

  lemma FractionOf(d: real, z: real, p: real)
    requires 0.0 <= d < 1.0 && z >= 0.0 && p == d * z
    ensures 0.0 <= p <= z
  {
    NonNegativeReals(d, z);
    var rest := (1.0 - d) * z;
    assert rest >= 0.0 by { NonNegativeReals(1.0 - d, z); }
    assert rest == z - p by { OneMinus(d, z); }
  }

  lemma Expand(i: real, j: real, d: real, e: real)
    ensures (i + d) * (j + e) - i * j == d * j + e * i + d * e
  {
  }

  lemma CutParts(i: real, j: real, d: real, e: real, a: real, b: real, c: real)
    requires i >= 0.0 && j >= 0.0 && 0.0 <= d < 1.0 && 0.0 <= e < 1.0
    requires a == d * j && b == e * i && c == d * e
    ensures 0.0 <= a + b + c <= i + d + j + e
  {
    FractionOf(d, j, a);
    FractionOf(e, i, b);
    FractionOf(d, e, c);
  }

  /** Two factors, each cut by less than one, lose at most the sum of the uncut ones. */
  lemma CutProduct(x: real, y: real, i: real, j: real)
    requires 0.0 <= i <= x < i + 1.0 && 0.0 <= j <= y < j + 1.0
    ensures 0.0 <= x * y - i * j <= x + y
  {
    var d, e := x - i, y - j;
    assert i + d == x && j + e == y;
    Expand(i, j, d, e);
    CutParts(i, j, d, e, d * j, e * i, d * e);
  }

  lemma IntProduct(i: int, j: int)
    ensures (i * j) as real == i as real * j as real
  {
  }

  lemma CutQuotient(p: int)
    requires p >= 0
    ensures var q := p / FLOAT_TO_INT_FACTOR;
            && 0 <= p - q * FLOAT_TO_INT_FACTOR <= FLOAT_TO_INT_FACTOR - 1
            && 0.0 <= p as real / 1000000.0 - q as real < 1.0
  {
  }

  lemma ContributionOf(t: Trade)
    requires t.price >= 0.0 && t.volume >= 0.0
    ensures Product(t) >= 0 && Contribution(t) == SimpleAverage(Product(t) / FLOAT_TO_INT_FACTOR, Scale(t.volume))
  {
    ScaleTruncates(t.price);
    ScaleTruncates(t.volume);
    MulNonNegative(Scale(t.price), Scale(t.volume));
  }

  lemma OneLoss(t: Trade)
    requires t.price >= 0.0 && t.volume >= 0.0
    ensures TallyOf(t).LosesLittle()
  {
    ContributionOf(t);
    CutQuotient(Product(t));
    RealProduct(t);
    ScaleTruncates(t.volume);
  }

  lemma RealProduct(t: Trade)
    requires t.price >= 0.0 && t.volume >= 0.0
    ensures 0.0 <= t.price * t.volume * 1000000.0 - Product(t) as real / 1000000.0 <= t.price + t.volume
  {
    ScaleTruncates(t.price);
    ScaleTruncates(t.volume);
    CutProduct(t.price * 1000000.0, t.volume * 1000000.0, Scale(t.price) as real, Scale(t.volume) as real);
    IntProduct(Scale(t.price), Scale(t.volume));
    Rescale(t.price, t.volume);
  }

  lemma Rescale(p: real, v: real)
    ensures (p * 1000000.0) * (v * 1000000.0) == p * v * 1000000.0 * 1000000.0
  {
    assert (p * 1000000.0) * (v * 1000000.0) == (p * v) * (1000000.0 * 1000000.0);
  }

  lemma LossesAdd(a: Tally, b: Tally)
    requires a.LosesLittle() && b.LosesLittle()
    ensures a.Plus(b).LosesLittle()
  {
  }

  lemma {:induction false} LossesAddUp(one: Trade -> Tally, ts: seq<Trade>)
    requires forall i :: 0 <= i < |ts| ==> one(ts[i]).LosesLittle()
    ensures Tallied(one, ts).LosesLittle() && Tallied(one, ts).trades >= 0
  {
    if ts != [] {
      LossesAddUp(one, Init(ts));
      LossesAdd(Tallied(one, Init(ts)), one(Last(ts)));
    }
  }

  /** Each product is scaled down separately. */
  lemma TruncationLoss(ts: seq<Trade>)
    requires NonNegative(ts)
    ensures TallyOfAll(ts).LosesLittle()
  {
    forall i | 0 <= i < |ts|
      ensures TallyOf(ts[i]).LosesLittle()
    {
      OneLoss(ts[i]);
    }
    LossesAddUp(TallyOf, ts);
  }

  // ----- from shares to trades -----

  /** A share is worth its trade's contribution, or nothing if it has none. */
  predicate Honest(share: Share) {
    |share.trades| <= 1 && share.value == if share.trades == [] then EMPTY else TallyOf(share.trades[0]).value
  }

  predicate AllHonest(ledger: Ledger) { forall i :: 0 <= i < |ledger| ==> Honest(ledger[i]) }

  lemma {:induction false} SumOfTrades(ledger: Ledger)
    requires AllHonest(ledger)
    ensures Sum(ledger) == TallyOfAll(TradesIn(ledger)).value
    ensures TallyOfAll(TradesIn(ledger)).trades == |TradesIn(ledger)|
  {
    if ledger != [] {
      SumOfTrades(Init(ledger));
      OneMoreShare(TradesIn(Init(ledger)), Last(ledger));
    }
  }

  lemma OneMoreShare(ts: seq<Trade>, share: Share)
    requires Honest(share)
    ensures TallyOfAll(ts + share.trades).value == TallyOfAll(ts).value.Plus(share.value)
    ensures TallyOfAll(ts + share.trades).trades == TallyOfAll(ts).trades + |share.trades|
  {
    if share.trades == [] {
      assert ts + share.trades == ts;
      PlusEmpty(TallyOfAll(ts).value);
    } else {
      assert share.trades == [share.trades[0]];
      Appended(ts, share.trades[0]);
    }
  }

  lemma {:induction false} OnlyHonest(ledger: Ledger, minutes: set<int>)
    requires AllHonest(ledger)
    ensures AllHonest(Only(ledger, minutes))
  {
    if ledger != [] {
      OnlyHonest(Init(ledger), minutes);
    }
  }

  lemma {:induction false} SharesHonest(log: Log)
    ensures AllHonest(Shares(log))
  {
    if log != [] {
      SharesHonest(Init(log));
    }
  }

  lemma {:induction false} RetainedHonest(minutesToStore: nat, log: Log)
    ensures AllHonest(Retained(minutesToStore, log))
  {
    if log != [] {
      var before, e := Retained(minutesToStore, Init(log)), Last(log);
      RetainedHonest(minutesToStore, Init(log));
      OnlyHonest(before + [ShareOf(e)], MinutesFrom(before + [ShareOf(e)], Threshold(e.now, minutesToStore)));
    }
  }

  /** Only logged trades are retained. */
  lemma {:induction false} RetainedWereLogged(minutesToStore: nat, log: Log)
    ensures forall t :: t in TradesIn(Retained(minutesToStore, log)) ==> t in TradesIn(Shares(log))
  {
    if log != [] {
      var before, e := Retained(minutesToStore, Init(log)), Last(log);
      RetainedWereLogged(minutesToStore, Init(log));
      SumGrows(before, ShareOf(e));
      SumGrows(Shares(Init(log)), ShareOf(e));
      OnlyTrades(before + [ShareOf(e)], MinutesFrom(before + [ShareOf(e)], Threshold(e.now, minutesToStore)));
    }
  }

  /** The sum and the count are those of these trades: the count adds up their scaled volumes, and with no negative
      price or volume little is lost. */
  ghost predicate IsSumOf(total: SimpleAverage, ts: seq<Trade>) {
    && total == TallyOfAll(ts).value && TallyOfAll(ts).CountsVolume() && TallyOfAll(ts).trades == |ts|
    && (NonNegative(ts) ==> TallyOfAll(ts).LosesLittle())
  }

  lemma {:induction false} CountsAddUp(one: Trade -> Tally, ts: seq<Trade>)
    requires forall t :: one(t).CountsVolume()
    ensures Tallied(one, ts).CountsVolume()
  {
    if ts != [] {
      CountsAddUp(one, Init(ts));
    }
  }

  lemma OneCount(t: Trade)
    ensures TallyOf(t).CountsVolume()
  {
    ContributionTruncates(t);
  }

  lemma AllCounted(ts: seq<Trade>)
    ensures TallyOfAll(ts).CountsVolume()
  {
    forall t: Trade
      ensures TallyOf(t).CountsVolume()
    {
      OneCount(t);
    }
    CountsAddUp(TallyOf, ts);
  }

  lemma LedgerIsSum(ledger: Ledger)
    requires AllHonest(ledger)
    ensures IsSumOf(Sum(ledger), TradesIn(ledger))
  {
    SumOfTrades(ledger);
    AllCounted(TradesIn(ledger));
    if NonNegative(TradesIn(ledger)) {
      TruncationLoss(TradesIn(ledger));
    }
  }

  /** After any calls, the running totals are the sums of the retained trades, all of them logged; with no negative
      price or volume, the running sum is below their exact sum by less than one unit each. */
  lemma RunningTotals(minutesToStore: nat, log: Log)
    ensures var ts := TradesIn(Retained(minutesToStore, log));
            && IsSumOf(Replay(minutesToStore, log).total, ts)
            && forall t :: t in ts ==> t in TradesIn(Shares(log))
  {
    ReplayIsRetained(minutesToStore, log);
    RetainedHonest(minutesToStore, log);
    RetainedWereLogged(minutesToStore, log);
    LedgerIsSum(Retained(minutesToStore, log));
  }

  /** The retained shares a query reports: all but the current minute's. */
  function ReportedShares(minutesToStore: nat, log: Log, now: int): Ledger {
    var ledger := Retained(minutesToStore, log + [Queried(now)]);
    Only(ledger, Minutes(ledger) - {MinuteFloor(now)})
  }

  lemma StateWithout(ledger: Ledger, k: int)
    ensures StateOf(ledger).total.Minus(At(StateOf(ledger).perMinute, k)) == Sum(Only(ledger, Minutes(ledger) - {k}))
  {
    var m := EntriesOf(Minutes(ledger), ledger);
    AllEntriesTotal(ledger);
    EntriesTotal(Minutes(ledger) - {k}, ledger);
    assert EntriesOf(Minutes(ledger) - {k}, ledger) == m - {k};
    if k in m {
      TotalSplit(m, k);
      TakeOut(m[k], Total(m - {k}));
    } else {
      assert m - {k} == m;
      PlusEmpty(Total(m));
    }
  }

  lemma TakeOut(a: SimpleAverage, b: SimpleAverage)
    ensures a.Plus(b).Minus(a) == b
  {
  }

  /** After any calls, a query reports the retained shares of all minutes but its own. */
  lemma ReportedIsSum(minutesToStore: nat, log: Log, now: int)
    ensures Reported(Replay(minutesToStore, log), minutesToStore, now) == Sum(ReportedShares(minutesToStore, log, now))
  {
    Appended(log, Queried(now));
    ReplayIsRetained(minutesToStore, log + [Queried(now)]);
    StateWithout(Retained(minutesToStore, log + [Queried(now)]), MinuteFloor(now));
  }

  /** And so the sum of their trades, with the same loss. */
  lemma ReportedTotals(minutesToStore: nat, log: Log, now: int)
    ensures IsSumOf(Reported(Replay(minutesToStore, log), minutesToStore, now),
                    TradesIn(ReportedShares(minutesToStore, log, now)))
  {
    var ledger := Retained(minutesToStore, log + [Queried(now)]);
    ReportedIsSum(minutesToStore, log, now);
    RetainedHonest(minutesToStore, log + [Queried(now)]);
    OnlyHonest(ledger, Minutes(ledger) - {MinuteFloor(now)});
    LedgerIsSum(ReportedShares(minutesToStore, log, now));
  }

  /** So is the documented window the sum of its logged trades. */
  lemma DocumentedTotals(log: Log, window: nat, now: int)
    ensures var lo, hi := MinuteBefore(MinuteFloor(now), window), MinuteFloor(now);
            IsSumOf(Documented(log, window, now),
                    TradesIn(Only(Shares(log), set k | k in Minutes(Shares(log)) && lo <= k < hi)))
  {
    var lo, hi := MinuteBefore(MinuteFloor(now), window), MinuteFloor(now);
    var minutes := set k | k in Minutes(Shares(log)) && lo <= k < hi;
    forall i | 0 <= i < |Shares(log)|
      ensures Shares(log)[i].minute in minutes <==> lo <= Shares(log)[i].minute < hi
    {
      MinutesContain(Shares(log), i);
    }
    WindowIsOnly(Shares(log), lo, hi, minutes);
    SharesHonest(log);
    OnlyHonest(Shares(log), minutes);
    LedgerIsSum(Only(Shares(log), minutes));
  }
}
