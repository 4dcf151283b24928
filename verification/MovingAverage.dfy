/** The moving average of one symbol: per-minute sums in a hash map, pruned lazily by the map's size. */
module MovingAverage {
  import opened Sets
  import opened Timestamps
  import opened Trades

  datatype SimpleAverage = SimpleAverage(sum: int, count: int)
  {
    function Plus(other: SimpleAverage): SimpleAverage { SimpleAverage(sum + other.sum, count + other.count) }

    function Minus(other: SimpleAverage): SimpleAverage { SimpleAverage(sum - other.sum, count - other.count) }
  }

  const EMPTY := SimpleAverage(0, 0)

  lemma PlusLaws(a: SimpleAverage, b: SimpleAverage, c: SimpleAverage)
    ensures a.Plus(b.Plus(c)) == a.Plus(b).Plus(c) == b.Plus(a.Plus(c))
  {
  }

  lemma PlusEmpty(a: SimpleAverage)
    ensures EMPTY.Plus(a) == a.Plus(EMPTY) == a
  {
  }

  lemma MinusLaws(a: SimpleAverage, b: SimpleAverage, c: SimpleAverage)
    ensures a.Plus(b).Plus(c).Minus(a) == b.Plus(c)
    ensures a.Minus(b).Plus(b.Plus(c)) == a.Plus(c)
  {
  }

  /** What one trade adds: its scaled price times volume, scaled down once, and its scaled volume. */
  function Contribution(t: Trade): SimpleAverage {
    SimpleAverage(TruncDiv(Scale(t.price) * Scale(t.volume), FLOAT_TO_INT_FACTOR), Scale(t.volume))
  }

  /** In terms of the scaled integers: the sum gains their product, scaled down toward zero, the count the volume. */
  lemma ContributionTruncates(t: Trade)
    ensures var c, p := Contribution(t), Scale(t.price) * Scale(t.volume);
            && c.count == Scale(t.volume)
            && (p >= 0 ==> 0 <= c.sum * 1000000 <= p < c.sum * 1000000 + 1000000)
            && (p <= 0 ==> c.sum * 1000000 - 1000000 < p <= c.sum * 1000000 <= 0)
  {
    DivisionTruncates(Scale(t.price) * Scale(t.volume), FLOAT_TO_INT_FACTOR);
  }

  type PerMinute = map<int, SimpleAverage>

  /** operator[]: an absent minute reads as an empty average. */
  function At(m: PerMinute, k: int): SimpleAverage { if k in m then m[k] else EMPTY }

  /** The fields of a MovingAverage. */
  datatype Averages = Averages(perMinute: PerMinute, total: SimpleAverage)

  function Kept(m: PerMinute, threshold: int): PerMinute { map k | k in m && k >= threshold :: m[k] }

  function Stale(m: PerMinute, threshold: int): PerMinute { map k | k in m && k < threshold :: m[k] }

  // ----- the sum of a map's values -----

  ghost function Total(m: PerMinute): SimpleAverage
    decreases |m|
  {
    if m.Keys == {} then EMPTY
    else
      NonEmpty(m.Keys);
      var k :| k in m.Keys;
      RemovingShrinks(m, k);
      m[k].Plus(Total(m - {k}))
  }

  lemma RemovingShrinks(m: PerMinute, k: int)
    requires k in m
    ensures |m - {k}| < |m|
  {
    assert (m - {k}).Keys == m.Keys - {k};
  }

  /** Any key may be taken out first. */
  lemma {:induction false} TotalSplit(m: PerMinute, k: int)
    requires k in m
    ensures Total(m) == m[k].Plus(Total(m - {k}))
    decreases |m|
  {
    var c :| c in m.Keys && Total(m) == m[c].Plus(Total(m - {c}));
    if c == k {
      assert m - {c} == m - {k};
    } else {
      RemovingShrinks(m, c);
      RemovingShrinks(m, k);
      TotalSplit(m - {c}, k);
      TotalSplit(m - {k}, c);
      assert m - {c} - {k} == m - {k} - {c};
      PlusLaws(m[c], m[k], Total(m - {c} - {k}));
    }
  }

  lemma TotalUpdate(m: PerMinute, k: int, v: SimpleAverage)
    ensures Total(m[k := v]) == Total(m).Minus(At(m, k)).Plus(v)
  {
    TotalSplit(m[k := v], k);
    if k in m {
      TotalSplit(m, k);
      assert m[k := v] - {k} == m - {k};
    } else {
      assert m[k := v] - {k} == m;
    }
  }

  /** Kept and stale minutes add up to the whole. */
  lemma {:induction false} TotalPartition(m: PerMinute, threshold: int)
    ensures Total(m) == Total(Kept(m, threshold)).Plus(Total(Stale(m, threshold)))
    decreases |m|
  {
    var kept, stale := Kept(m, threshold), Stale(m, threshold);
    if m.Keys == {} {
      assert kept.Keys == {} && stale.Keys == {};
    } else {
      var k := Pick(m.Keys);
      RemovingShrinks(m, k);
      TotalSplit(m, k);
      TotalPartition(m - {k}, threshold);
      PartitionStep(m, threshold, k);
      PlusLaws(m[k], Total(Kept(m - {k}, threshold)), Total(Stale(m - {k}, threshold)));
    }
  }

  lemma PartitionStep(m: PerMinute, threshold: int, k: int)
    requires k in m
    ensures var m' := m - {k};
            if k >= threshold
            then Total(Kept(m, threshold)) == m[k].Plus(Total(Kept(m', threshold)))
                 && Stale(m, threshold) == Stale(m', threshold)
            else Total(Stale(m, threshold)) == m[k].Plus(Total(Stale(m', threshold)))
                 && Kept(m, threshold) == Kept(m', threshold)
  {
    var m' := m - {k};
    if k >= threshold {
      TotalSplit(Kept(m, threshold), k);
      assert Kept(m, threshold) - {k} == Kept(m', threshold);
    } else {
      TotalSplit(Stale(m, threshold), k);
      assert Stale(m, threshold) - {k} == Stale(m', threshold);
    }
  }

  // ----- the operations, on values -----

  /** Drops the stale minutes and takes their sums off the running totals. */
  ghost function Pruned(a: Averages, threshold: int): Averages {
    Averages(Kept(a.perMinute, threshold), a.total.Minus(Total(Stale(a.perMinute, threshold))))
  }

  ghost function PrunedIfLarge(a: Averages, minutesToStore: nat, threshold: int): Averages {
    if |a.perMinute| > minutesToStore then Pruned(a, threshold) else a
  }

  function WithTrade(a: Averages, t: Trade): Averages {
    var k, c := MinuteFloor(t.timestamp), Contribution(t);
    Averages(a.perMinute[k := At(a.perMinute, k).Plus(c)], a.total.Plus(c))
  }

  ghost function AfterTrade(a: Averages, minutesToStore: nat, t: Trade, now: int): Averages {
    var threshold := Threshold(now, minutesToStore);
    if t.timestamp < threshold then a else PrunedIfLarge(WithTrade(a, t), minutesToStore, threshold)
  }

  /** A query creates the current minute's entry. */
  function WithMinute(a: Averages, k: int): Averages {
    a.(perMinute := a.perMinute[k := At(a.perMinute, k)])
  }

  ghost function AfterQuery(a: Averages, minutesToStore: nat, now: int): Averages {
    PrunedIfLarge(WithMinute(a, MinuteFloor(now)), minutesToStore, Threshold(now, minutesToStore))
  }

  /** What a query reports: everything but the current minute. */
  ghost function Reported(a: Averages, minutesToStore: nat, now: int): SimpleAverage {
    var after := AfterQuery(a, minutesToStore, now);
    after.total.Minus(At(after.perMinute, MinuteFloor(now)))
  }

  datatype StaticAverage = StaticAverage(sum: real, volume: real, value: real)

  /** What a caller sees: both numbers scaled back, and their quotient. */
  function Static(reported: SimpleAverage): StaticAverage {
    var sum := reported.sum as real / FLOAT_TO_INT_FACTOR as real;
    var volume := reported.count as real / FLOAT_TO_INT_FACTOR as real;
    StaticAverage(sum, volume, if volume == 0.0 then 0.0 else sum / volume)
  }

  /** Six decimal digits are shifted back, and the value is the average price weighted by volume. */
  lemma StaticMeans(reported: SimpleAverage)
    ensures var r := Static(reported);
            && r.sum * 1000000.0 == reported.sum as real
            && r.volume * 1000000.0 == reported.count as real
            && (r.volume != 0.0 ==> r.value * r.volume == r.sum)
            && (r.volume == 0.0 ==> r.value == 0.0)
  {
  }

  class MovingAverage {
    var perMinute: map<int, SimpleAverage>
    const minutesToStore: nat
    var sum: int
    var count: int

    ghost function State(): Averages
      reads this
    {
      Averages(perMinute, SimpleAverage(sum, count))
    }

    constructor (windowMinutes: nat)
      ensures minutesToStore == windowMinutes + 1
      ensures State() == Averages(map[], EMPTY)
    {
      perMinute, minutesToStore, sum, count := map[], windowMinutes + 1, 0, 0;
    }

    method AddTrade(t: Trade, now: int)
      modifies this
      ensures State() == AfterTrade(old(State()), minutesToStore, t, now)
    {
      var minAcceptable := MinuteFloor(now) - MS_IN_MIN * (minutesToStore - 1);
      assert minAcceptable == Threshold(now, minutesToStore);
      if t.timestamp < minAcceptable {
        return;
      }
      var minute, c := MinuteFloor(t.timestamp), Contribution(t);
      sum := sum + c.sum;
      count := count + c.count;
      perMinute := perMinute[minute := At(perMinute, minute).Plus(c)];
      ghost var added := State();
      assert added == WithTrade(old(State()), t);
      if |perMinute| > minutesToStore {
        Prune(minAcceptable);
      }
      assert State() == PrunedIfLarge(added, minutesToStore, minAcceptable);
      assert AfterTrade(old(State()), minutesToStore, t, now) == PrunedIfLarge(added, minutesToStore, minAcceptable);
    }

    method GetStatic(now: int) returns (r: StaticAverage)
      modifies this
      ensures State() == AfterQuery(old(State()), minutesToStore, now)
      ensures r == Static(Reported(old(State()), minutesToStore, now))
    {
      var minute, minAcceptable := MinuteFloor(now), MinuteFloor(now) - MS_IN_MIN * (minutesToStore - 1);
      assert minAcceptable == Threshold(now, minutesToStore);
      perMinute := perMinute[minute := At(perMinute, minute)];
      ghost var asked := State();
      assert asked == WithMinute(old(State()), minute);
      if |perMinute| > minutesToStore {
        Prune(minAcceptable);
      }
      ghost var after := State();
      assert after == PrunedIfLarge(asked, minutesToStore, minAcceptable);
      assert after == AfterQuery(old(State()), minutesToStore, now);
      var sumLeft, countLeft := sum - At(perMinute, minute).sum, count - At(perMinute, minute).count;
      assert SimpleAverage(sumLeft, countLeft) == after.total.Minus(At(after.perMinute, minute));
      r := Static(SimpleAverage(sumLeft, countLeft));
    }

    /** Visits the minutes in the map's own order, on which nothing may depend. */
    method Prune(threshold: int)
      modifies this
      ensures State() == Pruned(old(State()), threshold)
    {
      ghost var before, total := perMinute, State().total;
      var left := perMinute.Keys;
      while left != {}
        invariant left <= before.Keys
        invariant perMinute == Unvisited(before, left, threshold)
        invariant State().total == total.Minus(Total(before)).Plus(Total(perMinute))
        decreases |left|
      {
        NonEmpty(left);
        var k :| k in left;
        UnvisitedStep(before, left, threshold, k);
        left := left - {k};
        if k < threshold {
          sum := sum - perMinute[k].sum;
          count := count - perMinute[k].count;
          perMinute := perMinute - {k};
        }
      }
      AllVisited(before, threshold, total);
    }
  }

  /** The map while pruning: minutes still to visit, and visited ones that stay. */
  function Unvisited(m: PerMinute, left: set<int>, threshold: int): PerMinute {
    map k | k in m && (k in left || k >= threshold) :: m[k]
  }

  lemma UnvisitedStep(m: PerMinute, left: set<int>, threshold: int, k: int)
    requires k in left && left <= m.Keys
    ensures var now, next := Unvisited(m, left, threshold), Unvisited(m, left - {k}, threshold);
            && k in now && next == (if k < threshold then now - {k} else now)
            && Total(now) == now[k].Plus(Total(now - {k}))
  {
    TotalSplit(Unvisited(m, left, threshold), k);
  }

  lemma AllVisited(m: PerMinute, threshold: int, total: SimpleAverage)
    ensures Unvisited(m, {}, threshold) == Kept(m, threshold)
    ensures total.Minus(Total(m)).Plus(Total(Kept(m, threshold))) == total.Minus(Total(Stale(m, threshold)))
  {
    TotalPartition(m, threshold);
    TakeAway(total, Total(Kept(m, threshold)), Total(Stale(m, threshold)));
  }

  lemma TakeAway(total: SimpleAverage, kept: SimpleAverage, stale: SimpleAverage)
    ensures total.Minus(kept.Plus(stale)).Plus(kept) == total.Minus(stale)
  {
  }
}
