/** One minute's candlestick, folded from its trades in order of arrival. */
module Candlestick {
  import opened Trades

  const INT64_MAX := 0x7FFF_FFFF_FFFF_FFFF
  const INT64_MIN := -0x8000_0000_0000_0000

  /** The largest and the smallest positive normal number of the price type. */
  datatype Limits = Limits(max: real, min: real)

  datatype Candle = Candle(openTimestamp: int, closeTimestamp: int, openPrice: real, closePrice: real,
                           minPrice: real, maxPrice: real, volume: int)

  /** Before any trade: the lowest price starts at the largest number, the highest at the smallest
      positive normal one. */
  function Fresh(limits: Limits): Candle { Candle(INT64_MAX, INT64_MIN, 0.0, 0.0, limits.max, limits.min, 0) }

  function Added(c: Candle, t: Trade): Candle {
    var closes, opens := t.timestamp >= c.closeTimestamp, t.timestamp < c.openTimestamp;
    Candle(if opens then t.timestamp else c.openTimestamp,
           if closes then t.timestamp else c.closeTimestamp,
           if opens then t.price else c.openPrice,
           if closes then t.price else c.closePrice,
           if t.price < c.minPrice then t.price else c.minPrice,
           if t.price > c.maxPrice then t.price else c.maxPrice,
           c.volume + Scale(t.volume))
  }

  /** The candlestick of a sequence of arrivals. */
  function Fold(limits: Limits, ts: seq<Trade>): Candle {
    if ts == [] then Fresh(limits) else Added(Fold(limits, ts[..|ts| - 1]), ts[|ts| - 1])
  }

  // ----- what the fields mean -----

  /** The trade at i is the first to arrive among those with the least timestamp. */
  predicate FirstEarliest(ts: seq<Trade>, i: int) {
    0 <= i < |ts|
    && (forall j :: 0 <= j < |ts| ==> ts[j].timestamp >= ts[i].timestamp)
    && (forall j :: 0 <= j < i ==> ts[j].timestamp > ts[i].timestamp)
  }

  /** The trade at i is the last to arrive among those with the greatest timestamp. */
  predicate LastLatest(ts: seq<Trade>, i: int) {
    0 <= i < |ts|
    && (forall j :: 0 <= j < |ts| ==> ts[j].timestamp <= ts[i].timestamp)
    && (forall j :: i < j < |ts| ==> ts[j].timestamp < ts[i].timestamp)
  }

  predicate IsLowest(ts: seq<Trade>, p: real) {
    (exists i :: 0 <= i < |ts| && ts[i].price == p) && forall j :: 0 <= j < |ts| ==> p <= ts[j].price
  }

  predicate IsHighest(ts: seq<Trade>, p: real) {
    (exists i :: 0 <= i < |ts| && ts[i].price == p) && forall j :: 0 <= j < |ts| ==> ts[j].price <= p
  }

  function TotalVolume(ts: seq<Trade>): int {
    if ts == [] then 0 else TotalVolume(ts[..|ts| - 1]) + Scale(ts[|ts| - 1].volume)
  }

  predicate InRange(limits: Limits, ts: seq<Trade>) {
    forall i :: 0 <= i < |ts| ==>
      -0x8000_0000_0000_0000 <= ts[i].timestamp < 0x7FFF_FFFF_FFFF_FFFF && ts[i].price <= limits.max
  }

  lemma {:induction false} FoldOpens(limits: Limits, ts: seq<Trade>)
    requires ts != [] && InRange(limits, ts)
    ensures var c := Fold(limits, ts);
            exists i :: FirstEarliest(ts, i) && c.openTimestamp == ts[i].timestamp && c.openPrice == ts[i].price
  {
    var init := ts[..|ts| - 1];
    if init == [] {
      assert FirstEarliest(ts, 0);
    } else {
      FoldOpens(limits, init);
      var before := Fold(limits, init);
      var i :| FirstEarliest(init, i) && before.openTimestamp == init[i].timestamp && before.openPrice == init[i].price;
      EarliestSoFar(ts, i);
    }
  }

  lemma EarliestSoFar(ts: seq<Trade>, i: int)
    requires ts != [] && FirstEarliest(ts[..|ts| - 1], i)
    ensures FirstEarliest(ts, if ts[|ts| - 1].timestamp < ts[i].timestamp then |ts| - 1 else i)
  {
    assert forall j :: 0 <= j < |ts| - 1 ==> ts[j] == ts[..|ts| - 1][j];
  }

  lemma {:induction false} FoldCloses(limits: Limits, ts: seq<Trade>)
    requires ts != [] && InRange(limits, ts)
    ensures var c := Fold(limits, ts);
            exists i :: LastLatest(ts, i) && c.closeTimestamp == ts[i].timestamp && c.closePrice == ts[i].price
  {
    var init := ts[..|ts| - 1];
    if init == [] {
      assert LastLatest(ts, 0);
    } else {
      FoldCloses(limits, init);
      var before := Fold(limits, init);
      var i :| LastLatest(init, i) && before.closeTimestamp == init[i].timestamp && before.closePrice == init[i].price;
      LatestSoFar(ts, i);
    }
  }

  lemma LatestSoFar(ts: seq<Trade>, i: int)
    requires ts != [] && LastLatest(ts[..|ts| - 1], i)
    ensures LastLatest(ts, if ts[|ts| - 1].timestamp >= ts[i].timestamp then |ts| - 1 else i)
  {
    assert forall j :: 0 <= j < |ts| - 1 ==> ts[j] == ts[..|ts| - 1][j];
  }

  lemma {:induction false} FoldLowest(limits: Limits, ts: seq<Trade>)
    requires ts != [] && InRange(limits, ts)
    ensures IsLowest(ts, Fold(limits, ts).minPrice)
  {
    var init, n := ts[..|ts| - 1], |ts| - 1;
    if init != [] {
      FoldLowest(limits, init);
      var i :| 0 <= i < |init| && init[i].price == Fold(limits, init).minPrice;
      assert ts[i] == init[i];
      assert forall j :: 0 <= j < n ==> ts[j] == init[j];
    }
    assert ts[n].price >= Fold(limits, ts).minPrice;
  }

  lemma {:induction false} FoldHighestBound(limits: Limits, ts: seq<Trade>)
    ensures var p := Fold(limits, ts).maxPrice;
            && p >= limits.min
            && (forall j :: 0 <= j < |ts| ==> ts[j].price <= p)
            && (p == limits.min || exists i :: 0 <= i < |ts| && ts[i].price == p)
  {
    if ts != [] {
      var init, n := ts[..|ts| - 1], |ts| - 1;
      FoldHighestBound(limits, init);
      assert forall j :: 0 <= j < n ==> ts[j] == init[j];
      var p := Fold(limits, init).maxPrice;
      if p != limits.min {
        var i :| 0 <= i < |init| && init[i].price == p;
        assert ts[i].price == p;
      }
      assert ts[n].price <= Fold(limits, ts).maxPrice;
    }
  }

  /** The highest price is exact unless no price reaches the smallest positive normal number: then that number is
      reported instead. */
  lemma FoldHighestIff(limits: Limits, ts: seq<Trade>)
    ensures IsHighest(ts, Fold(limits, ts).maxPrice) <==> exists i :: 0 <= i < |ts| && ts[i].price >= limits.min
    ensures !IsHighest(ts, Fold(limits, ts).maxPrice) ==> Fold(limits, ts).maxPrice == limits.min
  {
    FoldHighestBound(limits, ts);
  }

  /** Witness: of a single trade priced zero, the highest price reported is not zero. */
  lemma ZeroPriceHidden(limits: Limits, t: Trade)
    requires limits.min > 0.0 && t.price == 0.0
    ensures Fold(limits, [t]).maxPrice == limits.min && !IsHighest([t], Fold(limits, [t]).maxPrice)
  {
    assert [t][..0] == [];
    FoldHighestIff(limits, [t]);
  }

  lemma {:induction false} FoldVolume(limits: Limits, ts: seq<Trade>)
    ensures Fold(limits, ts).volume == TotalVolume(ts)
  {
    if ts != [] {
      FoldVolume(limits, ts[..|ts| - 1]);
    }
  }

  // ----- order of arrival -----

  predicate DistinctTimes(ts: seq<Trade>) {
    forall i, j :: 0 <= i < j < |ts| ==> ts[i].timestamp != ts[j].timestamp
  }

  lemma Occurs(ts: seq<Trade>, us: seq<Trade>, i: int) returns (k: int)
    requires multiset(ts) == multiset(us) && 0 <= i < |ts|
    ensures 0 <= k < |us| && us[k] == ts[i]
  {
    assert ts[i] in multiset(ts);
    assert ts[i] in us;
    k :| 0 <= k < |us| && us[k] == ts[i];
  }

  lemma SameOpen(limits: Limits, ts: seq<Trade>, us: seq<Trade>)
    requires ts != [] && us != [] && InRange(limits, ts) && InRange(limits, us) && DistinctTimes(us)
    requires multiset(ts) == multiset(us)
    ensures var c, d := Fold(limits, ts), Fold(limits, us);
            c.openTimestamp == d.openTimestamp && c.openPrice == d.openPrice
  {
    var c, d := Fold(limits, ts), Fold(limits, us);
    FoldOpens(limits, ts);
    FoldOpens(limits, us);
    var i :| FirstEarliest(ts, i) && c.openTimestamp == ts[i].timestamp && c.openPrice == ts[i].price;
    var j :| FirstEarliest(us, j) && d.openTimestamp == us[j].timestamp && d.openPrice == us[j].price;
    var k := Occurs(ts, us, i);
    var l := Occurs(us, ts, j);
    assert us[k].timestamp == us[j].timestamp;
    assert k == j;
  }

  lemma SameClose(limits: Limits, ts: seq<Trade>, us: seq<Trade>)
    requires ts != [] && us != [] && InRange(limits, ts) && InRange(limits, us) && DistinctTimes(us)
    requires multiset(ts) == multiset(us)
    ensures var c, d := Fold(limits, ts), Fold(limits, us);
            c.closeTimestamp == d.closeTimestamp && c.closePrice == d.closePrice
  {
    var c, d := Fold(limits, ts), Fold(limits, us);
    FoldCloses(limits, ts);
    FoldCloses(limits, us);
    var i :| LastLatest(ts, i) && c.closeTimestamp == ts[i].timestamp && c.closePrice == ts[i].price;
    var j :| LastLatest(us, j) && d.closeTimestamp == us[j].timestamp && d.closePrice == us[j].price;
    var k := Occurs(ts, us, i);
    var l := Occurs(us, ts, j);
    assert us[k].timestamp == us[j].timestamp;
    assert k == j;
  }

  lemma LowestAtMost(limits: Limits, ts: seq<Trade>, us: seq<Trade>)
    requires ts != [] && us != [] && InRange(limits, ts) && InRange(limits, us) && multiset(ts) == multiset(us)
    ensures Fold(limits, ts).minPrice <= Fold(limits, us).minPrice
  {
    FoldLowest(limits, ts);
    FoldLowest(limits, us);
    var i :| 0 <= i < |us| && us[i].price == Fold(limits, us).minPrice;
    var k := Occurs(us, ts, i);
  }

  lemma HighestAtLeast(limits: Limits, ts: seq<Trade>, us: seq<Trade>)
    requires multiset(ts) == multiset(us)
    ensures Fold(limits, ts).maxPrice >= Fold(limits, us).maxPrice
  {
    FoldHighestBound(limits, ts);
    FoldHighestBound(limits, us);
    if Fold(limits, us).maxPrice != limits.min {
      var i :| 0 <= i < |us| && us[i].price == Fold(limits, us).maxPrice;
      var k := Occurs(us, ts, i);
    }
  }

  lemma {:induction false} VolumeWithout(ts: seq<Trade>, k: int)
    requires 0 <= k < |ts|
    ensures TotalVolume(ts) == TotalVolume(ts[..k] + ts[k + 1..]) + Scale(ts[k].volume)
  {
    var init := ts[..|ts| - 1];
    if k == |ts| - 1 {
      assert ts[..k] + ts[k + 1..] == init;
    } else {
      var rest := ts[..k] + ts[k + 1..];
      VolumeWithout(init, k);
      assert rest[..|rest| - 1] == init[..k] + init[k + 1..];
      assert rest[|rest| - 1] == ts[|ts| - 1];
    }
  }

  lemma {:induction false} SameVolume(ts: seq<Trade>, us: seq<Trade>)
    requires multiset(ts) == multiset(us)
    ensures TotalVolume(ts) == TotalVolume(us)
    decreases |ts|
  {
    if ts == [] {
      assert |multiset(us)| == 0;
    } else {
      var n := |ts| - 1;
      var k := Occurs(ts, us, n);
      assert ts == ts[..n] + [ts[n]];
      assert us == us[..k] + [us[k]] + us[k + 1..];
      assert multiset(us[..k] + us[k + 1..]) == multiset(us) - multiset{us[k]};
      assert multiset(ts[..n]) == multiset(ts) - multiset{ts[n]};
      SameVolume(ts[..n], us[..k] + us[k + 1..]);
      VolumeWithout(us, k);
    }
  }

  /** With distinct timestamps the candlestick does not depend on the order of arrival. */
  lemma OrderOfArrivalIrrelevant(limits: Limits, ts: seq<Trade>, us: seq<Trade>)
    requires InRange(limits, ts) && DistinctTimes(ts) && multiset(ts) == multiset(us)
    ensures Fold(limits, ts) == Fold(limits, us)
  {
    PermutationKeeps(limits, ts, us);
    FoldVolume(limits, ts);
    FoldVolume(limits, us);
    SameVolume(ts, us);
    HighestAtLeast(limits, ts, us);
    HighestAtLeast(limits, us, ts);
    assert |ts| == |multiset(ts)| == |multiset(us)| == |us|;
    if ts != [] {
      SameOpen(limits, us, ts);
      SameClose(limits, us, ts);
      LowestAtMost(limits, ts, us);
      LowestAtMost(limits, us, ts);
    }
  }

  lemma PermutationKeeps(limits: Limits, ts: seq<Trade>, us: seq<Trade>)
    requires InRange(limits, ts) && multiset(ts) == multiset(us)
    ensures InRange(limits, us)
  {
    forall i | 0 <= i < |us|
      ensures INT64_MIN <= us[i].timestamp < INT64_MAX && us[i].price <= limits.max
    {
      var k := Occurs(us, ts, i);
    }
  }
}
