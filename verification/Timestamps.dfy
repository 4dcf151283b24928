/** Milliseconds, minutes, and the C++ integer operations they are computed with. */
module Timestamps {
  import opened Sets

  const MS_IN_MIN := 60000

  /** Division and remainder as C++ has them: toward zero. */
  function TruncDiv(x: int, y: int): int
    requires y > 0
  {
    if x >= 0 then x / y else -((-x) / y)
  }

  function TruncMod(x: int, y: int): int
    requires y > 0
  {
    x - TruncDiv(x, y) * y
  }

  function MinuteFloor(timestampMs: int): int { timestampMs - TruncMod(timestampMs, MS_IN_MIN) }

  /** Division cuts off toward zero, on both sides. */
  lemma DivisionTruncates(x: int, y: int)
    requires y > 0
    ensures x >= 0 ==> 0 <= TruncDiv(x, y) * y <= x < TruncDiv(x, y) * y + y
    ensures x <= 0 ==> TruncDiv(x, y) * y - y < x <= TruncDiv(x, y) * y <= 0
  {
    QuotientBounds(if x >= 0 then x else -x, y);
  }

  lemma QuotientBounds(x: nat, y: nat)
    requires y > 0
    ensures 0 <= x / y * y <= x < x / y * y + y
  {
    assert x == x / y * y + x % y;
  }

  predicate IsMinute(k: int) { k % MS_IN_MIN == 0 }

  /** From the epoch on, the floor is the minute that contains the timestamp. */
  lemma FloorOfTimestamp(t: int)
    requires t >= 0
    ensures IsMinute(MinuteFloor(t)) && MinuteFloor(t) % 60000 == 0 && MinuteFloor(t) <= t < MinuteFloor(t) + 60000
    ensures MinuteFloor(t) >= 0 && MinuteFloor(MinuteFloor(t)) == MinuteFloor(t)
  {
  }

  /** Before the epoch the floor, too, goes toward zero: to the end of the minute. */
  lemma FloorBeforeEpoch(t: int)
    requires t <= 0
    ensures IsMinute(MinuteFloor(t)) && MinuteFloor(t) % 60000 == 0 && MinuteFloor(t) - 60000 < t <= MinuteFloor(t) <= 0
  {
    DivisionTruncates(t, MS_IN_MIN);
    assert MinuteFloor(t) == TruncDiv(t, MS_IN_MIN) * MS_IN_MIN;
  }

  lemma FloorMonotone(s: int, t: int)
    requires 0 <= s <= t
    ensures MinuteFloor(s) <= MinuteFloor(t)
  {
    FloorOfTimestamp(s);
    FloorOfTimestamp(t);
  }

  /** A timestamp is below a minute's start exactly when its own minute is. */
  lemma BelowMinute(t: int, k: int)
    requires t >= 0 && IsMinute(k)
    ensures t < k <==> MinuteFloor(t) < k
  {
    FloorOfTimestamp(t);
  }

  // ----- counting minutes -----

  /** The start of the j-th minute before the one that starts at last. */
  function MinuteBefore(last: int, j: int): int { last - MS_IN_MIN * j }

  /** The first minute of a window of so many minutes that ends with the given one. */
  function Oldest(current: int, minutesToStore: nat): int { MinuteBefore(current, minutesToStore - 1) }

  /** The start of the window at a clock reading: what is stamped before it is too old. */
  function Threshold(now: int, minutesToStore: nat): int { Oldest(MinuteFloor(now), minutesToStore) }

  lemma MinutesBeforeAreMinutes(last: int, j: int)
    requires IsMinute(last)
    ensures IsMinute(MinuteBefore(last, j))
  {
    assert MinuteBefore(last, j) == (last / MS_IN_MIN - j) * MS_IN_MIN;
  }

  lemma {:induction false} MinutesInWindow(s: set<int>, last: int, n: nat)
    requires IsMinute(last)
    requires forall k :: k in s ==> IsMinute(k) && MinuteBefore(last, n - 1) <= k <= last
    ensures |s| <= n
    decreases n
  {
    if n == 0 {
      if s != {} {
        var k := Pick(s);
        assert false;
      }
    } else {
      var rest := s - {last};
      forall k | k in rest
        ensures k <= last - MS_IN_MIN
      {
      }
      MinutesInWindow(rest, last - MS_IN_MIN, n - 1);
    }
  }

  lemma {:induction false} AllMinutesInWindow(s: set<int>, last: int, n: nat)
    requires forall j :: 0 <= j < n ==> MinuteBefore(last, j) in s
    ensures |s| >= n
    decreases n
  {
    if n > 0 {
      var rest := s - {MinuteBefore(last, n - 1)};
      AllMinutesInWindow(rest, last, n - 1);
    }
  }
}
