/** What calls add to a moving average, and the sums recomputed from it. */
module Ledgers {
  import opened Sequences
  import opened Sets
  import opened Trades
  import opened MovingAverage

  /** What a call adds: to which minute, how much, and from which trades. */
  datatype Share = Share(minute: int, value: SimpleAverage, trades: seq<Trade>)

  type Ledger = seq<Share>

  // ----- recomputation -----

  function Sum(ledger: Ledger): SimpleAverage {
    if ledger == [] then EMPTY else Sum(Init(ledger)).Plus(Last(ledger).value)
  }

  function MinuteTotal(ledger: Ledger, minute: int): SimpleAverage {
    if ledger == [] then EMPTY
    else
      var before := MinuteTotal(Init(ledger), minute);
      if Last(ledger).minute == minute then before.Plus(Last(ledger).value) else before
  }

  /** The minutes from lo up to, not including, hi. */
  function WindowTotal(ledger: Ledger, lo: int, hi: int): SimpleAverage {
    if ledger == [] then EMPTY
    else
      var before := WindowTotal(Init(ledger), lo, hi);
      if lo <= Last(ledger).minute < hi then before.Plus(Last(ledger).value) else before
  }

  function TradesIn(ledger: Ledger): seq<Trade> {
    if ledger == [] then [] else TradesIn(Init(ledger)) + Last(ledger).trades
  }

  function Minutes(ledger: Ledger): set<int> {
    if ledger == [] then {} else Minutes(Init(ledger)) + {Last(ledger).minute}
  }

  /** The shares of some minutes, in order. */
  function Only(ledger: Ledger, minutes: set<int>): Ledger {
    if ledger == [] then []
    else if Last(ledger).minute in minutes then Only(Init(ledger), minutes) + [Last(ledger)]
    else Only(Init(ledger), minutes)
  }

  /** The sums of some minutes. */
  function EntriesOf(minutes: set<int>, ledger: Ledger): PerMinute { map j | j in minutes :: MinuteTotal(ledger, j) }

  // ----- one more share -----

  lemma MinutesGrow(ledger: Ledger, e: Share)
    ensures Minutes(ledger + [e]) == Minutes(ledger) + {e.minute}
  {
    Appended(ledger, e);
  }

  lemma MinuteTotalGrows(ledger: Ledger, e: Share, k: int)
    ensures MinuteTotal(ledger + [e], k)
         == if e.minute == k then MinuteTotal(ledger, k).Plus(e.value) else MinuteTotal(ledger, k)
  {
    Appended(ledger, e);
  }

  lemma SumGrows(ledger: Ledger, e: Share)
    ensures Sum(ledger + [e]) == Sum(ledger).Plus(e.value)
    ensures TradesIn(ledger + [e]) == TradesIn(ledger) + e.trades
  {
    Appended(ledger, e);
  }

  lemma WindowTotalGrows(ledger: Ledger, e: Share, lo: int, hi: int)
    ensures WindowTotal(ledger + [e], lo, hi)
         == if lo <= e.minute < hi then WindowTotal(ledger, lo, hi).Plus(e.value) else WindowTotal(ledger, lo, hi)
  {
    Appended(ledger, e);
  }

  // ----- some minutes only -----

  lemma {:induction false} AbsentIsEmpty(ledger: Ledger, k: int)
    requires k !in Minutes(ledger)
    ensures MinuteTotal(ledger, k) == EMPTY
  {
    if ledger != [] {
      AbsentIsEmpty(Init(ledger), k);
    }
  }

  lemma {:induction false} OnlyMinutes(ledger: Ledger, minutes: set<int>)
    ensures Minutes(Only(ledger, minutes)) == Minutes(ledger) * minutes
  {
    if ledger != [] {
      OnlyMinutes(Init(ledger), minutes);
      if Last(ledger).minute in minutes {
        MinutesGrow(Only(Init(ledger), minutes), Last(ledger));
      }
    }
  }

  lemma {:induction false} OnlyMinuteTotal(ledger: Ledger, minutes: set<int>, k: int)
    requires k in minutes
    ensures MinuteTotal(Only(ledger, minutes), k) == MinuteTotal(ledger, k)
  {
    if ledger != [] {
      OnlyMinuteTotal(Init(ledger), minutes, k);
      if Last(ledger).minute in minutes {
        MinuteTotalGrows(Only(Init(ledger), minutes), Last(ledger), k);
      }
    }
  }

  lemma {:induction false} OnlyTrades(ledger: Ledger, minutes: set<int>)
    ensures forall t :: t in TradesIn(Only(ledger, minutes)) ==> t in TradesIn(ledger)
  {
    if ledger != [] {
      OnlyTrades(Init(ledger), minutes);
      if Last(ledger).minute in minutes {
        SumGrows(Only(Init(ledger), minutes), Last(ledger));
      }
    }
  }

  lemma {:induction false} MinutesContain(ledger: Ledger, i: nat)
    requires i < |ledger|
    ensures ledger[i].minute in Minutes(ledger)
  {
    if i < |ledger| - 1 {
      MinutesContain(Init(ledger), i);
    }
  }

  /** A window is the shares of its minutes. */
  lemma {:induction false} WindowIsOnly(ledger: Ledger, lo: int, hi: int, minutes: set<int>)
    requires forall i :: 0 <= i < |ledger| ==> (ledger[i].minute in minutes <==> lo <= ledger[i].minute < hi)
    ensures WindowTotal(ledger, lo, hi) == Sum(Only(ledger, minutes))
  {
    if ledger != [] {
      WindowIsOnly(Init(ledger), lo, hi, minutes);
      SplitLast(ledger);
      WindowTotalGrows(Init(ledger), Last(ledger), lo, hi);
      if Last(ledger).minute in minutes {
        SumGrows(Only(Init(ledger), minutes), Last(ledger));
      }
    }
  }

  lemma {:induction false} OnlyAll(ledger: Ledger, minutes: set<int>)
    requires forall i :: 0 <= i < |ledger| ==> ledger[i].minute in minutes
    ensures Only(ledger, minutes) == ledger
  {
    if ledger != [] {
      OnlyAll(Init(ledger), minutes);
      SplitLast(ledger);
    }
  }

  // ----- per-minute sums add up -----

  lemma {:induction false} EmptyEntries(m: PerMinute)
    requires forall k :: k in m ==> m[k] == EMPTY
    ensures Total(m) == EMPTY
    decreases |m|
  {
    if m.Keys != {} {
      var k := Pick(m.Keys);
      RemovingShrinks(m, k);
      TotalSplit(m, k);
      EmptyEntries(m - {k});
    }
  }

  lemma EntriesGrow(minutes: set<int>, ledger: Ledger, e: Share)
    ensures EntriesOf(minutes, ledger + [e]) ==
              if e.minute in minutes
              then EntriesOf(minutes, ledger)[e.minute := MinuteTotal(ledger, e.minute).Plus(e.value)]
              else EntriesOf(minutes, ledger)
  {
    forall j | j in minutes
      ensures MinuteTotal(ledger + [e], j)
           == if e.minute == j then MinuteTotal(ledger, j).Plus(e.value) else MinuteTotal(ledger, j)
    {
      MinuteTotalGrows(ledger, e, j);
    }
  }

  lemma ShareAdded(m: PerMinute, k: int, c: SimpleAverage)
    ensures Total(m[k := At(m, k).Plus(c)]) == Total(m).Plus(c)
  {
    TotalUpdate(m, k, At(m, k).Plus(c));
    MinusLaws(Total(m), At(m, k), c);
  }

  lemma EntriesTotalGrows(minutes: set<int>, ledger: Ledger, e: Share)
    ensures Total(EntriesOf(minutes, ledger + [e]))
         == if e.minute in minutes then Total(EntriesOf(minutes, ledger)).Plus(e.value)
            else Total(EntriesOf(minutes, ledger))
  {
    EntriesGrow(minutes, ledger, e);
    if e.minute in minutes {
      ShareAdded(EntriesOf(minutes, ledger), e.minute, e.value);
    }
  }

  /** The sums of some minutes add up to the sum of their shares. */
  lemma {:induction false} EntriesTotal(minutes: set<int>, ledger: Ledger)
    ensures Total(EntriesOf(minutes, ledger)) == Sum(Only(ledger, minutes))
    decreases |ledger|
  {
    if ledger == [] {
      EmptyEntries(EntriesOf(minutes, ledger));
    } else {
      EntriesTotal(minutes, Init(ledger));
      SplitLast(ledger);
      EntriesTotalGrows(minutes, Init(ledger), Last(ledger));
      if Last(ledger).minute in minutes {
        SumGrows(Only(Init(ledger), minutes), Last(ledger));
      }
    }
  }

  /** A map of all minutes adds up to the whole. */
  lemma AllEntriesTotal(ledger: Ledger)
    ensures Total(EntriesOf(Minutes(ledger), ledger)) == Sum(ledger)
  {
    forall i | 0 <= i < |ledger|
      ensures ledger[i].minute in Minutes(ledger)
    {
      MinutesContain(ledger, i);
    }
    OnlyAll(ledger, Minutes(ledger));
    EntriesTotal(Minutes(ledger), ledger);
  }
}
