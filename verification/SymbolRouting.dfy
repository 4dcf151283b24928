/** Round-robin routing of symbols to workers, and what it means for the order of each symbol's trades. */
module SymbolRouting {
  import opened Bits
  import opened WorkerProtocol

  // ----- assign_symbols -----

  /** The symbols at positions congruent to the worker's number, in order. */
  function SymbolsOf<S>(symbols: seq<S>, workers: nat, w: nat): seq<S>
    requires workers > 0
  {
    if symbols == [] then []
    else
      var n := |symbols| - 1;
      SymbolsOf(symbols[..n], workers, w) + if n % workers == w then [symbols[n]] else []
  }

  method AssignSymbols<S>(symbols: seq<S>, workers: nat) returns (groups: seq<seq<S>>)
    requires workers > 0
    ensures |groups| == workers
    ensures forall w :: 0 <= w < workers ==> groups[w] == SymbolsOf(symbols, workers, w)
  {
    groups := seq(workers, _ => []);
    for i := 0 to |symbols|
      invariant |groups| == workers
      invariant forall w :: 0 <= w < workers ==> groups[w] == SymbolsOf(symbols[..i], workers, w)
    {
      var j := i % workers;
      assert symbols[..i + 1][..i] == symbols[..i];
      groups := groups[j := groups[j] + [symbols[i]]];
    }
    assert symbols[..|symbols|] == symbols;
  }

  /** The j-th symbol of a worker's list is the one j rounds after the worker's first. */
  lemma {:induction false} RoundOf<S>(symbols: seq<S>, workers: nat, w: nat, j: nat)
    requires w < workers && j < |SymbolsOf(symbols, workers, w)|
    ensures w + j * workers < |symbols| && SymbolsOf(symbols, workers, w)[j] == symbols[w + j * workers]
  {
    var n := |symbols| - 1;
    if j < |SymbolsOf(symbols[..n], workers, w)| {
      RoundOf(symbols[..n], workers, w, j);
    } else {
      LoadOf(symbols[..n], workers, w);
      LastRound(n, workers, w, j);
    }
  }

  lemma LastRound(n: nat, workers: nat, w: nat, j: nat)
    requires w < workers && n % workers == w && j == Load(n, workers, w)
    ensures w + j * workers == n
  {
    assert j == n / workers;
  }

  // ----- create_tasks_map -----

  datatype TaskQueues = TaskQueues(recording: nat, statistics: nat)

  /** The map has exactly the symbols, each with the queues that its last position names. */
  ghost predicate MapsLast<S>(symbols: seq<S>, tasks: map<S, TaskQueues>, recordingQueues: nat, statisticsQueues: nat)
    requires recordingQueues > 0 && statisticsQueues > 0
  {
    && tasks.Keys == (set s | s in symbols)
    && forall i :: 0 <= i < |symbols| && symbols[i] !in symbols[i + 1..] ==>
         tasks[symbols[i]] == TaskQueues(i % recordingQueues, i % statisticsQueues)
  }

  lemma MapGrows<S>(symbols: seq<S>, s: S, tasks: map<S, TaskQueues>, recordingQueues: nat, statisticsQueues: nat)
    requires recordingQueues > 0 && statisticsQueues > 0
    requires MapsLast(symbols, tasks, recordingQueues, statisticsQueues)
    ensures MapsLast(symbols + [s], tasks[s := TaskQueues(|symbols| % recordingQueues, |symbols| % statisticsQueues)],
                     recordingQueues, statisticsQueues)
  {
    var longer, n := symbols + [s], |symbols|;
    forall i | 0 <= i < n && longer[i] !in longer[i + 1..]
      ensures longer[i] != s && longer[i] == symbols[i] && symbols[i] !in symbols[i + 1..]
    {
      assert longer[i + 1..] == symbols[i + 1..] + [s];
    }
  }

  lemma MapGrowsAt<S>(symbols: seq<S>, i: nat, tasks: map<S, TaskQueues>, recordingQueues: nat, statisticsQueues: nat)
    requires recordingQueues > 0 && statisticsQueues > 0 && i < |symbols|
    requires MapsLast(symbols[..i], tasks, recordingQueues, statisticsQueues)
    ensures MapsLast(symbols[..i + 1], tasks[symbols[i] := TaskQueues(i % recordingQueues, i % statisticsQueues)],
                     recordingQueues, statisticsQueues)
  {
    MapGrows(symbols[..i], symbols[i], tasks, recordingQueues, statisticsQueues);
    assert symbols[..i + 1] == symbols[..i] + [symbols[i]];
  }

  /** Queues are named by their positions in the two vectors. */
  method CreateTasksMap<S(==)>(symbols: seq<S>, recordingQueues: nat, statisticsQueues: nat)
    returns (tasks: map<S, TaskQueues>)
    requires recordingQueues > 0 && statisticsQueues > 0
    ensures MapsLast(symbols, tasks, recordingQueues, statisticsQueues)
  {
    tasks := map[];
    for i := 0 to |symbols|
      invariant MapsLast(symbols[..i], tasks, recordingQueues, statisticsQueues)
    {
      MapGrowsAt(symbols, i, tasks, recordingQueues, statisticsQueues);
      tasks := tasks[symbols[i] := TaskQueues(i % recordingQueues, i % statisticsQueues)];
    }
    assert symbols[..|symbols|] == symbols;
  }

  // ----- the routing is a balanced partition -----

  predicate Distinct<S(==)>(symbols: seq<S>) { forall i, j :: 0 <= i < j < |symbols| ==> symbols[i] != symbols[j] }

  /** Every symbol goes to the worker its position names and, if symbols are distinct, to no other. */
  lemma {:induction false} RoutedToOneWorker<S>(symbols: seq<S>, workers: nat, i: nat, w: nat)
    requires workers > 0 && Distinct(symbols) && i < |symbols|
    ensures symbols[i] in SymbolsOf(symbols, workers, w) <==> i % workers == w
  {
    var n := |symbols| - 1;
    var init := symbols[..n];
    if i < n {
      RoutedToOneWorker(init, workers, i, w);
      assert init[i] == symbols[i];
    } else {
      OnlyOwnSymbols(init, workers, w);
    }
  }

  lemma {:induction false} OnlyOwnSymbols<S>(symbols: seq<S>, workers: nat, w: nat)
    requires workers > 0
    ensures forall s :: s in SymbolsOf(symbols, workers, w) ==> s in symbols
  {
    if symbols != [] {
      OnlyOwnSymbols(symbols[..|symbols| - 1], workers, w);
    }
  }

  /** The first n % workers workers have one symbol more than the others. */
  function Load(n: nat, workers: nat, w: nat): nat
    requires workers > 0
  {
    n / workers + if w < n % workers then 1 else 0
  }

  lemma {:induction false} LoadOf<S>(symbols: seq<S>, workers: nat, w: nat)
    requires w < workers
    ensures |SymbolsOf(symbols, workers, w)| == Load(|symbols|, workers, w)
  {
    if symbols == [] {
      NoLoad(workers, w);
    } else {
      var n := |symbols| - 1;
      LoadOf(symbols[..n], workers, w);
      NextLoad(n, workers, w);
    }
  }

  lemma NoLoad(d: nat, w: nat)
    requires d > 0
    ensures Load(0, d, w) == 0
  {
    QuotientUnique(0, d, 0, 0);
  }

  lemma NextLoad(n: nat, d: nat, w: nat)
    requires w < d
    ensures Load(n + 1, d, w) == Load(n, d, w) + if n % d == w then 1 else 0
  {
    MulStep(n / d, d);
    if n % d == d - 1 {
      QuotientUnique(n + 1, d, n / d + 1, 0);
    } else {
      QuotientUnique(n + 1, d, n / d, n % d + 1);
    }
  }

  /** So any two loads differ by at most one. */
  lemma LoadsBalanced(n: nat, workers: nat, v: nat, w: nat)
    requires v < workers && w < workers
    ensures Load(n, workers, v) <= Load(n, workers, w) + 1
  {
  }

  /** The two ways of routing agree for both kinds of queue: where there are as many queues as workers, a worker is
      assigned exactly the symbols whose trades reach its queue. */
  lemma RoutingsAgree<S>(symbols: seq<S>, tasks: map<S, TaskQueues>, recordingQueues: nat, statisticsQueues: nat,
                         i: nat, w: nat)
    requires recordingQueues > 0 && statisticsQueues > 0 && Distinct(symbols) && i < |symbols|
    requires MapsLast(symbols, tasks, recordingQueues, statisticsQueues)
    ensures symbols[i] in SymbolsOf(symbols, recordingQueues, w) <==> tasks[symbols[i]].recording == w
    ensures symbols[i] in SymbolsOf(symbols, statisticsQueues, w) <==> tasks[symbols[i]].statistics == w
  {
    RoutedToOneWorker(symbols, recordingQueues, i, w);
    RoutedToOneWorker(symbols, statisticsQueues, i, w);
    assert symbols[i] !in symbols[i + 1..];
  }

  // ----- each symbol's trades, from arrival to the worker -----

  datatype Trade<S, P> = Trade(symbol: S, payload: P)

  /** The trades of one symbol, in order. */
  function BySymbol<S(==), P>(ts: seq<Trade<S, P>>, s: S): seq<Trade<S, P>> {
    if ts == [] then []
    else BySymbol(ts[..|ts| - 1], s) + if ts[|ts| - 1].symbol == s then [ts[|ts| - 1]] else []
  }

  /** What the client pushes on one queue: the arrivals whose symbol the map sends there, in order. */
  function PushedTo<S(==), P>(ts: seq<Trade<S, P>>, queueOf: map<S, nat>, q: nat): seq<Trade<S, P>>
    requires forall t :: t in ts ==> t.symbol in queueOf
  {
    if ts == [] then []
    else
      var last := ts[|ts| - 1];
      PushedTo(ts[..|ts| - 1], queueOf, q) + if queueOf[last.symbol] == q then [last] else []
  }

  /** The part consists of the elements of the whole at these positions, in order. */
  ghost predicate Selects<T>(whole: seq<T>, at: seq<nat>, part: seq<T>) {
    && |at| == |part|
    && (forall i, j :: 0 <= i < j < |at| ==> at[i] < at[j])
    && (forall i :: 0 <= i < |at| ==> at[i] < |whole| && part[i] == whole[at[i]])
  }

  lemma SelectsNext<T>(whole: seq<T>, at: seq<nat>, part: seq<T>, next: T)
    requires Selects(whole, at, part)
    ensures Selects(whole + [next], at, part)
    ensures Selects(whole + [next], at + [|whole|], part + [next])
    ensures |whole| !in at
  {
  }

  /** Exactly the arrivals of the symbol are kept, in the order of their arrival. */
  lemma {:induction false} SymbolSelected<S, P>(ts: seq<Trade<S, P>>, s: S) returns (at: seq<nat>)
    ensures Selects(ts, at, BySymbol(ts, s))
    ensures forall k :: 0 <= k < |ts| ==> (k in at <==> ts[k].symbol == s)
  {
    at := [];
    if ts != [] {
      var n := |ts| - 1;
      assert ts == ts[..n] + [ts[n]];
      at := SymbolSelected(ts[..n], s);
      SelectsNext(ts[..n], at, BySymbol(ts[..n], s), ts[n]);
      var selected := at;
      at := if ts[n].symbol == s then selected + [n] else selected;
      forall k | 0 <= k < n
        ensures k in at <==> ts[k].symbol == s
      {
        assert k in at <==> k in selected;
      }
    }
  }

  /** Exactly the arrivals of the symbols sent to the queue are pushed on it, in the order of their arrival. */
  lemma {:induction false} RoutedSelected<S, P>(ts: seq<Trade<S, P>>, queueOf: map<S, nat>, q: nat)
    returns (at: seq<nat>)
    requires forall t :: t in ts ==> t.symbol in queueOf
    ensures Selects(ts, at, PushedTo(ts, queueOf, q))
    ensures forall k :: 0 <= k < |ts| ==> (k in at <==> queueOf[ts[k].symbol] == q)
  {
    at := [];
    if ts != [] {
      var n := |ts| - 1;
      assert ts == ts[..n] + [ts[n]];
      at := RoutedSelected(ts[..n], queueOf, q);
      SelectsNext(ts[..n], at, PushedTo(ts[..n], queueOf, q), ts[n]);
      var selected := at;
      at := if queueOf[ts[n].symbol] == q then selected + [n] else selected;
      forall k | 0 <= k < n
        ensures k in at <==> queueOf[ts[k].symbol] == q
      {
        assert k in at <==> k in selected;
      }
    }
  }

  lemma BySymbolGrows<S, P>(ts: seq<Trade<S, P>>, t: Trade<S, P>, s: S)
    ensures BySymbol(ts + [t], s) == BySymbol(ts, s) + if t.symbol == s then [t] else []
  {
    assert (ts + [t])[..|ts|] == ts;
  }

  /** Routing loses and reorders nothing of a symbol. */
  lemma {:induction false} RoutingKeepsSymbol<S, P>(ts: seq<Trade<S, P>>, queueOf: map<S, nat>, s: S)
    requires s in queueOf && forall t :: t in ts ==> t.symbol in queueOf
    ensures BySymbol(PushedTo(ts, queueOf, queueOf[s]), s) == BySymbol(ts, s)
  {
    if ts != [] {
      var init, last := ts[..|ts| - 1], ts[|ts| - 1];
      var pushed := PushedTo(init, queueOf, queueOf[s]);
      RoutingKeepsSymbol(init, queueOf, s);
      BySymbolGrows(pushed, last, s);
      assert PushedTo(ts, queueOf, queueOf[s])
          == if queueOf[last.symbol] == queueOf[s] then pushed + [last] else pushed;
    }
  }

  lemma {:induction false} BySymbolConcat<S, P>(ts: seq<Trade<S, P>>, us: seq<Trade<S, P>>, s: S)
    ensures BySymbol(ts + us, s) == BySymbol(ts, s) + BySymbol(us, s)
    decreases |us|
  {
    if us == [] {
      assert ts + us == ts;
    } else {
      var init, last := us[..|us| - 1], us[|us| - 1];
      BySymbolConcat(ts, init, s);
      BySymbolGrows(ts + init, last, s);
      BySymbolGrows(init, last, s);
      assert us == init + [last] && ts + us == ts + init + [last];
    }
  }

  /** A stretch of consecutive trades holds a stretch of consecutive trades of each symbol. */
  lemma StretchOfSymbol<S, P>(ts: seq<Trade<S, P>>, from: nat, part: seq<Trade<S, P>>, s: S)
    requires Stretch(ts, from, part)
    ensures Stretch(BySymbol(ts, s), |BySymbol(ts[..from], s)|, BySymbol(part, s))
  {
    var before, rest := ts[..from], ts[from + |part|..];
    assert ts == before + part + rest;
    BySymbolConcat(before + part, rest, s);
    BySymbolConcat(before, part, s);
    Segment(BySymbol(before, s), BySymbol(part, s), BySymbol(ts, s));
  }

  lemma StretchOfLonger<T>(whole: seq<T>, longer: seq<T>, from: nat, part: seq<T>)
    requires whole <= longer && Stretch(whole, from, part)
    ensures Stretch(longer, from, part) && longer[..from] == whole[..from]
  {
  }

  /** End to end: if the calls of enqueue have so far brought arrivals sent to this queue, in order, then in every
      interleaving what any run of its worker has processed of a symbol are consecutive arrivals of that symbol, in
      order, from where the items its earlier runs took end. */
  lemma ProcessedInOrder<S, P>(arrivals: seq<Trade<S, P>>, queueOf: map<S, nat>, s: S,
                               actions: seq<Action<Trade<S, P>>>, j: nat)
    requires s in queueOf && forall t :: t in arrivals ==> t.symbol in queueOf
    requires Possible(Start(), actions) && j < |Runs(After(Start(), actions))|
    requires Offered(actions) <= PushedTo(arrivals, queueOf, queueOf[s])
    ensures var sys, routed := After(Start(), actions), PushedTo(arrivals, queueOf, queueOf[s]);
            && TakenBefore(sys, j) <= |routed|
            && Stretch(BySymbol(arrivals, s), |BySymbol(routed[..TakenBefore(sys, j)], s)|,
                       BySymbol(ProcessedOf(Runs(sys)[j]), s))
  {
    var sys, routed := After(Start(), actions), PushedTo(arrivals, queueOf, queueOf[s]);
    EveryRunInOrder(actions, j);
    EnqueuedAreOffered(actions);
    StretchOfLonger(sys.enqueued, routed, TakenBefore(sys, j), ProcessedOf(Runs(sys)[j]));
    StretchOfSymbol(routed, TakenBefore(sys, j), ProcessedOf(Runs(sys)[j]), s);
    RoutingKeepsSymbol(arrivals, queueOf, s);
  }

  /** So in a worker's first run they are an initial part of that symbol's arrivals. */
  lemma FirstRunInOrder<S, P>(arrivals: seq<Trade<S, P>>, queueOf: map<S, nat>, s: S, actions: seq<Action<Trade<S, P>>>)
    requires s in queueOf && forall t :: t in arrivals ==> t.symbol in queueOf
    requires Possible(Start(), actions) && Offered(actions) <= PushedTo(arrivals, queueOf, queueOf[s])
    ensures BySymbol(ProcessedOf(Runs(After(Start(), actions))[0]), s) <= BySymbol(arrivals, s)
  {
    ProcessedInOrder(arrivals, queueOf, s, actions, 0);
  }
}
