/** A thread-safe queue, its producer, its worker and the caller of stop and start, as interleaved steps.

    A step is one access to shared state: locking, one test of the wait predicate, going to sleep, a push,
    a notification.  The mutex admits one holder; sleeping releases it in the same step; a sleeper may also
    wake for no reason. */
module WorkerProtocol {

  datatype Holder = Nobody | Worker | Producer | Stopper

  datatype WorkerPc<T> =
    | LoopTop                      // about to lock the queue
    | TestEmpty                    // holds the lock, about to test whether the queue is empty
    | TestFlag                     // holds the lock, the queue was empty, about to read the stop flag
    | FallAsleep                   // holds the lock, both tests failed
    | Asleep                       // waits on the condition variable, lock released
    | Waking                       // notified, about to lock again
    | Condition                    // holds the lock, the wait is over, about to read the stop flag again
    | Take                         // holds the lock, the flag was clear, about to pop the front item
    | ReturnedItem(item: T)        // back in the loop with an item, about to read the stop flag
    | ReturnedDefault              // back in the loop with a default value, about to read the stop flag
    | Working(current: T)
    | WorkingOnDefault             // never reached: the default value would be processed
    | Finished

  datatype StopperPc =
    | Idle                         // stop not called
    | FlagSet                      // inside stop, about to lock the queue
    | Locked                       // holds the lock, about to notify all
    | Notified                     // holds the lock, about to release it
    | Joining                      // waits for the worker's thread to end
    | Joined

  datatype ProducerPc<T> =
    | Outside
    | Entered(next: T)             // holds the lock, about to push
    | Pushed                       // holds the lock, about to notify one
    | Leaving                      // holds the lock, about to release it

  datatype Outcome<T> = Processed(item: T) | Dropped(item: T)

  datatype System<T> = System(
    queue: seq<T>, stopFlag: bool, mutex: Holder,
    worker: WorkerPc<T>, stopper: StopperPc, producer: ProducerPc<T>,
    enqueued: seq<T>,              // history: everything ever pushed
    ended: seq<seq<Outcome<T>>>,   // history: the same as the next, for each run of the worker before the last start
    outcomes: seq<Outcome<T>>)     // history: what became of the items this run of the worker took

  datatype Action<T> = WorkerStep | SpuriousWake | StopperStep | Restart | Enqueue(item: T) | ProducerStep

  function Start<T>(): System<T> { System([], false, Nobody, LoopTop, Idle, Outside, [], [], []) }

  // ----- enabledness -----

  predicate NeedsLock<T>(w: WorkerPc<T>) { w.LoopTop? || w.Waking? }

  predicate Enabled<T>(s: System<T>, a: Action<T>) {
    match a
    case WorkerStep => !s.worker.Asleep? && !s.worker.Finished? && (NeedsLock(s.worker) ==> s.mutex == Nobody)
    case SpuriousWake => s.worker.Asleep?
    case StopperStep =>
      && (s.stopper == FlagSet ==> s.mutex == Nobody)
      && (s.stopper == Joining ==> s.worker.Finished?)
      && s.stopper != Joined
    case Restart => s.stopper == Joined
    case Enqueue(_) => s.producer.Outside? && s.mutex == Nobody
    case ProducerStep => !s.producer.Outside?
  }

  // ----- steps -----

  /** dequeueConditional and the worker's loop. */
  function WorkerNext<T>(s: System<T>): System<T>
    requires Enabled(s, WorkerStep)
    requires s.worker.Take? ==> |s.queue| > 0
  {
    match s.worker
    case LoopTop => s.(worker := TestEmpty, mutex := Worker)
    case Waking => s.(worker := TestEmpty, mutex := Worker)
    case TestEmpty => s.(worker := if |s.queue| > 0 then Condition else TestFlag)
    case TestFlag => s.(worker := if s.stopFlag then Condition else FallAsleep)
    case FallAsleep => s.(worker := Asleep, mutex := Nobody)
    case Condition => if s.stopFlag then s.(worker := ReturnedDefault, mutex := Nobody) else s.(worker := Take)
    case Take => s.(worker := ReturnedItem(s.queue[0]), queue := s.queue[1..], mutex := Nobody)
    case ReturnedItem(item) =>
      if s.stopFlag then s.(worker := Finished, outcomes := s.outcomes + [Dropped(item)])
      else s.(worker := Working(item))
    case ReturnedDefault => s.(worker := if s.stopFlag then Finished else WorkingOnDefault)
    case WorkingOnDefault => s.(worker := LoopTop)
    case Working(item) => s.(worker := LoopTop, outcomes := s.outcomes + [Processed(item)])
  }

  function Woken<T>(w: WorkerPc<T>): WorkerPc<T> { if w.Asleep? then Waking else w }

  /** stop: set the flag, wake the consumers, join. */
  function StopperNext<T>(s: System<T>): System<T>
    requires Enabled(s, StopperStep)
  {
    match s.stopper
    case Idle => s.(stopper := FlagSet, stopFlag := true)
    case FlagSet => s.(stopper := Locked, mutex := Stopper)
    case Locked => s.(stopper := Notified, worker := Woken(s.worker))
    case Notified => s.(stopper := Joining, mutex := Nobody)
    case Joining => s.(stopper := Joined)
  }

  /** enqueue: push, notify one, release. */
  function ProducerNext<T>(s: System<T>): System<T>
    requires Enabled(s, ProducerStep)
  {
    match s.producer
    case Entered(item) => s.(producer := Pushed, queue := s.queue + [item], enqueued := s.enqueued + [item])
    case Pushed => s.(producer := Leaving, worker := Woken(s.worker))
    case Leaving => s.(producer := Outside, mutex := Nobody)
  }

  function Next<T>(s: System<T>, a: Action<T>): System<T>
    requires Enabled(s, a)
    requires a.WorkerStep? && s.worker.Take? ==> |s.queue| > 0
  {
    match a
    case WorkerStep => WorkerNext(s)
    case SpuriousWake => s.(worker := Waking)
    case StopperStep => StopperNext(s)
    case Restart =>
      s.(stopFlag := false, stopper := Idle, worker := LoopTop, ended := s.ended + [s.outcomes], outcomes := [])
    case Enqueue(item) => s.(producer := Entered(item), mutex := Producer)
    case ProducerStep => ProducerNext(s)
  }

  // ----- the invariant -----

  predicate WorkerHolds<T>(w: WorkerPc<T>) {
    w.TestEmpty? || w.TestFlag? || w.FallAsleep? || w.Condition? || w.Take?
  }

  predicate StopperHolds(p: StopperPc) { p == Locked || p == Notified }

  /** Each thread is inside its critical section exactly when it holds the mutex. */
  predicate Exclusive<T>(s: System<T>) {
    && (s.mutex == Worker <==> WorkerHolds(s.worker))
    && (s.mutex == Stopper <==> StopperHolds(s.stopper))
    && (s.mutex == Producer <==> !s.producer.Outside?)
  }

  /** wakeConsumers has notified. */
  predicate WokenUp(p: StopperPc) { p == Notified || p == Joining || p == Joined }

  function ItemsOf<T>(os: seq<Outcome<T>>): seq<T> {
    if os == [] then [] else ItemsOf(os[..|os| - 1]) + [os[|os| - 1].item]
  }

  function ProcessedOf<T>(os: seq<Outcome<T>>): seq<T> {
    if os == [] then []
    else ProcessedOf(os[..|os| - 1]) + if os[|os| - 1].Processed? then [os[|os| - 1].item] else []
  }

  /** Everything taken in a sequence of runs, run after run. */
  function ItemsOfRuns<T>(runs: seq<seq<Outcome<T>>>): seq<T> {
    if runs == [] then [] else ItemsOfRuns(runs[..|runs| - 1]) + ItemsOf(runs[|runs| - 1])
  }

  /** All items of a run are processed, except that the last may be dropped if the worker has ended. */
  predicate CleanRun<T>(os: seq<Outcome<T>>, ended: bool) {
    && (forall k :: 0 <= k < |os| - 1 ==> os[k].Processed?)
    && (os != [] && os[|os| - 1].Dropped? ==> ended)
  }

  /** The item the worker has taken and not yet finished. */
  function InHand<T>(w: WorkerPc<T>): seq<T> {
    match w
    case ReturnedItem(item) => [item]
    case Working(item) => [item]
    case _ => []
  }

  predicate Safe<T>(s: System<T>) {
    && Exclusive(s)
    // the flag is up from the first step of stop until start
    && (s.stopFlag <==> s.stopper != Idle)
    // a wait that is over found an item or the flag, so nothing is popped from an empty queue
    && (s.worker.Condition? ==> |s.queue| > 0 || s.stopFlag)
    && (s.worker.Take? ==> |s.queue| > 0)
    // no lost wake-up: a worker goes to sleep on an empty queue, and whoever ends that notifies it
    && (s.worker.TestFlag? || s.worker.FallAsleep? ==> |s.queue| == 0)
    && (s.worker.Asleep? && |s.queue| > 0 ==> s.producer.Pushed?)
    && (WokenUp(s.stopper) ==> !s.worker.Asleep? && !s.worker.FallAsleep?)
    // a default value is returned only under the flag, and never processed
    && (s.worker.ReturnedDefault? ==> s.stopFlag)
    && !s.worker.WorkingOnDefault?
    // threads end only after the flag
    && (s.worker.Finished? ==> s.stopFlag)
    && (s.stopper == Joined ==> s.worker.Finished?)
  }

  ghost predicate Accounted<T>(s: System<T>) {
    // first in, first out, nothing lost: every item is done, in hand, or still queued, in this order
    && s.enqueued == ItemsOfRuns(s.ended) + ItemsOf(s.outcomes) + InHand(s.worker) + s.queue
    && CleanRun(s.outcomes, s.worker.Finished?)
    && forall run :: run in s.ended ==> CleanRun(run, true)
  }

  ghost predicate Inv<T>(s: System<T>) { Safe(s) && Accounted(s) }

  lemma OutcomeAdded<T>(os: seq<Outcome<T>>, o: Outcome<T>)
    ensures ItemsOf(os + [o]) == ItemsOf(os) + [o.item]
    ensures ProcessedOf(os + [o]) == ProcessedOf(os) + if o.Processed? then [o.item] else []
  {
    assert (os + [o])[..|os|] == os;
  }

  lemma RunAdded<T>(runs: seq<seq<Outcome<T>>>, run: seq<Outcome<T>>)
    ensures ItemsOfRuns(runs + [run]) == ItemsOfRuns(runs) + ItemsOf(run)
  {
    assert (runs + [run])[..|runs|] == runs;
  }

  lemma NextKeepsSafe<T>(s: System<T>, a: Action<T>)
    requires Safe(s) && Enabled(s, a)
    ensures Safe(Next(s, a))
  {
  }

  lemma Regroup<T>(past: seq<T>, done: seq<T>, inHand: seq<T>, queue: seq<T>)
    ensures past + done + inHand + queue == past + (done + inHand) + [] + queue
    ensures past + done + [] + queue == (past + done) + [] + [] + queue
  {
  }

  lemma TakeKeepsAccounted<T>(s: System<T>)
    requires Inv(s) && Enabled(s, WorkerStep) && s.worker.Take?
    ensures Accounted(WorkerNext(s))
  {
    var done := ItemsOfRuns(s.ended) + ItemsOf(s.outcomes);
    assert done + [] + s.queue == done + [s.queue[0]] + s.queue[1..];
  }

  lemma EndKeepsAccounted<T>(s: System<T>, o: Outcome<T>)
    requires Inv(s) && Enabled(s, WorkerStep) && InHand(s.worker) == [o.item]
    requires WorkerNext(s) == s.(worker := if o.Dropped? then Finished else LoopTop, outcomes := s.outcomes + [o])
    ensures Accounted(WorkerNext(s))
  {
    OutcomeAdded(s.outcomes, o);
    Regroup(ItemsOfRuns(s.ended), ItemsOf(s.outcomes), [o.item], s.queue);
  }

  /** A step that moves no item keeps the accounts. */
  lemma NothingMoved<T>(s: System<T>, t: System<T>)
    requires Accounted(s) && InHand(t.worker) == InHand(s.worker) && (s.worker.Finished? ==> t.worker.Finished?)
    requires t.queue == s.queue && t.enqueued == s.enqueued && t.ended == s.ended && t.outcomes == s.outcomes
    ensures Accounted(t)
  {
  }

  lemma WorkerKeepsAccounted<T>(s: System<T>)
    requires Inv(s) && Enabled(s, WorkerStep)
    ensures Accounted(WorkerNext(s))
  {
    if s.worker.Take? {
      TakeKeepsAccounted(s);
    } else if s.worker.ReturnedItem? && s.stopFlag {
      EndKeepsAccounted(s, Dropped(s.worker.item));
    } else if s.worker.Working? {
      EndKeepsAccounted(s, Processed(s.worker.current));
    } else {
      NothingMoved(s, WorkerNext(s));
    }
  }

  lemma PushKeepsAccounted<T>(s: System<T>, item: T)
    requires Inv(s) && s.producer == Entered(item)
    ensures Accounted(ProducerNext(s))
  {
    var taken := ItemsOfRuns(s.ended) + ItemsOf(s.outcomes) + InHand(s.worker);
    assert taken + (s.queue + [item]) == taken + s.queue + [item];
  }

  lemma RestartKeepsAccounted<T>(s: System<T>)
    requires Inv(s) && Enabled(s, Restart)
    ensures Accounted(Next(s, Restart))
  {
    RunAdded(s.ended, s.outcomes);
    Regroup(ItemsOfRuns(s.ended), ItemsOf(s.outcomes), [], s.queue);
  }

  lemma OthersKeepAccounted<T>(s: System<T>, a: Action<T>)
    requires Inv(s) && Enabled(s, a) && !a.WorkerStep?
    ensures Accounted(Next(s, a))
  {
    if a.ProducerStep? && s.producer.Entered? {
      PushKeepsAccounted(s, s.producer.next);
    } else if a.Restart? {
      RestartKeepsAccounted(s);
    } else {
      NothingMoved(s, Next(s, a));
    }
  }

  lemma NextKeepsInv<T>(s: System<T>, a: Action<T>)
    requires Inv(s) && Enabled(s, a)
    ensures Inv(Next(s, a))
  {
    NextKeepsSafe(s, a);
    if a.WorkerStep? {
      WorkerKeepsAccounted(s);
    } else {
      OthersKeepAccounted(s, a);
    }
  }

  // ----- whole runs -----

  /** Every action of the sequence is enabled when its turn comes. */
  ghost predicate Possible<T>(s: System<T>, actions: seq<Action<T>>)
    requires Inv(s)
    decreases |actions|
  {
    actions == [] ||
    (Enabled(s, actions[0]) && (NextKeepsInv(s, actions[0]); Possible(Next(s, actions[0]), actions[1..])))
  }

  ghost function After<T>(s: System<T>, actions: seq<Action<T>>): (r: System<T>)
    requires Inv(s) && Possible(s, actions)
    ensures Inv(r)
    decreases |actions|
  {
    if actions == [] then s
    else
      NextKeepsInv(s, actions[0]);
      After(Next(s, actions[0]), actions[1..])
  }

  /** The items of the calls of enqueue, in order. */
  function Offered<T>(actions: seq<Action<T>>): seq<T> {
    if actions == [] then []
    else ItemOf(actions[0]) + Offered(actions[1..])
  }

  /** What is pushed, and the item of a call that has the lock and is about to push. */
  function Accepted<T>(s: System<T>): seq<T> {
    s.enqueued + if s.producer.Entered? then [s.producer.next] else []
  }

  function ItemOf<T>(a: Action<T>): seq<T> { if a.Enqueue? then [a.item] else [] }

  lemma StepOffers<T>(s: System<T>, a: Action<T>)
    requires Enabled(s, a) && (s.worker.Take? ==> |s.queue| > 0)
    ensures Accepted(Next(s, a)) == Accepted(s) + ItemOf(a)
  {
    var t := Next(s, a);
    if a.Enqueue? {
      assert Accepted(t) == s.enqueued + [a.item];
    } else if a.ProducerStep? && s.producer.Entered? {
      assert t.enqueued == s.enqueued + [s.producer.next];
    } else {
      assert t.enqueued == s.enqueued && t.producer.Entered? == s.producer.Entered?;
    }
  }

  lemma {:induction false} OfferedFrom<T>(s: System<T>, actions: seq<Action<T>>)
    requires Inv(s) && Possible(s, actions)
    ensures Accepted(After(s, actions)) == Accepted(s) + Offered(actions)
    decreases |actions|
  {
    if actions != [] {
      NextKeepsInv(s, actions[0]);
      var t := Next(s, actions[0]);
      StepOffers(s, actions[0]);
      OfferedFrom(t, actions[1..]);
      Appended(Accepted(s), ItemOf(actions[0]), Offered(actions[1..]));
    }
  }

  lemma Appended<T>(a: seq<T>, b: seq<T>, c: seq<T>)
    ensures a + b + c == a + (b + c)
  {
  }

  /** What is pushed is what enqueue was called with, in the order of the calls; only the last call may still be about
      to push its item. */
  lemma EnqueuedAreOffered<T>(actions: seq<Action<T>>)
    requires Possible(Start(), actions)
    ensures var s := After(Start(), actions);
            Offered(actions) == s.enqueued + if s.producer.Entered? then [s.producer.next] else []
  {
    OfferedFrom(Start(), actions);
  }

  /** In every interleaving: the items pushed are, in order, those the worker's runs have finished with, run by run,
      the one in hand, and those still queued; each run has processed all its items but at most the last one, which
      it drops only once stop has begun. */
  lemma FifoAccounting<T>(actions: seq<Action<T>>)
    requires Possible(Start(), actions)
    ensures var s := After(Start(), actions);
            && s.enqueued == ItemsOfRuns(s.ended) + ItemsOf(s.outcomes) + InHand(s.worker) + s.queue
            && (forall run :: run in s.ended ==> CleanRun(run, true))
            && CleanRun(s.outcomes, s.stopper != Idle)
  {
    var s := After(Start(), actions);
    assert Inv(s);
  }

  /** All runs of the worker, the current one last. */
  function Runs<T>(s: System<T>): seq<seq<Outcome<T>>> { s.ended + [s.outcomes] }

  /** How many items the runs before the j-th took. */
  function TakenBefore<T>(s: System<T>, j: nat): nat
    requires j <= |Runs(s)|
  {
    |ItemsOfRuns(Runs(s)[..j])|
  }

  lemma {:induction false} AllProcessed<T>(os: seq<Outcome<T>>)
    requires forall k :: 0 <= k < |os| ==> os[k].Processed?
    ensures ProcessedOf(os) == ItemsOf(os)
  {
    if os != [] {
      AllProcessed(os[..|os| - 1]);
    }
  }

  lemma CleanRunProcesses<T>(os: seq<Outcome<T>>, ended: bool)
    requires CleanRun(os, ended)
    ensures ProcessedOf(os) <= ItemsOf(os) && |ItemsOf(os)| <= |ProcessedOf(os)| + if ended then 1 else 0
  {
    if os != [] {
      AllProcessed(os[..|os| - 1]);
    }
  }

  lemma {:induction false} RunsArePrefix<T>(runs: seq<seq<Outcome<T>>>, j: nat)
    requires j <= |runs|
    ensures ItemsOfRuns(runs[..j]) <= ItemsOfRuns(runs)
    decreases |runs|
  {
    if j < |runs| {
      assert runs[..|runs| - 1][..j] == runs[..j];
      RunsArePrefix(runs[..|runs| - 1], j);
    } else {
      assert runs[..j] == runs;
    }
  }

  lemma Segment<T>(before: seq<T>, middle: seq<T>, whole: seq<T>)
    requires before + middle <= whole
    ensures |before| + |middle| <= |whole| && whole[|before|..|before| + |middle|] == middle
  {
    assert whole[..|before| + |middle|] == before + middle;
  }

  lemma RunAt<T>(runs: seq<seq<Outcome<T>>>, j: nat)
    requires j < |runs|
    ensures ItemsOfRuns(runs[..j + 1]) == ItemsOfRuns(runs[..j]) + ItemsOf(runs[j])
  {
    assert runs[..j + 1][..j] == runs[..j];
  }

  /** What a run takes, it takes from the items pushed right after those of the runs before it. */
  lemma RunSegment<T>(s: System<T>, j: nat)
    requires Inv(s) && j < |Runs(s)|
    ensures TakenBefore(s, j + 1) == TakenBefore(s, j) + |ItemsOf(Runs(s)[j])| <= |s.enqueued|
    ensures s.enqueued[TakenBefore(s, j)..TakenBefore(s, j + 1)] == ItemsOf(Runs(s)[j])
  {
    RunAt(Runs(s), j);
    RunsArePushed(s, j + 1);
    Segment(ItemsOfRuns(Runs(s)[..j]), ItemsOf(Runs(s)[j]), s.enqueued);
  }

  lemma RunsArePushed<T>(s: System<T>, j: nat)
    requires Inv(s) && j <= |Runs(s)|
    ensures ItemsOfRuns(Runs(s)[..j]) <= s.enqueued
  {
    RunsArePrefix(Runs(s), j);
    RunAdded(s.ended, s.outcomes);
    assert ItemsOfRuns(Runs(s)) <= s.enqueued;
  }

  /** These are consecutive elements, from this position on. */
  ghost predicate Stretch<T>(whole: seq<T>, from: nat, part: seq<T>) {
    from + |part| <= |whole| && whole[from..from + |part|] == part
  }

  ghost predicate InOrder<T>(s: System<T>, j: nat)
    requires j < |Runs(s)|
  {
    var from, to, processed := TakenBefore(s, j), TakenBefore(s, j + 1), ProcessedOf(Runs(s)[j]);
    && from + |processed| <= to <= from + |processed| + 1
    && Stretch(s.enqueued, from, processed)
    && (to > from + |processed| ==> j < |s.ended| || s.stopper != Idle)
  }

  lemma RunInOrder<T>(s: System<T>, j: nat)
    requires Inv(s) && j < |Runs(s)|
    ensures InOrder(s, j)
  {
    RunIsClean(s, j);
    CleanRunProcesses(Runs(s)[j], j < |s.ended| || s.worker.Finished?);
    RunSegment(s, j);
    PrefixOfSegment(s.enqueued, TakenBefore(s, j), TakenBefore(s, j + 1), ProcessedOf(Runs(s)[j]));
  }

  lemma PrefixOfSegment<T>(whole: seq<T>, from: nat, to: nat, part: seq<T>)
    requires from <= to <= |whole| && part <= whole[from..to]
    ensures from + |part| <= to && Stretch(whole, from, part)
  {
    assert whole[from..from + |part|] == whole[from..to][..|part|];
  }

  lemma RunIsClean<T>(s: System<T>, j: nat)
    requires Inv(s) && j < |Runs(s)|
    ensures CleanRun(Runs(s)[j], j < |s.ended| || s.worker.Finished?)
  {
    if j < |s.ended| {
      assert Runs(s)[j] == s.ended[j] && s.ended[j] in s.ended;
    }
  }

  /** In every interleaving, the items each run of the worker has processed are consecutive ones of those pushed,
      from where the run before it stopped taking; between two runs at most one item is lost. */
  lemma EveryRunInOrder<T>(actions: seq<Action<T>>, j: nat)
    requires Possible(Start(), actions) && j < |Runs(After(Start(), actions))|
    ensures InOrder(After(Start(), actions), j)
  {
    var s := After(Start(), actions);
    assert Inv(s);
    RunInOrder(s, j);
  }

  /** The worker never sleeps on a queue with items, except until the producer that has just pushed notifies
      it; and once wakeConsumers has notified, it never sleeps again in this run. */
  lemma NoLostWakeup<T>(actions: seq<Action<T>>)
    requires Possible(Start(), actions)
    ensures var s := After(Start(), actions);
            s.worker.Asleep? ==> (|s.queue| == 0 || s.producer.Pushed?) && !WokenUp(s.stopper)
  {
    var s := After(Start(), actions);
    assert Inv(s);
  }

  // ----- progress while nobody stops -----

  /** Neither the worker nor the producer can take a step, though a spurious wake-up may be possible. */
  predicate Idling<T>(s: System<T>) { !Enabled(s, WorkerStep) && !Enabled(s, ProducerStep) }

  /** While the flag is down, they can take none only if all work is done. */
  lemma IdleMeansDone<T>(s: System<T>)
    requires Inv(s) && !s.stopFlag && Idling(s)
    ensures s.worker.Asleep? && s.queue == []
    ensures s.enqueued == ItemsOfRuns(s.ended) + ProcessedOf(s.outcomes)
  {
    AllProcessed(s.outcomes);
    assert ItemsOfRuns(s.ended) + ItemsOf(s.outcomes) + [] + [] == ItemsOfRuns(s.ended) + ItemsOf(s.outcomes);
  }

  /** How many steps of its own the worker takes until it sleeps, beside six for each item still queued. */
  function BusyRank<T>(w: WorkerPc<T>): nat {
    match w
    case Asleep => 0
    case FallAsleep => 1
    case TestFlag => 2
    case TestEmpty => 3
    case LoopTop => 4
    case Waking => 4
    case Working(_) => 5
    case ReturnedItem(_) => 6
    case Take => 1
    case Condition => 2
    case _ => 0
  }

  /** What an entered push still brings: its own steps, an item, and a wake-up. */
  function PushRank<T>(p: ProducerPc<T>): nat {
    match p
    case Outside => 0
    case Leaving => 1
    case Pushed => 6
    case Entered(_) => 13
  }

  /** Six steps of the worker for each item, and the rest. */
  function WorkLeft<T>(s: System<T>): nat { 6 * |s.queue| + BusyRank(s.worker) + PushRank(s.producer) }

  lemma CountFirst<T>(actions: seq<Action<T>>, a: Action<T>)
    requires actions != []
    ensures multiset(actions)[a] == multiset(actions[1..])[a] + if actions[0] == a then 1 else 0
  {
    assert actions == [actions[0]] + actions[1..];
  }

  lemma StepLowersWork<T>(s: System<T>, a: Action<T>)
    requires Inv(s) && !s.stopFlag && Enabled(s, a) && !a.StopperStep?
    ensures !Next(s, a).stopFlag
    ensures WorkLeft(Next(s, a)) + 1 <= WorkLeft(s) + (if a.Enqueue? then 14 else if a.SpuriousWake? then 5 else 0)
  {
  }

  lemma {:induction false} WorkBoundsAll<T>(s: System<T>, actions: seq<Action<T>>)
    requires Inv(s) && !s.stopFlag && Possible(s, actions) && StopperStep !in actions
    ensures !After(s, actions).stopFlag
    ensures |actions| + WorkLeft(After(s, actions))
         <= WorkLeft(s) + 14 * |Offered(actions)| + 5 * multiset(actions)[SpuriousWake]
    decreases |actions|
  {
    if actions != [] {
      assert actions[0] in actions;
      NextKeepsInv(s, actions[0]);
      StepLowersWork(s, actions[0]);
      WorkBoundsAll(Next(s, actions[0]), actions[1..]);
      CountFirst(actions, SpuriousWake);
    }
  }

  /** Every item is processed: while nobody stops the worker, an interleaving that begins with q items queued has, with
      k new items and w spurious wake-ups, at most 6q + 19 + 14k + 5w steps, and when neither worker nor producer can
      make another, the worker sleeps on an empty queue, and every item pushed was taken by a run that has ended or
      processed in this one. */
  lemma ItemsGetProcessed<T>(s: System<T>, actions: seq<Action<T>>)
    requires Inv(s) && !s.stopFlag && Possible(s, actions) && StopperStep !in actions
    ensures |actions| <= 6 * |s.queue| + 19 + 14 * |Offered(actions)| + 5 * multiset(actions)[SpuriousWake]
    ensures var t := After(s, actions);
            Idling(t) ==>
              t.worker.Asleep? && t.queue == [] && t.enqueued == ItemsOfRuns(t.ended) + ProcessedOf(t.outcomes)
  {
    WorkBoundsAll(s, actions);
    if Idling(After(s, actions)) {
      IdleMeansDone(After(s, actions));
    }
  }

  // ----- nothing is ruled out -----

  ghost predicate Reachable<T(!new)>(t: System<T>) {
    exists actions :: Possible(Start(), actions) && After(Start(), actions) == t
  }

  lemma {:induction false} PossibleThen<T>(s: System<T>, actions: seq<Action<T>>, a: Action<T>)
    requires Inv(s) && Possible(s, actions) && Enabled(After(s, actions), a)
    ensures Possible(s, actions + [a]) && After(s, actions + [a]) == Next(After(s, actions), a)
    decreases |actions|
  {
    var longer := actions + [a];
    if actions == [] {
      assert longer[0] == a && longer[1..] == [];
      NextKeepsInv(s, a);
    } else {
      assert longer[0] == actions[0] && longer[1..] == actions[1..] + [a];
      NextKeepsInv(s, actions[0]);
      PossibleThen(Next(s, actions[0]), actions[1..], a);
    }
  }

  lemma Reach<T(!new)>(t: System<T>, a: Action<T>) returns (u: System<T>)
    requires Reachable(t) && Enabled(t, a) && (t.worker.Take? ==> |t.queue| > 0)
    ensures u == Next(t, a) && Reachable(u)
  {
    var actions :| Possible(Start(), actions) && After(Start(), actions) == t;
    PossibleThen(Start(), actions, a);
    u := Next(t, a);
  }

  /** No thread is in the middle of anything, and everything pushed has been taken. */
  predicate Ready<T>(s: System<T>) {
    s.queue == [] && !s.stopFlag && s.mutex == Nobody && s.worker.LoopTop? && s.stopper == Idle && s.producer.Outside?
  }

  lemma CanPush<T(!new)>(t: System<T>, item: T) returns (u: System<T>)
    requires Reachable(t) && Ready(t)
    ensures Reachable(u) && u == t.(queue := [item], enqueued := t.enqueued + [item])
  {
    u := Reach(t, Enqueue(item));
    u := Reach(u, ProducerStep);
    u := Reach(u, ProducerStep);
    u := Reach(u, ProducerStep);
  }

  lemma CanWake<T(!new)>(t: System<T>) returns (u: System<T>)
    requires Reachable(t) && t.worker.LoopTop? && t.mutex == Nobody && |t.queue| > 0
    ensures Reachable(u) && u == t.(worker := Condition, mutex := Worker)
  {
    u := Reach(t, WorkerStep);
    assert u == t.(worker := TestEmpty, mutex := Worker);
    u := Reach(u, WorkerStep);
  }

  lemma CanTake<T(!new)>(t: System<T>, item: T) returns (u: System<T>)
    requires Reachable(t) && t.worker.Condition? && !t.stopFlag && t.queue == [item]
    ensures Reachable(u) && u == t.(worker := ReturnedItem(item), mutex := Nobody, queue := [])
  {
    u := Reach(t, WorkerStep);
    assert u == t.(worker := Take);
    u := Reach(u, WorkerStep);
  }

  lemma CanProcess<T(!new)>(t: System<T>, item: T) returns (u: System<T>)
    requires Reachable(t) && t.worker == ReturnedItem(item) && !t.stopFlag
    ensures Reachable(u) && u == t.(worker := LoopTop, outcomes := t.outcomes + [Processed(item)])
  {
    u := Reach(t, WorkerStep);
    assert u == t.(worker := Working(item));
    u := Reach(u, WorkerStep);
  }

  lemma CanRaise<T(!new)>(t: System<T>) returns (u: System<T>)
    requires Reachable(t) && Ready(t)
    ensures Reachable(u) && u == t.(stopFlag := true, stopper := FlagSet, worker := TestFlag, mutex := Worker)
  {
    u := Reach(t, StopperStep);
    assert u == t.(stopFlag := true, stopper := FlagSet);
    u := Reach(u, WorkerStep);
    u := Reach(u, WorkerStep);
  }

  lemma CanEnd<T(!new)>(t: System<T>) returns (u: System<T>)
    requires Reachable(t) && t.stopFlag && t.worker.TestFlag?
    ensures Reachable(u) && u == t.(worker := Finished, mutex := Nobody)
  {
    u := Reach(t, WorkerStep);
    assert u == t.(worker := Condition);
    u := Reach(u, WorkerStep);
    assert u == t.(worker := ReturnedDefault, mutex := Nobody);
    u := Reach(u, WorkerStep);
  }

  lemma CanRestart<T(!new)>(t: System<T>) returns (u: System<T>)
    requires Reachable(t) && t.stopper == FlagSet && t.mutex == Nobody && t.worker.Finished?
    ensures Reachable(u)
    ensures u == t.(stopFlag := false, stopper := Idle, worker := LoopTop, ended := t.ended + [t.outcomes],
                    outcomes := [])
  {
    u := Reach(t, StopperStep);
    u := Reach(u, StopperStep);
    u := Reach(u, StopperStep);
    u := Reach(u, StopperStep);
    u := Reach(u, Restart);
  }

  lemma CanStop<T(!new)>(t: System<T>) returns (u: System<T>)
    requires Reachable(t) && Ready(t)
    ensures Reachable(u) && u == t.(ended := t.ended + [t.outcomes], outcomes := [])
  {
    u := CanRaise(t);
    u := CanEnd(u);
    u := CanRestart(u);
  }

  lemma CanServe<T(!new)>(t: System<T>, item: T) returns (u: System<T>)
    requires Reachable(t) && Ready(t)
    ensures Reachable(u) && Ready(u) && u.ended == t.ended && u.enqueued == t.enqueued + [item]
    ensures ProcessedOf(u.outcomes) == ProcessedOf(t.outcomes) + [item]
  {
    u := CanPush(t, item);
    u := CanWake(u);
    u := CanTake(u, item);
    u := CanProcess(u, item);
    OutcomeAdded(t.outcomes, Processed(item));
  }

  lemma {:induction false} CanServeAll<T(!new)>(t: System<T>, items: seq<T>) returns (u: System<T>)
    requires Reachable(t) && Ready(t) && t.outcomes == []
    ensures Reachable(u) && Ready(u) && u.ended == t.ended && u.enqueued == t.enqueued + items
    ensures ProcessedOf(u.outcomes) == items
  {
    if items == [] {
      u := t;
    } else {
      var n := |items| - 1;
      assert items == items[..n] + [items[n]];
      u := CanServeAll(t, items[..n]);
      u := CanServe(u, items[n]);
    }
  }

  function Flattened<T>(batches: seq<seq<T>>): seq<T> {
    if batches == [] then [] else Flattened(batches[..|batches| - 1]) + batches[|batches| - 1]
  }

  lemma {:induction false} CanServeBatches<T(!new)>(batches: seq<seq<T>>) returns (t: System<T>)
    ensures Reachable(t) && Ready(t) && t.outcomes == [] && t.enqueued == Flattened(batches)
    ensures |t.ended| == |batches| && forall j :: 0 <= j < |batches| ==> ProcessedOf(t.ended[j]) == batches[j]
  {
    if batches == [] {
      t := Start();
      assert Possible(Start<T>(), []) && After(Start<T>(), []) == t;
    } else {
      var n := |batches| - 1;
      t := CanServeBatches(batches[..n]);
      t := CanServeAll(t, batches[n]);
      t := CanStop(t);
    }
  }

  /** Every workload can happen: whatever items are to be processed in whatever number of runs, some interleaving
      enqueues exactly these and processes each in its run. */
  lemma AnyWorkHappens<T(!new)>(batches: seq<seq<T>>) returns (actions: seq<Action<T>>)
    ensures Possible(Start(), actions) && Offered(actions) == Flattened(batches)
    ensures var t := After(Start(), actions);
            |t.ended| == |batches| && forall j :: 0 <= j < |batches| ==> ProcessedOf(t.ended[j]) == batches[j]
  {
    var t := CanServeBatches(batches);
    actions :| Possible(Start(), actions) && After(Start(), actions) == t;
    EnqueuedAreOffered(actions);
  }

  // ----- stopping -----

  /** How many steps of its own, or spurious wake-ups, the worker is still from its end, once the flag is up. */
  function Rank<T>(w: WorkerPc<T>): nat {
    match w
    case Finished => 0
    case ReturnedItem(_) => 1
    case ReturnedDefault => 1
    case Condition => 2
    case Take => 2
    case TestFlag => 3
    case TestEmpty => 4
    case LoopTop => 5
    case Waking => 5
    case Working(_) => 6
    case WorkingOnDefault => 6
    case FallAsleep => 7
    case Asleep => 6
  }

  function StopperRank(p: StopperPc): nat {
    match p
    case Idle => 5
    case FlagSet => 4
    case Locked => 3
    case Notified => 2
    case Joining => 1
    case Joined => 0
  }

  function ProducerRank<T>(p: ProducerPc<T>): nat {
    match p
    case Entered(_) => 3
    case Pushed => 2
    case Leaving => 1
    case Outside => 0
  }

  lemma StepLowersRank<T>(s: System<T>, a: Action<T>)
    requires Inv(s) && s.stopFlag && Enabled(s, a) && !a.Restart?
    ensures Next(s, a).stopFlag && (WokenUp(s.stopper) ==> WokenUp(Next(s, a).stopper))
    ensures Rank(Next(s, a).worker) + (if a.WorkerStep? || a.SpuriousWake? then 1 else 0) <= Rank(s.worker)
  {
    if !a.WorkerStep? {
      var t := Next(s, a);
      assert t.worker == s.worker || t.worker == Woken(s.worker);
    }
  }

  lemma OtherRanks<T>(s: System<T>, a: Action<T>)
    requires Inv(s) && s.stopFlag && Enabled(s, a) && !a.Restart?
    ensures StopperRank(Next(s, a).stopper) + (if a.StopperStep? then 1 else 0) == StopperRank(s.stopper)
    ensures ProducerRank(Next(s, a).producer)
         == ProducerRank(s.producer) + (if a.Enqueue? then 3 else if a.ProducerStep? then -1 else 0)
  {
  }

  /** From the moment stop raises the flag, the worker's own steps are numbered: however the others interleave, it has
      taken all of them only when it has ended. */
  lemma {:induction false} StopBoundsWorker<T>(s: System<T>, actions: seq<Action<T>>)
    requires Inv(s) && s.stopFlag && Possible(s, actions) && Restart !in actions
    ensures Rank(After(s, actions).worker) + multiset(actions)[WorkerStep] <= Rank(s.worker)
    ensures Rank(s.worker) <= if WokenUp(s.stopper) then 6 else 7
    decreases |actions|
  {
    if actions != [] {
      assert actions[0] in actions;
      NextKeepsInv(s, actions[0]);
      StepLowersRank(s, actions[0]);
      StopBoundsWorker(Next(s, actions[0]), actions[1..]);
      CountFirst(actions, WorkerStep);
    }
  }

  /** And after the notification it can always take the next one, at once or after the steps in which another thread
      leaves the lock. */
  lemma StopNeverBlocks<T>(s: System<T>)
    requires Inv(s) && WokenUp(s.stopper) && !s.worker.Finished?
    ensures Enabled(s, WorkerStep)
            || (s.mutex == Producer && Enabled(s, ProducerStep)
                && ProducerRank(Next(s, ProducerStep).producer) < ProducerRank(s.producer))
            || (s.mutex == Stopper && Enabled(s, StopperStep)
                && StopperRank(Next(s, StopperStep).stopper) < StopperRank(s.stopper))
  {
  }

  /** The whole system's steps until stop returns. */
  function StepsLeft<T>(s: System<T>): nat { Rank(s.worker) + StopperRank(s.stopper) + ProducerRank(s.producer) }

  lemma {:induction false} StopBoundsAll<T>(s: System<T>, actions: seq<Action<T>>)
    requires Inv(s) && s.stopFlag && Possible(s, actions) && Restart !in actions
    ensures After(s, actions).stopFlag
    ensures |actions| + StepsLeft(After(s, actions)) <= StepsLeft(s) + 4 * |Offered(actions)|
    decreases |actions|
  {
    if actions != [] {
      assert actions[0] in actions;
      NextKeepsInv(s, actions[0]);
      StepLowersRank(s, actions[0]);
      OtherRanks(s, actions[0]);
      StopBoundsAll(Next(s, actions[0]), actions[1..]);
    }
  }

  /** No step of the worker, the stopper or the producer is possible, though a spurious wake-up may be. */
  predicate Stuck<T>(s: System<T>) {
    !Enabled(s, WorkerStep) && !Enabled(s, StopperStep) && !Enabled(s, ProducerStep)
  }

  /** Once the flag is up the only way to get stuck is to be done: nobody waits for a lock that nobody will leave, and
      the join does not wait for a sleeping worker. */
  lemma StuckMeansJoined<T>(s: System<T>)
    requires Inv(s) && s.stopFlag
    ensures Stuck(s) <==> s.stopper == Joined && s.producer.Outside?
    ensures s.stopper == Joined ==> s.worker.Finished?
  {
  }

  /** Stop returns: in every interleaving from the raising of the flag on, spurious wake-ups and k new items included,
      there are at most 14 + 4k steps, and when no thread can make another, stop has joined the ended worker. */
  lemma StopTerminates<T>(s: System<T>, actions: seq<Action<T>>)
    requires Inv(s) && s.stopFlag && Possible(s, actions) && Restart !in actions
    ensures |actions| <= 14 + 4 * |Offered(actions)|
    ensures var t := After(s, actions); Stuck(t) ==> t.stopper == Joined && t.worker.Finished?
  {
    StopBoundsAll(s, actions);
    StuckMeansJoined(After(s, actions));
  }
}
