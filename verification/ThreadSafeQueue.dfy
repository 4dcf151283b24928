/** The thread-safe queue in place, and why its methods may be read as atomic. */
module ThreadSafeQueue {
  import opened WorkerProtocol

  /** How one pass of dequeueConditional through the lock can end. */
  datatype Attempt<T> = Waits | Default | Item(item: T)

  /** The flag is read twice: in the wait's predicate, when the queue is empty, and again when the wait is over. */
  function Attempted<T>(items: seq<T>, stopAtTest: bool, stopAtReturn: bool): Attempt<T>
    requires stopAtTest ==> stopAtReturn
  {
    if items == [] && !stopAtTest then Waits else if stopAtReturn then Default else Item(items[0])
  }

  class ThreadSafeQueue<T> {
    var items: seq<T>

    constructor ()
      ensures items == []
    {
      items := [];
    }

    method Enqueue(item: T)
      modifies this
      ensures items == old(items) + [item]
    {
      items := items + [item];
    }

    method DequeueConditional(stopAtTest: bool, stopAtReturn: bool) returns (r: Attempt<T>)
      requires stopAtTest ==> stopAtReturn
      modifies this
      ensures r == Attempted(old(items), stopAtTest, stopAtReturn)
      ensures old(items) == if r.Item? then [r.item] + items else items
    {
      if !(|items| > 0 || stopAtTest) {
        return Waits;
      }
      if stopAtReturn {
        return Default;
      }
      var front := items[0];
      items := items[1..];
      return Item(front);
    }
  }

  // ----- critical sections are atomic -----

  /** Before each action, and so throughout, this thread holds the mutex. */
  ghost predicate HeldBy<T>(holder: Holder, s: System<T>, actions: seq<Action<T>>)
    requires Inv(s) && Possible(s, actions)
    decreases |actions|
  {
    actions == [] ||
    (s.mutex == holder && (NextKeepsInv(s, actions[0]); HeldBy(holder, Next(s, actions[0]), actions[1..])))
  }

  /** Inside dequeueConditional, on a queue that held these items when the lock was taken. */
  ghost predicate InDequeue<T>(s: System<T>, items: seq<T>, flagBefore: bool) {
    && s.mutex == Worker && s.queue == items && (flagBefore ==> s.stopFlag)
    && (s.worker.TestFlag? ==> items == [])
    && (s.worker.FallAsleep? ==> items == [] && !flagBefore)
    && (s.worker.Take? ==> !flagBefore)
  }

  /** The lock is released, and the queue and the worker are as one undisturbed attempt leaves them. */
  ghost predicate Dequeued<T>(s: System<T>, items: seq<T>, stopAtTest: bool, stopAtReturn: bool)
    requires stopAtTest ==> stopAtReturn
  {
    match Attempted(items, stopAtTest, stopAtReturn)
    case Waits => s.worker.Asleep? && s.queue == items
    case Default => s.worker.ReturnedDefault? && s.queue == items
    case Item(item) => s.worker == ReturnedItem(item) && [item] + s.queue == items
  }

  lemma DequeueStep<T>(s: System<T>, a: Action<T>, items: seq<T>, flagBefore: bool)
    requires Inv(s) && Enabled(s, a) && InDequeue(s, items, flagBefore)
    ensures var t := Next(s, a);
            if t.mutex == Worker then InDequeue(t, items, flagBefore)
            else (!flagBefore && Dequeued(t, items, false, false)) || (t.stopFlag && Dequeued(t, items, true, true))
  {
  }

  lemma {:induction false} DequeueContinues<T>(s: System<T>, actions: seq<Action<T>>, items: seq<T>, flagBefore: bool)
    requires Inv(s) && Possible(s, actions) && HeldBy(Worker, s, actions) && InDequeue(s, items, flagBefore)
    ensures var t := After(s, actions);
            if t.mutex == Worker then InDequeue(t, items, flagBefore)
            else exists stopAtTest: bool, stopAtReturn: bool ::
                   (flagBefore ==> stopAtTest) && (stopAtTest ==> stopAtReturn) && (stopAtReturn ==> t.stopFlag)
                   && Dequeued(t, items, stopAtTest, stopAtReturn)
    decreases |actions|
  {
    if actions != [] {
      var t := Next(s, actions[0]);
      NextKeepsInv(s, actions[0]);
      DequeueStep(s, actions[0], items, flagBefore);
      if t.mutex == Worker {
        DequeueContinues(t, actions[1..], items, flagBefore);
      } else {
        assert actions[1..] == [];
      }
    }
  }

  /** However other threads interleave, a worker that takes the lock ends its attempt exactly as the method above does
      without them, on the queue it found and for two flag readings made in this time. */
  lemma DequeueAtomic<T>(s: System<T>, actions: seq<Action<T>>)
    requires Inv(s) && Enabled(s, WorkerStep) && NeedsLock(s.worker)
    requires Inv(Next(s, WorkerStep)) && Possible(Next(s, WorkerStep), actions)
    requires HeldBy(Worker, Next(s, WorkerStep), actions)
    ensures var t := After(Next(s, WorkerStep), actions);
            t.mutex != Worker ==>
              exists stopAtTest: bool, stopAtReturn: bool ::
                (s.stopFlag ==> stopAtTest) && (stopAtTest ==> stopAtReturn) && (stopAtReturn ==> t.stopFlag)
                && Dequeued(t, s.queue, stopAtTest, stopAtReturn)
  {
    DequeueContinues(Next(s, WorkerStep), actions, s.queue, s.stopFlag);
  }

  /** Inside enqueue, with this item to push on a queue that held these. */
  ghost predicate InEnqueue<T>(s: System<T>, items: seq<T>, item: T) {
    && s.mutex == Producer
    && (if s.producer.Entered? then s.producer.next == item && s.queue == items else s.queue == items + [item])
  }

  lemma EnqueueStep<T>(s: System<T>, a: Action<T>, items: seq<T>, item: T)
    requires Inv(s) && Enabled(s, a) && InEnqueue(s, items, item)
    ensures var t := Next(s, a); if t.mutex == Producer then InEnqueue(t, items, item) else t.queue == items + [item]
  {
  }

  lemma {:induction false} EnqueueContinues<T>(s: System<T>, actions: seq<Action<T>>, items: seq<T>, item: T)
    requires Inv(s) && Possible(s, actions) && HeldBy(Producer, s, actions) && InEnqueue(s, items, item)
    ensures var t := After(s, actions);
            if t.mutex == Producer then InEnqueue(t, items, item) else t.queue == items + [item]
    decreases |actions|
  {
    if actions != [] {
      var t := Next(s, actions[0]);
      NextKeepsInv(s, actions[0]);
      EnqueueStep(s, actions[0], items, item);
      if t.mutex == Producer {
        EnqueueContinues(t, actions[1..], items, item);
      } else {
        assert actions[1..] == [];
      }
    }
  }

  /** However other threads interleave, a call of enqueue adds its item to the queue it found. */
  lemma EnqueueAtomic<T>(s: System<T>, actions: seq<Action<T>>, item: T)
    requires Inv(s) && Enabled(s, Enqueue(item))
    requires Inv(Next(s, Enqueue(item))) && Possible(Next(s, Enqueue(item)), actions)
    requires HeldBy(Producer, Next(s, Enqueue(item)), actions)
    ensures var t := After(Next(s, Enqueue(item)), actions);
            if t.mutex == Producer then t.queue == s.queue || t.queue == s.queue + [item]
            else t.queue == s.queue + [item]
  {
    EnqueueContinues(Next(s, Enqueue(item)), actions, s.queue, item);
  }
}
