/** The unbounded blocking queue of `queue.cpp`: any number of threads in `emplace` and in `pop`,
    interleaved one shared access at a time. */
module SpmcQueue {

  import opened Traces

  // -- Threads -----------------------------------------------------------------------------------

  /** A thread in `emplace`. It holds the mutex from `Pushing` to `Releasing`. */
  datatype Producer<T> = Outside | Entering(value: T) | Pushing(value: T) | Notifying | Releasing

  /** A thread in `pop`. It holds the mutex in `Testing`, `GoingToSleep`, `Taking`, `Popping` and
      `Leaving`. */
  datatype Consumer<T> =
    | Away
    | Acquiring(notified: bool) // before the lock; `notified` if woken by a notification
    | Testing // the predicate of the wait
    | GoingToSleep // it was false: about to release the mutex and wait
    | Asleep
    | Taking // about to move the front out
    | Popping(value: T)
    | Leaving(value: T) // about to release the mutex and return

  datatype Owner = Free | ByProducer(p: nat) | ByConsumer(c: nat)

  /** A value leaving the queue, and the thread that popped it. */
  datatype Delivery<T> = Delivery(consumer: nat, value: T)

  /** The last fields are histories: values emplaced, values popped and by whom, the values each
      consumer's calls have returned, and whether an empty queue was ever popped. */
  datatype Queue<T> = Queue(items: seq<T>, owner: Owner, producers: seq<Producer<T>>, consumers: seq<Consumer<T>>,
                            emplaced: seq<T>, deliveries: seq<Delivery<T>>, returned: seq<seq<T>>, fault: bool)

  datatype Event<T> = ProducerStep(p: nat, value: T, wakes: nat) | ConsumerStep(c: nat) | SpuriousWakeup(c: nat)

  function Init<T>(producers: nat, consumers: nat): Queue<T> {
    Queue([], Free, seq(producers, _ => Outside), seq(consumers, _ => Away), [], [], seq(consumers, _ => []), false)
  }

  predicate SomeoneSleeps<T>(consumers: seq<Consumer<T>>) {
    exists c :: 0 <= c < |consumers| && consumers[c].Asleep?
  }

  function At<T>(s: Queue<T>, c: nat, at: Consumer<T>): Queue<T>
    requires c < |s.consumers|
  {
    s.(consumers := s.consumers[c := at])
  }

  /** `value` is what a call that begins here emplaces, `wakes` whom a notification would wake. */
  function ProducerTurn<T>(s: Queue<T>, p: nat, value: T, wakes: nat): Queue<T>
    requires p < |s.producers|
  {
    match s.producers[p]
    case Outside => s.(producers := s.producers[p := Entering(value)])
    case Entering(v) =>
      if s.owner == Free then s.(producers := s.producers[p := Pushing(v)], owner := ByProducer(p)) else s
    case Pushing(v) =>
      s.(producers := s.producers[p := Notifying], items := s.items + [v], emplaced := s.emplaced + [v])
    case Notifying =>
      if !SomeoneSleeps(s.consumers) then s.(producers := s.producers[p := Releasing])
      else if wakes < |s.consumers| && s.consumers[wakes].Asleep? then
        At(s, wakes, Acquiring(true)).(producers := s.producers[p := Releasing])
      else s
    case Releasing => s.(producers := s.producers[p := Outside], owner := Free)
  }

  function ConsumerTurn<T>(s: Queue<T>, c: nat): Queue<T>
    requires c < |s.consumers| && |s.returned| == |s.consumers|
  {
    match s.consumers[c]
    case Away => At(s, c, Acquiring(false))
    case Acquiring(_) => if s.owner == Free then At(s, c, Testing).(owner := ByConsumer(c)) else s
    case Testing => At(s, c, if s.items == [] then GoingToSleep else Taking)
    case GoingToSleep => At(s, c, Asleep).(owner := Free)
    case Asleep => s
    case Taking => if s.items == [] then s.(fault := true) else At(s, c, Popping(s.items[0]))
    case Popping(v) =>
      if s.items == [] then s.(fault := true)
      else At(s, c, Leaving(v)).(items := s.items[1..], deliveries := s.deliveries + [Delivery(c, s.items[0])])
    case Leaving(v) => At(s, c, Away).(owner := Free, returned := s.returned[c := s.returned[c] + [v]])
  }

  /** A thread whose step is not possible (the mutex is taken, it is asleep) stays where it is. */
  function Step<T>(s: Queue<T>, e: Event<T>): (s': Queue<T>)
    requires |s.returned| == |s.consumers|
    ensures |s'.returned| == |s'.consumers| == |s.consumers| && |s'.producers| == |s.producers|
  {
    match e
    case ProducerStep(p, value, wakes) => if p < |s.producers| then ProducerTurn(s, p, value, wakes) else s
    case ConsumerStep(c) => if c < |s.consumers| then ConsumerTurn(s, c) else s
    case SpuriousWakeup(c) => if c < |s.consumers| && s.consumers[c].Asleep? then At(s, c, Acquiring(false)) else s
  }

  function Run<T>(s: Queue<T>, events: seq<Event<T>>): (s': Queue<T>)
    requires |s.returned| == |s.consumers|
    ensures |s'.returned| == |s'.consumers| == |s.consumers| && |s'.producers| == |s.producers|
  {
    if events == [] then s else Step(Run(s, events[..|events| - 1]), events[|events| - 1])
  }

  /** A new queue after those steps. */
  function Reached<T>(producers: nat, consumers: nat, events: seq<Event<T>>): (s: Queue<T>)
    ensures |s.returned| == |s.consumers| == consumers && |s.producers| == producers
  {
    Run(Init(producers, consumers), events)
  }

  // -- Invariants -----------------------------------------------------------------------------------

  predicate ProducerHoldsLock<T>(p: Producer<T>) {
    p.Pushing? || p.Notifying? || p.Releasing?
  }

  predicate ConsumerHoldsLock<T>(c: Consumer<T>) {
    !c.Away? && !c.Acquiring? && !c.Asleep?
  }

  ghost predicate LockOk<T>(s: Queue<T>) {
    && (forall p: nat :: p < |s.producers| ==> (ProducerHoldsLock(s.producers[p]) <==> s.owner == ByProducer(p)))
    && (forall c: nat :: c < |s.consumers| ==> (ConsumerHoldsLock(s.consumers[c]) <==> s.owner == ByConsumer(c)))
    && (s.owner.ByProducer? ==> s.owner.p < |s.producers|)
    && (s.owner.ByConsumer? ==> s.owner.c < |s.consumers|)
  }

  /** What a consumer's position says about the queue. */
  ghost predicate ConsumerOk<T>(s: Queue<T>, c: nat)
    requires c < |s.consumers|
  {
    match s.consumers[c]
    case GoingToSleep => s.items == []
    case Taking => s.items != []
    case Popping(v) => s.items != [] && v == s.items[0]
    case _ => true
  }

  ghost predicate PositionsOk<T>(s: Queue<T>) {
    !s.fault && forall c: nat :: c < |s.consumers| ==> ConsumerOk(s, c)
  }

  function Values<T>(ds: seq<Delivery<T>>): seq<T> {
    if ds == [] then [] else Values(ds[..|ds| - 1]) + [ds[|ds| - 1].value]
  }

  /** The values one consumer popped. */
  function ValuesTo<T>(ds: seq<Delivery<T>>, c: nat): seq<T> {
    if ds == [] then []
    else ValuesTo(ds[..|ds| - 1], c) + if ds[|ds| - 1].consumer == c then [ds[|ds| - 1].value] else []
  }

  /** What has left the queue, in order, and what is in it, is what has entered it. */
  ghost predicate Fifo<T>(s: Queue<T>) {
    s.emplaced == Values(s.deliveries) + s.items
  }

  /** What a consumer has popped and not returned. */
  function Pending<T>(at: Consumer<T>): seq<T> {
    if at.Leaving? then [at.value] else []
  }

  /** Each consumer's calls return the values it popped, in order, the last of which may be on
      its way. */
  ghost predicate ReturnsOk<T>(s: Queue<T>)
    requires |s.returned| == |s.consumers|
  {
    forall c: nat :: c < |s.consumers| ==>
      ValuesTo(s.deliveries, c) == s.returned[c] + Pending(s.consumers[c])
  }

  function Notified<T>(consumers: seq<Consumer<T>>): nat {
    if consumers == [] then 0
    else (if consumers[0].Acquiring? && consumers[0].notified then 1 else 0) + Notified(consumers[1..])
  }

  /** The holder of the mutex is about to notify, or may be about to take an item. */
  predicate HolderCounts<T>(s: Queue<T>) {
    || (s.owner.ByProducer? && s.owner.p < |s.producers| && s.producers[s.owner.p].Notifying?)
    || (s.owner.ByConsumer? && s.owner.c < |s.consumers| && !s.consumers[s.owner.c].Leaving?)
  }

  ghost predicate WakeupsOk<T>(s: Queue<T>) {
    SomeoneSleeps(s.consumers) ==> |s.items| <= Notified(s.consumers) + if HolderCounts(s) then 1 else 0
  }

  ghost predicate Inv<T>(s: Queue<T>) {
    |s.returned| == |s.consumers| && LockOk(s) && PositionsOk(s) && Fifo(s) && ReturnsOk(s) && WakeupsOk(s)
  }

  lemma InitInv<T>(producers: nat, consumers: nat)
    ensures Inv(Init<T>(producers, consumers))
  {
  }

  lemma LockProducer<T>(s: Queue<T>, p: nat, value: T, wakes: nat)
    requires LockOk(s) && p < |s.producers|
    ensures LockOk(ProducerTurn(s, p, value, wakes))
  {
    hide SomeoneSleeps;
  }

  lemma LockConsumer<T>(s: Queue<T>, c: nat)
    requires |s.returned| == |s.consumers| && LockOk(s) && c < |s.consumers|
    ensures LockOk(ConsumerTurn(s, c))
  {
  }

  lemma LockStep<T>(s: Queue<T>, e: Event<T>)
    requires |s.returned| == |s.consumers| && LockOk(s)
    ensures LockOk(Step(s, e))
  {
    match e
    case ProducerStep(p, value, wakes) => if p < |s.producers| { LockProducer(s, p, value, wakes); }
    case ConsumerStep(c) => if c < |s.consumers| { LockConsumer(s, c); }
    case SpuriousWakeup(c) =>
  }

  lemma PositionsStep<T>(s: Queue<T>, e: Event<T>)
    requires |s.returned| == |s.consumers| && LockOk(s) && PositionsOk(s)
    ensures PositionsOk(Step(s, e))
  {
    hide SomeoneSleeps;
    var s' := Step(s, e);
    assert e.ConsumerStep? && e.c < |s.consumers| ==> ConsumerOk(s, e.c);
    forall c: nat | c < |s'.consumers|
      ensures ConsumerOk(s', c)
    {
      assert ConsumerOk(s, c);
    }
  }

  lemma ValuesSnoc<T>(ds: seq<Delivery<T>>, d: Delivery<T>)
    ensures Values(ds + [d]) == Values(ds) + [d.value]
    ensures forall c :: ValuesTo(ds + [d], c) == ValuesTo(ds, c) + if d.consumer == c then [d.value] else []
  {
    assert (ds + [d])[..|ds|] == ds;
  }

  lemma FifoPop<T>(emplaced: seq<T>, ds: seq<Delivery<T>>, items: seq<T>, d: Delivery<T>)
    requires emplaced == Values(ds) + items && items != [] && d.value == items[0]
    ensures emplaced == Values(ds + [d]) + items[1..]
  {
    ValuesSnoc(ds, d);
    assert items == [items[0]] + items[1..];
  }

  lemma FifoStep<T>(s: Queue<T>, e: Event<T>)
    requires |s.returned| == |s.consumers| && Fifo(s)
    ensures Fifo(Step(s, e))
  {
    hide Values, SomeoneSleeps;
    var s' := Step(s, e);
    if e.ConsumerStep? && e.c < |s.consumers| && s.consumers[e.c].Popping? && s.items != [] {
      var d := Delivery(e.c, s.items[0]);
      assert s'.emplaced == s.emplaced && s'.deliveries == s.deliveries + [d] && s'.items == s.items[1..];
      hide Step;
      FifoPop(s.emplaced, s.deliveries, s.items, d);
    } else if e.ProducerStep? && e.p < |s.producers| && s.producers[e.p].Pushing? {
      assert s'.emplaced == s.emplaced + [s.producers[e.p].value];
    } else {
      hide Fifo;
      assert s'.emplaced == s.emplaced && s'.deliveries == s.deliveries && s'.items == s.items;
    }
  }

  lemma ReturnsSame<T>(s: Queue<T>, s': Queue<T>)
    requires |s.returned| == |s.consumers| == |s'.consumers|
    requires s'.returned == s.returned && s'.deliveries == s.deliveries
    requires forall c :: 0 <= c < |s.consumers| ==> Pending(s'.consumers[c]) == Pending(s.consumers[c])
    requires ReturnsOk(s)
    ensures ReturnsOk(s')
  {
  }

  lemma ReturnsPop<T>(s: Queue<T>, s': Queue<T>, c: nat, v: T)
    requires |s.returned| == |s.consumers| && ReturnsOk(s) && c < |s.consumers| && !s.consumers[c].Leaving?
    requires s'.deliveries == s.deliveries + [Delivery(c, v)]
    requires s'.consumers == s.consumers[c := Leaving(v)] && s'.returned == s.returned
    ensures ReturnsOk(s')
  {
    ValuesSnoc(s.deliveries, Delivery(c, v));
    hide ValuesTo, Values;
  }

  lemma ReturnsLeave<T>(s: Queue<T>, s': Queue<T>, c: nat, v: T)
    requires |s.returned| == |s.consumers| && ReturnsOk(s) && c < |s.consumers| && s.consumers[c] == Leaving(v)
    requires s'.deliveries == s.deliveries
    requires s'.consumers == s.consumers[c := Away] && s'.returned == s.returned[c := s.returned[c] + [v]]
    ensures ReturnsOk(s')
  {
    hide ValuesTo;
  }

  lemma ReturnsConsumer<T>(s: Queue<T>, c: nat)
    requires |s.returned| == |s.consumers| && PositionsOk(s) && ReturnsOk(s) && c < |s.consumers|
    requires s.consumers[c].Popping? || s.consumers[c].Leaving?
    ensures ReturnsOk(ConsumerTurn(s, c))
  {
    assert ConsumerOk(s, c);
    hide ReturnsOk, PositionsOk;
    match s.consumers[c]
    case Popping(v) => ReturnsPop(s, ConsumerTurn(s, c), c, v);
    case Leaving(v) => ReturnsLeave(s, ConsumerTurn(s, c), c, v);
  }

  /** A consumer that neither pops nor returns, or that is woken. */
  lemma ReturnsElsewhere<T>(s: Queue<T>, s': Queue<T>, c: nat)
    requires |s.returned| == |s.consumers| && ReturnsOk(s) && c < |s.consumers|
    requires |s'.consumers| == |s.consumers| && s'.consumers == s.consumers[c := s'.consumers[c]]
    requires !s.consumers[c].Leaving? && !s'.consumers[c].Leaving?
    requires s'.returned == s.returned && s'.deliveries == s.deliveries
    ensures ReturnsOk(s')
  {
    ReturnsSame(s, s');
  }

  lemma ReturnsProducer<T>(s: Queue<T>, p: nat, value: T, wakes: nat)
    requires |s.returned| == |s.consumers| && ReturnsOk(s) && p < |s.producers|
    ensures ReturnsOk(ProducerTurn(s, p, value, wakes))
  {
    hide ReturnsOk, SomeoneSleeps;
    var s' := ProducerTurn(s, p, value, wakes);
    assert s'.returned == s.returned && s'.deliveries == s.deliveries;
    if s'.consumers == s.consumers {
      ReturnsSame(s, s');
    } else {
      ReturnsElsewhere(s, s', wakes);
    }
  }

  lemma ReturnsStep<T>(s: Queue<T>, e: Event<T>)
    requires |s.returned| == |s.consumers| && PositionsOk(s) && ReturnsOk(s)
    ensures ReturnsOk(Step(s, e))
  {
    hide SomeoneSleeps, ReturnsOk, PositionsOk, ProducerTurn;
    match e
    case ProducerStep(p, value, wakes) =>
      if p < |s.producers| {
        ReturnsProducer(s, p, value, wakes);
      }
    case ConsumerStep(c) =>
      if c < |s.consumers| {
        if s.consumers[c].Popping? || s.consumers[c].Leaving? {
          ReturnsConsumer(s, c);
        } else {
          ReturnsElsewhere(s, ConsumerTurn(s, c), c);
        }
      }
    case SpuriousWakeup(c) =>
      if c < |s.consumers| && s.consumers[c].Asleep? {
        ReturnsElsewhere(s, Step(s, e), c);
      }
  }

  lemma {:induction false} NotifiedUpdate<T>(consumers: seq<Consumer<T>>, c: nat, at: Consumer<T>)
    requires c < |consumers|
    ensures Notified(consumers[c := at]) + Notified([consumers[c]]) == Notified(consumers) + Notified([at])
    decreases |consumers|
  {
    if c > 0 {
      NotifiedUpdate(consumers[1..], c - 1, at);
      assert consumers[c := at][1..] == consumers[1..][c - 1 := at];
    } else {
      assert consumers[c := at][1..] == consumers[1..];
    }
  }

  lemma WakeupsProducer<T>(s: Queue<T>, p: nat, value: T, wakes: nat)
    requires LockOk(s) && WakeupsOk(s) && p < |s.producers|
    ensures WakeupsOk(ProducerTurn(s, p, value, wakes))
  {
    var s' := ProducerTurn(s, p, value, wakes);
    if wakes < |s.consumers| {
      NotifiedUpdate(s.consumers, wakes, s'.consumers[wakes]);
    }
    if SomeoneSleeps(s'.consumers) {
      var v :| 0 <= v < |s'.consumers| && s'.consumers[v].Asleep?;
      assert s.consumers[v].Asleep?;
    }
  }

  lemma WakeupsConsumer<T>(s: Queue<T>, c: nat)
    requires |s.returned| == |s.consumers| && LockOk(s) && PositionsOk(s) && WakeupsOk(s) && c < |s.consumers|
    ensures WakeupsOk(ConsumerTurn(s, c))
  {
    var s' := ConsumerTurn(s, c);
    assert ConsumerOk(s, c);
    NotifiedUpdate(s.consumers, c, s'.consumers[c]);
    if SomeoneSleeps(s'.consumers) && !s.consumers[c].GoingToSleep? {
      var v :| 0 <= v < |s'.consumers| && s'.consumers[v].Asleep?;
      assert s.consumers[v].Asleep?;
    }
  }

  lemma WakeupsStep<T>(s: Queue<T>, e: Event<T>)
    requires |s.returned| == |s.consumers| && LockOk(s) && PositionsOk(s) && WakeupsOk(s)
    ensures WakeupsOk(Step(s, e))
  {
    match e
    case ProducerStep(p, value, wakes) => if p < |s.producers| { WakeupsProducer(s, p, value, wakes); }
    case ConsumerStep(c) => if c < |s.consumers| { WakeupsConsumer(s, c); }
    case SpuriousWakeup(c) =>
      if c < |s.consumers| && s.consumers[c].Asleep? {
        NotifiedUpdate(s.consumers, c, Acquiring(false));
      }
  }

  lemma StepInv<T>(s: Queue<T>, e: Event<T>)
    requires Inv(s)
    ensures Inv(Step(s, e))
  {
    hide LockOk, PositionsOk, Fifo, ReturnsOk, WakeupsOk, Step;
    LockStep(s, e);
    PositionsStep(s, e);
    FifoStep(s, e);
    ReturnsStep(s, e);
    WakeupsStep(s, e);
  }

  lemma {:induction false} ReachedInv<T>(producers: nat, consumers: nat, events: seq<Event<T>>)
    ensures Inv(Reached(producers, consumers, events))
    decreases |events|
  {
    hide Inv, Step;
    if events == [] {
      InitInv<T>(producers, consumers);
    } else {
      var before := Reached(producers, consumers, events[..|events| - 1]);
      ReachedInv(producers, consumers, events[..|events| - 1]);
      assert |before.returned| == |before.consumers|;
      StepInv(before, events[|events| - 1]);
    }
  }

  // -- The queue as its users see it ---------------------------------------------------------------

  /** In every run values leave in the order they entered, each to one consumer, whose calls
      return exactly the values it popped; `front` and `pop` never meet an empty queue. */
  lemma DeliversInOrder<T>(producers: nat, consumers: nat, events: seq<Event<T>>)
    ensures var s := Reached(producers, consumers, events);
            && s.emplaced == Values(s.deliveries) + s.items
            && !s.fault
            && forall c: nat :: c < consumers ==> s.returned[c] <= ValuesTo(s.deliveries, c)
    ensures var s := Reached(producers, consumers, events);
            forall c: nat :: c < consumers && !s.consumers[c].Leaving? ==> s.returned[c] == ValuesTo(s.deliveries, c)
  {
    ReachedInv(producers, consumers, events);
    var s := Reached(producers, consumers, events);
    forall c: nat | c < consumers
      ensures s.returned[c] <= ValuesTo(s.deliveries, c)
      ensures !s.consumers[c].Leaving? ==> s.returned[c] == ValuesTo(s.deliveries, c)
    {
    }
  }

  /** No lost wake-up, in every reachable state, with barging and spurious wake-ups: while a
      consumer sleeps and nobody is inside the mutex, the queued items are at most the consumers
      notified that have not resumed. Inside it, one more may be about to be notified or taken. */
  lemma NoLostWakeup<T>(producers: nat, consumers: nat, events: seq<Event<T>>)
    requires SomeoneSleeps(Reached(producers, consumers, events).consumers)
    ensures var s := Reached(producers, consumers, events);
            && (s.owner == Free ==> |s.items| <= Notified(s.consumers))
            && |s.items| <= Notified(s.consumers) + if HolderCounts(s) then 1 else 0
  {
    ReachedInv(producers, consumers, events);
  }

  lemma {:induction false} SomeoneNotified<T>(consumers: seq<Consumer<T>>)
    requires Notified(consumers) > 0
    ensures exists c :: 0 <= c < |consumers| && consumers[c] == Acquiring(true)
    decreases |consumers|
  {
    if consumers[0] != Acquiring(true) {
      SomeoneNotified(consumers[1..]);
      var c :| 0 <= c < |consumers[1..]| && consumers[1..][c] == Acquiring(true);
      assert consumers[c + 1] == Acquiring(true);
    }
  }

  /** So a queue that holds an item is never left to sleepers alone: if the mutex is free, some
      consumer has been notified and can take the mutex, find the item and return it. */
  lemma ItemsHaveTakers<T>(producers: nat, consumers: nat, events: seq<Event<T>>)
    requires var s := Reached(producers, consumers, events);
             SomeoneSleeps(s.consumers) && s.owner == Free && s.items != []
    ensures var s := Reached(producers, consumers, events);
            exists c: nat :: c < consumers && s.consumers[c] == Acquiring(true) && TakesFront(s, c)
  {
    ReachedInv(producers, consumers, events);
    var s := Reached(producers, consumers, events);
    SomeoneNotified(s.consumers);
    var c: nat :| c < consumers && s.consumers[c] == Acquiring(true);
    CallTakesFront(s, c);
  }

  function Alone<T>(s: Queue<T>, c: nat, n: nat): (s': Queue<T>)
    requires c < |s.consumers| && |s.returned| == |s.consumers|
    ensures |s'.returned| == |s'.consumers| == |s.consumers|
    decreases n
  {
    if n == 0 then s else Alone(ConsumerTurn(s, c), c, n - 1)
  }

  /** Left to itself the call returns the front item. */
  ghost predicate TakesFront<T>(s: Queue<T>, c: nat)
    requires c < |s.consumers| && |s.returned| == |s.consumers| && s.items != []
  {
    var s' := Alone(s, c, 5);
    s'.items == s.items[1..] && s'.returned[c] == s.returned[c] + [s.items[0]] && s'.owner == Free
  }

  lemma CallTakesFront<T>(s: Queue<T>, c: nat)
    requires c < |s.consumers| && |s.returned| == |s.consumers| && s.items != []
    requires s.consumers[c].Acquiring? && s.owner == Free
    ensures TakesFront(s, c)
  {
    var s1 := ConsumerTurn(s, c);
    var s2 := ConsumerTurn(s1, c);
    var s3 := ConsumerTurn(s2, c);
    var s4 := ConsumerTurn(s3, c);
    var s5 := ConsumerTurn(s4, c);
    assert Alone(s4, c, 1) == Alone(s5, c, 0);
    assert Alone(s2, c, 3) == Alone(s3, c, 2) == Alone(s4, c, 1);
    assert Alone(s, c, 5) == Alone(s1, c, 4) == Alone(s2, c, 3);
  }

  // -- Whole calls ----------------------------------------------------------------------------------

  /** The state before step i of a run from s. */
  function Before<T>(s: Queue<T>, events: seq<Event<T>>, i: nat): (t: Queue<T>)
    requires |s.returned| == |s.consumers| && i <= |events|
    ensures |t.returned| == |t.consumers| == |s.consumers| && |t.producers| == |s.producers|
  {
    Run(s, events[..i])
  }

  lemma RunNext<T>(s: Queue<T>, events: seq<Event<T>>, i: nat)
    requires |s.returned| == |s.consumers| && i < |events|
    ensures Before(s, events, i + 1) == Step(Before(s, events, i), events[i])
  {
    hide Step;
    assert events[..i + 1][..i] == events[..i];
  }

  lemma RunWhole<T>(s: Queue<T>, events: seq<Event<T>>)
    requires |s.returned| == |s.consumers|
    ensures Before(s, events, 0) == s && Before(s, events, |events|) == Run(s, events)
  {
    assert events[..0] == [] && events[..|events|] == events;
  }

  predicate StepOf<T>(e: Event<T>, p: nat) {
    e.ProducerStep? && e.p == p
  }

  /** The argument of the call that p begins with this step, if it does. */
  function BeginsWith<T>(s: Queue<T>, e: Event<T>, p: nat): seq<T>
    requires p < |s.producers|
  {
    if StepOf(e, p) && s.producers[p].Outside? then [e.value] else []
  }

  /** What the step adds to the values emplaced. */
  function Adds<T>(s: Queue<T>, e: Event<T>): seq<T>
    requires |s.returned| == |s.consumers|
  {
    var s' := Step(s, e);
    if |s.emplaced| <= |s'.emplaced| then s'.emplaced[|s.emplaced|..] else []
  }

  /** The arguments of the calls of `emplace` that p begins in a run from s, in order. */
  function Begun<T>(s: Queue<T>, events: seq<Event<T>>, p: nat): seq<seq<T>>
    requires |s.returned| == |s.consumers| && p < |s.producers|
  {
    seq(|events|, i requires 0 <= i < |events| => BeginsWith(Before(s, events, i), events[i], p))
  }

  /** What the steps of the run, and what those of p, add to the values emplaced. */
  function Added<T>(s: Queue<T>, events: seq<Event<T>>): seq<seq<T>>
    requires |s.returned| == |s.consumers|
  {
    seq(|events|, i requires 0 <= i < |events| => Adds(Before(s, events, i), events[i]))
  }

  function AddedBy<T>(s: Queue<T>, events: seq<Event<T>>, p: nat): seq<seq<T>>
    requires |s.returned| == |s.consumers|
  {
    seq(|events|, i requires 0 <= i < |events| => if StepOf(events[i], p) then Added(s, events)[i] else [])
  }

  /** What a call under way has still to push. */
  function Unpushed<T>(at: Producer<T>): seq<T> {
    if at.Entering? || at.Pushing? then [at.value] else []
  }

  /** What enters the history `emplaced` enters the queue, at its end and by a step of a producer,
      which changes nothing else in the queue. */
  lemma EmplacedIsQueued<T>(s: Queue<T>, e: Event<T>)
    requires |s.returned| == |s.consumers|
    ensures Step(s, e).emplaced == s.emplaced + Adds(s, e)
    ensures if e.ProducerStep? then Step(s, e).items == s.items + Adds(s, e) else Adds(s, e) == []
  {
    hide SomeoneSleeps;
  }

  lemma EmplaceAccount<T>(s: Queue<T>, e: Event<T>, p: nat)
    requires |s.returned| == |s.consumers| && p < |s.producers|
    ensures Unpushed(s.producers[p]) + BeginsWith(s, e, p) ==
            (if StepOf(e, p) then Adds(s, e) else []) + Unpushed(Step(s, e).producers[p])
  {
    hide SomeoneSleeps;
  }

  function PendingOf<T>(s: Queue<T>, events: seq<Event<T>>, p: nat): seq<seq<T>>
    requires |s.returned| == |s.consumers| && p < |s.producers|
  {
    seq(|events| + 1, i requires 0 <= i <= |events| => Unpushed(Before(s, events, i).producers[p]))
  }

  lemma StepAccounts<T>(s: Queue<T>, events: seq<Event<T>>, p: nat)
    requires |s.returned| == |s.consumers| && p < |s.producers|
    ensures forall i :: 0 <= i < |events| ==>
              PendingOf(s, events, p)[i] + Begun(s, events, p)[i] ==
              AddedBy(s, events, p)[i] + PendingOf(s, events, p)[i + 1]
  {
    forall i | 0 <= i < |events|
      ensures PendingOf(s, events, p)[i] + Begun(s, events, p)[i] ==
              AddedBy(s, events, p)[i] + PendingOf(s, events, p)[i + 1]
    {
      RunNext(s, events, i);
      EmplaceAccount(Before(s, events, i), events[i], p);
      hide Step, Run, Before, BeginsWith, Adds, Unpushed;
    }
  }

  /** In any run from any state, the steps of each producer emplace the arguments of the calls that
      it begins, in order, all but the one that a call under way has still to push. */
  lemma CallsEmplace<T>(s: Queue<T>, events: seq<Event<T>>, p: nat)
    requires |s.returned| == |s.consumers| && p < |s.producers|
    ensures Unpushed(s.producers[p]) + Joined(Begun(s, events, p)) ==
            Joined(AddedBy(s, events, p)) + Unpushed(Run(s, events).producers[p])
  {
    StepAccounts(s, events, p);
    RunWhole(s, events);
    hide Run, Before, BeginsWith, Adds, Unpushed;
    Telescope(PendingOf(s, events, p), Begun(s, events, p), AddedBy(s, events, p), |events|);
    assert Begun(s, events, p)[..|events|] == Begun(s, events, p);
    assert AddedBy(s, events, p)[..|events|] == AddedBy(s, events, p);
  }

  /** When no call of p is under way, what its steps have emplaced are the arguments of its calls. */
  lemma CompletedCallsEmplace<T>(s: Queue<T>, events: seq<Event<T>>, p: nat)
    requires |s.returned| == |s.consumers| && p < |s.producers|
    requires s.producers[p].Outside? && Run(s, events).producers[p].Outside?
    ensures Joined(AddedBy(s, events, p)) == Joined(Begun(s, events, p))
  {
    StepAccounts(s, events, p);
    RunWhole(s, events);
    hide Run, Before, BeginsWith, Adds;
    Settled(PendingOf(s, events, p), Begun(s, events, p), AddedBy(s, events, p));
  }

  lemma AddsInProducersName<T>(s: Queue<T>, e: Event<T>)
    requires |s.returned| == |s.consumers|
    ensures Step(s, e).emplaced == s.emplaced + Adds(s, e)
    ensures Adds(s, e) != [] ==> e.ProducerStep? && e.p < |s.producers|
  {
    EmplacedIsQueued(s, e);
  }

  lemma EmplacedIsAdded<T>(s: Queue<T>, events: seq<Event<T>>)
    requires |s.returned| == |s.consumers|
    ensures Run(s, events).emplaced == s.emplaced + Joined(Added(s, events))
    ensures forall i :: 0 <= i < |events| && Added(s, events)[i] != [] ==>
              events[i].ProducerStep? && events[i].p < |s.producers|
  {
    var emplaced := seq(|events| + 1, i requires 0 <= i <= |events| => Before(s, events, i).emplaced);
    forall i | 0 <= i < |events|
      ensures emplaced[i + 1] == emplaced[i] + Added(s, events)[i]
      ensures Added(s, events)[i] != [] ==> events[i].ProducerStep? && events[i].p < |s.producers|
    {
      RunNext(s, events, i);
      AddsInProducersName(Before(s, events, i), events[i]);
      hide Step, Run, Before, Adds;
    }
    RunWhole(s, events);
    hide Step, Run, Before, Adds;
    HistoryJoined(emplaced, Added(s, events), |events|);
    assert Added(s, events)[..|events|] == Added(s, events);
  }

  /** There is nothing else in the history of values emplaced, on which `DeliversInOrder` rests: it
      is what the steps of the run add, each in the name of one producer, and for a producer that is
      not in a call that is the arguments of its calls, in order. */
  lemma EmplacedAreArguments<T>(producers: nat, consumers: nat, events: seq<Event<T>>)
    ensures var s := Init<T>(producers, consumers);
            && Reached(producers, consumers, events).emplaced == Joined(Added(s, events))
            && (forall i :: 0 <= i < |events| && Added(s, events)[i] != [] ==>
                  events[i].ProducerStep? && events[i].p < producers)
            && (forall p: nat :: p < producers && Reached(producers, consumers, events).producers[p].Outside? ==>
                  Joined(AddedBy(s, events, p)) == Joined(Begun(s, events, p)))
  {
    var s := Init<T>(producers, consumers);
    assert s.emplaced == [] && s.producers == seq(producers, _ => Outside);
    EmplacedIsAdded(s, events);
    hide Run, Added, AddedBy, Begun, Joined;
    assert [] + Joined(Added(s, events)) == Joined(Added(s, events));
    forall p: nat | p < producers && Reached(producers, consumers, events).producers[p].Outside?
      ensures Joined(AddedBy(s, events, p)) == Joined(Begun(s, events, p))
    {
      CompletedCallsEmplace(s, events, p);
    }
  }

  lemma StepAppends<T>(s: Queue<T>, events: seq<Event<T>>, p: nat, i: nat)
    requires |s.returned| == |s.consumers| && i < |events| && StepOf(events[i], p)
    ensures Before(s, events, i + 1).items == Before(s, events, i).items + AddedBy(s, events, p)[i]
  {
    RunNext(s, events, i);
    EmplacedIsQueued(Before(s, events, i), events[i]);
    hide Step, Run, Before, Adds;
  }

  /** A whole call of `emplace`, amid any steps of the other threads: exactly once, at one of its
      own steps, its argument is appended to the queue; its other steps leave the queue alone. */
  lemma EmplaceCall<T>(s: Queue<T>, events: seq<Event<T>>, p: nat, value: T) returns (k: nat)
    requires |s.returned| == |s.consumers| && p < |s.producers|
    requires s.producers[p].Outside? && Run(s, events).producers[p].Outside?
    requires Joined(Begun(s, events, p)) == [value]
    ensures k < |events| && StepOf(events[k], p)
    ensures Before(s, events, k + 1).items == Before(s, events, k).items + [value]
    ensures forall i :: 0 <= i < |events| && StepOf(events[i], p) && i != k ==>
              Before(s, events, i + 1).items == Before(s, events, i).items
  {
    CompletedCallsEmplace(s, events, p);
    k := OnePart(AddedBy(s, events, p), value);
    assert StepOf(events[k], p);
    hide Step, Run, Before, Adds, Added, AddedBy, Begun, Joined, StepOf;
    StepAppends(s, events, p, k);
    forall i | 0 <= i < |events| && StepOf(events[i], p) && i != k
      ensures Before(s, events, i + 1).items == Before(s, events, i).items
    {
      StepAppends(s, events, p, i);
    }
  }

  lemma {:induction false} BeforeInv<T>(s: Queue<T>, events: seq<Event<T>>, i: nat)
    requires Inv(s) && i <= |events|
    ensures Inv(Before(s, events, i))
    decreases i
  {
    if i > 0 {
      BeforeInv(s, events, i - 1);
      RunNext(s, events, i - 1);
      hide Inv, Step, Run;
      StepInv(Before(s, events, i - 1), events[i - 1]);
    }
  }

  predicate PopStepOf<T>(e: Event<T>, c: nat) {
    e.ConsumerStep? && e.c == c
  }

  /** A mark for the call of `pop` that c begins with this step, if it does. */
  function BeginsPop<T>(s: Queue<T>, e: Event<T>, c: nat): seq<()>
    requires c < |s.consumers|
  {
    if PopStepOf(e, c) && s.consumers[c].Away? then [()] else []
  }

  /** A mark for a call under way that has still to take its value. */
  function Untaken<T>(at: Consumer<T>): seq<()> {
    if at.Away? || at.Leaving? then [] else [()]
  }

  /** The value that a step of c takes from the front, if it does. */
  function Takes<T>(s: Queue<T>, e: Event<T>, c: nat): seq<T>
    requires |s.returned| == |s.consumers|
  {
    if PopStepOf(e, c) && 0 < |s.items| != |Step(s, e).items| then [s.items[0]] else []
  }

  function Marks<T>(values: seq<T>): seq<()> {
    seq(|values|, _ => ())
  }

  function BegunPops<T>(s: Queue<T>, events: seq<Event<T>>, c: nat): seq<seq<()>>
    requires |s.returned| == |s.consumers| && c < |s.consumers|
  {
    seq(|events|, i requires 0 <= i < |events| => BeginsPop(Before(s, events, i), events[i], c))
  }

  function TakenBy<T>(s: Queue<T>, events: seq<Event<T>>, c: nat): seq<seq<T>>
    requires |s.returned| == |s.consumers|
  {
    seq(|events|, i requires 0 <= i < |events| => Takes(Before(s, events, i), events[i], c))
  }

  /** What c has taken, returned or not yet. */
  function Got<T>(s: Queue<T>, c: nat): seq<T>
    requires c < |s.consumers| && |s.returned| == |s.consumers|
  {
    s.returned[c] + Pending(s.consumers[c])
  }

  /** The step is c's and takes the front, or leaves what it has got, and if it is c's the queue,
      as they are. */
  ghost predicate TakesFrontOrNothing<T>(s: Queue<T>, s': Queue<T>, own: bool, c: nat)
    requires |s.returned| == |s.consumers| == |s'.consumers| == |s'.returned| && c < |s.consumers|
  {
    || (own && s.items != [] && s'.items == s.items[1..] && Got(s', c) == Got(s, c) + [s.items[0]])
    || ((own ==> s'.items == s.items) && Got(s', c) == Got(s, c))
  }

  lemma PopOwn<T>(s: Queue<T>, c: nat)
    requires Inv(s) && c < |s.consumers|
    ensures TakesFrontOrNothing(s, Step(s, ConsumerStep(c)), true, c)
    ensures var s' := Step(s, ConsumerStep(c));
            |Untaken(s.consumers[c])| + |BeginsPop(s, ConsumerStep(c), c)| ==
            |Untaken(s'.consumers[c])| + if |s'.items| == |s.items| then 0 else 1
  {
    assert |s.returned| == |s.consumers| && ConsumerOk(s, c);
    hide Inv;
    if s.consumers[c].Popping? {
      PopTakes(s, c);
    } else {
      PopMoves(s, c);
    }
  }

  lemma PopTakes<T>(s: Queue<T>, c: nat)
    requires |s.returned| == |s.consumers| && c < |s.consumers| && s.consumers[c].Popping? && ConsumerOk(s, c)
    ensures var s' := ConsumerTurn(s, c);
            && s.items != [] && s'.items == s.items[1..] && Got(s', c) == Got(s, c) + [s.items[0]]
            && s'.consumers[c].Leaving?
  {
    assert s.returned[c] + [] == s.returned[c];
  }

  lemma PopMoves<T>(s: Queue<T>, c: nat)
    requires |s.returned| == |s.consumers| && c < |s.consumers| && !s.consumers[c].Popping? && ConsumerOk(s, c)
    ensures var s' := ConsumerTurn(s, c);
            && s'.items == s.items && Got(s', c) == Got(s, c)
            && |Untaken(s.consumers[c])| + (if s.consumers[c].Away? then 1 else 0) == |Untaken(s'.consumers[c])|
  {
    if s.consumers[c].Leaving? {
      assert s.returned[c] + [s.consumers[c].value] + [] == s.returned[c] + [s.consumers[c].value];
    }
  }

  /** A step of another thread can only wake c. */
  ghost predicate Wakes<T>(s: Queue<T>, s': Queue<T>, c: nat)
    requires |s.returned| == |s.consumers| == |s'.consumers| == |s'.returned| && c < |s.consumers|
  {
    && s'.returned[c] == s.returned[c]
    && (s'.consumers[c] == s.consumers[c] || (s.consumers[c].Asleep? && s'.consumers[c].Acquiring?))
  }

  lemma ProducerWakes<T>(s: Queue<T>, p: nat, value: T, wakes: nat, c: nat)
    requires |s.returned| == |s.consumers| && c < |s.consumers| && p < |s.producers|
    ensures Wakes(s, Step(s, ProducerStep(p, value, wakes)), c)
  {
    hide SomeoneSleeps;
  }

  lemma OtherConsumerWakes<T>(s: Queue<T>, d: nat, c: nat)
    requires |s.returned| == |s.consumers| && c < |s.consumers| && d < |s.consumers| && d != c
    ensures Wakes(s, Step(s, ConsumerStep(d)), c)
  {
  }

  lemma PopOther<T>(s: Queue<T>, e: Event<T>, c: nat)
    requires |s.returned| == |s.consumers| && c < |s.consumers| && !PopStepOf(e, c)
    ensures Got(Step(s, e), c) == Got(s, c)
    ensures Untaken(Step(s, e).consumers[c]) == Untaken(s.consumers[c])
  {
    match e
    case ProducerStep(p, value, wakes) => if p < |s.producers| { ProducerWakes(s, p, value, wakes, c); }
    case ConsumerStep(d) => if d < |s.consumers| { OtherConsumerWakes(s, d, c); }
    case SpuriousWakeup(d) =>
    hide ProducerTurn, ConsumerTurn;
  }

  /** A call takes one value, the front, and its consumer returns what it has taken. */
  lemma PopAccount<T>(s: Queue<T>, e: Event<T>, c: nat)
    requires Inv(s) && c < |s.consumers|
    ensures Untaken(s.consumers[c]) + BeginsPop(s, e, c) == Marks(Takes(s, e, c)) + Untaken(Step(s, e).consumers[c])
    ensures Got(Step(s, e), c) == Got(s, c) + Takes(s, e, c)
    ensures PopStepOf(e, c) && Takes(s, e, c) == [] ==> Step(s, e).items == s.items
    ensures Takes(s, e, c) != [] ==> s.items != [] && Takes(s, e, c) == [s.items[0]] && Step(s, e).items == s.items[1..]
  {
    if PopStepOf(e, c) {
      PopOwn(s, c);
    } else {
      PopOther(s, e, c);
    }
    hide Step, Inv, Got;
  }

  function UntakenOf<T>(s: Queue<T>, events: seq<Event<T>>, c: nat): seq<seq<()>>
    requires |s.returned| == |s.consumers| && c < |s.consumers|
  {
    seq(|events| + 1, i requires 0 <= i <= |events| => Untaken(Before(s, events, i).consumers[c]))
  }

  function GotOf<T>(s: Queue<T>, events: seq<Event<T>>, c: nat): seq<seq<T>>
    requires |s.returned| == |s.consumers| && c < |s.consumers|
  {
    seq(|events| + 1, i requires 0 <= i <= |events| => Got(Before(s, events, i), c))
  }

  function TakenMarks<T>(s: Queue<T>, events: seq<Event<T>>, c: nat): seq<seq<()>>
    requires |s.returned| == |s.consumers|
  {
    seq(|events|, i requires 0 <= i < |events| => Marks(TakenBy(s, events, c)[i]))
  }

  lemma PopAccounts<T>(s: Queue<T>, events: seq<Event<T>>, c: nat, i: nat)
    requires Inv(s) && c < |s.consumers| && i < |events|
    ensures UntakenOf(s, events, c)[i] + BegunPops(s, events, c)[i] ==
            TakenMarks(s, events, c)[i] + UntakenOf(s, events, c)[i + 1]
    ensures GotOf(s, events, c)[i + 1] == GotOf(s, events, c)[i] + TakenBy(s, events, c)[i]
  {
    BeforeInv(s, events, i);
    RunNext(s, events, i);
    PopAccount(Before(s, events, i), events[i], c);
    hide Step, Run, Before, Inv, Takes, Got, BeginsPop, Untaken, Marks;
  }

  /** A whole call of `pop`, amid any steps of the other threads: exactly once, at one of its own
      steps, it takes the front item off the queue, and that is what it returns; its other steps
      leave the queue alone. */
  lemma PopCall<T>(s: Queue<T>, events: seq<Event<T>>, c: nat) returns (k: nat)
    requires Inv(s) && c < |s.consumers|
    requires s.consumers[c].Away? && Run(s, events).consumers[c].Away?
    requires Joined(BegunPops(s, events, c)) == [()]
    ensures k < |events| && PopStepOf(events[k], c) && Before(s, events, k).items != []
    ensures Before(s, events, k + 1).items == Before(s, events, k).items[1..]
    ensures Run(s, events).returned[c] == s.returned[c] + [Before(s, events, k).items[0]]
    ensures forall i :: 0 <= i < |events| && PopStepOf(events[i], c) && i != k ==>
              Before(s, events, i + 1).items == Before(s, events, i).items
  {
    k := TakesOnce(s, events, c);
    GotWhenAway(s, c);
    GotWhenAway(Run(s, events), c);
    hide *;
    TakesAt(s, events, c, k);
    forall i | 0 <= i < |events| && PopStepOf(events[i], c) && i != k
      ensures Before(s, events, i + 1).items == Before(s, events, i).items
    {
      TakesAt(s, events, c, i);
    }
  }

  lemma GotWhenAway<T>(s: Queue<T>, c: nat)
    requires |s.returned| == |s.consumers| && c < |s.consumers| && s.consumers[c].Away?
    ensures Got(s, c) == s.returned[c]
  {
  }

  lemma TakesAt<T>(s: Queue<T>, events: seq<Event<T>>, c: nat, i: nat)
    requires Inv(s) && c < |s.consumers| && i < |events|
    ensures var t, t' := Before(s, events, i), Before(s, events, i + 1);
            && (PopStepOf(events[i], c) && TakenBy(s, events, c)[i] == [] ==> t'.items == t.items)
            && (TakenBy(s, events, c)[i] != [] ==>
                  && PopStepOf(events[i], c) && t.items != []
                  && TakenBy(s, events, c)[i] == [t.items[0]] && t'.items == t.items[1..])
  {
    BeforeInv(s, events, i);
    RunNext(s, events, i);
    PopAccount(Before(s, events, i), events[i], c);
    hide Step, Run, Before, Inv, Got, BeginsPop, Untaken, Marks;
  }

  lemma TakesOnce<T>(s: Queue<T>, events: seq<Event<T>>, c: nat) returns (k: nat)
    requires Inv(s) && c < |s.consumers|
    requires s.consumers[c].Away? && Run(s, events).consumers[c].Away?
    requires Joined(BegunPops(s, events, c)) == [()]
    ensures k < |events| && TakenBy(s, events, c)[k] != []
    ensures forall i :: 0 <= i < |events| && i != k ==> TakenBy(s, events, c)[i] == []
    ensures Got(Run(s, events), c) == Got(s, c) + TakenBy(s, events, c)[k]
  {
    RunWhole(s, events);
    GotIsTaken(s, events, c);
    hide Inv, Run, Before, Takes, Got, BeginsPop;
    forall i: nat | i < |events|
      ensures UntakenOf(s, events, c)[i] + BegunPops(s, events, c)[i] ==
              TakenMarks(s, events, c)[i] + UntakenOf(s, events, c)[i + 1]
    {
      PopAccounts(s, events, c, i);
    }
    Settled(UntakenOf(s, events, c), BegunPops(s, events, c), TakenMarks(s, events, c));
    hide UntakenOf, BegunPops;
    k := OnePart(TakenMarks(s, events, c), ());
    assert forall i :: 0 <= i < |events| ==> |TakenMarks(s, events, c)[i]| == |TakenBy(s, events, c)[i]|;
    hide TakenMarks, TakenBy;
    OnlyPart(TakenBy(s, events, c), k);
  }

  /** In any run a consumer gets what its steps take. */
  lemma GotIsTaken<T>(s: Queue<T>, events: seq<Event<T>>, c: nat)
    requires Inv(s) && c < |s.consumers|
    ensures Got(Run(s, events), c) == Got(s, c) + Joined(TakenBy(s, events, c))
  {
    RunWhole(s, events);
    hide Inv, Run, Before, Takes, Got;
    forall i: nat | i < |events|
      ensures GotOf(s, events, c)[i + 1] == GotOf(s, events, c)[i] + TakenBy(s, events, c)[i]
    {
      PopAccounts(s, events, c, i);
    }
    HistoryJoined(GotOf(s, events, c), TakenBy(s, events, c), |events|);
    assert TakenBy(s, events, c)[..|events|] == TakenBy(s, events, c);
  }

  // -- The object ------------------------------------------------------------------------------------

  /** The queue as an object: each method is one step of a thread, on the fields it shares. */
  class SPMCQueue<T(==)> {
    var items: seq<T>
    var mutex: Owner
    var producers: seq<Producer<T>>
    var consumers: seq<Consumer<T>>
    var returned: seq<seq<T>>
    ghost var emplaced: seq<T>
    ghost var deliveries: seq<Delivery<T>>

    ghost function Snapshot(): Queue<T>
      reads this
    {
      Queue(items, mutex, producers, consumers, emplaced, deliveries, returned, false)
    }

    constructor (producerCount: nat, consumerCount: nat)
      ensures Snapshot() == Init(producerCount, consumerCount) && Inv(Snapshot())
    {
      items, mutex := [], Free;
      producers := seq(producerCount, _ => Outside);
      consumers := seq(consumerCount, _ => Away);
      returned := seq(consumerCount, _ => []);
      emplaced, deliveries := [], [];
      new;
      InitInv<T>(producerCount, consumerCount);
    }

    /** One step of `emplace`; `wakes` is the consumer that `notify_one` would pick. */
    method EmplaceStep(p: nat, value: T, wakes: nat)
      requires Inv(Snapshot()) && p < |producers|
      modifies this
      ensures Inv(Snapshot()) && Snapshot() == ProducerTurn(old(Snapshot()), p, value, wakes)
    {
      StepInv(Snapshot(), ProducerStep(p, value, wakes));
      hide Inv, SomeoneSleeps;
      match producers[p] {
        case Outside =>
          producers := producers[p := Entering(value)];
        case Entering(v) =>
          if mutex == Free {
            mutex := ByProducer(p);
            producers := producers[p := Pushing(v)];
          }
        case Pushing(v) =>
          items := items + [v];
          emplaced := emplaced + [v];
          producers := producers[p := Notifying];
        case Notifying =>
          if !SomeoneSleeps(consumers) {
            producers := producers[p := Releasing];
          } else if wakes < |consumers| && consumers[wakes].Asleep? {
            consumers := consumers[wakes := Acquiring(true)];
            producers := producers[p := Releasing];
          }
        case Releasing =>
          mutex := Free;
          producers := producers[p := Outside];
      }
    }

    /** One step of `pop`. The queue is never empty where it takes the front. */
    method PopStep(c: nat)
      requires Inv(Snapshot()) && c < |consumers|
      modifies this
      ensures Inv(Snapshot()) && Snapshot() == ConsumerTurn(old(Snapshot()), c)
    {
      StepInv(Snapshot(), ConsumerStep(c));
      assert ConsumerOk(Snapshot(), c);
      assert |returned| == |consumers|;
      hide Inv;
      match consumers[c] {
        case Away =>
          consumers := consumers[c := Acquiring(false)];
        case Acquiring(_) =>
          if mutex == Free {
            mutex := ByConsumer(c);
            consumers := consumers[c := Testing];
          }
        case Testing =>
          consumers := consumers[c := if items == [] then GoingToSleep else Taking];
        case GoingToSleep =>
          mutex := Free;
          consumers := consumers[c := Asleep];
        case Asleep =>
        case Taking =>
          var val := items[0];
          consumers := consumers[c := Popping(val)];
        case Popping(v) =>
          deliveries := deliveries + [Delivery(c, items[0])];
          items := items[1..];
          consumers := consumers[c := Leaving(v)];
        case Leaving(v) =>
          mutex := Free;
          consumers := consumers[c := Away];
          returned := returned[c := returned[c] + [v]];
      }
    }

    /** Any interleaving. */
    method Play(events: seq<Event<T>>)
      requires Inv(Snapshot())
      modifies this
      ensures Inv(Snapshot()) && Snapshot() == Run(old(Snapshot()), events)
    {
      hide ProducerTurn, ConsumerTurn, LockOk, PositionsOk, Fifo, ReturnsOk, WakeupsOk;
      for i := 0 to |events|
        invariant Inv(Snapshot()) && Snapshot() == Run(old(Snapshot()), events[..i])
      {
        assert events[..i + 1][..i] == events[..i];
        match events[i] {
          case ProducerStep(p, value, wakes) => if p < |producers| { EmplaceStep(p, value, wakes); }
          case ConsumerStep(c) => if c < |consumers| { PopStep(c); }
          case SpuriousWakeup(c) =>
            StepInv(Snapshot(), SpuriousWakeup(c));
            if c < |consumers| && consumers[c].Asleep? {
              consumers := consumers[c := Acquiring(false)];
            }
        }
      }
      assert events[..|events|] == events;
    }
  }
}
