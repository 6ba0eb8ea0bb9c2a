/** The blocking ring of `int`s in `spsc_intring.h`: one thread in `enqueue` and one in `dequeue`,
    either of which may also ask for `size`, as may an observer, interleaved one shared access at
    a time. */
module IntRing {

  import opened Bits
  import opened Traces

  const MAX_INT: int := 0x7FFF_FFFF

  /** Where the producing thread is, with its local copies of the cursors. */
  datatype Producer =
    | Outside
    | LoadProducer(element: int)
    | LoadConsumer(element: int, producer: int)
    | TestFull(element: int, producer: int, consumer: int)
    | WriteSlot(element: int, producer: int)
    | StoreProducer(element: int, producer: int)
    | Sizing(producer: int) // in `size`, between its two loads
    | Sized(size: int)

  datatype Consumer =
    | Away
    | LoadOwn
    | LoadOther(consumer: int)
    | TestEmpty(consumer: int, producer: int)
    | ReadSlot(consumer: int)
    | StoreConsumer(consumer: int, value: int)
    | Counting(producer: int) // in `size`, between its two loads
    | Counted(size: int)

  datatype Observer = NotLooking | Looking(producer: int) | Saw(size: int)

  /** The last fields are histories: elements whose enqueue has stored its cursor, elements whose
      dequeue has, and whether a cursor was incremented past the range of `int`. */
  datatype Ring = Ring(capacity: int, slots: seq<int>, producer: int, consumer: int,
                       inProducer: Producer, inConsumer: Consumer, observer: Observer,
                       enqueued: seq<int>, dequeued: seq<int>, overflow: bool)

  /** `sizes` says that a call that begins here is of `size`, not of `enqueue` or `dequeue`. */
  datatype Event = ProducerStep(element: int, sizes: bool) | ConsumerStep(sizes: bool) | ObserverStep

  function Init(capacity: int): Ring
    requires capacity > 0
  {
    Ring(capacity, seq(capacity, _ => 0), 0, 0, Outside, Away, NotLooking, [], [], false)
  }

  predicate IsEmpty(producer: int, consumer: int) {
    consumer == producer
  }

  predicate IsFull(producer: int, consumer: int, capacity: int) {
    producer - consumer >= capacity
  }

  /** The remainder of a position; positions are never negative. */
  function Index(pos: int, capacity: int): (i: int)
    requires capacity > 0
    ensures 0 <= i < capacity
  {
    pos % capacity
  }

  ghost predicate WellSized(s: Ring) {
    s.capacity > 0 && |s.slots| == s.capacity
  }

  function ProducerTurn(s: Ring, element: int, sizes: bool): Ring
    requires WellSized(s)
  {
    match s.inProducer
    case Outside => s.(inProducer := if sizes then Sizing(s.producer) else LoadProducer(element))
    case LoadProducer(e) => s.(inProducer := LoadConsumer(e, s.producer))
    case LoadConsumer(e, p) => s.(inProducer := TestFull(e, p, s.consumer))
    case TestFull(e, p, c) =>
      s.(inProducer := if IsFull(p, c, s.capacity) then LoadProducer(e) else WriteSlot(e, p))
    case WriteSlot(e, p) =>
      s.(slots := s.slots[Index(p, s.capacity) := e], inProducer := StoreProducer(e, p))
    case StoreProducer(e, p) =>
      if p == MAX_INT then s.(overflow := true)
      else s.(producer := p + 1, enqueued := s.enqueued + [e], inProducer := Outside)
    case Sizing(p) => s.(inProducer := Sized(p - s.consumer))
    case Sized(_) => s.(inProducer := Outside)
  }

  function ConsumerTurn(s: Ring, sizes: bool): Ring
    requires WellSized(s)
  {
    match s.inConsumer
    case Away => s.(inConsumer := if sizes then Counting(s.producer) else LoadOwn)
    case LoadOwn => s.(inConsumer := LoadOther(s.consumer))
    case LoadOther(c) => s.(inConsumer := TestEmpty(c, s.producer))
    case TestEmpty(c, p) => s.(inConsumer := if IsEmpty(p, c) then LoadOwn else ReadSlot(c))
    case ReadSlot(c) => s.(inConsumer := StoreConsumer(c, s.slots[Index(c, s.capacity)]))
    case StoreConsumer(c, v) =>
      if c == MAX_INT then s.(overflow := true)
      else s.(consumer := c + 1, dequeued := s.dequeued + [v], inConsumer := Away)
    case Counting(p) => s.(inConsumer := Counted(p - s.consumer))
    case Counted(_) => s.(inConsumer := Away)
  }

  function ObserverTurn(s: Ring): Ring {
    match s.observer
    case NotLooking => s.(observer := Looking(s.producer))
    case Looking(p) => s.(observer := Saw(p - s.consumer))
    case Saw(_) => s.(observer := NotLooking)
  }

  function Step(s: Ring, e: Event): (s': Ring)
    requires WellSized(s)
    ensures WellSized(s') && s'.capacity == s.capacity
  {
    match e
    case ProducerStep(element, sizes) => ProducerTurn(s, element, sizes)
    case ConsumerStep(sizes) => ConsumerTurn(s, sizes)
    case ObserverStep => ObserverTurn(s)
  }

  function Run(s: Ring, events: seq<Event>): (s': Ring)
    requires WellSized(s)
    ensures WellSized(s') && s'.capacity == s.capacity
  {
    if events == [] then s else Step(Run(s, events[..|events| - 1]), events[|events| - 1])
  }

  /** A new ring after those steps. */
  function Reached(capacity: int, events: seq<Event>): (s: Ring)
    requires capacity > 0
    ensures WellSized(s) && s.capacity == capacity
  {
    Run(Init(capacity), events)
  }

  // -- Invariants ----------------------------------------------------------------------------------------

  ghost predicate CursorsOk(s: Ring) {
    && s.producer == |s.enqueued| && s.consumer == |s.dequeued|
    && s.consumer <= s.producer <= s.consumer + s.capacity
    && s.producer <= MAX_INT
    && (s.overflow ==> s.producer == MAX_INT)
    && s.dequeued == s.enqueued[..s.consumer]
  }

  /** The slots between the cursors hold what is queued. */
  ghost predicate SlotsOk(s: Ring)
    requires WellSized(s) && CursorsOk(s)
  {
    forall i :: s.consumer <= i < s.producer ==> s.slots[Index(i, s.capacity)] == s.enqueued[i]
  }

  /** The spin loop of `enqueue` exits only when the slot it will write is free. */
  ghost predicate ProducerOk(s: Ring)
    requires WellSized(s)
  {
    match s.inProducer
    case LoadConsumer(_, p) => p == s.producer
    case TestFull(_, p, c) => p == s.producer && c <= s.consumer
    case WriteSlot(_, p) => p == s.producer && p - s.consumer < s.capacity
    case StoreProducer(e, p) =>
      p == s.producer && p - s.consumer < s.capacity && s.slots[Index(p, s.capacity)] == e
    case Sizing(p) => p == s.producer
    case Sized(n) => 0 <= n <= s.capacity
    case _ => true
  }

  /** The spin loop of `dequeue` exits only when the slot it will read is filled. */
  ghost predicate ConsumerOk(s: Ring) {
    match s.inConsumer
    case LoadOther(c) => c == s.consumer
    case TestEmpty(c, p) => c == s.consumer && c <= p <= s.producer
    case ReadSlot(c) => c == s.consumer < s.producer
    case StoreConsumer(c, v) => c == s.consumer < s.producer <= |s.enqueued| && 0 <= c && v == s.enqueued[c]
    case Counting(p) => s.consumer <= p <= s.producer
    case Counted(n) => 0 <= n <= s.capacity
    case _ => true
  }

  ghost predicate ObserverOk(s: Ring) {
    match s.observer
    case NotLooking => true
    case Looking(p) => 0 <= p <= s.consumer + s.capacity && p <= MAX_INT
    case Saw(n) => -MAX_INT <= n <= MAX_INT && n <= s.capacity
  }

  ghost predicate Inv(s: Ring) {
    WellSized(s) && CursorsOk(s) && SlotsOk(s) && ProducerOk(s) && ConsumerOk(s) && ObserverOk(s)
  }

  /** Positions less than a capacity apart have different slots. */
  lemma IndexDistinct(i: int, j: int, capacity: int)
    requires 0 <= i < j < i + capacity
    ensures Index(i, capacity) != Index(j, capacity)
  {
    var q, r, d := i / capacity, i % capacity, j - i;
    assert i == capacity * q + r;
    if r + d < capacity {
      ModUnique(j, capacity, q, r + d);
    } else {
      assert capacity * (q + 1) == capacity * q + capacity;
      ModUnique(j, capacity, q + 1, r + d - capacity);
    }
  }

  lemma InitInv(capacity: int)
    requires capacity > 0
    ensures Inv(Init(capacity))
  {
  }

  lemma ProducerLocal(s: Ring, element: int, sizes: bool)
    requires Inv(s) && !s.inProducer.WriteSlot? && !s.inProducer.StoreProducer?
    ensures Inv(ProducerTurn(s, element, sizes))
  {
    hide Index, SlotsOk;
    var s' := ProducerTurn(s, element, sizes);
    assert ProducerOk(s');
    hide ProducerOk, ProducerTurn;
    assert s' == s.(inProducer := s'.inProducer);
    SlotsSame(s, s');
  }

  lemma SlotsSame(s: Ring, s': Ring)
    requires WellSized(s) && CursorsOk(s) && WellSized(s') && CursorsOk(s') && SlotsOk(s)
    requires s'.slots == s.slots && s'.capacity == s.capacity && s.enqueued == s'.enqueued && s'.consumer >= s.consumer
    ensures SlotsOk(s')
  {
  }

  lemma ProducerWrites(s: Ring, element: int, sizes: bool)
    requires Inv(s) && s.inProducer.WriteSlot?
    ensures Inv(ProducerTurn(s, element, sizes))
  {
    hide Index;
    var s' := ProducerTurn(s, element, sizes);
    forall i | s.consumer <= i < s.producer
      ensures Index(i, s.capacity) != Index(s.producer, s.capacity)
    {
      IndexDistinct(i, s.producer, s.capacity);
    }
    assert SlotsOk(s');
    hide SlotsOk;
    assert ConsumerOk(s') && ProducerOk(s');
  }

  lemma ProducerStores(s: Ring, element: int, sizes: bool)
    requires Inv(s) && s.inProducer.StoreProducer?
    ensures Inv(ProducerTurn(s, element, sizes))
  {
    hide Index;
    var s' := ProducerTurn(s, element, sizes);
    assert CursorsOk(s');
    assert SlotsOk(s');
    hide SlotsOk;
    assert ConsumerOk(s') && ProducerOk(s');
  }

  lemma ConsumerLocal(s: Ring, sizes: bool)
    requires Inv(s) && !s.inConsumer.StoreConsumer?
    ensures Inv(ConsumerTurn(s, sizes))
  {
    hide Index;
    var s' := ConsumerTurn(s, sizes);
    assert ConsumerOk(s');
    hide ConsumerTurn, SlotsOk;
    assert s' == s.(inConsumer := s'.inConsumer);
    SlotsSame(s, s');
  }

  lemma ConsumerStores(s: Ring, sizes: bool)
    requires Inv(s) && s.inConsumer.StoreConsumer?
    ensures Inv(ConsumerTurn(s, sizes))
  {
    hide Index;
    var s' := ConsumerTurn(s, sizes);
    assert s.enqueued[..s.consumer + 1] == s.enqueued[..s.consumer] + [s.enqueued[s.consumer]];
    assert CursorsOk(s');
    SlotsSame(s, s');
    hide SlotsOk;
    assert ConsumerOk(s') && ProducerOk(s');
  }

  lemma ProducerStepInv(s: Ring, element: int, sizes: bool)
    requires Inv(s)
    ensures Inv(ProducerTurn(s, element, sizes))
  {
    hide Inv;
    if s.inProducer.WriteSlot? {
      ProducerWrites(s, element, sizes);
    } else if s.inProducer.StoreProducer? {
      ProducerStores(s, element, sizes);
    } else {
      ProducerLocal(s, element, sizes);
    }
  }

  lemma ConsumerStepInv(s: Ring, sizes: bool)
    requires Inv(s)
    ensures Inv(ConsumerTurn(s, sizes))
  {
    hide Inv;
    if s.inConsumer.StoreConsumer? {
      ConsumerStores(s, sizes);
    } else {
      ConsumerLocal(s, sizes);
    }
  }

  lemma StepInv(s: Ring, e: Event)
    requires Inv(s)
    ensures Inv(Step(s, e))
  {
    hide Inv, ProducerTurn, ConsumerTurn, ObserverTurn;
    match e
    case ProducerStep(element, sizes) => ProducerStepInv(s, element, sizes);
    case ConsumerStep(sizes) => ConsumerStepInv(s, sizes);
    case ObserverStep => ObserverStepInv(s);
  }

  lemma ObserverStepInv(s: Ring)
    requires Inv(s)
    ensures Inv(ObserverTurn(s))
  {
    hide Index;
    assert SlotsOk(s) ==> SlotsOk(ObserverTurn(s));
  }

  lemma {:induction false} ReachedInv(capacity: int, events: seq<Event>)
    requires capacity > 0
    ensures Inv(Reached(capacity, events))
    decreases |events|
  {
    hide Inv, Step;
    if events == [] {
      InitInv(capacity);
    } else {
      ReachedInv(capacity, events[..|events| - 1]);
      StepInv(Reached(capacity, events[..|events| - 1]), events[|events| - 1]);
    }
  }

  // -- What every run keeps -----------------------------------------------------------------------------------

  /** The ring refines a bounded first-in-first-out queue: what has been dequeued is the front of
      what has been enqueued, in order, and never more than `capacity` elements are between. */
  lemma DequeuesInOrder(capacity: int, events: seq<Event>)
    requires capacity > 0
    ensures var s := Reached(capacity, events);
            s.dequeued <= s.enqueued && |s.enqueued| - |s.dequeued| <= capacity
  {
    ReachedInv(capacity, events);
  }

  /** The spin loops exit only when the slot is free, or filled with the next element to leave,
      and the thread that writes a slot and the one that reads a slot are never at the same one. */
  lemma SpinLoopsExitSafely(capacity: int, events: seq<Event>)
    requires capacity > 0
    ensures var s := Reached(capacity, events);
            && (s.inProducer.WriteSlot? ==>
                  forall i :: |s.dequeued| <= i < |s.enqueued| ==>
                    Index(i, capacity) != Index(s.inProducer.producer, capacity))
            && (s.inConsumer.ReadSlot? ==>
                  && |s.dequeued| < |s.enqueued|
                  && s.slots[Index(s.inConsumer.consumer, capacity)] == s.enqueued[|s.dequeued|])
            && (s.inProducer.WriteSlot? && s.inConsumer.ReadSlot? ==>
                  Index(s.inProducer.producer, capacity) != Index(s.inConsumer.consumer, capacity))
  {
    ReachedInv(capacity, events);
    var s := Reached(capacity, events);
    if s.inProducer.WriteSlot? {
      forall i | |s.dequeued| <= i < |s.enqueued|
        ensures Index(i, capacity) != Index(s.inProducer.producer, capacity)
      {
        IndexDistinct(i, s.producer, capacity);
      }
    }
  }

  /** `size` from the producer's or the consumer's thread. */
  lemma SizeInRange(capacity: int, events: seq<Event>)
    requires capacity > 0
    ensures var s := Reached(capacity, events);
            && (s.inProducer.Sized? ==> 0 <= s.inProducer.size <= capacity)
            && (s.inConsumer.Counted? ==> 0 <= s.inConsumer.size <= capacity)
  {
    ReachedInv(capacity, events);
  }

  /** The cursors stay in the range of `int` until it has been used up. */
  lemma CursorsInRange(capacity: int, events: seq<Event>)
    requires capacity > 0
    ensures var s := Reached(capacity, events);
            && 0 <= s.consumer <= s.producer <= MAX_INT
            && (|s.enqueued| < MAX_INT ==> !s.overflow)
  {
    ReachedInv(capacity, events);
  }

  lemma {:induction false} RunConcat(s: Ring, before: seq<Event>, after: seq<Event>)
    requires WellSized(s)
    ensures Run(s, before + after) == Run(Run(s, before), after)
    decreases |after|
  {
    if after == [] {
      assert before + after == before;
    } else {
      assert (before + after)[..|before + after| - 1] == before + after[..|after| - 1];
      RunConcat(s, before, after[..|after| - 1]);
    }
  }

  lemma RunSteps2(s: Ring, a: Event, b: Event)
    requires WellSized(s)
    ensures Run(s, [a, b]) == Step(Step(s, a), b)
  {
    hide Step;
    assert [a][..0] == [] && Run(s, [a]) == Step(s, a);
    assert [a, b][..1] == [a];
  }

  // -- What a third thread sees ------------------------------------------------------------------------------

  /** Both threads are outside their calls, with the cursors where they say. */
  ghost predicate Resting(s: Ring, producer: int, consumer: int, observer: Observer) {
    && WellSized(s) && s.inProducer.Outside? && s.inConsumer.Away?
    && s.producer == producer && s.consumer == consumer && s.observer == observer
  }

  const ENQUEUE: seq<Event> := [ProducerStep(7, false), ProducerStep(7, false)]
  const DEQUEUE: seq<Event> := [ConsumerStep(false), ConsumerStep(false)]
  const ENTERS: seq<Event> := ENQUEUE + ENQUEUE + ENQUEUE
  const LEAVES: seq<Event> := DEQUEUE + DEQUEUE + DEQUEUE

  lemma EnqueueDecides(s: Ring)
    requires WellSized(s) && s.inProducer.Outside? && s.producer - s.consumer < s.capacity
    ensures Run(s, ENQUEUE + ENQUEUE) == s.(inProducer := WriteSlot(7, s.producer))
  {
    var p := ProducerStep(7, false);
    RunSteps2(s, p, p);
    var s1 := Run(s, ENQUEUE);
    assert s1 == s.(inProducer := LoadConsumer(7, s.producer));
    RunSteps2(s1, p, p);
    RunConcat(s, ENQUEUE, ENQUEUE);
  }

  lemma EnqueueStores(s: Ring, producer: int)
    requires WellSized(s) && s.inProducer == WriteSlot(7, producer) && producer < MAX_INT
    ensures Run(s, ENQUEUE) == s.(slots := s.slots[Index(producer, s.capacity) := 7], inProducer := Outside,
                                  producer := producer + 1, enqueued := s.enqueued + [7])
  {
    var p := ProducerStep(7, false);
    var s1 := s.(slots := s.slots[Index(producer, s.capacity) := 7], inProducer := StoreProducer(7, producer));
    assert Step(s, p) == s1;
    assert Step(s1, p) == s1.(inProducer := Outside, producer := producer + 1, enqueued := s.enqueued + [7]);
    hide Step, Run, Index;
    RunSteps2(s, p, p);
  }

  lemma ElementEnters(s: Ring, producer: int, consumer: int, observer: Observer)
    requires Resting(s, producer, consumer, observer) && producer - consumer < s.capacity && producer < MAX_INT
    ensures Resting(Run(s, ENTERS), producer + 1, consumer, observer)
  {
    EnqueueDecides(s);
    EnqueueStores(Run(s, ENQUEUE + ENQUEUE), producer);
    RunConcat(s, ENQUEUE + ENQUEUE, ENQUEUE);
  }

  lemma ElementLeaves(s: Ring, producer: int, consumer: int, observer: Observer)
    requires Resting(s, producer, consumer, observer) && producer != consumer < MAX_INT
    ensures Resting(Run(s, LEAVES), producer, consumer + 1, observer)
  {
    var c := ConsumerStep(false);
    var s1, s2 := Run(s, DEQUEUE), Run(Run(s, DEQUEUE), DEQUEUE);
    RunSteps2(s, c, c);
    assert s1 == s.(inConsumer := LoadOther(consumer));
    RunSteps2(s1, c, c);
    assert s2 == s.(inConsumer := ReadSlot(consumer));
    RunSteps2(s2, c, c);
    RunConcat(s, DEQUEUE, DEQUEUE);
    RunConcat(s, DEQUEUE + DEQUEUE, DEQUEUE);
  }

  /** n elements come and, if they are to pass, go. */
  function Elements(n: nat, pass: bool): seq<Event> {
    if n == 0 then [] else Elements(n - 1, pass) + ENTERS + if pass then LEAVES else []
  }

  lemma {:induction false} ElementsCome(s: Ring, n: nat, pass: bool, observer: Observer)
    requires Resting(s, 0, 0, observer) && n <= MAX_INT && (pass || n <= s.capacity)
    ensures Resting(Run(s, Elements(n, pass)), n, if pass then n else 0, observer)
    decreases n
  {
    if n > 0 {
      hide Resting, Run;
      var before := Elements(n - 1, pass);
      var gone := if pass then n - 1 else 0;
      ElementsCome(s, n - 1, pass, observer);
      ElementEnters(Run(s, before), n - 1, gone, observer);
      RunConcat(s, before, ENTERS);
      if pass {
        ElementLeaves(Run(s, before + ENTERS), n, gone, observer);
        RunConcat(s, before + ENTERS, LEAVES);
      } else {
        assert before + ENTERS + [] == before + ENTERS;
      }
    }
  }

  lemma Observes(s: Ring)
    requires WellSized(s)
    ensures Run(s, [ObserverStep]) == ObserverTurn(s)
  {
    assert [ObserverStep][..0] == [] && Run(s, []) == s;
  }

  ghost predicate CanSee(capacity: int, size: int)
    requires capacity > 0
  {
    exists events :: Reached(capacity, events).observer == Saw(size)
  }

  /** n elements that come and go between the two loads of `size` count as so many less than none. */
  lemma SeesPassing(capacity: int, n: nat)
    requires capacity > 0 && n <= MAX_INT
    ensures CanSee(capacity, 0 - n)
  {
    var s, o, passing := Init(capacity), [ObserverStep], Elements(n, true);
    Observes(s);
    ElementsCome(Run(s, o), n, true, Looking(0));
    RunConcat(s, o, passing);
    Observes(Run(s, o + passing));
    RunConcat(s, o + passing, o);
    assert Reached(capacity, o + passing + o).observer == Saw(0 - n);
  }

  lemma SeesQueued(capacity: int, n: nat)
    requires capacity > 0 && n <= capacity && n <= MAX_INT
    ensures CanSee(capacity, n)
  {
    var s, o, coming := Init(capacity), [ObserverStep], Elements(n, false);
    ElementsCome(s, n, false, NotLooking);
    Observes(Run(s, coming));
    RunConcat(s, coming, o);
    Observes(Run(s, coming + o));
    RunConcat(s, coming + o, o);
    assert Reached(capacity, coming + o + o).observer == Saw(n);
  }

  /** In a third thread `size` can return any number of the range of the cursors, or less than none
      by what came and went between its two loads, but never more than the capacity. */
  lemma ObserverSeesExactly(capacity: int, size: int)
    requires capacity > 0
    ensures CanSee(capacity, size) <==> -MAX_INT <= size <= capacity && size <= MAX_INT
  {
    if -MAX_INT <= size < 0 {
      SeesPassing(capacity, -size);
    } else if 0 <= size <= capacity && size <= MAX_INT {
      SeesQueued(capacity, size);
    } else {
      forall events
        ensures Reached(capacity, events).observer != Saw(size)
      {
        ReachedInv(capacity, events);
      }
    }
  }

  // -- Whole calls -----------------------------------------------------------------------------------------------

  /** The state before step i of a run from s. */
  function Before(s: Ring, events: seq<Event>, i: nat): (t: Ring)
    requires WellSized(s) && i <= |events|
    ensures WellSized(t)
  {
    Run(s, events[..i])
  }

  lemma RunNext(s: Ring, events: seq<Event>, i: nat)
    requires WellSized(s) && i < |events|
    ensures Before(s, events, i + 1) == Step(Before(s, events, i), events[i])
  {
    hide Step;
    assert events[..i + 1][..i] == events[..i];
  }

  lemma RunWhole(s: Ring, events: seq<Event>)
    requires WellSized(s)
    ensures Before(s, events, 0) == s && Before(s, events, |events|) == Run(s, events)
  {
    assert events[..0] == [] && events[..|events|] == events;
  }

  /** The argument of the call of `enqueue` that begins with this step, if one does. */
  function BeginsEnqueue(s: Ring, e: Event): seq<int> {
    if e.ProducerStep? && s.inProducer.Outside? && !e.sizes then [e.element] else []
  }

  /** A mark for the call of `dequeue` that begins with this step, if one does. */
  function BeginsDequeue(s: Ring, e: Event): seq<()> {
    if e.ConsumerStep? && s.inConsumer.Away? && !e.sizes then [()] else []
  }

  /** What has been enqueued, and the argument of a call of `enqueue` under way. */
  function Given(s: Ring): seq<int> {
    s.enqueued + match s.inProducer
                 case LoadProducer(e) => [e]
                 case LoadConsumer(e, _) => [e]
                 case TestFull(e, _, _) => [e]
                 case WriteSlot(e, _) => [e]
                 case StoreProducer(e, _) => [e]
                 case _ => []
  }

  /** A mark for each element dequeued, and for a call of `dequeue` under way. */
  function Asked(s: Ring): seq<()> {
    var underWay := !s.inConsumer.Away? && !s.inConsumer.Counting? && !s.inConsumer.Counted?;
    seq(|s.dequeued| + (if underWay then 1 else 0), _ => ())
  }

  function BegunEnqueues(s: Ring, events: seq<Event>): seq<seq<int>>
    requires WellSized(s)
  {
    seq(|events|, i requires 0 <= i < |events| => BeginsEnqueue(Before(s, events, i), events[i]))
  }

  function BegunDequeues(s: Ring, events: seq<Event>): seq<seq<()>>
    requires WellSized(s)
  {
    seq(|events|, i requires 0 <= i < |events| => BeginsDequeue(Before(s, events, i), events[i]))
  }

  lemma EnqueueAccount(s: Ring, e: Event)
    requires WellSized(s)
    ensures Given(Step(s, e)) == Given(s) + BeginsEnqueue(s, e)
  {
    hide Index, IsFull;
  }

  lemma DequeueAccount(s: Ring, e: Event)
    requires WellSized(s)
    ensures Asked(Step(s, e)) == Asked(s) + BeginsDequeue(s, e)
  {
    hide Index, IsFull;
  }

  /** In any run from any state what is enqueued are the arguments of the calls of `enqueue`, in
      order, all but the one under way. */
  lemma CallsEnqueue(s: Ring, events: seq<Event>)
    requires WellSized(s)
    ensures Given(Run(s, events)) == Given(s) + Joined(BegunEnqueues(s, events))
  {
    var n, begun := |events|, BegunEnqueues(s, events);
    var given := seq(n + 1, i requires 0 <= i <= n => Given(Before(s, events, i)));
    RunWhole(s, events);
    hide Run, Before, Given, BeginsEnqueue;
    forall i | 0 <= i < n
      ensures given[i + 1] == given[i] + begun[i]
    {
      RunNext(s, events, i);
      EnqueueAccount(Before(s, events, i), events[i]);
    }
    HistoryJoined(given, begun, n);
    assert begun[..n] == begun;
  }

  /** And each call of `dequeue` takes one. */
  lemma CallsDequeue(s: Ring, events: seq<Event>)
    requires WellSized(s)
    ensures Asked(Run(s, events)) == Asked(s) + Joined(BegunDequeues(s, events))
  {
    var n, begun := |events|, BegunDequeues(s, events);
    var asked := seq(n + 1, i requires 0 <= i <= n => Asked(Before(s, events, i)));
    RunWhole(s, events);
    hide Run, Before, Asked, BeginsDequeue;
    forall i | 0 <= i < n
      ensures asked[i + 1] == asked[i] + begun[i]
    {
      RunNext(s, events, i);
      DequeueAccount(Before(s, events, i), events[i]);
    }
    HistoryJoined(asked, begun, n);
    assert begun[..n] == begun;
  }

  /** A whole call of `enqueue`, amid any steps of the other threads, enqueues its argument. */
  lemma EnqueueCall(s: Ring, events: seq<Event>, element: int)
    requires WellSized(s) && s.inProducer.Outside? && Run(s, events).inProducer.Outside?
    requires Joined(BegunEnqueues(s, events)) == [element]
    ensures Run(s, events).enqueued == s.enqueued + [element]
  {
    CallsEnqueue(s, events);
    assert s.enqueued + [] == s.enqueued && Run(s, events).enqueued + [] == Run(s, events).enqueued;
  }

  /** A whole call of `dequeue` takes the oldest element that had not been dequeued. */
  lemma DequeueCall(s: Ring, events: seq<Event>)
    requires Inv(s) && s.inConsumer.Away? && Run(s, events).inConsumer.Away?
    requires Joined(BegunDequeues(s, events)) == [()]
    ensures var t := Run(s, events);
            |s.dequeued| < |t.enqueued| && t.dequeued == s.dequeued + [t.enqueued[|s.dequeued|]]
  {
    OneDequeued(s, events);
    RunInv(s, events);
    DequeuedGrows(s, events);
    LeavesPrefix(Run(s, events));
    hide *;
    NextOf(s.dequeued, Run(s, events).dequeued, Run(s, events).enqueued);
  }

  lemma LeavesPrefix(s: Ring)
    requires CursorsOk(s)
    ensures |s.dequeued| <= |s.enqueued| && s.dequeued == s.enqueued[..|s.dequeued|]
  {
  }

  lemma OneDequeued(s: Ring, events: seq<Event>)
    requires WellSized(s) && s.inConsumer.Away? && Run(s, events).inConsumer.Away?
    requires Joined(BegunDequeues(s, events)) == [()]
    ensures |Run(s, events).dequeued| == |s.dequeued| + 1
  {
    CallsDequeue(s, events);
    assert |Asked(Run(s, events))| == |Asked(s)| + 1;
  }

  lemma NextOf(a: seq<int>, b: seq<int>, all: seq<int>)
    requires a <= b && |b| == |a| + 1 && |b| <= |all| && b == all[..|b|]
    ensures b == a + [all[|a|]]
  {
  }

  lemma {:induction false} RunInv(s: Ring, events: seq<Event>)
    requires Inv(s)
    ensures Inv(Run(s, events))
    decreases |events|
  {
    if events != [] {
      hide Inv, Step;
      RunInv(s, events[..|events| - 1]);
      StepInv(Run(s, events[..|events| - 1]), events[|events| - 1]);
    }
  }

  lemma {:induction false} DequeuedGrows(s: Ring, events: seq<Event>)
    requires WellSized(s)
    ensures s.dequeued <= Run(s, events).dequeued
    decreases |events|
  {
    if events != [] {
      DequeuedGrows(s, events[..|events| - 1]);
      DequeuedGrowsStep(Run(s, events[..|events| - 1]), events[|events| - 1]);
      hide Step;
    }
  }

  lemma DequeuedGrowsStep(s: Ring, e: Event)
    requires WellSized(s)
    ensures s.dequeued <= Step(s, e).dequeued
  {
    hide Index, IsFull;
  }

  /** No step of this thread is among them. */
  ghost predicate Without(events: seq<Event>, thread: Event) {
    forall e :: e in events ==>
      match thread
      case ProducerStep(_, _) => !e.ProducerStep?
      case ConsumerStep(_) => !e.ConsumerStep?
      case ObserverStep => !e.ObserverStep?
  }

  lemma {:induction false} OthersLeave(s: Ring, events: seq<Event>, thread: Event)
    requires WellSized(s) && Without(events, thread)
    ensures var t := Run(s, events);
            match thread
            case ProducerStep(_, _) => t.inProducer == s.inProducer && t.producer == s.producer
            case ConsumerStep(_) => t.inConsumer == s.inConsumer && t.consumer == s.consumer
            case ObserverStep => t.observer == s.observer
    decreases |events|
  {
    if events != [] {
      assert forall e :: e in events[..|events| - 1] ==> e in events;
      assert events[|events| - 1] in events;
      OthersLeave(s, events[..|events| - 1], thread);
      hide Index, IsFull, IsEmpty;
    }
  }

  /** A whole call of `size` in any of the three threads, amid any steps of the others: the elements
      enqueued when it begins, at its first load, less those dequeued by its second. */
  lemma SizeCall(s: Ring, events: seq<Event>, element: int)
    requires Inv(s)
    ensures var e := ProducerStep(element, true);
            s.inProducer.Outside? && Without(events, e) ==>
              var t := Run(Step(s, e), events);
              Step(t, e).inProducer == Sized(|s.enqueued| - |t.dequeued|)
    ensures var e := ConsumerStep(true);
            s.inConsumer.Away? && Without(events, e) ==>
              var t := Run(Step(s, e), events);
              Step(t, e).inConsumer == Counted(|s.enqueued| - |t.dequeued|)
    ensures s.observer.NotLooking? && Without(events, ObserverStep) ==>
              var t := Run(Step(s, ObserverStep), events);
              Step(t, ObserverStep).observer == Saw(|s.enqueued| - |t.dequeued|)
  {
    SizeLoads(s, events, ProducerStep(element, true));
    SizeLoads(s, events, ConsumerStep(true));
    SizeLoads(s, events, ObserverStep);
  }

  lemma SizeLoads(s: Ring, events: seq<Event>, e: Event)
    requires Inv(s)
    ensures Inv(Run(Step(s, e), events))
    ensures Without(events, e) ==>
              var s1, t := Step(s, e), Run(Step(s, e), events);
              match e
              case ProducerStep(_, _) => t.inProducer == s1.inProducer
              case ConsumerStep(_) => t.inConsumer == s1.inConsumer
              case ObserverStep => t.observer == s1.observer
  {
    StepInv(s, e);
    RunInv(Step(s, e), events);
    if Without(events, e) {
      OthersLeave(Step(s, e), events, e);
    }
  }

  // -- The object -----------------------------------------------------------------------------------------------

  /** The ring as an object: each method is one step of a thread, on the fields they share. */
  class BoundedBlockingQueue {
    var ring: array<int>
    var capacity: int
    var consumerCursor: int
    var producerCursor: int
    var inProducer: Producer
    var inConsumer: Consumer
    var observer: Observer
    ghost var enqueued: seq<int>
    ghost var dequeued: seq<int>
    ghost var overflow: bool

    ghost function Snapshot(): Ring
      reads this, ring
    {
      Ring(capacity, ring[..], producerCursor, consumerCursor, inProducer, inConsumer, observer,
           enqueued, dequeued, overflow)
    }

    constructor (size: int)
      requires size > 0
      ensures Inv(Snapshot()) && Snapshot() == Init(size) && fresh(ring)
    {
      ring := new int[size](_ => 0);
      capacity, consumerCursor, producerCursor := size, 0, 0;
      inProducer, inConsumer, observer := Outside, Away, NotLooking;
      enqueued, dequeued, overflow := [], [], false;
      new;
      InitInv(size);
      assert ring[..] == Init(size).slots;
    }

    /** One step of `enqueue`, or of `size`, in the producer's thread. */
    method EnqueueStep(element: int, sizes: bool)
      requires Inv(Snapshot())
      modifies this, ring
      ensures Inv(Snapshot()) && ring == old(ring)
      ensures Snapshot() == ProducerTurn(old(Snapshot()), element, sizes)
    {
      ProducerStepInv(Snapshot(), element, sizes);
      assert ring.Length == capacity && capacity > 0;
      ghost var next := ProducerTurn(Snapshot(), element, sizes);
      hide Inv, Index, IsFull;
      match inProducer {
        case Outside =>
          inProducer := if sizes then Sizing(producerCursor) else LoadProducer(element);
        case LoadProducer(e) =>
          inProducer := LoadConsumer(e, producerCursor);
        case LoadConsumer(e, p) =>
          inProducer := TestFull(e, p, consumerCursor);
        case TestFull(e, p, c) =>
          inProducer := if IsFull(p, c, capacity) then LoadProducer(e) else WriteSlot(e, p);
        case WriteSlot(e, p) =>
          ring[Index(p, capacity)] := e;
          inProducer := StoreProducer(e, p);
        case StoreProducer(e, p) =>
          if p == MAX_INT {
            overflow := true;
          } else {
            producerCursor := p + 1;
            enqueued := enqueued + [e];
            inProducer := Outside;
          }
        case Sizing(p) =>
          inProducer := Sized(p - consumerCursor);
        case Sized(_) =>
          inProducer := Outside;
      }
      assert Snapshot() == next;
    }

    /** One step of `dequeue`, or of `size`, in the consumer's thread. */
    method DequeueStep(sizes: bool)
      requires Inv(Snapshot())
      modifies this
      ensures Inv(Snapshot()) && ring == old(ring)
      ensures Snapshot() == ConsumerTurn(old(Snapshot()), sizes)
    {
      ConsumerStepInv(Snapshot(), sizes);
      assert ring.Length == capacity && capacity > 0;
      hide Inv, Index;
      match inConsumer {
        case Away =>
          inConsumer := if sizes then Counting(producerCursor) else LoadOwn;
        case LoadOwn =>
          inConsumer := LoadOther(consumerCursor);
        case LoadOther(c) =>
          inConsumer := TestEmpty(c, producerCursor);
        case TestEmpty(c, p) =>
          inConsumer := if IsEmpty(p, c) then LoadOwn else ReadSlot(c);
        case ReadSlot(c) =>
          var ret := ring[Index(c, capacity)];
          inConsumer := StoreConsumer(c, ret);
        case StoreConsumer(c, v) =>
          assert c < MAX_INT;
          consumerCursor := c + 1;
          dequeued := dequeued + [v];
          inConsumer := Away;
        case Counting(p) =>
          inConsumer := Counted(p - consumerCursor);
        case Counted(_) =>
          inConsumer := Away;
      }
    }

    /** Any interleaving. */
    method Play(events: seq<Event>)
      requires Inv(Snapshot())
      modifies this, ring
      ensures Inv(Snapshot()) && ring == old(ring) && Snapshot() == Run(old(Snapshot()), events)
    {
      assert WellSized(Snapshot());
      hide Inv, ProducerTurn, ConsumerTurn;
      for i := 0 to |events|
        invariant Inv(Snapshot()) && ring == old(ring)
        invariant Snapshot() == Run(old(Snapshot()), events[..i])
      {
        assert events[..i + 1][..i] == events[..i];
        match events[i] {
          case ProducerStep(element, sizes) => EnqueueStep(element, sizes);
          case ConsumerStep(sizes) => DequeueStep(sizes);
          case ObserverStep =>
            StepInv(Snapshot(), ObserverStep);
            match observer {
              case NotLooking => observer := Looking(producerCursor);
              case Looking(p) => observer := Saw(p - consumerCursor);
              case Saw(_) => observer := NotLooking;
            }
        }
      }
      assert events[..|events|] == events;
    }
  }
}
