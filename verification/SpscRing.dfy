/** The lock-free single-producer single-consumer ring of `ringbuffer.h`.

    `Ring` is the shared memory together with the program counter and registers of the
    two threads. Every load, slot access and store is one step, taken by either thread
    in any order; each atomic access is sequentially consistent. */
module SpscRing {
  import opened Bits

  /** Cursors are `size_t`: they wrap modulo 2^64. */
  const WRAP: nat := 0x1_0000_0000_0000_0000

  /** The cursor of a position. */
  function Wrap(pos: int): nat {
    pos % WRAP
  }

  /** A slot is raw memory, a live object, or an object whose value was moved out.
      `id` numbers the objects in the order in which they were constructed. */
  datatype Slot<T> = Raw | Live(id: nat, value: T) | MovedFrom(id: nat)

  datatype Producer<T> =
    | NotPushing
    | PushLoadedOwn(arg: T, ownPos: nat)
    | PushReady(arg: T, ownPos: nat)
    | PushConstructed(arg: T, ownPos: nat)

  datatype Consumer<T> =
    | NotPopping
    | PopLoadedOwn(ownPos: nat)
    | PopReady(ownPos: nat)
    | PopMoved(ownPos: nat, out: T)
    | PopDestroyed(ownPos: nat, out: T)

  /** What a call did, recorded at the instant it takes effect. */
  datatype Event<T> = Pushed(value: T) | PushFull | Popped(value: T) | PopEmpty

  datatype Ring<T> = Ring(
    slots: seq<Slot<T>>,
    producerPos: nat,
    consumerPos: nat,
    producer: Producer<T>,
    consumer: Consumer<T>,
    events: seq<Event<T>>,
    built: seq<T>,          // every object constructed in a slot, in order
    destroyed: seq<nat>     // ids of the objects destroyed, in order
  )

  // -- Pure helpers of the source ----------------------------------------------

  /** Slot number of a cursor; the source scales it by `sizeof(T)` to a byte offset. */
  function Index(pos: nat, capacity: nat): nat
    requires capacity > 0
  {
    And(pos, capacity - 1)
  }

  predicate IsFull(producerPos: nat, consumerPos: nat, capacity: nat) {
    Wrap(producerPos - consumerPos) >= capacity
  }

  predicate IsEmpty(producerPos: nat, consumerPos: nat) {
    producerPos == consumerPos
  }

  function Advance(pos: nat): nat {
    Wrap(pos + 1)
  }

  // -- Steps -------------------------------------------------------------------

  /** The next access of the producer; an idle producer starts `Push(arg)`. Constructing an object
      where there is one already would lose it; here the thread gets stuck. */
  function ProducerStep<T>(s: Ring<T>, arg: T): (s': Ring<T>)
    requires |s.slots| > 0
    ensures |s'.slots| == |s.slots|
  {
    match s.producer
    case NotPushing =>
      s.(producer := PushLoadedOwn(arg, s.producerPos))
    case PushLoadedOwn(v, pos) =>
      if IsFull(pos, s.consumerPos, |s.slots|) then s.(producer := NotPushing, events := s.events + [PushFull])
      else s.(producer := PushReady(v, pos))
    case PushReady(v, pos) =>
      var i := Index(pos, |s.slots|);
      if i >= |s.slots| || !s.slots[i].Raw? then s
      else s.(producer := PushConstructed(v, pos), slots := s.slots[i := Live(|s.built|, v)], built := s.built + [v])
    case PushConstructed(v, pos) =>
      s.(producer := NotPushing, producerPos := Advance(pos), events := s.events + [Pushed(v)])
  }

  /** The next access of the consumer; an idle consumer starts `Pop`. Moving from a slot that holds
      no live object is undefined in the source, and destroying one that was not moved from would
      lose it; here the thread gets stuck. */
  function ConsumerStep<T>(s: Ring<T>): (s': Ring<T>)
    requires |s.slots| > 0
    ensures |s'.slots| == |s.slots|
  {
    match s.consumer
    case NotPopping =>
      s.(consumer := PopLoadedOwn(s.consumerPos))
    case PopLoadedOwn(pos) =>
      if IsEmpty(s.producerPos, pos) then s.(consumer := NotPopping, events := s.events + [PopEmpty])
      else s.(consumer := PopReady(pos))
    case PopReady(pos) =>
      var i := Index(pos, |s.slots|);
      if i >= |s.slots| || !s.slots[i].Live? then s
      else s.(consumer := PopMoved(pos, s.slots[i].value), slots := s.slots[i := MovedFrom(s.slots[i].id)])
    case PopMoved(pos, out) =>
      var i := Index(pos, |s.slots|);
      if i >= |s.slots| || !s.slots[i].MovedFrom? then s
      else
        s.(consumer := PopDestroyed(pos, out), slots := s.slots[i := Raw],
           destroyed := s.destroyed + [s.slots[i].id])
    case PopDestroyed(pos, out) =>
      s.(consumer := NotPopping, consumerPos := Advance(pos), events := s.events + [Popped(out)])
  }

  datatype Turn<T> = ProducerTurn(arg: T) | ConsumerTurn

  function Step<T>(s: Ring<T>, turn: Turn<T>): (s': Ring<T>)
    requires |s.slots| > 0
    ensures |s'.slots| == |s.slots|
  {
    match turn
    case ProducerTurn(arg) => ProducerStep(s, arg)
    case ConsumerTurn => ConsumerStep(s)
  }

  /** Any interleaving of the two threads. */
  function Run<T>(s: Ring<T>, turns: seq<Turn<T>>): (s': Ring<T>)
    requires |s.slots| > 0
    ensures |s'.slots| == |s.slots|
    decreases |turns|
  {
    if turns == [] then s else Step(Run(s, turns[..|turns| - 1]), turns[|turns| - 1])
  }

  function Fresh<T>(capacity: nat): Ring<T> {
    Ring(seq(capacity, _ => Raw), 0, 0, NotPushing, NotPopping, [], [], [])
  }

  // -- The abstract queue --------------------------------------------------------

  datatype Fifo<T> = Legal(contents: seq<T>) | Illegal

  /** Replays a history on a bounded FIFO queue; a history is illegal as soon as one of
      its results is not what the queue would have answered. */
  ghost function Replay<T>(capacity: nat, events: seq<Event<T>>): Fifo<T> {
    if events == [] then Legal([])
    else
      var before := Replay(capacity, events[..|events| - 1]);
      if before.Illegal? then Illegal else Answer(capacity, before.contents, events[|events| - 1])
  }

  /** The queue after it has given that answer, if that is the answer it gives. */
  ghost function Answer<T>(capacity: nat, q: seq<T>, e: Event<T>): Fifo<T> {
    match e
    case Pushed(v) => if |q| < capacity then Legal(q + [v]) else Illegal
    case PushFull => if |q| == capacity then Legal(q) else Illegal
    case Popped(v) => if |q| > 0 && q[0] == v then Legal(q[1..]) else Illegal
    case PopEmpty => if q == [] then Legal(q) else Illegal
  }

  /** The values of the successful pushes of a history, in order. */
  function PushedValues<T>(events: seq<Event<T>>): seq<T> {
    if events == [] then []
    else
      var e := events[|events| - 1];
      PushedValues(events[..|events| - 1]) + if e.Pushed? then [e.value] else []
  }

  /** The values of the successful pops of a history, in order. */
  function PoppedValues<T>(events: seq<Event<T>>): seq<T> {
    if events == [] then []
    else
      var e := events[|events| - 1];
      PoppedValues(events[..|events| - 1]) + if e.Popped? then [e.value] else []
  }

  // -- Cursor arithmetic ---------------------------------------------------------

  /** The compile-time conditions on the capacity, which is itself a `size_t`. */
  ghost predicate GoodCapacity(capacity: nat) {
    0 < capacity < WRAP && And(capacity, capacity - 1) == 0
  }

  lemma CapacityDividesWrap(capacity: nat) returns (blocks: nat)
    requires GoodCapacity(capacity)
    ensures blocks > 0 && capacity * blocks == WRAP
    ensures exists k: nat :: k < 64 && capacity == Pow2(k)
  {
    PowerOfTwoTest(capacity);
    var k: nat :| capacity == Pow2(k);
    assert Pow2(64) == WRAP by { Pow64(); }
    if k >= 64 {
      Pow2Monotone(64, k);
    }
    Pow2Add(k, 64 - k);
    blocks := Pow2(64 - k);
  }

  lemma Pow64()
    ensures Pow2(64) == WRAP
  {
    assert Pow2(4) == 16;
    Pow2Add(4, 4);
    Pow2Add(8, 8);
    Pow2Add(16, 16);
    Pow2Add(32, 32);
  }

  /** Masking a wrapped cursor finds the slot of the unwrapped position. */
  lemma IndexIsPositionModCapacity(n: nat, capacity: nat)
    requires GoodCapacity(capacity)
    ensures Index(Wrap(n), capacity) == n % capacity
  {
    var blocks := CapacityDividesWrap(capacity);
    var k: nat :| k < 64 && capacity == Pow2(k);
    AndMask(Wrap(n), k);
    ModOfMod(n, capacity, blocks);
  }

  lemma ModOfMod(n: nat, m: nat, k: nat)
    requires m > 0 && k > 0 && m * k > 0
    ensures (n % (m * k)) % m == n % m
  {
    var b := m * k;
    DivMod(n, b);
    MulAssociates(m, k, n / b);
    ModOfSum(n, m, k * (n / b), n % b);
  }

  lemma DivMod(n: nat, b: nat)
    requires b > 0
    ensures n == b * (n / b) + n % b
  {
  }

  lemma ModOfSum(n: nat, m: nat, x: nat, r: nat)
    requires m > 0 && n == m * x + r
    ensures n % m == r % m
  {
    DivMod(r, m);
    MulDistributes(m, x, r / m);
    ModUnique(n, m, x + r / m, r % m);
  }

  lemma MulAssociates(a: int, b: int, c: int)
    ensures a * b * c == a * (b * c)
  {
  }

  lemma MulDistributes(a: int, b: int, c: int)
    ensures a * (b + c) == a * b + a * c
  {
  }

  /** On wrapped cursors at most a capacity apart, the difference is the true distance. */
  lemma WrappedDistance(n: nat, m: nat)
    requires m <= n < m + WRAP
    ensures Wrap(Wrap(n) - Wrap(m)) == n - m
    ensures Wrap(n) == Wrap(m) <==> n == m
  {
  }

  /** So full and empty are told from the cursors as from the positions. */
  lemma CursorsTell(n: nat, m: nat, capacity: nat)
    requires m <= n < m + WRAP
    ensures IsFull(Wrap(n), Wrap(m), capacity) <==> n - m >= capacity
    ensures IsEmpty(Wrap(n), Wrap(m)) <==> n == m
  {
    WrappedDistance(n, m);
  }

  lemma AdvanceIsSuccessor(n: nat)
    ensures Advance(Wrap(n)) == Wrap(n + 1)
  {
  }

  lemma DistinctSlots(j: nat, k: nat, capacity: nat)
    requires j < k < j + capacity
    ensures j % capacity != k % capacity
  {
    if j % capacity == k % capacity {
      var a, b := j / capacity, k / capacity;
      assert capacity * (b - a) == k - j;
      assert capacity * (1 + a - b) == capacity - (k - j);
      if b - a >= 1 {
        MulAtLeast(capacity, b - a);
      } else {
        MulAtLeast(capacity, 1 + a - b);
      }
    }
  }

  // -- The invariant ---------------------------------------------------------------

  /** Number of objects the producer has published. */
  function Published<T>(s: Ring<T>): int {
    if s.producer.PushConstructed? then |s.built| - 1 else |s.built|
  }

  /** Number of objects the consumer has given back. */
  function Retired<T>(s: Ring<T>): int {
    if s.consumer.PopDestroyed? then |s.destroyed| - 1 else |s.destroyed|
  }

  function SlotAt<T>(s: Ring<T>, k: nat): Slot<T>
    requires |s.slots| > 0
  {
    s.slots[k % |s.slots|]
  }

  /** The state of the slot that position k occupies, for the one capacity's worth of
      positions starting at the oldest object not yet destroyed. */
  ghost predicate SlotInvariant<T>(s: Ring<T>, k: nat)
    requires |s.slots| > 0
  {
    SlotAt(s, k) ==
    if k >= |s.built| then Raw
    else if k == |s.destroyed| && s.consumer.PopMoved? then MovedFrom(k)
    else Live(k, s.built[k])
  }

  ghost predicate Memory<T>(s: Ring<T>)
    requires |s.slots| > 0
  {
    && |s.destroyed| <= |s.built| <= |s.destroyed| + |s.slots|
    && (forall i :: 0 <= i < |s.destroyed| ==> s.destroyed[i] == i)
    && (forall k: nat :: |s.destroyed| <= k < |s.destroyed| + |s.slots| ==> SlotInvariant(s, k))
  }

  ghost predicate ProducerOk<T>(s: Ring<T>) {
    var n, m := Published(s), Retired(s);
    match s.producer
    case NotPushing => true
    case PushLoadedOwn(v, pos) => pos == s.producerPos
    case PushReady(v, pos) => pos == s.producerPos && n - m < |s.slots|
    case PushConstructed(v, pos) => pos == s.producerPos && n >= 0 && n - m < |s.slots| && s.built[n] == v
  }

  ghost predicate ConsumerOk<T>(s: Ring<T>) {
    var n, m := Published(s), Retired(s);
    match s.consumer
    case NotPopping => true
    case PopLoadedOwn(pos) => pos == s.consumerPos
    case PopReady(pos) => pos == s.consumerPos && m < n
    case PopMoved(pos, out) => pos == s.consumerPos && 0 <= m < n && out == s.built[m]
    case PopDestroyed(pos, out) => pos == s.consumerPos && 0 <= m < n && out == s.built[m]
  }

  ghost predicate Cursors<T>(s: Ring<T>) {
    var n, m := Published(s), Retired(s);
    && 0 <= m <= n <= m + |s.slots|
    && s.producerPos == Wrap(n)
    && s.consumerPos == Wrap(m)
  }

  ghost predicate History<T>(s: Ring<T>)
    requires Cursors(s)
  {
    var n, m := Published(s), Retired(s);
    && n <= |s.built|
    && Replay(|s.slots|, s.events) == Legal(s.built[m..n])
    && PushedValues(s.events) == s.built[..n]
    && PoppedValues(s.events) == s.built[..m]
  }

  ghost predicate Inv<T>(s: Ring<T>) {
    && GoodCapacity(|s.slots|)
    && Cursors(s)
    && Memory(s)
    && ProducerOk(s)
    && ConsumerOk(s)
    && History(s)
  }

  lemma FreshInv<T>(capacity: nat)
    requires GoodCapacity(capacity)
    ensures Inv(Fresh<T>(capacity))
  {
    var s := Fresh<T>(capacity);
    forall k: nat | k < capacity
      ensures SlotInvariant(s, k)
    {
    }
  }

  lemma LogEvent<T>(capacity: nat, events: seq<Event<T>>, e: Event<T>)
    ensures Replay(capacity, events).Legal? ==>
              Replay(capacity, events + [e]) == Answer(capacity, Replay(capacity, events).contents, e)
    ensures PushedValues(events + [e]) == PushedValues(events) + if e.Pushed? then [e.value] else []
    ensures PoppedValues(events + [e]) == PoppedValues(events) + if e.Popped? then [e.value] else []
  {
    assert (events + [e])[..|events|] == events;
  }

  lemma PushStartKeepsInv<T>(s: Ring<T>, arg: T)
    requires Inv(s) && s.producer.NotPushing?
    ensures Inv(ProducerStep(s, arg))
  {
    SmallCapacity(|s.slots|);
    hide Wrap, Replay, PushedValues, PoppedValues, GoodCapacity;
    KeepsMemory(s, ProducerStep(s, arg));
    hide Memory;
    HistorySame(s, ProducerStep(s, arg));
    hide History;
  }

  /** `Push` gives up exactly when the queue is full at the load of the consumer's cursor. */
  lemma PushDecides<T>(s: Ring<T>)
    requires Inv(s) && s.producer.PushLoadedOwn?
    ensures IsFull(s.producer.ownPos, s.consumerPos, |s.slots|) <==>
            |Replay(|s.slots|, s.events).contents| == |s.slots|
  {
    SmallCapacity(|s.slots|);
    hide Wrap, IsFull, IsEmpty, GoodCapacity, Memory, Replay;
    CursorsTell(Published(s), Retired(s), |s.slots|);
  }

  lemma SmallCapacity(capacity: nat)
    requires GoodCapacity(capacity)
    ensures 0 < capacity < WRAP
  {
  }

  lemma SliceSnoc<T>(s: seq<T>, m: nat, n: nat)
    requires m <= n < |s|
    ensures s[..n + 1] == s[..n] + [s[n]] && s[m..n + 1] == s[m..n] + [s[n]]
  {
  }

  lemma SliceTail<T>(s: seq<T>, m: nat, n: nat)
    requires m < n <= |s|
    ensures s[m..n][1..] == s[m + 1..n] && s[m..n][0] == s[m] && s[..m + 1] == s[..m] + [s[m]]
  {
  }

  /** An event that the queue answers so keeps the history. */
  lemma HistoryLogs<T>(s: Ring<T>, s': Ring<T>, e: Event<T>)
    requires Cursors(s) && History(s) && Cursors(s') && |s'.slots| == |s.slots| && s'.built == s.built
    requires s'.events == s.events + [e] && Published(s') <= |s.built|
    requires Answer(|s.slots|, s.built[Retired(s)..Published(s)], e) == Legal(s.built[Retired(s')..Published(s')])
    requires s.built[..Published(s')] == s.built[..Published(s)] + if e.Pushed? then [e.value] else []
    requires s.built[..Retired(s')] == s.built[..Retired(s)] + if e.Popped? then [e.value] else []
    ensures History(s')
  {
    LogEvent(|s.slots|, s.events, e);
    hide Replay, PushedValues, PoppedValues, Answer, Wrap;
  }

  lemma PushLoadKeepsInv<T>(s: Ring<T>, arg: T)
    requires Inv(s) && s.producer.PushLoadedOwn?
    ensures Inv(ProducerStep(s, arg))
  {
    SmallCapacity(|s.slots|);
    PushDecides(s);
    hide Wrap, IsFull, Replay, PushedValues, PoppedValues, GoodCapacity;
    var s' := ProducerStep(s, arg);
    KeepsMemory(s, s');
    hide Memory;
    if s'.producer.NotPushing? {
      HistoryLogs(s, s', PushFull);
    }
    hide History;
  }

  lemma PublishCursors<T>(s: Ring<T>, arg: T)
    requires |s.slots| > 0 && Cursors(s) && ProducerOk(s) && s.producer.PushConstructed?
    ensures var s' := ProducerStep(s, arg);
            Cursors(s') && Published(s') == Published(s) + 1 && Retired(s') == Retired(s)
  {
    hide Wrap, Advance;
    AdvanceIsSuccessor(Published(s));
  }

  /** Nothing that the history speaks of has changed. */
  lemma HistorySame<T>(s: Ring<T>, s': Ring<T>)
    requires Cursors(s) && History(s) && Cursors(s') && |s'.slots| == |s.slots| && s'.events == s.events
    requires s.built <= s'.built && Published(s') == Published(s) && Retired(s') == Retired(s)
    ensures History(s')
  {
    hide Replay, PushedValues, PoppedValues, Wrap;
    var n, m := Published(s), Retired(s);
    assert s'.built[m..n] == s.built[m..n] && s'.built[..n] == s.built[..n] && s'.built[..m] == s.built[..m];
  }

  lemma PushConstructKeepsInv<T>(s: Ring<T>, arg: T)
    requires Inv(s) && s.producer.PushReady?
    ensures Inv(ProducerStep(s, arg))
  {
    SmallCapacity(|s.slots|);
    hide Wrap, Replay, PushedValues, PoppedValues, GoodCapacity;
    ConstructTarget(s);
    ConstructKeepsMemory(s, arg);
    hide Memory, Index;
    HistorySame(s, ProducerStep(s, arg));
    hide History;
  }

  lemma PushPublishKeepsInv<T>(s: Ring<T>, arg: T)
    requires Inv(s) && s.producer.PushConstructed?
    ensures Inv(ProducerStep(s, arg))
  {
    SmallCapacity(|s.slots|);
    hide Wrap, Replay, PushedValues, PoppedValues, GoodCapacity, Advance;
    var s' := ProducerStep(s, arg);
    PublishCursors(s, arg);
    KeepsMemory(s, s');
    hide Memory;
    var n, m, v := Published(s), Retired(s), s.producer.arg;
    SliceSnoc(s.built, m, n);
    HistoryLogs(s, s', Pushed(v));
    hide History, Cursors;
  }

  lemma ProducerStepKeepsInv<T>(s: Ring<T>, arg: T)
    requires Inv(s)
    ensures Inv(ProducerStep(s, arg))
  {
    match s.producer
    case PushReady(_, _) => PushConstructKeepsInv(s, arg);
    case PushConstructed(_, _) => PushPublishKeepsInv(s, arg);
    case NotPushing => PushStartKeepsInv(s, arg);
    case PushLoadedOwn(_, _) => PushLoadKeepsInv(s, arg);
  }

  lemma KeepsMemory<T>(s: Ring<T>, s': Ring<T>)
    requires |s.slots| > 0 && Memory(s)
    requires s'.slots == s.slots && s'.built == s.built && s'.destroyed == s.destroyed
    requires s'.consumer.PopMoved? == s.consumer.PopMoved?
    ensures Memory(s')
  {
    forall k: nat | |s.destroyed| <= k < |s.destroyed| + |s.slots|
      ensures SlotInvariant(s', k)
    {
      assert SlotInvariant(s, k);
    }
  }

  /** The slot about to be constructed in is raw, and is the slot of the next position. */
  lemma ConstructTarget<T>(s: Ring<T>)
    requires Inv(s) && s.producer.PushReady?
    ensures Index(s.producer.ownPos, |s.slots|) == |s.built| % |s.slots|
    ensures |s.built| < |s.destroyed| + |s.slots|
    ensures SlotAt(s, |s.built|) == Raw
  {
    IndexIsPositionModCapacity(|s.built|, |s.slots|);
    assert SlotInvariant(s, |s.built|);
  }

  lemma ConstructKeepsMemory<T>(s: Ring<T>, arg: T)
    requires Inv(s) && s.producer.PushReady?
    ensures Memory(ProducerStep(s, arg))
  {
    SmallCapacity(|s.slots|);
    hide Wrap, Replay, PushedValues, PoppedValues, GoodCapacity, Index;
    ConstructTarget(s);
    var s' := ProducerStep(s, arg);
    var n, cap := |s.built|, |s.slots|;
    forall k: nat | |s.destroyed| <= k < |s.destroyed| + cap
      ensures SlotInvariant(s', k)
    {
      assert SlotInvariant(s, k);
      if k < n {
        DistinctSlots(k, n, cap);
      } else if k > n {
        DistinctSlots(n, k, cap);
      }
    }
  }

  lemma PopStartKeepsInv<T>(s: Ring<T>)
    requires Inv(s) && s.consumer.NotPopping?
    ensures Inv(ConsumerStep(s))
  {
    SmallCapacity(|s.slots|);
    hide Wrap, Replay, PushedValues, PoppedValues, GoodCapacity;
    KeepsMemory(s, ConsumerStep(s));
    hide Memory;
    HistorySame(s, ConsumerStep(s));
    hide History;
  }

  /** `Pop` gives up exactly when the queue is empty at the load of the producer's cursor. */
  lemma PopDecides<T>(s: Ring<T>)
    requires Inv(s) && s.consumer.PopLoadedOwn?
    ensures IsEmpty(s.producerPos, s.consumer.ownPos) <==> Replay(|s.slots|, s.events).contents == []
  {
    SmallCapacity(|s.slots|);
    hide Wrap, IsFull, IsEmpty, GoodCapacity, Memory, Replay;
    CursorsTell(Published(s), Retired(s), |s.slots|);
  }

  lemma PopLoadKeepsInv<T>(s: Ring<T>)
    requires Inv(s) && s.consumer.PopLoadedOwn?
    ensures Inv(ConsumerStep(s))
  {
    SmallCapacity(|s.slots|);
    hide Wrap, IsEmpty, Replay, PushedValues, PoppedValues, GoodCapacity;
    var s' := ConsumerStep(s);
    KeepsMemory(s, s');
    PopDecides(s);
    hide Memory;
    assert s'.consumer.NotPopping? <==> s.built[Retired(s)..Published(s)] == [];
    if s'.consumer.NotPopping? {
      HistoryLogs(s, s', PopEmpty);
    }
    hide History, Cursors;
  }

  lemma ReleaseCursors<T>(s: Ring<T>)
    requires |s.slots| > 0 && Cursors(s) && ConsumerOk(s) && s.consumer.PopDestroyed?
    ensures var s' := ConsumerStep(s);
            Cursors(s') && Published(s') == Published(s) && Retired(s') == Retired(s) + 1
  {
    hide Wrap, Advance;
    AdvanceIsSuccessor(Retired(s));
  }

  lemma PopReleaseKeepsInv<T>(s: Ring<T>)
    requires Inv(s) && s.consumer.PopDestroyed?
    ensures Inv(ConsumerStep(s))
  {
    SmallCapacity(|s.slots|);
    hide Wrap, Replay, PushedValues, PoppedValues, GoodCapacity, Advance;
    var s' := ConsumerStep(s);
    ReleaseCursors(s);
    KeepsMemory(s, s');
    hide Memory;
    var n, m, out := Published(s), Retired(s), s.consumer.out;
    SliceTail(s.built, m, n);
    HistoryLogs(s, s', Popped(out));
    hide History, Cursors;
  }

  /** The slot about to be read holds the oldest object, live. */
  lemma MoveTarget<T>(s: Ring<T>)
    requires Inv(s) && s.consumer.PopReady?
    ensures Index(s.consumer.ownPos, |s.slots|) == |s.destroyed| % |s.slots|
    ensures |s.destroyed| < |s.built|
    ensures SlotAt(s, |s.destroyed|) == Live(|s.destroyed|, s.built[|s.destroyed|])
  {
    IndexIsPositionModCapacity(|s.destroyed|, |s.slots|);
    assert SlotInvariant(s, |s.destroyed|);
  }

  lemma MoveKeepsMemory<T>(s: Ring<T>)
    requires Inv(s) && s.consumer.PopReady?
    ensures Memory(ConsumerStep(s))
  {
    SmallCapacity(|s.slots|);
    hide Wrap, Replay, PushedValues, PoppedValues, GoodCapacity, Index;
    MoveTarget(s);
    var s' := ConsumerStep(s);
    var m, cap := |s.destroyed|, |s.slots|;
    forall k: nat | m <= k < m + cap
      ensures SlotInvariant(s', k)
    {
      assert SlotInvariant(s, k);
      if k > m {
        DistinctSlots(m, k, cap);
      }
    }
  }

  lemma PopMoveKeepsInv<T>(s: Ring<T>)
    requires Inv(s) && s.consumer.PopReady?
    ensures Inv(ConsumerStep(s))
  {
    SmallCapacity(|s.slots|);
    hide Wrap, Replay, PushedValues, PoppedValues, GoodCapacity, Index;
    MoveTarget(s);
    MoveKeepsMemory(s);
    hide Memory;
    HistorySame(s, ConsumerStep(s));
    hide History;
  }

  /** The slot about to be destroyed holds the object whose value was just moved out. */
  lemma DestroyTarget<T>(s: Ring<T>)
    requires Inv(s) && s.consumer.PopMoved?
    ensures Index(s.consumer.ownPos, |s.slots|) == |s.destroyed| % |s.slots|
    ensures |s.destroyed| < |s.built|
    ensures SlotAt(s, |s.destroyed|) == MovedFrom(|s.destroyed|)
  {
    IndexIsPositionModCapacity(|s.destroyed|, |s.slots|);
    assert SlotInvariant(s, |s.destroyed|);
  }

  lemma DestroyKeepsMemory<T>(s: Ring<T>, s': Ring<T>)
    requires |s.slots| > 0 && Memory(s) && |s.destroyed| < |s.built|
    requires !s'.consumer.PopMoved?
    requires s'.slots == s.slots[|s.destroyed| % |s.slots| := Raw]
    requires s'.built == s.built && s'.destroyed == s.destroyed + [|s.destroyed|]
    ensures Memory(s')
  {
    var m, cap := |s.destroyed|, |s.slots|;
    forall k: nat | m + 1 <= k < m + 1 + cap
      ensures SlotInvariant(s', k)
    {
      if k < m + cap {
        assert SlotInvariant(s, k);
        DistinctSlots(m, k, cap);
      } else {
        SameSlot(m, cap);
      }
    }
  }

  lemma SameSlot(m: nat, capacity: nat)
    requires capacity > 0
    ensures (m + capacity) % capacity == m % capacity
  {
    assert capacity * (m / capacity + 1) == capacity * (m / capacity) + capacity;
    ModUnique(m + capacity, capacity, m / capacity + 1, m % capacity);
  }

  lemma PopDestroyKeepsInv<T>(s: Ring<T>)
    requires Inv(s) && s.consumer.PopMoved?
    ensures Inv(ConsumerStep(s))
  {
    SmallCapacity(|s.slots|);
    hide Wrap, Replay, PushedValues, PoppedValues, GoodCapacity;
    DestroyTarget(s);
    DestroyKeepsMemory(s, ConsumerStep(s));
    hide Memory, Index;
    HistorySame(s, ConsumerStep(s));
    hide History;
  }

  lemma ConsumerStepKeepsInv<T>(s: Ring<T>)
    requires Inv(s)
    ensures Inv(ConsumerStep(s))
  {
    match s.consumer
    case PopReady(_) => PopMoveKeepsInv(s);
    case PopMoved(_, _) => PopDestroyKeepsInv(s);
    case PopDestroyed(_, _) => PopReleaseKeepsInv(s);
    case NotPopping => PopStartKeepsInv(s);
    case PopLoadedOwn(_) => PopLoadKeepsInv(s);
  }

  lemma {:induction false} RunKeepsInv<T>(s: Ring<T>, turns: seq<Turn<T>>)
    requires Inv(s)
    ensures Inv(Run(s, turns))
    decreases |turns|
  {
    if turns != [] {
      var before := Run(s, turns[..|turns| - 1]);
      RunKeepsInv(s, turns[..|turns| - 1]);
      match turns[|turns| - 1]
      case ProducerTurn(arg) => ProducerStepKeepsInv(before, arg);
      case ConsumerTurn => ConsumerStepKeepsInv(before);
    }
  }

  // -- What every run guarantees ----------------------------------------------------

  /** Under every interleaving the results of all calls, in the order in which they take
      effect, are those of a bounded FIFO queue. */
  lemma RefinesBoundedFifo<T>(capacity: nat, turns: seq<Turn<T>>)
    requires GoodCapacity(capacity)
    ensures var events := Run(Fresh<T>(capacity), turns).events;
            && Replay(capacity, events).Legal?
            && PoppedValues(events) <= PushedValues(events)
            && PushedValues(events) == PoppedValues(events) + Replay(capacity, events).contents
            && |Replay(capacity, events).contents| <= capacity
  {
    FreshInv<T>(capacity);
    RunKeepsInv(Fresh<T>(capacity), turns);
    var s := Run(Fresh<T>(capacity), turns);
    var n, m := Published(s), Retired(s);
    assert s.built[..n] == s.built[..m] + s.built[m..n];
  }

  ghost predicate SlotHolds<T>(s: Ring<T>, pos: nat, slot: Slot<T>)
    requires |s.slots| > 0
  {
    Index(pos, |s.slots|) < |s.slots| && s.slots[Index(pos, |s.slots|)] == slot
  }

  /** In every run an object is constructed only in raw memory, moved from only while live,
      destroyed only after the move, and the two threads never touch the same slot. */
  lemma SlotLifecycle<T>(capacity: nat, turns: seq<Turn<T>>)
    requires GoodCapacity(capacity)
    ensures var s := Run(Fresh<T>(capacity), turns);
            && (s.producer.PushReady? ==> SlotHolds(s, s.producer.ownPos, Raw))
            && (s.consumer.PopReady? ==>
                  exists v :: SlotHolds(s, s.consumer.ownPos, Live(|s.destroyed|, v)))
            && (s.consumer.PopMoved? ==> SlotHolds(s, s.consumer.ownPos, MovedFrom(|s.destroyed|)))
            && (s.producer.PushReady? && (s.consumer.PopReady? || s.consumer.PopMoved?) ==>
                  Index(s.producer.ownPos, capacity) != Index(s.consumer.ownPos, capacity))
  {
    FreshInv<T>(capacity);
    RunKeepsInv(Fresh<T>(capacity), turns);
    var s := Run(Fresh<T>(capacity), turns);
    if s.producer.PushReady? {
      ConstructTarget(s);
    }
    if s.consumer.PopReady? {
      MoveTarget(s);
      assert SlotHolds(s, s.consumer.ownPos, Live(|s.destroyed|, s.built[|s.destroyed|]));
    }
    if s.consumer.PopMoved? {
      DestroyTarget(s);
    }
  }

  ghost function ContentsOf<T>(s: Ring<T>): seq<T> {
    match Replay(|s.slots|, s.events)
    case Legal(q) => q
    case Illegal => []
  }

  // -- A whole call, with the other thread in between ---------------------------------------

  /** n steps of the consumer. */
  function Consume<T>(s: Ring<T>, n: nat): (s': Ring<T>)
    requires |s.slots| > 0
    ensures |s'.slots| == |s.slots|
  {
    if n == 0 then s else ConsumerStep(Consume(s, n - 1))
  }

  /** As many steps of the producer as there are arguments, for the calls that start there. */
  function Produce<T>(s: Ring<T>, args: seq<T>): (s': Ring<T>)
    requires |s.slots| > 0
    ensures |s'.slots| == |s.slots|
  {
    if args == [] then s else ProducerStep(Produce(s, args[..|args| - 1]), args[|args| - 1])
  }

  lemma ConsumeOnce<T>(s: Ring<T>)
    requires Inv(s)
    ensures var s' := ConsumerStep(s);
            s'.producer == s.producer && s'.built == s.built && PushedValues(s'.events) == PushedValues(s.events)
  {
    hide Inv, PushedValues, PoppedValues, Replay, GoodCapacity, Index, IsEmpty, Advance;
    if s.consumer.PopLoadedOwn? {
      LogEvent(|s.slots|, s.events, PopEmpty);
    } else if s.consumer.PopDestroyed? {
      LogEvent(|s.slots|, s.events, Popped(s.consumer.out));
    }
  }

  lemma {:induction false} ConsumeKeeps<T>(s: Ring<T>, n: nat)
    requires Inv(s)
    ensures var s' := Consume(s, n);
            && Inv(s') && s'.producer == s.producer && s'.built == s.built
            && PushedValues(s'.events) == PushedValues(s.events)
    decreases n
  {
    if n > 0 {
      hide Inv, ConsumerStep;
      ConsumeKeeps(s, n - 1);
      ConsumeOnce(Consume(s, n - 1));
      ConsumerStepKeepsInv(Consume(s, n - 1));
    }
  }

  lemma ProduceOnce<T>(s: Ring<T>, arg: T)
    requires Inv(s)
    ensures var s' := ProducerStep(s, arg);
            && s'.consumer == s.consumer && s'.destroyed == s.destroyed && s.built <= s'.built
            && PoppedValues(s'.events) == PoppedValues(s.events)
  {
    hide Inv, PushedValues, PoppedValues, Replay, GoodCapacity, Index, IsFull, Advance;
    if s.producer.PushLoadedOwn? {
      LogEvent(|s.slots|, s.events, PushFull);
    } else if s.producer.PushConstructed? {
      LogEvent(|s.slots|, s.events, Pushed(s.producer.arg));
    }
  }

  lemma {:induction false} ProduceKeeps<T>(s: Ring<T>, args: seq<T>)
    requires Inv(s)
    ensures var s' := Produce(s, args);
            && Inv(s') && s'.consumer == s.consumer && s'.destroyed == s.destroyed && s.built <= s'.built
            && PoppedValues(s'.events) == PoppedValues(s.events)
    decreases |args|
  {
    if args != [] {
      hide Inv, ProducerStep;
      var before := Produce(s, args[..|args| - 1]);
      ProduceKeeps(s, args[..|args| - 1]);
      ProduceOnce(before, args[|args| - 1]);
      ProducerStepKeepsInv(before, args[|args| - 1]);
    }
  }

  /** The state at the load of the consumer's cursor, when the consumer took a steps before. */
  function AtLoad<T>(s: Ring<T>, v: T, a: nat): Ring<T>
    requires |s.slots| > 0
  {
    Consume(ProducerStep(s, v), a)
  }

  /** A whole `Push`, with any number of the consumer's steps before each of its accesses, fails
      exactly if the queue was full at its load of the consumer's cursor, and else pushes its value. */
  lemma PushAmidPops<T>(s: Ring<T>, v: T, a: nat, b: nat, c: nat)
    requires Inv(s) && s.producer.NotPushing?
    ensures var s1 := AtLoad(s, v, a);
            var s2 := ProducerStep(s1, v);
            if |ContentsOf(s1)| == |s.slots| then
              && s2.producer.NotPushing? && s2.events == s1.events + [PushFull]
              && PushedValues(s2.events) == PushedValues(s.events)
            else
              var s3 := ProducerStep(Consume(s2, b), v);
              var s4 := ProducerStep(Consume(s3, c), v);
              s4.producer.NotPushing? && s4.events == Consume(s3, c).events + [Pushed(v)]
              && PushedValues(s4.events) == PushedValues(s.events) + [v]
  {
    SmallCapacity(|s.slots|);
    hide Inv, Consume, ProducerStep, Replay, PushedValues;
    PushOpens(s, v);
    ConsumeKeeps(ProducerStep(s, v), a);
    var s1 := AtLoad(s, v, a);
    PushLoads(s1, v);
    if |ContentsOf(s1)| == |s.slots| {
      LogEvent(|s.slots|, s1.events, PushFull);
    } else {
      PushFinishes(ProducerStep(s1, v), v, b, c);
    }
  }

  lemma ReplayIsLegal<T>(s: Ring<T>)
    requires Inv(s)
    ensures Replay(|s.slots|, s.events).Legal? && ContentsOf(s) == Replay(|s.slots|, s.events).contents
    ensures ContentsOf(s) == s.built[Retired(s)..Published(s)]
  {
    hide Memory, GoodCapacity, Wrap;
  }

  lemma PushFinishes<T>(s: Ring<T>, v: T, b: nat, c: nat)
    requires Inv(s) && s.producer.PushReady? && s.producer.arg == v
    ensures var s3 := ProducerStep(Consume(s, b), v);
            var s4 := ProducerStep(Consume(s3, c), v);
            s4.producer.NotPushing? && s4.events == Consume(s3, c).events + [Pushed(v)]
            && PushedValues(s4.events) == PushedValues(s.events) + [v]
  {
    SmallCapacity(|s.slots|);
    hide Inv, Consume, ProducerStep, PushedValues;
    ConsumeKeeps(s, b);
    PushConstructs(Consume(s, b), v);
    var s3 := ProducerStep(Consume(s, b), v);
    ConsumeKeeps(s3, c);
    PushPublishes(Consume(s3, c), v);
  }

  lemma PushOpens<T>(s: Ring<T>, arg: T)
    requires Inv(s) && s.producer.NotPushing?
    ensures var s' := ProducerStep(s, arg);
            && Inv(s') && s'.producer == PushLoadedOwn(arg, s.producerPos) && s'.consumer == s.consumer
            && s'.events == s.events && ContentsOf(s') == ContentsOf(s)
  {
    ProducerStepKeepsInv(s, arg);
    hide Inv, Replay;
  }

  lemma PushLoads<T>(s: Ring<T>, arg: T)
    requires Inv(s) && s.producer.PushLoadedOwn?
    ensures var s' := ProducerStep(s, arg);
            && Inv(s') && s'.consumer == s.consumer
            && if |ContentsOf(s)| == |s.slots| then s'.producer.NotPushing? && s'.events == s.events + [PushFull]
               else s'.producer == PushReady(s.producer.arg, s.producer.ownPos) && s'.events == s.events
  {
    PushDecides(s);
    ReplayIsLegal(s);
    ProducerStepKeepsInv(s, arg);
    hide Inv, Replay, IsFull;
  }

  lemma PushConstructs<T>(s: Ring<T>, arg: T)
    requires Inv(s) && s.producer.PushReady?
    ensures var s' := ProducerStep(s, arg);
            && Inv(s') && s'.producer == PushConstructed(s.producer.arg, s.producer.ownPos) && s'.events == s.events
            && s'.consumer == s.consumer
  {
    ConstructTarget(s);
    ProducerStepKeepsInv(s, arg);
    hide Inv, Index;
  }

  lemma PushPublishes<T>(s: Ring<T>, arg: T)
    requires Inv(s) && s.producer.PushConstructed?
    ensures var s' := ProducerStep(s, arg);
            && Inv(s') && s'.producer.NotPushing? && s'.events == s.events + [Pushed(s.producer.arg)]
            && s'.consumer == s.consumer
            && PushedValues(s'.events) == PushedValues(s.events) + [s.producer.arg]
  {
    ProducerStepKeepsInv(s, arg);
    hide Inv, PushedValues, PoppedValues, Replay;
    LogEvent(|s.slots|, s.events, Pushed(s.producer.arg));
  }

  /** A whole `Pop`, with any number of the producer's steps before each of its accesses, fails
      exactly if the queue was empty at its load of the producer's cursor, and else returns what
      was the oldest value then. */
  lemma PopAmidPushes<T>(s: Ring<T>, a: seq<T>, b: seq<T>, c: seq<T>, d: seq<T>)
    requires Inv(s) && s.consumer.NotPopping?
    ensures var s1 := Produce(ConsumerStep(s), a);
            var s2 := ConsumerStep(s1);
            if ContentsOf(s1) == [] then
              && s2.consumer.NotPopping? && s2.events == s1.events + [PopEmpty]
              && PoppedValues(s2.events) == PoppedValues(s.events)
            else
              var s3 := ConsumerStep(Produce(s2, b));
              var s4 := ConsumerStep(Produce(s3, c));
              var s5 := ConsumerStep(Produce(s4, d));
              s5.consumer.NotPopping? && s5.events == Produce(s4, d).events + [Popped(ContentsOf(s1)[0])]
              && PoppedValues(s5.events) == PoppedValues(s.events) + [ContentsOf(s1)[0]]
  {
    SmallCapacity(|s.slots|);
    hide Inv, Produce, ConsumerStep, Replay, PoppedValues;
    PopOpens(s);
    ProduceKeeps(ConsumerStep(s), a);
    var s1 := Produce(ConsumerStep(s), a);
    PopLoads(s1);
    if ContentsOf(s1) == [] {
      LogEvent(|s.slots|, s1.events, PopEmpty);
    } else {
      PopFinishes(ConsumerStep(s1), b, c, d);
    }
  }

  lemma PopFinishes<T>(s: Ring<T>, b: seq<T>, c: seq<T>, d: seq<T>)
    requires Inv(s) && s.consumer.PopReady? && |s.destroyed| < |s.built|
    ensures var s3 := ConsumerStep(Produce(s, b));
            var s4 := ConsumerStep(Produce(s3, c));
            var s5 := ConsumerStep(Produce(s4, d));
            var out := s.built[|s.destroyed|];
            s5.consumer.NotPopping? && s5.events == Produce(s4, d).events + [Popped(out)]
            && PoppedValues(s5.events) == PoppedValues(s.events) + [out]
  {
    SmallCapacity(|s.slots|);
    hide Inv, Produce, ConsumerStep, PoppedValues;
    ProduceKeeps(s, b);
    PopMoves(Produce(s, b));
    var s3 := ConsumerStep(Produce(s, b));
    ProduceKeeps(s3, c);
    PopDestroys(Produce(s3, c));
    var s4 := ConsumerStep(Produce(s3, c));
    ProduceKeeps(s4, d);
    PopReleases(Produce(s4, d));
  }

  lemma PopOpens<T>(s: Ring<T>)
    requires Inv(s) && s.consumer.NotPopping?
    ensures var s' := ConsumerStep(s);
            && Inv(s') && s'.consumer == PopLoadedOwn(s.consumerPos) && s'.producer == s.producer
            && s'.events == s.events && ContentsOf(s') == ContentsOf(s)
  {
    ConsumerStepKeepsInv(s);
    hide Inv, Replay;
  }

  lemma PopLoads<T>(s: Ring<T>)
    requires Inv(s) && s.consumer.PopLoadedOwn?
    ensures var s' := ConsumerStep(s);
            && Inv(s') && s'.producer == s.producer
            && if ContentsOf(s) == [] then s'.consumer.NotPopping? && s'.events == s.events + [PopEmpty]
               else
                 && s'.consumer == PopReady(s.consumer.ownPos) && s'.events == s.events
                 && |s'.destroyed| < |s'.built| && s'.built[|s'.destroyed|] == ContentsOf(s)[0]
  {
    PopDecides(s);
    ReplayIsLegal(s);
    ConsumerStepKeepsInv(s);
    hide Inv, Replay, IsEmpty;
  }

  lemma PopMoves<T>(s: Ring<T>)
    requires Inv(s) && s.consumer.PopReady?
    ensures var s' := ConsumerStep(s);
            && Inv(s') && |s.destroyed| < |s.built| && s'.events == s.events && s'.producer == s.producer
            && s'.consumer == PopMoved(s.consumer.ownPos, s.built[|s.destroyed|])
  {
    MoveTarget(s);
    ConsumerStepKeepsInv(s);
    hide Inv, Index;
  }

  lemma PopDestroys<T>(s: Ring<T>)
    requires Inv(s) && s.consumer.PopMoved?
    ensures var s' := ConsumerStep(s);
            && Inv(s') && s'.consumer == PopDestroyed(s.consumer.ownPos, s.consumer.out) && s'.events == s.events
            && s'.producer == s.producer
  {
    DestroyTarget(s);
    ConsumerStepKeepsInv(s);
    hide Inv, Index;
  }

  lemma PopReleases<T>(s: Ring<T>)
    requires Inv(s) && s.consumer.PopDestroyed?
    ensures var s' := ConsumerStep(s);
            && Inv(s') && s'.consumer.NotPopping? && s'.events == s.events + [Popped(s.consumer.out)]
            && s'.producer == s.producer
            && PoppedValues(s'.events) == PoppedValues(s.events) + [s.consumer.out]
  {
    ConsumerStepKeepsInv(s);
    hide Inv, PushedValues, PoppedValues, Replay;
    LogEvent(|s.slots|, s.events, Popped(s.consumer.out));
  }

  // -- The object ---------------------------------------------------------------------

  /** A whole `Push` with no step of the consumer in between. */
  function PushCall<T>(s: Ring<T>, v: T): Ring<T>
    requires |s.slots| > 0
  {
    var loaded := ProducerStep(ProducerStep(s, v), v);
    if loaded.producer.NotPushing? then loaded else ProducerStep(ProducerStep(loaded, v), v)
  }

  /** A whole `Pop` with no step of the producer in between. */
  function PopCall<T>(s: Ring<T>): Ring<T>
    requires |s.slots| > 0
  {
    var loaded := ConsumerStep(ConsumerStep(s));
    if loaded.consumer.NotPopping? then loaded else ConsumerStep(ConsumerStep(ConsumerStep(loaded)))
  }

  ghost predicate Idle<T>(s: Ring<T>) {
    s.producer.NotPushing? && s.consumer.NotPopping?
  }

  lemma EventAnswered<T>(s: Ring<T>, s': Ring<T>, e: Event<T>)
    requires Inv(s) && |s'.slots| == |s.slots| && s'.events == s.events + [e]
    ensures Answer(|s.slots|, ContentsOf(s), e).Legal? ==>
              ContentsOf(s') == Answer(|s.slots|, ContentsOf(s), e).contents
  {
    ReplayIsLegal(s);
    LogEvent(|s.slots|, s.events, e);
    hide Inv, Replay, PushedValues, PoppedValues, Answer;
  }

  /** A whole `Push` on an idle ring appends its value unless the ring is full. */
  lemma PushCallResult<T>(s: Ring<T>, v: T)
    requires Inv(s) && Idle(s)
    ensures |ContentsOf(s)| <= |s.slots| && Idle(PushCall(s, v)) && Inv(PushCall(s, v))
    ensures ProducerStep(ProducerStep(s, v), v).producer.NotPushing? <==> |ContentsOf(s)| == |s.slots|
    ensures ContentsOf(PushCall(s, v)) == if |ContentsOf(s)| == |s.slots| then ContentsOf(s) else ContentsOf(s) + [v]
  {
    SmallCapacity(|s.slots|);
    ContentsFit(s);
    hide Inv, ContentsOf, ProducerStep;
    PushOpens(s, v);
    var s1 := ProducerStep(s, v);
    PushLoads(s1, v);
    var s2 := ProducerStep(s1, v);
    if s2.producer.NotPushing? {
      EventAnswered(s1, s2, PushFull);
    } else {
      PushConstructs(s2, v);
      var s3 := ProducerStep(s2, v);
      PushPublishes(s3, v);
      EventAnswered(s3, ProducerStep(s3, v), Pushed(v));
      SameEvents(s1, s3);
    }
  }

  lemma ContentsFit<T>(s: Ring<T>)
    requires Inv(s)
    ensures |ContentsOf(s)| <= |s.slots|
  {
    ReplayIsLegal(s);
  }

  lemma SameEvents<T>(s: Ring<T>, s': Ring<T>)
    requires s'.events == s.events && |s'.slots| == |s.slots|
    ensures ContentsOf(s') == ContentsOf(s)
  {
  }

  /** A whole `Pop` on an idle ring removes the oldest value if there is one. */
  lemma PopCallResult<T>(s: Ring<T>)
    requires Inv(s) && Idle(s)
    ensures Idle(PopCall(s)) && Inv(PopCall(s))
    ensures var s2 := ConsumerStep(ConsumerStep(s));
            if ContentsOf(s) == [] then s2.consumer.NotPopping?
            else
              && !s2.consumer.NotPopping?
              && var s4 := ConsumerStep(ConsumerStep(s2));
                 s4.consumer.PopDestroyed? && s4.consumer.out == ContentsOf(s)[0]
    ensures ContentsOf(PopCall(s)) == if ContentsOf(s) == [] then [] else ContentsOf(s)[1..]
  {
    SmallCapacity(|s.slots|);
    hide Inv, ContentsOf, ConsumerStep;
    PopOpens(s);
    var s1 := ConsumerStep(s);
    PopLoads(s1);
    var s2 := ConsumerStep(s1);
    if s2.consumer.NotPopping? {
      EventAnswered(s1, s2, PopEmpty);
    } else {
      SameEvents(s1, s2);
      PopCallEnds(s2);
    }
  }

  lemma PopCallEnds<T>(s: Ring<T>)
    requires Inv(s) && s.producer.NotPushing? && s.consumer.PopReady?
    requires |s.destroyed| < |s.built| && ContentsOf(s) != [] && s.built[|s.destroyed|] == ContentsOf(s)[0]
    ensures var s4 := ConsumerStep(ConsumerStep(s));
            && s4.consumer.PopDestroyed? && s4.consumer.out == ContentsOf(s)[0]
            && Inv(ConsumerStep(s4)) && Idle(ConsumerStep(s4)) && ContentsOf(ConsumerStep(s4)) == ContentsOf(s)[1..]
  {
    SmallCapacity(|s.slots|);
    hide Inv, ContentsOf, ConsumerStep;
    PopMoves(s);
    var s3 := ConsumerStep(s);
    PopDestroys(s3);
    var s4 := ConsumerStep(s3);
    SameEvents(s, s4);
    PopReleases(s4);
    EventAnswered(s4, ConsumerStep(s4), Popped(ContentsOf(s)[0]));
  }

  class SpscFifoQ<T> {
    const ring: array<Slot<T>>
    var producerPos: nat
    var consumerPos: nat
    // Where the two threads are, with their local variables.
    var inPush: Producer<T>
    var inPop: Consumer<T>
    // History of the object, which the program itself does not keep.
    var events: seq<Event<T>>
    var built: seq<T>
    var destroyed: seq<nat>

    ghost function Snapshot(): Ring<T>
      reads this, ring
    {
      Ring(ring[..], producerPos, consumerPos, inPush, inPop, events, built, destroyed)
    }

    ghost predicate Valid()
      reads this, ring
    {
      Inv(Snapshot())
    }

    /** Between calls: neither thread is inside an operation. */
    ghost predicate AtRest()
      reads this
    {
      inPush.NotPushing? && inPop.NotPopping?
    }

    ghost function Contents(): seq<T>
      requires Valid()
      reads this, ring
    {
      ContentsOf(Snapshot())
    }

    constructor (capacity: nat)
      requires GoodCapacity(capacity)
      ensures Valid() && fresh(ring) && ring.Length == capacity
      ensures AtRest() && Snapshot() == Fresh(capacity) && Contents() == []
    {
      ring := new Slot<T>[capacity](_ => Raw);
      producerPos, consumerPos := 0, 0;
      inPush, inPop := NotPushing, NotPopping;
      events, built, destroyed := [], [], [];
      new;
      assert ring[..] == seq(capacity, _ => Raw);
      FreshInv<T>(capacity);
    }

    /** Placement new, in raw memory. */
    method ConstructAt(i: nat, value: T)
      requires i < ring.Length && ring[i].Raw?
      modifies ring, this`built
      ensures ring[..] == old(ring[..])[i := Live(|old(built)|, value)] && built == old(built) + [value]
    {
      ring[i] := Live(|built|, value);
      built := built + [value];
    }

    method MoveOutAt(i: nat) returns (out: T)
      requires i < ring.Length && ring[i].Live?
      modifies ring
      ensures out == old(ring[i].value) && ring[..] == old(ring[..])[i := MovedFrom(old(ring[i].id))]
    {
      out := ring[i].value;
      ring[i] := MovedFrom(ring[i].id);
    }

    /** `destroy_at`, of an object that is there. */
    method DestroyAt(i: nat)
      requires i < ring.Length && !ring[i].Raw?
      modifies ring, this`destroyed
      ensures ring[..] == old(ring[..])[i := Raw] && destroyed == old(destroyed) + [old(ring[i].id)]
    {
      destroyed := destroyed + [ring[i].id];
      ring[i] := Raw;
    }

    /** The next single access of `Push`; a producer outside it calls it with `arg`. */
    method PushStep(arg: T)
      requires Valid()
      modifies this, ring
      ensures Valid() && Snapshot() == ProducerStep(old(Snapshot()), arg)
    {
      ProducerStepKeepsInv(Snapshot(), arg);
      PushTarget(Snapshot());
      hide Inv, Index, IsFull, Advance;
      match inPush {
        case NotPushing =>
          inPush := PushLoadedOwn(arg, producerPos);
        case PushLoadedOwn(v, pos) =>
          if IsFull(pos, consumerPos, ring.Length) {
            inPush := NotPushing;
            events := events + [PushFull];
          } else {
            inPush := PushReady(v, pos);
          }
        case PushReady(v, pos) =>
          ConstructAt(Index(pos, ring.Length), v);
          inPush := PushConstructed(v, pos);
        case PushConstructed(v, pos) =>
          producerPos := Advance(pos);
          events := events + [Pushed(v)];
          inPush := NotPushing;
      }
    }

    /** The next single access of `Pop`. */
    method PopStep()
      requires Valid()
      modifies this, ring
      ensures Valid() && Snapshot() == ConsumerStep(old(Snapshot()))
    {
      ConsumerStepKeepsInv(Snapshot());
      PopTarget(Snapshot());
      hide Inv, Index, IsEmpty, Advance;
      match inPop {
        case NotPopping =>
          inPop := PopLoadedOwn(consumerPos);
        case PopLoadedOwn(pos) =>
          if IsEmpty(producerPos, pos) {
            inPop := NotPopping;
            events := events + [PopEmpty];
          } else {
            inPop := PopReady(pos);
          }
        case PopReady(pos) =>
          var i := Index(pos, ring.Length);
          var out := MoveOutAt(i);
          inPop := PopMoved(pos, out);
        case PopMoved(pos, out) =>
          var i := Index(pos, ring.Length);
          DestroyAt(i);
          inPop := PopDestroyed(pos, out);
        case PopDestroyed(pos, out) =>
          consumerPos := Advance(pos);
          events := events + [Popped(out)];
          inPop := NotPopping;
      }
    }

    /** Any interleaving of the two threads. */
    method Play(turns: seq<Turn<T>>)
      requires Valid()
      modifies this, ring
      ensures Valid() && Snapshot() == Run(old(Snapshot()), turns)
    {
      assert ring.Length > 0;
      hide Inv, ProducerStep, ConsumerStep;
      for i := 0 to |turns|
        invariant Valid() && Snapshot() == Run(old(Snapshot()), turns[..i])
      {
        assert turns[..i + 1][..i] == turns[..i];
        match turns[i] {
          case ProducerTurn(arg) => PushStep(arg);
          case ConsumerTurn => PopStep();
        }
      }
      assert turns[..|turns|] == turns;
    }

    /** A whole call while the consumer is not inside one. */
    method Push(value: T) returns (ok: bool)
      requires Valid() && AtRest()
      modifies this, ring
      ensures AtRest()
      ensures Valid() && Snapshot() == PushCall(old(Snapshot()), value)
      ensures ok == (|old(Contents())| < ring.Length)
      ensures Contents() == if ok then old(Contents()) + [value] else old(Contents())
    {
      PushCallResult(Snapshot(), value);
      hide Inv, ProducerStep, Idle, ContentsOf;
      PushStep(value);
      PushStep(value);
      if inPush.NotPushing? {
        return false;
      }
      PushStep(value);
      PushStep(value);
      return true;
    }

    /** A whole call while the producer is not inside one. `given` is the caller's variable: it
        keeps its value when there is nothing to pop. */
    method Pop(given: T) returns (ok: bool, out: T)
      requires Valid() && AtRest()
      modifies this, ring
      ensures AtRest()
      ensures Valid() && Snapshot() == PopCall(old(Snapshot()))
      ensures ok == (old(Contents()) != [])
      ensures ok ==> out == old(Contents())[0] && Contents() == old(Contents())[1..]
      ensures !ok ==> out == given && Contents() == old(Contents())
    {
      PopCallResult(Snapshot());
      hide Inv, ConsumerStep, Idle, ContentsOf;
      PopStep();
      PopStep();
      if inPop.NotPopping? {
        return false, given;
      }
      PopStep();
      PopStep();
      out := inPop.out;
      PopStep();
      return true, out;
    }

    /** The destructor: its loop drains the ring. */
    method Destroy()
      requires Valid() && AtRest()
      modifies this, ring
      ensures Drainable(old(Snapshot()), old(consumerPos)) && Snapshot() == Drain(old(Snapshot()), old(consumerPos))
      ensures built == old(built) && |destroyed| == |built|
      ensures forall i :: 0 <= i < |destroyed| ==> destroyed[i] == i
      ensures forall i :: 0 <= i < ring.Length ==> ring[i] == Raw
    {
      var consumer, producer := consumerPos, producerPos;
      IdleIsDrainable(Snapshot());
      DrainsAll(Snapshot(), consumer);
      hide *;
      while !IsEmpty(producer, consumer)
        invariant Drainable(Snapshot(), consumer) && producerPos == producer
        invariant Drainable(old(Snapshot()), old(consumerPos))
        invariant Drain(Snapshot(), consumer) == Drain(old(Snapshot()), old(consumerPos))
        decreases |built| - |destroyed|
      {
        DrainUnfolds(Snapshot(), consumer);
        var i := Index(consumer, ring.Length);
        destroyed := destroyed + [ring[i].id];
        ring[i] := Raw;
        consumer := Advance(consumer);
      }
      DrainUnfolds(Snapshot(), consumer);
    }
  }

  /** Where the thread that is about to construct, move or destroy an object would do so. */
  lemma PushTarget<T>(s: Ring<T>)
    requires Inv(s)
    ensures |s.slots| > 0 && (s.producer.PushReady? ==>
              Index(s.producer.ownPos, |s.slots|) < |s.slots| && s.slots[Index(s.producer.ownPos, |s.slots|)].Raw?)
  {
    if s.producer.PushReady? {
      ConstructTarget(s);
    }
  }

  lemma PopTarget<T>(s: Ring<T>)
    requires Inv(s)
    ensures |s.slots| > 0
    ensures s.consumer.PopReady? ==>
              Index(s.consumer.ownPos, |s.slots|) < |s.slots| && s.slots[Index(s.consumer.ownPos, |s.slots|)].Live?
    ensures s.consumer.PopMoved? ==>
              Index(s.consumer.ownPos, |s.slots|) < |s.slots| && s.slots[Index(s.consumer.ownPos, |s.slots|)].MovedFrom?
  {
    if s.consumer.PopReady? {
      MoveTarget(s);
    }
    if s.consumer.PopMoved? {
      DestroyTarget(s);
    }
  }

  // -- The destructor's loop ------------------------------------------------------------

  /** The memory is sound, and `consumer` is the cursor of the oldest object not yet destroyed. */
  ghost predicate Drainable<T>(s: Ring<T>, consumer: nat) {
    && GoodCapacity(|s.slots|) && Memory(s) && !s.consumer.PopMoved?
    && s.producerPos == Wrap(|s.built|) && consumer == Wrap(|s.destroyed|)
  }

  function DestroySlot<T>(s: Ring<T>, i: nat): Ring<T>
    requires i < |s.slots| && !s.slots[i].Raw?
  {
    s.(slots := s.slots[i := Raw], destroyed := s.destroyed + [s.slots[i].id])
  }

  /** One turn of the loop destroys the oldest object. */
  lemma DrainStep<T>(s: Ring<T>, consumer: nat)
    requires Drainable(s, consumer) && !IsEmpty(s.producerPos, consumer)
    ensures |s.destroyed| < |s.built|
    ensures var i := Index(consumer, |s.slots|);
            && i < |s.slots| && s.slots[i].Live?
            && Drainable(DestroySlot(s, i), Advance(consumer))
  {
    EmptyOnce(s, s.producerPos, consumer);
    IndexIsPositionModCapacity(|s.destroyed|, |s.slots|);
    assert SlotInvariant(s, |s.destroyed|);
    AdvanceIsSuccessor(|s.destroyed|);
    hide Index, GoodCapacity, Wrap, IsEmpty, Advance;
    DestroyKeepsMemory(s, DestroySlot(s, Index(consumer, |s.slots|)));
  }

  ghost function Drain<T>(s: Ring<T>, consumer: nat): Ring<T>
    requires Drainable(s, consumer)
    decreases |s.built| - |s.destroyed|
  {
    if IsEmpty(s.producerPos, consumer) then s
    else
      DrainStep(s, consumer);
      Drain(DestroySlot(s, Index(consumer, |s.slots|)), Advance(consumer))
  }

  lemma DrainUnfolds<T>(s: Ring<T>, consumer: nat)
    requires Drainable(s, consumer)
    ensures IsEmpty(s.producerPos, consumer) ==> Drain(s, consumer) == s
    ensures !IsEmpty(s.producerPos, consumer) ==>
              var i := Index(consumer, |s.slots|);
              && |s.slots| > 0 && i < |s.slots| && s.slots[i].Live? && |s.destroyed| < |s.built|
              && Drainable(s.(slots := s.slots[i := Raw], destroyed := s.destroyed + [s.slots[i].id]),
                           Advance(consumer))
              && Drain(s, consumer) ==
                 Drain(s.(slots := s.slots[i := Raw], destroyed := s.destroyed + [s.slots[i].id]), Advance(consumer))
  {
    if !IsEmpty(s.producerPos, consumer) {
      DrainStep(s, consumer);
    }
  }

  /** It ends with every object destroyed, once and in order, and every slot raw. */
  lemma {:induction false} DrainsAll<T>(s: Ring<T>, consumer: nat)
    requires Drainable(s, consumer)
    ensures var d := Drain(s, consumer);
            && d.built == s.built && |d.destroyed| == |d.built| && |d.slots| == |s.slots|
            && (forall i :: 0 <= i < |d.destroyed| ==> d.destroyed[i] == i)
            && (forall i :: 0 <= i < |d.slots| ==> d.slots[i] == Raw)
    decreases |s.built| - |s.destroyed|
  {
    EmptyOnce(s, s.producerPos, consumer);
    if IsEmpty(s.producerPos, consumer) {
      AllRaw(s);
    } else {
      DrainStep(s, consumer);
      hide Drainable, IsEmpty, Index, Advance;
      DrainsAll(DestroySlot(s, Index(consumer, |s.slots|)), Advance(consumer));
    }
  }

  lemma IdleIsDrainable<T>(s: Ring<T>)
    requires Inv(s) && Idle(s)
    ensures Drainable(s, s.consumerPos)
  {
  }

  /** However the two threads interleaved: once both are outside, the destructor's loop destroys
      what is left, so that every object ever constructed has been destroyed exactly once. */
  lemma DestroyedExactlyOnce<T>(capacity: nat, turns: seq<Turn<T>>)
    requires GoodCapacity(capacity) && Idle(Run(Fresh<T>(capacity), turns))
    ensures var s := Run(Fresh<T>(capacity), turns);
            && Drainable(s, s.consumerPos)
            && var d := Drain(s, s.consumerPos);
               && d.built == s.built && |d.destroyed| == |d.built|
               && (forall i :: 0 <= i < |d.destroyed| ==> d.destroyed[i] == i)
               && (forall i :: 0 <= i < |d.slots| ==> d.slots[i] == Raw)
  {
    FreshInv<T>(capacity);
    RunKeepsInv(Fresh<T>(capacity), turns);
    var s := Run(Fresh<T>(capacity), turns);
    IdleIsDrainable(s);
    DrainsAll(s, s.consumerPos);
  }

  /** Equal cursors mean that nothing is left, and only then. */
  lemma EmptyOnce<T>(s: Ring<T>, producer: nat, consumer: nat)
    requires |s.slots| > 0 && GoodCapacity(|s.slots|) && Memory(s)
    requires consumer == Wrap(|s.destroyed|) && producer == Wrap(|s.built|)
    ensures IsEmpty(producer, consumer) <==> |s.destroyed| == |s.built|
    ensures |s.destroyed| <= |s.built|
    ensures forall i :: 0 <= i < |s.destroyed| ==> s.destroyed[i] == i
  {
    SmallCapacity(|s.slots|);
    CursorsTell(|s.built|, |s.destroyed|, |s.slots|);
  }

  lemma AllRaw<T>(s: Ring<T>)
    requires |s.slots| > 0 && Memory(s) && |s.built| == |s.destroyed|
    ensures forall i :: 0 <= i < |s.slots| ==> s.slots[i] == Raw
  {
    var m, cap := |s.destroyed|, |s.slots|;
    forall i | 0 <= i < cap
      ensures s.slots[i] == Raw
    {
      var k := PositionOf(m, i, cap);
      assert SlotInvariant(s, k);
    }
  }

  lemma PositionOf(m: nat, i: nat, capacity: nat) returns (k: nat)
    requires i < capacity
    ensures m <= k < m + capacity && k % capacity == i
  {
    var q, r := m / capacity, m % capacity;
    if i >= r {
      k := m - r + i;
      ModUnique(k, capacity, q, i);
    } else {
      k := m - r + capacity + i;
      assert capacity * (q + 1) == capacity * q + capacity;
      ModUnique(k, capacity, q + 1, i);
    }
  }
}
