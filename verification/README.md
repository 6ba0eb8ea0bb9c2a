# Verified models of the `toy` data structures, protocols and matching engine

A Dafny model of eleven C++ components: two lock-free rings, an order matching engine, a thread
pool and a blocking queue built on condition variables, an LRU cache, a stop-bit integer codec, two
reference-counted pointers, a growable vector, and the newline framing of a TCP receiver. Each is
modelled with the branches, constants and error paths of its source, and the properties its
design rests on are proved for every input, every run and every interleaving.

`dafny verify dfyconfig.toml` checks the whole project.

| module | component |
|---|---|
| `Bits`, `Options`, `Traces` | `&`, `\|` and shifts on natural numbers, and powers of two; an optional value; what the steps of a run contribute |
| `Codec` | `encoder.cpp` |
| `SpscRing` | `ringbuffer.h` |
| `IntRing` | `spsc_intring.h` |
| `OrderIds`, `Matching`, `Exchange`, `Audit`, `Priority` | the values of `order-matching-engine.cpp`: ids as strings, one match, books and engine, runs, who fills first |
| `OrderBooks`, `TradingEngine` | its classes, updated in place, proved against those values |
| `Lru` | `lru.h` |
| `ThreadPool`, `ThreadPoolCalls` | `threadpool.h`: its threads step by step, and whole calls of `enqueue` |
| `SpmcQueue` | `queue.cpp` |
| `SharedPointers` | interleaved reference counting of `improved-shared-ptr.h` and `mypointer.h` |
| `SharedPtr` | the same classes as objects, for one thread |
| `GrowableVector` | `myvector.h` |
| `Framing` | `receiveData` of `market-data-system2.h` |

## How the components are modelled

**Concurrent components** (`SpscRing`, `IntRing`, `ThreadPool`, `SpmcQueue`, `SharedPointers`) are
step systems. The state holds what the threads share and where each thread is in its code; one step
is one access (a load, a store, taking or releasing the mutex, going to sleep, one slot or counter
access). `Step` is total: a thread that cannot move stays where it is, so a sequence of events is any
interleaving at all. `Run` and `Reached` follow such a sequence from a new object, and the theorems
hold after every one. Atomic accesses are taken to be sequentially consistent. Waiting on a
condition variable is several steps: reading the stop flag, reading the queue, and, still under
the mutex, going to sleep, which releases it. A notification picks any sleeper; sleepers may also wake
spuriously, and a thread that was never notified may take the mutex first. Fields called histories
(`events`, `executed`, `deliveries`, `zeroSeenBy` and so on) record what happened and influence
no step. Operations that would be undefined set a `fault` flag (`overflow` in `IntRing`), and the
theorems show when it can be set; in `SpscRing` there is no flag, and a thread about to construct,
move or destroy where it must not is stuck there, which is shown never to happen. Beside the step
systems of `SpscRing`, `IntRing`, `ThreadPool` and `SpmcQueue` stands a class whose methods make the
same steps by updating fields in place, proved to do what the step function says, with `Play` running
any interleaving; in it, `front`, `pop` and slot accesses are plain partial operations, shown to be
safe. `SpscRing.SpscFifoQ` also has whole `Push` and `Pop` calls and the destructor's loop.
`SharedPointers` has no such class: its classes are in `SharedPtr`, for one thread.
What a whole call does, amid any steps of the other threads, is stated without the step functions, of
the states before and after its own steps (`SpscRing.PushAmidPops`, `IntRing.EnqueueCall`,
`ThreadPoolCalls.EnqueueCall`, `SpmcQueue.EmplaceCall`, `SharedPointers.OperationDoes` and their like).

**Sequential components** are classes with the fields of the source (`LruCache`, `OrderBook`,
`MatchingEngine`, `SharedPtr`, `Vector`, `TCPReceiver`), or methods over arrays (`Codec`). Each method
is proved against a function on values, and the deeper results are lemmas about those functions.
Callbacks are logs: a trade notifier and a message handler append to a sequence. What `recv`
returns, and the order in which `cancelOrder` meets the books, are arbitrary.

Prices are real numbers and the growth factor is exact. `order-N` ids are real strings compared
character by character, as the comparators do; so at one price `order-10` comes before `order-9`,
against the comment at `order-matching-engine.cpp:56`, and `OrderIds.IdOrder` says exactly when age
decides. The slot index of the ring leaves out the factor `sizeof(T)`, which scales every slot alike.
In `ThreadPool` a task is named by its place in the order of acceptance, in `SharedPointers` an object
by its control block, which no other shares because each raw pointer goes to one constructor.

Properties that hold only in part are stated with the exact condition:

- the codec's round trip at 64 bits, because the decoder shifts in `int` (`Codec.RoundTripWide`);
- time priority across ids of different lengths (`OrderIds.IdOrder` for the ids,
  `Priority.TimePriorityExactly` for what is filled), with a run in which the younger order is filled
  and the older one left (`Priority.TenFillsBeforeNine`);
- soundness of the books, and of the trades, under orders of negative size, which the source accepts
  (`Exchange.PlaceKeepsEngineExactly`, `Audit.BooksSoundExactly`, `Audit.RunIsSoundExactly`); the
  accounts balance under any (`Audit.RunIsAccounted`, `Audit.BoughtEqualsSold`);
- the thread pool's shutdown notification, because `stop_` is stored without the mutex
  (`ThreadPool.ShutdownMissedExactly`, `ThreadPool.HangsExactly`), with a pool that hangs
  (`ThreadPool.LostShutdown`);
- the rejection of calls once that flag is stored (`ThreadPool.AcceptedAfterStop`), and the execution
  of all accepted tasks in pools without workers (`ThreadPool.ExecutedOnceExactly`);
- the range of `size` of the blocking ring, outside its two threads (`IntRing.ObserverSeesExactly`);
- the independence of framing from chunks (`Framing.ChunkIndependence`, `Framing.CompleteExactly`);
- re-encoding of a decoded buffer (`Codec.Reencode`).

## Model

| member | source | states |
|---|---|---|
| `Codec.EncodeInteger` | `encoder.cpp:41-66` | writes exactly the stop-bit encoding and returns its length if it fits the buffer; otherwise (or for a null buffer) returns 0 and writes nothing |
| `Codec.WriteDigits` | `encoder.cpp:58-63` | the loop from the last byte to the first leaves the base-128 digits of the value, most significant first, and nothing else changed |
| `Codec.DecodeInteger` | `encoder.cpp:70-95` | on every buffer: 0 if null, of a bad length or with a misplaced or missing stop bit; otherwise the digits' big-endian base-128 value, modulo 2^width up to 32 bits, through 32-bit `int` at 64 bits, undefined from six digits on |
| `Codec.AccumulateDigits` | `encoder.cpp:88-94` | OR-ing the shifted digits together, each passing through signed `int`, gives the big-endian base-128 value modulo 2^width up to 32 bits; at 64 bits that value after a conversion through 32-bit `int`; from six digits on the shift is undefined |
| `Codec.LeastLength` | `encoder.cpp:42-48` | the encoding's length is the least n >= 1 with value < 2^(7n) |
| `Codec.EncodingAccepted` | `encoder.cpp:72-85` | the encoding of any value of the type passes every check of the decoder |
| `Codec.RoundTrip` | `encoder.cpp:97-106` | at 8, 16 and 32 bits decoding an encoding gives the value back, for every value |
| `Codec.RoundTripWide` | `encoder.cpp:91` | at 64 bits it does if and only if the value is below 2^31 |
| `Codec.EncodeThenDecode` | `encoder.cpp:97-106` | encoding into any large enough buffer and decoding the bytes written returns the value |
| `Codec.Reencode` | `encoder.cpp:41-95` | an accepted buffer re-encodes to itself if and only if it is one byte long or has no leading zero digit, and its value fits the type |
| `Codec.DigitsDenote` | `encoder.cpp:10-13` | the digits written denote the value encoded |
| `Codec.CanonicalDigits` | `encoder.cpp:43-48` | a digit sequence without a leading zero is the one the encoder writes for its value |
| `Codec.PrefixFree` | `encoder.cpp:8-10` | no encoding is a proper prefix of another: a stream has only one first encoding |
| `Codec.StreamSplits` | `encoder.cpp:8-10` | a concatenation of encodings cut after each stop bit gives back exactly those encodings |
| `Codec.StreamRoundTrip` | `encoder.cpp:8-33` | a stream of encoded values, cut at its stop bits and decoded, gives back every value |
| `SpscRing.IndexIsPositionModCapacity` | `ringbuffer.h:78-80` | masking a cursor that has wrapped at 2^64 finds the slot of the unwrapped position modulo the capacity |
| `SpscRing.CapacityDividesWrap` | `ringbuffer.h:17-19` | a capacity that passes the static assertions is a power of two and divides 2^64 |
| `SpscRing.WrappedDistance` | `ringbuffer.h:81-88` | on wrapped cursors less than 2^64 apart the difference is the true distance, and they are equal only if the positions are |
| `SpscRing.PushDecides` | `ringbuffer.h:42-48` | in every sound state `Push` gives up if and only if the queue is full at the load of the consumer's cursor |
| `SpscRing.PopDecides` | `ringbuffer.h:60-66` | `Pop` gives up if and only if the queue is empty at the load of the producer's cursor |
| `SpscRing.ProducerStepKeepsInv` | `ringbuffer.h:41-57` | each single access of `Push`, at any moment of a `Pop`, keeps the memory and cursor invariants |
| `SpscRing.ConsumerStepKeepsInv` | `ringbuffer.h:59-75` | each single access of `Pop`, at any moment of a `Push`, keeps them |
| `SpscRing.RefinesBoundedFifo` | `ringbuffer.h:41-75` | under every interleaving all calls' results are those of a bounded FIFO queue: popped values are a prefix of pushed ones, and the difference is what is in it |
| `SpscRing.SlotLifecycle` | `ringbuffer.h:25-75` | in every run an object is constructed only in raw memory, moved from only while live, destroyed only after that, and the two threads are never at the same slot |
| `SpscRing.PushAmidPops` | `ringbuffer.h:41-57` | a whole `Push`, with any number of the consumer's accesses before each of its own, gives up if and only if the queue was full at its load of the consumer's cursor, and otherwise pushes its value and nothing else |
| `SpscRing.PopAmidPushes` | `ringbuffer.h:59-75` | a whole `Pop`, with any number of the producer's accesses before each of its own, gives up if and only if the queue was empty at its load of the producer's cursor, and otherwise pops what was then the oldest value |
| `SpscRing.DestroyedExactlyOnce` | `ringbuffer.h:25-38` | after any interleaved run that ends with both threads outside, the destructor's loop leaves every object ever constructed destroyed exactly once, in order, and every slot raw |
| `SpscRing.SpscFifoQ.PushStep` | `ringbuffer.h:41-57` | the next access of `Push` on the object, at any moment of a `Pop` |
| `SpscRing.SpscFifoQ.PopStep` | `ringbuffer.h:59-75` | the next access of `Pop` on the object, at any moment of a `Push` |
| `SpscRing.SpscFifoQ.Play` | `ringbuffer.h:41-75` | any interleaving of such accesses leaves what `Run` says and keeps the invariants |
| `SpscRing.SpscFifoQ.Destroy` | `ringbuffer.h:25-38` | the loop on the object does just that: every object ever constructed has been destroyed exactly once, in order, and every slot is raw |
| `IntRing.DequeuesInOrder` | `spsc_intring.h:32-53` | under every interleaving what has been dequeued is the front of what has been enqueued, never more than the capacity behind |
| `IntRing.CallsEnqueue` | `spsc_intring.h:32-41` | in every run the elements enqueued are the arguments of the calls of `enqueue`, in order, the one under way aside |
| `IntRing.EnqueueCall` | `spsc_intring.h:32-41` | a whole call of `enqueue`, amid any steps of other threads, enqueues its argument |
| `IntRing.DequeueCall` | `spsc_intring.h:43-53` | a whole call of `dequeue` returns the oldest element not dequeued before it |
| `IntRing.SizeCall` | `spsc_intring.h:55-59` | `size`, in any of the three threads and amid any steps of the others, is the number enqueued at its first load less the number dequeued at its second |
| `IntRing.SpinLoopsExitSafely` | `spsc_intring.h:35-40` | `enqueue` leaves its spin loop only for a slot that holds nothing queued, `dequeue` only for one that holds the next element, and they are never at the same slot |
| `IntRing.SizeInRange` | `spsc_intring.h:55-59` | `size` called by the producer's or the consumer's thread is between 0 and the capacity |
| `IntRing.ObserverSeesExactly` | `spsc_intring.h:55-59` | called by any other thread, on a ring of any capacity, it can return exactly the numbers from -(2^31 - 1) to the smaller of the capacity and 2^31 - 1: never more than the capacity, but any negative number that as many elements passing between its two loads make it |
| `IntRing.CursorsInRange` | `spsc_intring.h:12-13` | no cursor leaves the range of `int` while fewer than 2^31 - 1 elements have been enqueued |
| `IntRing.ProducerStepInv` | `spsc_intring.h:32-41` | each access of the producer's thread keeps the invariants of cursors, slots and both threads |
| `IntRing.ConsumerStepInv` | `spsc_intring.h:43-53` | each access of the consumer's thread keeps them |
| `IntRing.BoundedBlockingQueue.EnqueueStep` | `spsc_intring.h:32-41` | the step on the object, writing the ring in place |
| `IntRing.BoundedBlockingQueue.DequeueStep` | `spsc_intring.h:43-53` | the step on the object; its cursor never overflows |
| `IntRing.BoundedBlockingQueue.Play` | `spsc_intring.h:10-60` | any interleaving of such steps leaves what `Run` says and keeps the invariants |
| `OrderIds.IdOrder` | `order-matching-engine.cpp:56` | the older of two ids sorts first if and only if its number does not exceed the younger one's cut to as many digits |
| `OrderIds.SameLengthIdOrder` | `order-matching-engine.cpp:66` | ids with equally many digits sort by age |
| `OrderIds.TenBeforeNine` | `order-matching-engine.cpp:66` | and others need not: `order-10` sorts before `order-9` |
| `OrderIds.DecimalMonotone` | `order-matching-engine.cpp:299-301` | decimal printing is monotone among numbers with equally many digits |
| `OrderIds.OrderIdInjective` | `order-matching-engine.cpp:299-301` | different numbers give different ids |
| `Matching.BeforeTransitive` | `order-matching-engine.cpp:51-68` | both comparators are transitive, |
| `Matching.BeforeTotal` | `order-matching-engine.cpp:51-68` | and compare any two orders of different ids one way only: strict total orders, as ordered sets need |
| `Matching.InsertKeepsSorted` | `order-matching-engine.cpp:76-84` | inserting a new id keeps a side sorted and adds just that order |
| `Matching.MatchShape` | `order-matching-engine.cpp:149-184` | trade i is with the i-th resting order at that order's price; all but the last fill theirs completely, so there are at most as many as resting orders; what rests is the remainder; the loop stops only when filled, out of orders, or no longer crossing |
| `Matching.MatchedQuantity` | `order-matching-engine.cpp:149-160` | the quantity filled is exactly the smaller of the order's size and all that rests within its limit |
| `Matching.GreedyCheapest` | `order-matching-engine.cpp:151-166` | taking from the best price first is the cheapest way to obtain a quantity from the resting orders |
| `Matching.MatchIsGreedy` | `order-matching-engine.cpp:149-222` | the trades of a match are that allocation |
| `Matching.MatchIsOptimal` | `order-matching-engine.cpp:149-222` | so no allocation of the same quantity costs a buyer less or earns a seller more |
| `Exchange.MatchOrderKeepsBook` | `order-matching-engine.cpp:105-116` | matching and resting a new order keeps a book uncrossed, sorted, live and of unique ids |
| `Exchange.RemoveKeepsBook` | `order-matching-engine.cpp:87-102` | so does removing an order, which removes nothing else |
| `Exchange.PlaceKeepsEngine` | `order-matching-engine.cpp:236-256` | `placeOrder` of a size that is not negative keeps every book sound, every id issued, and no id in two books |
| `Exchange.PlaceKeepsEngineExactly` | `order-matching-engine.cpp:236-256` | for any size, it does so if and only if the size is not negative or the order finds one to trade with |
| `Exchange.PlaceDoes` | `order-matching-engine.cpp:236-256` | a placement fills the smaller of its size and what rests within its limit, in book order and at resting prices, rests what is left, reports the trades after those reported before and in the order made, and leaves the books of other symbols alone |
| `Exchange.CancelKeepsEngine` | `order-matching-engine.cpp:259-266` | `cancelOrder` keeps the same, and removes exactly the orders of that id |
| `Exchange.QuotesAreBest` | `order-matching-engine.cpp:119-140` | in a sound book some bid has the price of the best bid and none a higher one, likewise the asks, and the spread is their positive difference; what is quoted for an empty side |
| `Audit.MatchConserves` | `order-matching-engine.cpp:149-222` | one match, whatever the sizes, moves each order's units from its remaining size into its trades and loses none |
| `Audit.BooksSoundExactly` | `order-matching-engine.cpp:236-266` | for any sizes, the books stay sound throughout a run if and only if each placement in its turn is of a size that is not negative or finds an order to trade with |
| `Audit.RunIsAccounted` | `order-matching-engine.cpp:236-266` | after any sequence of placements, of any sizes, and cancellations, each order's size is what rests plus what was cancelled plus what was traded, an order rests only in its symbol's book on its own side, and every trade is between a buyer and a seller of its symbol at a price within both limits |
| `Audit.RunIsSoundExactly` | `order-matching-engine.cpp:236-266` | moreover all books stay sound and all trades are of positive size throughout the run if and only if no size placed is negative |
| `Audit.BoughtEqualsSold` | `order-matching-engine.cpp:172-212` | in every run, of any sizes, for every symbol the units bought are the units sold |
| `Priority.PriorityIsAge` | `order-matching-engine.cpp:51-68` | at one price and side the comparator goes by age if and only if the older number does not exceed the younger one cut to as many digits |
| `Priority.EarlierFillsFirst` | `order-matching-engine.cpp:149-222` | after any run, if a placement makes a resting order trade, every order the comparator puts before it, better priced or of a smaller id, has been filled earlier in the same match and has left the book |
| `Priority.FillsFirstExactly` | `order-matching-engine.cpp:149-222` | of two orders resting on one side of a reachable book, every placement that makes the second trade has filled the first if and only if the comparator puts the first before |
| `Priority.TimePriorityExactly` | `order-matching-engine.cpp:51-68` | so at one price the older fills first, whatever is placed, if and only if its number does not exceed the younger one's cut to as many digits, and the younger does if and only if it exceeds it |
| `Priority.TenFillsBeforeNine` | `order-matching-engine.cpp:56` | a run in which age does not decide: equal bids 9 and 10, and a sale that fills order-10 and leaves order-9 |
| `OrderBooks.LiveOrder.ReduceSize` | `order-matching-engine.cpp:34-38` | reduces the remaining size, or refuses and changes nothing |
| `OrderBooks.OrderBook.AddOrder` | `order-matching-engine.cpp:76-84` | any order joins its side in comparator order, unless an equivalent one is there, and takes its id's place in the index; the two stay in agreement if the id is new |
| `OrderBooks.OrderBook.RemoveOrder` | `order-matching-engine.cpp:87-102` | removes from index and side the one order of that id, or reports that there is none |
| `OrderBooks.OrderBook.MatchBuyOrder` | `order-matching-engine.cpp:149-184` | the loop over the sell set, sizes and index does what the match of values does, and keeps index and sets in agreement |
| `OrderBooks.OrderBook.MatchSellOrder` | `order-matching-engine.cpp:187-222` | the same for the buy set |
| `OrderBooks.OrderBook.MatchOrder` | `order-matching-engine.cpp:105-116` | matching, then resting what is not filled, is the step of the book's values, for any size and id; index and sets stay in agreement if the id is new or the order is filled |
| `TradingEngine.MatchingEngine.PlaceOrder` | `order-matching-engine.cpp:236-256` | for any size: issues the next id, opens the book if need be, and is the engine step on values; all books stay valid and apart if and only if the size is not negative or the order finds one to trade with |
| `TradingEngine.MatchingEngine.CancelOrder` | `order-matching-engine.cpp:259-266` | cancels the order if any book holds it and reports whether one did, in whatever order the books are met |
| `TradingEngine.MatchingEngine.GetOrderBook` | `order-matching-engine.cpp:290-296` | finds or opens the book of a symbol |
| `TradingEngine.CancelInOneBook` | `order-matching-engine.cpp:259-266` | removing an id from one book that holds it is removing it from all: the order of the books does not matter |
| `TradingEngine.Execute` | `order-matching-engine.cpp:226-302` | any sequence of client calls on a new engine under which the books stay sound ends in exactly the state of the run on values |
| `Lru.LruCache.Put` | `lru.h:23-42` | the list becomes the recency list after a put, with the last key dropped if a new one finds the cache full; the table keeps pointing at exactly the nodes of the list |
| `Lru.LruCache.Get` | `lru.h:44-53` | returns the last value put and moves the key to the front, or throws and changes nothing |
| `Lru.ListIsRecency` | `lru.h:23-53` | after any run of puts and gets the list is exactly the first min(capacity, distinct) keys by most recent use |
| `Lru.RecentByLastUse` | `lru.h:31-41` | that order is the order of last uses |
| `Lru.OperationDoes` | `lru.h:23-53` | a put uses its key and a get a cached one; the key goes to the front, the others keep their order, and the last one goes exactly if the key is new and the cache full; a get of a key that is not cached changes nothing |
| `Lru.ValuesAreLastPut` | `lru.h:23-53` | every cached value is the last one put under its key |
| `Lru.GetReturnsLastPut` | `lru.h:44-53` | so `get` never returns a stale value, in any reachable cache |
| `Lru.TakeMoveToFront` | `lru.h:31-41` | keeping the n most recent keys commutes with a use |
| `Lru.ServeStep` | `lru.h:23-53` | get, and put on a miss, serves a request as the recency list says |
| `Lru.Serve` | `lru.h:23-53` | serving any requests through the object leaves that list and counts its misses |
| `Lru.SmallerIsPrefix` | `lru.h:31-37` | on the same requests a smaller cache's list is a prefix of a larger one's |
| `Lru.PhaseBounds` | `lru.h:23-53` | a phase ends before the request that would take its distinct keys above the capacity k; after n requests LRU has missed at most k times per completed phase and once per key of the current one, a policy with h <= k slots at least k - h + 1 times per completed phase, and once per key of the current one that it did not hold at its start |
| `Lru.CompetitiveWithFewer` | `lru.h:23-53` | on any requests, LRU with k slots against any policy with h <= k slots, even one that sees the future: (k - h + 1) times LRU's misses are at most k times the policy's plus (h - 1)(k - h) |
| `Lru.Competitive` | `lru.h:23-53` | so with as many slots LRU misses at most k times as often |
| `ThreadPool.StepInv` | `threadpool.h:17-77` | every step of every thread keeps mutual exclusion, FIFO order, the account of tasks taken and executed, the account of wake-ups, and the limit on missed shutdowns |
| `ThreadPoolCalls.EnqueueCall` | `threadpool.h:46-65` | a whole call of `enqueue`, amid any steps of other threads: if the flag is set at its check under the mutex it is rejected there and the queue unchanged; if not, exactly one new task is appended, behind the tasks queued at the check; its other steps leave the queue alone |
| `ThreadPoolCalls.CallsAreDecided` | `threadpool.h:46-65` | in every run each call begun has pushed its task or been rejected, once, or has still to do either |
| `ThreadPoolCalls.OnlyCallersAccept` | `threadpool.h:46-65` | no other step accepts a task |
| `ThreadPool.ReturnedMeansExecutedOnce` | `threadpool.h:17-66` | in every run with a worker: once all workers have returned, every accepted task has been executed exactly once and none is left |
| `ThreadPool.DestroyedMeansExecutedOnce` | `threadpool.h:71-77` | so too when the destructor has finished, as it has joined all workers |
| `ThreadPool.DestructorFinishes` | `threadpool.h:71-77` | once all workers have returned the destructor does not wait: one step for each worker and at most three more finish it |
| `ThreadPool.StoppedWorkerReturns` | `threadpool.h:17-28` | a worker that gets the mutex and finds the flag set and the queue empty returns |
| `ThreadPool.DrainedForever` | `threadpool.h:25-57` | from the moment one worker has returned the queue is empty and stays so, and nothing more is accepted, whatever callers do |
| `ThreadPool.AcceptedAfterStop` | `threadpool.h:46-63` | from any state in which the destructor is about to store the flag: some call is accepted after the store, in some continuation, if and only if a caller has then passed its check and not yet pushed; in no continuation is more than one |
| `ThreadPool.NoWorkersStrand` | `threadpool.h:36-43` | why a worker is needed: a pool of none with any callers can accept a task and be destroyed with it queued |
| `ThreadPool.ExecutedOnceExactly` | `threadpool.h:36-77` | in every run that destroys the pool each accepted task has been executed exactly once, if and only if it has a worker or no callers |
| `ThreadPool.NoLostWakeup` | `threadpool.h:21-63` | in every reachable state in which a worker sleeps, the queued tasks are at most the notified workers yet to resume, plus the notifications yet to be sent, plus one if a worker is inside the mutex; that one, if there is a task, takes it before letting go |
| `ThreadPool.AtMostOneMissesShutdown` | `threadpool.h:72-73` | after `notify_all` at most one worker is asleep |
| `ThreadPool.ShutdownMissedExactly` | `threadpool.h:22-24` | one can be asleep then if and only if at `notify_all` a worker was between finding the queue empty and going to sleep |
| `ThreadPool.HangsExactly` | `threadpool.h:71-77` | from the same states the destructor can come to wait for ever, whatever follows short of a spurious wake-up of the worker it waits for, under exactly the same condition |
| `ThreadPool.LostShutdown` | `threadpool.h:71-77` | a run in which it does: the only worker sleeps and the destructor never finishes |
| `ThreadPool.Threadpool.WorkerStep` | `threadpool.h:17-33` | the step of a worker on the object; `front` and `pop` never meet an empty queue |
| `ThreadPool.Threadpool.CallerStep` | `threadpool.h:46-65` | the step of a caller of `enqueue`, which throws once the flag is stored |
| `ThreadPool.Threadpool.DestructorStep` | `threadpool.h:71-77` | the step of the destructor |
| `ThreadPool.Threadpool.Play` | `threadpool.h:17-77` | any interleaving of such steps leaves what `Run` says and keeps the invariants |
| `SpmcQueue.StepInv` | `queue.cpp:22-48` | every step of every thread keeps mutual exclusion, FIFO order, the account of returns and the account of wake-ups |
| `SpmcQueue.EmplaceCall` | `queue.cpp:22-32` | a whole call of `emplace`, amid any steps of other threads: at exactly one of its steps its argument, and nothing else, is appended to the queue, which its other steps leave alone |
| `SpmcQueue.EmplacedAreArguments` | `queue.cpp:22-32` | the values emplaced in a run are what its producers' steps add and nothing else, and for each producer that is not in a call these are the arguments of its calls, in order |
| `SpmcQueue.CallsEmplace` | `queue.cpp:22-32` | the same for one that is, but for the argument that its call has still to push |
| `SpmcQueue.PopCall` | `queue.cpp:34-48` | a whole call of `pop`, amid any steps of other threads: at exactly one of its steps it removes the front item, and that item is what it returns |
| `SpmcQueue.DeliversInOrder` | `queue.cpp:22-48` | in every run values leave in the order in which they entered, each to one consumer, whose calls return exactly what it popped; `front` never meets an empty queue |
| `SpmcQueue.NoLostWakeup` | `queue.cpp:22-48` | in every reachable state in which a consumer sleeps and the mutex is free, the queued items are at most the notified consumers yet to resume; while it is held, at most one more |
| `SpmcQueue.ItemsHaveTakers` | `queue.cpp:34-48` | so an item is never left to sleepers: if the mutex is free, some notified consumer can go on and return the front item |
| `SpmcQueue.SPMCQueue.EmplaceStep` | `queue.cpp:22-32` | the step of `emplace` on the object |
| `SpmcQueue.SPMCQueue.PopStep` | `queue.cpp:34-48` | the step of `pop` on the object, which never meets an empty queue |
| `SpmcQueue.SPMCQueue.Play` | `queue.cpp:19-54` | any interleaving of such steps leaves what `Run` says and keeps the invariants |
| `SharedPointers.StepInv` | `improved-shared-ptr.h:32-160` | every step of every operation on every handle keeps the invariants of handles and blocks |
| `SharedPointers.OperationDoes` | `improved-shared-ptr.h:95-129` | a whole copy or move construction or assignment, or destruction, from any reachable state and amid any events on other handles: a copy ends at the pointer its source had and has, a move takes it and leaves the source empty, a destroyed handle is gone; counts are the owners there are, and a block whose last share the operation gave up has been freed |
| `SharedPointers.ConstructDoes` | `improved-shared-ptr.h:74-93` | a handle constructed from a pointer is the sole owner of a new block; from nothing it is empty; no other block changes |
| `SharedPointers.SwapDoes` | `improved-shared-ptr.h:157-159` | a swap exchanges the pointers and touches no block |
| `SharedPointers.OthersUntouched` | `improved-shared-ptr.h:95-159` | no step changes a handle that it is not about: copying leaves the source alone, moving only clears it |
| `SharedPointers.CountIsHandles` | `improved-shared-ptr.h:95-159` | in every reachable state a block's count is the number of handles that hold it, less the increments and the moves under way |
| `SharedPointers.FreedOnceNeverWhileOwned` | `improved-shared-ptr.h:32-42` | in every run at most one decrement sees zero, and one has if and only if no owner is left; object and block are freed at most once and never while owned; the block's destructor finds count zero and a null pointer; nothing freed is used |
| `SharedPointers.IdleHandleIsLive` | `mypointer.h:208-217` | a handle on which nothing is under way points to a live object or to none |
| `SharedPointers.QuiescentExactly` | `mypointer.h:134-145` | when nothing is under way an object and its block have been freed, once, if and only if no handle points to it |
| `SharedPointers.TakesOverFromSource` | `mypointer.h:159-198` | while a handle copies or moves, it is at the block of its source, which stays put |
| `SharedPointers.OperationsFinish` | `improved-shared-ptr.h:95-129` | no operation waits for another: at most six steps of its own finish it |
| `SharedPtr.ControlBlock.DecrementRef` | `improved-shared-ptr.h:35-42` | the owner gives up its share; the object is deleted if and only if it was the last |
| `SharedPtr.ControlBlock.IncrementRef` | `improved-shared-ptr.h:32` | a live block gains the owner |
| `SharedPtr.SharedPtr.FromPointer` | `improved-shared-ptr.h:76-93` | a null pointer makes no block, any other one a new block owned by the handle alone |
| `SharedPtr.SharedPtr.Copy` | `improved-shared-ptr.h:110-112` | shares the block of the source, whose owners gain the new handle |
| `SharedPtr.SharedPtr.Move` | `improved-shared-ptr.h:95-97` | takes the share of the source, which is left empty |
| `SharedPtr.SharedPtr.CopyAssign` | `improved-shared-ptr.h:114-123` | gives up the old share, freeing the old block if it was the last, and shares the new one; nothing for itself; right also when both share one block |
| `SharedPtr.SharedPtr.MoveAssign` | `improved-shared-ptr.h:99-108` | the same, taking the source's share |
| `SharedPtr.SharedPtr.Swap` | `improved-shared-ptr.h:157-159` | exchanges blocks and shares |
| `SharedPtr.SharedPtr.Destroy` | `improved-shared-ptr.h:125-129` | gives up the share, freeing object and block if it was the last |
| `SharedPtr.SharedPtr.Reset` | `improved-shared-ptr.h:144-146` | by swapping with a temporary, leaves the handle empty and gives up its share |
| `SharedPtr.SharedPtr.ResetTo` | `improved-shared-ptr.h:148-155` | the same, leaving it sole owner of the new pointer |
| `SharedPtr.SharedPtr.UseCount` | `improved-shared-ptr.h:140` | the number of handles that share the block |
| `GrowableVector.Vector.Copy` | `myvector.h:21-30` | equal contents and capacity in new storage |
| `GrowableVector.Vector.Move` | `myvector.h:36-42` | takes storage and contents; the source is moved-from |
| `GrowableVector.Vector.CopyAssign` | `myvector.h:31-35` | the contents of the source in storage of its own, also on a moved-from vector; old elements destroyed |
| `GrowableVector.Vector.MoveAssign` | `myvector.h:43-47` | the contents and storage of the source, which is moved-from |
| `GrowableVector.Vector.Destroy` | `myvector.h:124-129` | destroys every element before the storage goes |
| `GrowableVector.Vector.Reserve` | `myvector.h:57-73` | contents unchanged in storage of the capacity asked for, each element moved and destroyed once; nothing if there is room |
| `GrowableVector.Vector.Resize` | `myvector.h:74-87` | the first n elements stay and the rest are destroyed, or new ones are filled up with the default; capacity grows to floor(3n/2) unless it exceeds n already |
| `GrowableVector.Vector.PushBack` | `myvector.h:99-121` | appends, for both forms of `push_back` and for `emplace_back`; a full vector strictly grows, to floor(3n/2), moving each element once, and no other does |
| `GrowableVector.PerformAll` | `myvector.h:18-129` | any run of construction, copy and move construction, destruction, push, resize, reserve, swap, copy and move assignment on any number of vectors refines the same run on sequences; no two vectors ever share storage and each keeps room for at least four |
| `GrowableVector.AmortisedCost` | `myvector.h:99-105` | n pushes on a new vector relocate at most 4n elements in total |
| `GrowableVector.PushAll` | `myvector.h:99-105` | pushing n values on a new vector moves just as many elements as that account says, hence at most 4n |
| `Framing.TCPReceiver.DeliverLines` | `market-data-system2.h:189-195` | the loop delivers each complete line in order and leaves what follows the last newline |
| `Framing.TCPReceiver.ReceiveData` | `market-data-system2.h:165-211` | data is framed as the session step says, counters and alerts included, an overlong leftover dropped; errors change no data; the leftover never holds a newline; says whether to go on |
| `Framing.TCPReceiver.ReceiveAll` | `market-data-system2.h:150-154` | a connection whose lines are short enough delivers exactly the lines of its stream, however it came |
| `Framing.LinesReconstruct` | `market-data-system2.h:189-195` | lines, newlines and tail put together are the stream, and hold no other newline |
| `Framing.LinesUnique` | `market-data-system2.h:189-195` | and that is the only way to split it |
| `Framing.LinesConcat` | `market-data-system2.h:187-195` | framing the first part of a stream, then its leftover with the rest, frames the whole |
| `Framing.SessionAccounts` | `market-data-system2.h:187-208` | after any chunks every byte has been delivered, is left over or was dropped, and the leftover holds no newline |
| `Framing.SessionDelivers` | `market-data-system2.h:187-208` | with any number of overflows: cut the stream after each chunk that leaves too long a tail; the session has delivered the lines of each piece by itself, dropped exactly the tails of all pieces but the last, and holds the tail of that |
| `Framing.CompleteExactly` | `market-data-system2.h:197-208` | a session delivers its whole stream if and only if no call found more than the limit after the last newline, which is if and only if nothing was dropped |
| `Framing.ChunkIndependence` | `market-data-system2.h:165-211` | every division into chunks delivers the whole stream if and only if no line and no tail exceeds `MAX_BUFFER_SIZE` |

## Left out

- Sockets, `poll`, reconnecting, multicast and time stamps of the market data receivers: system calls; `market-data-system3.h` repeats the framing modelled here.
- `MetricsCollector`, `AlertManager`, `MessageParser`, `MarketDataProcessor`: placeholders and counters.
- Weak memory orderings: each atomic access is one sequentially consistent step.
- Fairness and progress of spin loops, of the mutex and of shutdown: only safety, and the absence of lost wake-ups, is proved for the concurrent components.
- Exceptions from user types, tasks, allocation or callbacks.
- Floating point: prices are reals without NaN, the growth factor is exactly 3/2, and `MAX_DOUBLE` is the exact value of the largest double.
- `Priority.EarlierFillsFirst`: sizes are at least 0, here and in all of `Priority`, since a negative trade fills nobody.
- `TradingEngine.Execute`: only calls under which the books stay sound; what a single call does beyond that is in `TradingEngine.MatchingEngine.PlaceOrder`, and what later calls do to unsound books is said of the values alone (`Audit.RunIsAccounted`).
- `OrderBooks.OrderBook.MatchOrder`: the incoming object is not one that already rests, and the facing side is sorted and live.
- `SpscRing.SpscFifoQ.Push`: a whole call on the object, made while the other thread is outside; calls amid the other thread's accesses are `SpscRing.PushAmidPops` and, on the object, `PushStep` and `Play`.
- `SpscRing.SpscFifoQ.Pop`: the same; see `SpscRing.PopAmidPushes`.
- Overflow of `nextOrderId_` and of order sizes.
- `bool` as a type for the codec, and `char` taken as signed when bytes are masked, which the mask undoes.
- The factor `sizeof(T)` in the ring's slot index.
- Weak counts, which no weak pointer drives: `weakCount` stays 0. `unique_ptr`: single-owner facts only.
- A data race on one handle: `SharedPointers` lets an operation start only on a handle that no other is using, and swaps the two pointers in one step.
- Use of a thread pool after its destructor has begun is modelled only as calls of `enqueue` already or newly under way, which the source leaves undefined once it has finished.
- `SpmcQueue` allows several producers, though one is what its name promises.
- `GrowableVector.Vector.Resize`: elements added are given a default value, where the source leaves trivial types uninitialised.
- Aliasing of `push_back` arguments with the vector's own elements, any use of a moved-from vector but assignment and destruction, and the sizes passed to `deallocate`, which the source does not match to those allocated.
- Printing by `lru.h` and the examples' `main` functions.
- `spinlock.h`, `hybridallocator.h`, `variant.h`, `templates.h`, `orderbook.h`: a one-bit lock, a bump counter, type dispatch, a compile-time fold and a stub.
