/** The thread pool of `threadpool.h`: any number of workers and of callers of `enqueue`, and the
    destructor, interleaved one shared access at a time. */
module ThreadPool {

  import opened Options

  // -- Threads ------------------------------------------------------------------------------

  /** Where a worker is in `worker_loop`. It holds the mutex from `ReadStop` up to the step that
      leaves `GoingToSleep`, `RereadTasks` (by returning) or `Popping`. */
  datatype Worker =
    | Acquiring(notified: bool) // before the lock; `notified` if woken by a notification
    | ReadStop // the predicate of the wait reads the stop flag,
    | ReadTasks // then the queue,
    | GoingToSleep // and was false: about to release the mutex and wait
    | Asleep
    | RereadStop // after the wait: reads the stop flag again,
    | RereadTasks // then the queue
    | Taking // about to take the front task
    | Popping(task: nat)
    | Running(task: nat)
    | Returned

  /** Where a thread is in `enqueue`. It holds the mutex from `CheckStop` to `Unlocking`. */
  datatype Caller = Idle | Entering | CheckStop | Pushing | Unlocking | Notifying

  /** Where the destructor is: it stores the flag, notifies all, and joins the workers in turn. */
  datatype Shutdown = NotStarted | StopStored | Joining(next: nat) | Destroyed

  datatype Owner = Free | ByWorker(w: nat) | ByCaller(c: nat)

  /** The shared state and every thread's position. Tasks are named by the order in which they
      were accepted. The last fields are histories: tasks accepted, who took each task (in the
      order of taking), tasks executed (in that order), calls that threw, and whether `front` or
      `pop` was ever called on an empty queue. */
  datatype Pool = Pool(tasks: seq<nat>, stop: bool, owner: Owner,
                       workers: seq<Worker>, callers: seq<Caller>, shutdown: Shutdown,
                       accepted: nat, takers: seq<nat>, executed: seq<nat>, rejected: nat, fault: bool)

  /** One step of one thread. `CallerStep` says whom its notification would wake. */
  datatype Event = WorkerStep(w: nat) | CallerStep(c: nat, wakes: nat) | DestructorStep | SpuriousWakeup(w: nat)

  function Init(workers: nat, callers: nat): Pool {
    Pool([], false, Free, seq(workers, _ => Acquiring(false)), seq(callers, _ => Idle), NotStarted, 0, [], [], 0, false)
  }

  function At(s: Pool, w: nat, at: Worker): Pool
    requires w < |s.workers|
  {
    s.(workers := s.workers[w := at])
  }

  function WorkerTurn(s: Pool, w: nat): Pool
    requires w < |s.workers|
  {
    match s.workers[w]
    case Acquiring(_) => if s.owner == Free then At(s, w, ReadStop).(owner := ByWorker(w)) else s
    case ReadStop => At(s, w, if s.stop then RereadStop else ReadTasks)
    case ReadTasks => At(s, w, if s.tasks == [] then GoingToSleep else RereadStop)
    case GoingToSleep => At(s, w, Asleep).(owner := Free)
    case Asleep => s
    case RereadStop => At(s, w, if s.stop then RereadTasks else Taking)
    case RereadTasks => if s.tasks == [] then At(s, w, Returned).(owner := Free) else At(s, w, Taking)
    case Taking => if s.tasks == [] then s.(fault := true) else At(s, w, Popping(s.tasks[0]))
    case Popping(t) =>
      if s.tasks == [] then s.(fault := true)
      else At(s, w, Running(t)).(owner := Free, tasks := s.tasks[1..], takers := s.takers + [w])
    case Running(t) => At(s, w, Acquiring(false)).(executed := s.executed + [t])
    case Returned => s
  }

  predicate SomeoneSleeps(workers: seq<Worker>) {
    exists w :: 0 <= w < |workers| && workers[w] == Asleep
  }

  function CallerTurn(s: Pool, c: nat, wakes: nat): Pool
    requires c < |s.callers|
  {
    match s.callers[c]
    case Idle => s.(callers := s.callers[c := Entering])
    case Entering => if s.owner == Free then s.(callers := s.callers[c := CheckStop], owner := ByCaller(c)) else s
    case CheckStop =>
      if s.stop then s.(callers := s.callers[c := Idle], owner := Free, rejected := s.rejected + 1)
      else s.(callers := s.callers[c := Pushing])
    case Pushing =>
      s.(callers := s.callers[c := Unlocking], tasks := s.tasks + [s.accepted], accepted := s.accepted + 1)
    case Unlocking => s.(callers := s.callers[c := Notifying], owner := Free)
    case Notifying =>
      if !SomeoneSleeps(s.workers) then s.(callers := s.callers[c := Idle])
      else if wakes < |s.workers| && s.workers[wakes] == Asleep then
        At(s, wakes, Acquiring(true)).(callers := s.callers[c := Idle])
      else s
  }

  function WakeAll(workers: seq<Worker>): seq<Worker> {
    seq(|workers|, i requires 0 <= i < |workers| => if workers[i] == Asleep then Acquiring(true) else workers[i])
  }

  function DestructorTurn(s: Pool): Pool {
    match s.shutdown
    case NotStarted => s.(stop := true, shutdown := StopStored)
    case StopStored => s.(workers := WakeAll(s.workers), shutdown := Joining(0))
    case Joining(k) =>
      if k >= |s.workers| then s.(shutdown := Destroyed)
      else if s.workers[k] == Returned then s.(shutdown := Joining(k + 1))
      else s
    case Destroyed => s
  }

  /** A thread whose step is not possible (the mutex is taken, it is asleep, it has returned, it
      waits for a worker) stays where it is. */
  function Step(s: Pool, e: Event): (s': Pool)
    ensures |s'.workers| == |s.workers| && |s'.callers| == |s.callers|
  {
    match e
    case WorkerStep(w) => if w < |s.workers| then WorkerTurn(s, w) else s
    case CallerStep(c, wakes) => if c < |s.callers| then CallerTurn(s, c, wakes) else s
    case DestructorStep => DestructorTurn(s)
    case SpuriousWakeup(w) =>
      if w < |s.workers| && s.workers[w] == Asleep then At(s, w, Acquiring(false)) else s
  }

  function Run(s: Pool, events: seq<Event>): (s': Pool)
    ensures |s'.workers| == |s.workers| && |s'.callers| == |s.callers|
  {
    if events == [] then s else Step(Run(s, events[..|events| - 1]), events[|events| - 1])
  }

  /** A new pool after those steps. */
  function Reached(workers: nat, callers: nat, events: seq<Event>): (s: Pool)
    ensures |s.workers| == workers && |s.callers| == callers
  {
    Run(Init(workers, callers), events)
  }

  // -- Invariants -----------------------------------------------------------------------------

  predicate HoldsLock(w: Worker) {
    !w.Acquiring? && !w.Asleep? && !w.Running? && !w.Returned?
  }

  predicate CallerHoldsLock(c: Caller) {
    c.CheckStop? || c.Pushing? || c.Unlocking?
  }

  ghost predicate LockOk(s: Pool) {
    && (forall w: nat :: w < |s.workers| ==> (HoldsLock(s.workers[w]) <==> s.owner == ByWorker(w)))
    && (forall c: nat :: c < |s.callers| ==> (CallerHoldsLock(s.callers[c]) <==> s.owner == ByCaller(c)))
    && (s.owner.ByWorker? ==> s.owner.w < |s.workers|)
    && (s.owner.ByCaller? ==> s.owner.c < |s.callers|)
  }

  /** What a worker's position says about the flag and the queue. */
  ghost predicate WorkerOk(s: Pool, w: nat)
    requires w < |s.workers|
  {
    match s.workers[w]
    case RereadStop => s.stop || s.tasks != []
    case RereadTasks => s.stop
    case GoingToSleep => s.tasks == []
    case Taking => s.tasks != []
    case Popping(t) => s.tasks != [] && t == s.tasks[0]
    case Returned => s.stop && s.tasks == []
    case _ => true
  }

  ghost predicate ShutdownOk(s: Pool) {
    && !s.fault
    && (s.stop <==> s.shutdown != NotStarted)
    && (s.rejected > 0 ==> s.stop)
    && (s.shutdown.Joining? ==> forall w :: 0 <= w < s.shutdown.next && w < |s.workers| ==> s.workers[w] == Returned)
    && (s.shutdown.Destroyed? ==> forall w :: 0 <= w < |s.workers| ==> s.workers[w] == Returned)
  }

  ghost predicate PositionsOk(s: Pool) {
    && ShutdownOk(s)
    && (forall w: nat :: w < |s.workers| ==> WorkerOk(s, w))
    && (forall c :: 0 <= c < |s.callers| && s.callers[c] == Pushing ==>
                      forall w :: 0 <= w < |s.workers| ==> s.workers[w] != Returned)
  }

  /** Tasks leave the queue in the order they entered it. */
  ghost predicate QueueOk(s: Pool) {
    && |s.takers| + |s.tasks| == s.accepted
    && (forall i :: 0 <= i < |s.tasks| ==> s.tasks[i] == |s.takers| + i)
  }

  /** Every task taken has been executed once, or its taker is about to execute it. */
  ghost predicate ExecutionOk(s: Pool) {
    && NoDup(s.executed)
    && (forall i :: 0 <= i < |s.executed| ==> s.executed[i] < |s.takers|)
    && (forall t: nat :: t < |s.takers| ==> t in s.executed || RunningBy(s, s.takers[t], t))
    && (forall w: nat :: w < |s.workers| && s.workers[w].Running? ==>
          var t := s.workers[w].task; t < |s.takers| && s.takers[t] == w && t !in s.executed)
  }

  predicate RunningBy(s: Pool, w: nat, t: nat) {
    w < |s.workers| && s.workers[w] == Running(t)
  }

  function Notified(workers: seq<Worker>): nat {
    if workers == [] then 0
    else (if workers[0] == Acquiring(true) then 1 else 0) + Notified(workers[1..])
  }

  /** Callers that have pushed a task and not yet notified. */
  function ToNotify(callers: seq<Caller>): nat {
    if callers == [] then 0
    else (if callers[0].Unlocking? || callers[0].Notifying? then 1 else 0) + ToNotify(callers[1..])
  }

  /** While someone sleeps there is a notification, sent or still to be sent, for every queued
      task, except for one that the worker that holds the mutex is about to take. */
  ghost predicate WakeupsOk(s: Pool) {
    SomeoneSleeps(s.workers) ==>
      |s.tasks| <= Notified(s.workers) + ToNotify(s.callers) + if s.owner.ByWorker? then 1 else 0
  }

  /** A worker that read the flag before it was stored may be, or go, to sleep after. */
  predicate MayMissShutdown(w: Worker) {
    w.ReadTasks? || w.GoingToSleep? || w.Asleep?
  }

  ghost predicate AtMostOneMisses(s: Pool) {
    s.shutdown.Joining? || s.shutdown.Destroyed? ==>
      forall v, w :: 0 <= v < w < |s.workers| ==> !MayMissShutdown(s.workers[v]) || !MayMissShutdown(s.workers[w])
  }

  ghost predicate Inv(s: Pool) {
    LockOk(s) && PositionsOk(s) && QueueOk(s) && ExecutionOk(s) && WakeupsOk(s) && AtMostOneMisses(s)
  }

  lemma InitInv(workers: nat, callers: nat)
    ensures Inv(Init(workers, callers))
  {
  }

  lemma LockWorker(s: Pool, w: nat)
    requires LockOk(s) && w < |s.workers|
    ensures LockOk(WorkerTurn(s, w))
  {
    var s' := WorkerTurn(s, w);
    assert HoldsLock(s.workers[w]) <==> s.owner == ByWorker(w);
    assert s'.callers == s.callers && s'.workers == s.workers[w := s'.workers[w]];
    assert HoldsLock(s'.workers[w]) <==> s'.owner == ByWorker(w);
    assert s'.owner == s.owner || s.owner == ByWorker(w) || s.owner == Free;
    assert s'.owner == s.owner || s'.owner == ByWorker(w) || s'.owner == Free;
    hide WorkerTurn, LockOk;
    LockMoves(s, s', w);
  }

  /** The mutex stays with its owner, is taken by worker w or is given up by it. */
  lemma LockMoves(s: Pool, s': Pool, w: nat)
    requires LockOk(s) && w < |s.workers| == |s'.workers|
    requires s'.callers == s.callers && s'.workers == s.workers[w := s'.workers[w]]
    requires HoldsLock(s'.workers[w]) <==> s'.owner == ByWorker(w)
    requires s'.owner == s.owner || s.owner == ByWorker(w) || s.owner == Free
    requires s'.owner == s.owner || s'.owner == ByWorker(w) || s'.owner == Free
    ensures LockOk(s')
  {
    hide HoldsLock, CallerHoldsLock;
  }

  lemma LockNotify(s: Pool, c: nat, wakes: nat)
    requires LockOk(s) && c < |s.callers| && s.callers[c].Notifying?
    ensures LockOk(CallerTurn(s, c, wakes))
  {
    hide SomeoneSleeps;
    var woken := if wakes < |s.workers| && s.workers[wakes] == Asleep then At(s, wakes, Acquiring(true)) else s;
    assert LockOk(woken);
    assert LockOk(woken.(callers := s.callers[c := Idle]));
    assert LockOk(s.(callers := s.callers[c := Idle]));
  }

  lemma LockCaller(s: Pool, c: nat, wakes: nat)
    requires LockOk(s) && c < |s.callers|
    ensures LockOk(CallerTurn(s, c, wakes))
  {
    if s.callers[c].Notifying? {
      LockNotify(s, c, wakes);
    } else {
      assert CallerTurn(s, c, wakes).workers == s.workers;
      hide HoldsLock, SomeoneSleeps;
    }
  }

  lemma LockStep(s: Pool, e: Event)
    requires LockOk(s)
    ensures LockOk(Step(s, e))
  {
    match e
    case WorkerStep(w) => if w < |s.workers| { LockWorker(s, w); }
    case CallerStep(c, wakes) => if c < |s.callers| { LockCaller(s, c, wakes); }
    case DestructorStep =>
    case SpuriousWakeup(w) =>
  }

  lemma PositionsWorker(s: Pool, w: nat)
    requires LockOk(s) && PositionsOk(s) && w < |s.workers|
    ensures PositionsOk(WorkerTurn(s, w))
  {
    var s' := WorkerTurn(s, w);
    assert ShutdownOk(s') by {
      assert WorkerOk(s, w);
    }
    forall v: nat | v < |s'.workers|
      ensures WorkerOk(s', v)
    {
      assert WorkerOk(s, w) && WorkerOk(s, v);
    }
  }

  lemma PositionsCaller(s: Pool, c: nat, wakes: nat)
    requires LockOk(s) && PositionsOk(s) && c < |s.callers|
    ensures PositionsOk(CallerTurn(s, c, wakes))
  {
    var s' := CallerTurn(s, c, wakes);
    assert ShutdownOk(s');
    if !s.stop {
      forall v: nat | v < |s.workers|
        ensures s.workers[v] != Returned
      {
        assert WorkerOk(s, v);
      }
    }
    forall v: nat | v < |s'.workers|
      ensures WorkerOk(s', v)
    {
      assert WorkerOk(s, v);
    }
  }

  lemma PositionsDestructor(s: Pool)
    requires PositionsOk(s)
    ensures PositionsOk(DestructorTurn(s))
  {
    var s' := DestructorTurn(s);
    assert ShutdownOk(s');
    forall v: nat | v < |s'.workers|
      ensures WorkerOk(s', v)
    {
      assert WorkerOk(s, v);
    }
  }

  lemma PositionsStep(s: Pool, e: Event)
    requires LockOk(s) && PositionsOk(s)
    ensures PositionsOk(Step(s, e))
  {
    match e
    case WorkerStep(w) => if w < |s.workers| { PositionsWorker(s, w); }
    case CallerStep(c, wakes) => if c < |s.callers| { PositionsCaller(s, c, wakes); }
    case DestructorStep => PositionsDestructor(s);
    case SpuriousWakeup(w) =>
      forall v: nat | v < |Step(s, e).workers|
        ensures WorkerOk(Step(s, e), v)
      {
        assert WorkerOk(s, v);
      }
  }

  lemma QueueStep(s: Pool, e: Event)
    requires QueueOk(s)
    ensures QueueOk(Step(s, e))
  {
    var s' := Step(s, e);
    if e.WorkerStep? && e.w < |s.workers| && s.workers[e.w].Popping? && s.tasks != [] {
      assert |s'.takers| == |s.takers| + 1 && s'.tasks == s.tasks[1..] && s'.accepted == s.accepted;
      hide Step, SomeoneSleeps, WakeAll;
    } else if e.CallerStep? && e.c < |s.callers| && s.callers[e.c].Pushing? {
      assert s'.takers == s.takers && s'.tasks == s.tasks + [s.accepted] && s'.accepted == s.accepted + 1;
      hide Step, SomeoneSleeps, WakeAll;
    } else {
      hide QueueOk, SomeoneSleeps, WakeAll;
      assert s'.takers == s.takers && s'.tasks == s.tasks && s'.accepted == s.accepted;
    }
  }

  lemma ExecutionSame(s: Pool, s': Pool)
    requires ExecutionOk(s) && s'.takers == s.takers && s'.executed == s.executed
    requires |s'.workers| == |s.workers|
    requires forall w :: 0 <= w < |s.workers| && s.workers[w] != s'.workers[w] ==>
               !s.workers[w].Running? && !s'.workers[w].Running?
    ensures ExecutionOk(s')
  {
    forall t: nat | t < |s'.takers|
      ensures t in s'.executed || RunningBy(s', s'.takers[t], t)
    {
      assert t in s.executed || RunningBy(s, s.takers[t], t);
    }
  }

  lemma ExecutionTake(s: Pool, w: nat)
    requires LockOk(s) && PositionsOk(s) && QueueOk(s) && ExecutionOk(s)
    requires w < |s.workers| && s.workers[w].Popping?
    ensures ExecutionOk(WorkerTurn(s, w))
  {
    var s' := WorkerTurn(s, w);
    var t := s.workers[w].task;
    assert WorkerOk(s, w) && t == |s.takers|;
    forall u: nat | u < |s'.takers|
      ensures u in s'.executed || RunningBy(s', s'.takers[u], u)
    {
      if u < t {
        assert u in s.executed || RunningBy(s, s.takers[u], u);
      }
    }
    assert t !in s.executed;
  }

  lemma ExecutionRun(s: Pool, w: nat)
    requires ExecutionOk(s)
    requires w < |s.workers| && s.workers[w].Running?
    ensures ExecutionOk(WorkerTurn(s, w))
  {
    var s' := WorkerTurn(s, w);
    var t := s.workers[w].task;
    assert s'.executed[|s.executed|] == t;
    forall u: nat | u < |s'.takers|
      ensures u in s'.executed || RunningBy(s', s'.takers[u], u)
    {
      assert u in s.executed || RunningBy(s, s.takers[u], u);
      if u != t && u !in s.executed {
        assert s.takers[u] != w;
      }
    }
  }

  lemma ExecutionStep(s: Pool, e: Event)
    requires LockOk(s) && PositionsOk(s) && QueueOk(s) && ExecutionOk(s)
    ensures ExecutionOk(Step(s, e))
  {
    if e.WorkerStep? && e.w < |s.workers| && s.workers[e.w].Popping? {
      ExecutionTake(s, e.w);
    } else if e.WorkerStep? && e.w < |s.workers| && s.workers[e.w].Running? {
      ExecutionRun(s, e.w);
    } else {
      hide ExecutionOk, LockOk, PositionsOk, QueueOk;
      ExecutionSame(s, Step(s, e));
    }
  }

  lemma {:induction false} NotifiedUpdate(workers: seq<Worker>, w: nat, at: Worker)
    requires w < |workers|
    ensures Notified(workers[w := at]) + (if workers[w] == Acquiring(true) then 1 else 0)
         == Notified(workers) + (if at == Acquiring(true) then 1 else 0)
    decreases |workers|
  {
    if w > 0 {
      NotifiedUpdate(workers[1..], w - 1, at);
      assert workers[w := at][1..] == workers[1..][w - 1 := at];
    } else {
      assert workers[w := at][1..] == workers[1..];
    }
  }

  lemma {:induction false} ToNotifyUpdate(callers: seq<Caller>, c: nat, at: Caller)
    requires c < |callers|
    ensures ToNotify(callers[c := at]) + (if callers[c].Unlocking? || callers[c].Notifying? then 1 else 0)
         == ToNotify(callers) + (if at.Unlocking? || at.Notifying? then 1 else 0)
    decreases |callers|
  {
    if c > 0 {
      ToNotifyUpdate(callers[1..], c - 1, at);
      assert callers[c := at][1..] == callers[1..][c - 1 := at];
    } else {
      assert callers[c := at][1..] == callers[1..];
    }
  }

  lemma WakeupsWorker(s: Pool, w: nat)
    requires LockOk(s) && PositionsOk(s) && WakeupsOk(s) && w < |s.workers|
    ensures WakeupsOk(WorkerTurn(s, w))
  {
    var s' := WorkerTurn(s, w);
    assert WorkerOk(s, w);
    NotifiedUpdate(s.workers, w, s'.workers[w]);
    if SomeoneSleeps(s'.workers) && !s.workers[w].GoingToSleep? {
      var v :| 0 <= v < |s'.workers| && s'.workers[v] == Asleep;
      assert s.workers[v] == Asleep;
    }
  }

  lemma WakeupsCaller(s: Pool, c: nat, wakes: nat)
    requires LockOk(s) && PositionsOk(s) && WakeupsOk(s) && c < |s.callers|
    ensures WakeupsOk(CallerTurn(s, c, wakes))
  {
    var s' := CallerTurn(s, c, wakes);
    ToNotifyUpdate(s.callers, c, s'.callers[c]);
    if wakes < |s.workers| {
      NotifiedUpdate(s.workers, wakes, s'.workers[wakes]);
    }
    if SomeoneSleeps(s'.workers) {
      var v :| 0 <= v < |s'.workers| && s'.workers[v] == Asleep;
      assert s.workers[v] == Asleep;
    }
  }

  lemma WakeupsStep(s: Pool, e: Event)
    requires LockOk(s) && PositionsOk(s) && WakeupsOk(s)
    ensures WakeupsOk(Step(s, e))
  {
    match e
    case WorkerStep(w) => if w < |s.workers| { WakeupsWorker(s, w); }
    case CallerStep(c, wakes) => if c < |s.callers| { WakeupsCaller(s, c, wakes); }
    case DestructorStep =>
    case SpuriousWakeup(w) =>
      if w < |s.workers| && s.workers[w] == Asleep {
        NotifiedUpdate(s.workers, w, Acquiring(false));
      }
  }

  lemma MissesWorker(s: Pool, w: nat)
    requires PositionsOk(s) && AtMostOneMisses(s) && w < |s.workers|
    ensures AtMostOneMisses(WorkerTurn(s, w))
  {
    var s' := WorkerTurn(s, w);
    assert ShutdownOk(s);
    if s.shutdown.Joining? || s.shutdown.Destroyed? {
      assert MayMissShutdown(s'.workers[w]) ==> MayMissShutdown(s.workers[w]);
    }
  }

  lemma MissesNotifyAll(s: Pool)
    requires LockOk(s)
    ensures AtMostOneMisses(DestructorTurn(s).(shutdown := Joining(0))) || s.shutdown != StopStored
  {
    forall v, w | 0 <= v < w < |s.workers|
      ensures !MayMissShutdown(WakeAll(s.workers)[v]) || !MayMissShutdown(WakeAll(s.workers)[w])
    {
      assert HoldsLock(s.workers[v]) ==> s.owner == ByWorker(v);
      assert HoldsLock(s.workers[w]) ==> s.owner == ByWorker(w);
    }
  }

  lemma MissesStep(s: Pool, e: Event)
    requires LockOk(s) && PositionsOk(s) && AtMostOneMisses(s)
    ensures AtMostOneMisses(Step(s, e))
  {
    match e
    case WorkerStep(w) => if w < |s.workers| { MissesWorker(s, w); }
    case CallerStep(c, wakes) =>
    case DestructorStep => if s.shutdown == StopStored { MissesNotifyAll(s); }
    case SpuriousWakeup(w) =>
  }

  lemma StepInv(s: Pool, e: Event)
    requires Inv(s)
    ensures Inv(Step(s, e))
  {
    hide LockOk, PositionsOk, QueueOk, ExecutionOk, WakeupsOk, AtMostOneMisses, Step;
    LockStep(s, e);
    PositionsStep(s, e);
    QueueStep(s, e);
    ExecutionStep(s, e);
    WakeupsStep(s, e);
    MissesStep(s, e);
  }

  lemma {:induction false} RunInv(s: Pool, events: seq<Event>)
    requires Inv(s)
    ensures Inv(Run(s, events))
    decreases |events|
  {
    if events != [] {
      hide Inv, Step;
      RunInv(s, events[..|events| - 1]);
      StepInv(Run(s, events[..|events| - 1]), events[|events| - 1]);
    }
  }

  lemma ReachedInv(workers: nat, callers: nat, events: seq<Event>)
    ensures Inv(Reached(workers, callers, events))
  {
    InitInv(workers, callers);
    RunInv(Init(workers, callers), events);
  }

  lemma {:induction false} RunConcat(s: Pool, before: seq<Event>, after: seq<Event>)
    ensures Run(s, before + after) == Run(Run(s, before), after)
    decreases |after|
  {
    if after == [] {
      assert before + after == before;
    } else {
      assert (before + after)[..|before + after| - 1] == before + after[..|after| - 1];
      RunConcat(s, before, after[..|after| - 1]);
    }
  }

  // -- Every accepted task is executed exactly once ----------------------------------------------

  ghost predicate AllReturned(s: Pool) {
    forall w :: 0 <= w < |s.workers| ==> s.workers[w] == Returned
  }

  ghost predicate ExecutedOnce(s: Pool) {
    && |s.executed| == s.accepted
    && forall t: nat :: t < s.accepted ==> multiset(s.executed)[t] == 1
  }

  lemma {:induction false} NoDupCount(l: seq<nat>, t: nat)
    requires NoDup(l)
    ensures multiset(l)[t] == if t in l then 1 else 0
    decreases |l|
  {
    if l != [] {
      assert l == [l[0]] + l[1..];
      NoDupCount(l[1..], t);
      assert l[0] !in l[1..];
    }
  }

  /** Names below n, each once, are n names. */
  lemma {:induction false} NoDupLength(l: seq<nat>, n: nat)
    requires NoDup(l) && (forall i :: 0 <= i < |l| ==> l[i] < n) && (forall t: nat :: t < n ==> t in l)
    ensures |l| == n
    decreases n
  {
    if n == 0 {
    } else {
      assert n - 1 in l;
      var i :| 0 <= i < |l| && l[i] == n - 1;
      var rest := l[..i] + l[i + 1..];
      forall t: nat | t < n - 1
        ensures t in rest
      {
        assert t in l;
        var j :| 0 <= j < |l| && l[j] == t;
        assert if j < i then rest[j] == t else rest[j - 1] == t;
      }
      NoDupLength(rest, n - 1);
    }
  }

  /** In every run of a pool that has a worker: once all workers have returned, each task that
      `enqueue` accepted has been executed exactly once, and none is left. */
  lemma ReturnedMeansExecutedOnce(workers: nat, callers: nat, events: seq<Event>)
    requires workers >= 1 && AllReturned(Reached(workers, callers, events))
    ensures ExecutedOnce(Reached(workers, callers, events))
    ensures Reached(workers, callers, events).tasks == []
  {
    var s := Reached(workers, callers, events);
    ReachedInv(workers, callers, events);
    assert WorkerOk(s, 0);
    forall t: nat | t < s.accepted
      ensures t in s.executed && multiset(s.executed)[t] == 1
    {
      assert t in s.executed || RunningBy(s, s.takers[t], t);
      NoDupCount(s.executed, t);
    }
    NoDupLength(s.executed, s.accepted);
  }

  /** The destructor joins every worker, so the same holds once it has finished. */
  lemma DestroyedMeansExecutedOnce(workers: nat, callers: nat, events: seq<Event>)
    requires workers >= 1 && Reached(workers, callers, events).shutdown == Destroyed
    ensures AllReturned(Reached(workers, callers, events)) && ExecutedOnce(Reached(workers, callers, events))
  {
    ReachedInv(workers, callers, events);
    ReturnedMeansExecutedOnce(workers, callers, events);
  }

  lemma ReturnedStep(s: Pool, e: Event, w: nat)
    requires Inv(s) && w < |s.workers| && s.workers[w] == Returned
    ensures var s' := Step(s, e);
            |s'.workers| == |s.workers| && s'.workers[w] == Returned && s'.accepted == s.accepted && s'.tasks == []
  {
    hide LockOk, QueueOk, ExecutionOk, WakeupsOk, AtMostOneMisses;
    assert WorkerOk(s, w);
  }

  lemma {:induction false} ReturnedRun(s: Pool, w: nat, after: seq<Event>)
    requires Inv(s) && w < |s.workers| && s.workers[w] == Returned
    ensures var s' := Run(s, after);
            && Inv(s') && |s'.workers| == |s.workers| && s'.workers[w] == Returned
            && s'.accepted == s.accepted && s'.tasks == []
    decreases |after|
  {
    if after == [] {
      assert WorkerOk(s, w);
    } else {
      hide Inv, Step;
      ReturnedRun(s, w, after[..|after| - 1]);
      var s' := Run(s, after[..|after| - 1]);
      StepInv(s', after[|after| - 1]);
      ReturnedStep(s', after[|after| - 1], w);
    }
  }

  /** From the moment any worker has returned, the queue is empty and stays empty, whatever the
      callers go on to do: no call that passed its check of the flag is still about to push. */
  lemma DrainedForever(workers: nat, callers: nat, before: seq<Event>, after: seq<Event>, w: nat)
    requires w < workers && Reached(workers, callers, before).workers[w] == Returned
    ensures var s, s' := Reached(workers, callers, before), Reached(workers, callers, before + after);
            s.tasks == [] && s'.tasks == [] && s'.accepted == s.accepted && s'.workers[w] == Returned
  {
    ReachedInv(workers, callers, before);
    RunConcat(Init(workers, callers), before, after);
    ReturnedRun(Reached(workers, callers, before), w, []);
    ReturnedRun(Reached(workers, callers, before), w, after);
  }

  lemma OnlyTaskPushed(callers: nat)
    requires callers >= 1
    ensures var e, s := CallerStep(0, 0), Init(0, callers);
            Step(Run(s, [e, e, e]), e) ==
            s.(callers := s.callers[0 := Unlocking], owner := ByCaller(0), tasks := [0], accepted := 1)
  {
    var e, s := CallerStep(0, 0), Init(0, callers);
    RunSteps3(s, e, e, e);
    assert s.callers[0 := Entering][0 := CheckStop][0 := Pushing][0 := Unlocking] == s.callers[0 := Unlocking];
  }

  lemma DestroyedAtOnce(s: Pool)
    requires s.workers == [] && s.shutdown == NotStarted
    ensures var d := DestructorStep; Run(s, [d, d, d]) == s.(stop := true, shutdown := Destroyed)
  {
    var d := DestructorStep;
    RunSteps3(s, d, d, d);
    assert WakeAll(s.workers) == s.workers;
  }

  /** A pool of no workers strands what it accepts, and its destructor does not notice. */
  lemma NoWorkersStrand(callers: nat)
    requires callers >= 1
    ensures exists events :: var s := Reached(0, callers, events);
              s.shutdown == Destroyed && AllReturned(s) && s.accepted == 1 && s.executed == [] && s.tasks == [0]
  {
    var e, d := CallerStep(0, 0), DestructorStep;
    var s0 := Init(0, callers);
    OnlyTaskPushed(callers);
    hide Step;
    var s4 := Step(Run(s0, [e, e, e]), e);
    assert ([e, e, e] + [e])[..3] == [e, e, e] && Run(s0, [e, e, e] + [e]) == s4;
    DestroyedAtOnce(s4);
    RunConcat(s0, [e, e, e] + [e], [d, d, d]);
    assert Reached(0, callers, [e, e, e] + [e] + [d, d, d]).shutdown == Destroyed;
  }

  lemma {:induction false} NoCallersNothing(workers: nat, events: seq<Event>)
    ensures Reached(workers, 0, events).accepted == 0
    decreases |events|
  {
    if events != [] {
      NoCallersNothing(workers, events[..|events| - 1]);
    }
  }

  ghost predicate AlwaysExecutedOnce(workers: nat, callers: nat) {
    forall events :: Reached(workers, callers, events).shutdown == Destroyed ==>
      ExecutedOnce(Reached(workers, callers, events))
  }

  /** Exactly the pools whose destructor may be trusted: those that have a worker, and those that
      nobody calls. */
  lemma ExecutedOnceExactly(workers: nat, callers: nat)
    ensures AlwaysExecutedOnce(workers, callers) <==> workers >= 1 || callers == 0
  {
    if workers >= 1 {
      forall events | Reached(workers, callers, events).shutdown == Destroyed
        ensures ExecutedOnce(Reached(workers, callers, events))
      {
        DestroyedMeansExecutedOnce(workers, callers, events);
      }
    } else if callers == 0 {
      forall events
        ensures ExecutedOnce(Reached(workers, callers, events))
      {
        NoCallersNothing(workers, events);
        ReachedInv(workers, callers, events);
        NoDupLength(Reached(workers, callers, events).executed, 0);
      }
    } else {
      NoWorkersStrand(callers);
    }
  }

  lemma RunSteps3(s: Pool, a: Event, b: Event, c: Event)
    ensures Run(s, [a, b, c]) == Step(Step(Step(s, a), b), c)
  {
    hide Step;
    assert [a][..0] == [] && Run(s, [a]) == Step(s, a);
    assert [a, b][..1] == [a] && Run(s, [a, b]) == Step(Run(s, [a]), b);
    assert [a, b, c][..2] == [a, b];
  }

  // -- Calls that the flag comes too late for -------------------------------------------------------

  ghost predicate SomeonePushes(s: Pool) {
    exists c :: 0 <= c < |s.callers| && s.callers[c].Pushing?
  }

  /** The flag has been stored; at most n tasks will have been accepted. */
  ghost predicate AcceptsUpTo(s: Pool, n: nat) {
    s.stop && LockOk(s) && s.accepted + (if SomeonePushes(s) then 1 else 0) <= n
  }

  lemma OnePushes(s: Pool, c: nat, d: nat)
    requires LockOk(s) && c < |s.callers| && d < |s.callers| && s.callers[c].Pushing? && s.callers[d].Pushing?
    ensures c == d
  {
    assert CallerHoldsLock(s.callers[c]) && CallerHoldsLock(s.callers[d]);
    assert s.owner == ByCaller(c) && s.owner == ByCaller(d);
  }

  lemma CallerAccepts(s: Pool, c: nat, wakes: nat)
    requires s.stop && c < |s.callers|
    ensures var s' := CallerTurn(s, c, wakes);
            && s'.stop && |s'.callers| == |s.callers| && !s'.callers[c].Pushing?
            && (forall d :: 0 <= d < |s.callers| && d != c ==> s'.callers[d] == s.callers[d])
            && s'.accepted == s.accepted + if s.callers[c].Pushing? then 1 else 0
  {
    hide SomeoneSleeps;
  }

  lemma AcceptsUpToCaller(s: Pool, c: nat, wakes: nat, n: nat)
    requires AcceptsUpTo(s, n) && c < |s.callers|
    ensures var s' := CallerTurn(s, c, wakes);
            s'.stop && s'.accepted + (if SomeonePushes(s') then 1 else 0) <= n
  {
    CallerAccepts(s, c, wakes);
    hide LockOk, CallerTurn;
    if s.callers[c].Pushing? {
      forall d | 0 <= d < |s.callers|
        ensures !CallerTurn(s, c, wakes).callers[d].Pushing?
      {
        if s.callers[d].Pushing? {
          OnePushes(s, c, d);
        }
      }
    }
  }

  lemma AcceptsUpToStep(s: Pool, e: Event, n: nat)
    requires AcceptsUpTo(s, n)
    ensures AcceptsUpTo(Step(s, e), n)
  {
    LockStep(s, e);
    hide LockOk;
    if e.CallerStep? && e.c < |s.callers| {
      hide CallerTurn, SomeonePushes;
      AcceptsUpToCaller(s, e.c, e.wakes, n);
    } else {
      hide SomeoneSleeps;
      var s' := Step(s, e);
      assert s'.callers == s.callers && s'.accepted == s.accepted && s'.stop;
    }
  }

  lemma {:induction false} AcceptsUpToRun(s: Pool, after: seq<Event>, n: nat)
    requires AcceptsUpTo(s, n)
    ensures AcceptsUpTo(Run(s, after), n)
    decreases |after|
  {
    if after != [] {
      hide AcceptsUpTo, Step;
      AcceptsUpToRun(s, after[..|after| - 1], n);
      AcceptsUpToStep(Run(s, after[..|after| - 1]), after[|after| - 1], n);
    }
  }

  lemma PusherIsAccepted(s: Pool, c: nat)
    requires c < |s.callers| && s.callers[c].Pushing?
    ensures CanAccept(s)
  {
    var e := CallerStep(c, 0);
    assert Step(s, e).accepted == s.accepted + 1;
    hide Step;
    assert [e][..0] == [] && Run(s, [e]) == Step(s, e);
  }

  /** Some call is accepted from here on. */
  ghost predicate CanAccept(s: Pool) {
    exists after :: Run(s, after).accepted > s.accepted
  }

  lemma AcceptsNoMore(s: Pool, n: nat)
    requires AcceptsUpTo(s, n)
    ensures forall after :: Run(s, after).accepted <= n
  {
    forall after
      ensures Run(s, after).accepted <= n
    {
      AcceptsUpToRun(s, after, n);
    }
  }

  /** Exactly when a call is accepted after the flag is stored: when, as it is stored, a caller has
      passed its check and not yet pushed. There is at most one such call. */
  lemma AcceptedAfterStop(workers: nat, callers: nat, before: seq<Event>)
    requires Reached(workers, callers, before).shutdown == NotStarted
    ensures var s := Reached(workers, callers, before);
            var stored := Step(s, DestructorStep);
            && !s.stop && stored.stop && stored.accepted == s.accepted
            && (CanAccept(stored) <==> SomeonePushes(s))
            && (forall after :: Run(stored, after).accepted <= stored.accepted + 1)
  {
    var s := Reached(workers, callers, before);
    var stored := Step(s, DestructorStep);
    ReachedInv(workers, callers, before);
    LockStep(s, DestructorStep);
    assert !s.stop && stored == s.(stop := true, shutdown := StopStored);
    hide Run, Step, LockOk, Inv;
    if SomeonePushes(s) {
      var c :| 0 <= c < |s.callers| && s.callers[c].Pushing?;
      PusherIsAccepted(stored, c);
      AcceptsNoMore(stored, s.accepted + 1);
    } else {
      AcceptsNoMore(stored, s.accepted);
    }
  }

  // -- Wake-ups -----------------------------------------------------------------------------------

  function Alone(s: Pool, w: nat, n: nat): Pool
    requires w < |s.workers|
    decreases n
  {
    if n == 0 then s else Alone(WorkerTurn(s, w), w, n - 1)
  }

  /** Left to itself, and without releasing the mutex before, the worker takes a task. */
  ghost predicate WillTake(s: Pool, w: nat)
    requires w < |s.workers|
  {
    exists n: nat :: n <= 6 && Alone(s, w, n).takers == s.takers + [w]
  }

  function ToTake(w: Worker): nat {
    match w
    case Popping(_) => 1
    case Taking => 2
    case RereadTasks => 3
    case RereadStop => 4
    case ReadTasks => 5
    case _ => 6
  }

  lemma {:induction false} HolderTakes(s: Pool, w: nat) returns (n: nat)
    requires w < |s.workers| && HoldsLock(s.workers[w]) && WorkerOk(s, w) && s.tasks != []
    ensures n <= ToTake(s.workers[w]) && Alone(s, w, n).takers == s.takers + [w]
    decreases ToTake(s.workers[w])
  {
    var s' := WorkerTurn(s, w);
    if s.workers[w].Popping? {
      assert Alone(s, w, 1) == Alone(s', w, 0);
      n := 1;
    } else {
      n := HolderTakes(s', w);
      n := n + 1;
    }
  }

  /** How many steps the destructor has still to make if it need not wait. */
  function StepsToDestroy(s: Pool): nat {
    match s.shutdown
    case NotStarted => |s.workers| + 3
    case StopStored => |s.workers| + 2
    case Joining(k) => 1 + if k < |s.workers| then |s.workers| - k else 0
    case Destroyed => 0
  }

  lemma DestructorAdvances(s: Pool)
    requires AllReturned(s) && s.shutdown != Destroyed
    ensures var s' := Step(s, DestructorStep); AllReturned(s') && StepsToDestroy(s') == StepsToDestroy(s) - 1
  {
  }

  /** Once all workers have returned the destructor does not wait: its own steps, one for each worker
      and at most three more, finish it. */
  lemma {:induction false} DestructorFinishes(s: Pool)
    requires AllReturned(s)
    ensures Run(s, seq(StepsToDestroy(s), _ => DestructorStep)).shutdown == Destroyed
    decreases StepsToDestroy(s)
  {
    var n := StepsToDestroy(s);
    if s.shutdown != Destroyed {
      var s', d := Step(s, DestructorStep), [DestructorStep];
      DestructorAdvances(s);
      DestructorFinishes(s');
      hide Step, StepsToDestroy;
      assert d[..0] == [] && Run(s, d) == s';
      RunConcat(s, d, seq(n - 1, _ => DestructorStep));
      assert d + seq(n - 1, _ => DestructorStep) == seq(n, _ => DestructorStep);
    }
  }

  /** And a worker that finds the flag set and the queue empty returns. */
  lemma StoppedWorkerReturns(s: Pool, w: nat)
    requires w < |s.workers| && s.workers[w].Acquiring? && s.owner == Free && s.stop && s.tasks == []
    ensures Alone(s, w, 4) == At(s, w, Returned)
  {
    var s1 := WorkerTurn(s, w);
    var s2 := WorkerTurn(s1, w);
    var s3 := WorkerTurn(s2, w);
    assert WorkerTurn(s3, w) == At(s, w, Returned);
    hide WorkerTurn;
    assert Alone(s3, w, 1) == Alone(WorkerTurn(s3, w), w, 0);
    assert Alone(s, w, 4) == Alone(s1, w, 3) == Alone(s2, w, 2) == Alone(s3, w, 1);
  }

  /** No lost wake-up, in every reachable state, with barging and spurious wake-ups: while a
      worker sleeps, the queued tasks are at most the workers notified that have not resumed plus
      the notifications still to be sent, and one more if a worker is inside the mutex. */
  lemma NoLostWakeup(workers: nat, callers: nat, events: seq<Event>)
    requires SomeoneSleeps(Reached(workers, callers, events).workers)
    ensures var s := Reached(workers, callers, events);
            && |s.tasks| <= Notified(s.workers) + ToNotify(s.callers) + (if s.owner.ByWorker? then 1 else 0)
            && (forall w: nat :: w < workers && s.owner == ByWorker(w) && s.tasks != [] ==> WillTake(s, w))
  {
    var s := Reached(workers, callers, events);
    ReachedInv(workers, callers, events);
    forall w: nat | w < workers && s.owner == ByWorker(w) && s.tasks != []
      ensures WillTake(s, w)
    {
      assert HoldsLock(s.workers[w]);
      assert WorkerOk(s, w);
      var n := HolderTakes(s, w);
    }
  }


  // -- The shutdown notification, which a worker can miss --------------------------------------------

  /** After `notify_all` at most one worker is, or will go, to sleep without seeing the flag. */
  lemma AtMostOneMissesShutdown(workers: nat, callers: nat, events: seq<Event>, v: nat, w: nat)
    requires var s := Reached(workers, callers, events);
             && v < workers && w < workers
             && (s.shutdown.Joining? || s.shutdown.Destroyed?)
             && s.workers[v] == Asleep && s.workers[w] == Asleep
    ensures v == w
  {
    ReachedInv(workers, callers, events);
  }

  /** About to sleep on a predicate it evaluated before the flag was stored. */
  predicate Misses(s: Pool, w: nat)
    requires w < |s.workers|
  {
    s.workers[w] == GoingToSleep || (s.workers[w] == ReadTasks && s.tasks == [])
  }

  /** The flag has been stored, all notified, and nobody is about to sleep. */
  ghost predicate NobodyMisses(s: Pool) {
    && s.stop
    && LockOk(s)
    && forall w: nat :: w < |s.workers| ==> !Misses(s, w) && s.workers[w] != Asleep
  }

  lemma NobodyMissesWorker(s: Pool, v: nat)
    requires NobodyMisses(s) && v < |s.workers|
    ensures var s' := WorkerTurn(s, v);
            s'.stop && forall w: nat :: w < |s'.workers| ==> !Misses(s', w) && s'.workers[w] != Asleep
  {
    var s' := WorkerTurn(s, v);
    assert forall w: nat :: w < |s.workers| && w != v && s.tasks != s'.tasks ==> !HoldsLock(s.workers[w]);
    hide LockOk;
    assert !Misses(s, v);
    forall w: nat | w < |s'.workers|
      ensures !Misses(s', w) && s'.workers[w] != Asleep
    {
      assert !Misses(s, w) && s.workers[w] != Asleep;
    }
  }

  lemma NobodyMissesStep(s: Pool, e: Event)
    requires NobodyMisses(s)
    ensures NobodyMisses(Step(s, e))
  {
    LockStep(s, e);
    hide LockOk;
    if e.WorkerStep? && e.w < |s.workers| {
      NobodyMissesWorker(s, e.w);
    } else {
      hide SomeoneSleeps;
      var s' := Step(s, e);
      forall w: nat | w < |s'.workers|
        ensures !Misses(s', w) && s'.workers[w] != Asleep
      {
        assert !Misses(s, w) && s.workers[w] != Asleep;
      }
    }
  }

  lemma {:induction false} NobodyMissesRun(s: Pool, after: seq<Event>)
    requires NobodyMisses(s)
    ensures NobodyMisses(Run(s, after))
    decreases |after|
  {
    if after != [] {
      hide NobodyMisses, Step;
      NobodyMissesRun(s, after[..|after| - 1]);
      NobodyMissesStep(Run(s, after[..|after| - 1]), after[|after| - 1]);
    }
  }

  ghost predicate CanSleepAfter(s: Pool, w: nat)
    requires w < |s.workers|
  {
    exists after :: Run(s, after).workers[w] == Asleep
  }

  /** Exactly when a worker can be asleep after `notify_all`: when, as all are notified, it is in
      between finding the queue empty and going to sleep. */
  lemma ShutdownMissedExactly(workers: nat, callers: nat, before: seq<Event>)
    requires Reached(workers, callers, before).shutdown == StopStored
    ensures var s := Reached(workers, callers, before);
            (exists w: nat :: w < workers && CanSleepAfter(Step(s, DestructorStep), w)) <==>
            (exists w: nat :: w < workers && Misses(s, w))
  {
    var s := Reached(workers, callers, before);
    var s' := Step(s, DestructorStep);
    ReachedInv(workers, callers, before);
    if w: nat :| w < workers && Misses(s, w) {
      GoesToSleep(s', w);
    } else {
      LockStep(s, DestructorStep);
      forall w: nat | w < workers
        ensures !Misses(s', w) && s'.workers[w] != Asleep
      {
        assert !Misses(s, w);
      }
      forall w: nat | w < workers
        ensures !CanSleepAfter(s', w)
      {
        NobodySleeps(s', w);
      }
    }
  }

  lemma NobodySleeps(s: Pool, w: nat)
    requires NobodyMisses(s) && w < |s.workers|
    ensures !CanSleepAfter(s, w)
  {
    forall after
      ensures Run(s, after).workers[w] != Asleep
    {
      NobodyMissesRun(s, after);
      assert !Misses(Run(s, after), w);
    }
  }

  lemma GoesToSleep(s: Pool, w: nat)
    requires w < |s.workers| && Misses(s, w)
    ensures CanSleepAfter(s, w)
  {
    var e := WorkerStep(w);
    RunSteps3(s, e, e, e);
    assert Run(s, [e, e, e]).workers[w] == Asleep;
  }

  /** A worker that sleeps with nobody left to wake it. */
  ghost predicate Forgotten(s: Pool, w: nat) {
    && w < |s.workers| && s.workers[w] == Asleep
    && s.stop && !s.shutdown.StopStored? && !s.shutdown.NotStarted? && !s.shutdown.Destroyed?
    && (s.shutdown.Joining? ==> s.shutdown.next <= w)
    && forall c :: 0 <= c < |s.callers| ==>
         !s.callers[c].Pushing? && !s.callers[c].Unlocking? && !s.callers[c].Notifying?
  }

  lemma ForgottenStep(s: Pool, w: nat, e: Event)
    requires Forgotten(s, w) && e != SpuriousWakeup(w)
    ensures Forgotten(Step(s, e), w)
  {
    match e
    case WorkerStep(v) =>
    case CallerStep(c, wakes) =>
      if c < |s.callers| {
        hide SomeoneSleeps;
        assert Step(s, e).callers[c] in {Idle, Entering, CheckStop};
      }
    case DestructorStep =>
    case SpuriousWakeup(v) =>
  }

  lemma {:induction false} ForgottenRun(s: Pool, w: nat, after: seq<Event>)
    requires Forgotten(s, w) && SpuriousWakeup(w) !in after
    ensures Forgotten(Run(s, after), w)
    decreases |after|
  {
    if after != [] {
      hide Forgotten, Step;
      var before, last := after[..|after| - 1], after[|after| - 1];
      assert last in after && SpuriousWakeup(w) !in before;
      ForgottenRun(s, w, before);
      ForgottenStep(Run(s, before), w, last);
    }
  }

  /** Worker w sleeps, and the destructor waits for it, for ever but for a spurious wake-up. */
  ghost predicate Hangs(s: Pool, w: nat) {
    && w < |s.workers|
    && forall after :: SpuriousWakeup(w) !in after ==>
         Run(s, after).workers[w] == Asleep && Run(s, after).shutdown != Destroyed
  }

  ghost predicate CanHang(s: Pool) {
    exists after, w: nat :: Hangs(Run(s, after), w)
  }

  lemma ForgottenHangs(s: Pool, w: nat)
    requires Forgotten(s, w)
    ensures Hangs(s, w)
  {
    forall after | SpuriousWakeup(w) !in after
      ensures Run(s, after).workers[w] == Asleep && Run(s, after).shutdown != Destroyed
    {
      ForgottenRun(s, w, after);
    }
  }

  /** No caller holds the mutex from its push on. */
  ghost predicate NobodyPushed(s: Pool) {
    forall c :: 0 <= c < |s.callers| ==> !s.callers[c].Pushing? && !s.callers[c].Unlocking?
  }

  /** While nobody sleeps the first k callers can be done with their notifications, to no effect. */
  lemma {:induction false} NotifyNobody(s: Pool, k: nat) returns (events: seq<Event>, s': Pool)
    requires !SomeoneSleeps(s.workers) && NobodyPushed(s) && k <= |s.callers|
    ensures s' == Run(s, events) == s.(callers := s'.callers) && |s'.callers| == |s.callers| && NobodyPushed(s')
    ensures forall c :: 0 <= c < k ==> !s'.callers[c].Notifying?
    decreases k
  {
    if k == 0 {
      events, s' := [], s;
    } else {
      events, s' := NotifyNobody(s, k - 1);
      if s'.callers[k - 1].Notifying? {
        var t, e := s', CallerStep(k - 1, 0);
        assert (events + [e])[..|events|] == events;
        events := events + [e];
        s' := Step(t, e);
        assert s' == t.(callers := t.callers[k - 1 := Idle]);
      }
    }
  }

  lemma MissingSleeps(s: Pool, w: nat)
    requires w < |s.workers| && Misses(s, w)
    ensures var e := WorkerStep(w);
            var s' := Run(s, [e, e, e]);
            && s'.workers[w] == Asleep && s'.callers == s.callers
            && s'.shutdown == s.shutdown && s'.stop == s.stop
  {
    var e := WorkerStep(w);
    var asleep := At(s, w, Asleep).(owner := Free);
    assert Step(asleep, e) == asleep;
    if s.workers[w] == GoingToSleep {
      assert Step(s, e) == asleep;
    } else {
      assert Step(s, e) == At(s, w, GoingToSleep);
      assert At(At(s, w, GoingToSleep), w, Asleep) == At(s, w, Asleep);
      assert Step(At(s, w, GoingToSleep), e) == asleep;
    }
    hide Step, Run;
    RunSteps3(s, e, e, e);
  }

  lemma MissingIsForgotten(s: Pool, w: nat)
    requires w < |s.workers| && Misses(s, w) && LockOk(s) && s.stop && s.shutdown == Joining(0)
    requires !SomeoneSleeps(s.workers)
    ensures CanHang(s)
  {
    assert HoldsLock(s.workers[w]) && s.owner == ByWorker(w);
    assert forall c :: 0 <= c < |s.callers| ==> !CallerHoldsLock(s.callers[c]);
    hide LockOk, SomeoneSleeps;
    var events, t := NotifyNobody(s, |s.callers|);
    var e := WorkerStep(w);
    MissingSleeps(t, w);
    RunConcat(s, events, [e, e, e]);
    ForgottenHangs(Run(t, [e, e, e]), w);
    assert Hangs(Run(s, events + [e, e, e]), w);
  }

  /** Exactly when the destructor can come to wait for ever: when, as all are notified, a worker is
      in between finding the queue empty and going to sleep. */
  lemma HangsExactly(workers: nat, callers: nat, before: seq<Event>)
    requires Reached(workers, callers, before).shutdown == StopStored
    ensures var s := Reached(workers, callers, before);
            CanHang(Step(s, DestructorStep)) <==> (exists w: nat :: w < workers && Misses(s, w))
  {
    var s := Reached(workers, callers, before);
    var s' := Step(s, DestructorStep);
    ReachedInv(workers, callers, before);
    LockStep(s, DestructorStep);
    if w: nat :| w < workers && Misses(s, w) {
      assert Misses(s', w) && !SomeoneSleeps(s'.workers);
      MissingIsForgotten(s', w);
    } else {
      ShutdownMissedExactly(workers, callers, before);
      forall after, w: nat
        ensures !Hangs(Run(s', after), w)
      {
        if w < workers {
          assert !CanSleepAfter(s', w);
          assert Run(Run(s', after), []).workers[w] != Asleep;
        }
      }
    }
  }

  /** A pool of one worker can be left like that by its own destructor, which then waits forever
      to join: the flag is stored, and all notified, after the worker read the flag and before it
      sleeps. Only a spurious wake-up can end it. */
  lemma LostShutdown(after: seq<Event>)
    requires SpuriousWakeup(0) !in after
    ensures var s := Reached(1, 0, LOST_SHUTDOWN + after);
            s.workers[0] == Asleep && s.shutdown != Destroyed
  {
    var s, w, d := Init(1, 0), WorkerStep(0), DestructorStep;
    RunSteps3(s, w, w, d);
    RunSteps3(Run(s, [w, w, d]), d, w, w);
    RunConcat(s, [w, w, d], [d, w, w]);
    assert LOST_SHUTDOWN == [w, w, d] + [d, w, w];
    ForgottenRun(Run(s, LOST_SHUTDOWN), 0, after);
    RunConcat(s, LOST_SHUTDOWN, after);
  }

  const LOST_SHUTDOWN: seq<Event> :=
    [WorkerStep(0), WorkerStep(0), DestructorStep, DestructorStep, WorkerStep(0), WorkerStep(0)]

  // -- The object --------------------------------------------------------------------------------------

  /** The pool as an object: each method is one step of a thread, on the fields it shares. */
  class Threadpool {
    var tasks: seq<nat>
    var stop: bool
    var mutex: Owner
    var workers: seq<Worker>
    var callers: seq<Caller>
    var shutdown: Shutdown
    var accepted: nat // the next name, where the source has a closure
    ghost var takers: seq<nat>
    ghost var executed: seq<nat>
    ghost var rejected: nat

    ghost function Snapshot(): Pool
      reads this
    {
      Pool(tasks, stop, mutex, workers, callers, shutdown, accepted, takers, executed, rejected, false)
    }

    constructor (num: nat, threads: nat)
      ensures Snapshot() == Init(num, threads) && Inv(Snapshot())
    {
      tasks, stop, mutex, shutdown := [], false, Free, NotStarted;
      workers := seq(num, _ => Acquiring(false));
      callers := seq(threads, _ => Idle);
      accepted, takers, executed, rejected := 0, [], [], 0;
      new;
      InitInv(num, threads);
    }

    /** One step of `worker_loop`. The queue is never empty where it takes the front. */
    method WorkerStep(w: nat)
      requires Inv(Snapshot()) && w < |workers|
      modifies this
      ensures Inv(Snapshot()) && Snapshot() == WorkerTurn(old(Snapshot()), w)
    {
      StepInv(Snapshot(), Event.WorkerStep(w));
      assert WorkerOk(Snapshot(), w);
      hide Inv, WorkerOk;
      match workers[w] {
        case Acquiring(_) =>
          if mutex == Free {
            mutex := ByWorker(w);
            workers := workers[w := ReadStop];
          }
        case ReadStop =>
          if stop { workers := workers[w := RereadStop]; } else { workers := workers[w := ReadTasks]; }
        case ReadTasks =>
          if tasks == [] { workers := workers[w := GoingToSleep]; } else { workers := workers[w := RereadStop]; }
        case GoingToSleep =>
          mutex := Free;
          workers := workers[w := Asleep];
        case Asleep =>
        case RereadStop =>
          if stop { workers := workers[w := RereadTasks]; } else { workers := workers[w := Taking]; }
        case RereadTasks =>
          if tasks == [] {
            mutex := Free;
            workers := workers[w := Returned];
          } else {
            workers := workers[w := Taking];
          }
        case Taking =>
          var front := tasks[0];
          workers := workers[w := Popping(front)];
        case Popping(t) =>
          tasks := tasks[1..];
          takers := takers + [w];
          mutex := Free;
          workers := workers[w := Running(t)];
        case Running(t) =>
          executed := executed + [t];
          workers := workers[w := Acquiring(false)];
        case Returned =>
      }
    }

    /** One step of `enqueue`; `wakes` is the worker that `notify_one` would pick. */
    method CallerStep(c: nat, wakes: nat)
      requires Inv(Snapshot()) && c < |callers|
      modifies this
      ensures Inv(Snapshot()) && Snapshot() == CallerTurn(old(Snapshot()), c, wakes)
    {
      StepInv(Snapshot(), Event.CallerStep(c, wakes));
      ghost var next := CallerTurn(Snapshot(), c, wakes);
      hide Inv, SomeoneSleeps;
      match callers[c] {
        case Idle =>
          callers := callers[c := Entering];
        case Entering =>
          if mutex == Free {
            mutex := ByCaller(c);
            callers := callers[c := CheckStop];
          }
        case CheckStop =>
          if stop {
            rejected := rejected + 1;
            mutex := Free;
            callers := callers[c := Idle];
          } else {
            callers := callers[c := Pushing];
          }
        case Pushing =>
          tasks := tasks + [accepted];
          accepted := accepted + 1;
          callers := callers[c := Unlocking];
        case Unlocking =>
          mutex := Free;
          callers := callers[c := Notifying];
        case Notifying =>
          if !SomeoneSleeps(workers) {
            callers := callers[c := Idle];
          } else if wakes < |workers| && workers[wakes] == Asleep {
            workers := workers[wakes := Acquiring(true)];
            callers := callers[c := Idle];
          }
      }
      assert Snapshot() == next;
    }

    /** One step of the destructor. It stores the flag without the mutex. */
    method DestructorStep()
      requires Inv(Snapshot())
      modifies this
      ensures Inv(Snapshot()) && Snapshot() == DestructorTurn(old(Snapshot()))
    {
      StepInv(Snapshot(), Event.DestructorStep);
      hide Inv;
      match shutdown {
        case NotStarted =>
          stop := true;
          shutdown := StopStored;
        case StopStored =>
          workers := WakeAll(workers);
          shutdown := Joining(0);
        case Joining(k) =>
          if k >= |workers| {
            shutdown := Destroyed;
          } else if workers[k] == Returned {
            shutdown := Joining(k + 1);
          }
        case Destroyed =>
      }
    }

    method SpuriousWakeup(w: nat)
      requires Inv(Snapshot())
      modifies this
      ensures Inv(Snapshot()) && Snapshot() == Step(old(Snapshot()), Event.SpuriousWakeup(w))
    {
      StepInv(Snapshot(), Event.SpuriousWakeup(w));
      hide Inv;
      if w < |workers| && workers[w] == Asleep {
        workers := workers[w := Acquiring(false)];
      }
    }

    /** Any interleaving. */
    method Play(events: seq<Event>)
      requires Inv(Snapshot())
      modifies this
      ensures Inv(Snapshot()) && Snapshot() == Run(old(Snapshot()), events)
    {
      hide Inv, WorkerTurn, CallerTurn, DestructorTurn;
      for i := 0 to |events|
        invariant Inv(Snapshot()) && Snapshot() == Run(old(Snapshot()), events[..i])
      {
        assert events[..i + 1][..i] == events[..i];
        match events[i] {
          case WorkerStep(w) => if w < |workers| { WorkerStep(w); }
          case CallerStep(c, wakes) => if c < |callers| { CallerStep(c, wakes); }
          case DestructorStep => DestructorStep();
          case SpuriousWakeup(w) => SpuriousWakeup(w);
        }
      }
      assert events[..|events|] == events;
    }
  }
}
