/** Whole calls of `enqueue` on the pool of `threadpool.h`, amid any steps of its other threads. */
module ThreadPoolCalls {

  import opened Traces
  import opened ThreadPool

  /** The state before step i of a run from s. */
  function Before(s: Pool, events: seq<Event>, i: nat): (t: Pool)
    requires i <= |events|
    ensures |t.workers| == |s.workers| && |t.callers| == |s.callers|
  {
    Run(s, events[..i])
  }

  lemma RunNext(s: Pool, events: seq<Event>, i: nat)
    requires i < |events|
    ensures Before(s, events, i + 1) == Step(Before(s, events, i), events[i])
  {
    hide Step;
    assert events[..i + 1][..i] == events[..i];
  }

  lemma RunWhole(s: Pool, events: seq<Event>)
    ensures Before(s, events, 0) == s && Before(s, events, |events|) == Run(s, events)
  {
    assert events[..0] == [] && events[..|events|] == events;
  }

  lemma BeforeInv(s: Pool, events: seq<Event>, i: nat)
    requires Inv(s) && i <= |events|
    ensures Inv(Before(s, events, i))
  {
    RunInv(s, events[..i]);
  }

  predicate StepOf(e: Event, c: nat) {
    e.CallerStep? && e.c == c
  }

  /** A mark for the call that c begins with this step, if it does. */
  function Begins(s: Pool, e: Event, c: nat): seq<()>
    requires c < |s.callers|
  {
    if StepOf(e, c) && s.callers[c].Idle? then [()] else []
  }

  /** A mark for a call under way that has neither pushed its task nor been rejected. */
  function Undecided(at: Caller): seq<()> {
    if at.Entering? || at.CheckStop? || at.Pushing? then [()] else []
  }

  /** The step leaves the queue, and the counts of tasks accepted and of calls rejected, alone. */
  predicate Silent(s: Pool, s': Pool) {
    s'.tasks == s.tasks && s'.accepted == s.accepted && s'.rejected == s.rejected
  }

  /** It appends one new task to the queue. */
  predicate Accepts(s: Pool, s': Pool) {
    s'.tasks == s.tasks + [s.accepted] && s'.accepted == s.accepted + 1 && s'.rejected == s.rejected
  }

  /** It rejects the call. */
  predicate Rejects(s: Pool, s': Pool) {
    s'.tasks == s.tasks && s'.accepted == s.accepted && s'.rejected == s.rejected + 1
  }

  function Decides(s: Pool, e: Event, c: nat): seq<()> {
    if StepOf(e, c) && !Silent(s, Step(s, e)) then [()] else []
  }

  function Begun(s: Pool, events: seq<Event>, c: nat): seq<seq<()>>
    requires c < |s.callers|
  {
    seq(|events|, i requires 0 <= i < |events| => Begins(Before(s, events, i), events[i], c))
  }

  function Decided(s: Pool, events: seq<Event>, c: nat): seq<seq<()>> {
    seq(|events|, i requires 0 <= i < |events| => Decides(Before(s, events, i), events[i], c))
  }

  function UndecidedOf(s: Pool, events: seq<Event>, c: nat): seq<seq<()>>
    requires c < |s.callers|
  {
    seq(|events| + 1, i requires 0 <= i <= |events| => Undecided(Before(s, events, i).callers[c]))
  }

  // -- Steps -----------------------------------------------------------------------------------------

  /** What a caller's step may do to the queue: push behind a check that found the flag unset, reject
      at a check that finds it set, or nothing. */
  lemma OwnStep(s: Pool, c: nat, wakes: nat)
    requires c < |s.callers|
    ensures var s' := CallerTurn(s, c, wakes);
            && |s'.callers| == |s.callers|
            && (Silent(s, s') || (s.callers[c].Pushing? && Accepts(s, s'))
                || (s.callers[c].CheckStop? && s.stop && Rejects(s, s')))
            && (s.callers[c].CheckStop? && s.stop ==> !Silent(s, s'))
            && (s'.callers[c].Pushing? ==> s.callers[c].CheckStop? && !s.stop && Silent(s, s'))
  {
    hide SomeoneSleeps;
  }

  lemma OwnAccount(s: Pool, c: nat, wakes: nat)
    requires c < |s.callers|
    ensures var s' := CallerTurn(s, c, wakes);
            && |s'.callers| == |s.callers|
            && Undecided(s.callers[c]) + (if s.callers[c].Idle? then [()] else []) ==
               (if Silent(s, s') then [] else [()]) + Undecided(s'.callers[c])
  {
    hide SomeoneSleeps;
  }

  lemma OtherStep(s: Pool, e: Event, c: nat)
    requires c < |s.callers| && !StepOf(e, c)
    ensures Step(s, e).callers[c] == s.callers[c]
  {
    hide SomeoneSleeps;
  }

  lemma CallAccount(s: Pool, e: Event, c: nat)
    requires c < |s.callers|
    ensures Undecided(s.callers[c]) + Begins(s, e, c) == Decides(s, e, c) + Undecided(Step(s, e).callers[c])
  {
    if StepOf(e, c) {
      OwnAccount(s, c, e.wakes);
      hide CallerTurn;
    } else {
      OtherStep(s, e, c);
      hide Step;
    }
  }

  /** Only callers put tasks into the queue, and only at its end. */
  lemma OnlyCallersAccept(s: Pool, e: Event)
    ensures var s' := Step(s, e);
            s'.accepted != s.accepted ==> e.CallerStep? && e.c < |s.callers| && Accepts(s, s')
  {
    hide SomeoneSleeps;
    if e.CallerStep? && e.c < |s.callers| {
      OwnStep(s, e.c, e.wakes);
    }
  }

  // -- Calls ------------------------------------------------------------------------------------------

  /** In any run from any state, each call that c begins pushes its task or is rejected, once, or has
      still to do either. */
  lemma CallsAreDecided(s: Pool, events: seq<Event>, c: nat)
    requires c < |s.callers|
    ensures Undecided(s.callers[c]) + Joined(Begun(s, events, c)) ==
            Joined(Decided(s, events, c)) + Undecided(Run(s, events).callers[c])
  {
    RunWhole(s, events);
    hide Run, Before, Begins, Decides, Undecided;
    forall i | 0 <= i < |events|
      ensures UndecidedOf(s, events, c)[i] + Begun(s, events, c)[i] ==
              Decided(s, events, c)[i] + UndecidedOf(s, events, c)[i + 1]
    {
      RunNext(s, events, i);
      CallAccount(Before(s, events, i), events[i], c);
    }
    Telescope(UndecidedOf(s, events, c), Begun(s, events, c), Decided(s, events, c), |events|);
    assert Begun(s, events, c)[..|events|] == Begun(s, events, c);
    assert Decided(s, events, c)[..|events|] == Decided(s, events, c);
  }

  /** Nobody but the holder of the mutex changes the queue. */
  lemma QueueIsHeld(s: Pool, e: Event, c: nat)
    requires LockOk(s) && c < |s.callers| && CallerHoldsLock(s.callers[c]) && !StepOf(e, c)
    ensures Step(s, e).tasks == s.tasks
  {
    hide SomeoneSleeps;
    assert s.owner == ByCaller(c);
    match e
    case WorkerStep(w) =>
      if w < |s.workers| {
        assert !HoldsLock(s.workers[w]);
      }
    case CallerStep(d, wakes) =>
      if d < |s.callers| {
        assert !CallerHoldsLock(s.callers[d]);
      }
    case DestructorStep =>
    case SpuriousWakeup(w) =>
  }

  /** A caller about to push has checked the flag and found it unset, and the queue is as it was. */
  lemma {:induction false} CheckedBefore(s: Pool, events: seq<Event>, c: nat, k: nat) returns (i: nat)
    requires Inv(s) && c < |s.callers| && s.callers[c].Idle?
    requires k <= |events| && Before(s, events, k).callers[c].Pushing?
    ensures i < k && StepOf(events[i], c)
    ensures Before(s, events, i).callers[c].CheckStop? && !Before(s, events, i).stop
    ensures Before(s, events, i).tasks == Before(s, events, k).tasks
    decreases k
  {
    RunWhole(s, events);
    var t, e := Before(s, events, k - 1), events[k - 1];
    RunNext(s, events, k - 1);
    BeforeInv(s, events, k - 1);
    hide Run, Before, Step;
    if StepOf(e, c) {
      i := k - 1;
      CheckPasses(t, e, c);
    } else {
      OtherStep(t, e, c);
      assert LockOk(t);
      QueueIsHeld(t, e, c);
      i := CheckedBefore(s, events, c, k - 1);
    }
  }

  lemma CheckPasses(s: Pool, e: Event, c: nat)
    requires c < |s.callers| && StepOf(e, c) && Step(s, e).callers[c].Pushing?
    ensures s.callers[c].CheckStop? && !s.stop && Step(s, e).tasks == s.tasks
  {
    OwnStep(s, c, e.wakes);
  }

  lemma DecidesAt(s: Pool, events: seq<Event>, c: nat, i: nat)
    requires c < |s.callers| && i < |events| && StepOf(events[i], c)
    ensures var t, t' := Before(s, events, i), Before(s, events, i + 1);
            if Decided(s, events, c)[i] == [] then Silent(t, t')
            else (t.callers[c].Pushing? && Accepts(t, t')) || (t.callers[c].CheckStop? && t.stop && Rejects(t, t'))
  {
    RunNext(s, events, i);
    OwnStep(Before(s, events, i), c, events[i].wakes);
    hide Run, Before, CallerTurn;
  }

  /** A whole call of `enqueue`, amid any steps of the other threads. It checks the flag once it has
      the mutex. If the flag is set there, the call is rejected there and nothing is pushed; if not, then
      at a later step exactly one task, a new one, is appended to the queue, which is still as it was
      at the check. No other step of the call touches the queue. */
  lemma EnqueueCall(s: Pool, events: seq<Event>, c: nat) returns (check: nat, k: nat)
    requires Inv(s) && c < |s.callers| && s.callers[c].Idle? && Run(s, events).callers[c].Idle?
    requires Joined(Begun(s, events, c)) == [()]
    ensures check <= k < |events| && StepOf(events[check], c) && StepOf(events[k], c)
    ensures Before(s, events, check).callers[c].CheckStop? && Before(s, events, check).owner == ByCaller(c)
    ensures var t, t' := Before(s, events, k), Before(s, events, k + 1);
            if Before(s, events, check).stop then k == check && Rejects(t, t')
            else k > check && Accepts(t, t') && t.tasks == Before(s, events, check).tasks
    ensures forall i :: 0 <= i < |events| && StepOf(events[i], c) && i != k ==>
              Silent(Before(s, events, i), Before(s, events, i + 1))
  {
    CallsAreDecided(s, events, c);
    assert [] + [()] == [()] && Joined(Decided(s, events, c)) + [] == Joined(Decided(s, events, c));
    k := OnePart(Decided(s, events, c), ());
    assert StepOf(events[k], c);
    hide Run, Before, Step, Silent, Accepts, Rejects, Decided, Begun, StepOf;
    DecidesAt(s, events, c, k);
    forall i | 0 <= i < |events| && StepOf(events[i], c) && i != k
      ensures Silent(Before(s, events, i), Before(s, events, i + 1))
    {
      DecidesAt(s, events, c, i);
    }
    if Before(s, events, k).callers[c].Pushing? {
      check := CheckedBefore(s, events, c, k);
    } else {
      check := k;
    }
    BeforeInv(s, events, check);
    assert LockOk(Before(s, events, check));
  }
}
