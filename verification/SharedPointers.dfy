/** Reference counting of `improved-shared-ptr.h` and of the `shared_ptr` in `mypointer.h`: any
    number of handles, each used by one thread at a time, whose copies, moves, assignments and
    releases interleave one access at a time. */
module SharedPointers {

  import opened Options

  /** A control block and its object. `ptrCleared` is the block's null pointer after the object
      is gone. The counts of freeing, and the list of the handles whose decrement reached zero,
      are histories. */
  datatype Block = Block(count: nat, ptrCleared: bool, objectFreed: nat, blockFreed: nat, zeroSeenBy: seq<nat>)

  /** What an operation does after it has released the block of its target. */
  datatype Then = Die | Copy(src: nat) | Move(src: nat)

  /** Where the operation on a handle is. */
  datatype Phase =
    | Raw // not constructed, or destroyed
    | Idle // alive, and no operation on it under way
    | Releasing(next: Then) // about to decrement the count, if it has a block
    | FreeingObject(next: Then) // its decrement reached zero
    | ClearingPtr(next: Then)
    | FreeingBlock(next: Then)
    | Released(next: Then) // about to take over the pointer of the source, or to be gone
    | Incrementing(src: nat) // has copied the pointer of the source
    | ClearingSource(src: nat) // has moved it

  datatype Handle = Handle(ctrl: Option<nat>, phase: Phase)

  /** `fault` records a use of a freed block, a count that goes below zero or rises from zero, an
      object freed twice or while counted, or a failed assertion of the block's destructor. */
  datatype State = State(handles: seq<Handle>, blocks: seq<Block>, fault: bool)

  datatype Event =
    | Construct(h: nat, fromPointer: bool)
    | CopyConstruct(h: nat, src: nat)
    | MoveConstruct(h: nat, src: nat)
    | CopyAssign(h: nat, src: nat)
    | MoveAssign(h: nat, src: nat)
    | Destroy(h: nat)
    | Swap(h: nat, g: nat)
    | Continue(h: nat) // the next access of the operation under way on h

  function Init(handles: nat): State {
    State(seq(handles, _ => Handle(None, Raw)), [], false)
  }

  // -- Who may start what --------------------------------------------------------------------------

  function NextSource(next: Then): Option<nat> {
    match next
    case Die => None
    case Copy(src) => Some(src)
    case Move(src) => Some(src)
  }

  /** The handle an operation reads from. */
  function Source(p: Phase): Option<nat> {
    match p
    case Raw => None
    case Idle => None
    case Incrementing(src) => Some(src)
    case ClearingSource(src) => Some(src)
    case _ => NextSource(p.next)
  }

  /** Whether it also writes to that handle. */
  predicate WritesSource(p: Phase) {
    match p
    case Raw => false
    case Idle => false
    case Incrementing(_) => false
    case ClearingSource(_) => true
    case _ => p.next.Move?
  }

  predicate Read(s: State, g: nat) {
    exists h :: 0 <= h < |s.handles| && Source(s.handles[h].phase) == Some(g)
  }

  predicate Written(s: State, g: nat) {
    exists h :: 0 <= h < |s.handles| && Source(s.handles[h].phase) == Some(g) && WritesSource(s.handles[h].phase)
  }

  /** Nothing is under way on the handle, or from it: it may be changed. */
  predicate Quiet(s: State, h: nat, phase: Phase) {
    h < |s.handles| && s.handles[h].phase == phase && !Read(s, h)
  }

  /** The handle may be copied from, as others may be doing. */
  predicate Readable(s: State, g: nat) {
    g < |s.handles| && s.handles[g].phase == Idle && !Written(s, g)
  }

  // -- Steps ------------------------------------------------------------------------------------------

  function Put(s: State, h: nat, x: Handle): State
    requires h < |s.handles|
  {
    s.(handles := s.handles[h := x])
  }

  function Goto(s: State, h: nat, p: Phase): State
    requires h < |s.handles|
  {
    Put(s, h, s.handles[h].(phase := p))
  }

  function SetBlock(s: State, b: nat, x: Block): State
    requires b < |s.blocks|
  {
    s.(blocks := s.blocks[b := x])
  }

  function Decrement(s: State, h: nat, next: Then): State
    requires h < |s.handles|
  {
    match s.handles[h].ctrl
    case None => Goto(s, h, Released(next))
    case Some(b) =>
      if b >= |s.blocks| || s.blocks[b].count == 0 || s.blocks[b].blockFreed > 0 then s.(fault := true)
      else if s.blocks[b].count == 1 then
        var x := s.blocks[b].(count := 0, zeroSeenBy := s.blocks[b].zeroSeenBy + [h]);
        Goto(SetBlock(s, b, x), h, FreeingObject(next))
      else Goto(SetBlock(s, b, s.blocks[b].(count := s.blocks[b].count - 1)), h, Released(next))
  }

  function FreeObject(s: State, h: nat, next: Then): State
    requires h < |s.handles|
  {
    match s.handles[h].ctrl
    case None => s.(fault := true)
    case Some(b) =>
      if b >= |s.blocks| || s.blocks[b].count > 0 || s.blocks[b].objectFreed > 0 || s.blocks[b].blockFreed > 0 then
        s.(fault := true)
      else Goto(SetBlock(s, b, s.blocks[b].(objectFreed := s.blocks[b].objectFreed + 1)), h, ClearingPtr(next))
  }

  function ClearPtr(s: State, h: nat, next: Then): State
    requires h < |s.handles|
  {
    match s.handles[h].ctrl
    case None => s.(fault := true)
    case Some(b) =>
      if b >= |s.blocks| || s.blocks[b].blockFreed > 0 then s.(fault := true)
      else Goto(SetBlock(s, b, s.blocks[b].(ptrCleared := true)), h, FreeingBlock(next))
  }

  /** The block's destructor asserts that the count is zero and the pointer null. */
  function FreeBlock(s: State, h: nat, next: Then): State
    requires h < |s.handles|
  {
    match s.handles[h].ctrl
    case None => s.(fault := true)
    case Some(b) =>
      if b >= |s.blocks| || s.blocks[b].blockFreed > 0 || s.blocks[b].count > 0 || !s.blocks[b].ptrCleared then
        s.(fault := true)
      else Goto(SetBlock(s, b, s.blocks[b].(blockFreed := s.blocks[b].blockFreed + 1)), h, Released(next))
  }

  function Increment(s: State, h: nat): State
    requires h < |s.handles|
  {
    match s.handles[h].ctrl
    case None => Goto(s, h, Idle)
    case Some(b) =>
      if b >= |s.blocks| || s.blocks[b].count == 0 || s.blocks[b].blockFreed > 0 then s.(fault := true)
      else Goto(SetBlock(s, b, s.blocks[b].(count := s.blocks[b].count + 1)), h, Idle)
  }

  function Advance(s: State, h: nat): State
    requires h < |s.handles|
  {
    match s.handles[h].phase
    case Raw => s
    case Idle => s
    case Releasing(next) => Decrement(s, h, next)
    case FreeingObject(next) => FreeObject(s, h, next)
    case ClearingPtr(next) => ClearPtr(s, h, next)
    case FreeingBlock(next) => FreeBlock(s, h, next)
    case Released(next) => TakeOver(s, h, next)
    case Incrementing(src) => Increment(s, h)
    case ClearingSource(src) =>
      if src < |s.handles| then Goto(Put(s, src, s.handles[src].(ctrl := None)), h, Idle) else s
  }

  function TakeOver(s: State, h: nat, next: Then): State
    requires h < |s.handles|
  {
    match next
    case Die => Goto(s, h, Raw)
    case Copy(src) => if src < |s.handles| then Put(s, h, Handle(s.handles[src].ctrl, Incrementing(src))) else s
    case Move(src) => if src < |s.handles| then Put(s, h, Handle(s.handles[src].ctrl, ClearingSource(src))) else s
  }

  /** An operation that its callers may not start now (a handle is in use) does not start. */
  function Step(s: State, e: Event): (s': State)
    ensures |s'.handles| == |s.handles|
  {
    match e
    case Construct(h, fromPointer) =>
      if !Quiet(s, h, Raw) then s
      else if fromPointer then
        Put(s, h, Handle(Some(|s.blocks|), Idle)).(blocks := s.blocks + [Block(1, false, 0, 0, [])])
      else Put(s, h, Handle(None, Idle))
    case CopyConstruct(h, src) =>
      if Quiet(s, h, Raw) && Readable(s, src) then Goto(s, h, Released(Copy(src))) else s
    case MoveConstruct(h, src) =>
      if Quiet(s, h, Raw) && Quiet(s, src, Idle) then Goto(s, h, Released(Move(src))) else s
    case CopyAssign(h, src) =>
      if h != src && Quiet(s, h, Idle) && Readable(s, src) then Goto(s, h, Releasing(Copy(src))) else s
    case MoveAssign(h, src) =>
      if h != src && Quiet(s, h, Idle) && Quiet(s, src, Idle) then Goto(s, h, Releasing(Move(src))) else s
    case Destroy(h) =>
      if Quiet(s, h, Idle) then Goto(s, h, Releasing(Die)) else s
    case Swap(h, g) =>
      if Quiet(s, h, Idle) && Quiet(s, g, Idle) then
        var x, y := s.handles[h].ctrl, s.handles[g].ctrl;
        Put(Put(s, h, Handle(y, Idle)), g, Handle(x, Idle))
      else s
    case Continue(h) =>
      if h < |s.handles| then Advance(s, h) else s
  }

  function Run(s: State, events: seq<Event>): (s': State)
    ensures |s'.handles| == |s.handles|
  {
    if events == [] then s else Step(Run(s, events[..|events| - 1]), events[|events| - 1])
  }

  /** What becomes of handles that are not yet constructed. */
  function Reached(handles: nat, events: seq<Event>): (s: State)
    ensures |s.handles| == handles
  {
    Run(Init(handles), events)
  }

  // -- Invariants ----------------------------------------------------------------------------------------

  /** The handle's share in the block is counted. While one copies, the count does not include it
      yet; while one moves, it is the source's share that is counted. */
  predicate Owns(x: Handle, b: nat) {
    x.ctrl == Some(b) && (x.phase.Idle? || x.phase.Releasing?)
  }

  function Owners(handles: seq<Handle>, b: nat): nat {
    if handles == [] then 0 else (if Owns(handles[0], b) then 1 else 0) + Owners(handles[1..], b)
  }

  predicate Dying(p: Phase) {
    p.FreeingObject? || p.ClearingPtr? || p.FreeingBlock?
  }

  /** How far the freeing of a block has come when its last owner is there. */
  predicate Stage(p: Phase, x: Block) {
    match p
    case FreeingObject(_) => x.objectFreed == 0 && !x.ptrCleared && x.blockFreed == 0
    case ClearingPtr(_) => x.objectFreed == 1 && !x.ptrCleared && x.blockFreed == 0
    case FreeingBlock(_) => x.objectFreed == 1 && x.ptrCleared && x.blockFreed == 0
    case _ => false
  }

  ghost predicate SourceOk(s: State, h: nat)
    requires h < |s.handles|
  {
    var x := s.handles[h];
    match Source(x.phase)
    case None => true
    case Some(g) =>
      && g < |s.handles| && s.handles[g].phase == Idle
      && (x.phase.Incrementing? || x.phase.ClearingSource? ==> x.ctrl == s.handles[g].ctrl)
  }

  ghost predicate HandleOk(s: State, h: nat)
    requires h < |s.handles|
  {
    var x := s.handles[h];
    && SourceOk(s, h)
    && ((x.phase.Idle? || x.phase.Releasing?) && x.ctrl.Some? ==> x.ctrl.value < |s.blocks|)
    && (Dying(x.phase) ==>
          && x.ctrl.Some? && x.ctrl.value < |s.blocks|
          && s.blocks[x.ctrl.value].count == 0
          && s.blocks[x.ctrl.value].zeroSeenBy == [h]
          && Stage(x.phase, s.blocks[x.ctrl.value]))
  }

  ghost predicate HandlesOk(s: State) {
    forall h: nat :: h < |s.handles| ==> HandleOk(s, h)
  }

  /** A source that is written is nobody else's source. */
  ghost predicate Exclusive(s: State) {
    forall h, k :: 0 <= h < |s.handles| && 0 <= k < |s.handles| && h != k && WritesSource(s.handles[h].phase) ==>
      Source(s.handles[k].phase) != Source(s.handles[h].phase)
  }

  ghost predicate FullyFreed(x: Block) {
    x.objectFreed == 1 && x.ptrCleared && x.blockFreed == 1
  }

  ghost predicate BlockOk(s: State, b: nat)
    requires b < |s.blocks|
  {
    var x := s.blocks[b];
    && x.count == Owners(s.handles, b)
    && (x.count > 0 ==> x.zeroSeenBy == [] && x.objectFreed == 0 && !x.ptrCleared && x.blockFreed == 0)
    && (x.count == 0 ==> |x.zeroSeenBy| == 1 && (FullyFreed(x) || BeingFreed(s, b)))
  }

  /** The handle that saw zero is on its way to free the block. */
  ghost predicate BeingFreed(s: State, b: nat)
    requires b < |s.blocks| && |s.blocks[b].zeroSeenBy| == 1
  {
    var h := s.blocks[b].zeroSeenBy[0];
    h < |s.handles| && s.handles[h].ctrl == Some(b) && Dying(s.handles[h].phase)
  }

  ghost predicate BlocksOk(s: State) {
    forall b: nat :: b < |s.blocks| ==> BlockOk(s, b)
  }

  ghost predicate Inv(s: State) {
    !s.fault && HandlesOk(s) && Exclusive(s) && BlocksOk(s)
  }

  lemma {:induction false} OwnersUpdate(handles: seq<Handle>, h: nat, x: Handle, b: nat)
    requires h < |handles|
    ensures Owners(handles[h := x], b) + (if Owns(handles[h], b) then 1 else 0)
         == Owners(handles, b) + (if Owns(x, b) then 1 else 0)
    decreases |handles|
  {
    if h > 0 {
      OwnersUpdate(handles[1..], h - 1, x, b);
      assert handles[h := x][1..] == handles[1..][h - 1 := x];
    } else {
      assert handles[h := x][1..] == handles[1..];
    }
  }

  lemma {:induction false} OwnerCounts(handles: seq<Handle>, h: nat, b: nat)
    requires h < |handles| && Owns(handles[h], b)
    ensures Owners(handles, b) >= 1
    decreases |handles|
  {
    if h > 0 {
      OwnerCounts(handles[1..], h - 1, b);
    }
  }

  lemma {:induction false} NoOwners(handles: seq<Handle>, b: nat)
    requires forall h :: 0 <= h < |handles| ==> !Owns(handles[h], b)
    ensures Owners(handles, b) == 0
    decreases |handles|
  {
    if handles != [] {
      NoOwners(handles[1..], b);
    }
  }

  lemma InitInv(handles: nat)
    ensures Inv(Init(handles))
  {
  }

  // -- Each step keeps them ---------------------------------------------------------------------------------

  ghost predicate Unread(s: State, h: nat) {
    forall k :: 0 <= k < |s.handles| ==> Source(s.handles[k].phase) != Some(h)
  }

  lemma BusyIsUnread(s: State, h: nat)
    requires HandlesOk(s) && h < |s.handles| && s.handles[h].phase != Idle
    ensures Unread(s, h)
  {
    forall k: nat | k < |s.handles|
      ensures Source(s.handles[k].phase) != Some(h)
    {
      assert HandleOk(s, k);
    }
  }

  /** The block that the handle is freeing has not changed. */
  ghost predicate BlockUnchanged(s: State, s': State, x: Handle)
    requires |s.blocks| <= |s'.blocks|
  {
    Dying(x.phase) && x.ctrl.Some? && x.ctrl.value < |s.blocks| ==> s'.blocks[x.ctrl.value] == s.blocks[x.ctrl.value]
  }

  /** Other handles do not notice a change of h that none of them reads. */
  lemma OthersOk(s: State, s': State, h: nat)
    requires HandlesOk(s) && h < |s.handles| == |s'.handles| && |s.blocks| <= |s'.blocks| && Unread(s, h)
    requires forall k :: 0 <= k < |s.handles| && k != h ==> s'.handles[k] == s.handles[k]
    requires forall k :: 0 <= k < |s.handles| && k != h ==> BlockUnchanged(s, s', s.handles[k])
    requires HandleOk(s', h)
    ensures HandlesOk(s')
  {
    forall k: nat | k < |s'.handles|
      ensures HandleOk(s', k)
    {
      assert HandleOk(s, k);
    }
  }

  lemma ExclusiveSame(s: State, s': State, h: nat)
    requires Exclusive(s) && h < |s.handles| == |s'.handles|
    requires forall k :: 0 <= k < |s.handles| && k != h ==> s'.handles[k] == s.handles[k]
    requires var p, p' := s.handles[h].phase, s'.handles[h].phase;
             Source(p') == None || (Source(p') == Source(p) && WritesSource(p') == WritesSource(p))
    ensures Exclusive(s')
  {
  }

  /** Blocks do not notice a change of h that changes neither its share nor its freeing of one. */
  lemma BlocksSame(s: State, h: nat, x: Handle)
    requires BlocksOk(s) && h < |s.handles|
    requires forall b: nat :: b < |s.blocks| ==> Owns(x, b) == Owns(s.handles[h], b)
    requires !Dying(s.handles[h].phase)
    ensures BlocksOk(Put(s, h, x))
  {
    forall b: nat | b < |s.blocks|
      ensures BlockOk(Put(s, h, x), b)
    {
      assert BlockOk(s, b);
      OwnersUpdate(s.handles, h, x, b);
    }
  }

  /** Nor does any block but b notice a change of h and b. */
  lemma OtherBlocks(s: State, h: nat, x: Handle, b: nat, y: Block)
    requires BlocksOk(s) && h < |s.handles| && b < |s.blocks|
    requires s.handles[h].ctrl == Some(b) && x.ctrl == Some(b)
    requires BlockOk(Put(SetBlock(s, b, y), h, x), b)
    ensures BlocksOk(Put(SetBlock(s, b, y), h, x))
  {
    var s' := Put(SetBlock(s, b, y), h, x);
    forall c: nat | c < |s'.blocks|
      ensures BlockOk(s', c)
    {
      if c != b {
        assert BlockOk(s, c);
        OwnersUpdate(s.handles, h, x, c);
      }
    }
  }

  lemma DecrementInv(s: State, h: nat)
    requires Inv(s) && h < |s.handles| && s.handles[h].phase.Releasing?
    ensures Inv(Advance(s, h))
  {
    var x := s.handles[h];
    var s' := Advance(s, h);
    assert HandleOk(s, h);
    BusyIsUnread(s, h);
    match x.ctrl {
      case None =>
        BlocksSame(s, h, s'.handles[h]);
      case Some(b) =>
        assert BlockOk(s, b);
        OwnerCounts(s.handles, h, b);
        OwnersUpdate(s.handles, h, s'.handles[h], b);
        assert BlockOk(s', b);
        OtherBlocks(s, h, s'.handles[h], b, s'.blocks[b]);
        forall k: nat | k < |s.handles|
          ensures BlockUnchanged(s, s', s.handles[k])
        {
          assert HandleOk(s, k);
        }
    }
    assert HandleOk(s', h);
    OthersOk(s, s', h);
    ExclusiveSame(s, s', h);
  }

  lemma FreeingInv(s: State, h: nat)
    requires Inv(s) && h < |s.handles| && Dying(s.handles[h].phase)
    ensures Inv(Advance(s, h))
  {
    var x := s.handles[h];
    var s' := Advance(s, h);
    assert HandleOk(s, h);
    BusyIsUnread(s, h);
    var b := x.ctrl.value;
    assert BlockOk(s, b);
    OwnersUpdate(s.handles, h, s'.handles[h], b);
    assert BlockOk(s', b);
    OtherBlocks(s, h, s'.handles[h], b, s'.blocks[b]);
    assert HandleOk(s', h);
    forall k: nat | k < |s.handles| && k != h
      ensures BlockUnchanged(s, s', s.handles[k])
    {
      assert HandleOk(s, k);
    }
    OthersOk(s, s', h);
    ExclusiveSame(s, s', h);
  }

  lemma TakeOverInv(s: State, h: nat)
    requires Inv(s) && h < |s.handles| && s.handles[h].phase.Released?
    ensures Inv(Advance(s, h))
  {
    var s' := Advance(s, h);
    assert HandleOk(s, h);
    BusyIsUnread(s, h);
    BlocksSame(s, h, s'.handles[h]);
    assert HandleOk(s', h);
    OthersOk(s, s', h);
    ExclusiveSame(s, s', h);
  }

  lemma IncrementInv(s: State, h: nat)
    requires Inv(s) && h < |s.handles| && s.handles[h].phase.Incrementing?
    ensures Inv(Advance(s, h))
  {
    var x := s.handles[h];
    var s' := Advance(s, h);
    assert HandleOk(s, h) && HandleOk(s, x.phase.src);
    BusyIsUnread(s, h);
    match x.ctrl {
      case None =>
        BlocksSame(s, h, s'.handles[h]);
      case Some(b) =>
        assert BlockOk(s, b);
        OwnerCounts(s.handles, x.phase.src, b);
        OwnersUpdate(s.handles, h, s'.handles[h], b);
        assert BlockOk(s', b);
        OtherBlocks(s, h, s'.handles[h], b, s'.blocks[b]);
        forall k: nat | k < |s.handles|
          ensures BlockUnchanged(s, s', s.handles[k])
        {
          assert HandleOk(s, k);
        }
    }
    assert HandleOk(s', h);
    OthersOk(s, s', h);
    ExclusiveSame(s, s', h);
  }

  /** The moved share passes from the source to h. */
  lemma ClearSourceInv(s: State, h: nat)
    requires Inv(s) && h < |s.handles| && s.handles[h].phase.ClearingSource?
    ensures Inv(Advance(s, h))
  {
    var x, g := s.handles[h], s.handles[h].phase.src;
    assert HandleOk(s, h) && HandleOk(s, g);
    BusyIsUnread(s, h);
    var mid := Goto(s, h, Idle);
    var s' := Put(mid, g, s.handles[g].(ctrl := None));
    assert Advance(s, h) == s' by {
      assert s.handles[g := s.handles[g].(ctrl := None)][h := x.(phase := Idle)]
          == s.handles[h := x.(phase := Idle)][g := s.handles[g].(ctrl := None)];
    }
    assert HandleOk(mid, h);
    OthersOk(s, mid, h);
    assert Unread(mid, g);
    assert HandleOk(s', g);
    OthersOk(mid, s', g);
    ExclusiveSame(s, mid, h);
    ExclusiveSame(mid, s', g);
    forall b: nat | b < |s'.blocks|
      ensures BlockOk(s', b)
    {
      assert BlockOk(s, b);
      OwnersUpdate(s.handles, h, mid.handles[h], b);
      OwnersUpdate(mid.handles, g, s'.handles[g], b);
    }
  }

  lemma AdvanceInv(s: State, h: nat)
    requires Inv(s) && h < |s.handles|
    ensures Inv(Advance(s, h))
  {
    hide Inv, Decrement, FreeObject, ClearPtr, FreeBlock, Increment, TakeOver;
    match s.handles[h].phase
    case Raw =>
    case Idle =>
    case Releasing(_) => DecrementInv(s, h);
    case FreeingObject(_) => FreeingInv(s, h);
    case ClearingPtr(_) => FreeingInv(s, h);
    case FreeingBlock(_) => FreeingInv(s, h);
    case Released(_) => TakeOverInv(s, h);
    case Incrementing(_) => IncrementInv(s, h);
    case ClearingSource(_) => ClearSourceInv(s, h);
  }

  /** Starting an operation on h that reads from `Source(p)`, if from any. */
  lemma BeginInv(s: State, h: nat, p: Phase)
    requires Inv(s) && h < |s.handles| && Unread(s, h)
    requires (s.handles[h].phase == Raw && p.Released?) || (s.handles[h].phase == Idle && p.Releasing?)
    requires match p.next
             case Die => true
             case Copy(src) => src != h && Readable(s, src)
             case Move(src) => src != h && Quiet(s, src, Idle)
    ensures Inv(Goto(s, h, p))
  {
    var s' := Goto(s, h, p);
    assert HandleOk(s, h);
    BlocksSame(s, h, s'.handles[h]);
    assert HandleOk(s', h);
    OthersOk(s, s', h);
    forall k, l | 0 <= k < |s.handles| && 0 <= l < |s.handles| && k != l && WritesSource(s'.handles[k].phase)
      ensures Source(s'.handles[l].phase) != Source(s'.handles[k].phase)
    {
      if k == h {
        assert !Read(s, p.next.src);
      } else if l == h && p.next.Copy? {
        assert !Written(s, p.next.src);
      } else if l == h && p.next.Move? {
        assert !Read(s, p.next.src);
      }
    }
  }

  lemma ConstructInv(s: State, h: nat, fromPointer: bool)
    requires Inv(s)
    ensures Inv(Step(s, Construct(h, fromPointer)))
  {
    var s' := Step(s, Construct(h, fromPointer));
    if Quiet(s, h, Raw) {
      assert HandleOk(s, h);
      assert HandleOk(s', h);
      OthersOk(s, s', h);
      ExclusiveSame(s, s', h);
      forall b: nat | b < |s'.blocks|
        ensures BlockOk(s', b)
      {
        OwnersUpdate(s.handles, h, s'.handles[h], b);
        if b < |s.blocks| {
          assert BlockOk(s, b);
        } else {
          forall k: nat | k < |s.handles|
            ensures !Owns(s.handles[k], b)
          {
            assert HandleOk(s, k);
          }
          NoOwners(s.handles, b);
        }
      }
    }
  }

  lemma SwapInv(s: State, h: nat, g: nat)
    requires Inv(s)
    ensures Inv(Step(s, Swap(h, g)))
  {
    if Quiet(s, h, Idle) && Quiet(s, g, Idle) {
      var mid := Put(s, h, Handle(s.handles[g].ctrl, Idle));
      var s' := Put(mid, g, Handle(s.handles[h].ctrl, Idle));
      assert HandleOk(s, h) && HandleOk(s, g);
      assert HandleOk(mid, h);
      OthersOk(s, mid, h);
      assert Unread(mid, g);
      assert HandleOk(s', g);
      OthersOk(mid, s', g);
      ExclusiveSame(s, mid, h);
      ExclusiveSame(mid, s', g);
      forall b: nat | b < |s'.blocks|
        ensures BlockOk(s', b)
      {
        assert BlockOk(s, b);
        OwnersUpdate(s.handles, h, mid.handles[h], b);
        OwnersUpdate(mid.handles, g, s'.handles[g], b);
      }
    }
  }

  lemma StepInv(s: State, e: Event)
    requires Inv(s)
    ensures Inv(Step(s, e))
  {
    hide Inv;
    match e
    case Construct(h, fromPointer) => ConstructInv(s, h, fromPointer);
    case CopyConstruct(h, src) =>
      if Quiet(s, h, Raw) && Readable(s, src) { BeginInv(s, h, Released(Copy(src))); }
    case MoveConstruct(h, src) =>
      if Quiet(s, h, Raw) && Quiet(s, src, Idle) { BeginInv(s, h, Released(Move(src))); }
    case CopyAssign(h, src) =>
      if h != src && Quiet(s, h, Idle) && Readable(s, src) { BeginInv(s, h, Releasing(Copy(src))); }
    case MoveAssign(h, src) =>
      if h != src && Quiet(s, h, Idle) && Quiet(s, src, Idle) { BeginInv(s, h, Releasing(Move(src))); }
    case Destroy(h) =>
      if Quiet(s, h, Idle) { BeginInv(s, h, Releasing(Die)); }
    case Swap(h, g) => SwapInv(s, h, g);
    case Continue(h) => if h < |s.handles| { AdvanceInv(s, h); }
  }

  lemma {:induction false} ReachedInv(handles: nat, events: seq<Event>)
    ensures Inv(Reached(handles, events))
    decreases |events|
  {
    hide Inv, Step;
    if events == [] {
      InitInv(handles);
    } else {
      ReachedInv(handles, events[..|events| - 1]);
      StepInv(Reached(handles, events[..|events| - 1]), events[|events| - 1]);
    }
  }

  // -- What every run keeps -----------------------------------------------------------------------------------

  /** Handles that hold a pointer to the block, whatever is under way on them. */
  predicate Holds(x: Handle, b: nat) {
    x.ctrl == Some(b) && (x.phase.Idle? || x.phase.Releasing? || x.phase.Incrementing? || x.phase.ClearingSource?)
  }

  function Count(handles: seq<Handle>, p: Handle -> bool): nat {
    if handles == [] then 0 else (if p(handles[0]) then 1 else 0) + Count(handles[1..], p)
  }

  /** In every reachable state a block's count is the number of handles that hold it, less the
      increments under way and less the moves under way (whose two handles share one count). */
  lemma CountIsHandles(handles: nat, events: seq<Event>, b: nat)
    requires b < |Reached(handles, events).blocks|
    ensures var s := Reached(handles, events);
            s.blocks[b].count == Count(s.handles, x => Holds(x, b))
                                 - Count(s.handles, (x: Handle) => x.phase.Incrementing? && x.ctrl == Some(b))
                                 - Count(s.handles, (x: Handle) => x.phase.ClearingSource? && x.ctrl == Some(b))
  {
    var s := Reached(handles, events);
    ReachedInv(handles, events);
    assert BlockOk(s, b);
    OwnersAdjusted(s.handles, b);
  }

  lemma {:induction false} OwnersAdjusted(handles: seq<Handle>, b: nat)
    ensures Owners(handles, b) == Count(handles, x => Holds(x, b))
                                  - Count(handles, (x: Handle) => x.phase.Incrementing? && x.ctrl == Some(b))
                                  - Count(handles, (x: Handle) => x.phase.ClearingSource? && x.ctrl == Some(b))
    decreases |handles|
  {
    if handles != [] {
      OwnersAdjusted(handles[1..], b);
    }
  }

  /** In every run no freed block is used, nothing is freed twice or while a handle owns it, and
      the destructor of the block finds a zero count and a null pointer; at most one decrement
      ever sees zero, and that one is seen exactly when no owner is left. */
  lemma FreedOnceNeverWhileOwned(handles: nat, events: seq<Event>, b: nat)
    requires b < |Reached(handles, events).blocks|
    ensures var s := Reached(handles, events);
            var x := s.blocks[b];
            && !s.fault
            && x.objectFreed <= 1 && x.blockFreed <= x.objectFreed
            && |x.zeroSeenBy| == (if Owners(s.handles, b) == 0 then 1 else 0)
            && (Owners(s.handles, b) > 0 ==> x.objectFreed == 0 && x.blockFreed == 0 && !x.ptrCleared)
  {
    var s := Reached(handles, events);
    ReachedInv(handles, events);
    assert BlockOk(s, b);
    if |s.blocks[b].zeroSeenBy| == 1 && BeingFreed(s, b) {
      assert HandleOk(s, s.blocks[b].zeroSeenBy[0]);
    }
  }

  /** `get` and `*` on a handle that nothing is under way on reach a live object. */
  lemma IdleHandleIsLive(handles: nat, events: seq<Event>, h: nat)
    requires h < handles
    requires Reached(handles, events).handles[h].phase == Idle && Reached(handles, events).handles[h].ctrl.Some?
    ensures var s := Reached(handles, events);
            var b := s.handles[h].ctrl.value;
            b < |s.blocks| && s.blocks[b].count > 0 && s.blocks[b].objectFreed == 0 && s.blocks[b].blockFreed == 0
  {
    var s := Reached(handles, events);
    ReachedInv(handles, events);
    assert HandleOk(s, h);
    var b := s.handles[h].ctrl.value;
    assert BlockOk(s, b);
    OwnerCounts(s.handles, h, b);
  }

  /** Once nothing is under way, an object has been freed exactly when no handle points to it. */
  lemma QuiescentExactly(handles: nat, events: seq<Event>, b: nat)
    requires b < |Reached(handles, events).blocks|
    requires forall h :: 0 <= h < handles ==> Reached(handles, events).handles[h].phase in {Raw, Idle}
    ensures var s := Reached(handles, events);
            var pointed := exists h :: 0 <= h < handles && s.handles[h] == Handle(Some(b), Idle);
            s.blocks[b].objectFreed == s.blocks[b].blockFreed == if pointed then 0 else 1
  {
    var s := Reached(handles, events);
    ReachedInv(handles, events);
    assert BlockOk(s, b);
    if h: nat :| h < handles && s.handles[h] == Handle(Some(b), Idle) {
      OwnerCounts(s.handles, h, b);
    } else {
      forall h | 0 <= h < handles
        ensures !Owns(s.handles[h], b)
      {
      }
      NoOwners(s.handles, b);
      var last := s.blocks[b].zeroSeenBy[0];
      assert last < handles ==> s.handles[last].phase in {Raw, Idle};
    }
  }

  /** While h takes over from its source, both are at the same block, and the source stays put. */
  lemma TakesOverFromSource(handles: nat, events: seq<Event>, h: nat, src: nat)
    requires h < handles && Source(Reached(handles, events).handles[h].phase) == Some(src)
    ensures var s := Reached(handles, events);
            && src < handles && src != h && s.handles[src].phase == Idle
            && (s.handles[h].phase.Incrementing? || s.handles[h].phase.ClearingSource? ==>
                  s.handles[h].ctrl == s.handles[src].ctrl)
  {
    ReachedInv(handles, events);
    assert HandleOk(Reached(handles, events), h);
  }

  // -- What an operation does ---------------------------------------------------------------------------------

  predicate AtRest(p: Phase) {
    p.Raw? || p.Idle?
  }

  /** What the operation under way is to do after it has released the block of its target. */
  function Intent(p: Phase): Then {
    if AtRest(p) then Die
    else if p.Incrementing? then Copy(p.src)
    else if p.ClearingSource? then Move(p.src)
    else p.next
  }

  /** A handle on which an operation is under way, or from which one reads, is changed by no other. */
  lemma OthersLeave(s: State, e: Event, k: nat)
    requires Inv(s) && k < |s.handles| && e != Continue(k)
    requires !AtRest(s.handles[k].phase) || Read(s, k)
    requires e.Continue? && e.h < |s.handles| && s.handles[e.h].phase.ClearingSource? ==> s.handles[e.h].phase.src != k
    ensures Step(s, e).handles[k] == s.handles[k]
  {
    hide Inv, Read;
    if e.Continue? && e.h < |s.handles| {
      hide SetBlock;
      assert e.h != k;
    }
  }

  /** While h is under way towards its source, the source is as it was. */
  ghost predicate UnderWay(s: State, h: nat, next: Then, was: Option<nat>) {
    && Inv(s) && h < |s.handles| && !AtRest(s.handles[h].phase) && Intent(s.handles[h].phase) == next
    && match next
       case Die => true
       case Copy(src) => src < |s.handles| && src != h && s.handles[src] == Handle(was, Idle)
       case Move(src) => src < |s.handles| && src != h && s.handles[src] == Handle(was, Idle)
  }

  /** The operation is over: h is gone, or has the pointer, which the source has kept or given up. */
  ghost predicate Done(s: State, h: nat, next: Then, was: Option<nat>) {
    && h < |s.handles|
    && match next
       case Die => s.handles[h].phase == Raw
       case Copy(src) =>
         && src < |s.handles| && src != h
         && s.handles[h] == Handle(was, Idle) && s.handles[src] == Handle(was, Idle)
       case Move(src) =>
         && src < |s.handles| && src != h
         && s.handles[h] == Handle(was, Idle) && s.handles[src] == Handle(None, Idle)
  }

  lemma OwnStep(s: State, h: nat, next: Then, was: Option<nat>)
    requires UnderWay(s, h, next, was)
    ensures var s' := Step(s, Continue(h)); UnderWay(s', h, next, was) || Done(s', h, next, was)
  {
    AdvanceInv(s, h);
    assert HandleOk(s, h);
    assert !Advance(s, h).fault;
    hide HandlesOk, Exclusive, BlocksOk, HandleOk;
  }

  lemma OtherStep(s: State, e: Event, h: nat, next: Then, was: Option<nat>)
    requires UnderWay(s, h, next, was) && e != Continue(h)
    ensures UnderWay(Step(s, e), h, next, was)
  {
    StepInv(s, e);
    assert HandleOk(s, h);
    BusyIsUnread(s, h);
    if e.Continue? && e.h < |s.handles| && s.handles[e.h].phase.ClearingSource? {
      assert HandleOk(s, e.h);
      assert Source(s.handles[h].phase) != Source(s.handles[e.h].phase);
    }
    OthersLeave(s, e, h);
    if !next.Die? {
      assert Read(s, next.src) by {
        assert Source(s.handles[h].phase) == Some(next.src);
      }
      if e == Continue(next.src) {
      } else {
        OthersLeave(s, e, next.src);
      }
    }
  }

  // -- Whole operations ------------------------------------------------------------------------------------------

  /** An operation of several steps on h, with its source if it has one, may start. */
  predicate MayStart(s: State, e: Event) {
    match e
    case CopyConstruct(h, src) => Quiet(s, h, Raw) && Readable(s, src)
    case MoveConstruct(h, src) => Quiet(s, h, Raw) && Quiet(s, src, Idle)
    case CopyAssign(h, src) => h != src && Quiet(s, h, Idle) && Readable(s, src)
    case MoveAssign(h, src) => h != src && Quiet(s, h, Idle) && Quiet(s, src, Idle)
    case Destroy(h) => Quiet(s, h, Idle)
    case _ => false
  }

  function Operation(e: Event): Then {
    match e
    case CopyConstruct(_, src) => Copy(src)
    case CopyAssign(_, src) => Copy(src)
    case MoveConstruct(_, src) => Move(src)
    case MoveAssign(_, src) => Move(src)
    case _ => Die
  }

  /** The pointer of the source, where there is one. */
  function SourcePointer(s: State, e: Event): Option<nat>
    requires MayStart(s, e)
  {
    match Operation(e)
    case Die => None
    case Copy(src) => s.handles[src].ctrl
    case Move(src) => s.handles[src].ctrl
  }

  lemma OperationStarts(s: State, e: Event)
    requires Inv(s) && MayStart(s, e)
    ensures UnderWay(Step(s, e), e.h, Operation(e), SourcePointer(s, e))
    ensures Step(s, e).handles[e.h].ctrl == s.handles[e.h].ctrl
  {
    StepInv(s, e);
    hide Inv;
  }

  lemma DoneIsAtRest(s: State, h: nat, next: Then, was: Option<nat>)
    requires Done(s, h, next, was)
    ensures AtRest(s.handles[h].phase)
  {
  }

  lemma {:induction false} UnderWayRun(s: State, h: nat, next: Then, was: Option<nat>, events: seq<Event>)
    requires UnderWay(s, h, next, was)
    requires forall n :: 0 <= n < |events| ==> !AtRest(Run(s, events[..n]).handles[h].phase)
    ensures UnderWay(Run(s, events), h, next, was) || Done(Run(s, events), h, next, was)
    decreases |events|
  {
    if events != [] {
      var before, e := events[..|events| - 1], events[|events| - 1];
      forall n | 0 <= n < |before|
        ensures !AtRest(Run(s, before[..n]).handles[h].phase)
      {
        assert before[..n] == events[..n];
      }
      UnderWayRun(s, h, next, was, before);
      var t := Run(s, before);
      assert !AtRest(t.handles[h].phase);
      if Done(t, h, next, was) {
        DoneIsAtRest(t, h, next, was);
      }
      hide UnderWay, Done, Step;
      if e == Continue(h) {
        OwnStep(t, h, next, was);
      } else {
        OtherStep(t, e, h, next, was);
      }
    }
  }

  /** The run after the start of e up to its end: h is at rest then, and not before. */
  ghost predicate Completes(s: State, e: Event, events: seq<Event>) {
    && MayStart(s, e) && e.h < |s.handles|
    && (forall n :: 0 <= n < |events| ==> !AtRest(Run(Step(s, e), events[..n]).handles[e.h].phase))
    && AtRest(Run(Step(s, e), events).handles[e.h].phase)
  }

  /** What each operation does, from any reachable state and whatever goes on on other handles
      meanwhile: a copy shares the pointer of its source, a move takes it, destruction leaves
      nothing; the share in the old block is given up, and the block freed if it was the last. */
  lemma OperationDoes(handles: nat, before: seq<Event>, e: Event, events: seq<Event>)
    requires Completes(Reached(handles, before), e, events)
    ensures var s := Reached(handles, before);
            var t := Run(Step(s, e), events);
            match e
            case CopyConstruct(h, src) => t.handles[h] == s.handles[src] == t.handles[src]
            case CopyAssign(h, src) => t.handles[h] == s.handles[src] == t.handles[src]
            case MoveConstruct(h, src) => t.handles[h] == s.handles[src] && t.handles[src] == Handle(None, Idle)
            case MoveAssign(h, src) => t.handles[h] == s.handles[src] && t.handles[src] == Handle(None, Idle)
            case Destroy(h) => t.handles[h].phase == Raw
            case _ => false
    ensures var t := Run(Step(Reached(handles, before), e), events);
            forall b: nat :: b < |t.blocks| ==>
              && t.blocks[b].count == Owners(t.handles, b)
              && (t.blocks[b].zeroSeenBy == [e.h] ==> FullyFreed(t.blocks[b]))
  {
    var s := Reached(handles, before);
    var t := Run(Step(s, e), events);
    ReachedInv(handles, before);
    OperationStarts(s, e);
    StepInv(s, e);
    UnderWayRun(Step(s, e), e.h, Operation(e), SourcePointer(s, e), events);
    RunInv(Step(s, e), events);
    forall b: nat | b < |t.blocks|
      ensures t.blocks[b].count == Owners(t.handles, b)
      ensures t.blocks[b].zeroSeenBy == [e.h] ==> FullyFreed(t.blocks[b])
    {
      assert BlockOk(t, b);
    }
  }

  lemma {:induction false} RunInv(s: State, events: seq<Event>)
    requires Inv(s)
    ensures Inv(Run(s, events))
    decreases |events|
  {
    if events != [] {
      hide Inv, Step;
      RunInv(s, events[..|events| - 1]);
      StepInv(Run(s, events[..|events| - 1]), events[|events| - 1]);
    }
  }

  /** Construction from a pointer makes its handle the only owner of a new block. */
  lemma ConstructDoes(handles: nat, before: seq<Event>, h: nat, fromPointer: bool)
    requires h < handles && Reached(handles, before).handles[h].phase == Raw
    ensures var s := Reached(handles, before);
            var t := Step(s, Construct(h, fromPointer));
            && t.handles[h] == Handle(if fromPointer then Some(|s.blocks|) else None, Idle)
            && |t.blocks| == |s.blocks| + (if fromPointer then 1 else 0) && t.blocks[..|s.blocks|] == s.blocks
            && (fromPointer ==>
                  && t.blocks[|s.blocks|].count == 1
                  && forall k: nat :: k < handles && k != h ==> !Owns(t.handles[k], |s.blocks|))
  {
    var s := Reached(handles, before);
    ReachedInv(handles, before);
    BusyIsUnread(s, h);
    assert Quiet(s, h, Raw);
    forall k: nat | k < handles && k != h
      ensures !Owns(s.handles[k], |s.blocks|)
    {
      assert HandleOk(s, k);
    }
  }

  lemma SwapDoes(s: State, h: nat, g: nat)
    requires Quiet(s, h, Idle) && Quiet(s, g, Idle)
    ensures var t := Step(s, Swap(h, g));
            && t.handles[h] == s.handles[g] && t.handles[g] == s.handles[h] && t.blocks == s.blocks
  {
  }

  /** The handles that a step is about. */
  predicate Concerns(s: State, e: Event, k: nat) {
    match e
    case Swap(h, g) => k == h || k == g
    case Continue(h) =>
      k == h || (h < |s.handles| && s.handles[h].phase.ClearingSource? && s.handles[h].phase.src == k)
    case _ => k == e.h
  }

  /** No step changes another: a copy leaves its source alone, a move only clears it. */
  lemma OthersUntouched(s: State, e: Event, k: nat)
    requires k < |s.handles| && !Concerns(s, e, k)
    ensures Step(s, e).handles[k] == s.handles[k]
  {
    hide Read, Written;
  }

  function StepsLeft(p: Phase): nat {
    match p
    case Raw => 0
    case Idle => 0
    case Incrementing(_) => 1
    case ClearingSource(_) => 1
    case Released(_) => 2
    case FreeingBlock(_) => 3
    case ClearingPtr(_) => 4
    case FreeingObject(_) => 5
    case Releasing(_) => 6
  }

  lemma AdvanceProgresses(s: State, h: nat)
    requires Inv(s) && h < |s.handles| && StepsLeft(s.handles[h].phase) > 0
    ensures StepsLeft(Advance(s, h).handles[h].phase) < StepsLeft(s.handles[h].phase)
  {
    AdvanceInv(s, h);
    assert HandleOk(s, h);
  }

  ghost predicate Finishes(handles: nat, events: seq<Event>, h: nat, n: nat)
    requires h < handles
  {
    Reached(handles, events + seq(n, _ => Continue(h))).handles[h].phase in {Raw, Idle}
  }

  /** No operation ever waits for another thread: from every reachable state its own next steps,
      at most six, finish it. */
  lemma {:induction false} OperationsFinish(handles: nat, events: seq<Event>, h: nat)
    requires h < handles
    ensures exists n: nat ::
              n <= StepsLeft(Reached(handles, events).handles[h].phase) && Finishes(handles, events, h, n)
    decreases StepsLeft(Reached(handles, events).handles[h].phase)
  {
    var s := Reached(handles, events);
    if StepsLeft(s.handles[h].phase) == 0 {
      assert events + seq(0, _ => Continue(h)) == events;
      assert Finishes(handles, events, h, 0);
    } else {
      ReachedInv(handles, events);
      AdvanceProgresses(s, h);
      var more := events + [Continue(h)];
      assert more[..|events|] == events;
      OperationsFinish(handles, more, h);
      var n: nat :| n <= StepsLeft(Reached(handles, more).handles[h].phase) && Finishes(handles, more, h, n);
      assert more + seq(n, _ => Continue(h)) == events + seq(n + 1, _ => Continue(h));
      assert Finishes(handles, events, h, n + 1);
    }
  }
}
