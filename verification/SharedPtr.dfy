/** The classes of `improved-shared-ptr.h` (and of `mypointer.h`, whose operations are the same
    without `reset` and `swap`), for one thread: control blocks that their handles update in place. */
module SharedPtr {

  class ControlBlock {
    var refCount: nat
    var weakCount: nat
    var ptrIsNull: bool
    // The handles that share the block; how often its object has been deleted; whether the block
    // itself has been.
    ghost var owners: set<SharedPtr>
    ghost var deletions: nat
    ghost var freed: bool

    /** The count is the number of owners, all of which point here, and the object has been
        deleted, once, if and only if there are none. */
    ghost predicate Valid()
      reads this, owners
    {
      && refCount == |owners|
      && weakCount == 0
      && (forall o :: o in owners ==> o.ctrl == this)
      && deletions == (if owners == {} then 1 else 0)
      && (ptrIsNull <==> owners == {})
      && (freed ==> owners == {})
    }

    /** As found between operations: freed as soon as nobody shares it. */
    ghost predicate Settled()
      reads this, owners
    {
      Valid() && (freed <==> owners == {})
    }

    /** A live block that one of its owners has stopped pointing to and another pointer has started to. */
    ghost predicate Passing(giver: SharedPtr, taker: SharedPtr)
      reads this, owners, taker
    {
      && refCount == |owners|
      && weakCount == 0 && deletions == 0 && !ptrIsNull && !freed
      && giver in owners && taker !in owners && taker.ctrl == this
      && forall o :: o in owners && o != giver ==> o.ctrl == this
    }

    constructor ()
      ensures refCount == 1 && weakCount == 0 && !ptrIsNull && owners == {} && deletions == 0 && !freed
    {
      refCount, weakCount, ptrIsNull := 1, 0, false;
      owners, deletions, freed := {}, 0, false;
    }

    method IncrementRef(ghost who: SharedPtr)
      requires Valid() && owners != {} && who !in owners && who.ctrl == this
      modifies this
      ensures Valid() && owners == old(owners) + {who} && freed == old(freed)
    {
      refCount := refCount + 1;
      owners := owners + {who};
    }

    /** Deletes the object if that was the last share; whether to delete the block. */
    method DecrementRef(ghost who: SharedPtr) returns (last: bool)
      requires Valid() && who in owners
      modifies this
      ensures Valid() && owners == old(owners) - {who} && freed == old(freed)
      ensures last <==> owners == {}
    {
      assert |owners - {who}| == |owners| - 1;
      refCount := refCount - 1;
      owners := owners - {who};
      if refCount == 0 {
        Destroy();
        ptrIsNull := true;
        return weakCount == 0;
      }
      return false;
    }

    /** A pointer that moves takes its share along. */
    ghost method GiveShare(giver: SharedPtr, taker: SharedPtr)
      requires Passing(giver, taker)
      modifies this`owners
      ensures Settled() && owners == old(owners) - {giver} + {taker}
    {
      owners := owners - {giver} + {taker};
    }

    /** Deletes the object, or gives it to the deleter. */
    method Destroy()
      modifies this`deletions
      ensures deletions == old(deletions) + 1
    {
      deletions := deletions + 1;
    }

    /** The destructor, with its assertions. */
    method Free()
      requires refCount == 0 && ptrIsNull && !freed
      modifies this`freed
      ensures freed
    {
      assert refCount == 0;
      assert ptrIsNull;
      freed := true;
    }
  }

  class SharedPtr {
    var ctrl: ControlBlock?

    ghost predicate Valid()
      reads this, ctrl, if ctrl != null then ctrl.owners else {}
    {
      ctrl != null ==> ctrl.Settled() && this in ctrl.owners
    }

    /** The block, if there is one. */
    ghost function Block(): set<object>
      reads this
    {
      if ctrl == null then {} else {ctrl}
    }

    constructor ()
      ensures ctrl == null && Valid()
    {
      ctrl := null;
    }

    /** Of a raw pointer that nobody else has been given. */
    constructor FromPointer(isNull: bool)
      ensures Valid()
      ensures isNull ==> ctrl == null
      ensures !isNull ==> ctrl != null && fresh(ctrl) && ctrl.owners == {this}
    {
      if isNull {
        ctrl := null;
      } else {
        var block := new ControlBlock();
        ctrl := block;
      }
      new;
      if !isNull {
        ctrl.owners := {this};
      }
    }

    constructor Copy(rhs: SharedPtr)
      requires rhs.Valid()
      modifies rhs.Block()
      ensures Valid() && rhs.Valid() && ctrl == rhs.ctrl
      ensures ctrl != null ==> ctrl.owners == old(rhs.ctrl.owners) + {this}
    {
      ctrl := rhs.ctrl;
      new;
      if ctrl != null {
        ctrl.IncrementRef(this);
      }
    }

    constructor Move(rhs: SharedPtr)
      requires rhs.Valid()
      modifies rhs, rhs.Block()
      ensures Valid() && rhs.ctrl == null && ctrl == old(rhs.ctrl)
      ensures ctrl != null ==> ctrl.owners == old(rhs.ctrl.owners) - {rhs} + {this}
    {
      ctrl := rhs.ctrl;
      new;
      rhs.ctrl := null;
      if ctrl != null {
        ctrl.GiveShare(rhs, this);
      }
    }

    /** The start of every assignment, and the whole of the destructor. */
    method Release()
      requires Valid()
      modifies Block()
      ensures ctrl != null ==> ctrl.Settled() && ctrl.owners == old(ctrl.owners) - {this}
    {
      if ctrl != null {
        var last := ctrl.DecrementRef(this);
        if last {
          ctrl.Free();
        }
      }
    }

    method CopyAssign(rhs: SharedPtr)
      requires Valid() && rhs.Valid()
      modifies this, Block(), rhs.Block()
      ensures Valid() && rhs.Valid()
      ensures ctrl == rhs.ctrl == old(rhs.ctrl)
      ensures this != rhs && ctrl != null ==> ctrl.owners == old(rhs.ctrl.owners) + {this}
      ensures this == rhs && ctrl != null ==> ctrl.owners == old(ctrl.owners)
      ensures var was := old(ctrl);
              was != null && was != ctrl ==> was.Settled() && was.owners == old(ctrl.owners) - {this}
    {
      if this != rhs {
        Release();
        ctrl := rhs.ctrl;
        if ctrl != null {
          ctrl.IncrementRef(this);
        }
      }
    }

    method MoveAssign(rhs: SharedPtr)
      requires Valid() && rhs.Valid()
      modifies this, rhs, Block(), rhs.Block()
      ensures Valid() && rhs.Valid()
      ensures ctrl == old(rhs.ctrl) && (this != rhs ==> rhs.ctrl == null)
      ensures this != rhs && ctrl != null ==> ctrl.owners == old(rhs.ctrl.owners) - {rhs} + {this}
      ensures this == rhs && ctrl != null ==> ctrl.owners == old(ctrl.owners)
      ensures var was := old(ctrl);
              was != null && was != ctrl ==> was.Settled() && was.owners == old(ctrl.owners) - {this}
    {
      if this != rhs {
        Release();
        ctrl := rhs.ctrl;
        rhs.ctrl := null;
        if ctrl != null {
          ctrl.GiveShare(rhs, this);
        }
      }
    }

    method Swap(rhs: SharedPtr)
      requires Valid() && rhs.Valid()
      modifies this, rhs, Block(), rhs.Block()
      ensures Valid() && rhs.Valid() && ctrl == old(rhs.ctrl) && rhs.ctrl == old(ctrl)
      ensures ctrl == rhs.ctrl && ctrl != null ==> ctrl.owners == old(ctrl.owners)
      ensures ctrl != rhs.ctrl && ctrl != null ==> ctrl.owners == old(rhs.ctrl.owners) - {rhs} + {this}
      ensures ctrl != rhs.ctrl && rhs.ctrl != null ==> rhs.ctrl.owners == old(ctrl.owners) - {this} + {rhs}
    {
      ctrl, rhs.ctrl := rhs.ctrl, ctrl;
      if ctrl != rhs.ctrl {
        if ctrl != null {
          ctrl.GiveShare(rhs, this);
        }
        if rhs.ctrl != null {
          rhs.ctrl.GiveShare(this, rhs);
        }
      }
    }

    /** The destructor. */
    method Destroy()
      requires Valid()
      modifies Block()
      ensures ctrl != null ==> ctrl.Settled() && ctrl.owners == old(ctrl.owners) - {this}
    {
      Release();
    }

    /** Swaps with an empty handle, which is destroyed. */
    method Reset()
      requires Valid()
      modifies this, Block()
      ensures Valid() && ctrl == null
      ensures var was := old(ctrl);
              was != null ==> was.Settled() && was.owners == old(ctrl.owners) - {this}
    {
      var temporary := new SharedPtr();
      temporary.Swap(this);
      temporary.Destroy();
    }

    /** Swaps with a handle of a new pointer, which is destroyed. */
    method ResetTo(isNull: bool)
      requires Valid()
      modifies this, Block()
      ensures Valid() && (ctrl == null <==> isNull)
      ensures ctrl != null ==> fresh(ctrl) && ctrl.owners == {this}
      ensures var was := old(ctrl);
              was != null ==> was.Settled() && was.owners == old(ctrl.owners) - {this}
    {
      var temporary := new SharedPtr.FromPointer(isNull);
      temporary.Swap(this);
      temporary.Destroy();
    }

    method UseCount() returns (n: nat)
      requires Valid()
      ensures n == if ctrl == null then 0 else |ctrl.owners|
    {
      return if ctrl == null then 0 else ctrl.refCount;
    }
  }
}
