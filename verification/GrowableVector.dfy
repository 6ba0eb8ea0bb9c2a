/** The growable vector of `myvector.h`. */
module GrowableVector {

  const INIT_CAPACITY: nat := 4

  /** `size_t` of the growth factor 1.5 times a size, computed exactly. */
  function Grown(n: nat): (c: nat)
    ensures 2 * c <= 3 * n < 2 * c + 2
  {
    3 * n / 2
  }

  // -- Storage -----------------------------------------------------------------------------------

  /** A place for an element: without an object, with one, or with one whose value has been moved
      out and that is still to be destroyed. */
  datatype Slot<T> = Raw | Live(value: T) | MovedOut

  method Allocate<T>(n: nat) returns (a: array<Slot<T>>)
    ensures fresh(a) && a.Length == n && forall i :: 0 <= i < n ==> a[i].Raw?
  {
    a := new Slot<T>[n](_ => Raw);
  }

  /** No object is constructed over another. */
  method ConstructAt<T>(a: array<Slot<T>>, i: nat, value: T)
    requires i < a.Length && a[i].Raw?
    modifies a
    ensures a[..] == old(a[..])[i := Live(value)]
  {
    a[i] := Live(value);
  }

  method MoveOut<T>(a: array<Slot<T>>, i: nat) returns (value: T)
    requires i < a.Length && a[i].Live?
    modifies a
    ensures value == old(a[i].value) && a[..] == old(a[..])[i := MovedOut]
  {
    value := a[i].value;
    a[i] := MovedOut;
  }

  /** Nothing is destroyed that is not there. */
  method DestroyAt<T>(a: array<Slot<T>>, i: nat)
    requires i < a.Length && !a[i].Raw?
    modifies a
    ensures a[..] == old(a[..])[i := Raw]
  {
    a[i] := Raw;
  }

  /** Storage is given back only when every object in it has been destroyed. */
  method Deallocate<T>(a: array<Slot<T>>)
    requires forall i :: 0 <= i < a.Length ==> a[i].Raw?
  {
  }

  /** The values of the first n slots. */
  function Values<T>(slots: seq<Slot<T>>, n: nat): (vs: seq<T>)
    requires n <= |slots| && forall i :: 0 <= i < n ==> slots[i].Live?
    ensures |vs| == n && forall i :: 0 <= i < n ==> vs[i] == slots[i].value
  {
    seq(n, i requires 0 <= i < n => slots[i].value)
  }

  // -- The vector ----------------------------------------------------------------------------------

  class Vector<T> {
    var arr: array?<Slot<T>>
    var capacity: nat
    var size: nat
    ghost var relocated: nat // elements moved to new storage so far

    /** Objects are in exactly the first `size` places, and there is room for four. */
    ghost predicate Valid()
      reads this, arr
    {
      && arr != null && arr.Length == capacity && INIT_CAPACITY <= capacity
      && size <= capacity
      && (forall i :: 0 <= i < size ==> arr[i].Live?)
      && (forall i :: size <= i < capacity ==> arr[i].Raw?)
    }

    /** Moved from: to be assigned to or destroyed only. The capacity is stale. */
    ghost predicate MovedFrom()
      reads this
    {
      arr == null && size == 0
    }

    ghost function Contents(): seq<T>
      requires Valid()
      reads this, arr
    {
      Values(arr[..], size)
    }

    ghost function Storage(): set<object>
      reads this
    {
      if arr == null then {} else {arr}
    }

    constructor ()
      ensures Valid() && Contents() == [] && capacity == INIT_CAPACITY && relocated == 0 && fresh(Storage())
    {
      capacity, size, relocated := INIT_CAPACITY, 0, 0;
      new;
      arr := Allocate(INIT_CAPACITY);
    }

    constructor Copy(rhs: Vector<T>)
      requires rhs.Valid()
      ensures Valid() && Contents() == rhs.Contents() && capacity == rhs.capacity && relocated == 0 && fresh(Storage())
    {
      capacity, size, relocated := rhs.capacity, rhs.size, 0;
      new;
      var a := Allocate<T>(rhs.capacity);
      for i := 0 to rhs.size
        modifies a
        invariant a.Length == rhs.capacity && fresh(a)
        invariant forall j :: 0 <= j < i ==> a[j] == rhs.arr[j]
        invariant forall j :: i <= j < a.Length ==> a[j].Raw?
      {
        ConstructAt(a, i, rhs.arr[i].value);
      }
      arr := a;
    }

    /** Takes the storage of the other, which keeps none. */
    constructor Move(rhs: Vector<T>)
      requires rhs.Valid()
      modifies rhs
      ensures Valid() && rhs.MovedFrom() && arr == old(rhs.arr)
      ensures Contents() == old(rhs.Contents()) && capacity == old(rhs.capacity) && relocated == 0
    {
      arr, capacity, size, relocated := rhs.arr, rhs.capacity, rhs.size, 0;
      new;
      rhs.arr := null;
      rhs.size := 0;
    }

    method Swap(rhs: Vector<T>)
      modifies this`arr, this`capacity, this`size, rhs`arr, rhs`capacity, rhs`size
      ensures arr == old(rhs.arr) && capacity == old(rhs.capacity) && size == old(rhs.size)
      ensures rhs.arr == old(arr) && rhs.capacity == old(capacity) && rhs.size == old(size)
    {
      arr, rhs.arr := rhs.arr, arr;
      capacity, rhs.capacity := rhs.capacity, capacity;
      size, rhs.size := rhs.size, size;
    }

    /** The destructor: destroys every element. */
    method Destroy()
      requires Valid() || MovedFrom()
      modifies Storage()
      ensures arr != null ==> forall i :: 0 <= i < arr.Length ==> arr[i].Raw?
    {
      if arr == null {
        return;
      }
      for i := 0 to size
        invariant forall j :: 0 <= j < i ==> arr[j].Raw?
        invariant forall j :: i <= j < size ==> arr[j].Live?
        invariant forall j :: size <= j < arr.Length ==> arr[j].Raw?
      {
        DestroyAt(arr, i);
      }
      Deallocate(arr);
    }

    method CopyAssign(rhs: Vector<T>)
      requires rhs.Valid() && (Valid() || MovedFrom()) && (this != rhs ==> Storage() !! rhs.Storage())
      modifies this`arr, this`capacity, this`size, Storage()
      ensures Valid() && rhs.Valid() && rhs.Contents() == old(rhs.Contents()) && Contents() == old(rhs.Contents())
      ensures if this == rhs then arr == old(arr) else fresh(Storage()) && capacity == old(rhs.capacity)
    {
      if this != rhs {
        var copy := new Vector.Copy(rhs);
        copy.Swap(this);
        copy.Destroy();
      }
    }

    method MoveAssign(rhs: Vector<T>)
      requires rhs.Valid() && (Valid() || MovedFrom()) && (this != rhs ==> Storage() !! rhs.Storage())
      modifies this`arr, this`capacity, this`size, rhs, Storage()
      ensures Valid() && Contents() == old(rhs.Contents()) && arr == old(rhs.arr)
      ensures this != rhs ==> rhs.MovedFrom()
    {
      if this != rhs {
        var moved := new Vector.Move(rhs);
        moved.Swap(this);
        moved.Destroy();
      }
    }

    method Reserve(newCap: nat)
      requires Valid()
      modifies this, arr
      ensures Valid() && Contents() == old(Contents()) && size == old(size)
      ensures capacity == if newCap <= old(capacity) then old(capacity) else newCap
      ensures relocated == old(relocated) + if newCap <= old(capacity) then 0 else size
      ensures arr == old(arr) || fresh(arr)
    {
      if newCap <= capacity {
        return;
      }
      ghost var before := Contents();
      var newArr := Allocate<T>(newCap);
      for i := 0 to size
        invariant arr == old(arr) && size == old(size) && fresh(newArr) && newArr.Length == newCap
        invariant capacity == old(capacity) && relocated == old(relocated)
        invariant forall j :: 0 <= j < i ==> newArr[j] == Live(before[j]) && arr[j].MovedOut?
        invariant forall j :: i <= j < newCap ==> newArr[j].Raw?
        invariant forall j :: i <= j < size ==> arr[j] == Live(before[j])
        invariant forall j :: size <= j < arr.Length ==> arr[j].Raw?
      {
        var value := MoveOut(arr, i);
        ConstructAt(newArr, i, value);
      }
      for i := 0 to size
        invariant arr == old(arr) && size == old(size) && fresh(newArr) && newArr.Length == newCap
        invariant capacity == old(capacity) && relocated == old(relocated)
        invariant forall j :: 0 <= j < size ==> newArr[j] == Live(before[j])
        invariant forall j :: size <= j < newCap ==> newArr[j].Raw?
        invariant forall j :: 0 <= j < i ==> arr[j].Raw?
        invariant forall j :: i <= j < size ==> arr[j].MovedOut?
        invariant forall j :: size <= j < arr.Length ==> arr[j].Raw?
      {
        DestroyAt(arr, i);
      }
      Deallocate(arr);
      arr := newArr;
      capacity := newCap;
      relocated := relocated + size;
    }

    /** Cuts the vector off, or fills it up with default values. */
    method Resize(newSize: nat, defaultValue: T)
      requires Valid()
      modifies this, arr
      ensures Valid() && size == newSize
      ensures forall i :: 0 <= i < newSize && i < old(size) ==> Contents()[i] == old(Contents())[i]
      ensures forall i :: old(size) <= i < newSize ==> Contents()[i] == defaultValue
      ensures Contents() == Resized(old(Contents()), newSize, defaultValue)
      ensures newSize < old(capacity) || newSize <= old(size) ==> capacity == old(capacity)
      ensures newSize >= old(capacity) && newSize > old(size) ==> 2 * capacity <= 3 * newSize < 2 * capacity + 2
      ensures arr == old(arr) || fresh(arr)
    {
      if newSize <= size {
        DestroyFrom(newSize);
      } else {
        var newCap := if capacity > newSize then capacity else Grown(newSize);
        Reserve(newCap);
        FillUp(newSize, defaultValue);
      }
    }

    method DestroyFrom(newSize: nat)
      requires Valid() && newSize <= size
      modifies this`size, arr
      ensures Valid() && Contents() == old(Contents())[..newSize]
    {
      ghost var before := Contents();
      for i := newSize to size
        modifies arr
        invariant forall j :: 0 <= j < newSize ==> arr[j] == Live(before[j])
        invariant forall j :: newSize <= j < i ==> arr[j].Raw?
        invariant forall j :: i <= j < size ==> arr[j].Live?
        invariant forall j :: size <= j < capacity ==> arr[j].Raw?
      {
        DestroyAt(arr, i);
      }
      size := newSize;
    }

    method FillUp(newSize: nat, defaultValue: T)
      requires Valid() && size <= newSize <= capacity
      modifies this`size, arr
      ensures Valid() && Contents() == old(Contents()) + seq(newSize - old(size), _ => defaultValue)
    {
      ghost var before := Contents();
      for i := size to newSize
        modifies arr
        invariant forall j :: 0 <= j < size ==> arr[j] == Live(before[j])
        invariant forall j :: size <= j < i ==> arr[j] == Live(defaultValue)
        invariant forall j :: i <= j < capacity ==> arr[j].Raw?
      {
        ConstructAt(arr, i, defaultValue);
      }
      size := newSize;
    }

    method PushBack(val: T)
      requires Valid()
      modifies this, arr
      ensures Valid() && Contents() == old(Contents()) + [val]
      ensures old(size) < old(capacity) ==> capacity == old(capacity) && relocated == old(relocated)
      ensures old(size) == old(capacity) ==>
                && capacity > old(capacity) && 2 * capacity <= 3 * old(size) < 2 * capacity + 2
                && relocated == old(relocated) + old(size)
      ensures Cost(size, capacity, relocated) == Push(Cost(old(size), old(capacity), old(relocated)))
      ensures arr == old(arr) || fresh(arr)
    {
      if size >= capacity {
        Reserve(Grown(size));
      }
      ConstructAt(arr, size, val);
      size := size + 1;
    }

    method Get(idx: nat) returns (val: T)
      requires Valid() && idx < size
      ensures val == Contents()[idx]
    {
      val := arr[idx].value;
    }
  }

  function Resized<T>(s: seq<T>, n: nat, defaultValue: T): (r: seq<T>)
    ensures |r| == n
    ensures forall i :: 0 <= i < n ==> r[i] == if i < |s| then s[i] else defaultValue
  {
    if n <= |s| then s[..n] else s + seq(n - |s|, _ => defaultValue)
  }

  // -- Runs of any number of vectors ------------------------------------------------------------------

  /** A place for a vector: none there, one that has been moved from, or one with contents. */
  datatype Place<T> = NoVector | Emptied | Holding(contents: seq<T>)

  datatype Op<T> =
    | Construct(i: nat)
    | CopyConstruct(i: nat, j: nat)
    | MoveConstruct(i: nat, j: nat)
    | Destroy(i: nat)
    | PushBack(i: nat, val: T)
    | Resize(i: nat, newSize: nat, defaultValue: T)
    | Reserve(i: nat, newCap: nat)
    | Swap(i: nat, j: nat)
    | CopyAssign(i: nat, j: nat)
    | MoveAssign(i: nat, j: nat)

  predicate Constructs<T>(op: Op<T>) {
    op.Construct? || op.CopyConstruct? || op.MoveConstruct?
  }

  predicate Assigns<T>(op: Op<T>) {
    op.CopyAssign? || op.MoveAssign?
  }

  predicate Pairs<T>(op: Op<T>) {
    op.CopyConstruct? || op.MoveConstruct? || op.Swap? || Assigns(op)
  }

  /** A vector is constructed where there is none; one that has been moved from is assigned to or
      destroyed, or nothing. */
  predicate Allowed<T>(state: seq<Place<T>>, op: Op<T>) {
    && op.i < |state|
    && (if Constructs(op) then state[op.i].NoVector?
        else if Assigns(op) || op.Destroy? then !state[op.i].NoVector?
        else state[op.i].Holding?)
    && (Pairs(op) ==> op.j < |state| && state[op.j].Holding?)
  }

  /** What the operation does to as many sequences. */
  function Apply<T>(state: seq<Place<T>>, op: Op<T>): (after: seq<Place<T>>)
    requires Allowed(state, op)
    ensures |after| == |state|
  {
    match op
    case Construct(i) => state[i := Holding([])]
    case CopyConstruct(i, j) => state[i := state[j]]
    case MoveConstruct(i, j) => state[j := Emptied][i := state[j]]
    case Destroy(i) => state[i := NoVector]
    case PushBack(i, val) => state[i := Holding(state[i].contents + [val])]
    case Resize(i, n, defaultValue) => state[i := Holding(Resized(state[i].contents, n, defaultValue))]
    case Reserve(i, _) => state
    case Swap(i, j) => state[i := state[j]][j := state[i]]
    case CopyAssign(i, j) => state[i := state[j]]
    case MoveAssign(i, j) => if i == j then state else state[j := Emptied][i := state[j]]
  }

  ghost predicate AllAllowed<T>(state: seq<Place<T>>, ops: seq<Op<T>>)
    decreases |ops|
  {
    ops == [] || (Allowed(state, ops[0]) && AllAllowed(Apply(state, ops[0]), ops[1..]))
  }

  ghost function ApplyAll<T>(state: seq<Place<T>>, ops: seq<Op<T>>): seq<Place<T>>
    requires AllAllowed(state, ops)
    decreases |ops|
  {
    if ops == [] then state else ApplyAll(Apply(state, ops[0]), ops[1..])
  }

  /** The vectors there are, */
  ghost function Objects<T>(vs: seq<Vector?<T>>): set<object?> {
    set i | 0 <= i < |vs| && vs[i] != null :: vs[i]
  }

  /** and their storage. */
  ghost function Storages<T>(vs: seq<Vector?<T>>): set<object?>
    reads Objects(vs)
  {
    set i | 0 <= i < |vs| && vs[i] != null && vs[i].arr != null :: vs[i].arr
  }

  /** Different vectors, that share no storage. */
  ghost predicate Apart<T>(vs: seq<Vector?<T>>)
    reads Objects(vs)
  {
    forall i, j :: 0 <= i < j < |vs| && vs[i] != null && vs[j] != null ==>
      vs[i] != vs[j] && (vs[i].arr == null || vs[i].arr != vs[j].arr)
  }

  lemma There<T>(vs: seq<Vector?<T>>, i: nat)
    requires i < |vs| && vs[i] != null
    ensures vs[i] in Objects(vs) && vs[i].Storage() <= Storages(vs)
  {
  }

  lemma ObjectsUpdated<T>(vs: seq<Vector?<T>>, i: nat, v: Vector?<T>)
    requires i < |vs|
    ensures Objects(vs[i := v]) <= Objects(vs) + if v == null then {} else {v}
    ensures Storages(vs[i := v]) <= Storages(vs) + if v == null then {} else v.Storage()
  {
    var vs' := vs[i := v];
    forall k | 0 <= k < |vs'| && k != i
      ensures vs'[k] == vs[k]
    {
    }
  }

  ghost predicate Represented<T>(v: Vector?<T>, place: Place<T>)
    reads v, if v == null then {} else v.Storage()
  {
    match place
    case NoVector => v == null
    case Emptied => v != null && v.MovedFrom()
    case Holding(s) => v != null && v.Valid() && v.Contents() == s
  }

  lemma IsHolding<T>(v: Vector<T>)
    requires v.Valid()
    ensures Represented(v, Holding(v.Contents()))
  {
  }

  lemma IsEmptied<T>(v: Vector<T>)
    requires v.MovedFrom()
    ensures Represented(v, Emptied)
  {
  }

  lemma IsGone<T>()
    ensures Represented<T>(null, NoVector)
  {
  }

  ghost predicate Represents<T>(vs: seq<Vector?<T>>, state: seq<Place<T>>)
    reads Objects(vs), Storages(vs)
  {
    && |vs| == |state| && Apart(vs)
    && forall i :: 0 <= i < |vs| ==> Represented(vs[i], state[i])
  }

  method PerformOnOne<T>(vs: seq<Vector?<T>>, op: Op<T>, ghost state: seq<Place<T>>)
    requires Represents(vs, state) && Allowed(state, op) && (op.PushBack? || op.Resize? || op.Reserve?)
    modifies Objects(vs), Storages(vs)
    ensures Represents(vs, Apply(state, op))
    ensures fresh(Storages(vs) - old(Storages(vs)))
  {
    assert Represented(vs[op.i], state[op.i]);
    There(vs, op.i);
    hide Represented, Vector.Valid, Vector.Contents, Vector.MovedFrom, Resized, Grown, Push;
    match op {
      case PushBack(i, val) => vs[i].PushBack(val);
      case Resize(i, n, defaultValue) => vs[i].Resize(n, defaultValue);
      case Reserve(i, newCap) => vs[i].Reserve(newCap);
    }
    IsHolding(vs[op.i]);
  }

  method PerformSwap<T>(vs: seq<Vector?<T>>, op: Op<T>, ghost state: seq<Place<T>>)
    requires Represents(vs, state) && Allowed(state, op) && op.Swap?
    modifies Objects(vs), Storages(vs)
    ensures Represents(vs, Apply(state, op))
    ensures fresh(Storages(vs) - old(Storages(vs)))
  {
    assert Represented(vs[op.i], state[op.i]) && Represented(vs[op.j], state[op.j]);
    There(vs, op.i);
    There(vs, op.j);
    vs[op.i].Swap(vs[op.j]);
    IsHolding(vs[op.i]);
    IsHolding(vs[op.j]);
  }

  method PerformCopyAssign<T>(vs: seq<Vector?<T>>, op: Op<T>, ghost state: seq<Place<T>>)
    requires Represents(vs, state) && Allowed(state, op) && op.CopyAssign?
    modifies Objects(vs), Storages(vs)
    ensures Represents(vs, Apply(state, op))
    ensures fresh(Storages(vs) - old(Storages(vs)))
  {
    assert Represented(vs[op.i], state[op.i]) && Represented(vs[op.j], state[op.j]);
    There(vs, op.i);
    There(vs, op.j);
    hide Represented, Vector.Valid, Vector.Contents, Vector.MovedFrom, Resized, Grown, Push;
    vs[op.i].CopyAssign(vs[op.j]);
    IsHolding(vs[op.i]);
    IsHolding(vs[op.j]);
  }

  method PerformMoveAssign<T>(vs: seq<Vector?<T>>, op: Op<T>, ghost state: seq<Place<T>>)
    requires Represents(vs, state) && Allowed(state, op) && op.MoveAssign?
    modifies Objects(vs), Storages(vs)
    ensures Represents(vs, Apply(state, op))
    ensures fresh(Storages(vs) - old(Storages(vs)))
  {
    assert Represented(vs[op.i], state[op.i]) && Represented(vs[op.j], state[op.j]);
    There(vs, op.i);
    There(vs, op.j);
    hide Represented, Vector.Valid, Vector.Contents, Vector.MovedFrom, Resized, Grown, Push;
    vs[op.i].MoveAssign(vs[op.j]);
    IsHolding(vs[op.i]);
    if op.i != op.j {
      IsEmptied(vs[op.j]);
    }
  }

  method PerformConstruct<T>(vs: seq<Vector?<T>>, op: Op<T>, ghost state: seq<Place<T>>) returns (vs': seq<Vector?<T>>)
    requires Represents(vs, state) && Allowed(state, op) && op.Construct?
    modifies Objects(vs), Storages(vs)
    ensures Represents(vs', Apply(state, op))
    ensures fresh(Objects(vs') - Objects(vs)) && fresh(Storages(vs') - old(Storages(vs)))
  {
    assert Represented(vs[op.i], state[op.i]);
    var v := new Vector<T>();
    ObjectsUpdated(vs, op.i, v);
    vs' := vs[op.i := v];
  }

  method PerformCopyConstruct<T>(vs: seq<Vector?<T>>, op: Op<T>, ghost state: seq<Place<T>>)
    returns (vs': seq<Vector?<T>>)
    requires Represents(vs, state) && Allowed(state, op) && op.CopyConstruct?
    modifies Objects(vs), Storages(vs)
    ensures Represents(vs', Apply(state, op))
    ensures fresh(Objects(vs') - Objects(vs)) && fresh(Storages(vs') - old(Storages(vs)))
  {
    assert Represented(vs[op.i], state[op.i]) && Represented(vs[op.j], state[op.j]);
    There(vs, op.j);
    var v := new Vector<T>.Copy(vs[op.j]);
    ObjectsUpdated(vs, op.i, v);
    vs' := vs[op.i := v];
  }

  method PerformMoveConstruct<T>(vs: seq<Vector?<T>>, op: Op<T>, ghost state: seq<Place<T>>)
    returns (vs': seq<Vector?<T>>)
    requires Represents(vs, state) && Allowed(state, op) && op.MoveConstruct?
    modifies Objects(vs), Storages(vs)
    ensures Represents(vs', Apply(state, op))
    ensures fresh(Objects(vs') - Objects(vs)) && fresh(Storages(vs') - old(Storages(vs)))
  {
    assert Represented(vs[op.i], state[op.i]) && Represented(vs[op.j], state[op.j]);
    There(vs, op.j);
    var v := new Vector<T>.Move(vs[op.j]);
    ObjectsUpdated(vs, op.i, v);
    vs' := vs[op.i := v];
  }

  method PerformDestroy<T>(vs: seq<Vector?<T>>, op: Op<T>, ghost state: seq<Place<T>>) returns (vs': seq<Vector?<T>>)
    requires Represents(vs, state) && Allowed(state, op) && op.Destroy?
    modifies Objects(vs), Storages(vs)
    ensures Represents(vs', Apply(state, op))
    ensures fresh(Objects(vs') - Objects(vs)) && fresh(Storages(vs') - old(Storages(vs)))
  {
    assert Represented(vs[op.i], state[op.i]);
    There(vs, op.i);
    hide Represented, Vector.Valid, Vector.Contents, Vector.MovedFrom, Resized, Grown, Push;
    vs[op.i].Destroy();
    ObjectsUpdated(vs, op.i, null);
    IsGone<T>();
    vs' := vs[op.i := null];
  }

  method Perform<T>(vs: seq<Vector?<T>>, op: Op<T>, ghost state: seq<Place<T>>) returns (vs': seq<Vector?<T>>)
    requires Represents(vs, state) && Allowed(state, op)
    modifies Objects(vs), Storages(vs)
    ensures Represents(vs', Apply(state, op))
    ensures fresh(Objects(vs') - Objects(vs)) && fresh(Storages(vs') - old(Storages(vs)))
  {
    hide Represents, Apply, Objects, Storages;
    vs' := vs;
    match op {
      case Construct(_) => vs' := PerformConstruct(vs, op, state);
      case CopyConstruct(_, _) => vs' := PerformCopyConstruct(vs, op, state);
      case MoveConstruct(_, _) => vs' := PerformMoveConstruct(vs, op, state);
      case Destroy(_) => vs' := PerformDestroy(vs, op, state);
      case Swap(_, _) => PerformSwap(vs, op, state);
      case CopyAssign(_, _) => PerformCopyAssign(vs, op, state);
      case MoveAssign(_, _) => PerformMoveAssign(vs, op, state);
      case _ => PerformOnOne(vs, op, state);
    }
  }

  /** Any run of operations on any number of vectors, which come and go, refines as many sequences. */
  method PerformAll<T>(vs: seq<Vector?<T>>, ops: seq<Op<T>>, ghost state: seq<Place<T>>) returns (vs': seq<Vector?<T>>)
    requires Represents(vs, state) && AllAllowed(state, ops)
    modifies Objects(vs), Storages(vs)
    ensures Represents(vs', ApplyAll(state, ops))
  {
    hide Represents, Apply, Allowed;
    vs' := vs;
    ghost var current := state;
    for k := 0 to |ops|
      invariant Represents(vs', current) && AllAllowed(current, ops[k..])
      invariant ApplyAll(current, ops[k..]) == ApplyAll(state, ops)
      invariant fresh(Objects(vs') - Objects(vs)) && fresh(Storages(vs') - old(Storages(vs)))
    {
      assert ops[k..][0] == ops[k] && ops[k..][1..] == ops[k + 1..];
      vs' := Perform(vs', ops[k], current);
      current := Apply(current, ops[k]);
    }
  }

  // -- The cost of growing ----------------------------------------------------------------------------

  /** Size, capacity and elements relocated. */
  datatype Cost = Cost(size: nat, capacity: nat, relocated: nat)

  function Push(c: Cost): Cost {
    if c.size < c.capacity then Cost(c.size + 1, c.capacity, c.relocated)
    else Cost(c.size + 1, Grown(c.size), c.relocated + c.size)
  }

  /** After n pushes on a new vector. */
  function CostOf(n: nat): Cost {
    if n == 0 then Cost(0, INIT_CAPACITY, 0) else Push(CostOf(n - 1))
  }

  /** Each relocation is paid for by the pushes since the last: n pushes on a new vector move at
      most 4n elements in all. */
  lemma {:induction false} AmortisedCost(n: nat)
    ensures CostOf(n).relocated <= 4 * n
    ensures var c := CostOf(n);
            c.size == n <= c.capacity && c.capacity >= INIT_CAPACITY && c.relocated <= 3 * c.capacity
  {
    if n > 0 {
      AmortisedCost(n - 1);
    }
  }

  lemma CostStart()
    ensures CostOf(0) == Cost(0, INIT_CAPACITY, 0)
  {
  }

  lemma CostNext(n: nat)
    ensures CostOf(n + 1) == Push(CostOf(n))
  {
  }

  lemma ContentsOfNone<T>(v: Vector<T>)
    requires v.Valid() && v.size == 0
    ensures v.Contents() == []
  {
  }

  method PushAll<T>(v: Vector<T>, vals: seq<T>)
    requires v.Valid() && v.size == v.relocated == 0 && v.capacity == INIT_CAPACITY
    modifies v, v.arr
    ensures v.Valid() && v.Contents() == vals
    ensures Cost(v.size, v.capacity, v.relocated) == CostOf(|vals|)
    ensures v.relocated <= 4 * |vals|
  {
    hide *;
    CostStart();
    assert v.Contents() == vals[..0] by {
      ContentsOfNone(v);
    }
    for i := 0 to |vals|
      invariant v.Valid() && v.Contents() == vals[..i]
      invariant v.arr == old(v.arr) || fresh(v.arr)
      invariant Cost(v.size, v.capacity, v.relocated) == CostOf(i)
    {
      v.PushBack(vals[i]);
      CostNext(i);
      assert vals[..i + 1] == vals[..i] + [vals[i]];
    }
    assert vals[..|vals|] == vals;
    AmortisedCost(|vals|);
  }
}
