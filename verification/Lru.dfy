/** The LRU cache of `lru.h`: its list and table, the recency history they stand for, and how
    its misses compare with those of any other replacement policy. */
module Lru {

  import opened Options

  datatype Entry<K, V> = Entry(key: K, value: V)

  /** The result of `get`, which throws when the key is not cached. */
  datatype Lookup<V> = Found(value: V) | KeyNotFound

  // -- Lists without repetition -------------------------------------------------------

  function Remove<K(==)>(l: seq<K>, x: K): seq<K> {
    if l == [] then [] else (if l[0] == x then [] else [l[0]]) + Remove(l[1..], x)
  }

  function MoveToFront<K(==)>(l: seq<K>, x: K): seq<K> {
    [x] + Remove(l, x)
  }

  function Take<K>(n: nat, l: seq<K>): seq<K> {
    if |l| <= n then l else l[..n]
  }

  lemma {:induction false} RemoveMembers<K>(l: seq<K>, x: K)
    requires NoDup(l)
    ensures forall y :: y in Remove(l, x) ==> y in l && y != x
    ensures forall y :: y in l && y != x ==> y in Remove(l, x)
    ensures NoDup(Remove(l, x))
    ensures |Remove(l, x)| == if x in l then |l| - 1 else |l|
    decreases |l|
  {
    if l != [] {
      assert l == [l[0]] + l[1..];
      RemoveMembers(l[1..], x);
      var rest := Remove(l[1..], x);
      assert forall i :: 0 <= i < |rest| ==> rest[i] in rest;
      assert l[0] !in l[1..];
    }
  }

  lemma RemovedAt<K>(l: seq<K>, x: K, i: nat)
    requires NoDup(l) && i < |Remove(l, x)|
    ensures Remove(l, x)[i] in l && Remove(l, x)[i] != x
  {
    RemoveMembers(l, x);
    assert Remove(l, x)[i] in Remove(l, x);
  }

  lemma {:induction false} RemoveAbsent<K>(l: seq<K>, x: K)
    requires x !in l
    ensures Remove(l, x) == l
    decreases |l|
  {
    if l != [] {
      assert l == [l[0]] + l[1..];
      RemoveAbsent(l[1..], x);
    }
  }

  lemma {:induction false} RemoveConcat<K>(a: seq<K>, b: seq<K>, x: K)
    ensures Remove(a + b, x) == Remove(a, x) + Remove(b, x)
    decreases |a|
  {
    if a == [] {
      assert a + b == b;
    } else {
      assert (a + b)[1..] == a[1..] + b;
      RemoveConcat(a[1..], b, x);
    }
  }

  /** Keeping the n most recent of a list after a use is using the n most recent of it. */
  lemma TakeMoveToFront<K>(n: nat, l: seq<K>, x: K)
    requires n >= 1 && NoDup(l)
    ensures Take(n, MoveToFront(l, x)) ==
            if x in Take(n, l) then MoveToFront(Take(n, l), x)
            else [x] + (if |l| >= n then l[..n - 1] else l)
  {
    hide Remove;
    if |l| > n {
      var a, b := l[..n], l[n..];
      assert l == a + b;
      RemoveConcat(a, b, x);
      if x in a {
        assert |Remove(a, x)| == n - 1 by {
          RemoveMembers(a, x);
        }
        RemoveAbsent(b, x) by {
          assert forall i :: 0 <= i < |b| ==> b[i] == l[n + i];
        }
      } else {
        RemoveAbsent(a, x);
        assert (a + Remove(b, x))[..n - 1] == l[..n - 1];
      }
    } else if x in l {
      assert |Remove(l, x)| == |l| - 1 by {
        RemoveMembers(l, x);
      }
    } else {
      RemoveAbsent(l, x);
    }
  }

  // -- The cache as a list of entries -----------------------------------------------------

  function Keys<K, V>(es: seq<Entry<K, V>>): (ks: seq<K>)
    ensures |ks| == |es| && forall i :: 0 <= i < |es| ==> ks[i] == es[i].key
  {
    if es == [] then [] else [es[0].key] + Keys(es[1..])
  }

  function WithoutKey<K(==), V>(es: seq<Entry<K, V>>, k: K): seq<Entry<K, V>> {
    if es == [] then [] else (if es[0].key == k then [] else [es[0]]) + WithoutKey(es[1..], k)
  }

  /** Entries after `put`: the key goes to the front, and if it is new and the cache is full
      the last entry goes. */
  function AfterPut<K(==), V>(capacity: nat, es: seq<Entry<K, V>>, k: K, v: V): seq<Entry<K, V>> {
    if k in Keys(es) then [Entry(k, v)] + WithoutKey(es, k)
    else [Entry(k, v)] + if |es| >= capacity && es != [] then es[..|es| - 1] else es
  }

  function ValueOf<K(==), V>(es: seq<Entry<K, V>>, k: K): Lookup<V> {
    if es == [] then KeyNotFound else if es[0].key == k then Found(es[0].value) else ValueOf(es[1..], k)
  }

  /** Entries after `get`: a key that is there goes to the front. */
  function AfterGet<K(==), V>(es: seq<Entry<K, V>>, k: K): seq<Entry<K, V>> {
    match ValueOf(es, k)
    case Found(v) => [Entry(k, v)] + WithoutKey(es, k)
    case KeyNotFound => es
  }

  lemma {:induction false} WithoutKeyKeys<K, V>(es: seq<Entry<K, V>>, k: K)
    ensures Keys(WithoutKey(es, k)) == Remove(Keys(es), k)
    decreases |es|
  {
    if es != [] {
      WithoutKeyKeys(es[1..], k);
      assert Keys(es)[1..] == Keys(es[1..]);
      var rest := WithoutKey(es[1..], k);
      if es[0].key != k {
        assert Keys([es[0]] + rest) == [es[0].key] + Keys(rest);
      }
    }
  }

  lemma {:induction false} ValueOfFound<K, V>(es: seq<Entry<K, V>>, k: K)
    ensures ValueOf(es, k).Found? <==> k in Keys(es)
    ensures ValueOf(es, k).Found? ==> Entry(k, ValueOf(es, k).value) in es
    decreases |es|
  {
    if es != [] {
      assert Keys(es) == [es[0].key] + Keys(es[1..]);
      ValueOfFound(es[1..], k);
    }
  }

  lemma KeysTake<K, V>(es: seq<Entry<K, V>>, n: nat)
    requires n <= |es|
    ensures Keys(es[..n]) == Keys(es)[..n]
  {
  }

  // -- Runs and their recency history -------------------------------------------------------

  datatype Op<K, V> = PutOp(key: K, value: V) | GetOp(key: K)

  /** A cache, and the keys of all puts and successful gets so far. */
  datatype Run<K, V> = Run(entries: seq<Entry<K, V>>, uses: seq<K>)

  function Step<K(==), V>(capacity: nat, r: Run<K, V>, op: Op<K, V>): Run<K, V> {
    match op
    case PutOp(k, v) => Run(AfterPut(capacity, r.entries, k, v), r.uses + [k])
    case GetOp(k) => Run(AfterGet(r.entries, k), if ValueOf(r.entries, k).Found? then r.uses + [k] else r.uses)
  }

  function RunOf<K(==), V>(capacity: nat, ops: seq<Op<K, V>>): Run<K, V> {
    if ops == [] then Run([], []) else Step(capacity, RunOf(capacity, ops[..|ops| - 1]), ops[|ops| - 1])
  }

  /** The distinct keys of a history, most recently used first. */
  function Recent<K(==)>(uses: seq<K>): seq<K> {
    if uses == [] then [] else MoveToFront(Recent(uses[..|uses| - 1]), uses[|uses| - 1])
  }

  lemma {:induction false} RecentNoDup<K>(uses: seq<K>)
    ensures NoDup(Recent(uses))
    ensures forall k :: k in Recent(uses) <==> k in uses
    decreases |uses|
  {
    if uses != [] {
      var before, x := uses[..|uses| - 1], uses[|uses| - 1];
      assert uses == before + [x];
      RecentNoDup(before);
      RemoveMembers(Recent(before), x);
    }
  }

  /** The value of the last put of a key. */
  function LastPut<K(==), V>(ops: seq<Op<K, V>>, k: K): Lookup<V> {
    if ops == [] then KeyNotFound
    else
      var op := ops[|ops| - 1];
      if op.PutOp? && op.key == k then Found(op.value) else LastPut(ops[..|ops| - 1], k)
  }

  lemma PutKeys<K, V>(capacity: nat, es: seq<Entry<K, V>>, l: seq<K>, k: K, v: V)
    requires capacity >= 1 && NoDup(l) && Keys(es) == Take(capacity, l)
    ensures Keys(AfterPut(capacity, es, k, v)) == Take(capacity, MoveToFront(l, k))
  {
    TakeMoveToFront(capacity, l, k);
    WithoutKeyKeys(es, k);
    var e := Entry(k, v);
    if k in Keys(es) {
      assert Keys([e] + WithoutKey(es, k)) == [k] + Keys(WithoutKey(es, k));
    } else if |es| >= capacity {
      KeysTake(es, |es| - 1);
      assert Keys([e] + es[..|es| - 1]) == [k] + Keys(es)[..|es| - 1];
    } else {
      assert Keys([e] + es) == [k] + Keys(es);
    }
  }

  lemma TouchKeys<K, V>(capacity: nat, es: seq<Entry<K, V>>, l: seq<K>, k: K)
    requires capacity >= 1 && NoDup(l) && Keys(es) == Take(capacity, l) && k in Keys(es)
    ensures Keys(AfterGet(es, k)) == Take(capacity, MoveToFront(l, k))
  {
    TakeMoveToFront(capacity, l, k);
    WithoutKeyKeys(es, k);
    ValueOfFound(es, k);
    var e := Entry(k, ValueOf(es, k).value);
    assert Keys([e] + WithoutKey(es, k)) == [k] + Keys(WithoutKey(es, k));
  }

  /** After any run the list is exactly the most recently used distinct keys, up to capacity. */
  lemma {:induction false} ListIsRecency<K, V>(capacity: nat, ops: seq<Op<K, V>>)
    requires capacity >= 1
    ensures var r := RunOf(capacity, ops);
            Keys(r.entries) == Take(capacity, Recent(r.uses))
    decreases |ops|
  {
    if ops != [] {
      var before, op := RunOf(capacity, ops[..|ops| - 1]), ops[|ops| - 1];
      ListIsRecency(capacity, ops[..|ops| - 1]);
      RecentNoDup(before.uses);
      assert (before.uses + [op.key])[..|before.uses|] == before.uses;
      match op
      case PutOp(k, v) => PutKeys(capacity, before.entries, Recent(before.uses), k, v);
      case GetOp(k) =>
        ValueOfFound(before.entries, k);
        if ValueOf(before.entries, k).Found? {
          TouchKeys(capacity, before.entries, Recent(before.uses), k);
        }
    }
  }

  // -- What recency means -----------------------------------------------------------------------

  /** Where a key was last used; before everything if it never was. */
  function LastUse<K(==)>(uses: seq<K>, k: K): int {
    if uses == [] then -1
    else if uses[|uses| - 1] == k then |uses| - 1
    else LastUse(uses[..|uses| - 1], k)
  }

  lemma {:induction false} LastUseIsBefore<K>(uses: seq<K>, k: K)
    ensures LastUse(uses, k) < |uses|
    decreases |uses|
  {
    if uses != [] {
      LastUseIsBefore(uses[..|uses| - 1], k);
    }
  }

  ghost predicate ByLastUse<K>(uses: seq<K>, l: seq<K>) {
    forall i, j :: 0 <= i < j < |l| ==> LastUse(uses, l[i]) > LastUse(uses, l[j])
  }

  lemma {:induction false} RemoveByLastUse<K>(uses: seq<K>, l: seq<K>, x: K)
    requires ByLastUse(uses, l) && NoDup(l)
    ensures ByLastUse(uses, Remove(l, x))
    decreases |l|
  {
    if l != [] {
      RemoveByLastUse(uses, l[1..], x);
      var rest := Remove(l[1..], x);
      forall j | 0 <= j < |rest|
        ensures LastUse(uses, l[0]) > LastUse(uses, rest[j])
      {
        RemovedAt(l[1..], x, j);
        var i :| 0 <= i < |l[1..]| && l[1..][i] == rest[j];
        assert l[i + 1] == rest[j];
      }
    }
  }

  /** The recency list is in the order of last uses. */
  lemma {:induction false} RecentByLastUse<K>(uses: seq<K>)
    ensures NoDup(Recent(uses)) && (forall k :: k in Recent(uses) <==> k in uses)
    ensures ByLastUse(uses, Recent(uses))
    decreases |uses|
  {
    RecentNoDup(uses);
    if uses != [] {
      var before, x := uses[..|uses| - 1], uses[|uses| - 1];
      RecentByLastUse(before);
      RemoveByLastUse(before, Recent(before), x);
      var rest := Remove(Recent(before), x);
      forall j | 0 <= j < |rest|
        ensures rest[j] != x && LastUse(uses, rest[j]) == LastUse(before, rest[j]) < |uses| - 1
      {
        RemovedAt(Recent(before), x, j);
        LastUseIsBefore(before, rest[j]);
      }
    }
  }

  /** The keys after a use of k: it goes to the front, the others stay in order, and the last one goes
      exactly if k is new and the cache full. */
  function KeysAfter<K(==)>(capacity: nat, keys: seq<K>, k: K): seq<K>
    requires capacity >= 1
  {
    if k in keys then MoveToFront(keys, k)
    else if |keys| >= capacity then [k] + keys[..|keys| - 1]
    else [k] + keys
  }

  lemma HitUses<K, V>(capacity: nat, es: seq<Entry<K, V>>, k: K, v: V)
    requires capacity >= 1 && k in Keys(es)
    ensures Keys([Entry(k, v)] + WithoutKey(es, k)) == KeysAfter(capacity, Keys(es), k)
  {
    WithoutKeyKeys(es, k);
    assert Keys([Entry(k, v)] + WithoutKey(es, k)) == [k] + Keys(WithoutKey(es, k));
  }

  lemma MissUses<K, V>(capacity: nat, es: seq<Entry<K, V>>, k: K, v: V)
    requires capacity >= 1 && k !in Keys(es)
    ensures Keys(AfterPut(capacity, es, k, v)) == KeysAfter(capacity, Keys(es), k)
    ensures AfterPut(capacity, es, k, v)[0] == Entry(k, v)
  {
    if |es| >= capacity {
      KeysTake(es, |es| - 1);
      assert Keys([Entry(k, v)] + es[..|es| - 1]) == [k] + Keys(es)[..|es| - 1];
    } else {
      assert Keys([Entry(k, v)] + es) == [k] + Keys(es);
    }
  }

  lemma CacheFits<K, V>(capacity: nat, ops: seq<Op<K, V>>)
    requires capacity >= 1
    ensures |RunOf(capacity, ops).entries| <= capacity
  {
    ListIsRecency(capacity, ops);
    hide RunOf, Recent;
  }

  /** What one operation does to the cache and to the history of uses: a put uses its key, and a get
      one that is cached; a get of another changes nothing. */
  lemma OperationDoes<K, V>(capacity: nat, ops: seq<Op<K, V>>, op: Op<K, V>)
    requires capacity >= 1
    ensures var r, r' := RunOf(capacity, ops), RunOf(capacity, ops + [op]);
            if op.GetOp? && op.key !in Keys(r.entries) then r' == r
            else
              && r'.uses == r.uses + [op.key]
              && Keys(r'.entries) == KeysAfter(capacity, Keys(r.entries), op.key) && |r'.entries| <= capacity
              && (op.PutOp? ==> r'.entries[0].value == op.value)
  {
    var r := RunOf(capacity, ops);
    RunOfSnoc(capacity, ops, op);
    CacheFits(capacity, ops + [op]);
    ValueOfFound(r.entries, op.key);
    hide RunOf, KeysAfter, WithoutKey, ValueOf, Keys;
    match op
    case PutOp(k, v) =>
      if k in Keys(r.entries) {
        HitUses(capacity, r.entries, k, v);
      } else {
        MissUses(capacity, r.entries, k, v);
        hide AfterPut;
      }
    case GetOp(k) =>
      if k in Keys(r.entries) {
        HitUses(capacity, r.entries, k, ValueOf(r.entries, k).value);
      }
  }

  lemma {:induction false} WithoutKeyMembers<K, V>(es: seq<Entry<K, V>>, k: K)
    ensures forall e :: e in WithoutKey(es, k) ==> e in es && e.key != k
    decreases |es|
  {
    if es != [] {
      assert es == [es[0]] + es[1..];
      WithoutKeyMembers(es[1..], k);
    }
  }

  /** Every cached value is the one last put under its key. */
  lemma {:induction false} ValuesAreLastPut<K, V>(capacity: nat, ops: seq<Op<K, V>>)
    ensures forall e :: e in RunOf(capacity, ops).entries ==> LastPut(ops, e.key) == Found(e.value)
    decreases |ops|
  {
    if ops != [] {
      var before, op := RunOf(capacity, ops[..|ops| - 1]), ops[|ops| - 1];
      ValuesAreLastPut(capacity, ops[..|ops| - 1]);
      WithoutKeyMembers(before.entries, op.key);
      ValueOfFound(before.entries, op.key);
      forall e | e in RunOf(capacity, ops).entries
        ensures LastPut(ops, e.key) == Found(e.value)
      {
        match op
        case PutOp(k, v) =>
          if e.key != k {
            assert e in before.entries;
          } else {
            NewKeyOnce(capacity, before.entries, k, v, e);
          }
        case GetOp(k) => assert e in before.entries;
      }
    }
  }

  lemma NewKeyOnce<K, V>(capacity: nat, es: seq<Entry<K, V>>, k: K, v: V, e: Entry<K, V>)
    requires e in AfterPut(capacity, es, k, v) && e.key == k
    ensures e == Entry(k, v)
  {
    WithoutKeyMembers(es, k);
    if e in es {
      var i :| 0 <= i < |es| && es[i] == e;
      assert Keys(es)[i] == k;
    }
  }

  /** `get` returns the last value put, or throws, in every reachable cache. */
  lemma GetReturnsLastPut<K, V>(capacity: nat, ops: seq<Op<K, V>>, k: K)
    ensures ValueOf(RunOf(capacity, ops).entries, k).Found? ==>
              ValueOf(RunOf(capacity, ops).entries, k) == LastPut(ops, k)
  {
    ValuesAreLastPut(capacity, ops);
    ValueOfFound(RunOf(capacity, ops).entries, k);
  }

  // -- Serving requests: get, and put on a miss --------------------------------------------

  /** Keys cached after serving the requests with get-else-put. */
  function Served<K(==)>(capacity: nat, requests: seq<K>): seq<K> {
    Take(capacity, Recent(requests))
  }

  /** Serving one more request, through the operations of the cache. */
  lemma ServeStep<K, V>(capacity: nat, es: seq<Entry<K, V>>, requests: seq<K>, x: K, v: V)
    requires capacity >= 1 && Keys(es) == Served(capacity, requests)
    ensures var es' := if ValueOf(es, x).Found? then AfterGet(es, x) else AfterPut(capacity, es, x, v);
            Keys(es') == Served(capacity, requests + [x])
    ensures ValueOf(es, x).Found? <==> x in Served(capacity, requests)
    ensures ValueOf(es, x).KeyNotFound? ==> AfterGet(es, x) == es
  {
    RecentNoDup(requests);
    ValueOfFound(es, x);
    assert (requests + [x])[..|requests|] == requests;
    if ValueOf(es, x).Found? {
      TouchKeys(capacity, es, Recent(requests), x);
    } else {
      PutKeys(capacity, es, Recent(requests), x, v);
    }
  }

  /** Inclusion: on the same requests a smaller cache holds the front of a larger one's list. */
  lemma SmallerIsPrefix<K>(small: nat, large: nat, requests: seq<K>)
    requires small <= large
    ensures Served(small, requests) <= Served(large, requests)
  {
    if |Recent(requests)| > small && |Recent(requests)| > large {
      assert Recent(requests)[..large][..small] == Recent(requests)[..small];
    }
  }

  /** Requests that did not find their key. */
  function Misses<K(==)>(capacity: nat, requests: seq<K>): nat {
    if requests == [] then 0
    else
      var before, x := requests[..|requests| - 1], requests[|requests| - 1];
      Misses(capacity, before) + if x in Served(capacity, before) then 0 else 1
  }

  /** Before request i on key x, and after it. */
  ghost predicate Serves<K>(caches: seq<set<K>>, x: K, i: nat)
    requires i + 1 < |caches|
  {
    x in caches[i + 1] && caches[i + 1] <= caches[i] + {x}
  }

  /** Some other policy: `caches[i]` is what it holds before request i. It starts empty, keeps at
      most `capacity` keys, holds each request once served, and brings in nothing else. What it
      throws out, and when, is up to it, and it may look ahead. */
  ghost predicate Policy<K>(capacity: nat, requests: seq<K>, caches: seq<set<K>>) {
    && |caches| == |requests| + 1
    && caches[0] == {}
    && (forall c :: c in caches ==> |c| <= capacity)
    && (forall i :: 0 <= i < |requests| ==> Serves(caches, requests[i], i))
  }

  function PolicyMisses<K(==)>(requests: seq<K>, caches: seq<set<K>>, n: nat): nat
    requires n <= |requests| && n < |caches|
  {
    if n == 0 then 0
    else PolicyMisses(requests, caches, n - 1) + if requests[n - 1] in caches[n - 1] then 0 else 1
  }

  // -- The competitive ratio ------------------------------------------------------------------

  /** A phase ends before the request that would bring its distinct keys above the capacity.
      `count` phases have begun; the current one began with request `start` and has asked for `keys`. */
  datatype Phases<K> = Phases(count: nat, start: nat, keys: set<K>)

  ghost function PhasesOf<K>(capacity: nat, requests: seq<K>, n: nat): Phases<K>
    requires n <= |requests|
  {
    if n == 0 then Phases(0, 0, {})
    else
      var p, x := PhasesOf(capacity, requests, n - 1), requests[n - 1];
      if n == 1 || (x !in p.keys && |p.keys| >= capacity) then Phases(p.count + 1, n - 1, {x})
      else p.(keys := p.keys + {x})
  }

  ghost predicate Leads<K>(l: seq<K>, keys: set<K>) {
    && |keys| <= |l|
    && (forall x :: x in keys ==> x in l[..|keys|])
    && (forall i :: 0 <= i < |keys| ==> l[i] in keys)
  }

  /** The price of that many phases at `capacity` misses each. */
  function PhaseCost(capacity: nat, phases: nat): nat {
    if phases == 0 then 0 else capacity + PhaseCost(capacity, phases - 1)
  }

  lemma {:induction false} PhaseCostIs(capacity: nat, phases: nat)
    ensures PhaseCost(capacity, phases) == capacity * phases
  {
    if phases > 0 {
      PhaseCostIs(capacity, phases - 1);
      assert capacity * (phases - 1) == capacity * phases - capacity;
    }
  }

  /** The cost of LRU in terms of phases. */
  ghost predicate LruBound<K>(capacity: nat, requests: seq<K>, n: nat)
    requires n <= |requests|
  {
    var p := PhasesOf(capacity, requests, n);
    && |p.keys| <= capacity
    && Leads(Recent(requests[..n]), p.keys)
    && p.count >= 1
    && Misses(capacity, requests[..n]) <= PhaseCost(capacity, p.count - 1) + |p.keys|
  }

  lemma LeadsMove<K>(l: seq<K>, keys: set<K>, x: K)
    requires NoDup(l) && Leads(l, keys) && x in keys
    ensures Leads(MoveToFront(l, x), keys)
  {
    hide Remove;
    var d := |keys|;
    var a, b, l' := l[..d], l[d..], MoveToFront(l, x);
    assert l == a + b;
    RemoveConcat(a, b, x);
    RemoveMembers(a, x);
    hide NoDup;
    assert l'[..d] == [x] + Remove(a, x);
    forall i | 0 <= i < d
      ensures l'[i] in keys
    {
      if i > 0 {
        assert l'[i] == l'[..d][i] == Remove(a, x)[i - 1];
        assert Remove(a, x)[i - 1] in a;
      }
    }
  }

  lemma LeadsGrow<K>(l: seq<K>, keys: set<K>, x: K)
    requires NoDup(l) && Leads(l, keys) && x !in keys
    ensures Leads(MoveToFront(l, x), keys + {x})
  {
    hide Remove, NoDup;
    var d := |keys|;
    var a, b, l' := l[..d], l[d..], MoveToFront(l, x);
    assert l == a + b;
    RemoveConcat(a, b, x);
    RemoveAbsent(a, x);
    assert l'[..d + 1] == [x] + a;
    assert |keys + {x}| == d + 1;
    forall i | 0 <= i < d + 1
      ensures l'[i] in keys + {x}
    {
      assert i > 0 ==> l'[i] == l[i - 1];
    }
  }

  lemma LeadsOne<K>(l: seq<K>, x: K)
    ensures Leads(MoveToFront(l, x), {x})
  {
    assert MoveToFront(l, x)[..1] == [x];
  }

  /** Keys that lead the recency list are cached. */
  lemma LeadersCached<K>(capacity: nat, requests: seq<K>, keys: set<K>, x: K)
    requires Leads(Recent(requests), keys) && |keys| <= capacity && x in keys
    ensures x in Served(capacity, requests)
  {
    var l := Recent(requests);
    var i :| 0 <= i < |keys| && l[..|keys|][i] == x;
    assert Take(capacity, l)[i] == x;
  }

  lemma RecentSnoc<K>(requests: seq<K>, n: nat)
    requires 0 < n <= |requests|
    ensures Recent(requests[..n]) == MoveToFront(Recent(requests[..n - 1]), requests[n - 1])
    ensures NoDup(Recent(requests[..n - 1]))
  {
    assert requests[..n][..n - 1] == requests[..n - 1];
    RecentNoDup(requests[..n - 1]);
  }

  lemma MissesSnoc<K>(capacity: nat, requests: seq<K>, n: nat)
    requires 0 < n <= |requests|
    ensures Misses(capacity, requests[..n]) == Misses(capacity, requests[..n - 1]) +
                                               if requests[n - 1] in Served(capacity, requests[..n - 1]) then 0 else 1
  {
    assert requests[..n][..n - 1] == requests[..n - 1];
  }

  lemma LruBoundNewPhase<K>(capacity: nat, requests: seq<K>, n: nat)
    requires capacity >= 1 && 1 < n <= |requests| && LruBound(capacity, requests, n - 1)
    requires var p := PhasesOf(capacity, requests, n - 1); requests[n - 1] !in p.keys && |p.keys| >= capacity
    ensures LruBound(capacity, requests, n)
  {
    hide Leads, Recent, MoveToFront, Take, Misses, Served, NoDup;
    var x, p, p' := requests[n - 1], PhasesOf(capacity, requests, n - 1), PhasesOf(capacity, requests, n);
    RecentSnoc(requests, n);
    MissesSnoc(capacity, requests, n);
    LeadsOne(Recent(requests[..n - 1]), x);
    assert p'.keys == {x} && |p'.keys| == 1;
    assert PhaseCost(capacity, p'.count - 1) == capacity + PhaseCost(capacity, p.count - 1);
  }

  lemma LruBoundSamePhase<K>(capacity: nat, requests: seq<K>, n: nat)
    requires capacity >= 1 && 1 < n <= |requests| && LruBound(capacity, requests, n - 1)
    requires var p := PhasesOf(capacity, requests, n - 1); requests[n - 1] in p.keys || |p.keys| < capacity
    ensures LruBound(capacity, requests, n)
  {
    hide Leads, Recent, MoveToFront, Take, Misses, Served, NoDup, PhaseCost;
    var x, p, p' := requests[n - 1], PhasesOf(capacity, requests, n - 1), PhasesOf(capacity, requests, n);
    RecentSnoc(requests, n);
    MissesSnoc(capacity, requests, n);
    if x in p.keys {
      assert p.keys + {x} == p.keys;
      LeadsMove(Recent(requests[..n - 1]), p.keys, x);
      LeadersCached(capacity, requests[..n - 1], p.keys, x);
    } else {
      assert |p.keys + {x}| == |p.keys| + 1;
      LeadsGrow(Recent(requests[..n - 1]), p.keys, x);
    }
  }

  lemma LruBoundStep<K>(capacity: nat, requests: seq<K>, n: nat)
    requires capacity >= 1 && 0 < n <= |requests|
    requires n > 1 ==> LruBound(capacity, requests, n - 1)
    ensures LruBound(capacity, requests, n)
  {
    if n == 1 {
      var x := requests[0];
      RecentSnoc(requests, 1);
      MissesSnoc(capacity, requests, 1);
      LeadsOne(Recent(requests[..0]), x);
      assert PhasesOf(capacity, requests, 1).keys == {x} && |{x}| == 1;
    } else {
      hide LruBound;
      var x, p := requests[n - 1], PhasesOf(capacity, requests, n - 1);
      if x !in p.keys && |p.keys| >= capacity {
        LruBoundNewPhase(capacity, requests, n);
      } else {
        LruBoundSamePhase(capacity, requests, n);
      }
    }
  }

  /** What the phases of a cache of k slots cost a policy of h slots that held `held` after the
      first request of the current one, and holds `now` now: one miss at the start; for each phase
      and the request that ends it, k - h + 1 misses; and in the current phase one for each key
      asked for that was not held. What it holds now it held then, or was asked for. */
  ghost predicate Pays<K>(k: nat, h: nat, p: Phases<K>, held: set<K>, now: set<K>, misses: nat)
    requires h <= k
  {
    && p.count >= 1
    && now <= held + p.keys
    && misses >= 1 + PhaseCost(k - h + 1, p.count - 1) + |p.keys - held|
  }

  ghost predicate PolicyBound<K>(capacity: nat, slots: nat, requests: seq<K>, caches: seq<set<K>>, n: nat)
    requires slots <= capacity && 0 < n <= |requests| && Policy(slots, requests, caches)
  {
    var p := PhasesOf(capacity, requests, n);
    && p.start < n
    && Pays(capacity, slots, p, caches[p.start + 1], caches[n], PolicyMisses(requests, caches, n))
  }

  /** Asking for one more key of a phase. */
  lemma NotHeldGrows<K>(keys: set<K>, held: set<K>, x: K)
    ensures |(keys + {x}) - held| == |keys - held| + if x in keys || x in held then 0 else 1
  {
    if x in keys {
      assert keys + {x} == keys;
    } else if x in held {
      assert (keys + {x}) - held == keys - held;
    } else {
      assert (keys + {x}) - held == (keys - held) + {x};
    }
  }

  lemma NotHeldAtLeast<K>(keys: set<K>, held: set<K>)
    ensures |keys - held| >= |keys| - |held|
  {
    assert keys == (keys - held) + (keys * held);
    assert |keys * held| <= |held| by {
      assert held == (keys * held) + (held - keys);
    }
  }

  /** A request within a phase: a key neither held nor asked for before is a miss. */
  lemma PaysSame<K>(k: nat, h: nat, p: Phases<K>, held: set<K>, now: set<K>, misses: nat, x: K, now': set<K>)
    requires h <= k && Pays(k, h, p, held, now, misses) && now' <= now + {x}
    ensures Pays(k, h, p.(keys := p.keys + {x}), held, now', misses + if x in now then 0 else 1)
  {
    NotHeldGrows(p.keys, held, x);
    hide PhaseCost;
  }

  /** The request that ends a phase: of the k + 1 keys asked for, at most h were held. */
  lemma PaysNew<K>(k: nat, h: nat, p: Phases<K>, held: set<K>, now: set<K>, misses: nat, x: K, now': set<K>, start: nat)
    requires h <= k && Pays(k, h, p, held, now, misses)
    requires x !in p.keys && |p.keys| >= k && |held| <= h && x in now'
    ensures Pays(k, h, Phases(p.count + 1, start, {x}), now', now', misses + if x in now then 0 else 1)
  {
    PaysSame(k, h, p, held, now, misses, x, now);
    assert PhaseCost(k - h + 1, p.count) == k - h + 1 + PhaseCost(k - h + 1, p.count - 1);
    hide PhaseCost;
    assert |p.keys + {x}| == |p.keys| + 1;
    NotHeldAtLeast(p.keys + {x}, held);
    assert {x} - now' == {};
  }

  /** One request, and what the policy holds before and after. */
  lemma PolicyStep<K>(slots: nat, requests: seq<K>, caches: seq<set<K>>, n: nat)
    requires 0 < n <= |requests| && Policy(slots, requests, caches)
    ensures requests[n - 1] in caches[n] && caches[n] <= caches[n - 1] + {requests[n - 1]}
    ensures PolicyMisses(requests, caches, n) ==
            PolicyMisses(requests, caches, n - 1) + if requests[n - 1] in caches[n - 1] then 0 else 1
  {
    assert Serves(caches, requests[n - 1], n - 1);
  }

  lemma PolicyFits<K>(slots: nat, requests: seq<K>, caches: seq<set<K>>, i: nat)
    requires i <= |requests| && Policy(slots, requests, caches)
    ensures |caches[i]| <= slots
  {
    assert caches[i] in caches;
  }

  lemma PolicyBoundFirst<K>(capacity: nat, slots: nat, requests: seq<K>, caches: seq<set<K>>)
    requires 1 <= slots <= capacity && 0 < |requests| && Policy(slots, requests, caches)
    ensures PolicyBound(capacity, slots, requests, caches, 1)
  {
    assert PhasesOf(capacity, requests, 1) == Phases(1, 0, {requests[0]});
    assert PolicyMisses(requests, caches, 0) == 0 && caches[0] == {};
    PolicyStep(slots, requests, caches, 1);
    hide PhasesOf, Policy, PolicyMisses;
    assert {requests[0]} - caches[1] == {};
  }

  lemma PolicyBoundSame<K>(capacity: nat, slots: nat, requests: seq<K>, caches: seq<set<K>>, n: nat, p: Phases<K>)
    requires 1 <= slots <= capacity && 1 < n <= |requests| && Policy(slots, requests, caches)
    requires PolicyBound(capacity, slots, requests, caches, n - 1) && p == PhasesOf(capacity, requests, n - 1)
    requires requests[n - 1] in p.keys || |p.keys| < capacity
    ensures PolicyBound(capacity, slots, requests, caches, n)
  {
    var x := requests[n - 1];
    assert |caches| == |requests| + 1;
    assert PhasesOf(capacity, requests, n) == p.(keys := p.keys + {x});
    PolicyStep(slots, requests, caches, n);
    hide PhasesOf, Policy, PolicyMisses, Pays;
    PaysSame(capacity, slots, p, caches[p.start + 1], caches[n - 1],
             PolicyMisses(requests, caches, n - 1), x, caches[n]);
  }

  lemma PhasesNew<K>(capacity: nat, requests: seq<K>, n: nat, p: Phases<K>)
    requires 1 <= capacity && 1 < n <= |requests| && p == PhasesOf(capacity, requests, n - 1)
    requires requests[n - 1] !in p.keys && |p.keys| >= capacity
    ensures PhasesOf(capacity, requests, n) == Phases(p.count + 1, n - 1, {requests[n - 1]})
  {
  }

  lemma PolicyBoundNew<K>(capacity: nat, slots: nat, requests: seq<K>, caches: seq<set<K>>, n: nat, p: Phases<K>)
    requires 1 <= slots <= capacity && 1 < n <= |requests| && Policy(slots, requests, caches)
    requires PolicyBound(capacity, slots, requests, caches, n - 1) && p == PhasesOf(capacity, requests, n - 1)
    requires requests[n - 1] !in p.keys && |p.keys| >= capacity
    ensures PolicyBound(capacity, slots, requests, caches, n)
  {
    var x := requests[n - 1];
    assert |caches| == |requests| + 1;
    assert p.start < n - 1;
    PhasesNew(capacity, requests, n, p);
    hide PhasesOf;
    PolicyStep(slots, requests, caches, n);
    PolicyFits(slots, requests, caches, p.start + 1);
    hide Policy, PolicyMisses, Pays;
    PaysNew(capacity, slots, p, caches[p.start + 1], caches[n - 1], PolicyMisses(requests, caches, n - 1), x,
            caches[n], n - 1);
  }

  lemma {:induction false} PhaseBounds<K>(capacity: nat, slots: nat, requests: seq<K>, caches: seq<set<K>>, n: nat)
    requires 1 <= slots <= capacity && 0 < n <= |requests| && Policy(slots, requests, caches)
    ensures LruBound(capacity, requests, n)
    ensures PolicyBound(capacity, slots, requests, caches, n)
    decreases n
  {
    hide LruBound, PolicyBound, PhasesOf;
    if n > 1 {
      PhaseBounds(capacity, slots, requests, caches, n - 1);
    }
    LruBoundStep(capacity, requests, n);
    if n == 1 {
      PolicyBoundFirst(capacity, slots, requests, caches);
    } else {
      var p := PhasesOf(capacity, requests, n - 1);
      if requests[n - 1] in p.keys || |p.keys| < capacity {
        PolicyBoundSame(capacity, slots, requests, caches, n, p);
      } else {
        PolicyBoundNew(capacity, slots, requests, caches, n, p);
      }
    }
  }

  /** The last phase, in which LRU may miss d keys and the policy e of them. */
  lemma LastPhase(k: nat, h: nat, d: nat, e: nat)
    requires 1 <= h <= k && d <= k && e >= d - h
    ensures (k - h + 1) * d <= k * (1 + e) + (h - 1) * (k - h)
  {
    var c := k - h + 1;
    assert c * h == k + (h - 1) * (k - h);
    if d <= h {
      assert c * (h - d) >= 0;
      assert c * (h - d) == c * h - c * d;
      assert k * e >= 0;
      assert k * (1 + e) == k + k * e;
    } else {
      var t := d - h;
      assert c * d == c * h + c * t;
      assert (k - c) * t >= 0;
      assert (k - c) * t == k * t - c * t;
      assert k * (e - t) >= 0;
      assert k * (e - t) == k * e - k * t;
      assert k * (1 + e) == k + k * e;
    }
  }

  lemma Scaled(c: nat, a: int, b: int)
    requires a <= b
    ensures c * a <= c * b
  {
    assert c * (b - a) >= 0;
    assert c * (b - a) == c * b - c * a;
  }

  /** The phases before it, q of them, of which each costs LRU k and the policy c. */
  lemma AllPhases(c: nat, k: nat, q: nat, d: nat, e: nat, extra: int, lru: nat, other: nat)
    requires c * d <= k * (1 + e) + extra
    requires lru <= k * q + d && other >= 1 + c * q + e
    ensures c * lru <= k * other + extra
  {
    var kq, cq := k * q, c * q;
    Scaled(c, lru, kq + d);
    Scaled(k, 1 + cq + e, other);
    assert c * (kq + d) == c * kq + c * d;
    assert k * (1 + cq + e) == k * (1 + e) + k * cq;
    assert c * kq == k * cq;
  }

  /** q phases and the last, in the terms of the bounds. */
  lemma Ratio(k: nat, h: nat, q: nat, d: nat, e: nat, lru: nat, other: nat)
    requires 1 <= h <= k && d <= k && e >= d - h
    requires lru <= PhaseCost(k, q) + d && other >= 1 + PhaseCost(k - h + 1, q) + e
    ensures (k - h + 1) * lru <= k * other + (h - 1) * (k - h)
  {
    PhaseCostIs(k, q);
    PhaseCostIs(k - h + 1, q);
    hide PhaseCost;
    LastPhase(k, h, d, e);
    AllPhases(k - h + 1, k, q, d, e, (h - 1) * (k - h), lru, other);
  }

  lemma Ratio0(k: nat, h: nat)
    requires 1 <= h <= k
    ensures (h - 1) * (k - h) >= 0
  {
  }

  lemma RatioAt<K>(capacity: nat, slots: nat, requests: seq<K>, caches: seq<set<K>>)
    requires 1 <= slots <= capacity && requests != [] && Policy(slots, requests, caches)
    requires LruBound(capacity, requests, |requests|) && PolicyBound(capacity, slots, requests, caches, |requests|)
    ensures (capacity - slots + 1) * Misses(capacity, requests) <=
            capacity * PolicyMisses(requests, caches, |requests|) + (slots - 1) * (capacity - slots)
  {
    assert |caches| == |requests| + 1;
    hide PhasesOf, Leads, Misses, Recent, Policy, PolicyMisses, PhaseCost;
    var n := |requests|;
    assert requests[..n] == requests;
    var p := PhasesOf(capacity, requests, n);
    var held := caches[p.start + 1];
    PolicyFits(slots, requests, caches, p.start + 1);
    var lru, other := Misses(capacity, requests), PolicyMisses(requests, caches, n);
    assert lru <= PhaseCost(capacity, p.count - 1) + |p.keys| && |p.keys| <= capacity;
    assert other >= 1 + PhaseCost(capacity - slots + 1, p.count - 1) + |p.keys - held|;
    hide *;
    NotHeldAtLeast(p.keys, held);
    Ratio(capacity, slots, p.count - 1, |p.keys|, |p.keys - held|, lru, other);
  }

  /** On any requests, LRU with k slots against any policy with h <= k slots, even one that knows
      the future: its misses are at most k / (k - h + 1) times the policy's, and a constant. */
  lemma CompetitiveWithFewer<K>(capacity: nat, slots: nat, requests: seq<K>, caches: seq<set<K>>)
    requires 1 <= slots <= capacity && Policy(slots, requests, caches)
    ensures (capacity - slots + 1) * Misses(capacity, requests) <=
            capacity * PolicyMisses(requests, caches, |requests|) + (slots - 1) * (capacity - slots)
  {
    var n := |requests|;
    if n == 0 {
      Ratio0(capacity, slots);
    } else {
      PhaseBounds(capacity, slots, requests, caches, n);
      RatioAt(capacity, slots, requests, caches);
    }
  }

  /** With as many slots on both sides, LRU misses at most k times as often. */
  lemma Competitive<K>(capacity: nat, requests: seq<K>, caches: seq<set<K>>)
    requires capacity >= 1 && Policy(capacity, requests, caches)
    ensures Misses(capacity, requests) <= capacity * PolicyMisses(requests, caches, |requests|)
  {
    CompetitiveWithFewer(capacity, capacity, requests, caches);
  }

  // -- The object ---------------------------------------------------------------------------

  /** A list node. An iterator of the list is a reference to its node. */
  class Node<K, V> {
    const k: K
    const v: V

    constructor (k: K, v: V)
      ensures this.k == k && this.v == v
    {
      this.k := k;
      this.v := v;
    }
  }

  ghost function EntriesOf<K, V>(ns: seq<Node<K, V>>): seq<Entry<K, V>> {
    if ns == [] then [] else [Entry(ns[0].k, ns[0].v)] + EntriesOf(ns[1..])
  }

  lemma {:induction false} EntriesOfAt<K, V>(ns: seq<Node<K, V>>)
    ensures |EntriesOf(ns)| == |ns|
    ensures forall i :: 0 <= i < |ns| ==> EntriesOf(ns)[i] == Entry(ns[i].k, ns[i].v)
    decreases |ns|
  {
    if ns != [] {
      EntriesOfAt(ns[1..]);
    }
  }

  /** Erasing the one node that holds a key erases the entry of that key. */
  lemma {:induction false} RemoveNode<K, V>(ns: seq<Node<K, V>>, n: Node<K, V>)
    requires forall i :: 0 <= i < |ns| && ns[i].k == n.k ==> ns[i] == n
    ensures EntriesOf(Remove(ns, n)) == WithoutKey(EntriesOf(ns), n.k)
    decreases |ns|
  {
    if ns != [] {
      RemoveNode(ns[1..], n);
      var rest := Remove(ns[1..], n);
      assert EntriesOf(ns)[1..] == EntriesOf(ns[1..]);
      if ns[0] == n {
        assert Remove(ns, n) == rest;
      } else {
        assert Remove(ns, n) == [ns[0]] + rest;
        assert ([ns[0]] + rest)[1..] == rest;
      }
    }
  }

  lemma ValueOfNode<K, V>(ns: seq<Node<K, V>>, i: nat)
    requires i < |ns| && forall j :: 0 <= j < |ns| && ns[j].k == ns[i].k ==> ns[j] == ns[i]
    ensures ValueOf(EntriesOf(ns), ns[i].k) == Found(ns[i].v)
  {
    EntriesOfAt(ns);
    var es := EntriesOf(ns);
    ValueOfFound(es, ns[i].k);
    assert Keys(es)[i] == ns[i].k;
    var j :| 0 <= j < |es| && es[j] == Entry(ns[i].k, ValueOf(es, ns[i].k).value);
    assert ns[j] == ns[i];
  }

  /** The table points at exactly the nodes of the list, each under its own key. */
  ghost predicate Agree<K, V>(ns: seq<Node<K, V>>, t: map<K, Node<K, V>>) {
    && NoDup(ns)
    && (forall k :: k in t ==> t[k] in ns && t[k].k == k)
    && (forall i :: 0 <= i < |ns| ==> ns[i].k in t && t[ns[i].k] == ns[i])
  }

  lemma AgreeErase<K, V>(ns: seq<Node<K, V>>, t: map<K, Node<K, V>>, k: K)
    requires Agree(ns, t) && k in t
    ensures Agree(Remove(ns, t[k]), t - {k})
    ensures EntriesOf(Remove(ns, t[k])) == WithoutKey(EntriesOf(ns), k)
    ensures |Remove(ns, t[k])| == |ns| - 1
  {
    hide Remove, EntriesOf, WithoutKey;
    RemoveNode(ns, t[k]);
    RemoveMembers(ns, t[k]);
    var ns' := Remove(ns, t[k]);
    assert forall c :: c in t - {k} ==> t[c] in ns';
    forall i | 0 <= i < |ns'|
      ensures ns'[i].k in t - {k} && t[ns'[i].k] == ns'[i]
    {
      RemovedAt(ns, t[k], i);
    }
  }

  lemma AgreePushFront<K, V>(ns: seq<Node<K, V>>, t: map<K, Node<K, V>>, n: Node<K, V>)
    requires Agree(ns, t) && n.k !in t
    ensures Agree([n] + ns, t[n.k := n])
    ensures EntriesOf([n] + ns) == [Entry(n.k, n.v)] + EntriesOf(ns)
  {
    var ns' := [n] + ns;
    assert ns'[1..] == ns;
    forall k | k in t
      ensures t[k] in ns'
    {
      var i :| 0 <= i < |ns| && ns[i] == t[k];
      assert ns'[i + 1] == t[k];
    }
  }

  lemma AgreePopBack<K, V>(ns: seq<Node<K, V>>, t: map<K, Node<K, V>>)
    requires Agree(ns, t) && ns != []
    ensures Agree(ns[..|ns| - 1], t - {ns[|ns| - 1].k})
    ensures |EntriesOf(ns)| == |ns| && EntriesOf(ns[..|ns| - 1]) == EntriesOf(ns)[..|ns| - 1]
  {
    hide EntriesOf;
    var ns' := ns[..|ns| - 1];
    EntriesOfAt(ns);
    EntriesOfAt(ns');
    assert EntriesOf(ns') == EntriesOf(ns)[..|ns| - 1];
    forall k | k in t - {ns[|ns| - 1].k}
      ensures t[k] in ns'
    {
      var i :| 0 <= i < |ns| && ns[i] == t[k];
      assert ns'[i] == t[k];
    }
  }

  lemma AgreeLookup<K, V>(ns: seq<Node<K, V>>, t: map<K, Node<K, V>>, k: K)
    requires Agree(ns, t)
    ensures k in t <==> k in Keys(EntriesOf(ns))
    ensures k in t <==> ValueOf(EntriesOf(ns), k).Found?
    ensures k in t ==> ValueOf(EntriesOf(ns), k) == Found(t[k].v)
  {
    var es := EntriesOf(ns);
    EntriesOfAt(ns);
    ValueOfFound(es, k);
    if k in t {
      var i :| 0 <= i < |ns| && ns[i] == t[k];
      assert Keys(es)[i] == k;
      ValueOfNode(ns, i);
    }
    if k in Keys(es) {
      var i :| 0 <= i < |ns| && Keys(es)[i] == k;
      assert ns[i].k == k;
    }
  }

  lemma RunOfSnoc<K, V>(capacity: nat, ops: seq<Op<K, V>>, op: Op<K, V>)
    ensures RunOf(capacity, ops + [op]) == Step(capacity, RunOf(capacity, ops), op)
  {
    assert (ops + [op])[..|ops|] == ops;
  }

  class LruCache<K(==), V> {
    var size: int
    var capacity: int
    var nodes: seq<Node<K, V>>
    var table: map<K, Node<K, V>>
    // What has been asked of the cache so far.
    ghost var history: seq<Op<K, V>>

    /** List and table agree, and hold what the operations so far make of an empty cache. */
    ghost predicate Valid()
      reads this
    {
      && 1 <= capacity
      && size == |nodes| <= capacity
      && Agree(nodes, table)
      && EntriesOf(nodes) == RunOf(capacity, history).entries
    }

    ghost function Entries(): seq<Entry<K, V>>
      reads this
    {
      EntriesOf(nodes)
    }

    constructor (maxCapacity: int)
      requires maxCapacity >= 1
      ensures Valid() && capacity == maxCapacity && Entries() == [] && history == []
    {
      capacity := maxCapacity;
      size := 0;
      nodes := [];
      table := map[];
      history := [];
    }

    method Put(key: K, value: V)
      requires Valid()
      modifies this
      ensures Valid() && capacity == old(capacity)
      ensures Entries() == AfterPut(capacity, old(Entries()), key, value)
      ensures history == old(history) + [PutOp(key, value)]
    {
      hide RunOf, Agree, WithoutKey, EntriesOf;
      AgreeLookup(nodes, table, key);
      RunOfSnoc(capacity, history, PutOp(key, value));
      history := history + [PutOp(key, value)];
      if key in table {
        var node := new Node(key, value);
        AgreeErase(nodes, table, key);
        AgreePushFront(Remove(nodes, table[key]), table - {key}, node);
        nodes := Remove(nodes, table[key]);
        nodes := [node] + nodes;
        assert (table - {key})[key := node] == table[key := node];
        table := table[key := node];
        return;
      }
      assert |EntriesOf(nodes)| == |nodes| by {
        EntriesOfAt(nodes);
      }
      if size >= capacity {
        var last := nodes[|nodes| - 1].k;
        AgreePopBack(nodes, table);
        nodes := nodes[..|nodes| - 1];
        table := table - {last};
        size := size - 1;
      }
      var node := new Node(key, value);
      AgreePushFront(nodes, table, node);
      nodes := [node] + nodes;
      table := table[key := node];
      size := size + 1;
    }

    /** The value last put under the key; throws, and changes nothing, if it is not cached. */
    method Get(key: K) returns (r: Lookup<V>)
      requires Valid()
      modifies this
      ensures Valid() && capacity == old(capacity)
      ensures r == ValueOf(old(Entries()), key)
      ensures r.Found? ==> r == LastPut(old(history), key)
      ensures r.KeyNotFound? ==> key !in Keys(old(Entries()))
      ensures Entries() == AfterGet(old(Entries()), key)
      ensures history == old(history) + [GetOp(key)]
    {
      hide RunOf, Agree, WithoutKey, EntriesOf, ValueOf, LastPut;
      AgreeLookup(nodes, table, key);
      GetReturnsLastPut(capacity, history, key);
      RunOfSnoc(capacity, history, GetOp(key));
      history := history + [GetOp(key)];
      if key in table {
        var node := new Node(key, table[key].v);
        AgreeErase(nodes, table, key);
        AgreePushFront(Remove(nodes, table[key]), table - {key}, node);
        nodes := Remove(nodes, table[key]);
        nodes := [node] + nodes;
        assert (table - {key})[key := node] == table[key := node];
        table := table[key := node];
        return Found(table[key].v);
      }
      return KeyNotFound;
    }
  }

  /** One request: get, and put on a miss. */
  method ServeOne<K(==), V>(cache: LruCache<K, V>, x: K, fetched: V, ghost before: seq<K>) returns (miss: bool)
    requires cache.Valid() && Keys(cache.Entries()) == Served(cache.capacity, before)
    modifies cache
    ensures cache.Valid() && cache.capacity == old(cache.capacity)
    ensures Keys(cache.Entries()) == Served(cache.capacity, before + [x])
    ensures miss <==> x !in Served(cache.capacity, before)
  {
    assert cache.capacity >= 1;
    hide *;
    ServeStep(cache.capacity, cache.Entries(), before, x, fetched);
    var r := cache.Get(x);
    if r.KeyNotFound? {
      cache.Put(x, fetched);
      return true;
    }
    return false;
  }

  lemma ServedNothing<K>(capacity: nat)
    ensures Served<K>(capacity, []) == [] && Misses<K>(capacity, []) == 0
  {
  }

  /** Serves requests, and counts the misses. */
  method Serve<K(==), V>(cache: LruCache<K, V>, requests: seq<K>, fetched: seq<V>) returns (misses: nat)
    requires cache.Valid() && cache.Entries() == [] && |fetched| == |requests|
    modifies cache
    ensures cache.Valid() && cache.capacity == old(cache.capacity) >= 1
    ensures Keys(cache.Entries()) == Served(cache.capacity, requests)
    ensures misses == Misses(cache.capacity, requests)
  {
    assert cache.capacity >= 1;
    ghost var k: nat := cache.capacity;
    ServedNothing<K>(k);
    hide *;
    misses := 0;
    ghost var done: seq<K> := [];
    for i := 0 to |requests|
      invariant |done| == i && forall j :: 0 <= j < i ==> done[j] == requests[j]
      invariant cache.Valid() && cache.capacity == k
      invariant Keys(cache.Entries()) == Served(k, done)
      invariant misses == Misses(k, done)
    {
      MissesNext(k, done, requests[i]);
      var miss := ServeOne(cache, requests[i], fetched[i], done);
      if miss {
        misses := misses + 1;
      }
      done := done + [requests[i]];
    }
    assert done == requests;
  }

  lemma MissesNext<K>(capacity: nat, requests: seq<K>, x: K)
    ensures Misses(capacity, requests + [x]) ==
            Misses(capacity, requests) + if x in Served(capacity, requests) then 0 else 1
  {
    assert (requests + [x])[..|requests|] == requests;
  }
}
