/** What the steps of a run contribute, one after another: how calls that are begun, under way and
    completed are counted against each other. */
module Traces {

  function Joined<T>(parts: seq<seq<T>>): seq<T> {
    if parts == [] then [] else Joined(parts[..|parts| - 1]) + parts[|parts| - 1]
  }

  lemma JoinedNext<T>(parts: seq<seq<T>>, n: nat)
    requires n < |parts|
    ensures Joined(parts[..n + 1]) == Joined(parts[..n]) + parts[n]
  {
    assert parts[..n + 1][..n] == parts[..n];
  }

  lemma {:induction false} NoPart<T>(parts: seq<seq<T>>)
    requires Joined(parts) == []
    ensures forall i :: 0 <= i < |parts| ==> parts[i] == []
    decreases |parts|
  {
    if parts != [] {
      var before := parts[..|parts| - 1];
      NoPart(before);
      assert forall i :: 0 <= i < |before| ==> parts[i] == before[i];
    }
  }

  /** A single element comes from a single step. */
  lemma {:induction false} OnePart<T>(parts: seq<seq<T>>, x: T) returns (k: nat)
    requires Joined(parts) == [x]
    ensures k < |parts| && parts[k] == [x]
    ensures forall i :: 0 <= i < |parts| && i != k ==> parts[i] == []
    decreases |parts|
  {
    var n := |parts| - 1;
    var before := parts[..n];
    assert forall i :: 0 <= i < n ==> parts[i] == before[i];
    if Joined(before) == [] {
      NoPart(before);
      k := n;
    } else {
      assert |Joined(before)| + |parts[n]| == 1;
      k := OnePart(before, x);
    }
  }

  lemma {:induction false} OnlyPart<T>(parts: seq<seq<T>>, k: nat)
    requires k < |parts| && forall i :: 0 <= i < |parts| && i != k ==> parts[i] == []
    ensures Joined(parts) == parts[k]
    decreases |parts|
  {
    var n := |parts| - 1;
    if k < n {
      OnlyPart(parts[..n], k);
    } else {
      NothingJoined(parts[..n]);
    }
  }

  lemma {:induction false} NothingJoined<T>(parts: seq<seq<T>>)
    requires forall i :: 0 <= i < |parts| ==> parts[i] == []
    ensures Joined(parts) == []
    decreases |parts|
  {
    if parts != [] {
      NothingJoined(parts[..|parts| - 1]);
    }
  }

  lemma Regroup<T>(a: seq<T>, b: seq<T>, c: seq<T>, d: seq<T>, e: seq<T>, f: seq<T>, g: seq<T>)
    requires a + b == c + d && d + e == f + g
    ensures a + (b + e) == (c + f) + g
  {
    assert a + (b + e) == (a + b) + e;
    assert (c + d) + e == c + (d + e);
    assert c + (f + g) == (c + f) + g;
  }

  /** If at each step what is pending and what is begun there is what is ended there and what is
      pending after, then so it is for the steps together. */
  lemma {:induction false} Telescope<T>(pending: seq<seq<T>>, begun: seq<seq<T>>, ended: seq<seq<T>>, n: nat)
    requires n <= |begun| == |ended| && |pending| == |begun| + 1
    requires forall i :: 0 <= i < n ==> pending[i] + begun[i] == ended[i] + pending[i + 1]
    ensures pending[0] + Joined(begun[..n]) == Joined(ended[..n]) + pending[n]
    decreases n
  {
    if n > 0 {
      Telescope(pending, begun, ended, n - 1);
      JoinedNext(begun, n - 1);
      JoinedNext(ended, n - 1);
      hide Joined;
      Regroup(pending[0], Joined(begun[..n - 1]), Joined(ended[..n - 1]), pending[n - 1],
              begun[n - 1], ended[n - 1], pending[n]);
    }
  }

  /** The same from end to end, when nothing is pending at either. */
  lemma Settled<T>(pending: seq<seq<T>>, begun: seq<seq<T>>, ended: seq<seq<T>>)
    requires |begun| == |ended| && |pending| == |begun| + 1
    requires forall i :: 0 <= i < |begun| ==> pending[i] + begun[i] == ended[i] + pending[i + 1]
    requires pending[0] == pending[|begun|] == []
    ensures Joined(begun) == Joined(ended)
  {
    Telescope(pending, begun, ended, |begun|);
    WholePrefix(begun);
    WholePrefix(ended);
    hide Joined;
    NothingAdded(Joined(begun), Joined(ended));
  }

  lemma WholePrefix<T>(s: seq<T>)
    ensures s[..|s|] == s
  {
  }

  lemma NothingAdded<T>(a: seq<T>, b: seq<T>)
    requires [] + a == b + []
    ensures a == b
  {
    assert [] + a == a && b + [] == b;
  }

  /** A history is what the steps added to it. */
  lemma {:induction false} HistoryJoined<T>(history: seq<seq<T>>, added: seq<seq<T>>, n: nat)
    requires n <= |added| && |history| == |added| + 1
    requires forall i :: 0 <= i < n ==> history[i + 1] == history[i] + added[i]
    ensures history[n] == history[0] + Joined(added[..n])
    decreases n
  {
    if n > 0 {
      HistoryJoined(history, added, n - 1);
      JoinedNext(added, n - 1);
      hide Joined;
      assert history[0] + Joined(added[..n - 1]) + added[n - 1] == history[0] + (Joined(added[..n - 1]) + added[n - 1]);
    }
  }
}
