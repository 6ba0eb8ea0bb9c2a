/** Price-time matching of `order-matching-engine.cpp` on values: what one match does to a
    sorted side of the book, and why that is the best possible. */
module Matching {
  import opened OrderIds

  datatype Side = Buy | Sell

  /** An order as it stands at some instant. */
  datatype Order = Order(id: string, symbol: string, price: real, remaining: int, side: Side)

  datatype Trade = Trade(symbol: string, price: real, size: int, buyId: string, sellId: string)

  function Opposite(side: Side): Side {
    match side case Buy => Sell case Sell => Buy
  }

  /** The two comparators: best price first (highest bid, lowest ask), then smaller id. */
  predicate Before(side: Side, a: Order, b: Order) {
    if a.price != b.price then (if side.Buy? then a.price > b.price else a.price < b.price)
    else StringLess(a.id, b.id)
  }

  /** A `std::set` of orders of one side, listed in comparator order. */
  ghost predicate Sorted(side: Side, s: seq<Order>) {
    forall i, j :: 0 <= i < j < |s| ==> Before(side, s[i], s[j])
  }

  /** `std::set::insert`: nothing happens when an equivalent order is already there. */
  function Insert(side: Side, s: seq<Order>, o: Order): seq<Order> {
    if s == [] then [o]
    else if Before(side, o, s[0]) then [o] + s
    else if Before(side, s[0], o) then [s[0]] + Insert(side, s[1..], o)
    else s
  }

  /** Resting order `r` accepts the limit of incoming order `o`. */
  predicate Crosses(o: Order, r: Order) {
    if o.side.Buy? then r.price <= o.price else r.price >= o.price
  }

  function Min(a: int, b: int): int {
    if a <= b then a else b
  }

  function TradeOf(symbol: string, o: Order, r: Order, size: int): Trade {
    if o.side.Buy? then Trade(symbol, r.price, size, o.id, r.id) else Trade(symbol, r.price, size, r.id, o.id)
  }

  datatype Outcome = Outcome(trades: seq<Trade>, remaining: int, resting: seq<Order>)

  /** Matching an incoming order against the opposite side, best resting order first. */
  function Match(symbol: string, o: Order, resting: seq<Order>): Outcome
    decreases |resting|
  {
    if o.remaining == 0 || resting == [] || !Crosses(o, resting[0]) then
      Outcome([], o.remaining, resting)
    else
      var best := resting[0];
      var size := Min(o.remaining, best.remaining);
      var trade := TradeOf(symbol, o, best, size);
      if size < best.remaining then
        Outcome([trade], o.remaining - size, [best.(remaining := best.remaining - size)] + resting[1..])
      else
        var rest := Match(symbol, o.(remaining := o.remaining - size), resting[1..]);
        Outcome([trade] + rest.trades, rest.remaining, rest.resting)
  }

  /** What holds of one side of a book: sorted, live orders of that side and symbol. */
  ghost predicate SideOk(side: Side, symbol: string, s: seq<Order>) {
    && Sorted(side, s)
    && forall i :: 0 <= i < |s| ==> s[i].remaining > 0 && s[i].side == side && s[i].symbol == symbol
  }

  ghost predicate Incoming(o: Order, symbol: string) {
    o.remaining >= 0 && o.symbol == symbol
  }

  // -- The comparators are strict total orders on distinct ids ----------------------

  lemma BeforeTransitive(side: Side, a: Order, b: Order, c: Order)
    requires Before(side, a, b) && Before(side, b, c)
    ensures Before(side, a, c)
  {
    if a.price == b.price == c.price {
      StringLessTransitive(a.id, b.id, c.id);
    }
  }

  lemma BeforeTotal(side: Side, a: Order, b: Order)
    ensures Before(side, a, b) || Before(side, b, a) || (a.id == b.id && a.price == b.price)
    ensures a.id == b.id ==> (Before(side, a, b) <==> a.price != b.price && !Before(side, b, a))
    ensures !(Before(side, a, b) && Before(side, b, a))
  {
    StringLessTotal(a.id, b.id);
    StringLessIrreflexive(a.id);
    if a.price == b.price && StringLess(a.id, b.id) && StringLess(b.id, a.id) {
      StringLessTransitive(a.id, b.id, a.id);
    }
  }

  /** No order of s carries this id. */
  ghost predicate Absent(id: string, s: seq<Order>) {
    forall i :: 0 <= i < |s| ==> s[i].id != id
  }

  lemma {:induction false} InsertMultiset(side: Side, s: seq<Order>, o: Order)
    requires Absent(o.id, s)
    ensures multiset(Insert(side, s, o)) == multiset(s) + multiset{o}
    decreases |s|
  {
    if s != [] {
      BeforeTotal(side, o, s[0]);
    }
    hide Before;
    if s != [] && !Before(side, o, s[0]) {
      assert s == [s[0]] + s[1..];
      InsertMultiset(side, s[1..], o);
    } else {
      assert Insert(side, s, o) == [o] + s;
    }
  }

  lemma PrependKeepsSorted(side: Side, o: Order, s: seq<Order>)
    requires Sorted(side, s) && forall x :: x in s ==> Before(side, o, x)
    ensures Sorted(side, [o] + s)
  {
    hide Before;
    assert forall i :: 0 <= i < |s| ==> s[i] in s;
  }

  lemma {:induction false} InsertKeepsSorted(side: Side, s: seq<Order>, o: Order)
    requires Sorted(side, s) && Absent(o.id, s)
    ensures Sorted(side, Insert(side, s, o))
    ensures multiset(Insert(side, s, o)) == multiset(s) + multiset{o}
    decreases |s|
  {
    InsertMultiset(side, s, o);
    if s != [] {
      BeforeTotal(side, o, s[0]);
      if Before(side, o, s[0]) {
        forall j | 0 < j < |s|
          ensures Before(side, o, s[j])
        {
          BeforeTransitive(side, o, s[0], s[j]);
        }
        hide Before;
        PrependKeepsSorted(side, o, s);
      } else {
        hide Before;
        InsertKeepsSorted(side, s[1..], o);
        var rest := Insert(side, s[1..], o);
        forall x | x in rest
          ensures Before(side, s[0], x)
        {
          assert x in multiset(rest);
          assert x == o || x in s[1..];
        }
        PrependKeepsSorted(side, s[0], rest);
      }
    }
  }

  // -- The shape of one match ---------------------------------------------------------

  /** Trade i is with the i-th resting order, at that order's price, and all trades but the
      last fill their resting order completely. */
  ghost predicate TradesInOrder(symbol: string, o: Order, resting: seq<Order>, trades: seq<Trade>) {
    && |trades| <= |resting|
    && (forall i :: 0 <= i < |trades| ==>
          && Crosses(o, resting[i])
          && 0 < trades[i].size <= resting[i].remaining
          && trades[i] == TradeOf(symbol, o, resting[i], trades[i].size)
          && (i < |trades| - 1 ==> trades[i].size == resting[i].remaining))
  }

  /** What still rests is what was not reached, and possibly the last order reached, reduced. */
  ghost predicate LeavesRest(resting: seq<Order>, out: Outcome)
    requires |out.trades| <= |resting|
  {
    var k := |out.trades|;
    if k > 0 && out.trades[k - 1].size < resting[k - 1].remaining then
      && out.remaining == 0
      && out.resting == [resting[k - 1].(remaining := resting[k - 1].remaining - out.trades[k - 1].size)] + resting[k..]
    else out.resting == resting[k..]
  }

  lemma {:induction false} MatchShape(symbol: string, o: Order, resting: seq<Order>)
    requires Incoming(o, symbol)
    requires forall i :: 0 <= i < |resting| ==> resting[i].remaining > 0
    ensures var out := Match(symbol, o, resting);
            && TradesInOrder(symbol, o, resting, out.trades)
            && LeavesRest(resting, out)
            && 0 <= out.remaining <= o.remaining
            && (out.remaining > 0 ==> out.resting == [] || !Crosses(o, out.resting[0]))
    decreases |resting|
  {
    if o.remaining == 0 || resting == [] || !Crosses(o, resting[0]) {
      assert Match(symbol, o, resting) == Outcome([], o.remaining, resting);
    } else {
      var best := resting[0];
      var size := Min(o.remaining, best.remaining);
      if size == best.remaining {
        var o' := o.(remaining := o.remaining - size);
        var rest := Match(symbol, o', resting[1..]);
        MatchShape(symbol, o', resting[1..]);
        hide TradesInOrder, LeavesRest;
        TradesInOrderCons(symbol, o, o', resting, rest.trades);
        LeavesRestCons(resting, rest, TradeOf(symbol, o, best, size));
      } else {
        MatchLast(symbol, o, resting);
      }
    }
  }

  /** The match that ends inside the first resting order. */
  lemma MatchLast(symbol: string, o: Order, resting: seq<Order>)
    requires Incoming(o, symbol) && resting != [] && Crosses(o, resting[0]) && 0 < o.remaining < resting[0].remaining
    ensures var out := Match(symbol, o, resting);
            && TradesInOrder(symbol, o, resting, out.trades)
            && LeavesRest(resting, out)
            && out.remaining == 0
  {
  }

  lemma TradesInOrderCons(symbol: string, o: Order, o': Order, resting: seq<Order>, trades: seq<Trade>)
    requires resting != [] && Crosses(o, resting[0]) && resting[0].remaining > 0
    requires o' == o.(remaining := o'.remaining)
    requires TradesInOrder(symbol, o', resting[1..], trades)
    ensures TradesInOrder(symbol, o, resting, [TradeOf(symbol, o, resting[0], resting[0].remaining)] + trades)
  {
    var all := [TradeOf(symbol, o, resting[0], resting[0].remaining)] + trades;
    forall i | 0 < i < |all|
      ensures all[i] == trades[i - 1] && resting[i] == resting[1..][i - 1]
    {
    }
  }

  lemma LeavesRestCons(resting: seq<Order>, rest: Outcome, trade: Trade)
    requires resting != [] && trade.size == resting[0].remaining
    requires |rest.trades| < |resting| && LeavesRest(resting[1..], rest)
    ensures LeavesRest(resting, Outcome([trade] + rest.trades, rest.remaining, rest.resting))
  {
    var k := |rest.trades|;
    assert resting[1..][k..] == resting[k + 1..];
  }

  /** A match leaves a side that is still sorted, live and of the right kind. */
  lemma MatchKeepsSide(symbol: string, o: Order, resting: seq<Order>)
    requires Incoming(o, symbol) && SideOk(Opposite(o.side), symbol, resting)
    ensures SideOk(Opposite(o.side), symbol, Match(symbol, o, resting).resting)
  {
    MatchShape(symbol, o, resting);
    hide Match, TradesInOrder, LeavesRest, SideOk;
    RestKeepsSide(Opposite(o.side), symbol, resting, Match(symbol, o, resting));
  }

  lemma RestKeepsSide(side: Side, symbol: string, resting: seq<Order>, out: Outcome)
    requires SideOk(side, symbol, resting) && |out.trades| <= |resting| && LeavesRest(resting, out)
    ensures SideOk(side, symbol, out.resting)
  {
    var k := |out.trades|;
    if k > 0 && out.trades[k - 1].size < resting[k - 1].remaining {
      var r := resting[k - 1].remaining - out.trades[k - 1].size;
      assert out.resting == [resting[k - 1..][0].(remaining := r)] + resting[k - 1..][1..];
      hide SideOk, LeavesRest;
      SuffixKeepsSide(side, symbol, resting, k - 1);
      NewHeadKeepsSide(side, symbol, resting[k - 1..], r);
    } else {
      SuffixKeepsSide(side, symbol, resting, k);
    }
  }

  lemma SuffixKeepsSide(side: Side, symbol: string, s: seq<Order>, k: nat)
    requires SideOk(side, symbol, s) && k <= |s|
    ensures SideOk(side, symbol, s[k..])
  {
    hide Before;
  }

  /** Priority does not depend on the size. */
  lemma NewHeadKeepsSide(side: Side, symbol: string, s: seq<Order>, r: int)
    requires SideOk(side, symbol, s) && s != [] && r > 0
    ensures SideOk(side, symbol, [s[0].(remaining := r)] + s[1..])
  {
    var t := [s[0].(remaining := r)] + s[1..];
    forall i, j | 0 <= i < j < |t|
      ensures Before(side, t[i], t[j])
    {
      assert Before(side, s[i], s[j]);
    }
  }

  // -- Quantity -------------------------------------------------------------------------

  /** Total resting size priced within the incoming order's limit. */
  function Available(o: Order, resting: seq<Order>): int {
    if resting == [] then 0
    else (if Crosses(o, resting[0]) then resting[0].remaining else 0) + Available(o, resting[1..])
  }

  lemma {:induction false} NoneAvailable(o: Order, resting: seq<Order>)
    requires Sorted(Opposite(o.side), resting)
    requires resting == [] || !Crosses(o, resting[0])
    ensures Available(o, resting) == 0
    decreases |resting|
  {
    if |resting| > 1 {
      assert Before(Opposite(o.side), resting[0], resting[1]);
      NoneAvailable(o, resting[1..]);
    }
  }

  lemma {:induction false} AvailableNonNegative(o: Order, resting: seq<Order>)
    requires forall i :: 0 <= i < |resting| ==> resting[i].remaining > 0
    ensures Available(o, resting) >= 0
    decreases |resting|
  {
    if resting != [] {
      AvailableNonNegative(o, resting[1..]);
    }
  }

  lemma {:induction false} AvailableIgnoresSize(o: Order, o': Order, resting: seq<Order>)
    requires o'.side == o.side && o'.price == o.price
    ensures Available(o, resting) == Available(o', resting)
    decreases |resting|
  {
    if resting != [] {
      AvailableIgnoresSize(o, o', resting[1..]);
    }
  }

  /** A match fills exactly the smaller of the order's size and what rests within its limit. */
  lemma {:induction false} MatchedQuantity(symbol: string, o: Order, resting: seq<Order>)
    requires Incoming(o, symbol) && SideOk(Opposite(o.side), symbol, resting)
    ensures o.remaining - Match(symbol, o, resting).remaining == Min(o.remaining, Available(o, resting))
    decreases |resting|
  {
    AvailableNonNegative(o, resting);
    if o.remaining == 0 {
    } else if resting == [] || !Crosses(o, resting[0]) {
      NoneAvailable(o, resting);
    } else {
      var o' := o.(remaining := o.remaining - Min(o.remaining, resting[0].remaining));
      AvailableNonNegative(o, resting[1..]);
      AvailableIgnoresSize(o, o', resting[1..]);
      MatchedQuantity(symbol, o', resting[1..]);
    }
  }

  // -- Optimality -----------------------------------------------------------------------

  /** What a resting order costs the incoming one per unit: its price to a buyer, and minus
      its price to a seller, who wants the proceeds to be as high as possible. */
  function UnitCost(r: Order): real {
    if r.side.Sell? then r.price else -r.price
  }

  function Times(price: real, size: int): real {
    price * size as real
  }

  /** Money changing hands in a list of trades. */
  function Turnover(trades: seq<Trade>): real {
    if trades == [] then 0.0 else Times(trades[0].price, trades[0].size) + Turnover(trades[1..])
  }

  /** One way to take some quantity from the resting orders: so many units from each. */
  ghost predicate Allocation(resting: seq<Order>, a: seq<int>) {
    |a| == |resting| && forall i :: 0 <= i < |a| ==> 0 <= a[i] <= resting[i].remaining
  }

  function Sum(a: seq<int>): int {
    if a == [] then 0 else a[0] + Sum(a[1..])
  }

  /** Money changing hands if each resting order trades its allotted units at its own price. */
  function AllocationTurnover(resting: seq<Order>, a: seq<int>): real
    requires |a| == |resting|
  {
    if a == [] then 0.0 else Times(resting[0].price, a[0]) + AllocationTurnover(resting[1..], a[1..])
  }

  function AllocationCost(resting: seq<Order>, a: seq<int>): real
    requires |a| == |resting|
  {
    if a == [] then 0.0 else Times(UnitCost(resting[0]), a[0]) + AllocationCost(resting[1..], a[1..])
  }

  /** The units the best orders supply, in book order, until q units are found. */
  function Greedy(resting: seq<Order>, q: int): (a: seq<int>)
    ensures |a| == |resting|
  {
    if resting == [] then []
    else [Min(q, resting[0].remaining)] + Greedy(resting[1..], q - Min(q, resting[0].remaining))
  }

  function TotalSize(resting: seq<Order>): int {
    if resting == [] then 0 else resting[0].remaining + TotalSize(resting[1..])
  }

  lemma TimesSplit(p: real, a: int, b: int)
    ensures Times(p, a + b) == Times(p, a) + Times(p, b)
  {
    assert (a + b) as real == a as real + b as real;
  }

  lemma TimesMonotone(p: real, p': real, d: int)
    requires p <= p' && d >= 0
    ensures Times(p, d) <= Times(p', d)
  {
    var x := d as real;
    assert (p' - p) * x >= 0.0;
    assert (p' - p) * x == p' * x - p * x;
  }

  lemma {:induction false} TotalNonNegative(resting: seq<Order>)
    requires forall i :: 0 <= i < |resting| ==> resting[i].remaining > 0
    ensures TotalSize(resting) >= 0
    decreases |resting|
  {
    if resting != [] {
      TotalNonNegative(resting[1..]);
    }
  }

  ghost predicate CheapestFirst(resting: seq<Order>) {
    && (forall i, j :: 0 <= i < j < |resting| ==> UnitCost(resting[i]) <= UnitCost(resting[j]))
    && (forall i :: 0 <= i < |resting| ==> resting[i].remaining > 0)
  }

  /** Needing d units more costs at least d times the cheapest unit price. */
  lemma {:induction false} GreedyMargin(resting: seq<Order>, q: int, d: int, p: real)
    requires CheapestFirst(resting) && 0 <= q && 0 <= d && q + d <= TotalSize(resting)
    requires forall i :: 0 <= i < |resting| ==> p <= UnitCost(resting[i])
    ensures AllocationCost(resting, Greedy(resting, q)) + Times(p, d) <= AllocationCost(resting, Greedy(resting, q + d))
    decreases |resting|
  {
    assert Times(p, 0) == 0.0;
    hide Times;
    if resting == [] {
      assert d == 0;
    } else {
      var u, c := UnitCost(resting[0]), resting[0].remaining;
      var x, y := Min(q, c), Min(q + d, c);
      assert Greedy(resting, q)[1..] == Greedy(resting[1..], q - x);
      assert Greedy(resting, q + d)[1..] == Greedy(resting[1..], q + d - y);
      TotalNonNegative(resting[1..]);
      GreedyMargin(resting[1..], q - x, d - (y - x), p);
      TimesSplit(u, x, y - x);
      TimesMonotone(p, u, y - x);
      TimesSplit(p, y - x, d - (y - x));
    }
  }

  /** No allocation of the same quantity is cheaper than the greedy one. */
  lemma {:induction false} GreedyCheapest(resting: seq<Order>, a: seq<int>)
    requires CheapestFirst(resting) && Allocation(resting, a)
    ensures 0 <= Sum(a) <= TotalSize(resting)
    ensures AllocationCost(resting, Greedy(resting, Sum(a))) <= AllocationCost(resting, a)
    decreases |resting|
  {
    hide Times;
    if resting != [] {
      var u, c, q := UnitCost(resting[0]), resting[0].remaining, Sum(a);
      GreedyCheapest(resting[1..], a[1..]);
      var g := Min(q, c);
      assert Greedy(resting, q)[1..] == Greedy(resting[1..], q - g);
      GreedyMargin(resting[1..], q - g, g - a[0], u);
      TimesSplit(u, a[0], g - a[0]);
    }
  }

  /** The trades of a match are the greedy allocation of the quantity it fills. */
  ghost predicate IsGreedy(o: Order, resting: seq<Order>, out: Outcome) {
    var a := Greedy(resting, o.remaining - out.remaining);
    && Turnover(out.trades) == AllocationTurnover(resting, a)
    && Sum(a) == o.remaining - out.remaining
    && Allocation(resting, a)
  }

  lemma MatchStopped(symbol: string, o: Order, resting: seq<Order>)
    requires Incoming(o, symbol) && forall i :: 0 <= i < |resting| ==> resting[i].remaining > 0
    requires o.remaining == 0 || resting == [] || !Crosses(o, resting[0])
    ensures IsGreedy(o, resting, Match(symbol, o, resting))
  {
    GreedyNone(resting);
  }

  lemma NothingIsGreedy(o: Order, resting: seq<Order>)
    requires o.remaining == 0 && forall i :: 0 <= i < |resting| ==> resting[i].remaining > 0
    ensures IsGreedy(o, resting, Outcome([], 0, []))
  {
    GreedyNone(resting);
  }

  lemma {:induction false} MatchIsGreedy(symbol: string, o: Order, resting: seq<Order>)
    requires Incoming(o, symbol) && forall i :: 0 <= i < |resting| ==> resting[i].remaining > 0
    ensures IsGreedy(o, resting, Match(symbol, o, resting))
    decreases |resting|
  {
    hide IsGreedy, TradesInOrder, LeavesRest;
    if o.remaining == 0 || resting == [] || !Crosses(o, resting[0]) {
      MatchStopped(symbol, o, resting);
    } else {
      var size := Min(o.remaining, resting[0].remaining);
      var trade := TradeOf(symbol, o, resting[0], size);
      var o' := o.(remaining := o.remaining - size);
      var out := Match(symbol, o, resting);
      if size < resting[0].remaining {
        assert out.trades == [trade] + [] && out.remaining == 0;
        NothingIsGreedy(o', resting[1..]);
        hide Match, Crosses;
        GreedyCons(o, resting, trade, Outcome([], 0, []), out);
      } else {
        var rest := Match(symbol, o', resting[1..]);
        assert out.trades == [trade] + rest.trades && out.remaining == rest.remaining;
        hide Match, Crosses;
        MatchShape(symbol, o', resting[1..]);
        MatchIsGreedy(symbol, o', resting[1..]);
        GreedyCons(o, resting, trade, rest, out);
      }
    }
  }

  lemma GreedyCons(o: Order, resting: seq<Order>, trade: Trade, rest: Outcome, out: Outcome)
    requires resting != [] && trade.price == resting[0].price
    requires o.remaining >= 0 && resting[0].remaining > 0 && trade.size == Min(o.remaining, resting[0].remaining)
    requires 0 <= rest.remaining <= o.remaining - trade.size
    requires trade.size < resting[0].remaining ==> rest.remaining == o.remaining - trade.size == 0
    requires IsGreedy(o.(remaining := o.remaining - trade.size), resting[1..], rest)
    requires out.trades == [trade] + rest.trades && out.remaining == rest.remaining
    ensures IsGreedy(o, resting, out)
  {
    var q := o.remaining - out.remaining;
    assert Min(q, resting[0].remaining) == trade.size;
    assert out.trades[1..] == rest.trades;
    var a, a' := Greedy(resting, q), Greedy(resting[1..], q - trade.size);
    assert a == [trade.size] + a' && a[1..] == a';
    forall i | 0 <= i < |a|
      ensures 0 <= a[i] <= resting[i].remaining
    {
      if i > 0 {
        assert a[i] == a'[i - 1] && resting[i] == resting[1..][i - 1];
      }
    }
  }

  lemma {:induction false} GreedyNone(resting: seq<Order>)
    requires forall i :: 0 <= i < |resting| ==> resting[i].remaining > 0
    ensures Allocation(resting, Greedy(resting, 0))
    ensures Sum(Greedy(resting, 0)) == 0 && AllocationTurnover(resting, Greedy(resting, 0)) == 0.0
    decreases |resting|
  {
    if resting != [] {
      GreedyNone(resting[1..]);
      assert Greedy(resting, 0)[1..] == Greedy(resting[1..], 0);
    }
  }

  lemma {:induction false} CostIsSignedTurnover(side: Side, resting: seq<Order>, a: seq<int>)
    requires |a| == |resting| && forall i :: 0 <= i < |resting| ==> resting[i].side == side
    ensures AllocationCost(resting, a) ==
            if side.Sell? then AllocationTurnover(resting, a) else -AllocationTurnover(resting, a)
    decreases |resting|
  {
    if a != [] {
      CostIsSignedTurnover(side, resting[1..], a[1..]);
    }
  }

  lemma SideIsCheapestFirst(side: Side, symbol: string, resting: seq<Order>)
    requires SideOk(Opposite(side), symbol, resting)
    ensures CheapestFirst(resting) && forall i :: 0 <= i < |resting| ==> resting[i].side == Opposite(side)
  {
    forall i, j | 0 <= i < j < |resting|
      ensures UnitCost(resting[i]) <= UnitCost(resting[j])
    {
      assert Before(Opposite(side), resting[i], resting[j]);
    }
  }

  lemma SidesOpposed(side: Side)
    ensures Opposite(side).Sell? <==> side.Buy?
  {
  }

  /** A buy pays the least, and a sell earns the most, that any allocation of the filled
      quantity among the resting orders could. */
  lemma MatchIsOptimal(symbol: string, o: Order, resting: seq<Order>, a: seq<int>)
    requires Incoming(o, symbol) && SideOk(Opposite(o.side), symbol, resting)
    requires Allocation(resting, a) && Sum(a) == o.remaining - Match(symbol, o, resting).remaining
    ensures var paid := Turnover(Match(symbol, o, resting).trades);
            if o.side.Buy? then paid <= AllocationTurnover(resting, a) else paid >= AllocationTurnover(resting, a)
  {
    SideIsCheapestFirst(o.side, symbol, resting);
    MatchIsGreedy(symbol, o, resting);
    var g := Greedy(resting, Sum(a));
    assert Turnover(Match(symbol, o, resting).trades) == AllocationTurnover(resting, g) && |g| == |a| == |resting|;
    hide *;
    GreedyCheapest(resting, a);
    CostIsSignedTurnover(Opposite(o.side), resting, a);
    CostIsSignedTurnover(Opposite(o.side), resting, g);
    SidesOpposed(o.side);
  }
}
