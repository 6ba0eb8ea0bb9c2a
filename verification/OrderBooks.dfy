/** The order book and matching engine objects of `order-matching-engine.cpp`, updated in
    place, proved against the value-level engine of `Exchange`. Orders are shared between the
    id index and a side of the book, as the source shares them by `shared_ptr`. */
module OrderBooks {
  import opened OrderIds
  import opened Matching
  import Exchange

  class LiveOrder {
    const id: string
    const symbol: string
    const price: real
    const side: Side
    var remainingSize: int

    constructor (id: string, symbol: string, price: real, size: int, side: Side)
      ensures View() == Order(id, symbol, price, size, side)
    {
      this.id, this.symbol, this.price, this.side := id, symbol, price, side;
      remainingSize := size;
    }

    function View(): Order
      reads this
    {
      Order(id, symbol, price, remainingSize, side)
    }

    method ReduceSize(size: int) returns (ok: bool)
      modifies this
      ensures ok == (size <= old(remainingSize))
      ensures remainingSize == if ok then old(remainingSize) - size else old(remainingSize)
    {
      if size > remainingSize {
        return false;
      }
      remainingSize := remainingSize - size;
      return true;
    }

    predicate IsFilled()
      reads this
    {
      remainingSize == 0
    }
  }

  // -- A side of the book: a std::set of shared orders, in comparator order -------------

  /** The comparators look only at price and id, which never change. */
  predicate ObjectBefore(side: Side, a: LiveOrder, b: LiveOrder) {
    if a.price != b.price then (if side.Buy? then a.price > b.price else a.price < b.price)
    else StringLess(a.id, b.id)
  }

  function InsertObject(side: Side, s: seq<LiveOrder>, o: LiveOrder): seq<LiveOrder> {
    if s == [] then [o]
    else if ObjectBefore(side, o, s[0]) then [o] + s
    else if ObjectBefore(side, s[0], o) then [s[0]] + InsertObject(side, s[1..], o)
    else s
  }

  /** `std::set::erase` by key: removes the order equivalent to o. */
  function EraseObject(side: Side, s: seq<LiveOrder>, o: LiveOrder): seq<LiveOrder> {
    if s == [] then []
    else if ObjectBefore(side, s[0], o) then [s[0]] + EraseObject(side, s[1..], o)
    else if ObjectBefore(side, o, s[0]) then s
    else s[1..]
  }

  ghost function Views(s: seq<LiveOrder>): (v: seq<Order>)
    reads s
    ensures |v| == |s| && forall i :: 0 <= i < |s| ==> v[i] == s[i].View()
  {
    if s == [] then [] else [s[0].View()] + Views(s[1..])
  }

  twostate lemma {:induction false} ViewsUnchanged(s: seq<LiveOrder>)
    requires forall o :: o in s ==> unchanged(o)
    ensures Views(s) == old(Views(s))
    decreases |s|
  {
    if s != [] {
      forall o | o in s[1..]
        ensures unchanged(o)
      {
        assert o in s;
      }
      ViewsUnchanged(s[1..]);
      assert s[0] in s && unchanged(s[0]);
    }
  }

  lemma {:induction false} InsertObjectViews(side: Side, s: seq<LiveOrder>, o: LiveOrder)
    ensures Views(InsertObject(side, s, o)) == Insert(side, Views(s), o.View())
    ensures forall x :: x in InsertObject(side, s, o) ==> x in s || x == o
    ensures forall x :: x in s ==> x in InsertObject(side, s, o)
    decreases |s|
  {
    if s == [] {
      assert Views([o]) == [o.View()];
    } else {
      assert Views(s)[1..] == Views(s[1..]);
      assert s == [s[0]] + s[1..];
      if ObjectBefore(side, o, s[0]) {
        assert Views([o] + s) == [o.View()] + Views(s);
      } else {
        InsertObjectViews(side, s[1..], o);
        if ObjectBefore(side, s[0], o) {
          var t := InsertObject(side, s[1..], o);
          assert Views([s[0]] + t) == [s[0].View()] + Views(t);
        }
      }
    }
  }

  /** A new object appears in the set it is inserted into when no equivalent one is there. */
  lemma {:induction false} InsertedObjectPresent(side: Side, s: seq<LiveOrder>, o: LiveOrder)
    requires forall x :: x in s ==> x.id != o.id
    ensures o in InsertObject(side, s, o)
    decreases |s|
  {
    if s != [] {
      BeforeTotal(side, o.View(), s[0].View());
      InsertedObjectPresent(side, s[1..], o);
    }
  }

  /** An order taken from the front goes back to the front. */
  lemma InsertFront(side: Side, s: seq<LiveOrder>, o: LiveOrder)
    requires s != [] ==> ObjectBefore(side, o, s[0])
    ensures InsertObject(side, s, o) == [o] + s
  {
  }

  lemma {:induction false} EraseObjectViews(side: Side, s: seq<LiveOrder>, o: LiveOrder)
    requires Sorted(side, Views(s)) && o in s
    requires forall x :: x in s && x.id == o.id ==> x == o
    ensures Views(EraseObject(side, s, o)) == Exchange.Without(Views(s), o.id)
    ensures forall x :: x in EraseObject(side, s, o) <==> x in s && x != o
    decreases |s|
  {
    assert s == [s[0]] + s[1..];
    assert Views(s) == [s[0].View()] + Views(s[1..]) && Views(s)[1..] == Views(s[1..]);
    SortedTail(side, Views(s));
    if s[0] == o {
      EraseHead(side, s);
    } else {
      assert o in s[1..];
      HeadBefore(side, s, o);
      EraseObjectViews(side, s[1..], o);
      var t := EraseObject(side, s[1..], o);
      assert Views([s[0]] + t) == [s[0].View()] + Views(t);
    }
  }

  lemma SortedTail(side: Side, v: seq<Order>)
    requires Sorted(side, v) && v != []
    ensures Sorted(side, v[1..])
  {
  }

  lemma HeadBefore(side: Side, s: seq<LiveOrder>, o: LiveOrder)
    requires Sorted(side, Views(s)) && o in s && s[0] != o
    ensures ObjectBefore(side, s[0], o)
  {
    var i :| 0 <= i < |s| && s[i] == o;
    assert Before(side, Views(s)[0], Views(s)[i]);
  }

  lemma EraseHead(side: Side, s: seq<LiveOrder>)
    requires s != [] && Sorted(side, Views(s))
    requires forall x :: x in s && x.id == s[0].id ==> x == s[0]
    ensures EraseObject(side, s, s[0]) == s[1..]
    ensures Exchange.Without(Views(s), s[0].id) == Views(s[1..])
    ensures s[0] !in s[1..]
  {
    var o := s[0];
    StringLessIrreflexive(o.id);
    assert Views(s)[1..] == Views(s[1..]);
    forall i | 0 <= i < |s[1..]|
      ensures Before(side, o.View(), Views(s[1..])[i]) && s[1..][i] != o
    {
      assert Before(side, Views(s)[0], Views(s)[i + 1]);
      BeforeTotal(side, o.View(), o.View());
    }
    forall i | 0 <= i < |s[1..]|
      ensures Views(s[1..])[i].id != o.id
    {
      assert s[i + 1] in s;
    }
    WithoutAbsent(Views(s[1..]), o.id);
  }

  lemma {:induction false} WithoutAbsent(s: seq<Order>, id: string)
    requires Absent(id, s)
    ensures Exchange.Without(s, id) == s
    decreases |s|
  {
    if s != [] {
      WithoutAbsent(s[1..], id);
    }
  }

  /** The loops end because each turn takes the incoming order's size nearer to zero. */
  function Magnitude(size: int): nat {
    if size >= 0 then size else -size
  }

  /** One trade of a match, and the match that remains to be done after it. */
  lemma MatchUnroll(symbol: string, o: Order, resting: seq<Order>, size: int, rest: seq<Order>)
    requires o.remaining != 0 && resting != [] && Crosses(o, resting[0]) && resting[0].remaining > 0
    requires size == Min(o.remaining, resting[0].remaining)
    requires rest == (if size < resting[0].remaining then
                        [resting[0].(remaining := resting[0].remaining - size)]
                      else
                        []) + resting[1..]
    ensures var out := Match(symbol, o, resting);
            var next := Match(symbol, o.(remaining := o.remaining - size), rest);
            out == Outcome([TradeOf(symbol, o, resting[0], size)] + next.trades, next.remaining, next.resting)
  {
    if size < resting[0].remaining {
      assert [TradeOf(symbol, o, resting[0], size)] + [] == [TradeOf(symbol, o, resting[0], size)];
    } else {
      assert rest == resting[1..];
    }
  }

  /** The id index holds exactly the orders of the two sides, each on its own side. */
  ghost predicate Indexed(orders: map<string, LiveOrder>, buys: seq<LiveOrder>, sells: seq<LiveOrder>) {
    && (forall o :: o in buys ==> o.id in orders && orders[o.id] == o && o.side.Buy?)
    && (forall o :: o in sells ==> o.id in orders && orders[o.id] == o && o.side.Sell?)
    && (forall id :: id in orders ==>
          orders[id].id == id && orders[id] in (if orders[id].side.Buy? then buys else sells))
  }

  lemma NotIndexedAbsent(orders: map<string, LiveOrder>, buys: seq<LiveOrder>, sells: seq<LiveOrder>, id: string)
    requires Indexed(orders, buys, sells) && id !in orders
    ensures Absent(id, Views(buys)) && Absent(id, Views(sells))
  {
    forall i | 0 <= i < |buys|
      ensures Views(buys)[i].id != id
    {
      assert buys[i] in buys;
    }
    forall i | 0 <= i < |sells|
      ensures Views(sells)[i].id != id
    {
      assert sells[i] in sells;
    }
  }

  lemma BestOnOneSide(orders: map<string, LiveOrder>, buys: seq<LiveOrder>, sells: seq<LiveOrder>, best: LiveOrder)
    requires Indexed(orders, buys, sells) && (best in buys || best in sells)
    ensures best.id in orders && orders[best.id] == best && (best in buys <==> best !in sells)
  {
  }

  lemma IndexedErase(orders: map<string, LiveOrder>, buys: seq<LiveOrder>, sells: seq<LiveOrder>,
                     order: LiveOrder, buys': seq<LiveOrder>, sells': seq<LiveOrder>)
    requires Indexed(orders, buys, sells)
    requires order.id in orders && orders[order.id] == order
    requires forall x :: x in buys' <==> x in buys && x != order
    requires forall x :: x in sells' <==> x in sells && x != order
    ensures Indexed(orders - {order.id}, buys', sells')
  {
  }

  lemma IndexedInsert(orders: map<string, LiveOrder>, buys: seq<LiveOrder>, sells: seq<LiveOrder>,
                      order: LiveOrder, buys': seq<LiveOrder>, sells': seq<LiveOrder>)
    requires Indexed(orders, buys, sells) && order.id !in orders
    requires forall x :: x in buys' <==> x in buys || (x == order && order.side.Buy?)
    requires forall x :: x in sells' <==> x in sells || (x == order && order.side.Sell?)
    ensures Indexed(orders[order.id := order], buys', sells')
  {
  }

  lemma InsertObjectMembers(side: Side, s: seq<LiveOrder>, o: LiveOrder)
    requires forall x :: x in s ==> x.id != o.id
    ensures forall x :: x in InsertObject(side, s, o) <==> x in s || x == o
  {
    InsertObjectViews(side, s, o);
    InsertedObjectPresent(side, s, o);
  }

  lemma ViewPresent(s: seq<LiveOrder>, o: LiveOrder)
    requires o in s
    ensures o.View() in Views(s)
  {
    var i :| 0 <= i < |s| && s[i] == o;
    assert Views(s)[i] == o.View();
  }

  /** A match of o against `resting` is under way: after `trades`, what is left to do is the
      match of o' against `resting'`. */
  ghost predicate Continues(symbol: string, o: Order, resting: seq<Order>, trades: seq<Trade>,
                            o': Order, resting': seq<Order>) {
    var rest := Match(symbol, o', resting');
    Match(symbol, o, resting) == Outcome(trades + rest.trades, rest.remaining, rest.resting)
  }

  lemma ContinuesFrom(symbol: string, o: Order, resting: seq<Order>)
    ensures Continues(symbol, o, resting, [], o, resting)
  {
    var rest := Match(symbol, o, resting);
    assert [] + rest.trades == rest.trades;
  }

  lemma ContinuesOn(symbol: string, o: Order, resting: seq<Order>, trades: seq<Trade>, o': Order, resting': seq<Order>,
                    trade: Trade, o'': Order, resting'': seq<Order>)
    requires Continues(symbol, o, resting, trades, o', resting')
    requires Continues(symbol, o', resting', [trade], o'', resting'')
    ensures Continues(symbol, o, resting, trades + [trade], o'', resting'')
  {
    var rest := Match(symbol, o'', resting'');
    assert trades + ([trade] + rest.trades) == (trades + [trade]) + rest.trades;
  }

  lemma ContinuesToEnd(symbol: string, o: Order, resting: seq<Order>, trades: seq<Trade>,
                       o': Order, resting': seq<Order>)
    requires Continues(symbol, o, resting, trades, o', resting')
    requires o'.remaining == 0 || resting' == [] || !Crosses(o', resting'[0])
    ensures Match(symbol, o, resting) == Outcome(trades, o'.remaining, resting')
  {
    assert trades + [] == trades;
  }

  /** The facing side after one trade of the given size with its best order. */
  ghost function AfterTrade(resting: seq<Order>, size: int): seq<Order>
    requires resting != []
  {
    (if size < resting[0].remaining then [resting[0].(remaining := resting[0].remaining - size)] else []) + resting[1..]
  }

  lemma AfterTradeParts(head: Order, tail: seq<Order>, size: int, rest: seq<Order>)
    requires rest == if size < head.remaining then [head.(remaining := head.remaining - size)] + tail else tail
    ensures rest == AfterTrade([head] + tail, size)
  {
    assert ([head] + tail)[1..] == tail;
    assert [] + tail == tail;
  }

  lemma OneTrade(symbol: string, side: Side, o: Order, resting: seq<Order>, size: int)
    requires SideOk(side, symbol, resting) && resting != [] && Crosses(o, resting[0])
    requires o.remaining != 0 && size == Min(o.remaining, resting[0].remaining)
    ensures SideOk(side, symbol, AfterTrade(resting, size))
    ensures Continues(symbol, o, resting, [TradeOf(symbol, o, resting[0], size)],
                      o.(remaining := o.remaining - size), AfterTrade(resting, size))
  {
    MatchUnroll(symbol, o, resting, size, AfterTrade(resting, size));
    assert Continues(symbol, o, resting, [TradeOf(symbol, o, resting[0], size)],
                     o.(remaining := o.remaining - size), AfterTrade(resting, size));
    hide Match, Continues, Crosses;
    if size < resting[0].remaining {
      NewHeadKeepsSide(side, symbol, resting, resting[0].remaining - size);
    } else {
      SortedTail(side, resting);
      assert AfterTrade(resting, size) == resting[1..];
    }
  }

  lemma ViewsParts(s: seq<LiveOrder>)
    requires s != []
    ensures Views(s) == [s[0].View()] + Views(s[1..])
  {
  }

  /** What the facing side looks like after a trade of the given size with its best order. */
  lemma SideAfterTrade(s: seq<LiveOrder>, rest: seq<LiveOrder>, head: Order, tail: seq<Order>, size: int)
    requires s != [] && tail == Views(s[1..])
    requires s[0].View() == head.(remaining := head.remaining - size)
    requires rest == if size < head.remaining then s else s[1..]
    ensures Views(rest) == AfterTrade([head] + tail, size)
  {
    hide Views, AfterTrade;
    ViewsParts(s);
    AfterTradeParts(head, tail, size, Views(rest));
  }

  /** The index and the memberships after a trade with the best order of `facing`. */
  lemma TurnMembers(orders: map<string, LiveOrder>, buys: seq<LiveOrder>, sells: seq<LiveOrder>, side: Side,
                    best: LiveOrder, orders': map<string, LiveOrder>, rest: seq<LiveOrder>, filled: bool)
    requires Indexed(orders, buys, sells)
    requires var facing := if side.Buy? then buys else sells;
             && facing != [] && best == facing[0] && best !in facing[1..]
             && rest == if filled then facing[1..] else facing
    requires orders' == if filled then orders - {best.id} else orders
    ensures Indexed(orders', if side.Buy? then rest else buys, if side.Buy? then sells else rest)
    ensures forall id :: id in orders' ==> id in orders
    ensures forall x :: x in rest ==> x in (if side.Buy? then buys else sells)
  {
    if filled {
      BestOnOneSide(orders, buys, sells, best);
      IndexedErase(orders, buys, sells, best, if side.Buy? then rest else buys, if side.Buy? then sells else rest);
    }
  }

  lemma BestOrder(side: Side, symbol: string, s: seq<LiveOrder>)
    requires SideOk(side, symbol, Views(s)) && s != []
    ensures s[0] !in s[1..] && s[0].remainingSize > 0
    ensures |s| > 1 ==> ObjectBefore(side, s[0], s[1])
    ensures Views(s)[1..] == Views(s[1..]) && Views(s)[0] == s[0].View()
  {
    BestIsLive(side, symbol, s);
    BestOnce(side, s);
  }

  lemma BestIsLive(side: Side, symbol: string, s: seq<LiveOrder>)
    requires SideOk(side, symbol, Views(s)) && s != []
    ensures s[0].remainingSize > 0
    ensures |s| > 1 ==> ObjectBefore(side, s[0], s[1])
  {
    var v := Views(s);
    assert v[0] == s[0].View() && v[0].remaining > 0;
    if |s| > 1 {
      SameOrder(side, s[0], s[1], v[0], v[1]);
    }
  }

  lemma SameOrder(side: Side, a: LiveOrder, b: LiveOrder, x: Order, y: Order)
    requires x.price == a.price && x.id == a.id && y.price == b.price && y.id == b.id
    ensures ObjectBefore(side, a, b) <==> Before(side, x, y)
  {
  }

  lemma BestOnce(side: Side, s: seq<LiveOrder>)
    requires Sorted(side, Views(s)) && s != []
    ensures s[0] !in s[1..]
  {
    StringLessIrreflexive(s[0].id);
    forall i | 0 < i < |s|
      ensures s[i] != s[0]
    {
      assert Before(side, Views(s)[0], Views(s)[i]);
    }
  }

  class OrderBook {
    const symbol: string
    var orders: map<string, LiveOrder>
    var buyOrders: seq<LiveOrder>
    var sellOrders: seq<LiveOrder>

    ghost function View(): Exchange.Book
      reads this, buyOrders, sellOrders
    {
      Exchange.Book(symbol, Views(buyOrders), Views(sellOrders))
    }

    ghost predicate Valid()
      reads this, buyOrders, sellOrders
    {
      Indexed(orders, buyOrders, sellOrders) && Exchange.BookOk(View())
    }

    constructor (symbol: string)
      ensures Valid() && View() == Exchange.Book(symbol, [], [])
      ensures this.symbol == symbol && orders == map[] && buyOrders == [] && sellOrders == []
    {
      this.symbol := symbol;
      orders, buyOrders, sellOrders := map[], [], [];
    }

    /** `addOrder`: into the index and onto its own side. */
    method AddOrder(order: LiveOrder)
      modifies this
      ensures old(Indexed(orders, buyOrders, sellOrders)) && order.id !in old(orders) ==>
                Indexed(orders, buyOrders, sellOrders)
      ensures orders == old(orders)[order.id := order]
      ensures buyOrders == if order.side.Buy? then InsertObject(Buy, old(buyOrders), order) else old(buyOrders)
      ensures sellOrders == if order.side.Sell? then InsertObject(Sell, old(sellOrders), order) else old(sellOrders)
      ensures forall x :: x in buyOrders ==> x in old(buyOrders) || x == order
      ensures forall x :: x in sellOrders ==> x in old(sellOrders) || x == order
      ensures Views(buyOrders) ==
              if order.side.Buy? then Insert(Buy, old(Views(buyOrders)), order.View()) else old(Views(buyOrders))
      ensures Views(sellOrders) ==
              if order.side.Sell? then Insert(Sell, old(Views(sellOrders)), order.View()) else old(Views(sellOrders))
    {
      InsertedSides(order);
      orders := orders[order.id := order];
      if order.side == Buy {
        buyOrders := InsertObject(Buy, buyOrders, order);
      } else {
        sellOrders := InsertObject(Sell, sellOrders, order);
      }
      ViewsUnchanged(buyOrders);
      ViewsUnchanged(sellOrders);
    }

    lemma InsertedSides(order: LiveOrder)
      ensures var buys := if order.side.Buy? then InsertObject(Buy, buyOrders, order) else buyOrders;
              var sells := if order.side.Sell? then InsertObject(Sell, sellOrders, order) else sellOrders;
              && (Indexed(orders, buyOrders, sellOrders) && order.id !in orders ==>
                    Indexed(orders[order.id := order], buys, sells))
              && (forall x :: x in buys ==> x in buyOrders || x == order)
              && (forall x :: x in sells ==> x in sellOrders || x == order)
              && Views(buys) == (if order.side.Buy? then Insert(Buy, Views(buyOrders), order.View())
                                 else Views(buyOrders))
              && Views(sells) == (if order.side.Sell? then Insert(Sell, Views(sellOrders), order.View())
                                  else Views(sellOrders))
    {
      if order.side.Buy? {
        InsertObjectViews(Buy, buyOrders, order);
        if Indexed(orders, buyOrders, sellOrders) && order.id !in orders {
          InsertObjectMembers(Buy, buyOrders, order);
          IndexedInsert(orders, buyOrders, sellOrders, order, InsertObject(Buy, buyOrders, order), sellOrders);
        }
      } else {
        InsertObjectViews(Sell, sellOrders, order);
        if Indexed(orders, buyOrders, sellOrders) && order.id !in orders {
          InsertObjectMembers(Sell, sellOrders, order);
          IndexedInsert(orders, buyOrders, sellOrders, order, buyOrders, InsertObject(Sell, sellOrders, order));
        }
      }
    }

    method RemoveOrder(orderId: string) returns (ok: bool)
      requires Valid()
      modifies this
      ensures Valid()
      ensures ok == (orderId in old(orders))
      ensures ok <==> Exchange.Rests(old(View()), orderId)
      ensures View() == Exchange.RemoveOrder(old(View()), orderId)
      ensures forall o :: o in buyOrders ==> o in old(buyOrders)
      ensures forall o :: o in sellOrders ==> o in old(sellOrders)
    {
      if orderId !in orders {
        NotRemoved(orderId);
        return false;
      }
      var order := orders[orderId];
      if order.side == Buy {
        RemovedBuy(order);
      } else {
        RemovedSell(order);
      }
      Erase(order);
      return true;
    }

    /** Erases an order from its own side and from the index. */
    method Erase(order: LiveOrder)
      modifies this
      ensures orders == old(orders) - {order.id}
      ensures buyOrders == if order.side.Buy? then EraseObject(Buy, old(buyOrders), order) else old(buyOrders)
      ensures sellOrders == if order.side.Sell? then EraseObject(Sell, old(sellOrders), order) else old(sellOrders)
      ensures Views(buyOrders) ==
              old(Views(if order.side.Buy? then EraseObject(Buy, buyOrders, order) else buyOrders))
      ensures Views(sellOrders) ==
              old(Views(if order.side.Sell? then EraseObject(Sell, sellOrders, order) else sellOrders))
    {
      if order.side == Buy {
        buyOrders := EraseObject(Buy, buyOrders, order);
      } else {
        sellOrders := EraseObject(Sell, sellOrders, order);
      }
      orders := orders - {order.id};
      ViewsUnchanged(buyOrders);
      ViewsUnchanged(sellOrders);
    }

    lemma AbsentNotIndexed(id: string)
      requires Indexed(orders, buyOrders, sellOrders)
      requires Absent(id, View().bids) && Absent(id, View().asks)
      ensures id !in orders
    {
      if id in orders {
        if orders[id].side.Buy? {
          ViewPresent(buyOrders, orders[id]);
        } else {
          ViewPresent(sellOrders, orders[id]);
        }
      }
    }

    lemma NotRemoved(id: string)
      requires Valid() && id !in orders
      ensures Exchange.RemoveOrder(View(), id) == View() && !Exchange.Rests(View(), id)
    {
      NotIndexedAbsent(orders, buyOrders, sellOrders, id);
      WithoutAbsent(View().bids, id);
      WithoutAbsent(View().asks, id);
    }

    /** The book after erasing one of its buy orders. */
    lemma RemovedBuy(order: LiveOrder)
      requires Valid() && order in buyOrders
      ensures var buys := EraseObject(Buy, buyOrders, order);
              && Exchange.Book(symbol, Views(buys), Views(sellOrders)) == Exchange.RemoveOrder(View(), order.id)
              && Indexed(orders - {order.id}, buys, sellOrders)
              && forall o :: o in buys ==> o in buyOrders
      ensures Exchange.BookOk(Exchange.RemoveOrder(View(), order.id)) && Exchange.Rests(View(), order.id)
    {
      Exchange.RemoveKeepsBook(View(), order.id);
      EraseObjectViews(Buy, buyOrders, order);
      IndexedErase(orders, buyOrders, sellOrders, order, EraseObject(Buy, buyOrders, order), sellOrders);
      ViewPresent(buyOrders, order);
      WithoutAbsent(View().asks, order.id);
    }

    /** The book after erasing one of its sell orders. */
    lemma RemovedSell(order: LiveOrder)
      requires Valid() && order in sellOrders
      ensures var sells := EraseObject(Sell, sellOrders, order);
              && Exchange.Book(symbol, Views(buyOrders), Views(sells)) == Exchange.RemoveOrder(View(), order.id)
              && Indexed(orders - {order.id}, buyOrders, sells)
              && forall o :: o in sells ==> o in sellOrders
      ensures Exchange.BookOk(Exchange.RemoveOrder(View(), order.id)) && Exchange.Rests(View(), order.id)
    {
      Exchange.RemoveKeepsBook(View(), order.id);
      EraseObjectViews(Sell, sellOrders, order);
      IndexedErase(orders, buyOrders, sellOrders, order, buyOrders, EraseObject(Sell, sellOrders, order));
      ViewPresent(sellOrders, order);
      WithoutAbsent(View().bids, order.id);
    }

    /** One turn of the loop of `matchBuyOrder`: trade with the best sell order. */
    method TradeWithBestSell(buyOrder: LiveOrder) returns (trade: Trade)
      requires sellOrders != [] && buyOrder !in sellOrders && sellOrders[0] !in sellOrders[1..]
      requires buyOrder !in buyOrders && sellOrders[0] !in buyOrders
      requires buyOrder.side.Buy? && buyOrder.remainingSize != 0 && sellOrders[0].remainingSize > 0
      requires |sellOrders| > 1 ==> ObjectBefore(Sell, sellOrders[0], sellOrders[1])
      modifies this, buyOrder, sellOrders[0]
      ensures buyOrders == old(buyOrders) && Views(buyOrders) == old(Views(buyOrders))
      ensures Views(old(sellOrders)[1..]) == old(Views(sellOrders[1..]))
      ensures var best := old(sellOrders[0]);
              var size := Min(old(buyOrder.remainingSize), old(sellOrders[0].remainingSize));
              && trade == TradeOf(symbol, old(buyOrder.View()), old(sellOrders[0].View()), size)
              && buyOrder.View() == old(buyOrder.View()).(remaining := old(buyOrder.remainingSize) - size)
              && best.remainingSize == old(sellOrders[0].remainingSize) - size
              && sellOrders == (if size < old(sellOrders[0].remainingSize) then old(sellOrders)
                                else old(sellOrders)[1..])
              && orders == if size < old(sellOrders[0].remainingSize) then old(orders) else old(orders) - {best.id}
    {
      var bestSell := sellOrders[0];
      ghost var others := sellOrders[1..];
      hide Views;
      var tradeSize := Min(buyOrder.remainingSize, bestSell.remainingSize);
      var tradePrice := bestSell.price;
      sellOrders := sellOrders[1..];
      var reduced := buyOrder.ReduceSize(tradeSize);
      reduced := bestSell.ReduceSize(tradeSize);
      trade := Trade(symbol, tradePrice, tradeSize, buyOrder.id, bestSell.id);
      if !bestSell.IsFilled() {
        InsertFront(Sell, sellOrders, bestSell);
        sellOrders := InsertObject(Sell, sellOrders, bestSell);
      } else {
        orders := orders - {bestSell.id};
      }
      ViewsUnchanged(others);
      ViewsUnchanged(buyOrders);
    }

    method MatchBuyOrder(buyOrder: LiveOrder) returns (trades: seq<Trade>)
      requires Indexed(orders, buyOrders, sellOrders)
      requires buyOrder !in buyOrders && buyOrder !in sellOrders && buyOrder.side.Buy?
      requires SideOk(Sell, symbol, Views(sellOrders))
      modifies this, buyOrder, sellOrders
      ensures Indexed(orders, buyOrders, sellOrders) && buyOrder !in buyOrders && buyOrder !in sellOrders
      ensures forall id :: id in orders ==> id in old(orders)
      ensures buyOrders == old(buyOrders) && Views(buyOrders) == old(Views(buyOrders))
      ensures forall x :: x in sellOrders ==> x in old(sellOrders)
      ensures Match(symbol, old(buyOrder.View()), old(Views(sellOrders))) ==
              Outcome(trades, buyOrder.remainingSize, Views(sellOrders))
    {
      trades := [];
      ghost var all, o, resting := sellOrders, buyOrder.View(), Views(sellOrders);
      ContinuesFrom(symbol, o, resting);
      while !buyOrder.IsFilled() && sellOrders != []
        invariant Indexed(orders, buyOrders, sellOrders) && buyOrder !in buyOrders && buyOrder !in sellOrders
        invariant forall id :: id in orders ==> id in old(orders)
        invariant buyOrders == old(buyOrders) && Views(buyOrders) == old(Views(buyOrders))
        invariant forall x :: x in sellOrders ==> x in all
        invariant SideOk(Sell, symbol, Views(sellOrders))
        invariant Continues(symbol, o, resting, trades, buyOrder.View(), Views(sellOrders))
        decreases Magnitude(buyOrder.remainingSize)
      {
        var bestSell := sellOrders[0];
        if bestSell.price > buyOrder.price {
          break;
        }
        ghost var o', resting' := buyOrder.View(), Views(sellOrders);
        var trade := BuyTurn(buyOrder, all);
        ContinuesOn(symbol, o, resting, trades, o', resting', trade, buyOrder.View(), Views(sellOrders));
        trades := trades + [trade];
      }
      ContinuesToEnd(symbol, o, resting, trades, buyOrder.View(), Views(sellOrders));
    }

    /** One turn of the loop keeps its invariant. */
    method BuyTurn(buyOrder: LiveOrder, ghost all: seq<LiveOrder>) returns (trade: Trade)
      requires Indexed(orders, buyOrders, sellOrders)
      requires buyOrder !in buyOrders && buyOrder !in sellOrders && buyOrder.side.Buy?
      requires buyOrder.remainingSize != 0 && SideOk(Sell, symbol, Views(sellOrders))
      requires sellOrders != [] && Crosses(buyOrder.View(), sellOrders[0].View())
      requires forall x :: x in sellOrders ==> x in all
      modifies this, buyOrder, sellOrders[0]
      ensures Indexed(orders, buyOrders, sellOrders) && buyOrder !in buyOrders && buyOrder !in sellOrders
      ensures forall id :: id in orders ==> id in old(orders)
      ensures buyOrders == old(buyOrders) && Views(buyOrders) == old(Views(buyOrders))
      ensures forall x :: x in sellOrders ==> x in all
      ensures Magnitude(buyOrder.remainingSize) < Magnitude(old(buyOrder.remainingSize))
      ensures SideOk(Sell, symbol, Views(sellOrders))
      ensures Continues(symbol, old(buyOrder.View()), old(Views(sellOrders)), [trade],
                        buyOrder.View(), Views(sellOrders))
    {
      ghost var index, buys, sells, best := orders, buyOrders, sellOrders, sellOrders[0];
      ghost var head, tail := best.View(), Views(sellOrders[1..]);
      ghost var size := Min(buyOrder.remainingSize, best.remainingSize);
      BestOrder(Sell, symbol, sellOrders);
      ViewsParts(sellOrders);
      BestOnOneSide(orders, buyOrders, sellOrders, best);
      OneTrade(symbol, Sell, buyOrder.View(), Views(sellOrders), size);
      hide Match, Continues, SideOk, Indexed, Views, AfterTrade, Crosses;
      trade := TradeWithBestSell(buyOrder);
      TurnMembers(index, buys, sells, Sell, best, orders, sellOrders, size == head.remaining);
      SideAfterTrade(sells, sellOrders, head, tail, size);
    }

    /** One turn of the loop of `matchSellOrder`: trade with the best buy order. */
    method TradeWithBestBuy(sellOrder: LiveOrder) returns (trade: Trade)
      requires buyOrders != [] && sellOrder !in buyOrders && buyOrders[0] !in buyOrders[1..]
      requires sellOrder !in sellOrders && buyOrders[0] !in sellOrders
      requires sellOrder.side.Sell? && sellOrder.remainingSize != 0 && buyOrders[0].remainingSize > 0
      requires |buyOrders| > 1 ==> ObjectBefore(Buy, buyOrders[0], buyOrders[1])
      modifies this, sellOrder, buyOrders[0]
      ensures sellOrders == old(sellOrders) && Views(sellOrders) == old(Views(sellOrders))
      ensures Views(old(buyOrders)[1..]) == old(Views(buyOrders[1..]))
      ensures var best := old(buyOrders[0]);
              var size := Min(old(sellOrder.remainingSize), old(buyOrders[0].remainingSize));
              && trade == TradeOf(symbol, old(sellOrder.View()), old(buyOrders[0].View()), size)
              && sellOrder.View() == old(sellOrder.View()).(remaining := old(sellOrder.remainingSize) - size)
              && best.remainingSize == old(buyOrders[0].remainingSize) - size
              && buyOrders == (if size < old(buyOrders[0].remainingSize) then old(buyOrders)
                               else old(buyOrders)[1..])
              && orders == if size < old(buyOrders[0].remainingSize) then old(orders) else old(orders) - {best.id}
    {
      var bestBuy := buyOrders[0];
      ghost var others := buyOrders[1..];
      hide Views;
      var tradeSize := Min(sellOrder.remainingSize, bestBuy.remainingSize);
      var tradePrice := bestBuy.price;
      buyOrders := buyOrders[1..];
      var reduced := sellOrder.ReduceSize(tradeSize);
      reduced := bestBuy.ReduceSize(tradeSize);
      trade := Trade(symbol, tradePrice, tradeSize, bestBuy.id, sellOrder.id);
      if !bestBuy.IsFilled() {
        InsertFront(Buy, buyOrders, bestBuy);
        buyOrders := InsertObject(Buy, buyOrders, bestBuy);
      } else {
        orders := orders - {bestBuy.id};
      }
      ViewsUnchanged(others);
      ViewsUnchanged(sellOrders);
    }

    method MatchSellOrder(sellOrder: LiveOrder) returns (trades: seq<Trade>)
      requires Indexed(orders, buyOrders, sellOrders)
      requires sellOrder !in buyOrders && sellOrder !in sellOrders && sellOrder.side.Sell?
      requires SideOk(Buy, symbol, Views(buyOrders))
      modifies this, sellOrder, buyOrders
      ensures Indexed(orders, buyOrders, sellOrders) && sellOrder !in buyOrders && sellOrder !in sellOrders
      ensures forall id :: id in orders ==> id in old(orders)
      ensures sellOrders == old(sellOrders) && Views(sellOrders) == old(Views(sellOrders))
      ensures forall x :: x in buyOrders ==> x in old(buyOrders)
      ensures Match(symbol, old(sellOrder.View()), old(Views(buyOrders))) ==
              Outcome(trades, sellOrder.remainingSize, Views(buyOrders))
    {
      trades := [];
      ghost var all, o, resting := buyOrders, sellOrder.View(), Views(buyOrders);
      ContinuesFrom(symbol, o, resting);
      while !sellOrder.IsFilled() && buyOrders != []
        invariant Indexed(orders, buyOrders, sellOrders) && sellOrder !in buyOrders && sellOrder !in sellOrders
        invariant forall id :: id in orders ==> id in old(orders)
        invariant sellOrders == old(sellOrders) && Views(sellOrders) == old(Views(sellOrders))
        invariant forall x :: x in buyOrders ==> x in all
        invariant SideOk(Buy, symbol, Views(buyOrders))
        invariant Continues(symbol, o, resting, trades, sellOrder.View(), Views(buyOrders))
        decreases Magnitude(sellOrder.remainingSize)
      {
        var bestBuy := buyOrders[0];
        if bestBuy.price < sellOrder.price {
          break;
        }
        ghost var o', resting' := sellOrder.View(), Views(buyOrders);
        var trade := SellTurn(sellOrder, all);
        ContinuesOn(symbol, o, resting, trades, o', resting', trade, sellOrder.View(), Views(buyOrders));
        trades := trades + [trade];
      }
      ContinuesToEnd(symbol, o, resting, trades, sellOrder.View(), Views(buyOrders));
    }

    /** One turn of the loop keeps its invariant. */
    method SellTurn(sellOrder: LiveOrder, ghost all: seq<LiveOrder>) returns (trade: Trade)
      requires Indexed(orders, buyOrders, sellOrders)
      requires sellOrder !in buyOrders && sellOrder !in sellOrders && sellOrder.side.Sell?
      requires sellOrder.remainingSize != 0 && SideOk(Buy, symbol, Views(buyOrders))
      requires buyOrders != [] && Crosses(sellOrder.View(), buyOrders[0].View())
      requires forall x :: x in buyOrders ==> x in all
      modifies this, sellOrder, buyOrders[0]
      ensures Indexed(orders, buyOrders, sellOrders) && sellOrder !in buyOrders && sellOrder !in sellOrders
      ensures forall id :: id in orders ==> id in old(orders)
      ensures sellOrders == old(sellOrders) && Views(sellOrders) == old(Views(sellOrders))
      ensures forall x :: x in buyOrders ==> x in all
      ensures Magnitude(sellOrder.remainingSize) < Magnitude(old(sellOrder.remainingSize))
      ensures SideOk(Buy, symbol, Views(buyOrders))
      ensures Continues(symbol, old(sellOrder.View()), old(Views(buyOrders)), [trade],
                        sellOrder.View(), Views(buyOrders))
    {
      ghost var index, buys, sells, best := orders, buyOrders, sellOrders, buyOrders[0];
      ghost var head, tail := best.View(), Views(buyOrders[1..]);
      ghost var size := Min(sellOrder.remainingSize, best.remainingSize);
      BestOrder(Buy, symbol, buyOrders);
      ViewsParts(buyOrders);
      BestOnOneSide(orders, buyOrders, sellOrders, best);
      OneTrade(symbol, Buy, sellOrder.View(), Views(buyOrders), size);
      hide Match, Continues, SideOk, Indexed, Views, AfterTrade, Crosses;
      trade := TradeWithBestBuy(sellOrder);
      TurnMembers(index, buys, sells, Buy, best, orders, buyOrders, size == head.remaining);
      SideAfterTrade(buys, buyOrders, head, tail, size);
    }

    /** `matchOrder`: trade with the facing side, then rest what is not filled. */
    method MatchOrder(incoming: LiveOrder) returns (trades: seq<Trade>)
      requires Indexed(orders, buyOrders, sellOrders) && incoming !in buyOrders && incoming !in sellOrders
      requires SideOk(Opposite(incoming.side), symbol, Exchange.Facing(View(), incoming.side))
      modifies this, incoming, buyOrders, sellOrders
      ensures incoming.id !in old(orders) || incoming.remainingSize == 0 ==> Indexed(orders, buyOrders, sellOrders)
      ensures View() == Exchange.MatchOrder(old(View()), old(incoming.View()))
      ensures trades ==
              Match(symbol, old(incoming.View()), Exchange.Facing(old(View()), incoming.side)).trades
      ensures forall x :: x in buyOrders || x in sellOrders ==>
                x in old(buyOrders) || x in old(sellOrders) || x == incoming
    {
      if incoming.side == Buy {
        trades := MatchIncomingBuy(incoming);
      } else {
        trades := MatchIncomingSell(incoming);
      }
    }

    method MatchIncomingBuy(incoming: LiveOrder) returns (trades: seq<Trade>)
      requires Indexed(orders, buyOrders, sellOrders) && incoming !in buyOrders && incoming !in sellOrders
      requires incoming.side.Buy? && SideOk(Sell, symbol, Views(sellOrders))
      modifies this, incoming, sellOrders
      ensures incoming.id !in old(orders) || incoming.remainingSize == 0 ==> Indexed(orders, buyOrders, sellOrders)
      ensures var o, out := old(incoming.View()), Match(symbol, old(incoming.View()), old(Views(sellOrders)));
              && trades == out.trades
              && Views(sellOrders) == out.resting
              && Views(buyOrders) ==
                 if out.remaining == 0 then old(Views(buyOrders))
                 else Insert(Buy, old(Views(buyOrders)), o.(remaining := out.remaining))
      ensures forall x :: x in buyOrders ==> x in old(buyOrders) || x == incoming
      ensures forall x :: x in sellOrders ==> x in old(sellOrders)
    {
      trades := MatchBuyOrder(incoming);
      hide Match, SideOk, Indexed, Views, Insert, InsertObject;
      if !incoming.IsFilled() {
        AddOrder(incoming);
      }
    }

    method MatchIncomingSell(incoming: LiveOrder) returns (trades: seq<Trade>)
      requires Indexed(orders, buyOrders, sellOrders) && incoming !in buyOrders && incoming !in sellOrders
      requires incoming.side.Sell? && SideOk(Buy, symbol, Views(buyOrders))
      modifies this, incoming, buyOrders
      ensures incoming.id !in old(orders) || incoming.remainingSize == 0 ==> Indexed(orders, buyOrders, sellOrders)
      ensures var o, out := old(incoming.View()), Match(symbol, old(incoming.View()), old(Views(buyOrders)));
              && trades == out.trades
              && Views(buyOrders) == out.resting
              && Views(sellOrders) ==
                 if out.remaining == 0 then old(Views(sellOrders))
                 else Insert(Sell, old(Views(sellOrders)), o.(remaining := out.remaining))
      ensures forall x :: x in sellOrders ==> x in old(sellOrders) || x == incoming
      ensures forall x :: x in buyOrders ==> x in old(buyOrders)
    {
      trades := MatchSellOrder(incoming);
      hide Match, SideOk, Indexed, Views, Insert, InsertObject;
      if !incoming.IsFilled() {
        AddOrder(incoming);
      }
    }
  }

  /** A book none of whose objects changed looks as it did. */
  twostate lemma BookUnchanged(b: OrderBook)
    requires unchanged(b)
    requires forall o :: o in b.buyOrders ==> unchanged(o)
    requires forall o :: o in b.sellOrders ==> unchanged(o)
    ensures b.View() == old(b.View())
  {
    ViewsUnchanged(b.buyOrders);
    ViewsUnchanged(b.sellOrders);
  }
}
