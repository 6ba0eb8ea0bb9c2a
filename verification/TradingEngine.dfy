/** The matching engine object of `order-matching-engine.cpp`: one book per symbol, and the two
    client calls, proved against the value-level engine of `Exchange`. */
module TradingEngine {
  import opened OrderIds
  import opened Matching
  import opened OrderBooks
  import Exchange
  import Audit

  /** Placing an order finds a sorted facing side and an id that is nowhere in the book. */
  lemma ReadyToPlace(e: Exchange.Engine, symbol: string, price: real, size: int, side: Side)
    requires Exchange.EngineOk(e)
    ensures var b := Exchange.BookOf(e, symbol);
            && b.symbol == symbol
            && SideOk(Opposite(side), symbol, Exchange.Facing(b, side))
            && Absent(OrderId(e.nextId), b.bids) && Absent(OrderId(e.nextId), b.asks)
    ensures Exchange.EngineOk(Exchange.PlaceOrder(e, symbol, price, size, side)) <==>
            size >= 0 || Exchange.FindsOne(e, symbol, price, size, side)
  {
    Exchange.NewOrderIsNewcomer(e, symbol, Exchange.NewOrder(e, symbol, price, size, side));
    Exchange.PlaceKeepsEngineExactly(e, symbol, price, size, side);
  }

  /** A book that does not hold an id is not changed by cancelling it. */
  lemma NothingToRemove(b: Exchange.Book, id: string)
    requires !Exchange.Rests(b, id)
    ensures Exchange.RemoveOrder(b, id) == b
  {
    forall i | 0 <= i < |b.bids|
      ensures b.bids[i].id != id
    {
      assert b.bids[i] in b.bids;
    }
    forall i | 0 <= i < |b.asks|
      ensures b.asks[i].id != id
    {
      assert b.asks[i] in b.asks;
    }
    WithoutAbsent(b.bids, id);
    WithoutAbsent(b.asks, id);
  }

  lemma RestsIsHolds(e: Exchange.Engine, symbol: string, id: string)
    requires symbol in e.books
    ensures Exchange.Rests(e.books[symbol], id) <==> Exchange.Holds(e, symbol, id)
  {
    var b := e.books[symbol];
    if Exchange.Rests(b, id) {
      if x :| x in b.bids && x.id == id {
        assert Exchange.InBook(b, x);
      } else {
        var y :| y in b.asks && y.id == id;
        assert Exchange.InBook(b, y);
      }
    }
  }

  /** Since no id lives in two books, removing it from the first book found to hold it is
      removing it from all of them, whichever book that is. */
  lemma CancelInOneBook(e: Exchange.Engine, symbol: string, id: string)
    requires Exchange.EngineOk(e) && symbol in e.books && Exchange.Rests(e.books[symbol], id)
    ensures Exchange.CancelOrder(e, id).books == e.books[symbol := Exchange.RemoveOrder(e.books[symbol], id)]
    ensures Exchange.Holds(e, symbol, id)
    ensures Exchange.EngineOk(Exchange.CancelOrder(e, id))
  {
    hide Exchange.BooksOk, Exchange.IdsIssued, Exchange.RemoveOrder, Exchange.Rests, Exchange.Holds;
    Exchange.CancelKeepsEngine(e, id);
    RestsIsHolds(e, symbol, id);
    forall s | s in e.books && s != symbol
      ensures Exchange.RemoveOrder(e.books[s], id) == e.books[s]
    {
      RestsIsHolds(e, s, id);
      NothingToRemove(e.books[s], id);
    }
  }

  lemma CancelInNoBook(e: Exchange.Engine, id: string)
    requires forall s :: s in e.books ==> !Exchange.Rests(e.books[s], id)
    ensures Exchange.CancelOrder(e, id) == e
    ensures forall s :: !Exchange.Holds(e, s, id)
  {
    forall s | s in e.books
      ensures Exchange.RemoveOrder(e.books[s], id) == e.books[s] && !Exchange.Holds(e, s, id)
    {
      NothingToRemove(e.books[s], id);
      RestsIsHolds(e, s, id);
    }
  }

  /** The books once the book of a symbol has been asked for. */
  function Opened(books: map<string, Exchange.Book>, symbol: string): map<string, Exchange.Book> {
    if symbol in books then books else books[symbol := Exchange.Book(symbol, [], [])]
  }

  lemma ReplaceOpened(books: map<string, Exchange.Book>, symbol: string, b: Exchange.Book)
    ensures Opened(books, symbol)[symbol := b] == books[symbol := b]
  {
  }

  class MatchingEngine {
    var orderBooks: map<string, OrderBook>
    var nextOrderId: nat
    // What the trade notifier has been told, in order.
    var trades: seq<Trade>
    // The books as values, and the objects the engine is made of.
    ghost var books: map<string, Exchange.Book>
    ghost var Repr: set<object>

    ghost function View(): Exchange.Engine
      reads this
    {
      Exchange.Engine(books, nextOrderId, trades)
    }

    /** The book of a symbol is as recorded, is indexed, and holds orders of that symbol only. */
    ghost predicate BookContained(symbol: string)
      requires this in Repr && symbol in orderBooks && symbol in books && orderBooks[symbol] in Repr
      reads this, Repr
    {
      var b := orderBooks[symbol];
      && b.symbol == symbol
      && Indexed(b.orders, b.buyOrders, b.sellOrders)
      && (forall o :: o in b.buyOrders ==> o in Repr && o.symbol == symbol)
      && (forall o :: o in b.sellOrders ==> o in Repr && o.symbol == symbol)
      && b.View() == books[symbol]
    }

    ghost predicate Contained()
      reads this, Repr
    {
      && this in Repr
      && (forall s :: s in orderBooks <==> s in books)
      && (forall s :: s in orderBooks ==> orderBooks[s] in Repr && BookContained(s))
    }

    ghost predicate Valid()
      reads this, Repr
    {
      Contained() && Exchange.EngineOk(View())
    }

    constructor ()
      ensures Valid() && fresh(Repr) && View() == Exchange.Start()
    {
      orderBooks, nextOrderId, trades, books := map[], 1, [], map[];
      Repr := {this};
    }

    /** Changes to the engine's own fields do not disturb a book that keeps its record. */
    twostate lemma BookKept(symbol: string)
      requires old(Contained()) && symbol in old(orderBooks)
      requires this in Repr && old(Repr) <= Repr
      requires symbol in orderBooks && orderBooks[symbol] == old(orderBooks[symbol])
      requires symbol in books && books[symbol] == old(books[symbol])
      requires unchanged(orderBooks[symbol])
      requires forall o: LiveOrder :: o in old(Repr) && o.symbol == symbol ==> unchanged(o)
      ensures orderBooks[symbol] in Repr && BookContained(symbol)
    {
      assert old(BookContained(symbol));
      BookUnchanged(orderBooks[symbol]);
    }

    /** The same for all books but those of some symbols. */
    twostate lemma BooksKept(changed: set<string>)
      requires old(Contained())
      requires this in Repr && old(Repr) <= Repr
      requires forall s :: s in old(orderBooks) && s !in changed ==>
                 && s in orderBooks && orderBooks[s] == old(orderBooks[s]) && unchanged(orderBooks[s])
                 && s in books && books[s] == old(books[s])
      requires forall o: LiveOrder :: o in old(Repr) && o.symbol !in changed ==> unchanged(o)
      ensures forall s :: s in old(orderBooks) && s !in changed ==> orderBooks[s] in Repr && BookContained(s)
    {
      forall s | s in old(orderBooks) && s !in changed
        ensures orderBooks[s] in Repr && BookContained(s)
      {
        BookKept(s);
      }
    }

    /** `getOrderBook`: the book of a symbol, created empty on first use. */
    method GetOrderBook(symbol: string) returns (book: OrderBook)
      requires Contained()
      modifies this
      ensures Contained() && fresh(Repr - old(Repr)) && old(Repr) <= Repr
      ensures symbol in orderBooks && book == orderBooks[symbol]
      ensures books == Opened(old(books), symbol)
      ensures nextOrderId == old(nextOrderId) && trades == old(trades)
    {
      if symbol in orderBooks {
        book := orderBooks[symbol];
      } else {
        book := new OrderBook(symbol);
        AddBook(symbol, book);
      }
    }

    method AddBook(symbol: string, book: OrderBook)
      requires Contained() && symbol !in orderBooks && book !in Repr
      requires book.symbol == symbol && book.buyOrders == [] && book.sellOrders == [] && book.orders == map[]
      modifies this
      ensures Contained() && Repr == old(Repr) + {book}
      ensures orderBooks == old(orderBooks)[symbol := book]
      ensures books == old(books)[symbol := Exchange.Book(symbol, [], [])]
      ensures nextOrderId == old(nextOrderId) && trades == old(trades)
    {
      orderBooks := orderBooks[symbol := book];
      books := books[symbol := Exchange.Book(symbol, [], [])];
      Repr := Repr + {book};
      BooksKept({symbol});
      assert BookContained(symbol);
    }

    /** The order becomes one of the engine's objects. */
    method Adopt(order: LiveOrder)
      requires Contained()
      modifies this`Repr
      ensures Contained() && Repr == old(Repr) + {order}
    {
      Repr := Repr + {order};
      BooksKept({});
    }

    method MatchBook(symbol: string, book: OrderBook, order: LiveOrder) returns (notified: seq<Trade>)
      requires Indexed(book.orders, book.buyOrders, book.sellOrders) && book.symbol == symbol
      requires forall o :: o in book.buyOrders ==> o in Repr && o.symbol == symbol
      requires forall o :: o in book.sellOrders ==> o in Repr && o.symbol == symbol
      requires order in Repr && order.symbol == symbol
      requires SideOk(Opposite(order.side), symbol, Exchange.Facing(book.View(), order.side))
      requires order.id !in book.orders
      modifies book, book.buyOrders, book.sellOrders, order
      ensures Indexed(book.orders, book.buyOrders, book.sellOrders)
      ensures forall o :: o in book.buyOrders ==> o in Repr && o.symbol == symbol
      ensures forall o :: o in book.sellOrders ==> o in Repr && o.symbol == symbol
      ensures forall o: LiveOrder :: o in Repr && o.symbol != symbol ==> unchanged(o)
      ensures book.View() == Exchange.MatchOrder(old(book.View()), old(order.View()))
      ensures notified == Match(symbol, old(order.View()), Exchange.Facing(old(book.View()), order.side)).trades
    {
      notified := book.MatchOrder(order);
    }

    /** `matchOrder` on the book of the order's symbol leaves the other books alone. */
    method MatchIn(symbol: string, order: LiveOrder) returns (notified: seq<Trade>)
      requires Contained() && symbol in orderBooks
      requires SideOk(Opposite(order.side), symbol, Exchange.Facing(books[symbol], order.side))
      requires order.symbol == symbol && order in Repr
      requires order.id !in orderBooks[symbol].orders
      modifies Repr
      ensures Contained() && Repr == old(Repr)
      ensures books == old(books)[symbol := Exchange.MatchOrder(old(books)[symbol], old(order.View()))]
      ensures notified == Match(symbol, old(order.View()), Exchange.Facing(old(books)[symbol], order.side)).trades
      ensures nextOrderId == old(nextOrderId) && trades == old(trades)
    {
      hide SideOk, Match, Exchange.MatchOrder, Indexed, Views;
      ghost var after := Exchange.MatchOrder(books[symbol], order.View());
      assert BookContained(symbol);
      notified := MatchBook(symbol, orderBooks[symbol], order);
      BooksKept({symbol});
      Record(symbol, after);
    }

    /** Brings the record of one symbol's book up to date. */
    ghost method Record(symbol: string, after: Exchange.Book)
      requires this in Repr && (forall s :: s in orderBooks <==> s in books) && symbol in orderBooks
      requires forall s :: s in orderBooks && s != symbol ==> orderBooks[s] in Repr && BookContained(s)
      requires var b := orderBooks[symbol];
               && b in Repr && b.symbol == symbol
               && Indexed(b.orders, b.buyOrders, b.sellOrders)
               && (forall o :: o in b.buyOrders ==> o in Repr && o.symbol == symbol)
               && (forall o :: o in b.sellOrders ==> o in Repr && o.symbol == symbol)
               && b.View() == after
      modifies this`books
      ensures Contained() && books == old(books)[symbol := after]
    {
      books := books[symbol := after];
      forall s | s in orderBooks
        ensures orderBooks[s] in Repr && BookContained(s)
      {
        BookUnchanged(orderBooks[s]);
      }
    }

    /** The order number is used up, and the notifier hears of the trades. */
    method Report(notified: seq<Trade>)
      requires Contained()
      modifies this`nextOrderId, this`trades
      ensures Contained()
      ensures nextOrderId == old(nextOrderId) + 1 && trades == old(trades) + notified
    {
      nextOrderId := nextOrderId + 1;
      trades := trades + notified;
      BooksKept({});
    }

    /** `placeOrder`. */
    method PlaceOrder(symbol: string, price: real, size: int, isBuy: bool) returns (orderId: string)
      requires Valid()
      modifies Repr
      ensures Contained() && fresh(Repr - old(Repr))
      ensures Valid() <==> size >= 0 || Exchange.FindsOne(old(View()), symbol, price, size, if isBuy then Buy else Sell)
      ensures orderId == OrderId(old(nextOrderId))
      ensures View() == Exchange.PlaceOrder(old(View()), symbol, price, size, if isBuy then Buy else Sell)
    {
      ghost var side := if isBuy then Buy else Sell;
      ghost var after := Exchange.PlaceOrder(View(), symbol, price, size, side);
      ReadyToPlace(View(), symbol, price, size, side);
      orderId := PlaceNew(symbol, price, size, isBuy);
      assert View() == after;
    }

    /** Placing an order, given a sorted facing side and an id that is nowhere in the book. */
    method PlaceNew(symbol: string, price: real, size: int, isBuy: bool) returns (orderId: string)
      requires Contained()
      requires var b := Exchange.BookOf(View(), symbol);
               var side := if isBuy then Buy else Sell;
               && b.symbol == symbol
               && SideOk(Opposite(side), symbol, Exchange.Facing(b, side))
               && Absent(OrderId(nextOrderId), b.bids) && Absent(OrderId(nextOrderId), b.asks)
      modifies Repr
      ensures Contained() && fresh(Repr - old(Repr))
      ensures orderId == OrderId(old(nextOrderId))
      ensures View() == Exchange.PlaceOrder(old(View()), symbol, price, size, if isBuy then Buy else Sell)
    {
      hide SideOk, Absent, Match, Exchange.MatchOrder, Indexed, Views;
      ghost var o := Exchange.NewOrder(View(), symbol, price, size, if isBuy then Buy else Sell);
      orderId := OrderId(nextOrderId);
      var order := new LiveOrder(orderId, symbol, price, size, if isBuy then Buy else Sell);
      var notified := MatchNew(symbol, order, o);
      Report(notified);
    }

    /** Opens the book of the order's symbol and matches the order there. */
    method MatchNew(symbol: string, order: LiveOrder, ghost o: Order) returns (notified: seq<Trade>)
      requires Contained() && order !in Repr && order.View() == o && o.symbol == symbol
      requires var b := Exchange.BookOf(View(), symbol);
               && b.symbol == symbol
               && SideOk(Opposite(o.side), symbol, Exchange.Facing(b, o.side))
               && Absent(o.id, b.bids) && Absent(o.id, b.asks)
      modifies Repr, order
      ensures Contained() && fresh(Repr - old(Repr) - {order})
      ensures books == old(books)[symbol := Exchange.MatchOrder(Exchange.BookOf(old(View()), symbol), o)]
      ensures notified == Match(symbol, o, Exchange.Facing(Exchange.BookOf(old(View()), symbol), o.side)).trades
      ensures nextOrderId == old(nextOrderId) && trades == old(trades)
    {
      ghost var b := Exchange.BookOf(View(), symbol);
      ReplaceOpened(books, symbol, Exchange.MatchOrder(b, o));
      OpenBook(symbol, order);
      assert books[symbol] == b;
      notified := MatchIn(symbol, order);
    }

    /** The book is there, and the order now belongs to the engine. */
    method OpenBook(symbol: string, order: LiveOrder)
      requires Contained() && order !in Repr
      requires var b := Exchange.BookOf(View(), symbol); Absent(order.id, b.bids) && Absent(order.id, b.asks)
      modifies this
      ensures Contained() && fresh(Repr - old(Repr) - {order}) && old(Repr) <= Repr && order in Repr
      ensures symbol in orderBooks && order.id !in orderBooks[symbol].orders
      ensures books == Opened(old(books), symbol)
      ensures nextOrderId == old(nextOrderId) && trades == old(trades)
    {
      var book := GetOrderBook(symbol);
      Adopt(order);
      NotYetIndexed(symbol, order.id);
    }

    lemma NotYetIndexed(symbol: string, id: string)
      requires Contained() && symbol in orderBooks
      requires Absent(id, books[symbol].bids) && Absent(id, books[symbol].asks)
      ensures id !in orderBooks[symbol].orders
    {
      assert BookContained(symbol);
      orderBooks[symbol].AbsentNotIndexed(id);
    }

    /** `removeOrder` on the book of one symbol. */
    method RemoveFrom(symbol: string, orderId: string) returns (removed: bool)
      requires Contained() && symbol in orderBooks && Exchange.BookOk(books[symbol])
      modifies Repr
      ensures Contained() && Repr == old(Repr) && orderBooks == old(orderBooks)
      ensures removed == Exchange.Rests(old(books)[symbol], orderId)
      ensures books == old(books)[symbol := Exchange.RemoveOrder(old(books)[symbol], orderId)]
      ensures nextOrderId == old(nextOrderId) && trades == old(trades)
    {
      hide Exchange.BookOk, Exchange.RemoveOrder, Exchange.Rests, Indexed, Views;
      ghost var after := Exchange.RemoveOrder(books[symbol], orderId);
      assert BookContained(symbol);
      removed := RemoveInBook(symbol, orderBooks[symbol], orderId);
      BooksKept({symbol});
      Record(symbol, after);
    }

    method RemoveInBook(symbol: string, book: OrderBook, orderId: string) returns (removed: bool)
      requires Indexed(book.orders, book.buyOrders, book.sellOrders) && Exchange.BookOk(book.View())
      requires forall o :: o in book.buyOrders ==> o in Repr && o.symbol == symbol
      requires forall o :: o in book.sellOrders ==> o in Repr && o.symbol == symbol
      modifies book
      ensures Indexed(book.orders, book.buyOrders, book.sellOrders)
      ensures forall o :: o in book.buyOrders ==> o in Repr && o.symbol == symbol
      ensures forall o :: o in book.sellOrders ==> o in Repr && o.symbol == symbol
      ensures book.View() == Exchange.RemoveOrder(old(book.View()), orderId)
      ensures removed == Exchange.Rests(old(book.View()), orderId)
    {
      hide Exchange.BookOk, Exchange.RemoveOrder, Exchange.Rests, Indexed, Views;
      removed := book.RemoveOrder(orderId);
    }

    /** `cancelOrder`. */
    method CancelOrder(orderId: string) returns (ok: bool)
      requires Valid()
      modifies Repr
      ensures Valid() && Repr == old(Repr)
      ensures ok <==> exists s :: Exchange.Holds(old(View()), s, orderId)
      ensures View() == Exchange.CancelOrder(old(View()), orderId)
    {
      hide Exchange.BookOk, Exchange.IdsIssued, Exchange.IdsDisjoint;
      hide Exchange.RemoveOrder, Exchange.Rests, Exchange.Holds;
      ghost var e := View();
      ghost var symbol;
      ok, symbol := AskBooks(orderId);
      if ok {
        CancelInOneBook(e, symbol, orderId);
      } else {
        CancelInNoBook(e, orderId);
      }
      assert View() == Exchange.CancelOrder(e, orderId);
    }

    /** Asks the books one after another, in no particular order, to remove an order. */
    method AskBooks(orderId: string) returns (ok: bool, ghost found: string)
      requires Contained() && Exchange.BooksOk(View())
      modifies Repr
      ensures Contained() && Repr == old(Repr)
      ensures nextOrderId == old(nextOrderId) && trades == old(trades)
      ensures ok ==>
                && found in old(books) && Exchange.Rests(old(books)[found], orderId)
                && books == old(books)[found := Exchange.RemoveOrder(old(books)[found], orderId)]
      ensures !ok ==> books == old(books) && forall s :: s in books ==> !Exchange.Rests(books[s], orderId)
    {
      hide Exchange.BookOk, Exchange.RemoveOrder, Exchange.Rests;
      found := "";
      var todo := orderBooks.Keys;
      while todo != {}
        invariant Contained() && Repr == old(Repr) && orderBooks == old(orderBooks) && todo <= orderBooks.Keys
        invariant books == old(books) && nextOrderId == old(nextOrderId) && trades == old(trades)
        invariant forall s :: s in books && s !in todo ==> !Exchange.Rests(books[s], orderId)
      {
        var symbol :| symbol in todo;
        NothingToRemoveUnless(books, symbol, orderId);
        ok := RemoveFrom(symbol, orderId);
        if ok {
          return true, symbol;
        }
        todo := todo - {symbol};
      }
      return false, found;
    }
  }

  lemma NothingToRemoveUnless(books: map<string, Exchange.Book>, symbol: string, id: string)
    requires symbol in books
    ensures Exchange.Rests(books[symbol], id) || books[symbol := Exchange.RemoveOrder(books[symbol], id)] == books
  {
    if !Exchange.Rests(books[symbol], id) {
      NothingToRemove(books[symbol], id);
    }
  }

  /** Any sequence of client calls on a fresh engine that keeps its books sound leaves exactly what
      the value-level run says, with every book indexed and apart from the others. */
  method Execute(ops: seq<Audit.Op>) returns (engine: MatchingEngine)
    requires Audit.Orderly(ops)
    ensures engine.Valid() && engine.View() == Audit.Run(ops).engine
  {
    engine := new MatchingEngine();
    assert ops[..0] == [];
    for i := 0 to |ops|
      invariant engine.Valid() && fresh(engine.Repr)
      invariant engine.View() == Audit.Run(ops[..i]).engine
    {
      assert ops[..i + 1][..i] == ops[..i];
      assert Audit.Acceptable(ops, i);
      Perform(engine, ops[i]);
    }
    assert ops[..|ops|] == ops;
  }

  method Perform(engine: MatchingEngine, op: Audit.Op)
    requires engine.Valid()
    requires op.Place? ==> op.size >= 0 || Exchange.FindsOne(engine.View(), op.symbol, op.price, op.size, op.side)
    modifies engine.Repr
    ensures engine.Valid() && fresh(engine.Repr - old(engine.Repr))
    ensures forall ledger :: engine.View() == Audit.Step(Audit.History(old(engine.View()), ledger), op).engine
  {
    match op
    case Place(symbol, price, size, side) =>
      var id := engine.PlaceOrder(symbol, price, size, side == Buy);
    case Cancel(id) =>
      var ok := engine.CancelOrder(id);
  }
}
