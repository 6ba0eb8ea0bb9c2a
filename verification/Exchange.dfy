/** Whole runs of the matching engine of `order-matching-engine.cpp`, on values: the books of
    all symbols, and a ledger of every order ever placed against which the trades are audited. */
module Exchange {
  import opened Bits
  import opened OrderIds
  import opened Matching

  datatype Book = Book(symbol: string, bids: seq<Order>, asks: seq<Order>)

  datatype Engine = Engine(books: map<string, Book>, nextId: nat, trades: seq<Trade>)

  function Start(): Engine {
    Engine(map[], 1, [])
  }

  /** The side an incoming order trades against. */
  function Facing(b: Book, side: Side): seq<Order> {
    if side.Buy? then b.asks else b.bids
  }

  function OnSide(b: Book, side: Side): seq<Order> {
    if side.Buy? then b.bids else b.asks
  }

  /** `matchOrder`: trade with the facing side, then rest what is not filled. */
  function MatchOrder(b: Book, o: Order): Book {
    var out := Match(b.symbol, o, Facing(b, o.side));
    var own := if out.remaining == 0 then OnSide(b, o.side)
               else Insert(o.side, OnSide(b, o.side), o.(remaining := out.remaining));
    if o.side.Buy? then b.(bids := own, asks := out.resting) else b.(bids := out.resting, asks := own)
  }

  function BookOf(e: Engine, symbol: string): Book {
    if symbol in e.books then e.books[symbol] else Book(symbol, [], [])
  }

  function NewOrder(e: Engine, symbol: string, price: real, size: int, side: Side): Order {
    Order(OrderId(e.nextId), symbol, price, size, side)
  }

  function PlaceOrder(e: Engine, symbol: string, price: real, size: int, side: Side): Engine {
    var o := NewOrder(e, symbol, price, size, side);
    var b := BookOf(e, symbol);
    Engine(e.books[symbol := MatchOrder(b, o)], e.nextId + 1,
           e.trades + Match(b.symbol, o, Facing(b, side)).trades)
  }

  function Without(s: seq<Order>, id: string): seq<Order> {
    if s == [] then [] else (if s[0].id == id then [] else [s[0]]) + Without(s[1..], id)
  }

  function RemoveOrder(b: Book, id: string): Book {
    b.(bids := Without(b.bids, id), asks := Without(b.asks, id))
  }

  predicate Rests(b: Book, id: string) {
    (exists x :: x in b.bids && x.id == id) || (exists x :: x in b.asks && x.id == id)
  }

  function CancelOrder(e: Engine, id: string): Engine {
    e.(books := map symbol | symbol in e.books :: RemoveOrder(e.books[symbol], id))
  }

  // -- Invariant of the books ---------------------------------------------------------

  ghost predicate Uncrossed(b: Book) {
    forall x, y :: x in b.bids && y in b.asks ==> x.price < y.price
  }

  /** No id names two orders. */
  ghost predicate UniqueIds(b: Book) {
    && (forall x, y :: x in b.bids && y in b.bids && x.id == y.id ==> x == y)
    && (forall x, y :: x in b.asks && y in b.asks && x.id == y.id ==> x == y)
    && (forall x, y :: x in b.bids && y in b.asks ==> x.id != y.id)
  }

  ghost predicate BookOk(b: Book) {
    && SideOk(Buy, b.symbol, b.bids)
    && SideOk(Sell, b.symbol, b.asks)
    && Uncrossed(b)
    && UniqueIds(b)
  }

  /** The number of an order whose id was issued before `next`. */
  ghost predicate Issued(id: string, next: nat) {
    exists k: nat :: 1 <= k < next && id == OrderId(k)
  }

  ghost predicate InBook(b: Book, x: Order) {
    x in b.bids || x in b.asks
  }

  ghost predicate BooksOk(e: Engine) {
    forall symbol :: symbol in e.books ==> e.books[symbol].symbol == symbol && BookOk(e.books[symbol])
  }

  /** Some order of this symbol rests under this id. */
  ghost predicate Holds(e: Engine, symbol: string, id: string) {
    symbol in e.books && exists x :: InBook(e.books[symbol], x) && x.id == id
  }

  ghost predicate IdsIssued(e: Engine) {
    forall symbol, id :: Holds(e, symbol, id) ==> Issued(id, e.nextId)
  }

  /** No id lives in two books. */
  ghost predicate IdsDisjoint(e: Engine) {
    forall s, t, id :: Holds(e, s, id) && Holds(e, t, id) ==> s == t
  }

  ghost predicate EngineOk(e: Engine) {
    e.nextId >= 1 && BooksOk(e) && IdsIssued(e) && IdsDisjoint(e)
  }

  lemma {:induction false} InsertMembers(side: Side, s: seq<Order>, o: Order)
    requires Absent(o.id, s)
    ensures forall x :: x in Insert(side, s, o) <==> x in s || x == o
    decreases |s|
  {
    if s != [] {
      BeforeTotal(side, o, s[0]);
      assert s == [s[0]] + s[1..];
      InsertMembers(side, s[1..], o);
    }
  }

  /** Everything left after a match was resting before, perhaps with another size. */
  lemma {:induction false} MatchMembers(symbol: string, o: Order, resting: seq<Order>, x: Order) returns (y: Order)
    requires x in Match(symbol, o, resting).resting
    ensures y in resting && x == y.(remaining := x.remaining)
    decreases |resting|
  {
    y := x;
    if x !in resting {
      var size := Min(o.remaining, resting[0].remaining);
      if size < resting[0].remaining {
        y := resting[0];
      } else {
        y := MatchMembers(symbol, o.(remaining := o.remaining - size), resting[1..], x);
      }
    }
  }

  lemma SortedUnique(side: Side, s: seq<Order>, x: Order, y: Order)
    requires Sorted(side, s) && x in s && y in s && x.id == y.id && x.price == y.price
    ensures x == y
  {
    var i :| 0 <= i < |s| && s[i] == x;
    var j :| 0 <= j < |s| && s[j] == y;
    assert i < j ==> Before(side, s[i], s[j]);
    assert j < i ==> Before(side, s[j], s[i]);
    StringLessIrreflexive(x.id);
  }

  /** An order nobody knows may enter a good book. */
  ghost predicate Newcomer(b: Book, o: Order) {
    && Incoming(o, b.symbol)
    && Absent(o.id, b.bids) && Absent(o.id, b.asks)
  }

  lemma MatchOrderSides(b: Book, o: Order)
    requires BookOk(b) && Newcomer(b, o)
    ensures SideOk(Buy, b.symbol, MatchOrder(b, o).bids) && SideOk(Sell, b.symbol, MatchOrder(b, o).asks)
  {
    MatchKeepsSide(b.symbol, o, Facing(b, o.side));
    var out := Match(b.symbol, o, Facing(b, o.side));
    MatchShape(b.symbol, o, Facing(b, o.side));
    if out.remaining > 0 {
      InsertKeepsSide(o.side, b.symbol, OnSide(b, o.side), o.(remaining := out.remaining));
    }
  }

  lemma InsertKeepsSide(side: Side, symbol: string, s: seq<Order>, o: Order)
    requires SideOk(side, symbol, s) && Absent(o.id, s)
    requires o.remaining > 0 && o.side == side && o.symbol == symbol
    ensures SideOk(side, symbol, Insert(side, s, o))
  {
    InsertKeepsSorted(side, s, o);
    InsertMembers(side, s, o);
    var t := Insert(side, s, o);
    forall i | 0 <= i < |t|
      ensures t[i].remaining > 0 && t[i].side == side && t[i].symbol == symbol
    {
      assert t[i] in t;
    }
  }

  /** Members of the two sides after a match. */
  lemma MatchOrderMembers(b: Book, o: Order)
    requires Absent(o.id, OnSide(b, o.side))
    ensures var left := o.(remaining := Match(b.symbol, o, Facing(b, o.side)).remaining);
            && (forall x :: x in OnSide(MatchOrder(b, o), o.side) ==>
                  x in OnSide(b, o.side) || (x == left && left.remaining != 0))
            && (forall x :: x in Facing(MatchOrder(b, o), o.side) ==>
                  exists y :: y in Facing(b, o.side) && x == y.(remaining := x.remaining))
  {
    var resting := Facing(b, o.side);
    var out := Match(b.symbol, o, resting);
    if out.remaining != 0 {
      InsertMembers(o.side, OnSide(b, o.side), o.(remaining := out.remaining));
    }
    forall x | x in out.resting
      ensures exists y :: y in resting && x == y.(remaining := x.remaining)
    {
      var y := MatchMembers(b.symbol, o, resting, x);
    }
  }

  /** The order, resting or incoming, that a member of the book was before a match. */
  lemma OriginOf(b: Book, o: Order, x: Order) returns (y: Order)
    requires Absent(o.id, OnSide(b, o.side)) && InBook(MatchOrder(b, o), x)
    ensures x == y.(remaining := x.remaining) && (y == o || InBook(b, y))
  {
    MatchOrderMembers(b, o);
    var b' := MatchOrder(b, o);
    if x in OnSide(b', o.side) {
      y := if x in OnSide(b, o.side) then x else o;
    } else {
      y :| y in Facing(b, o.side) && x == y.(remaining := x.remaining);
    }
  }

  /** What remains of an incoming order does not cross the best order left facing it, hence none. */
  lemma LeftoverCrossesNothing(b: Book, o: Order, y: Order)
    requires BookOk(b) && Newcomer(b, o)
    requires Match(b.symbol, o, Facing(b, o.side)).remaining != 0
    requires y in Match(b.symbol, o, Facing(b, o.side)).resting
    ensures !Crosses(o, y)
  {
    var resting := Facing(b, o.side);
    var out := Match(b.symbol, o, resting);
    MatchShape(b.symbol, o, resting);
    MatchKeepsSide(b.symbol, o, resting);
    var i :| 0 <= i < |out.resting| && out.resting[i] == y;
    if i > 0 {
      assert Before(Opposite(o.side), out.resting[0], y);
    }
  }

  lemma MatchOrderUncrossed(b: Book, o: Order)
    requires BookOk(b) && Newcomer(b, o)
    ensures Uncrossed(MatchOrder(b, o))
  {
    var b' := MatchOrder(b, o);
    MatchOrderMembers(b, o);
    forall x, y | x in b'.bids && y in b'.asks
      ensures x.price < y.price
    {
      var mine, facing := if o.side.Buy? then x else y, if o.side.Buy? then y else x;
      assert mine in OnSide(b', o.side) && facing in Facing(b', o.side);
      if mine in OnSide(b, o.side) {
        var z :| z in Facing(b, o.side) && facing == z.(remaining := facing.remaining);
      } else {
        LeftoverCrossesNothing(b, o, facing);
      }
    }
  }

  lemma MatchOrderUnique(b: Book, o: Order)
    requires BookOk(b) && Newcomer(b, o)
    ensures UniqueIds(MatchOrder(b, o))
  {
    var b' := MatchOrder(b, o);
    MatchOrderMembers(b, o);
    MatchOrderSides(b, o);
    forall x, y | x in Facing(b', o.side) && y in Facing(b', o.side) && x.id == y.id
      ensures x == y
    {
      var x0 :| x0 in Facing(b, o.side) && x == x0.(remaining := x.remaining);
      var y0 :| y0 in Facing(b, o.side) && y == y0.(remaining := y.remaining);
      assert x0 == y0;
      SortedUnique(Opposite(o.side), Facing(b', o.side), x, y);
    }
    forall x, y | x in OnSide(b', o.side) && y in Facing(b', o.side)
      ensures x.id != y.id
    {
      var y0 :| y0 in Facing(b, o.side) && y == y0.(remaining := y.remaining);
    }
  }

  /** Matching keeps a book sorted, live, uncrossed and free of duplicate ids. */
  lemma MatchOrderKeepsBook(b: Book, o: Order)
    requires BookOk(b) && Newcomer(b, o)
    ensures BookOk(MatchOrder(b, o)) && MatchOrder(b, o).symbol == b.symbol
  {
    MatchOrderSides(b, o);
    MatchOrderUncrossed(b, o);
    MatchOrderUnique(b, o);
  }

  lemma {:induction false} WithoutMembers(s: seq<Order>, id: string)
    ensures forall x :: x in Without(s, id) <==> x in s && x.id != id
    decreases |s|
  {
    if s != [] {
      assert s == [s[0]] + s[1..];
      WithoutMembers(s[1..], id);
    }
  }

  lemma {:induction false} WithoutKeepsSorted(side: Side, s: seq<Order>, id: string)
    requires Sorted(side, s)
    ensures Sorted(side, Without(s, id))
    decreases |s|
  {
    if s != [] {
      WithoutKeepsSorted(side, s[1..], id);
      WithoutMembers(s[1..], id);
      var rest := Without(s[1..], id);
      forall j | 0 <= j < |rest|
        ensures Before(side, s[0], rest[j])
      {
        assert rest[j] in s[1..];
      }
    }
  }

  lemma RemoveKeepsBook(b: Book, id: string)
    requires BookOk(b)
    ensures BookOk(RemoveOrder(b, id)) && !Rests(RemoveOrder(b, id), id)
    ensures forall x :: InBook(RemoveOrder(b, id), x) <==> InBook(b, x) && x.id != id
  {
    WithoutMembers(b.bids, id);
    WithoutMembers(b.asks, id);
    WithoutKeepsSorted(Buy, b.bids, id);
    WithoutKeepsSorted(Sell, b.asks, id);
    WithoutKeepsLive(Buy, b.symbol, b.bids, id);
    WithoutKeepsLive(Sell, b.symbol, b.asks, id);
  }

  lemma WithoutKeepsLive(side: Side, symbol: string, s: seq<Order>, id: string)
    requires SideOk(side, symbol, s)
    ensures SideOk(side, symbol, Without(s, id))
  {
    WithoutMembers(s, id);
    WithoutKeepsSorted(side, s, id);
    var t := Without(s, id);
    forall i | 0 <= i < |t|
      ensures t[i].remaining > 0 && t[i].side == side && t[i].symbol == symbol
    {
      assert t[i] in t;
    }
  }

  // -- Invariant of the engine -----------------------------------------------------------

  lemma NextIdNotIssued(n: nat)
    ensures !Issued(OrderId(n), n)
  {
    if Issued(OrderId(n), n) {
      var k: nat :| 1 <= k < n && OrderId(n) == OrderId(k);
      OrderIdInjective(k, n);
    }
  }

  /** The next id is new to every book, so a placed order is a newcomer to its own. */
  lemma NewOrderIsNewcomer(e: Engine, symbol: string, o: Order)
    requires EngineOk(e) && o.id == OrderId(e.nextId) && o.symbol == symbol
    ensures BookOk(BookOf(e, symbol)) && BookOf(e, symbol).symbol == symbol
    ensures Absent(o.id, BookOf(e, symbol).bids) && Absent(o.id, BookOf(e, symbol).asks)
    ensures o.remaining >= 0 ==> Newcomer(BookOf(e, symbol), o)
    ensures !Holds(e, symbol, o.id)
  {
    NextIdNotIssued(e.nextId);
    if symbol in e.books {
      var b := e.books[symbol];
      forall i | 0 <= i < |b.bids|
        ensures b.bids[i].id != o.id
      {
        assert InBook(b, b.bids[i]);
      }
      forall i | 0 <= i < |b.asks|
        ensures b.asks[i].id != o.id
      {
        assert InBook(b, b.asks[i]);
      }
    }
  }

  lemma IssuedLater(id: string, m: nat, n: nat)
    requires Issued(id, m) && m <= n
    ensures Issued(id, n)
  {
    var k: nat :| 1 <= k < m && id == OrderId(k);
    assert 1 <= k < n;
  }

  /** Only the new id, and only in its own book, is held that was not held before. */
  lemma NewHolding(e: Engine, e': Engine, symbol: string, b: Book, s: string, id: string)
    requires e'.books == e.books[symbol := b]
    requires forall x :: Holds(e', symbol, x) ==> x == OrderId(e.nextId) || Holds(e, symbol, x)
    requires Holds(e', s, id)
    ensures (id == OrderId(e.nextId) && s == symbol) || Holds(e, s, id)
  {
    if s != symbol {
      assert e'.books[s] == e.books[s];
    }
  }

  /** Replacing one book by a good one that holds no ids but its old ones and the new one. */
  lemma ReplaceBook(e: Engine, e': Engine, symbol: string, b: Book)
    requires EngineOk(e) && e'.books == e.books[symbol := b] && e'.nextId == e.nextId + 1
    requires b.symbol == symbol && BookOk(b)
    requires forall id :: Holds(e', symbol, id) ==> id == OrderId(e.nextId) || Holds(e, symbol, id)
    ensures EngineOk(e')
  {
    hide BookOk, Holds, OrderId, Issued;
    NextIdNotIssued(e.nextId);
    forall s, id | Holds(e', s, id)
      ensures (id == OrderId(e.nextId) && s == symbol) || Holds(e, s, id)
      ensures Issued(id, e'.nextId)
    {
      NewHolding(e, e', symbol, b, s, id);
      if Holds(e, s, id) {
        IssuedLater(id, e.nextId, e'.nextId);
      } else {
        NextIdIssued(e.nextId);
      }
    }
  }

  lemma NextIdIssued(nextId: nat)
    requires nextId >= 1
    ensures Issued(OrderId(nextId), nextId + 1)
  {
  }

  lemma PlaceKeepsEngine(e: Engine, symbol: string, price: real, size: int, side: Side)
    requires EngineOk(e) && size >= 0
    ensures EngineOk(PlaceOrder(e, symbol, price, size, side))
  {
    var o := NewOrder(e, symbol, price, size, side);
    var b, e' := BookOf(e, symbol), PlaceOrder(e, symbol, price, size, side);
    NewOrderIsNewcomer(e, symbol, o);
    MatchOrderKeepsBook(b, o);
    forall id | Holds(e', symbol, id)
      ensures id == o.id || Holds(e, symbol, id)
    {
      var x :| InBook(e'.books[symbol], x) && x.id == id;
      var y := OriginOf(b, o, x);
    }
    ReplaceBook(e, e', symbol, e'.books[symbol]);
  }

  /** From book b to book b' by order o: it fills what it can of what rests within its limit, each
      trade with the next best order at that order's price, and rests what is left on its own side. */
  ghost predicate Trades(b: Book, o: Order, trades: seq<Trade>, b': Book) {
    var left := o.remaining - Min(o.remaining, Available(o, Facing(b, o.side)));
    && TradesInOrder(b.symbol, o, Facing(b, o.side), trades)
    && LeavesRest(Facing(b, o.side), Outcome(trades, left, Facing(b', o.side)))
    && (left == 0 ==> OnSide(b', o.side) == OnSide(b, o.side))
    && (left != 0 ==> Sorted(o.side, OnSide(b', o.side)) && multiset(OnSide(b', o.side)) ==
                      multiset(OnSide(b, o.side)) + multiset{o.(remaining := left)})
  }

  lemma MatchOrderTrades(b: Book, o: Order)
    requires BookOk(b) && Newcomer(b, o)
    ensures Trades(b, o, Match(b.symbol, o, Facing(b, o.side)).trades, MatchOrder(b, o))
  {
    var out := Match(b.symbol, o, Facing(b, o.side));
    MatchedInTurn(b, o);
    LeftoverRests(b, o);
    FacingAfter(b, o);
    hide *;
    TradesFrom(b, o, out, MatchOrder(b, o));
  }

  lemma TradesFrom(b: Book, o: Order, out: Outcome, b': Book)
    requires TradesInOrder(b.symbol, o, Facing(b, o.side), out.trades) && LeavesRest(Facing(b, o.side), out)
    requires out.remaining == o.remaining - Min(o.remaining, Available(o, Facing(b, o.side)))
    requires Facing(b', o.side) == out.resting
    requires out.remaining == 0 ==> OnSide(b', o.side) == OnSide(b, o.side)
    requires out.remaining != 0 ==>
               && Sorted(o.side, OnSide(b', o.side))
               && multiset(OnSide(b', o.side)) == multiset(OnSide(b, o.side)) + multiset{o.(remaining := out.remaining)}
    ensures Trades(b, o, out.trades, b')
  {
    hide TradesInOrder, LeavesRest, Available, Min, Sorted, Facing, OnSide;
    assert out == Outcome(out.trades, out.remaining, out.resting);
  }

  lemma FacingAfter(b: Book, o: Order)
    ensures Facing(MatchOrder(b, o), o.side) == Match(b.symbol, o, Facing(b, o.side)).resting
  {
    hide Match;
  }

  lemma MatchedInTurn(b: Book, o: Order)
    requires BookOk(b) && Newcomer(b, o)
    ensures var out := Match(b.symbol, o, Facing(b, o.side));
            && TradesInOrder(b.symbol, o, Facing(b, o.side), out.trades)
            && LeavesRest(Facing(b, o.side), out)
            && out.remaining == o.remaining - Min(o.remaining, Available(o, Facing(b, o.side)))
  {
    hide Match, TradesInOrder, LeavesRest, Available, Min;
    MatchShape(b.symbol, o, Facing(b, o.side));
    MatchedQuantity(b.symbol, o, Facing(b, o.side));
  }

  lemma LeftoverRests(b: Book, o: Order)
    requires BookOk(b) && Newcomer(b, o)
    ensures var left, b' := Match(b.symbol, o, Facing(b, o.side)).remaining, MatchOrder(b, o);
            && (left == 0 ==> OnSide(b', o.side) == OnSide(b, o.side))
            && (left != 0 ==> Sorted(o.side, OnSide(b', o.side)) && multiset(OnSide(b', o.side)) ==
                              multiset(OnSide(b, o.side)) + multiset{o.(remaining := left)})
  {
    var left := Match(b.symbol, o, Facing(b, o.side)).remaining;
    hide Match, Insert;
    if left != 0 {
      InsertKeepsSorted(o.side, OnSide(b, o.side), o.(remaining := left));
    }
    hide Sorted;
  }

  /** What a placement does: it trades in the book of its symbol, reports the trades in the order in
      which they were made, and leaves the books of all other symbols alone. */
  lemma PlaceDoes(e: Engine, symbol: string, price: real, size: int, side: Side)
    requires EngineOk(e) && size >= 0
    ensures var o, e' := NewOrder(e, symbol, price, size, side), PlaceOrder(e, symbol, price, size, side);
            && e'.nextId == e.nextId + 1
            && (forall s :: s != symbol ==> BookOf(e', s) == BookOf(e, s))
            && e.trades <= e'.trades
            && Trades(BookOf(e, symbol), o, e'.trades[|e.trades|..], BookOf(e', symbol))
  {
    var o, e' := NewOrder(e, symbol, price, size, side), PlaceOrder(e, symbol, price, size, side);
    var b := BookOf(e, symbol);
    NewOrderIsNewcomer(e, symbol, o);
    MatchOrderTrades(b, o);
    hide Trades, Match, MatchOrder, EngineOk, BookOk;
    assert e'.trades[|e.trades|..] == Match(b.symbol, o, Facing(b, side)).trades;
  }

  function HeadResized(s: seq<Order>, r: int): seq<Order>
    requires s != []
  {
    [s[0].(remaining := r)] + s[1..]
  }

  lemma HeadResizedMembers(s: seq<Order>, r: int, x: Order) returns (y: Order)
    requires s != [] && x in HeadResized(s, r)
    ensures y in s && x == y.(remaining := x.remaining)
  {
    var i :| 0 <= i < |s| && HeadResized(s, r)[i] == x;
    y := s[i];
  }

  /** A book whose best order on one side has another size. */
  function Resized(b: Book, side: Side, r: int): Book
    requires Facing(b, side) != []
  {
    var t := HeadResized(Facing(b, side), r);
    if side.Buy? then b.(asks := t) else b.(bids := t)
  }

  lemma ResizedKeepsBook(b: Book, side: Side, r: int)
    requires BookOk(b) && Facing(b, side) != [] && r > 0
    ensures BookOk(Resized(b, side, r))
  {
    var s, b' := Facing(b, side), Resized(b, side, r);
    var t := Facing(b', side);
    NewHeadKeepsSide(Opposite(side), b.symbol, s, r);
    hide Before, HeadResized;
    forall x, y | x in t && y in OnSide(b', side)
      ensures x.id != y.id && if side.Buy? then y.price < x.price else x.price < y.price
    {
      var z := HeadResizedMembers(s, r, x);
      assert z in Facing(b, side) && y in OnSide(b, side);
    }
    forall x, y | x in t && y in t && x.id == y.id
      ensures x == y
    {
      var x0 := HeadResizedMembers(s, r, x);
      var y0 := HeadResizedMembers(s, r, y);
      assert x0 in Facing(b, side) && y0 in Facing(b, side) && x0 == y0;
      SortedUnique(Opposite(side), t, x, y);
    }
  }

  /** A match of an order of negative size, which the source does not refuse, ends at once: with a
      trade of that size, which enlarges the best order it crosses, or with nothing. */
  lemma NegativeMatch(symbol: string, o: Order, resting: seq<Order>)
    requires o.remaining < 0 && (resting != [] ==> resting[0].remaining > 0)
    ensures Match(symbol, o, resting) ==
            if resting == [] || !Crosses(o, resting[0]) then Outcome([], o.remaining, resting)
            else Outcome([TradeOf(symbol, o, resting[0], o.remaining)], 0,
                         HeadResized(resting, resting[0].remaining - o.remaining))
  {
  }

  lemma NegativeRests(b: Book, o: Order)
    requires o.remaining < 0 && Absent(o.id, OnSide(b, o.side))
    requires Match(b.symbol, o, Facing(b, o.side)).remaining == o.remaining
    ensures !BookOk(MatchOrder(b, o))
  {
    InsertMembers(o.side, OnSide(b, o.side), o);
    assert o in OnSide(MatchOrder(b, o), o.side);
  }

  /** A book after an order of negative size. */
  lemma NegativeOutcome(b: Book, o: Order)
    requires BookOk(b) && o.remaining < 0 && Absent(o.id, OnSide(b, o.side))
    ensures var s := Facing(b, o.side);
            if s != [] && Crosses(o, s[0]) then
              s[0].remaining > 0 && MatchOrder(b, o) == Resized(b, o.side, s[0].remaining - o.remaining)
            else !BookOk(MatchOrder(b, o))
  {
    var s := Facing(b, o.side);
    assert s != [] ==> s[0].remaining > 0;
    NegativeMatch(b.symbol, o, s);
    hide BookOk, Match, Crosses;
    if s != [] && Crosses(o, s[0]) {
      NegativeResizes(b, o);
    } else {
      NegativeRests(b, o);
    }
  }

  /** Whether the order finds one to trade with. */
  predicate FindsOne(e: Engine, symbol: string, price: real, size: int, side: Side) {
    var resting := Facing(BookOf(e, symbol), side);
    resting != [] && Crosses(NewOrder(e, symbol, price, size, side), resting[0])
  }

  /** A placement keeps every book sound exactly if its size is not negative, or it trades. */
  lemma PlaceKeepsEngineExactly(e: Engine, symbol: string, price: real, size: int, side: Side)
    requires EngineOk(e)
    ensures EngineOk(PlaceOrder(e, symbol, price, size, side)) <==>
            size >= 0 || FindsOne(e, symbol, price, size, side)
  {
    hide Match, MatchOrder, Crosses, BookOk, Resized, OrderId;
    if size >= 0 {
      PlaceKeepsEngine(e, symbol, price, size, side);
    } else {
      var o := NewOrder(e, symbol, price, size, side);
      var b, e' := BookOf(e, symbol), PlaceOrder(e, symbol, price, size, side);
      NewOrderIsNewcomer(e, symbol, o);
      NegativeOutcome(b, o);
      if FindsOne(e, symbol, price, size, side) {
        HeadReplaced(e, e', symbol, side, Facing(b, side)[0].remaining - size);
      } else {
        assert e'.books[symbol] == MatchOrder(b, o);
      }
    }
  }

  lemma HeadReplaced(e: Engine, e': Engine, symbol: string, side: Side, r: int)
    requires EngineOk(e) && BookOk(BookOf(e, symbol)) && BookOf(e, symbol).symbol == symbol
    requires Facing(BookOf(e, symbol), side) != [] && r > 0
    requires e'.books == e.books[symbol := Resized(BookOf(e, symbol), side, r)] && e'.nextId == e.nextId + 1
    ensures EngineOk(e')
  {
    hide BookOk, EngineOk, Holds, OrderId, Resized;
    ResizedKeepsBook(BookOf(e, symbol), side, r);
    ResizedSymbol(BookOf(e, symbol), side, r);
    ResizedHoldings(e, e', symbol, side, r);
    ReplaceBook(e, e', symbol, Resized(BookOf(e, symbol), side, r));
  }

  lemma ResizedSymbol(b: Book, side: Side, r: int)
    requires Facing(b, side) != []
    ensures Resized(b, side, r).symbol == b.symbol
  {
  }

  lemma NegativeResizes(b: Book, o: Order)
    requires o.remaining < 0 && Facing(b, o.side) != [] && Crosses(o, Facing(b, o.side)[0])
    requires Facing(b, o.side)[0].remaining > 0
    ensures MatchOrder(b, o) == Resized(b, o.side, Facing(b, o.side)[0].remaining - o.remaining)
  {
    NegativeMatch(b.symbol, o, Facing(b, o.side));
    hide Match, HeadResized;
  }

  lemma ResizedHoldings(e: Engine, e': Engine, symbol: string, side: Side, r: int)
    requires Facing(BookOf(e, symbol), side) != []
    requires e'.books == e.books[symbol := Resized(BookOf(e, symbol), side, r)]
    ensures forall id :: Holds(e', symbol, id) ==> Holds(e, symbol, id)
  {
    var b := BookOf(e, symbol);
    var b' := Resized(b, side, r);
    forall id | Holds(e', symbol, id)
      ensures Holds(e, symbol, id)
    {
      var x :| InBook(b', x) && x.id == id;
      if x in Facing(b', side) {
        var y := HeadResizedMembers(Facing(b, side), r, x);
        assert InBook(b, y);
      } else {
        assert InBook(b, x);
      }
    }
  }

  lemma CancelKeepsEngine(e: Engine, id: string)
    requires EngineOk(e)
    ensures EngineOk(CancelOrder(e, id))
    ensures CancelOrder(e, id).trades == e.trades && CancelOrder(e, id).nextId == e.nextId
    ensures forall s, x :: Holds(CancelOrder(e, id), s, x) <==> Holds(e, s, x) && x != id
  {
    var e' := CancelOrder(e, id);
    forall s | s in e.books
      ensures BookOk(e'.books[s]) && e'.books[s].symbol == s
    {
      RemoveKeepsBook(e.books[s], id);
    }
    forall s, x
      ensures Holds(e', s, x) <==> Holds(e, s, x) && x != id
    {
      if s in e.books {
        RemoveKeepsBook(e.books[s], id);
        if Holds(e, s, x) && x != id {
          var y :| InBook(e.books[s], y) && y.id == x;
          assert InBook(e'.books[s], y);
        }
      }
    }
  }

  // -- Market data ---------------------------------------------------------------------------

  /** `std::numeric_limits<double>::max()`. */
  const MAX_DOUBLE: real := (Pow2(1024) - Pow2(971)) as real

  function BestBid(b: Book): real {
    if b.bids == [] then 0.0 else b.bids[0].price
  }

  function BestAsk(b: Book): real {
    if b.asks == [] then MAX_DOUBLE else b.asks[0].price
  }

  function Spread(b: Book): real {
    if b.bids == [] || b.asks == [] then MAX_DOUBLE else BestAsk(b) - BestBid(b)
  }

  lemma Pow2Less(a: nat, b: nat)
    requires a < b
    ensures Pow2(a) < Pow2(b)
  {
    Pow2Monotone(a + 1, b);
  }

  lemma MaxDoublePositive()
    ensures MAX_DOUBLE > 0.0
  {
    hide Pow2;
    Pow2Less(971, 1024);
  }

  lemma FirstIsBest(side: Side, s: seq<Order>)
    requires Sorted(side, s)
    ensures forall x :: x in s ==> if side.Buy? then x.price <= s[0].price else s[0].price <= x.price
  {
    forall i | 0 < i < |s|
      ensures Before(side, s[0], s[i])
    {
    }
  }

  /** The quotes of a sound book are prices of resting orders and bound all others, and its spread is
      the positive difference of the two; an empty side is quoted as zero or as the largest number,
      and so is the spread then. */
  lemma QuotesAreBest(b: Book)
    requires BookOk(b)
    ensures forall x :: x in b.bids ==> x.price <= BestBid(b)
    ensures forall x :: x in b.asks ==> BestAsk(b) <= x.price
    ensures if b.bids == [] then BestBid(b) == 0.0 else exists x :: x in b.bids && x.price == BestBid(b)
    ensures if b.asks == [] then BestAsk(b) == MAX_DOUBLE else exists x :: x in b.asks && x.price == BestAsk(b)
    ensures Spread(b) == if b.bids == [] || b.asks == [] then MAX_DOUBLE else BestAsk(b) - BestBid(b)
    ensures Spread(b) > 0.0
  {
    assert b.bids != [] ==> b.bids[0] in b.bids;
    assert b.asks != [] ==> b.asks[0] in b.asks;
    MaxDoublePositive();
    hide Pow2;
    FirstIsBest(Buy, b.bids);
    FirstIsBest(Sell, b.asks);
    if b.bids != [] && b.asks != [] {
      assert b.bids[0] in b.bids && b.asks[0] in b.asks;
    }
  }
}
