/** Who fills first, over whole runs of the matching engine: exactly those whom the comparators
    put first, and by age exactly as far as the id strings go by age. */
module Priority {
  import opened OrderIds
  import opened Matching
  import opened Exchange
  import opened Audit

  // -- The comparator ------------------------------------------------------------------------------

  /** Of two orders on one side at one price, the comparator puts the older first exactly when
      its number does not exceed the younger one's, cut to as many digits. */
  lemma PriorityIsAge(side: Side, x: Order, y: Order, i: nat, j: nat, d: nat)
    requires x.price == y.price && x.id == OrderId(i) && y.id == OrderId(j)
    requires i < j && |Decimal(j)| == |Decimal(i)| + d
    ensures Before(side, x, y) <==> i <= Cut(j, d)
    ensures Before(side, y, x) <==> i > Cut(j, d)
    ensures d == 0 ==> Before(side, x, y)
  {
    IdOrder(i, j, d);
    OrderIdInjective(i, j);
    BeforeTotal(side, x, y);
  }

  // -- One match -------------------------------------------------------------------------------------

  /** The trades of a placement. */
  function TradesOf(e: Engine, op: Op): seq<Trade>
    requires op.Place?
  {
    var b := BookOf(e, op.symbol);
    Match(b.symbol, NewOrder(e, op.symbol, op.price, op.size, op.side), Facing(b, op.side)).trades
  }

  /** Trade px fills x completely, and the later trade py is with y. */
  ghost predicate FilledEarlier(symbol: string, o: Order, trades: seq<Trade>, x: Order, y: Order, px: nat, py: nat) {
    && px < py < |trades|
    && trades[px] == TradeOf(symbol, o, x, x.remaining)
    && trades[py] == TradeOf(symbol, o, y, trades[py].size)
  }

  /** If an order trades, every order before it on its side has been filled by then, and leaves. */
  lemma EarlierFillsFirstInBook(b: Book, o: Order, x: Order, y: Order) returns (px: nat, py: nat)
    requires BookOk(b) && Newcomer(b, o)
    requires x in Facing(b, o.side) && y in Facing(b, o.side) && Before(Opposite(o.side), x, y)
    requires Traded(Match(b.symbol, o, Facing(b, o.side)).trades, y.id) != 0
    ensures FilledEarlier(b.symbol, o, Match(b.symbol, o, Facing(b, o.side)).trades, x, y, px, py)
    ensures forall z :: InBook(MatchOrder(b, o), z) ==> z.id != x.id
  {
    var resting := Facing(b, o.side);
    MatchShape(b.symbol, o, resting);
    hide StringLess, Before, LeavesRest, Match, MatchOrder;
    px := PositionOfOrder(resting, x);
    py := TradedPosition(b.symbol, o, resting, Match(b.symbol, o, resting).trades, y);
    EarlierPosition(Opposite(o.side), resting, px, py);
    FilledIsGone(b, o, px);
  }

  lemma PositionOfOrder(s: seq<Order>, x: Order) returns (k: nat)
    requires x in s
    ensures k < |s| && s[k] == x
  {
    k :| 0 <= k < |s| && s[k] == x;
  }

  lemma EarlierPosition(side: Side, s: seq<Order>, i: nat, j: nat)
    requires Sorted(side, s) && i < |s| && j < |s| && Before(side, s[i], s[j])
    ensures i < j
  {
    assert j < i ==> Before(side, s[j], s[i]);
    BeforeTotal(side, s[i], s[j]);
    StringLessIrreflexive(s[i].id);
  }

  /** A resting order that traded did so at its own position in the book. */
  lemma TradedPosition(symbol: string, o: Order, resting: seq<Order>, trades: seq<Trade>, y: Order) returns (k: nat)
    requires TradesInOrder(symbol, o, resting, trades)
    requires y in resting && y.id != o.id && Traded(trades, y.id) != 0
    requires forall a, b :: a in resting && b in resting && a.id == b.id ==> a == b
    ensures k < |trades| && resting[k] == y
  {
    k := SomeShare(trades, y.id);
    assert trades[k] == TradeOf(symbol, o, resting[k], trades[k].size);
    assert resting[k] in resting;
  }

  lemma {:induction false} SomeShare(trades: seq<Trade>, id: string) returns (k: nat)
    requires Traded(trades, id) != 0
    ensures k < |trades| && Shares(trades[k], id) != 0
    decreases |trades|
  {
    if Shares(trades[0], id) != 0 {
      k := 0;
    } else {
      k := SomeShare(trades[1..], id);
      k := k + 1;
    }
  }

  /** A resting order with a later trade after it has left the book. */
  lemma FilledIsGone(b: Book, o: Order, k: nat)
    requires BookOk(b) && Newcomer(b, o)
    requires k + 1 < |Match(b.symbol, o, Facing(b, o.side)).trades| && k < |Facing(b, o.side)|
    ensures forall z :: InBook(MatchOrder(b, o), z) ==> z.id != Facing(b, o.side)[k].id
  {
    var resting := Facing(b, o.side);
    var out := Match(b.symbol, o, resting);
    MatchShape(b.symbol, o, resting);
    MatchOrderMembers(b, o);
    forall z | InBook(MatchOrder(b, o), z)
      ensures z.id != resting[k].id
    {
      if z in Facing(MatchOrder(b, o), o.side) {
        var p := RestPosition(resting, out, z);
        DistinctPositions(Opposite(o.side), resting, k, p);
      } else {
        assert z in OnSide(MatchOrder(b, o), o.side);
        assert resting[k] in resting;
      }
    }
  }

  lemma RestPosition(resting: seq<Order>, out: Outcome, z: Order) returns (p: nat)
    requires |out.trades| <= |resting| && LeavesRest(resting, out) && z in out.resting
    ensures |out.trades| <= p + 1 && p < |resting| && resting[p].id == z.id
  {
    var k := |out.trades|;
    var i :| 0 <= i < |out.resting| && out.resting[i] == z;
    p := if k > 0 && out.trades[k - 1].size < resting[k - 1].remaining then k - 1 + i else k + i;
  }

  lemma DistinctPositions(side: Side, s: seq<Order>, i: nat, j: nat)
    requires Sorted(side, s) && i < j < |s|
    requires forall a, b :: a in s && b in s && a.id == b.id ==> a == b
    ensures s[i].id != s[j].id
  {
    assert Before(side, s[i], s[j]);
    StringLessIrreflexive(s[i].id);
  }

  /** A placement that crosses the first k + 1 resting orders and is as large as they are together
      fills just those. */
  lemma {:induction false} MatchReaches(symbol: string, o: Order, resting: seq<Order>, k: nat)
    requires k < |resting| && forall i :: 0 <= i <= k ==> Crosses(o, resting[i]) && resting[i].remaining > 0
    requires o.remaining == TotalSize(resting[..k + 1])
    ensures var out := Match(symbol, o, resting);
            && |out.trades| == k + 1
            && out.trades[k] == TradeOf(symbol, o, resting[k], resting[k].remaining)
            && out.remaining == 0 && out.resting == resting[k + 1..]
    decreases k
  {
    var best, first := resting[0], resting[..k + 1];
    assert first[1..] == resting[1..][..k];
    TotalNonNegative(first[1..]);
    var o' := o.(remaining := o.remaining - best.remaining);
    if k > 0 {
      MatchReaches(symbol, o', resting[1..], k - 1);
      assert resting[1..][k..] == resting[k + 1..];
    }
  }

  /** What is traded in all is at least what one trade adds. */
  lemma {:induction false} TradedAtLeast(trades: seq<Trade>, k: nat, id: string)
    requires k < |trades| && forall i :: 0 <= i < |trades| ==> trades[i].size > 0
    ensures Traded(trades, id) >= Shares(trades[k], id)
    decreases |trades|
  {
    if k > 0 {
      TradedAtLeast(trades[1..], k - 1, id);
    } else if |trades| > 1 {
      TradedAtLeast(trades[1..], 0, id);
    }
  }

  /** A limit at a resting order's price crosses all that is before it. */
  lemma CrossesUpTo(o: Order, resting: seq<Order>, k: nat)
    requires Sorted(Opposite(o.side), resting) && k < |resting| && o.price == resting[k].price
    ensures forall i :: 0 <= i <= k ==> Crosses(o, resting[i])
  {
    forall i | 0 <= i < k
      ensures Crosses(o, resting[i])
    {
      assert Before(Opposite(o.side), resting[i], resting[k]);
    }
  }

  /** The placement that ends with y: it leaves alone whatever comes after y. */
  lemma EndsWith(b: Book, o: Order, x: Order, y: Order, py: nat)
    requires BookOk(b) && Newcomer(b, o)
    requires var resting := Facing(b, o.side);
             && py < |resting| && resting[py] == y && o.price == y.price
             && o.remaining == TotalSize(resting[..py + 1])
             && x in resting && Before(Opposite(o.side), y, x)
    ensures Traded(Match(b.symbol, o, Facing(b, o.side)).trades, y.id) != 0
    ensures InBook(MatchOrder(b, o), x)
  {
    var resting := Facing(b, o.side);
    var px := PositionOfOrder(resting, x);
    EarlierPosition(Opposite(o.side), resting, py, px);
    CrossesUpTo(o, resting, py);
    MatchReaches(b.symbol, o, resting, py);
    MatchShape(b.symbol, o, resting);
    hide Match, LeavesRest, StringLess, Before;
    var out := Match(b.symbol, o, resting);
    assert out.resting[px - py - 1] == x;
    TradedAtLeast(out.trades, py, y.id);
  }

  // -- Runs --------------------------------------------------------------------------------------------

  /** Whenever the placement makes y trade, it has by then filled x, which is in no book after. */
  ghost predicate FillsFirst(ops: seq<Op>, op: Op, x: Order, y: Order)
    requires op.Place?
  {
    var e := Run(ops).engine;
    var o := NewOrder(e, op.symbol, op.price, op.size, op.side);
    Traded(TradesOf(e, op), y.id) != 0 ==>
      && (exists px: nat, py: nat :: FilledEarlier(BookOf(e, op.symbol).symbol, o, TradesOf(e, op), x, y, px, py))
      && !Holds(Run(ops + [op]).engine, op.symbol, x.id)
  }

  ghost predicate BothRest(ops: seq<Op>, symbol: string, side: Side, x: Order, y: Order) {
    var resting := Facing(BookOf(Run(ops).engine, symbol), side);
    x in resting && y in resting && x != y
  }

  lemma PlacedBook(ops: seq<Op>, op: Op)
    requires Sizes(ops) && op.Place? && op.size >= 0
    ensures var e := Run(ops).engine;
            var o := NewOrder(e, op.symbol, op.price, op.size, op.side);
            var b := BookOf(e, op.symbol);
            && BookOk(b) && Newcomer(b, o)
            && op.symbol in Run(ops + [op]).engine.books
            && Run(ops + [op]).engine.books[op.symbol] == MatchOrder(b, o)
  {
    var e := Run(ops).engine;
    RunIsSound(ops);
    assert (ops + [op])[..|ops|] == ops;
    NewOrderIsNewcomer(e, op.symbol, NewOrder(e, op.symbol, op.price, op.size, op.side));
  }

  /** After any run, of two resting orders the one that the comparator puts first fills first: the
      better priced, or at one price the one of the smaller id. */
  lemma EarlierFillsFirst(ops: seq<Op>, op: Op, x: Order, y: Order)
    requires Sizes(ops) && op.Place? && op.size >= 0
    requires BothRest(ops, op.symbol, op.side, x, y) && Before(Opposite(op.side), x, y)
    ensures FillsFirst(ops, op, x, y)
  {
    var e := Run(ops).engine;
    var o := NewOrder(e, op.symbol, op.price, op.size, op.side);
    var b := BookOf(e, op.symbol);
    PlacedBook(ops, op);
    if Traded(TradesOf(e, op), y.id) != 0 {
      hide BookOk, Newcomer, Match, MatchOrder, Run, Before;
      var px, py := EarlierFillsFirstInBook(b, o, x, y);
    }
  }

  ghost predicate AlwaysFillsFirst(ops: seq<Op>, symbol: string, side: Side, x: Order, y: Order) {
    forall price: real, size: int :: size >= 0 ==> FillsFirst(ops, Place(symbol, price, size, side), x, y)
  }

  /** And only that one: for the other there is a placement, of the size that ends with it, that
      makes it trade and leaves the first to rest. */
  lemma FillsFirstExactly(ops: seq<Op>, symbol: string, side: Side, x: Order, y: Order)
    requires Sizes(ops) && BothRest(ops, symbol, side, x, y)
    ensures AlwaysFillsFirst(ops, symbol, side, x, y) <==> Before(Opposite(side), x, y)
  {
    if Before(Opposite(side), x, y) {
      forall price: real, size: int | size >= 0
        ensures FillsFirst(ops, Place(symbol, price, size, side), x, y)
      {
        EarlierFillsFirst(ops, Place(symbol, price, size, side), x, y);
      }
    } else {
      var op := LaterTrades(ops, symbol, side, x, y);
    }
  }

  lemma LaterTrades(ops: seq<Op>, symbol: string, side: Side, x: Order, y: Order) returns (op: Op)
    requires Sizes(ops) && BothRest(ops, symbol, side, x, y) && !Before(Opposite(side), x, y)
    ensures op.Place? && op.symbol == symbol && op.side == side && op.size >= 0 && !FillsFirst(ops, op, x, y)
  {
    hide Match, MatchOrder, Run, Before, StringLess;
    var e := Run(ops).engine;
    var b := BookOf(e, symbol);
    var resting := Facing(b, side);
    PlacedBook(ops, Place(symbol, y.price, 0, side));
    BeforeTotal(Opposite(side), x, y);
    var py := PositionOfOrder(resting, y);
    TotalNonNegative(resting[..py + 1]);
    op := Place(symbol, y.price, TotalSize(resting[..py + 1]), side);
    PlacedBook(ops, op);
    var o := NewOrder(e, symbol, op.price, op.size, side);
    hide BookOk, Newcomer, TotalSize;
    EndsWith(b, o, x, y, py);
  }

  /** Time priority, exactly: of two orders resting on one side at one price in any reachable book,
      every placement that makes the younger trade has filled the older if and only if the older
      number does not exceed the younger one cut to as many digits. */
  lemma TimePriorityExactly(ops: seq<Op>, symbol: string, side: Side, x: Order, y: Order, i: nat, j: nat, d: nat)
    requires Sizes(ops) && BothRest(ops, symbol, side, x, y)
    requires x.price == y.price && x.id == OrderId(i) && y.id == OrderId(j)
    requires i < j && |Decimal(j)| == |Decimal(i)| + d
    ensures AlwaysFillsFirst(ops, symbol, side, x, y) <==> i <= Cut(j, d)
    ensures AlwaysFillsFirst(ops, symbol, side, y, x) <==> i > Cut(j, d)
    ensures d == 0 ==> AlwaysFillsFirst(ops, symbol, side, x, y)
  {
    PriorityIsAge(Opposite(side), x, y, i, j, d);
    FillsFirstExactly(ops, symbol, side, x, y);
    FillsFirstExactly(ops, symbol, side, y, x);
  }

  // -- The input on which age does not decide -----------------------------------------------------------

  const NOTHING: Op := Place("S", 1.0, 0, Buy)
  const BID: Op := Place("S", 1.0, 1, Buy)
  const SALE: Op := Place("S", 1.0, 1, Sell)

  function Bids(bids: seq<Order>, nextId: nat, trades: seq<Trade>): Engine {
    Engine(map["S" := Book("S", bids, [])], nextId, trades)
  }

  lemma PlacedNext(ops: seq<Op>, op: Op)
    requires op.Place?
    ensures Run(ops + [op]).engine == PlaceOrder(Run(ops).engine, op.symbol, op.price, op.size, op.side)
  {
    assert (ops + [op])[..|ops|] == ops;
  }

  lemma NothingStep(e: Engine)
    requires e.books == map[] || e == Bids([], e.nextId, [])
    ensures PlaceOrder(e, "S", 1.0, 0, Buy) == Bids([], e.nextId + 1, e.trades)
  {
    hide OrderId;
  }

  /** Placements of size 0 only use up ids. */
  lemma {:induction false} NothingPlaced(n: nat)
    requires n >= 1
    ensures Run(seq(n, _ => NOTHING)).engine == Bids([], n + 1, [])
    decreases n
  {
    var before := seq(n - 1, _ => NOTHING);
    assert seq(n, _ => NOTHING) == before + [NOTHING];
    if n > 1 {
      NothingPlaced(n - 1);
    } else {
      assert Run(before).engine == Start();
    }
    hide Run, PlaceOrder;
    PlacedNext(before, NOTHING);
    NothingStep(Run(before).engine);
  }

  const NINE: Order := Order("order-9", "S", 1.0, 1, Buy)
  const TEN: Order := Order("order-10", "S", 1.0, 1, Buy)

  lemma NinePlaced()
    requires OrderId(9) == "order-9"
    ensures PlaceOrder(Bids([], 9, []), "S", 1.0, 1, Buy) == Bids([NINE], 10, [])
  {
    hide OrderId;
  }

  lemma TenPlaced()
    requires OrderId(10) == "order-10" && StringLess("order-10", "order-9")
    ensures PlaceOrder(Bids([NINE], 10, []), "S", 1.0, 1, Buy) == Bids([TEN, NINE], 11, [])
  {
    hide OrderId, StringLess;
    assert Insert(Buy, [NINE], TEN) == [TEN, NINE];
  }

  lemma TenSold()
    ensures PlaceOrder(Bids([TEN, NINE], 11, []), "S", 1.0, 1, Sell)
         == Bids([NINE], 12, [Trade("S", 1.0, 1, "order-10", OrderId(11))])
  {
    hide OrderId, StringLess;
    var o := Order(OrderId(11), "S", 1.0, 1, Sell);
    assert Match("S", o.(remaining := 0), [NINE]) == Outcome([], 0, [NINE]);
    assert [TEN, NINE][1..] == [NINE];
    var trade := TradeOf("S", o, TEN, 1);
    assert Match("S", o, [TEN, NINE]) == Outcome([trade] + [], 0, [NINE]);
  }

  lemma AfterEight(ops: seq<Op>)
    requires Run(ops).engine == Bids([], 9, []) && OrderId(9) == "order-9"
    requires OrderId(10) == "order-10" && StringLess("order-10", "order-9")
    ensures Run(ops + [BID] + [BID] + [SALE]).engine == Bids([NINE], 12, [Trade("S", 1.0, 1, "order-10", OrderId(11))])
  {
    hide OrderId, StringLess;
    PlacedNext(ops, BID);
    PlacedNext(ops + [BID], BID);
    PlacedNext(ops + [BID] + [BID], SALE);
    hide Run, PlaceOrder;
    NinePlaced();
    TenPlaced();
    TenSold();
  }

  lemma OnlyNineHeld(e: Engine)
    requires e == Bids([NINE], e.nextId, e.trades)
    ensures Holds(e, "S", "order-9") && !Holds(e, "S", "order-10")
  {
    assert InBook(e.books["S"], NINE);
  }

  /** Orders 9 and 10 bid alike, and a sale of one unit fills the younger one. */
  lemma TenFillsBeforeNine()
    ensures var e := Run(seq(8, _ => NOTHING) + [BID] + [BID] + [SALE]).engine;
            && e.trades == [Trade("S", 1.0, 1, "order-10", OrderId(11))]
            && Holds(e, "S", "order-9") && !Holds(e, "S", "order-10")
  {
    hide Run, OrderId, StringLess, Holds;
    TenBeforeNine();
    NothingPlaced(8);
    AfterEight(seq(8, _ => NOTHING));
    OnlyNineHeld(Run(seq(8, _ => NOTHING) + [BID] + [BID] + [SALE]).engine);
  }
}
