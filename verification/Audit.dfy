/** Audit of whole runs of the matching engine: every order placed is followed in a ledger, and
    every run balances, trades within limits, and fills in the order the book dictates. */
module Audit {
  import opened OrderIds
  import opened Matching
  import opened Exchange

  /** The order numbered k + 1 as it was placed, and how much of it was cancelled. */
  datatype Entry = Entry(symbol: string, side: Side, price: real, size: int, cancelled: int)

  datatype Op = Place(symbol: string, price: real, size: int, side: Side) | Cancel(id: string)

  datatype History = History(engine: Engine, ledger: seq<Entry>)

  // -- Sums -------------------------------------------------------------------------------

  /** Units resting under an id on one side. */
  function Amount(s: seq<Order>, id: string): int {
    if s == [] then 0 else (if s[0].id == id then s[0].remaining else 0) + Amount(s[1..], id)
  }

  /** Units resting under an id in the book of a symbol. */
  function Resting(e: Engine, symbol: string, id: string): int {
    Amount(BookOf(e, symbol).bids, id) + Amount(BookOf(e, symbol).asks, id)
  }

  function Shares(t: Trade, id: string): int {
    (if t.buyId == id then t.size else 0) + (if t.sellId == id then t.size else 0)
  }

  /** Units reported traded for an id. */
  function Traded(trades: seq<Trade>, id: string): int {
    if trades == [] then 0 else Shares(trades[0], id) + Traded(trades[1..], id)
  }

  lemma {:induction false} TradedConcat(a: seq<Trade>, b: seq<Trade>, id: string)
    ensures Traded(a + b, id) == Traded(a, id) + Traded(b, id)
    decreases |a|
  {
    if a == [] {
      assert a + b == b;
    } else {
      assert (a + b)[1..] == a[1..] + b;
      TradedConcat(a[1..], b, id);
    }
  }

  lemma {:induction false} AmountAbsent(s: seq<Order>, id: string)
    requires Absent(id, s)
    ensures Amount(s, id) == 0
    decreases |s|
  {
    if s != [] {
      AmountAbsent(s[1..], id);
    }
  }

  lemma {:induction false} AmountInsert(side: Side, s: seq<Order>, o: Order, id: string)
    requires Absent(o.id, s)
    ensures Amount(Insert(side, s, o), id) == Amount(s, id) + if o.id == id then o.remaining else 0
    decreases |s|
  {
    if s == [] {
      assert Insert(side, s, o)[1..] == [];
    } else {
      BeforeTotal(side, o, s[0]);
      if Before(side, o, s[0]) {
        assert Insert(side, s, o)[1..] == s;
      } else {
        AmountInsert(side, s[1..], o, id);
        assert Insert(side, s, o)[1..] == Insert(side, s[1..], o);
      }
    }
  }

  lemma {:induction false} AmountWithout(s: seq<Order>, gone: string, id: string)
    ensures Amount(Without(s, gone), id) == if id == gone then 0 else Amount(s, id)
    decreases |s|
  {
    if s != [] {
      AmountWithout(s[1..], gone, id);
      if s[0].id != gone {
        assert Without(s, gone)[1..] == Without(s[1..], gone);
      } else {
        assert Without(s, gone) == Without(s[1..], gone);
      }
    }
  }

  /** One match moves units from resting orders and from the incoming one into trades, and
      neither creates nor loses any, whatever the sizes. */
  lemma {:induction false} MatchConserves(symbol: string, o: Order, resting: seq<Order>, id: string)
    requires Absent(o.id, resting)
    ensures var out := Match(symbol, o, resting);
            if id == o.id then o.remaining == out.remaining + Traded(out.trades, id)
            else Amount(resting, id) == Amount(out.resting, id) + Traded(out.trades, id)
    decreases |resting|
  {
    if !(o.remaining == 0 || resting == [] || !Crosses(o, resting[0])) {
      var out := Match(symbol, o, resting);
      var size := Min(o.remaining, resting[0].remaining);
      if size < resting[0].remaining {
        assert out.trades[1..] == [] && out.resting[1..] == resting[1..];
      } else {
        var o' := o.(remaining := o.remaining - size);
        MatchConserves(symbol, o', resting[1..], id);
        assert out.trades[1..] == Match(symbol, o', resting[1..]).trades;
        hide Crosses, Min;
      }
    }
  }

  lemma {:induction false} OthersUntraded(symbol: string, o: Order, resting: seq<Order>, id: string)
    requires Absent(id, resting) && id != o.id
    ensures Traded(Match(symbol, o, resting).trades, id) == 0
    decreases |resting|
  {
    if !(o.remaining == 0 || resting == [] || !Crosses(o, resting[0])) {
      var trades := Match(symbol, o, resting).trades;
      var size := Min(o.remaining, resting[0].remaining);
      if size < resting[0].remaining {
        assert trades[1..] == [];
      } else {
        var o' := o.(remaining := o.remaining - size);
        OthersUntraded(symbol, o', resting[1..], id);
        assert trades[1..] == Match(symbol, o', resting[1..]).trades;
      }
    }
  }

  /** Each trade is with some resting order that accepts the limit. */
  lemma {:induction false} TradePartner(symbol: string, o: Order, resting: seq<Order>, j: nat) returns (r: Order)
    requires j < |Match(symbol, o, resting).trades|
    ensures r in resting && Crosses(o, r)
    ensures var t := Match(symbol, o, resting).trades[j]; t == TradeOf(symbol, o, r, t.size)
    decreases |resting|
  {
    r := resting[0];
    if j > 0 {
      var size := Min(o.remaining, resting[0].remaining);
      r := TradePartner(symbol, o.(remaining := o.remaining - size), resting[1..], j - 1);
    }
  }

  // -- Runs ---------------------------------------------------------------------------------

  function Step(h: History, op: Op): History {
    match op
    case Place(symbol, price, size, side) =>
      History(PlaceOrder(h.engine, symbol, price, size, side), h.ledger + [Entry(symbol, side, price, size, 0)])
    case Cancel(id) =>
      History(CancelOrder(h.engine, id), seq(|h.ledger|, k requires 0 <= k < |h.ledger| => Charge(h, k, id)))
  }

  /** Entry k after the order named id is cancelled. */
  function Charge(h: History, k: nat, id: string): Entry
    requires k < |h.ledger|
  {
    var entry := h.ledger[k];
    if OrderId(k + 1) == id then entry.(cancelled := entry.cancelled + Resting(h.engine, entry.symbol, id)) else entry
  }

  function Run(ops: seq<Op>): History {
    if ops == [] then History(Start(), []) else Step(Run(ops[..|ops| - 1]), ops[|ops| - 1])
  }

  ghost predicate Sizes(ops: seq<Op>) {
    forall i :: 0 <= i < |ops| && ops[i].Place? ==> ops[i].size >= 0
  }

  // -- The audit ------------------------------------------------------------------------------

  /** Placed size = still resting + cancelled + traded. */
  ghost predicate Balanced(h: History, k: nat)
    requires k < |h.ledger|
  {
    var id := OrderId(k + 1);
    h.ledger[k].size == Resting(h.engine, h.ledger[k].symbol, id) + h.ledger[k].cancelled + Traded(h.engine.trades, id)
  }

  /** A resting order is the order of that number, on its own side, price and symbol. */
  ghost predicate Registered(ledger: seq<Entry>, x: Order, k: nat) {
    && k < |ledger|
    && x.id == OrderId(k + 1)
    && ledger[k].symbol == x.symbol && ledger[k].price == x.price && ledger[k].side == x.side
  }

  ghost predicate Known(ledger: seq<Entry>, x: Order) {
    exists k: nat :: Registered(ledger, x, k)
  }

  /** Registered orders of one symbol and side. */
  ghost predicate Filed(ledger: seq<Entry>, symbol: string, side: Side, s: seq<Order>) {
    forall x :: x in s ==> x.symbol == symbol && x.side == side && Known(ledger, x)
  }

  ghost predicate BookFiled(ledger: seq<Entry>, symbol: string, b: Book) {
    b.symbol == symbol && Filed(ledger, symbol, Buy, b.bids) && Filed(ledger, symbol, Sell, b.asks)
  }

  ghost predicate AllFiled(h: History) {
    forall s :: s in h.engine.books ==> BookFiled(h.ledger, s, h.engine.books[s])
  }

  /** A buyer and a seller of the symbol, at a price within both limits. */
  ghost predicate Lawful(ledger: seq<Entry>, t: Trade, buyer: nat, seller: nat) {
    && buyer < |ledger| && seller < |ledger|
    && t.buyId == OrderId(buyer + 1) && t.sellId == OrderId(seller + 1)
    && ledger[buyer].side.Buy? && ledger[seller].side.Sell?
    && ledger[buyer].symbol == t.symbol == ledger[seller].symbol
    && ledger[seller].price <= t.price <= ledger[buyer].price
  }

  ghost predicate IsLawful(ledger: seq<Entry>, t: Trade) {
    exists b: nat, s: nat :: Lawful(ledger, t, b, s)
  }

  ghost predicate AllLawful(ledger: seq<Entry>, trades: seq<Trade>) {
    forall i :: 0 <= i < |trades| ==> IsLawful(ledger, trades[i])
  }

  /** Every order rests, if it does, where it belongs, every trade is lawful, and every order's
      units are accounted for. */
  ghost predicate Accounted(h: History) {
    && h.engine.nextId == |h.ledger| + 1
    && AllFiled(h)
    && AllLawful(h.ledger, h.engine.trades)
    && forall k :: 0 <= k < |h.ledger| ==> Balanced(h, k)
  }

  /** The ledger as it was, but for what was cancelled, and perhaps longer. */
  ghost predicate Extends(ledger: seq<Entry>, ledger': seq<Entry>) {
    && |ledger| <= |ledger'|
    && forall k :: 0 <= k < |ledger| ==> ledger'[k] == ledger[k].(cancelled := ledger'[k].cancelled)
  }

  lemma KnownLater(ledger: seq<Entry>, ledger': seq<Entry>, x: Order, y: Order)
    requires Extends(ledger, ledger') && Known(ledger, y) && x == y.(remaining := x.remaining)
    ensures Known(ledger', x)
  {
    var k: nat :| Registered(ledger, y, k);
    assert Registered(ledger', x, k);
  }

  lemma FiledLater(ledger: seq<Entry>, ledger': seq<Entry>, symbol: string, side: Side, s: seq<Order>, s': seq<Order>)
    requires Extends(ledger, ledger') && Filed(ledger, symbol, side, s)
    requires forall x :: x in s' ==> exists y :: y in s && x == y.(remaining := x.remaining)
    ensures Filed(ledger', symbol, side, s')
  {
    forall x | x in s'
      ensures x.symbol == symbol && x.side == side && Known(ledger', x)
    {
      var y :| y in s && x == y.(remaining := x.remaining);
      KnownLater(ledger, ledger', x, y);
    }
  }

  lemma SameFiledLater(ledger: seq<Entry>, ledger': seq<Entry>, symbol: string, b: Book)
    requires Extends(ledger, ledger') && BookFiled(ledger, symbol, b)
    ensures BookFiled(ledger', symbol, b)
  {
    hide Known, Extends;
    forall x | x in b.bids || x in b.asks
      ensures Known(ledger', x)
    {
      KnownLater(ledger, ledger', x, x);
    }
  }

  /** An order that is not of this symbol, or not placed yet, is not filed under it. */
  lemma NotFiled(ledger: seq<Entry>, symbol: string, side: Side, s: seq<Order>, k: nat)
    requires Filed(ledger, symbol, side, s) && (k < |ledger| ==> ledger[k].symbol != symbol)
    ensures Absent(OrderId(k + 1), s)
  {
    forall i | 0 <= i < |s|
      ensures s[i].id != OrderId(k + 1)
    {
      assert s[i] in s && Known(ledger, s[i]);
      var j: nat :| Registered(ledger, s[i], j);
      OrderIdInjective(j + 1, k + 1);
    }
  }

  lemma NotInBook(h: History, symbol: string, k: nat)
    requires AllFiled(h) && (k < |h.ledger| ==> h.ledger[k].symbol != symbol)
    ensures var b := BookOf(h.engine, symbol);
            BookFiled(h.ledger, symbol, b) && Absent(OrderId(k + 1), b.bids) && Absent(OrderId(k + 1), b.asks)
  {
    var b := BookOf(h.engine, symbol);
    assert BookFiled(h.ledger, symbol, b);
    NotFiled(h.ledger, symbol, Buy, b.bids, k);
    NotFiled(h.ledger, symbol, Sell, b.asks, k);
  }

  lemma MatchKeepsFiled(ledger: seq<Entry>, b: Book, o: Order)
    requires BookFiled(ledger, o.symbol, b) && o.id == OrderId(|ledger| + 1)
    requires Absent(o.id, OnSide(b, o.side))
    ensures BookFiled(ledger + [Entry(o.symbol, o.side, o.price, o.remaining, 0)], o.symbol, MatchOrder(b, o))
  {
    var ledger' := ledger + [Entry(o.symbol, o.side, o.price, o.remaining, 0)];
    var b' := MatchOrder(b, o);
    MatchOrderMembers(b, o);
    hide Match;
    FiledLater(ledger, ledger', o.symbol, Opposite(o.side), Facing(b, o.side), Facing(b', o.side));
    forall x | x in OnSide(b', o.side)
      ensures x.symbol == o.symbol && x.side == o.side && Known(ledger', x)
    {
      if x in OnSide(b, o.side) {
        KnownLater(ledger, ledger', x, x);
      } else {
        assert Registered(ledger', x, |ledger|);
      }
    }
  }

  lemma PlaceKeepsFiled(h: History, op: Op)
    requires h.engine.nextId == |h.ledger| + 1 && AllFiled(h) && op.Place?
    ensures AllFiled(Step(h, op))
  {
    var h' := Step(h, op);
    var o := NewOrder(h.engine, op.symbol, op.price, op.size, op.side);
    NotInBook(h, op.symbol, |h.ledger|);
    MatchKeepsFiled(h.ledger, BookOf(h.engine, op.symbol), o);
    hide BookFiled;
    forall s | s in h'.engine.books
      ensures BookFiled(h'.ledger, s, h'.engine.books[s])
    {
      if s != op.symbol {
        SameFiledLater(h.ledger, h'.ledger, s, h.engine.books[s]);
      }
    }
  }

  lemma OldTradesLawful(ledger: seq<Entry>, ledger': seq<Entry>, trades: seq<Trade>)
    requires AllLawful(ledger, trades) && Extends(ledger, ledger')
    ensures AllLawful(ledger', trades)
  {
    forall i | 0 <= i < |trades|
      ensures IsLawful(ledger', trades[i])
    {
      assert IsLawful(ledger, trades[i]);
      var b: nat, s: nat :| Lawful(ledger, trades[i], b, s);
      assert Lawful(ledger', trades[i], b, s);
    }
  }

  /** The trades of the newest order are with registered orders of the other side that it crosses. */
  lemma NewTradesLawful(ledger: seq<Entry>, b: Book, o: Order)
    requires BookFiled(ledger, o.symbol, b) && o.id == OrderId(|ledger| + 1)
    ensures AllLawful(ledger + [Entry(o.symbol, o.side, o.price, o.remaining, 0)],
                      Match(b.symbol, o, Facing(b, o.side)).trades)
  {
    var trades := Match(b.symbol, o, Facing(b, o.side)).trades;
    forall j | 0 <= j < |trades|
      ensures IsLawful(ledger + [Entry(o.symbol, o.side, o.price, o.remaining, 0)], trades[j])
    {
      var r := TradePartner(b.symbol, o, Facing(b, o.side), j);
      assert Known(ledger, r);
      hide *;
      var k: nat :| Registered(ledger, r, k);
      CrossingTradeLawful(ledger, o, r, trades[j], k);
    }
  }

  lemma CrossingTradeLawful(ledger: seq<Entry>, o: Order, r: Order, t: Trade, k: nat)
    requires Registered(ledger, r, k) && r.side == Opposite(o.side) && r.symbol == o.symbol && Crosses(o, r)
    requires o.id == OrderId(|ledger| + 1) && t == TradeOf(o.symbol, o, r, t.size)
    ensures IsLawful(ledger + [Entry(o.symbol, o.side, o.price, o.remaining, 0)], t)
  {
    var n := |ledger|;
    var ledger' := ledger + [Entry(o.symbol, o.side, o.price, o.remaining, 0)];
    if o.side.Buy? {
      assert Lawful(ledger', t, n, k);
    } else {
      assert Lawful(ledger', t, k, n);
    }
  }

  lemma PlaceKeepsLawful(h: History, op: Op)
    requires Accounted(h) && op.Place?
    ensures AllLawful(Step(h, op).ledger, Step(h, op).engine.trades)
  {
    var e, h' := h.engine, Step(h, op);
    var o := NewOrder(e, op.symbol, op.price, op.size, op.side);
    var b := BookOf(e, op.symbol);
    assert h'.engine.trades == e.trades + Match(b.symbol, o, Facing(b, op.side)).trades;
    assert h'.ledger == h.ledger + [Entry(op.symbol, op.side, op.price, op.size, 0)];
    NotInBook(h, op.symbol, |h.ledger|);
    NewTradesLawful(h.ledger, b, o);
    OldTradesLawful(h.ledger, h'.ledger, e.trades);
  }

  /** Trades reported so far never mention an id that is yet to be issued. */
  lemma {:induction false} NotTradedYet(ledger: seq<Entry>, trades: seq<Trade>, n: nat)
    requires AllLawful(ledger, trades) && n > |ledger|
    ensures Traded(trades, OrderId(n)) == 0
    decreases |trades|
  {
    if trades != [] {
      var b: nat, s: nat :| Lawful(ledger, trades[0], b, s);
      OrderIdInjective(b + 1, n);
      OrderIdInjective(s + 1, n);
      assert forall i :: 0 <= i < |trades| - 1 ==> trades[1..][i] == trades[i + 1];
      NotTradedYet(ledger, trades[1..], n);
    }
  }

  /** What a match does to the units resting under one id of the book, and to the new order. */
  lemma MatchOrderConserves(b: Book, o: Order, id: string)
    requires Absent(o.id, b.bids) && Absent(o.id, b.asks)
    ensures var b' := MatchOrder(b, o);
            var trades := Match(b.symbol, o, Facing(b, o.side)).trades;
            Amount(b.bids, id) + Amount(b.asks, id) + (if id == o.id then o.remaining else 0) ==
            Amount(b'.bids, id) + Amount(b'.asks, id) + Traded(trades, id)
  {
    var resting := Facing(b, o.side);
    var out := Match(b.symbol, o, resting);
    MatchConserves(b.symbol, o, resting, id);
    AmountInsert(o.side, OnSide(b, o.side), o.(remaining := out.remaining), id);
    AmountAbsent(b.bids, o.id);
    AmountAbsent(b.asks, o.id);
    forall i | 0 <= i < |out.resting|
      ensures out.resting[i].id != o.id
    {
      var y := MatchMembers(b.symbol, o, resting, out.resting[i]);
    }
    AmountAbsent(out.resting, o.id);
  }

  /** What a placement does to the units of order k + 1 that rest in the book and that were traded. */
  lemma PlaceMoves(h: History, op: Op, k: nat)
    requires Accounted(h) && op.Place? && k <= |h.ledger|
    ensures var id, e, e' := OrderId(k + 1), h.engine, Step(h, op).engine;
            Resting(e, op.symbol, id) + Traded(e.trades, id) + (if k == |h.ledger| then op.size else 0) ==
            Resting(e', op.symbol, id) + Traded(e'.trades, id)
  {
    var e := h.engine;
    var o := NewOrder(e, op.symbol, op.price, op.size, op.side);
    var b := BookOf(e, op.symbol);
    NotInBook(h, op.symbol, |h.ledger|);
    OrderIdInjective(k + 1, e.nextId);
    hide Accounted, AllFiled, BookFiled, Match, MatchOrder, Amount, Traded, OrderId;
    MatchOrderConserves(b, o, OrderId(k + 1));
    TradedConcat(e.trades, Match(b.symbol, o, Facing(b, op.side)).trades, OrderId(k + 1));
  }

  lemma NothingYet(h: History, symbol: string)
    requires Accounted(h)
    ensures var id := OrderId(|h.ledger| + 1); Resting(h.engine, symbol, id) == Traded(h.engine.trades, id) == 0
  {
    NotInBook(h, symbol, |h.ledger|);
    NotTradedYet(h.ledger, h.engine.trades, |h.ledger| + 1);
    AmountAbsent(BookOf(h.engine, symbol).bids, OrderId(|h.ledger| + 1));
    AmountAbsent(BookOf(h.engine, symbol).asks, OrderId(|h.ledger| + 1));
  }

  /** A placement in one book leaves the orders of every other symbol alone. */
  lemma UntouchedElsewhere(h: History, op: Op, k: nat)
    requires Accounted(h) && op.Place? && k < |h.ledger| && h.ledger[k].symbol != op.symbol
    ensures var id, symbol, e' := OrderId(k + 1), h.ledger[k].symbol, Step(h, op).engine;
            && Resting(e', symbol, id) == Resting(h.engine, symbol, id)
            && Traded(e'.trades, id) == Traded(h.engine.trades, id)
  {
    var e := h.engine;
    var o := NewOrder(e, op.symbol, op.price, op.size, op.side);
    var b := BookOf(e, op.symbol);
    NotInBook(h, op.symbol, k);
    OrderIdInjective(k + 1, e.nextId);
    hide Accounted, AllFiled, BookFiled, Match, MatchOrder, Amount, Traded, OrderId;
    OthersUntraded(b.symbol, o, Facing(b, op.side), OrderId(k + 1));
    TradedConcat(e.trades, Match(b.symbol, o, Facing(b, op.side)).trades, OrderId(k + 1));
  }

  lemma PlaceKeepsBalance(h: History, op: Op, k: nat)
    requires Accounted(h) && op.Place? && k <= |h.ledger|
    ensures Balanced(Step(h, op), k)
  {
    hide AllFiled, AllLawful, Resting, Traded, OrderId, PlaceOrder;
    PlaceMoves(h, op, k);
    if k == |h.ledger| {
      NothingYet(h, op.symbol);
    } else {
      assert Balanced(h, k);
      assert Step(h, op).ledger[k] == h.ledger[k];
      if h.ledger[k].symbol != op.symbol {
        UntouchedElsewhere(h, op, k);
      }
    }
  }

  lemma CancelKeepsBalance(h: History, id: string, k: nat)
    requires Accounted(h) && k < |h.ledger|
    ensures Balanced(Step(h, Cancel(id)), k)
  {
    var symbol := h.ledger[k].symbol;
    var b := BookOf(h.engine, symbol);
    assert Balanced(h, k);
    AmountWithout(b.bids, id, OrderId(k + 1));
    AmountWithout(b.asks, id, OrderId(k + 1));
    if symbol in h.engine.books {
      assert BookOf(CancelOrder(h.engine, id), symbol) == RemoveOrder(b, id);
    }
  }

  lemma CancelKeepsFiled(h: History, id: string)
    requires AllFiled(h)
    ensures AllFiled(Step(h, Cancel(id)))
  {
    var h' := Step(h, Cancel(id));
    forall s | s in h'.engine.books
      ensures BookFiled(h'.ledger, s, h'.engine.books[s])
    {
      var b := h.engine.books[s];
      SameFiledLater(h.ledger, h'.ledger, s, b);
      WithoutMembers(b.bids, id);
      WithoutMembers(b.asks, id);
    }
  }

  lemma StepKeepsAccounts(h: History, op: Op)
    requires Accounted(h)
    ensures Accounted(Step(h, op))
  {
    hide AllFiled, AllLawful, Balanced;
    match op
    case Place(_, _, _, _) =>
      PlaceKeepsFiled(h, op);
      PlaceKeepsLawful(h, op);
      forall k | 0 <= k <= |h.ledger|
        ensures Balanced(Step(h, op), k)
      {
        PlaceKeepsBalance(h, op, k);
      }
    case Cancel(id) =>
      CancelKeepsFiled(h, id);
      OldTradesLawful(h.ledger, Step(h, op).ledger, h.engine.trades);
      forall k | 0 <= k < |h.ledger|
        ensures Balanced(Step(h, op), k)
      {
        CancelKeepsBalance(h, id, k);
      }
  }

  /** After any sequence of placements, of whatever sizes, and cancellations: every order's units
      are accounted for, and every trade is between a buyer and a seller within both limits. */
  lemma {:induction false} RunIsAccounted(ops: seq<Op>)
    ensures Accounted(Run(ops))
    decreases |ops|
  {
    hide Accounted, Step;
    if ops == [] {
      NewIsAccounted();
    } else {
      RunIsAccounted(ops[..|ops| - 1]);
      StepKeepsAccounts(Run(ops[..|ops| - 1]), ops[|ops| - 1]);
    }
  }

  lemma NewIsAccounted()
    ensures Accounted(History(Start(), []))
  {
  }

  // -- When the books are sound ---------------------------------------------------------------------

  ghost predicate AllPositive(trades: seq<Trade>) {
    forall i :: 0 <= i < |trades| ==> trades[i].size > 0
  }

  /** The accounts are right, the books uncrossed and sound, and every trade moves units from the
      seller to the buyer. */
  ghost predicate HistoryOk(h: History) {
    Accounted(h) && EngineOk(h.engine) && AllPositive(h.engine.trades)
  }

  lemma PlaceKeepsPositive(e: Engine, op: Op)
    requires EngineOk(e) && AllPositive(e.trades) && op.Place? && op.size >= 0
    ensures AllPositive(PlaceOrder(e, op.symbol, op.price, op.size, op.side).trades)
  {
    var o := NewOrder(e, op.symbol, op.price, op.size, op.side);
    var b := BookOf(e, op.symbol);
    NewOrderIsNewcomer(e, op.symbol, o);
    MatchShape(b.symbol, o, Facing(b, op.side));
  }

  /** With sizes that are not negative all of that holds. */
  lemma {:induction false} RunIsSound(ops: seq<Op>)
    requires Sizes(ops)
    ensures HistoryOk(Run(ops))
    decreases |ops|
  {
    RunIsAccounted(ops);
    if ops != [] {
      var h := Run(ops[..|ops| - 1]);
      RunIsSound(ops[..|ops| - 1]);
      hide Accounted, AllPositive, EngineOk;
      match ops[|ops| - 1]
      case Place(symbol, price, size, side) =>
        PlaceKeepsEngine(h.engine, symbol, price, size, side);
        PlaceKeepsPositive(h.engine, ops[|ops| - 1]);
      case Cancel(id) => CancelKeepsEngine(h.engine, id);
    }
  }

  /** A negative size leaves unsound books or a trade that moves units the wrong way. */
  lemma NegativeSpoils(h: History, op: Op)
    requires HistoryOk(h) && op.Place? && op.size < 0
    ensures !HistoryOk(Step(h, op))
  {
    var e, e' := h.engine, Step(h, op).engine;
    var o := NewOrder(e, op.symbol, op.price, op.size, op.side);
    var b := BookOf(e, op.symbol);
    PlaceKeepsEngineExactly(e, op.symbol, op.price, op.size, op.side);
    NewOrderIsNewcomer(e, op.symbol, o);
    assert forall x :: x in Facing(b, op.side) ==> x.remaining > 0;
    NegativeMatch(b.symbol, o, Facing(b, op.side));
    hide Accounted, EngineOk, BookOk, Match;
    if FindsOne(e, op.symbol, op.price, op.size, op.side) {
      assert e'.trades[|e.trades|].size == op.size;
    }
  }

  /** Exactly when a run keeps all of it throughout: when no size placed is negative. */
  lemma RunIsSoundExactly(ops: seq<Op>)
    ensures (forall n :: 0 <= n <= |ops| ==> HistoryOk(Run(ops[..n]))) <==> Sizes(ops)
  {
    hide HistoryOk;
    if Sizes(ops) {
      forall n | 0 <= n <= |ops|
        ensures HistoryOk(Run(ops[..n]))
      {
        RunIsSound(ops[..n]);
      }
    } else {
      var i :| 0 <= i < |ops| && ops[i].Place? && ops[i].size < 0;
      assert ops[..i + 1][..i] == ops[..i];
      if HistoryOk(Run(ops[..i])) {
        NegativeSpoils(Run(ops[..i]), ops[i]);
        assert !HistoryOk(Run(ops[..i + 1]));
      }
    }
  }

  /** Every placement, when its turn comes, is of a size that is not negative or finds an order to trade with. */
  ghost predicate Orderly(ops: seq<Op>) {
    forall n :: 0 <= n < |ops| ==> Acceptable(ops, n)
  }

  ghost predicate Acceptable(ops: seq<Op>, n: nat)
    requires n < |ops|
  {
    match ops[n]
    case Place(symbol, price, size, side) => size >= 0 || FindsOne(Run(ops[..n]).engine, symbol, price, size, side)
    case Cancel(_) => true
  }

  ghost predicate SoundUpTo(ops: seq<Op>, n: nat)
    requires n <= |ops|
  {
    forall m :: 0 <= m <= n ==> EngineOk(Run(ops[..m]).engine)
  }

  /** For any sizes at all: the books stay sound throughout a run exactly if it is orderly. */
  lemma BooksSoundExactly(ops: seq<Op>)
    ensures SoundUpTo(ops, |ops|) <==> Orderly(ops)
  {
    if Orderly(ops) {
      OrderlyIsSound(ops, |ops|);
    }
    if SoundUpTo(ops, |ops|) {
      forall n | 0 <= n < |ops|
        ensures Acceptable(ops, n)
      {
        StepSoundExactly(ops, n);
      }
    }
  }

  lemma StepSoundExactly(ops: seq<Op>, n: nat)
    requires n < |ops| && EngineOk(Run(ops[..n]).engine)
    ensures EngineOk(Run(ops[..n + 1]).engine) <==> Acceptable(ops, n)
  {
    var e := Run(ops[..n]).engine;
    assert ops[..n + 1][..n] == ops[..n];
    match ops[n]
    case Place(symbol, price, size, side) => PlaceKeepsEngineExactly(e, symbol, price, size, side);
    case Cancel(id) => CancelKeepsEngine(e, id);
  }

  lemma {:induction false} OrderlyIsSound(ops: seq<Op>, n: nat)
    requires Orderly(ops) && n <= |ops|
    ensures SoundUpTo(ops, n)
    decreases n
  {
    hide Run, EngineOk, Acceptable;
    if n > 0 {
      OrderlyIsSound(ops, n - 1);
      assert Acceptable(ops, n - 1);
      StepSoundExactly(ops, n - 1);
    } else {
      NewIsSound(ops);
    }
  }

  lemma NewIsSound(ops: seq<Op>)
    ensures EngineOk(Run(ops[..0]).engine)
  {
    assert Run(ops[..0]).engine == Start();
  }

  // -- Bought equals sold -----------------------------------------------------------------------

  /** Units of a symbol traded by all its orders of one side among the first n placed. */
  function SideVolume(ledger: seq<Entry>, trades: seq<Trade>, symbol: string, side: Side, n: nat): int
    requires n <= |ledger|
  {
    if n == 0 then 0
    else
      SideVolume(ledger, trades, symbol, side, n - 1) +
      if ledger[n - 1].symbol == symbol && ledger[n - 1].side == side then Traded(trades, OrderId(n)) else 0
  }

  lemma {:induction false} SideVolumeCons(ledger: seq<Entry>, t: Trade, rest: seq<Trade>,
                                          symbol: string, side: Side, n: nat)
    requires n <= |ledger|
    ensures SideVolume(ledger, [t] + rest, symbol, side, n) ==
            SideVolume(ledger, [t], symbol, side, n) + SideVolume(ledger, rest, symbol, side, n)
    decreases n
  {
    if n > 0 {
      SideVolumeCons(ledger, t, rest, symbol, side, n - 1);
      TradedConcat([t], rest, OrderId(n));
    }
  }

  /** A lawful trade adds its size once to each side of its own symbol. */
  lemma {:induction false} OneTradeVolume(ledger: seq<Entry>, t: Trade, b: nat, s: nat,
                                          symbol: string, side: Side, n: nat)
    requires Lawful(ledger, t, b, s) && n <= |ledger|
    ensures SideVolume(ledger, [t], symbol, side, n) ==
            if t.symbol == symbol && (if side.Buy? then b else s) < n then t.size else 0
    decreases n
  {
    if n > 0 {
      OneTradeVolume(ledger, t, b, s, symbol, side, n - 1);
      OrderIdInjective(b + 1, n);
      OrderIdInjective(s + 1, n);
      assert Traded([t], OrderId(n)) == Shares(t, OrderId(n)) + Traded([], OrderId(n));
    }
  }

  lemma {:induction false} NoTradesNoVolume(ledger: seq<Entry>, symbol: string, side: Side, n: nat)
    requires n <= |ledger|
    ensures SideVolume(ledger, [], symbol, side, n) == 0
  {
    if n > 0 {
      NoTradesNoVolume(ledger, symbol, side, n - 1);
    }
  }

  lemma {:induction false} SidesBalance(ledger: seq<Entry>, trades: seq<Trade>, symbol: string)
    requires AllLawful(ledger, trades)
    ensures SideVolume(ledger, trades, symbol, Buy, |ledger|) == SideVolume(ledger, trades, symbol, Sell, |ledger|)
    decreases |trades|
  {
    if trades == [] {
      NoTradesNoVolume(ledger, symbol, Buy, |ledger|);
      NoTradesNoVolume(ledger, symbol, Sell, |ledger|);
    } else {
      var t, rest := trades[0], trades[1..];
      assert trades == [t] + rest;
      assert IsLawful(ledger, trades[0]);
      assert forall i :: 0 <= i < |rest| ==> rest[i] == trades[i + 1];
      var b: nat, s: nat :| Lawful(ledger, t, b, s);
      OneTradeVolume(ledger, t, b, s, symbol, Buy, |ledger|);
      OneTradeVolume(ledger, t, b, s, symbol, Sell, |ledger|);
      SideVolumeCons(ledger, t, rest, symbol, Buy, |ledger|);
      SideVolumeCons(ledger, t, rest, symbol, Sell, |ledger|);
      SidesBalance(ledger, rest, symbol);
    }
  }

  /** In every run, for every symbol, the units bought are the units sold. */
  lemma BoughtEqualsSold(ops: seq<Op>, symbol: string)
    ensures var h := Run(ops);
            SideVolume(h.ledger, h.engine.trades, symbol, Buy, |h.ledger|) ==
            SideVolume(h.ledger, h.engine.trades, symbol, Sell, |h.ledger|)
  {
    RunIsAccounted(ops);
    SidesBalance(Run(ops).ledger, Run(ops).engine.trades, symbol);
  }
}
