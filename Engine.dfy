/**
 * The single-threaded matching engine: it validates an order command,
 * assigns the order id and the internal sequence number, runs the
 * fill-or-kill pre-checks, hands the order to the book and classifies the
 * outcome. `AddOrderSpec` is the engine step as a function of the engine's
 * state; the class `EngineSingleThreaded` is proved to follow it.
 */
module Engine {
  import opened EngineTypes
  import opened Arith
  import opened BookSpec
  import opened BookImpl

  /** The engine's state: the book, the next internal id, the last sequence number. */
  datatype EngineState = EngineState(book: BookState, next: nat, seqNo: nat)

  /** A fresh engine: empty book, internal ids from 1000, sequence at 0. */
  const InitialState := EngineState(EmptyBookState, 1000, 0)

  /**
   * The conversion of the unsigned configuration value `market_max_levels`
   * to the `int` parameter of the book: its low 32 bits, read as a two's
   * complement number.
   */
  function ToInt32(x: nat): (r: int)
    ensures -0x8000_0000 <= r < 0x8000_0000
    ensures (r - x) % 0x1_0000_0000 == 0
    ensures x < 0x8000_0000 ==> r == x
  {
    var low := x % 0x1_0000_0000;
    if low < 0x8000_0000 then low else low - 0x1_0000_0000
  }

  /** The status of an accepted order from what it filled and what is left. */
  function Classify(filled: int, remaining: int): (r: OrderStatus)
    ensures r in {OK, Filled, Partial}
    ensures r == OK <==> filled == 0
    ensures r == Filled <==> filled != 0 && remaining == 0
    ensures r == Partial <==> filled != 0 && remaining != 0
  {
    if filled == 0 then OK else if remaining == 0 then Filled else Partial
  }

  /**
   * One `addOrder` call: a command without positive quantity is rejected
   * as BAD_INPUT and changes nothing; otherwise the internal id counter
   * and the sequence number both advance (the counter even when the
   * command carries its own id), and the order, under the command's id or
   * else the counter's old value, is checked and matched.
   */
  function AddOrderSpec(cfg: EngineConfig, st: EngineState, cmd: OrderCmd): (EngineState, AddResult)
    requires BookValid(st.book)
  {
    if cmd.qty <= 0 then (st, AddResult(BadInput, 0, [], 0, 0))
    else
      var id := cmd.orderId.GetOr(st.next);
      var ts := st.seqNo + 1;
      var (book, r) := if cmd.orderType == Limit then LimitOutcome(st.book, cmd, id, ts)
                       else MarketOutcome(cfg, st.book, cmd, id, ts);
      (EngineState(book, st.next + 1, ts), r)
  }

  /**
   * The limit branch of `AddOrderSpec`, once the id and the timestamp are
   * chosen: a FOK order the crossing liquidity cannot fill is killed,
   * otherwise the order is matched (and rests if GTC).
   */
  function LimitOutcome(b: BookState, cmd: OrderCmd, id: nat, ts: nat): (BookState, AddResult)
    requires BookValid(b)
  {
    if cmd.timeInForce == FOK && AvailableUpTo(cmd.side, cmd.price, BookSide(b, Opposite(cmd.side))) < cmd.qty then
      (b, AddResult(FokFail, id, [], 0, cmd.qty))
    else
      var step := AddLimit(b, Order(id, cmd.side, cmd.price, cmd.qty, 0), cmd.timeInForce, ts);
      var filled := SumTrades(step.trades);
      (step.book, AddResult(Classify(filled, cmd.qty - filled), id, step.trades, filled, cmd.qty - filled))
  }

  /**
   * The market branch of `AddOrderSpec`: a FOK order the reachable levels
   * cannot fill is killed, a GTC order is rejected unless the configuration
   * treats it as IOC, otherwise the order sweeps the opposite side and
   * reports EMPTY_BOOK when it found nothing there.
   */
  function MarketOutcome(cfg: EngineConfig, b: BookState, cmd: OrderCmd, id: nat, ts: nat): (BookState, AddResult)
    requires BookValid(b)
  {
    var maxLevels := ToInt32(cfg.marketMaxLevels);
    if cmd.timeInForce == FOK && AvailableMarket(BookSide(b, Opposite(cmd.side)), maxLevels) < cmd.qty then
      (b, AddResult(FokFail, id, [], 0, cmd.qty))
    else if cmd.timeInForce == GTC && !cfg.marketGtcAsIoc then
      (b, AddResult(Reject, id, [], 0, cmd.qty))
    else
      var step := AddMarket(b, Order(id, cmd.side, 0, cmd.qty, 0), maxLevels, ts);
      var filled := SumTrades(step.trades);
      var status := if filled == 0 && step.emptyBook then EmptyBook else Classify(filled, cmd.qty - filled);
      (step.book, AddResult(status, id, step.trades, filled, cmd.qty - filled))
  }

  /** A command without positive quantity: BAD_INPUT, id 0, nothing traded, state unchanged. */
  lemma AddOrderBadInput(cfg: EngineConfig, st: EngineState, cmd: OrderCmd)
    requires BookValid(st.book) && cmd.qty <= 0
    ensures AddOrderSpec(cfg, st, cmd) == (st, AddResult(BadInput, 0, [], 0, 0))
  {
  }

  /**
   * An accepted command (positive quantity) advances the id counter and the
   * sequence number by one each; the reported id is the command's own when
   * it has one and the counter's old value otherwise.
   */
  lemma AddOrderIds(cfg: EngineConfig, st: EngineState, cmd: OrderCmd)
    requires BookValid(st.book) && cmd.qty > 0
    ensures var (st', r) := AddOrderSpec(cfg, st, cmd);
      && st'.next == st.next + 1 && st'.seqNo == st.seqNo + 1
      && (cmd.orderId.Some? ==> r.orderId == cmd.orderId.value)
      && (cmd.orderId.None? ==> r.orderId == st.next)
  {
  }

  /**
   * Every trade of an accepted order names it as taker and carries the new
   * sequence number as timestamp; the filled quantity is the traded total
   * and the remaining quantity the rest of the command's quantity, neither
   * negative.
   */
  lemma AddOrderFills(cfg: EngineConfig, st: EngineState, cmd: OrderCmd)
    requires BookValid(st.book) && cmd.qty > 0
    ensures var (st', r) := AddOrderSpec(cfg, st, cmd);
      && TakerTrades(r.orderId, st.seqNo + 1, r.trades)
      && r.filledQty == SumTrades(r.trades)
      && r.filledQty + r.remainingQty == cmd.qty
      && 0 <= r.filledQty <= cmd.qty
  {
    var id := cmd.orderId.GetOr(st.next);
    var ts := st.seqNo + 1;
    var r := AddOrderSpec(cfg, st, cmd).1;
    if cmd.orderType == Limit {
      LimitFills(st.book, cmd, id, ts);
      assert r == LimitOutcome(st.book, cmd, id, ts).1;
    } else {
      MarketFills(cfg, st.book, cmd, id, ts);
      assert r == MarketOutcome(cfg, st.book, cmd, id, ts).1;
    }
  }

  /** `AddOrderFills` for the limit branch. */
  lemma LimitFills(b: BookState, cmd: OrderCmd, id: nat, ts: nat)
    requires BookValid(b) && cmd.qty > 0
    ensures var r := LimitOutcome(b, cmd, id, ts).1;
      && r.orderId == id
      && TakerTrades(id, ts, r.trades)
      && r.filledQty == SumTrades(r.trades)
      && r.filledQty + r.remainingQty == cmd.qty
      && 0 <= r.filledQty <= cmd.qty
  {
    var r := LimitOutcome(b, cmd, id, ts).1;
    if r.trades != [] {
      var o := Order(id, cmd.side, cmd.price, cmd.qty, 0);
      assert r.trades == AddLimit(b, o, cmd.timeInForce, ts).trades;
      AddLimitTrades(b, o, cmd.timeInForce, ts);
      AddLimitConserves(b, o, cmd.timeInForce, ts);
    }
  }

  /** `AddOrderFills` for the market branch. */
  lemma MarketFills(cfg: EngineConfig, b: BookState, cmd: OrderCmd, id: nat, ts: nat)
    requires BookValid(b) && cmd.qty > 0
    ensures var r := MarketOutcome(cfg, b, cmd, id, ts).1;
      && r.orderId == id
      && TakerTrades(id, ts, r.trades)
      && r.filledQty == SumTrades(r.trades)
      && r.filledQty + r.remainingQty == cmd.qty
      && 0 <= r.filledQty <= cmd.qty
  {
    var r := MarketOutcome(cfg, b, cmd, id, ts).1;
    if r.trades != [] {
      var o := Order(id, cmd.side, 0, cmd.qty, 0);
      var maxLevels := ToInt32(cfg.marketMaxLevels);
      assert r.trades == AddMarket(b, o, maxLevels, ts).trades;
      AddMarketTrades(b, o, maxLevels, ts);
      AddMarketOutcome(b, o, maxLevels, ts);
    }
  }

  /**
   * The status says how much was filled: FILLED exactly the whole quantity,
   * PARTIAL part of it, OK, EMPTY_BOOK, FOK_FAIL and REJECT nothing; and
   * EMPTY_BOOK only for a market order that met an empty opposite side.
   */
  lemma AddOrderStatus(cfg: EngineConfig, st: EngineState, cmd: OrderCmd)
    requires BookValid(st.book) && cmd.qty > 0
    ensures var (st', r) := AddOrderSpec(cfg, st, cmd);
      && (r.status == Filled <==> r.filledQty == cmd.qty)
      && (r.status == Partial <==> 0 < r.filledQty < cmd.qty)
      && (r.status in {OK, EmptyBook, FokFail, Reject} <==> r.filledQty == 0)
      && r.status != BadInput
      && (r.status == EmptyBook ==>
            cmd.orderType == Market && r.trades == [] && BookSide(st'.book, Opposite(cmd.side)) == [])
      && (cmd.orderType == Market && r.status !in {FokFail, Reject} ==>
            (r.status == EmptyBook <==> BookSide(st.book, Opposite(cmd.side)) == []))
      && (r.status == OK ==> cmd.orderType == Limit)
  {
    var (st', r) := AddOrderSpec(cfg, st, cmd);
    AddOrderFills(cfg, st, cmd);
    TakerTradesSum(r.orderId, st.seqNo + 1, r.trades);
    AddOrderMarketStatus(cfg, st, cmd);
  }

  /** The market-order half of AddOrderStatus: how EMPTY_BOOK arises, and that OK never does. */
  lemma AddOrderMarketStatus(cfg: EngineConfig, st: EngineState, cmd: OrderCmd)
    requires BookValid(st.book) && cmd.qty > 0
    ensures var (st', r) := AddOrderSpec(cfg, st, cmd);
      && (r.status == EmptyBook ==>
            cmd.orderType == Market && r.trades == [] && BookSide(st'.book, Opposite(cmd.side)) == [])
      && (cmd.orderType == Market && r.status !in {FokFail, Reject} ==>
            (r.status == EmptyBook <==> BookSide(st.book, Opposite(cmd.side)) == []))
      && (r.status == OK ==> cmd.orderType == Limit)
  {
    var (st', r) := AddOrderSpec(cfg, st, cmd);
    if cmd.orderType == Market {
      var id := cmd.orderId.GetOr(st.next);
      assert r == MarketOutcome(cfg, st.book, cmd, id, st.seqNo + 1).1;
      MarketEmptyBook(cfg, st.book, cmd, id, st.seqNo + 1);
      if r.status == EmptyBook {
        AddMarketOutcome(st.book, Order(id, cmd.side, 0, cmd.qty, 0), ToInt32(cfg.marketMaxLevels), st.seqNo + 1);
      }
    }
  }

  /**
   * A market order that is neither killed nor rejected ends EMPTY_BOOK
   * exactly when the opposite side is empty: otherwise its first level has
   * quantity and something fills, so a market order never ends OK.
   */
  lemma MarketEmptyBook(cfg: EngineConfig, b: BookState, cmd: OrderCmd, id: nat, ts: nat)
    requires BookValid(b) && cmd.qty > 0
    ensures var r := MarketOutcome(cfg, b, cmd, id, ts).1;
      && (r.status !in {FokFail, Reject} ==> (r.status == EmptyBook <==> BookSide(b, Opposite(cmd.side)) == []))
      && r.status != OK
  {
    var r := MarketOutcome(cfg, b, cmd, id, ts).1;
    var maxLevels := ToInt32(cfg.marketMaxLevels);
    var order := Order(id, cmd.side, 0, cmd.qty, 0);
    var levels := BookSide(b, Opposite(cmd.side));
    if r.status !in {FokFail, Reject} {
      var st := AddMarket(b, order, maxLevels, ts);
      AddMarketOutcome(b, order, maxLevels, ts);
      var reach := Min(MarketReach(maxLevels, levels), |levels|);
      if levels != [] {
        assert reach >= 1;
        assert SideLive(levels[..reach]) && levels[..reach][0] == levels[0];
        SideLiveSumPositive(levels[..reach]);
        assert SumTrades(st.trades) > 0;
      }
    }
  }

  /** FOK_FAIL and REJECT leave the book as it was and trade nothing. */
  lemma AddOrderKilledUnchanged(cfg: EngineConfig, st: EngineState, cmd: OrderCmd)
    requires BookValid(st.book) && cmd.qty > 0
    ensures var (st', r) := AddOrderSpec(cfg, st, cmd);
      r.status in {FokFail, Reject} ==> st'.book == st.book && r.trades == [] && r.remainingQty == cmd.qty
  {
    var (st', r) := AddOrderSpec(cfg, st, cmd);
    if r.status in {FokFail, Reject} {
      AddOrderFills(cfg, st, cmd);
      TakerTradesSum(r.orderId, st.seqNo + 1, r.trades);
    }
  }

  /**
   * Only a GTC limit order can rest: for any other order the own side of
   * the book and the index are untouched.
   */
  lemma AddOrderNoRest(cfg: EngineConfig, st: EngineState, cmd: OrderCmd)
    requires BookValid(st.book) && cmd.qty > 0
    requires cmd.orderType == Market || cmd.timeInForce != GTC
    ensures var st' := AddOrderSpec(cfg, st, cmd).0;
      BookSide(st'.book, cmd.side) == BookSide(st.book, cmd.side) && st'.book.index == st.book.index
  {
    var st' := AddOrderSpec(cfg, st, cmd).0;
    var id := cmd.orderId.GetOr(st.next);
    var ts := st.seqNo + 1;
    if cmd.orderType == Limit {
      var o := Order(id, cmd.side, cmd.price, cmd.qty, 0);
      if st'.book != st.book {
        assert st'.book == AddLimit(st.book, o, cmd.timeInForce, ts).book;
        AddLimitConserves(st.book, o, cmd.timeInForce, ts);
      }
    } else {
      var o := Order(id, cmd.side, 0, cmd.qty, 0);
      var maxLevels := ToInt32(cfg.marketMaxLevels);
      if st'.book != st.book {
        assert st'.book == AddMarket(st.book, o, maxLevels, ts).book;
        AddMarketOutcome(st.book, o, maxLevels, ts);
      }
    }
  }

  /**
   * Fill-or-kill is all or nothing: a FOK order is either killed
   * (FOK_FAIL, nothing traded) or filled completely.
   */
  lemma AddOrderFillOrKill(cfg: EngineConfig, st: EngineState, cmd: OrderCmd)
    requires BookValid(st.book) && cmd.qty > 0 && cmd.timeInForce == FOK
    ensures var (st', r) := AddOrderSpec(cfg, st, cmd);
      (r.status == FokFail && r.filledQty == 0) || (r.status == Filled && r.filledQty == cmd.qty)
  {
    var id := cmd.orderId.GetOr(st.next);
    var ts := st.seqNo + 1;
    var levels := BookSide(st.book, Opposite(cmd.side));
    AddOrderStatus(cfg, st, cmd);
    if cmd.orderType == Limit {
      var o := Order(id, cmd.side, cmd.price, cmd.qty, 0);
      LimitFill(o, levels, ts);
      SweepNConserves(id, cmd.qty, levels, CrossingCount(cmd.side, cmd.price, levels), ts);
    } else {
      var o := Order(id, cmd.side, 0, cmd.qty, 0);
      var maxLevels := ToInt32(cfg.marketMaxLevels);
      if AvailableMarket(levels, maxLevels) >= cmd.qty {
        MarketFill(o, levels, maxLevels, ts);
        SweepNConserves(id, cmd.qty, levels, MarketReach(maxLevels, levels), ts);
      }
    }
  }

  /** A MARKET GTC order is rejected when the configuration does not treat it as IOC. */
  lemma AddOrderMarketGtc(cfg: EngineConfig, st: EngineState, cmd: OrderCmd)
    requires BookValid(st.book) && cmd.qty > 0
    requires cmd.orderType == Market && cmd.timeInForce == GTC && !cfg.marketGtcAsIoc
    ensures AddOrderSpec(cfg, st, cmd).1.status == Reject
  {
  }

  /** Every engine step keeps the book valid (sorted sides, no empty levels, uncrossed). */
  lemma AddOrderKeepsBookValid(cfg: EngineConfig, st: EngineState, cmd: OrderCmd)
    requires BookValid(st.book)
    ensures BookValid(AddOrderSpec(cfg, st, cmd).0.book)
  {
    if cmd.qty > 0 {
      var id := cmd.orderId.GetOr(st.next);
      var ts := st.seqNo + 1;
      if cmd.orderType == Limit {
        LimitOutcomeKeepsBookValid(st.book, cmd, id, ts);
      } else {
        MarketOutcomeKeepsBookValid(cfg, st.book, cmd, id, ts);
      }
    }
  }

  lemma LimitOutcomeKeepsBookValid(b: BookState, cmd: OrderCmd, id: nat, ts: nat)
    requires BookValid(b)
    ensures BookValid(LimitOutcome(b, cmd, id, ts).0)
  {
    AddLimitKeepsBookValid(b, Order(id, cmd.side, cmd.price, cmd.qty, 0), cmd.timeInForce, ts);
  }

  lemma MarketOutcomeKeepsBookValid(cfg: EngineConfig, b: BookState, cmd: OrderCmd, id: nat, ts: nat)
    requires BookValid(b)
    ensures BookValid(MarketOutcome(cfg, b, cmd, id, ts).0)
  {
    AddMarketKeepsBookValid(b, Order(id, cmd.side, 0, cmd.qty, 0), ToInt32(cfg.marketMaxLevels), ts);
  }

  /** The engine object: its configuration, its book, the id counter and the sequence number. */
  class EngineSingleThreaded {
    const config: EngineConfig
    const ob: OrderBook
    var next: nat
    var seqNo: nat

    function State(): EngineState
      reads this, ob
    {
      EngineState(ob.State(), next, seqNo)
    }

    ghost predicate Valid()
      reads this, ob
    {
      ob.Valid()
    }

    constructor(config: EngineConfig)
      ensures this.config == config && State() == InitialState && Valid()
      ensures fresh(ob)
    {
      this.config := config;
      ob := new OrderBook();
      next := 1000;
      seqNo := 0;
    }

    /** The summed quantity of a list of trades, as the engine totals fills. */
    static method FilledQty(trades: seq<Trade>) returns (filled: int)
      ensures filled == SumTrades(trades)
    {
      filled := 0;
      var i := 0;
      while i < |trades|
        invariant 0 <= i <= |trades|
        invariant filled == SumTrades(trades[..i])
      {
        assert trades[..i + 1] == trades[..i] + [trades[i]];
        SumTradesAppend(trades[..i], [trades[i]]);
        assert [trades[i]][1..] == [];
        filled := filled + trades[i].qty;
        i := i + 1;
      }
      assert trades[..i] == trades;
    }

    method AddOrder(cmd: OrderCmd) returns (r: AddResult)
      requires Valid()
      modifies this, ob
      ensures Valid()
      ensures (State(), r) == AddOrderSpec(config, old(State()), cmd)
    {
      if cmd.qty <= 0 {
        return AddResult(BadInput, 0, [], 0, 0);
      }
      var orderId := cmd.orderId.GetOr(next);
      next := next + 1;
      seqNo := seqNo + 1;
      var timestamp := seqNo;
      if cmd.orderType == Limit {
        r := AddLimitOrder(cmd, orderId, timestamp);
      } else {
        r := AddMarketOrder(cmd, orderId, timestamp);
      }
    }

    /** The limit branch of `AddOrder`. */
    method AddLimitOrder(cmd: OrderCmd, orderId: nat, timestamp: nat) returns (r: AddResult)
      requires ob.Valid()
      modifies ob
      ensures ob.Valid()
      ensures (ob.State(), r) == LimitOutcome(old(ob.State()), cmd, orderId, timestamp)
    {
      if cmd.timeInForce == FOK {
        var available := AvailableForLimit(cmd.side, cmd.price);
        if available < cmd.qty {
          return AddResult(FokFail, orderId, [], 0, cmd.qty);
        }
      }
      ghost var b := ob.State();
      var trades := ob.AddLimit(Order(orderId, cmd.side, cmd.price, cmd.qty, 0), cmd.timeInForce, timestamp);
      var filled := FilledQty(trades);
      var status := Classify(filled, cmd.qty - filled);
      r := AddResult(status, orderId, trades, filled, cmd.qty - filled);
      assert (ob.State(), r) == LimitOutcome(b, cmd, orderId, timestamp);
    }

    /** The fill-or-kill probe of a limit order: the opposite quantity at or through `price`. */
    method AvailableForLimit(side: Side, price: int) returns (available: int)
      requires ob.Valid()
      ensures available == AvailableUpTo(side, price, BookSide(ob.State(), Opposite(side)))
    {
      if side == Buy {
        available := ob.AvailableToBuyUpTo(price);
      } else {
        available := ob.AvailableToSellDownTo(price);
      }
    }

    /** The market branch of `AddOrder`. */
    method AddMarketOrder(cmd: OrderCmd, orderId: nat, timestamp: nat) returns (r: AddResult)
      requires ob.Valid()
      modifies ob
      ensures ob.Valid()
      ensures (ob.State(), r) == MarketOutcome(config, old(ob.State()), cmd, orderId, timestamp)
    {
      var maxLevels := ToInt32(config.marketMaxLevels);
      if cmd.timeInForce == FOK {
        var available := ob.AvailableMarket(cmd.side, maxLevels);
        if available < cmd.qty {
          return AddResult(FokFail, orderId, [], 0, cmd.qty);
        }
      }
      if cmd.timeInForce == GTC && !config.marketGtcAsIoc {
        return AddResult(Reject, orderId, [], 0, cmd.qty);
      }
      var trades, emptyBook := ob.AddMarket(Order(orderId, cmd.side, 0, cmd.qty, 0), cmd.timeInForce, timestamp, maxLevels);
      var filled := FilledQty(trades);
      var status;
      if filled == 0 && emptyBook {
        status := EmptyBook;
      } else {
        status := Classify(filled, cmd.qty - filled);
      }
      r := AddResult(status, orderId, trades, filled, cmd.qty - filled);
    }

    method CancelOrder(id: nat) returns (ok: bool)
      requires Valid()
      modifies ob
      ensures Valid()
      ensures State() == old(State()).(book := Cancel(old(State()).book, id).0)
      ensures ok == Cancel(old(State()).book, id).1
    {
      ok := ob.Cancel(id);
    }

    method Snapshot(depth: int := 5) returns (snap: EngineTypes.Snapshot)
      ensures snap == SnapshotOf(State().book, depth)
    {
      snap := ob.Snapshot(depth);
    }
  }
}
