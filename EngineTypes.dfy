/**
 * Value types of the matching engine: the enums, the order command, the
 * resting order, the trade, the snapshot and the result of adding an order,
 * with the defaults the engine header gives them.
 *
 * Prices and quantities are signed 64-bit integers in the engine and ids are
 * unsigned 64-bit integers; here they are unbounded (`int` and `nat`).
 */
module EngineTypes {

  datatype Option<T> = None | Some(value: T) {
    /** `std::optional::value_or`: the held value, or the fallback. */
    function GetOr(fallback: T): (r: T)
      ensures Some? ==> r == value
      ensures None? ==> r == fallback
    {
      match this
      case Some(v) => v
      case None => fallback
    }
  }

  datatype Side = Buy | Sell
  datatype OrderType = Limit | Market
  /** Good-til-cancelled, immediate-or-cancel, fill-or-kill. */
  datatype TimeInForce = GTC | IOC | FOK
  datatype OrderStatus = OK | Partial | Filled | Reject | FokFail | EmptyBook | BadInput

  /** A request to add an order. `timestamp` is carried but not read by the engine. */
  datatype OrderCmd = OrderCmd(
    orderId: Option<nat>,
    side: Side,
    orderType: OrderType,
    timeInForce: TimeInForce,
    price: int,
    qty: int,
    timestamp: nat)

  /** An order as it rests in the book. */
  datatype Order = Order(id: nat, side: Side, price: int, qty: int, seqNum: nat)

  datatype Trade = Trade(taker: nat, maker: nat, price: int, qty: int, timestamp: nat)

  datatype SnapshotLevel = SnapshotLevel(price: int, qty: int)

  /** Bids best (highest) first, asks best (lowest) first. */
  datatype Snapshot = Snapshot(bids: seq<SnapshotLevel>, asks: seq<SnapshotLevel>)

  datatype AddResult = AddResult(
    status: OrderStatus,
    orderId: nat,
    trades: seq<Trade>,
    filledQty: int,
    remainingQty: int)

  /**
   * `marketGtcAsIoc`: a MARKET order with GTC is treated as IOC when true and
   * rejected when false. `marketMaxLevels`: how many price levels a market
   * order may sweep (0: no limit).
   */
  datatype EngineConfig = EngineConfig(marketGtcAsIoc: bool, marketMaxLevels: nat)

  /** A default-constructed order command. */
  const DefaultOrderCmd: OrderCmd := OrderCmd(None, Buy, Limit, GTC, 0, 0, 0)

  /** A default-constructed engine configuration. */
  const DefaultConfig: EngineConfig := EngineConfig(true, 0)

  function Opposite(s: Side): (o: Side)
    ensures o != s
  {
    if s == Buy then Sell else Buy
  }

  /** The summed quantity of a list of trades. */
  function SumTrades(ts: seq<Trade>): int
  {
    if ts == [] then 0 else ts[0].qty + SumTrades(ts[1..])
  }

  lemma {:induction false} SumTradesAppend(a: seq<Trade>, b: seq<Trade>)
    ensures SumTrades(a + b) == SumTrades(a) + SumTrades(b)
  {
    if a == [] {
      assert a + b == b;
    } else {
      assert (a + b)[1..] == a[1..] + b;
      SumTradesAppend(a[1..], b);
    }
  }

  /** The defaults of a fresh order command and of a fresh configuration. */
  lemma DefaultsOfHeader()
    ensures DefaultOrderCmd.orderId.None? && DefaultOrderCmd.side == Buy
    ensures DefaultOrderCmd.orderType == Limit && DefaultOrderCmd.timeInForce == GTC
    ensures DefaultOrderCmd.price == 0 && DefaultOrderCmd.qty == 0 && DefaultOrderCmd.timestamp == 0
    ensures DefaultConfig.marketGtcAsIoc && DefaultConfig.marketMaxLevels == 0
  {
  }
}
