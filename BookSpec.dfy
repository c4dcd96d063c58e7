/**
 * The order book as values: a side is a sequence of price levels, best
 * first; a level is a FIFO queue of resting orders. Matching, resting,
 * cancelling and snapshots are functions of the book, and the lemmas state
 * what the matching engine promises about them.
 */
module BookSpec {
  import opened EngineTypes
  import opened Arith

  datatype Level = Level(price: int, orders: seq<Order>)

  /** Bids (best = highest first), asks (best = lowest first), id -> (side, price). */
  datatype BookState = BookState(bids: seq<Level>, asks: seq<Level>, index: map<nat, (Side, int)>)

  /** What is left of a taker and of one level after matching it. */
  datatype LevelMatch = LevelMatch(remaining: int, rest: seq<Order>, trades: seq<Trade>)

  /** What is left of a taker and of one side of the book after matching it. */
  datatype SideMatch = SideMatch(remaining: int, levels: seq<Level>, trades: seq<Trade>)

  /** A book after an add: its new state, the trades, and whether the opposite side ended empty. */
  datatype Step = Step(book: BookState, trades: seq<Trade>, emptyBook: bool)

  const EmptyBookState := BookState([], [], map[])

  // ---------------------------------------------------------------- sums

  function SumOrders(q: seq<Order>): int
  {
    if q == [] then 0 else q[0].qty + SumOrders(q[1..])
  }

  function SumLevels(ls: seq<Level>): int
  {
    if ls == [] then 0 else SumOrders(ls[0].orders) + SumLevels(ls[1..])
  }

  lemma {:induction false} SumOrdersAppend(a: seq<Order>, b: seq<Order>)
    ensures SumOrders(a + b) == SumOrders(a) + SumOrders(b)
  {
    if a == [] {
      assert a + b == b;
    } else {
      assert (a + b)[1..] == a[1..] + b;
      SumOrdersAppend(a[1..], b);
    }
  }

  lemma {:induction false} SumLevelsAppend(a: seq<Level>, b: seq<Level>)
    ensures SumLevels(a + b) == SumLevels(a) + SumLevels(b)
  {
    if a == [] {
      assert a + b == b;
    } else {
      assert (a + b)[1..] == a[1..] + b;
      SumLevelsAppend(a[1..], b);
    }
  }

  // ---------------------------------------------------------------- shape

  /** Every order in a queue has a positive quantity. */
  predicate LiveOrders(q: seq<Order>)
  {
    forall i :: 0 <= i < |q| ==> q[i].qty > 0
  }

  /** No level is empty and every resting order has a positive quantity. */
  predicate SideLive(ls: seq<Level>)
  {
    forall i :: 0 <= i < |ls| ==> ls[i].orders != [] && LiveOrders(ls[i].orders)
  }

  /**
   * `Better(s, p, q)`: on the side of the book holding orders of side `s`,
   * a level at `p` comes before a level at `q` (bids descend, asks ascend).
   */
  predicate Better(s: Side, p: int, q: int)
  {
    if s == Buy then p > q else p < q
  }

  /** Levels of side `s` are in strict priority order (so prices are distinct). */
  predicate Ordered(s: Side, ls: seq<Level>)
  {
    forall i, j :: 0 <= i < j < |ls| ==> Better(s, ls[i].price, ls[j].price)
  }

  /** The best bid is below the best ask. */
  predicate Uncrossed(bids: seq<Level>, asks: seq<Level>)
  {
    bids == [] || asks == [] || bids[0].price < asks[0].price
  }

  predicate BookValid(b: BookState)
  {
    && Ordered(Buy, b.bids) && Ordered(Sell, b.asks)
    && SideLive(b.bids) && SideLive(b.asks)
    && Uncrossed(b.bids, b.asks)
  }

  function BookSide(b: BookState, s: Side): seq<Level>
  {
    if s == Buy then b.bids else b.asks
  }

  function WithSide(b: BookState, s: Side, ls: seq<Level>): BookState
  {
    if s == Buy then b.(bids := ls) else b.(asks := ls)
  }

  /**
   * `rest` is what a sweep leaves of `levels`: a suffix of it, except that
   * its first level may have lost orders or quantity (same price).
   */
  predicate SweptFrom(levels: seq<Level>, rest: seq<Level>)
  {
    && |rest| <= |levels|
    && (rest != [] ==>
          && rest[0].price == levels[|levels| - |rest|].price
          && rest[1..] == levels[|levels| - |rest| + 1..])
  }

  // ---------------------------------------------------------------- matching

  /**
   * Matching a taker of quantity `qty` against one FIFO level at price `px`:
   * the front maker trades min(taker, maker) and leaves the queue when its
   * quantity reaches zero; this repeats until the taker or the level is done.
   */
  function MatchLevel(takerId: nat, qty: int, q: seq<Order>, px: int, ts: nat): (m: LevelMatch)
    requires LiveOrders(q)
    ensures LiveOrders(m.rest) && |m.rest| <= |q|
    ensures m.remaining + SumTrades(m.trades) == qty
    ensures SumOrders(m.rest) + SumTrades(m.trades) == SumOrders(q)
    ensures qty > 0 ==> 0 <= m.remaining && (m.remaining == 0 || m.rest == [])
    ensures qty <= 0 ==> m == LevelMatch(qty, q, [])
    decreases |q|
  {
    if qty <= 0 || q == [] then LevelMatch(qty, q, [])
    else
      var top := q[0];
      var t := Min(qty, top.qty);
      var tr := Trade(takerId, top.id, px, t, ts);
      if top.qty - t == 0 then
        var m := MatchLevel(takerId, qty - t, q[1..], px, ts);
        LevelMatch(m.remaining, m.rest, [tr] + m.trades)
      else
        LevelMatch(qty - t, [top.(qty := top.qty - t)] + q[1..], [tr])
  }

  /**
   * Sweeping at most `n` levels from the front of one side: each level is
   * matched in turn; an emptied level is removed and the sweep goes on, a
   * level left non-empty (the taker is filled) stays and the sweep stops.
   */
  function SweepN(takerId: nat, qty: int, levels: seq<Level>, n: nat, ts: nat): SideMatch
    requires SideLive(levels)
    decreases n
  {
    if qty <= 0 || n == 0 || levels == [] then SideMatch(qty, levels, [])
    else
      var lm := MatchLevel(takerId, qty, levels[0].orders, levels[0].price, ts);
      if lm.rest == [] then
        var r := SweepN(takerId, lm.remaining, levels[1..], n - 1, ts);
        SideMatch(r.remaining, r.levels, lm.trades + r.trades)
      else
        SideMatch(lm.remaining, [levels[0].(orders := lm.rest)] + levels[1..], lm.trades)
  }

  /** A sweep leaves a live side that is what remains of the swept one. */
  lemma {:induction false} SweepNShape(takerId: nat, qty: int, levels: seq<Level>, n: nat, ts: nat)
    requires SideLive(levels)
    ensures SideLive(SweepN(takerId, qty, levels, n, ts).levels)
    ensures SweptFrom(levels, SweepN(takerId, qty, levels, n, ts).levels)
    decreases n
  {
    if !(qty <= 0 || n == 0 || levels == []) {
      var lm := MatchLevel(takerId, qty, levels[0].orders, levels[0].price, ts);
      if lm.rest == [] {
        SweepNShape(takerId, lm.remaining, levels[1..], n - 1, ts);
      } else {
        var ls := [levels[0].(orders := lm.rest)] + levels[1..];
        assert ls[1..] == levels[1..];
      }
    }
  }

  /**
   * A sweep conserves quantity: the taker's remainder plus what it traded
   * is its quantity, and what stays in the levels plus what traded is what
   * was there.
   */
  lemma {:induction false} SweepNConserves(takerId: nat, qty: int, levels: seq<Level>, n: nat, ts: nat)
    requires SideLive(levels)
    ensures SweepN(takerId, qty, levels, n, ts).remaining + SumTrades(SweepN(takerId, qty, levels, n, ts).trades) == qty
    ensures SumLevels(SweepN(takerId, qty, levels, n, ts).levels) + SumTrades(SweepN(takerId, qty, levels, n, ts).trades)
            == SumLevels(levels)
    decreases n
  {
    if !(qty <= 0 || n == 0 || levels == []) {
      var lm := MatchLevel(takerId, qty, levels[0].orders, levels[0].price, ts);
      if lm.rest == [] {
        SweepNConserves(takerId, lm.remaining, levels[1..], n - 1, ts);
        var r := SweepN(takerId, lm.remaining, levels[1..], n - 1, ts);
        SumTradesAppend(lm.trades, r.trades);
      } else {
        var ls := [levels[0].(orders := lm.rest)] + levels[1..];
        assert ls[1..] == levels[1..];
      }
    }
  }

  /** Both facts about a sweep together. */
  lemma SweepNFacts(takerId: nat, qty: int, levels: seq<Level>, n: nat, ts: nat)
    requires SideLive(levels)
    ensures var m := SweepN(takerId, qty, levels, n, ts);
      && SideLive(m.levels) && SweptFrom(levels, m.levels)
      && m.remaining + SumTrades(m.trades) == qty
      && SumLevels(m.levels) + SumTrades(m.trades) == SumLevels(levels)
  {
    SweepNShape(takerId, qty, levels, n, ts);
    SweepNConserves(takerId, qty, levels, n, ts);
  }

  // ---------------------------------------------------------------- matching lemmas

  lemma {:induction false} LiveOrdersSumPositive(q: seq<Order>)
    requires LiveOrders(q)
    ensures SumOrders(q) >= 0
    ensures q != [] ==> SumOrders(q) > 0
    decreases |q|
  {
    if q != [] {
      LiveOrdersSumPositive(q[1..]);
    }
  }

  lemma {:induction false} SideLiveSumPositive(ls: seq<Level>)
    requires SideLive(ls)
    ensures SumLevels(ls) >= 0
    ensures ls != [] ==> SumLevels(ls) >= SumOrders(ls[0].orders) > 0
    decreases |ls|
  {
    if ls != [] {
      LiveOrdersSumPositive(ls[0].orders);
      SideLiveSumPositive(ls[1..]);
    }
  }

  /**
   * Time priority within a level: the i-th trade is with the i-th maker in
   * queue order, for min(what the taker still wants, the maker's quantity),
   * at the level's price.
   */
  lemma {:induction false} MatchLevelFifo(takerId: nat, qty: int, q: seq<Order>, px: int, ts: nat)
    requires LiveOrders(q) && qty > 0
    ensures FifoTrades(takerId, qty, q, px, ts, MatchLevel(takerId, qty, q, px, ts).trades)
    decreases |q|
  {
    var m := MatchLevel(takerId, qty, q, px, ts);
    if q != [] {
      var top := q[0];
      var t := Min(qty, top.qty);
      var tr := Trade(takerId, top.id, px, t, ts);
      if top.qty - t == 0 && qty - t > 0 {
        var r := MatchLevel(takerId, qty - t, q[1..], px, ts);
        assert m.trades == [tr] + r.trades;
        MatchLevelFifo(takerId, qty - t, q[1..], px, ts);
        FifoCons(takerId, qty, q, px, ts, r.trades);
      } else {
        assert m.trades == [tr];
        assert m.trades[..0] == [];
      }
    }
  }

  /** The trades a level match produces, as time priority dictates (see MatchLevelFifo). */
  predicate FifoTrades(takerId: nat, qty: int, q: seq<Order>, px: int, ts: nat, trades: seq<Trade>)
  {
    && |trades| <= |q|
    && forall i :: 0 <= i < |trades| ==>
         trades[i] == Trade(takerId, q[i].id, px, Min(qty - SumTrades(trades[..i]), q[i].qty), ts)
  }

  lemma FifoCons(takerId: nat, qty: int, q: seq<Order>, px: int, ts: nat, rt: seq<Trade>)
    requires q != [] && q[0].qty < qty
    requires FifoTrades(takerId, qty - q[0].qty, q[1..], px, ts, rt)
    ensures FifoTrades(takerId, qty, q, px, ts, [Trade(takerId, q[0].id, px, q[0].qty, ts)] + rt)
  {
    var tr := Trade(takerId, q[0].id, px, q[0].qty, ts);
    var all := [tr] + rt;
    forall i | 0 <= i < |all|
      ensures all[i] == Trade(takerId, q[i].id, px, Min(qty - SumTrades(all[..i]), q[i].qty), ts)
    {
      if i == 0 {
        assert all[..i] == [];
      } else {
        assert all[..i] == [tr] + rt[..i - 1];
        SumTradesAppend([tr], rt[..i - 1]);
        assert SumTrades([tr]) == q[0].qty;
        assert all[i] == rt[i - 1];
        assert q[1..][i - 1] == q[i];
      }
    }
  }

  /**
   * A maker leaves the queue exactly when its quantity reaches zero: after
   * k trades the queue is the untouched makers from the k-th on, preceded by
   * the last maker traded with if it was only partly filled.
   */
  lemma {:induction false} MatchLevelRest(takerId: nat, qty: int, q: seq<Order>, px: int, ts: nat)
    requires LiveOrders(q) && qty > 0
    ensures var m := MatchLevel(takerId, qty, q, px, ts);
      var k := |m.trades|;
      && k <= |q|
      && m.rest == if k > 0 && m.trades[k - 1].qty < q[k - 1].qty
                   then [q[k - 1].(qty := q[k - 1].qty - m.trades[k - 1].qty)] + q[k..]
                   else q[k..]
    decreases |q|, 1
  {
    if q != [] {
      var m := MatchLevel(takerId, qty, q, px, ts);
      var top := q[0];
      var t := Min(qty, top.qty);
      var tr := Trade(takerId, top.id, px, t, ts);
      if top.qty - t != 0 {
        assert m.trades == [tr] && m.rest == [top.(qty := top.qty - t)] + q[1..];
      } else if qty - t <= 0 {
        assert m.trades == [tr] && m.rest == q[1..];
      } else {
        MatchLevelRestTail(takerId, qty, q, px, ts);
      }
    }
  }

  /** The inductive step of `MatchLevelRest`: the first maker is used up and the taker goes on. */
  lemma {:induction false} MatchLevelRestTail(takerId: nat, qty: int, q: seq<Order>, px: int, ts: nat)
    requires LiveOrders(q) && q != [] && q[0].qty < qty
    ensures var m := MatchLevel(takerId, qty, q, px, ts);
      var k := |m.trades|;
      && k <= |q|
      && m.rest == if k > 0 && m.trades[k - 1].qty < q[k - 1].qty
                   then [q[k - 1].(qty := q[k - 1].qty - m.trades[k - 1].qty)] + q[k..]
                   else q[k..]
    decreases |q|, 0
  {
    var m := MatchLevel(takerId, qty, q, px, ts);
    var t := q[0].qty;
    var tr := Trade(takerId, q[0].id, px, t, ts);
    var r := MatchLevel(takerId, qty - t, q[1..], px, ts);
    assert m.trades == [tr] + r.trades && m.rest == r.rest;
    MatchLevelRest(takerId, qty - t, q[1..], px, ts);
    var q' := q[1..];
    var j := |r.trades|;
    assert |m.trades| == j + 1;
    if j == 0 {
      assert r.rest == q';
      assert m.trades[0].qty == q[0].qty;
      assert q[1..] == q';
    } else {
      var last := r.trades[j - 1];
      assert m.trades[j] == last;
      assert q'[j - 1] == q[j];
      assert q'[j..] == q[j + 1..];
      if last.qty < q'[j - 1].qty {
        assert r.rest == [q'[j - 1].(qty := q'[j - 1].qty - last.qty)] + q'[j..];
      } else {
        assert r.rest == q'[j..];
      }
    }
  }

  /** Every trade names the taker and the time stamp and has a positive quantity. */
  predicate TakerTrades(takerId: nat, ts: nat, trades: seq<Trade>)
  {
    forall k :: 0 <= k < |trades| ==>
      trades[k].taker == takerId && trades[k].timestamp == ts && trades[k].qty > 0
  }

  /** Trades that all have positive quantity sum to a positive total unless there are none. */
  lemma {:induction false} TakerTradesSum(takerId: nat, ts: nat, trades: seq<Trade>)
    requires TakerTrades(takerId, ts, trades)
    ensures SumTrades(trades) >= 0
    ensures trades != [] <==> SumTrades(trades) > 0
  {
    if trades != [] {
      TakerTradesSum(takerId, ts, trades[1..]);
    }
  }

  /** Every trade executes at price `px`. */
  predicate AllAtPrice(px: int, trades: seq<Trade>)
  {
    forall k :: 0 <= k < |trades| ==> trades[k].price == px
  }

  /** Every trade of a level match names the taker, is positive and is at the level's price. */
  lemma {:induction false} MatchLevelTrades(takerId: nat, qty: int, q: seq<Order>, px: int, ts: nat)
    requires LiveOrders(q)
    ensures TakerTrades(takerId, ts, MatchLevel(takerId, qty, q, px, ts).trades)
    ensures AllAtPrice(px, MatchLevel(takerId, qty, q, px, ts).trades)
    decreases |q|
  {
    var m := MatchLevel(takerId, qty, q, px, ts);
    if qty > 0 && q != [] {
      var t := Min(qty, q[0].qty);
      var tr := Trade(takerId, q[0].id, px, t, ts);
      if q[0].qty - t == 0 {
        var r := MatchLevel(takerId, qty - t, q[1..], px, ts);
        MatchLevelTrades(takerId, qty - t, q[1..], px, ts);
        assert m.trades == [tr] + r.trades;
        assert q[0].qty > 0;
      } else {
        assert m.trades == [tr];
      }
    }
  }

  /**
   * Quantity conservation across levels: the taker is filled up to the
   * quantity resting on the first `n` levels, and no further.
   */
  lemma {:induction false} SweepRemaining(takerId: nat, qty: int, levels: seq<Level>, n: nat, ts: nat)
    requires SideLive(levels) && qty > 0
    ensures SweepN(takerId, qty, levels, n, ts).remaining == Max(0, qty - SumLevels(levels[..Min(n, |levels|)]))
    decreases n
  {
    var k := Min(n, |levels|);
    if n == 0 || levels == [] {
      assert levels[..k] == [];
    } else {
      var lm := MatchLevel(takerId, qty, levels[0].orders, levels[0].price, ts);
      assert levels[..k] == [levels[0]] + levels[1..][..k - 1];
      SumLevelsAppend([levels[0]], levels[1..][..k - 1]);
      assert SideLive(levels[1..][..k - 1]);
      SideLiveSumPositive(levels[1..][..k - 1]);
      if lm.rest == [] {
        if lm.remaining > 0 {
          SweepRemaining(takerId, lm.remaining, levels[1..], n - 1, ts);
        }
      } else {
        LiveOrdersSumPositive(lm.rest);
      }
    }
  }

  /** Every trade executes at the price of one of the first `bound` levels. */
  predicate PricedFrom(levels: seq<Level>, bound: int, trades: seq<Trade>)
  {
    forall k :: 0 <= k < |trades| ==>
      exists i :: 0 <= i < bound && i < |levels| && trades[k].price == levels[i].price
  }

  lemma PricedFromWitness(levels: seq<Level>, bound: int, trades: seq<Trade>, k: int) returns (i: int)
    requires PricedFrom(levels, bound, trades) && 0 <= k < |trades|
    ensures 0 <= i < bound && i < |levels| && trades[k].price == levels[i].price
  {
    var t := trades[k];
    assert exists j :: 0 <= j < bound && j < |levels| && t.price == levels[j].price;
    i :| 0 <= i < bound && i < |levels| && trades[k].price == levels[i].price;
  }

  /** The trades are in priority order for the resting side `s`: never a better price after a worse one. */
  predicate InPriceOrder(s: Side, trades: seq<Trade>)
  {
    forall a, b :: 0 <= a < b < |trades| ==>
      trades[a].price == trades[b].price || Better(s, trades[a].price, trades[b].price)
  }

  lemma PricedFromCons(levels: seq<Level>, bound: int, a: seq<Trade>, b: seq<Trade>)
    requires levels != [] && bound >= 1
    requires AllAtPrice(levels[0].price, a) && PricedFrom(levels[1..], bound - 1, b)
    ensures PricedFrom(levels, bound, a + b)
  {
    var ab := a + b;
    forall k | 0 <= k < |ab|
      ensures exists i :: 0 <= i < bound && i < |levels| && ab[k].price == levels[i].price
    {
      if k < |a| {
        assert ab[k] == a[k] && ab[k].price == levels[0].price;
      } else {
        assert ab[k] == b[k - |a|];
        var i := PricedFromWitness(levels[1..], bound - 1, b, k - |a|);
        assert levels[1..][i] == levels[i + 1];
      }
    }
  }

  lemma InPriceOrderCons(s: Side, levels: seq<Level>, bound: int, a: seq<Trade>, b: seq<Trade>)
    requires levels != [] && Ordered(s, levels)
    requires AllAtPrice(levels[0].price, a) && PricedFrom(levels[1..], bound, b) && InPriceOrder(s, b)
    ensures InPriceOrder(s, a + b)
  {
    var ab := a + b;
    forall x, y | 0 <= x < y < |ab|
      ensures ab[x].price == ab[y].price || Better(s, ab[x].price, ab[y].price)
    {
      if y >= |a| {
        assert ab[y] == b[y - |a|];
        if x < |a| {
          assert ab[x] == a[x];
          var i := PricedFromWitness(levels[1..], bound, b, y - |a|);
          assert levels[1..][i] == levels[i + 1];
        } else {
          assert ab[x] == b[x - |a|];
        }
      } else {
        assert ab[x] == a[x] && ab[y] == a[y];
      }
    }
  }

  /**
   * Price priority across levels: every trade names the taker, is positive,
   * and executes at the price of one of the first `n` levels, one that the
   * sweep reached (its index is at most the number of levels removed).
   */
  lemma {:induction false} SweepTrades(takerId: nat, qty: int, levels: seq<Level>, n: nat, ts: nat)
    requires SideLive(levels)
    ensures TakerTrades(takerId, ts, SweepN(takerId, qty, levels, n, ts).trades)
    ensures PricedFrom(levels, Min(n, |levels| - |SweepN(takerId, qty, levels, n, ts).levels| + 1),
                       SweepN(takerId, qty, levels, n, ts).trades)
    decreases n
  {
    var m := SweepN(takerId, qty, levels, n, ts);
    if !(qty <= 0 || n == 0 || levels == []) {
      var lm := MatchLevel(takerId, qty, levels[0].orders, levels[0].price, ts);
      MatchLevelTrades(takerId, qty, levels[0].orders, levels[0].price, ts);
      if lm.rest == [] {
        var r := SweepN(takerId, lm.remaining, levels[1..], n - 1, ts);
        SweepTrades(takerId, lm.remaining, levels[1..], n - 1, ts);
        SweepNShape(takerId, lm.remaining, levels[1..], n - 1, ts);
        assert m.trades == lm.trades + r.trades && m.levels == r.levels;
        PricedFromCons(levels, Min(n, |levels| - |m.levels| + 1), lm.trades, r.trades);
      } else {
        assert m.trades == lm.trades;
        assert PricedFrom(levels, Min(n, |levels| - |m.levels| + 1), m.trades) by {
          forall k | 0 <= k < |m.trades| ensures m.trades[k].price == levels[0].price { }
        }
      }
    }
  }

  lemma FrontLevelTrades(takerId: nat, qty: int, levels: seq<Level>, ts: nat)
    requires levels != [] && SideLive(levels)
    ensures AllAtPrice(levels[0].price, MatchLevel(takerId, qty, levels[0].orders, levels[0].price, ts).trades)
  {
    MatchLevelTrades(takerId, qty, levels[0].orders, levels[0].price, ts);
  }

  lemma OrderedTail(s: Side, levels: seq<Level>)
    requires levels != [] && Ordered(s, levels)
    ensures Ordered(s, levels[1..])
  {
    forall i, j | 0 <= i < j < |levels| - 1
      ensures Better(s, levels[1..][i].price, levels[1..][j].price)
    {
      assert levels[1..][i] == levels[i + 1] && levels[1..][j] == levels[j + 1];
    }
  }

  /**
   * Price priority in time: trades come best price first, i.e. the price of
   * every trade is at least as good (for the resting side `s`) as the price
   * of every later trade.
   */
  lemma {:induction false} SweepPriceOrder(s: Side, takerId: nat, qty: int, levels: seq<Level>, n: nat, ts: nat)
    requires SideLive(levels) && Ordered(s, levels)
    ensures InPriceOrder(s, SweepN(takerId, qty, levels, n, ts).trades)
    decreases n
  {
    if !(qty <= 0 || n == 0 || levels == []) {
      var lm := MatchLevel(takerId, qty, levels[0].orders, levels[0].price, ts);
      if lm.rest == [] {
        var tail := levels[1..];
        var r := SweepN(takerId, lm.remaining, tail, n - 1, ts);
        assert SideLive(tail);
        OrderedTail(s, levels);
        assert PricedFrom(tail, Min(n - 1, |tail| - |r.levels| + 1), r.trades) by {
          SweepTrades(takerId, lm.remaining, tail, n - 1, ts);
        }
        assert InPriceOrder(s, r.trades) by {
          SweepPriceOrder(s, takerId, lm.remaining, tail, n - 1, ts);
        }
        FrontLevelTrades(takerId, qty, levels, ts);
        InPriceOrderCons(s, levels, Min(n - 1, |tail| - |r.levels| + 1), lm.trades, r.trades);
        assert SweepN(takerId, qty, levels, n, ts).trades == lm.trades + r.trades;
      } else {
        assert SweepN(takerId, qty, levels, n, ts).trades == lm.trades;
        FrontLevelTrades(takerId, qty, levels, ts);
        InPriceOrderCons(s, levels, 0, lm.trades, []);
        assert lm.trades + [] == lm.trades;
      }
    }
  }

  /** No level left after a sweep is better than the price of any trade the sweep made. */
  lemma {:induction false} SweepLeavesNothingBetter(s: Side, takerId: nat, qty: int, levels: seq<Level>, n: nat, ts: nat)
    requires SideLive(levels) && Ordered(s, levels)
    ensures var m := SweepN(takerId, qty, levels, n, ts);
      forall k, j :: 0 <= k < |m.trades| && 0 <= j < |m.levels| ==>
        m.levels[j].price == m.trades[k].price || Better(s, m.trades[k].price, m.levels[j].price)
  {
    var m := SweepN(takerId, qty, levels, n, ts);
    SweepTrades(takerId, qty, levels, n, ts);
    SweepNShape(takerId, qty, levels, n, ts);
    NothingBetterLeft(s, levels, m.levels, Min(n, |levels| - |m.levels| + 1), m.trades);
  }

  /**
   * When `rest` is what is left of an ordered side after its front was
   * taken, trades priced from the first levels up to the new front are
   * never worse than a level that is left.
   */
  lemma NothingBetterLeft(s: Side, levels: seq<Level>, rest: seq<Level>, bound: int, trades: seq<Trade>)
    requires Ordered(s, levels) && SweptFrom(levels, rest)
    requires PricedFrom(levels, bound, trades) && bound <= |levels| - |rest| + 1
    ensures forall k, j :: 0 <= k < |trades| && 0 <= j < |rest| ==>
      rest[j].price == trades[k].price || Better(s, trades[k].price, rest[j].price)
  {
    var d := |levels| - |rest|;
    forall k, j | 0 <= k < |trades| && 0 <= j < |rest|
      ensures rest[j].price == trades[k].price || Better(s, trades[k].price, rest[j].price)
    {
      var i := PricedFromWitness(levels, bound, trades, k);
      if j == 0 {
        assert rest[0].price == levels[d].price;
      } else {
        assert rest[j] == rest[1..][j - 1] == levels[d + j];
      }
    }
  }

  /** A sweep that leaves the taker unfilled has consumed every level it was allowed to reach. */
  lemma {:induction false} SweepExhausted(takerId: nat, qty: int, levels: seq<Level>, n: nat, ts: nat)
    requires SideLive(levels) && qty > 0
    ensures var m := SweepN(takerId, qty, levels, n, ts);
      m.remaining > 0 ==> m.levels == levels[Min(n, |levels|)..]
    decreases n
  {
    if n > 0 && levels != [] {
      var lm := MatchLevel(takerId, qty, levels[0].orders, levels[0].price, ts);
      if lm.rest == [] && lm.remaining > 0 {
        SweepExhausted(takerId, lm.remaining, levels[1..], n - 1, ts);
        assert levels[1..][Min(n - 1, |levels| - 1)..] == levels[Min(n, |levels|)..];
      }
    }
  }

  /** What survives a sweep keeps the side's price order, and is no better than the old best level. */
  lemma SweptOrdered(s: Side, levels: seq<Level>, rest: seq<Level>)
    requires Ordered(s, levels) && SweptFrom(levels, rest)
    ensures Ordered(s, rest)
    ensures rest != [] ==> rest[0].price == levels[0].price || Better(s, levels[0].price, rest[0].price)
  {
    var d := |levels| - |rest|;
    forall j | 0 <= j < |rest| ensures rest[j].price == levels[d + j].price {
      if j > 0 {
        assert rest[j] == rest[1..][j - 1];
      }
    }
  }

  // ---------------------------------------------------------------- limit and market sweeps

  /** A taker of side `taker` with limit `limit` may trade at a level priced `px`. */
  predicate Crosses(taker: Side, limit: int, px: int)
  {
    if taker == Buy then px <= limit else px >= limit
  }

  /** How many leading levels a limit order may trade against. */
  function CrossingCount(taker: Side, limit: int, levels: seq<Level>): (k: nat)
    ensures k <= |levels|
  {
    if levels == [] || !Crosses(taker, limit, levels[0].price) then 0
    else 1 + CrossingCount(taker, limit, levels[1..])
  }

  /**
   * On a side in price order, the crossing levels are exactly the first
   * CrossingCount ones: a limit order can reach every level priced at or
   * through its limit and no other.
   */
  lemma {:induction false} CrossingCountExact(taker: Side, limit: int, levels: seq<Level>)
    requires Ordered(Opposite(taker), levels)
    ensures forall i :: 0 <= i < |levels| ==>
      (i < CrossingCount(taker, limit, levels) <==> Crosses(taker, limit, levels[i].price))
    decreases |levels|
  {
    if levels != [] {
      OrderedTail(Opposite(taker), levels);
      CrossingCountExact(taker, limit, levels[1..]);
      forall i | 0 < i < |levels|
        ensures (i < CrossingCount(taker, limit, levels) <==> Crosses(taker, limit, levels[i].price))
      {
        assert levels[1..][i - 1] == levels[i];
        assert Better(Opposite(taker), levels[0].price, levels[i].price);
      }
    }
  }

  /** Matching a limit order against the opposite side: it sweeps the crossing levels. */
  function MatchLimit(order: Order, levels: seq<Level>, ts: nat): SideMatch
    requires SideLive(levels)
  {
    SweepN(order.id, order.qty, levels, CrossingCount(order.side, order.price, levels), ts)
  }

  /** How many levels a market order may sweep: `maxLevels` when positive, otherwise all. */
  function MarketReach(maxLevels: int, levels: seq<Level>): nat
  {
    if maxLevels > 0 then maxLevels else |levels|
  }

  /** Matching a market order against the opposite side. */
  function MatchMarket(order: Order, levels: seq<Level>, maxLevels: int, ts: nat): SideMatch
    requires SideLive(levels)
  {
    SweepN(order.id, order.qty, levels, MarketReach(maxLevels, levels), ts)
  }

  /** Quantity resting at or through a limit price on the opposite side. */
  function AvailableUpTo(taker: Side, limit: int, levels: seq<Level>): int
  {
    SumLevels(levels[..CrossingCount(taker, limit, levels)])
  }

  /**
   * Quantity the fill-or-kill check counts for a market order: the first
   * `maxLevels` levels, and only the first level when `maxLevels` <= 0.
   */
  function AvailableMarket(levels: seq<Level>, maxLevels: int): int
  {
    SumLevels(levels[..Min(|levels|, Max(1, maxLevels))])
  }

  /**
   * Fill-or-kill for limit orders: when the quantity available at or through
   * the limit covers the order, matching fills it completely; otherwise what
   * is missing is exactly the shortfall.
   */
  lemma LimitFill(order: Order, levels: seq<Level>, ts: nat)
    requires SideLive(levels) && order.qty > 0
    ensures MatchLimit(order, levels, ts).remaining == Max(0, order.qty - AvailableUpTo(order.side, order.price, levels))
  {
    SweepRemaining(order.id, order.qty, levels, CrossingCount(order.side, order.price, levels), ts);
  }

  /**
   * Fill-or-kill for market orders: the quantity available_market counts
   * never exceeds what the market sweep can reach, so an order that passes
   * the capacity test is filled completely.
   */
  lemma MarketFill(order: Order, levels: seq<Level>, maxLevels: int, ts: nat)
    requires SideLive(levels) && order.qty > 0
    requires AvailableMarket(levels, maxLevels) >= order.qty
    ensures MatchMarket(order, levels, maxLevels, ts).remaining == 0
  {
    var reach := MarketReach(maxLevels, levels);
    SweepRemaining(order.id, order.qty, levels, reach, ts);
    var a := Min(|levels|, Max(1, maxLevels));
    var b := Min(reach, |levels|);
    assert a <= b;
    assert levels[..b] == levels[..a] + levels[a..b];
    SumLevelsAppend(levels[..a], levels[a..b]);
    assert SideLive(levels[a..b]);
    SideLiveSumPositive(levels[a..b]);
  }

  /**
   * With `maxLevels` <= 0 the fill-or-kill check counts only the best level,
   * although the sweep itself is then unlimited: a market FOK order larger
   * than the best level is killed even when deeper levels could fill it.
   */
  lemma MarketCheckFirstLevelOnly(levels: seq<Level>, maxLevels: int)
    requires levels != [] && maxLevels <= 0
    ensures AvailableMarket(levels, maxLevels) == SumOrders(levels[0].orders)
    ensures MarketReach(maxLevels, levels) == |levels|
  {
    var first := levels[..1];
    assert first[1..] == [] && first[0] == levels[0];
    assert Min(|levels|, Max(1, maxLevels)) == 1;
    assert SumLevels(first) == SumOrders(levels[0].orders) + SumLevels(first[1..]);
  }

  // ---------------------------------------------------------------- resting

  /**
   * Resting an order on side `s`: it joins the back of the queue at its
   * price, or opens a new level at the place price order dictates.
   */
  function Rest(s: Side, ls: seq<Level>, o: Order): seq<Level>
    decreases |ls|
  {
    if ls == [] then [Level(o.price, [o])]
    else if ls[0].price == o.price then [ls[0].(orders := ls[0].orders + [o])] + ls[1..]
    else if Better(s, o.price, ls[0].price) then [Level(o.price, [o])] + ls
    else [ls[0]] + Rest(s, ls[1..], o)
  }

  /** The queue resting at price `px` (empty when there is no such level). */
  function QueueAt(ls: seq<Level>, px: int): seq<Order>
  {
    if ls == [] then [] else if ls[0].price == px then ls[0].orders else QueueAt(ls[1..], px)
  }

  lemma {:induction false} QueueAtAbsent(s: Side, ls: seq<Level>, px: int)
    requires Ordered(s, ls) && (ls == [] || Better(s, px, ls[0].price))
    ensures QueueAt(ls, px) == []
    decreases |ls|
  {
    if ls != [] {
      OrderedTail(s, ls);
      if |ls| > 1 {
        assert ls[1..][0] == ls[1];
      }
      QueueAtAbsent(s, ls[1..], px);
    }
  }

  /**
   * Resting keeps the side ordered and live and adds the order's quantity;
   * the order is appended to the queue at its price and every other queue
   * is unchanged; the new best level is the better of the old best and the
   * order's price.
   */
  lemma {:induction false} RestSpec(s: Side, ls: seq<Level>, o: Order)
    requires Ordered(s, ls) && SideLive(ls) && o.qty > 0
    ensures var r := Rest(s, ls, o);
      && Ordered(s, r) && SideLive(r)
      && SumLevels(r) == SumLevels(ls) + o.qty
      && r != []
      && r[0].price == (if ls == [] || Better(s, o.price, ls[0].price) then o.price else ls[0].price)
    ensures QueueAt(Rest(s, ls, o), o.price) == QueueAt(ls, o.price) + [o]
    ensures forall px :: px != o.price ==> QueueAt(Rest(s, ls, o), px) == QueueAt(ls, px)
  {
    RestShape(s, ls, o);
    RestContents(s, ls, o);
  }

  /** Putting a strictly better level in front of an ordered side keeps it ordered. */
  lemma OrderedPrepend(s: Side, x: Level, t: seq<Level>)
    requires Ordered(s, t) && (t == [] || Better(s, x.price, t[0].price))
    ensures Ordered(s, [x] + t)
  {
    var r := [x] + t;
    forall i, j | 0 <= i < j < |r| ensures Better(s, r[i].price, r[j].price) {
      assert r[j] == t[j - 1];
      if i > 0 { assert r[i] == t[i - 1]; }
      else { assert j - 1 == 0 || Better(s, t[0].price, t[j - 1].price); }
    }
  }

  /** Resting keeps the side ordered and live, and puts the better of the old best and the order's price first. */
  lemma {:induction false} RestShape(s: Side, ls: seq<Level>, o: Order)
    requires Ordered(s, ls) && SideLive(ls) && o.qty > 0
    ensures var r := Rest(s, ls, o);
      && Ordered(s, r) && SideLive(r)
      && r != []
      && r[0].price == (if ls == [] || Better(s, o.price, ls[0].price) then o.price else ls[0].price)
    decreases |ls|
  {
    var r := Rest(s, ls, o);
    if ls == [] {
    } else if ls[0].price == o.price {
      assert r[1..] == ls[1..];
      forall i | 0 <= i < |r| ensures r[i].price == ls[i].price {
        if i > 0 { assert r[i] == ls[1..][i - 1] == ls[i]; }
      }
      assert LiveOrders(ls[0].orders + [o]);
    } else if Better(s, o.price, ls[0].price) {
      OrderedPrepend(s, Level(o.price, [o]), ls);
    } else {
      var t := Rest(s, ls[1..], o);
      OrderedTail(s, ls);
      assert SideLive(ls[1..]);
      RestShape(s, ls[1..], o);
      if |ls| > 1 {
        assert ls[1..][0] == ls[1];
      }
      OrderedPrepend(s, ls[0], t);
      assert r == [ls[0]] + t;
    }
  }

  /** Resting adds the order's quantity, appends it to the queue at its price and leaves every other queue alone. */
  lemma {:induction false} RestContents(s: Side, ls: seq<Level>, o: Order)
    requires Ordered(s, ls)
    ensures SumLevels(Rest(s, ls, o)) == SumLevels(ls) + o.qty
    ensures QueueAt(Rest(s, ls, o), o.price) == QueueAt(ls, o.price) + [o]
    ensures forall px :: px != o.price ==> QueueAt(Rest(s, ls, o), px) == QueueAt(ls, px)
    decreases |ls|
  {
    var r := Rest(s, ls, o);
    assert [o][1..] == [] && SumOrders([o]) == o.qty;
    if ls == [] {
      assert SumLevels(r) == SumOrders([o]) + SumLevels([]);
    } else if ls[0].price == o.price {
      SumOrdersAppend(ls[0].orders, [o]);
      assert r[1..] == ls[1..];
    } else if Better(s, o.price, ls[0].price) {
      assert r[1..] == ls;
      QueueAtAbsent(s, ls, o.price);
    } else {
      OrderedTail(s, ls);
      RestContents(s, ls[1..], o);
      assert r[1..] == Rest(s, ls[1..], o);
    }
  }

  // ---------------------------------------------------------------- adding orders

  /**
   * Adding a limit order: it is matched against the crossing levels of the
   * opposite side; a remainder rests (and is indexed) only for GTC, and is
   * discarded for IOC and FOK.
   */
  function AddLimit(b: BookState, order: Order, tif: TimeInForce, ts: nat): Step
    requires BookValid(b)
  {
    if order.qty <= 0 then Step(b, [], false)
    else
      var opp := Opposite(order.side);
      var m := MatchLimit(order, BookSide(b, opp), ts);
      var b1 := WithSide(b, opp, m.levels);
      if m.remaining > 0 && tif == GTC then
        var own := Rest(order.side, BookSide(b, order.side), order.(qty := m.remaining));
        var b2 := WithSide(b1, order.side, own);
        Step(b2.(index := b.index[order.id := (order.side, order.price)]), m.trades, false)
      else
        Step(b1, m.trades, false)
  }

  /**
   * Adding a market order: it sweeps the opposite side, at most `maxLevels`
   * levels when that is positive; a remainder is discarded. `emptyBook` says
   * whether the opposite side is empty afterwards.
   */
  function AddMarket(b: BookState, order: Order, maxLevels: int, ts: nat): Step
    requires BookValid(b)
  {
    if order.qty <= 0 then Step(b, [], false)
    else
      var opp := Opposite(order.side);
      var m := MatchMarket(order, BookSide(b, opp), maxLevels, ts);
      Step(WithSide(b, opp, m.levels), m.trades, m.levels == [])
  }

  lemma BookSideOf(b: BookState, s: Side, ls: seq<Level>)
    ensures BookSide(WithSide(b, s, ls), s) == ls
    ensures BookSide(WithSide(b, s, ls), Opposite(s)) == BookSide(b, Opposite(s))
    ensures WithSide(b, s, ls).index == b.index
  {
  }

  /**
   * After a sweep of side `opp` the book is still valid: what remains keeps
   * its order and its best price can only have got worse, so the book stays
   * uncrossed.
   */
  lemma SweepKeepsBookValid(b: BookState, opp: Side, rest: seq<Level>)
    requires BookValid(b) && SweptFrom(BookSide(b, opp), rest) && SideLive(rest)
    ensures BookValid(WithSide(b, opp, rest))
  {
    SweptOrdered(opp, BookSide(b, opp), rest);
  }

  /**
   * A limit order keeps the book valid: ordered sides, no empty level, no
   * order without quantity, and the best bid below the best ask. A GTC
   * remainder rests only once no opposite level crosses its price.
   */
  lemma AddLimitKeepsBookValid(b: BookState, order: Order, tif: TimeInForce, ts: nat)
    requires BookValid(b)
    ensures BookValid(AddLimit(b, order, tif, ts).book)
  {
    if order.qty > 0 {
      var opp := Opposite(order.side);
      var levels := BookSide(b, opp);
      var k := CrossingCount(order.side, order.price, levels);
      var m := MatchLimit(order, levels, ts);
      SweepNShape(order.id, order.qty, levels, k, ts);
      SweptOrdered(opp, levels, m.levels);
      SweepKeepsBookValid(b, opp, m.levels);
      if m.remaining > 0 && tif == GTC {
        var o := order.(qty := m.remaining);
        var ownOld := BookSide(b, order.side);
        SweepExhausted(order.id, order.qty, levels, k, ts);
        CrossingCountExact(order.side, order.price, levels);
        assert m.levels != [] ==> m.levels[0] == levels[k];
        RestSpec(order.side, ownOld, o);
        var own := Rest(order.side, ownOld, o);
        if order.side == Buy {
          assert Uncrossed(own, m.levels);
        } else {
          assert Uncrossed(m.levels, own);
        }
      }
    }
  }

  /** A market order keeps the book valid. */
  lemma AddMarketKeepsBookValid(b: BookState, order: Order, maxLevels: int, ts: nat)
    requires BookValid(b)
    ensures BookValid(AddMarket(b, order, maxLevels, ts).book)
  {
    if order.qty > 0 {
      var opp := Opposite(order.side);
      SweepNShape(order.id, order.qty, BookSide(b, opp), MarketReach(maxLevels, BookSide(b, opp)), ts);
      SweepKeepsBookValid(b, opp, MatchMarket(order, BookSide(b, opp), maxLevels, ts).levels);
    }
  }

  /**
   * What a limit order trades: every trade names the order as taker, is
   * positive, executes at a resting level's price that crosses the limit,
   * and the trades run best price first; no level better than a traded
   * price is left on the opposite side.
   */
  lemma AddLimitTrades(b: BookState, order: Order, tif: TimeInForce, ts: nat)
    requires BookValid(b)
    ensures var st := AddLimit(b, order, tif, ts);
      && TakerTrades(order.id, ts, st.trades)
      && (forall k :: 0 <= k < |st.trades| ==> Crosses(order.side, order.price, st.trades[k].price))
      && InPriceOrder(Opposite(order.side), st.trades)
  {
    var st := AddLimit(b, order, tif, ts);
    if order.qty > 0 {
      var opp := Opposite(order.side);
      var levels := BookSide(b, opp);
      var k := CrossingCount(order.side, order.price, levels);
      var m := SweepN(order.id, order.qty, levels, k, ts);
      assert st.trades == m.trades;
      SweepTrades(order.id, order.qty, levels, k, ts);
      SweepPriceOrder(opp, order.id, order.qty, levels, k, ts);
      CrossingCountExact(order.side, order.price, levels);
      var bound := Min(k, |levels| - |m.levels| + 1);
      assert PricedFrom(levels, bound, m.trades);
      forall j | 0 <= j < |m.trades| ensures Crosses(order.side, order.price, m.trades[j].price) {
        var i := PricedFromWitness(levels, bound, m.trades, j);
      }
    }
  }

  /**
   * Quantity conservation for a limit order: the trades take from the
   * opposite side exactly what they fill, and the own side gains the
   * remainder when (and only when) it rests; the remainder then sits at the
   * back of the queue at the order's price, every other queue of that side
   * is unchanged, and the index maps the id to (side, price).
   */
  lemma AddLimitConserves(b: BookState, order: Order, tif: TimeInForce, ts: nat)
    requires BookValid(b) && order.qty > 0
    ensures var st := AddLimit(b, order, tif, ts);
      var opp := Opposite(order.side);
      var remaining := order.qty - SumTrades(st.trades);
      && 0 <= remaining <= order.qty
      && SumLevels(BookSide(st.book, opp)) == SumLevels(BookSide(b, opp)) - SumTrades(st.trades)
      && (if remaining > 0 && tif == GTC then
            && SumLevels(BookSide(st.book, order.side)) == SumLevels(BookSide(b, order.side)) + remaining
            && QueueAt(BookSide(st.book, order.side), order.price)
                 == QueueAt(BookSide(b, order.side), order.price) + [order.(qty := remaining)]
            && (forall px :: px != order.price ==>
                  QueueAt(BookSide(st.book, order.side), px) == QueueAt(BookSide(b, order.side), px))
            && st.book.index == b.index[order.id := (order.side, order.price)]
          else
            BookSide(st.book, order.side) == BookSide(b, order.side) && st.book.index == b.index)
  {
    var st := AddLimit(b, order, tif, ts);
    var m := MatchLimit(order, BookSide(b, Opposite(order.side)), ts);
    AddLimitMatched(b, order, tif, ts);
    if m.remaining > 0 && tif == GTC {
      RestContents(order.side, BookSide(b, order.side), order.(qty := m.remaining));
    }
  }

  /**
   * The matching half of a limit order: the remainder is what the trades
   * left of the order, and the opposite side loses exactly what they took.
   */
  lemma AddLimitMatched(b: BookState, order: Order, tif: TimeInForce, ts: nat)
    requires BookValid(b) && order.qty > 0
    ensures var st := AddLimit(b, order, tif, ts);
      var m := MatchLimit(order, BookSide(b, Opposite(order.side)), ts);
      && st.trades == m.trades
      && m.remaining == order.qty - SumTrades(m.trades)
      && 0 <= m.remaining <= order.qty
      && BookSide(st.book, Opposite(order.side)) == m.levels
      && SumLevels(m.levels) == SumLevels(BookSide(b, Opposite(order.side))) - SumTrades(m.trades)
      && (if m.remaining > 0 && tif == GTC then
            && BookSide(st.book, order.side) == Rest(order.side, BookSide(b, order.side), order.(qty := m.remaining))
            && st.book.index == b.index[order.id := (order.side, order.price)]
          else
            BookSide(st.book, order.side) == BookSide(b, order.side) && st.book.index == b.index)
  {
    MatchLimitConserves(order, BookSide(b, Opposite(order.side)), ts);
  }

  /** A limit order's sweep: the remainder is what the trades left, and the side loses what they took. */
  lemma MatchLimitConserves(order: Order, levels: seq<Level>, ts: nat)
    requires SideLive(levels) && order.qty > 0
    ensures var m := MatchLimit(order, levels, ts);
      && m.remaining == order.qty - SumTrades(m.trades)
      && 0 <= m.remaining <= order.qty
      && SumLevels(m.levels) == SumLevels(levels) - SumTrades(m.trades)
  {
    var k := CrossingCount(order.side, order.price, levels);
    SweepRemaining(order.id, order.qty, levels, k, ts);
    SweepNConserves(order.id, order.qty, levels, k, ts);
    var swept := levels[..Min(k, |levels|)];
    assert SideLive(swept);
    SideLiveSumPositive(swept);
  }

  /** A market order's trades name it as taker and run best price first. */
  lemma AddMarketTrades(b: BookState, order: Order, maxLevels: int, ts: nat)
    requires BookValid(b)
    ensures var st := AddMarket(b, order, maxLevels, ts);
      TakerTrades(order.id, ts, st.trades) && InPriceOrder(Opposite(order.side), st.trades)
  {
    if order.qty > 0 {
      var opp := Opposite(order.side);
      var levels := BookSide(b, opp);
      var n := MarketReach(maxLevels, levels);
      assert AddMarket(b, order, maxLevels, ts).trades == SweepN(order.id, order.qty, levels, n, ts).trades;
      SweepTrades(order.id, order.qty, levels, n, ts);
      SweepPriceOrder(opp, order.id, order.qty, levels, n, ts);
    }
  }

  /**
   * What a market order fills: the order up to the quantity of the levels
   * it may reach; the opposite side loses exactly the traded quantity, and
   * with a remainder it has lost every level it could reach; the own side
   * and the index are untouched; `emptyBook` is set exactly when the
   * opposite side is left empty.
   */
  lemma AddMarketOutcome(b: BookState, order: Order, maxLevels: int, ts: nat)
    requires BookValid(b) && order.qty > 0
    ensures var st := AddMarket(b, order, maxLevels, ts);
      var opp := Opposite(order.side);
      var levels := BookSide(b, opp);
      var reach := Min(MarketReach(maxLevels, levels), |levels|);
      var remaining := order.qty - SumTrades(st.trades);
      && 0 <= remaining <= order.qty
      && remaining == Max(0, order.qty - SumLevels(levels[..reach]))
      && SumLevels(BookSide(st.book, opp)) == SumLevels(levels) - SumTrades(st.trades)
      && (remaining > 0 ==> BookSide(st.book, opp) == levels[reach..])
      && BookSide(st.book, order.side) == BookSide(b, order.side)
      && st.book.index == b.index
      && (st.emptyBook <==> BookSide(st.book, opp) == [])
  {
    var opp := Opposite(order.side);
    var levels := BookSide(b, opp);
    var n := MarketReach(maxLevels, levels);
    var m := SweepN(order.id, order.qty, levels, n, ts);
    assert AddMarket(b, order, maxLevels, ts) == Step(WithSide(b, opp, m.levels), m.trades, m.levels == []);
    SweepRemaining(order.id, order.qty, levels, n, ts);
    SweepNConserves(order.id, order.qty, levels, n, ts);
    SweepExhausted(order.id, order.qty, levels, n, ts);
    var swept := levels[..Min(n, |levels|)];
    assert SideLive(swept);
    SideLiveSumPositive(swept);
  }

  // ---------------------------------------------------------------- cancel

  function FindLevel(ls: seq<Level>, px: int): (r: Option<nat>)
    ensures r.Some? ==> r.value < |ls| && ls[r.value].price == px
    ensures r.None? ==> forall i :: 0 <= i < |ls| ==> ls[i].price != px
  {
    if ls == [] then None
    else if ls[0].price == px then Some(0)
    else match FindLevel(ls[1..], px)
      case None => None
      case Some(i) => Some(i + 1)
  }

  /** The first order of a queue with the given id (`std::find_if`). */
  function FindOrder(q: seq<Order>, id: nat): (r: Option<nat>)
    ensures r.Some? ==> r.value < |q| && q[r.value].id == id && forall j :: 0 <= j < r.value ==> q[j].id != id
    ensures r.None? ==> forall j :: 0 <= j < |q| ==> q[j].id != id
  {
    if q == [] then None
    else if q[0].id == id then Some(0)
    else match FindOrder(q[1..], id)
      case None => None
      case Some(j) => Some(j + 1)
  }

  function RemoveAt<T>(s: seq<T>, i: nat): seq<T>
    requires i < |s|
  {
    s[..i] + s[i + 1..]
  }

  /** The side a successful cancel leaves: the order removed, its level too when emptied. */
  function CancelFromSide(ls: seq<Level>, i: nat, j: nat): seq<Level>
    requires i < |ls| && j < |ls[i].orders|
  {
    var q := RemoveAt(ls[i].orders, j);
    if q == [] then RemoveAt(ls, i) else ls[i := Level(ls[i].price, q)]
  }

  /**
   * Cancelling by id: an id that is not indexed changes nothing; otherwise
   * its index entry is dropped, and the first order with that id in the
   * level at the indexed side and price is removed, the level with it when
   * it becomes empty. The flag says whether an order was removed.
   */
  function Cancel(b: BookState, id: nat): (BookState, bool)
  {
    if id !in b.index then (b, false)
    else
      var (s, px) := b.index[id];
      var b1 := b.(index := b.index - {id});
      var ls := BookSide(b, s);
      match FindLevel(ls, px)
      case None => (b1, false)
      case Some(i) =>
        match FindOrder(ls[i].orders, id)
        case None => (b1, false)
        case Some(j) => (WithSide(b1, s, CancelFromSide(ls, i, j)), true)
  }

  lemma {:induction false} QueueAtIndex(ls: seq<Level>, i: nat, px: int)
    requires i < |ls| && ls[i].price == px
    requires forall j :: 0 <= j < i ==> ls[j].price != px
    ensures QueueAt(ls, px) == ls[i].orders
    decreases i
  {
    if i > 0 {
      QueueAtIndex(ls[1..], i - 1, px);
    }
  }

  lemma {:induction false} QueueAtMissing(ls: seq<Level>, px: int)
    requires forall j :: 0 <= j < |ls| ==> ls[j].price != px
    ensures QueueAt(ls, px) == []
    decreases |ls|
  {
    if ls != [] {
      QueueAtMissing(ls[1..], px);
    }
  }

  lemma {:induction false} SumOrdersRemoveAt(q: seq<Order>, j: nat)
    requires j < |q|
    ensures SumOrders(RemoveAt(q, j)) == SumOrders(q) - q[j].qty
  {
    assert q == q[..j] + [q[j]] + q[j + 1..];
    SumOrdersAppend(q[..j] + [q[j]], q[j + 1..]);
    SumOrdersAppend(q[..j], [q[j]]);
    SumOrdersAppend(q[..j], q[j + 1..]);
    assert [q[j]][1..] == [];
  }

  lemma {:induction false} SumLevelsUpdate(ls: seq<Level>, i: nat, l: Level)
    requires i < |ls|
    ensures SumLevels(ls[i := l]) == SumLevels(ls) - SumOrders(ls[i].orders) + SumOrders(l.orders)
    ensures SumLevels(RemoveAt(ls, i)) == SumLevels(ls) - SumOrders(ls[i].orders)
  {
    assert ls == ls[..i] + [ls[i]] + ls[i + 1..];
    assert ls[i := l] == ls[..i] + [l] + ls[i + 1..];
    SumLevelsAppend(ls[..i] + [ls[i]], ls[i + 1..]);
    SumLevelsAppend(ls[..i], [ls[i]]);
    SumLevelsAppend(ls[..i] + [l], ls[i + 1..]);
    SumLevelsAppend(ls[..i], [l]);
    SumLevelsAppend(ls[..i], ls[i + 1..]);
    assert [ls[i]][1..] == [] && [l][1..] == [];
  }

  /** An id that is not indexed: cancel reports false and the book is unchanged. */
  lemma CancelUnknown(b: BookState, id: nat)
    requires id !in b.index
    ensures Cancel(b, id) == (b, false)
  {
  }

  /**
   * An indexed id: its entry leaves the index; when cancel reports true it
   * removed the first order with that id from the queue at the indexed
   * price (that order's quantity leaves the side, every other queue and the
   * other side are unchanged); when it reports false (the order was already
   * filled) both sides are unchanged.
   */
  lemma CancelIndexed(b: BookState, id: nat)
    requires BookValid(b) && id in b.index
    ensures var (b', ok) := Cancel(b, id);
      var (s, px) := b.index[id];
      && b'.index == b.index - {id}
      && BookSide(b', Opposite(s)) == BookSide(b, Opposite(s))
      && (ok ==>
            && FindOrder(QueueAt(BookSide(b, s), px), id).Some?
            && QueueAt(BookSide(b', s), px)
                 == RemoveAt(QueueAt(BookSide(b, s), px), FindOrder(QueueAt(BookSide(b, s), px), id).value)
            && SumLevels(BookSide(b', s))
                 == SumLevels(BookSide(b, s))
                    - QueueAt(BookSide(b, s), px)[FindOrder(QueueAt(BookSide(b, s), px), id).value].qty
            && (forall p :: p != px ==> QueueAt(BookSide(b', s), p) == QueueAt(BookSide(b, s), p)))
      && (!ok ==> BookSide(b', s) == BookSide(b, s) && FindOrder(QueueAt(BookSide(b, s), px), id).None?)
  {
    var (s, px) := b.index[id];
    var ls := BookSide(b, s);
    match FindLevel(ls, px)
    case None =>
      QueueAtMissing(ls, px);
    case Some(i) =>
      QueueAtOrdered(s, ls, i);
      match FindOrder(ls[i].orders, id)
      case None =>
      case Some(j) =>
        CancelFromSideQueue(s, ls, i, j);
  }

  /** On an ordered side the queue at a level's price is that level's queue. */
  lemma QueueAtOrdered(s: Side, ls: seq<Level>, i: nat)
    requires Ordered(s, ls) && i < |ls|
    ensures QueueAt(ls, ls[i].price) == ls[i].orders
  {
    forall j | 0 <= j < i ensures ls[j].price != ls[i].price {
      assert Better(s, ls[j].price, ls[i].price);
    }
    QueueAtIndex(ls, i, ls[i].price);
  }

  /**
   * Removing the `j`-th order of the `i`-th level of an ordered side removes
   * it from the queue at that price and its quantity from the side's total;
   * the queue at every other price is unchanged.
   */
  lemma CancelFromSideQueue(s: Side, ls: seq<Level>, i: nat, j: nat)
    requires Ordered(s, ls) && i < |ls| && j < |ls[i].orders|
    ensures QueueAt(CancelFromSide(ls, i, j), ls[i].price) == RemoveAt(ls[i].orders, j)
    ensures SumLevels(CancelFromSide(ls, i, j)) == SumLevels(ls) - ls[i].orders[j].qty
    ensures forall p :: p != ls[i].price ==> QueueAt(CancelFromSide(ls, i, j), p) == QueueAt(ls, p)
  {
    var px := ls[i].price;
    var q := RemoveAt(ls[i].orders, j);
    SumOrdersRemoveAt(ls[i].orders, j);
    SumLevelsUpdate(ls, i, Level(px, q));
    forall p | p != px ensures QueueAt(CancelFromSide(ls, i, j), p) == QueueAt(ls, p) {
      if q == [] {
        QueueAtRemoveOther(ls, i, p);
      } else {
        QueueAtUpdateOther(ls, i, q, p);
      }
    }
    if q == [] {
      var ls' := RemoveAt(ls, i);
      forall k | 0 <= k < |ls'| ensures ls'[k].price != px {
        if k < i {
          assert ls'[k] == ls[k];
          assert Better(s, ls[k].price, ls[i].price);
        } else {
          assert ls'[k] == ls[k + 1];
          assert Better(s, ls[i].price, ls[k + 1].price);
        }
      }
      QueueAtMissing(ls', px);
    } else {
      var ls' := ls[i := Level(px, q)];
      forall k | 0 <= k < i ensures ls'[k].price != px {
        assert Better(s, ls[k].price, ls[i].price);
      }
      QueueAtIndex(ls', i, px);
    }
  }


  /** Replacing the queue of a level at another price leaves the queue at `p` as it was. */
  lemma {:induction false} QueueAtUpdateOther(ls: seq<Level>, i: nat, q: seq<Order>, p: int)
    requires i < |ls| && ls[i].price != p
    ensures QueueAt(ls[i := Level(ls[i].price, q)], p) == QueueAt(ls, p)
    decreases i
  {
    var ls' := ls[i := Level(ls[i].price, q)];
    if i > 0 {
      assert ls'[1..] == ls[1..][i - 1 := Level(ls[i].price, q)];
      QueueAtUpdateOther(ls[1..], i - 1, q, p);
    } else {
      assert ls'[1..] == ls[1..];
    }
  }

  /** Removing a level at another price leaves the queue at `p` as it was. */
  lemma {:induction false} QueueAtRemoveOther(ls: seq<Level>, i: nat, p: int)
    requires i < |ls| && ls[i].price != p
    ensures QueueAt(RemoveAt(ls, i), p) == QueueAt(ls, p)
    decreases i
  {
    if i > 0 {
      assert RemoveAt(ls, i) == [ls[0]] + RemoveAt(ls[1..], i - 1);
      assert RemoveAt(ls, i)[1..] == RemoveAt(ls[1..], i - 1);
      QueueAtRemoveOther(ls[1..], i - 1, p);
    } else {
      assert RemoveAt(ls, 0) == ls[1..];
    }
  }

  lemma CancelFromSideShape(s: Side, ls: seq<Level>, i: nat, j: nat)
    requires Ordered(s, ls) && SideLive(ls) && i < |ls| && j < |ls[i].orders|
    ensures var r := CancelFromSide(ls, i, j);
      && Ordered(s, r) && SideLive(r)
      && (r != [] ==> r[0].price == ls[0].price || Better(s, ls[0].price, r[0].price))
  {
    var q := RemoveAt(ls[i].orders, j);
    var r := CancelFromSide(ls, i, j);
    if q == [] {
      assert forall k :: 0 <= k < |r| ==> r[k] == (if k < i then ls[k] else ls[k + 1]);
    } else {
      assert LiveOrders(q) by {
        forall k | 0 <= k < |q| ensures q[k].qty > 0 {
          assert q[k] == (if k < j then ls[i].orders[k] else ls[i].orders[k + 1]);
        }
      }
    }
  }

  /** Cancelling keeps the book valid. */
  lemma CancelKeepsBookValid(b: BookState, id: nat)
    requires BookValid(b)
    ensures BookValid(Cancel(b, id).0)
  {
    if id in b.index {
      var (s, px) := b.index[id];
      var ls := BookSide(b, s);
      match FindLevel(ls, px)
      case None =>
      case Some(i) =>
        match FindOrder(ls[i].orders, id)
        case None =>
        case Some(j) =>
          CancelFromSideShape(s, ls, i, j);
    }
  }

  // ---------------------------------------------------------------- snapshot

  /** The first `depth` levels of a side, each with its summed quantity. */
  function SnapshotSide(ls: seq<Level>, depth: int): seq<SnapshotLevel>
    decreases |ls|
  {
    if depth <= 0 || ls == [] then []
    else [SnapshotLevel(ls[0].price, SumOrders(ls[0].orders))] + SnapshotSide(ls[1..], depth - 1)
  }

  function SnapshotOf(b: BookState, depth: int): Snapshot
  {
    Snapshot(SnapshotSide(b.bids, depth), SnapshotSide(b.asks, depth))
  }

  /** A snapshot side holds min(depth, levels) entries, in book order, each the level's price and total. */
  lemma {:induction false} SnapshotSideSpec(ls: seq<Level>, depth: int)
    ensures |SnapshotSide(ls, depth)| == Min(|ls|, Max(0, depth))
    ensures forall i :: 0 <= i < |SnapshotSide(ls, depth)| ==>
      SnapshotSide(ls, depth)[i] == SnapshotLevel(ls[i].price, SumOrders(ls[i].orders))
    decreases |ls|
  {
    if depth > 0 && ls != [] {
      SnapshotSideSpec(ls[1..], depth - 1);
      var r := SnapshotSide(ls, depth);
      forall i | 0 < i < |r| ensures r[i] == SnapshotLevel(ls[i].price, SumOrders(ls[i].orders)) {
        assert r[i] == SnapshotSide(ls[1..], depth - 1)[i - 1];
        assert ls[1..][i - 1] == ls[i];
      }
    }
  }

  /**
   * The snapshot of a valid book: bids in strictly descending and asks in
   * strictly ascending price, every level with a positive quantity, and the
   * best bid below the best ask.
   */
  lemma SnapshotOrdered(b: BookState, depth: int)
    requires BookValid(b)
    ensures var snap := SnapshotOf(b, depth);
      && (forall i, j :: 0 <= i < j < |snap.bids| ==> snap.bids[i].price > snap.bids[j].price)
      && (forall i, j :: 0 <= i < j < |snap.asks| ==> snap.asks[i].price < snap.asks[j].price)
      && (forall i :: 0 <= i < |snap.bids| ==> snap.bids[i].qty > 0)
      && (forall i :: 0 <= i < |snap.asks| ==> snap.asks[i].qty > 0)
      && (snap.bids != [] && snap.asks != [] ==> snap.bids[0].price < snap.asks[0].price)
  {
    SnapshotSideSpec(b.bids, depth);
    SnapshotSideSpec(b.asks, depth);
    forall i | 0 <= i < |b.bids| ensures SumOrders(b.bids[i].orders) > 0 {
      LiveOrdersSumPositive(b.bids[i].orders);
    }
    forall i | 0 <= i < |b.asks| ensures SumOrders(b.asks[i].orders) > 0 {
      LiveOrdersSumPositive(b.asks[i].orders);
    }
  }
}
