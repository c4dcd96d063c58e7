/**
 * The order book as an object whose fields its methods update in place:
 * the two sides (best level first) and the id index. Every method is a
 * loop over the levels in the book's own order and is proved to compute
 * what the matching functions of BookSpec say, so the properties proved
 * there carry over to the object.
 */
module BookImpl {
  import opened EngineTypes
  import opened Arith
  import opened BookSpec

  class OrderBook {
    /** Bid levels, highest price first. */
    var bids: seq<Level>
    /** Ask levels, lowest price first. */
    var asks: seq<Level>
    /** Order id -> (side, price) of the level it was rested at. */
    var index: map<nat, (Side, int)>

    function State(): BookState
      reads this
    {
      BookState(bids, asks, index)
    }

    ghost predicate Valid()
      reads this
    {
      BookValid(State())
    }

    constructor()
      ensures State() == EmptyBookState && Valid()
    {
      bids, asks, index := [], [], map[];
    }

    /** The total quantity of a level's queue. */
    static method LevelQty(q: seq<Order>) returns (s: int)
      ensures s == SumOrders(q)
    {
      s := 0;
      var i := 0;
      while i < |q|
        invariant 0 <= i <= |q|
        invariant s == SumOrders(q[..i])
      {
        assert q[..i + 1] == q[..i] + [q[i]];
        SumOrdersAppend(q[..i], [q[i]]);
        assert [q[i]][1..] == [];
        s := s + q[i].qty;
        i := i + 1;
      }
      assert q[..i] == q;
    }

    /**
     * Matches a taker of quantity `qty0` against the queue `q0` at price
     * `px`, front maker first; returns what is left of the taker and of the
     * queue, and the trades in execution order.
     */
    static method MatchLevel(takerId: nat, qty0: int, q0: seq<Order>, px: int, ts: nat)
      returns (qty: int, q: seq<Order>, trades: seq<Trade>)
      requires LiveOrders(q0)
      ensures LevelMatch(qty, q, trades) == BookSpec.MatchLevel(takerId, qty0, q0, px, ts)
    {
      qty, q, trades := qty0, q0, [];
      while qty > 0 && q != []
        invariant LiveOrders(q)
        invariant MatchLevelResumes(takerId, qty0, q0, px, ts, trades, qty, q)
        decreases |q|, qty
      {
        var top := q[0];
        var t := Min(qty, top.qty);
        var tr := Trade(takerId, top.id, px, t, ts);
        MatchLevelAdvance(takerId, qty0, q0, px, ts, trades, qty, q);
        trades := trades + [tr];
        qty := qty - t;
        top := top.(qty := top.qty - t);
        if top.qty == 0 {
          q := q[1..];
        } else {
          q := q[0 := top];
        }
      }
    }

    /** Quantity on the ask side at or below `px`: what a buy limit at `px` can reach. */
    method AvailableToBuyUpTo(px: int) returns (total: int)
      ensures total == AvailableUpTo(Buy, px, asks)
    {
      total := 0;
      var i := 0;
      while i < |asks|
        invariant 0 <= i <= |asks|
        invariant CrossingCount(Buy, px, asks) == i + CrossingCount(Buy, px, asks[i..])
        invariant total == SumLevels(asks[..i])
      {
        if asks[i].price > px {
          break;
        }
        assert asks[i..][1..] == asks[i + 1..];
        var s := LevelQty(asks[i].orders);
        AppendLevel(asks, i);
        total := total + s;
        i := i + 1;
      }
    }

    /** Quantity on the bid side at or above `px`: what a sell limit at `px` can reach. */
    method AvailableToSellDownTo(px: int) returns (total: int)
      ensures total == AvailableUpTo(Sell, px, bids)
    {
      total := 0;
      var i := 0;
      while i < |bids|
        invariant 0 <= i <= |bids|
        invariant CrossingCount(Sell, px, bids) == i + CrossingCount(Sell, px, bids[i..])
        invariant total == SumLevels(bids[..i])
      {
        if bids[i].price < px {
          break;
        }
        assert bids[i..][1..] == bids[i + 1..];
        var s := LevelQty(bids[i].orders);
        AppendLevel(bids, i);
        total := total + s;
        i := i + 1;
      }
    }

    /**
     * Quantity a market order of side `side` may count on: the levels of
     * the opposite side from the best one on, stopping once `maxLevels`
     * levels are counted (so only the best level when `maxLevels` <= 0).
     */
    method AvailableMarket(side: Side, maxLevels: int) returns (total: int)
      ensures total == BookSpec.AvailableMarket(BookSide(State(), Opposite(side)), maxLevels)
    {
      var ls := if side == Buy then asks else bids;
      total := 0;
      var levels := 0;
      while levels < |ls|
        invariant 0 <= levels <= Min(|ls|, Max(1, maxLevels))
        invariant levels == 0 || levels < maxLevels
        invariant total == SumLevels(ls[..levels])
      {
        var s := LevelQty(ls[levels].orders);
        AppendLevel(ls, levels);
        total := total + s;
        levels := levels + 1;
        if levels >= maxLevels {
          break;
        }
      }
    }

    /**
     * The matching loop of a limit order over the opposite side `levels0`:
     * while the taker has quantity and the level under the iterator crosses
     * its limit, the level is matched; an emptied level is erased, otherwise
     * the iterator moves on.
     */
    static method SweepCrossing(order: Order, levels0: seq<Level>, ts: nat)
      returns (qty: int, levels: seq<Level>, trades: seq<Trade>)
      requires SideLive(levels0) && order.qty > 0
      ensures SideMatch(qty, levels, trades) == MatchLimit(order, levels0, ts)
    {
      ghost var m0 := MatchLimit(order, levels0, ts);
      qty, levels, trades := order.qty, levels0, [];
      var it := 0;
      ghost var n := CrossingCount(order.side, order.price, levels);
      while it < |levels| && qty > 0 && Crosses(order.side, order.price, levels[it].price)
        invariant SideLive(levels)
        invariant it == 0 || (it == 1 && qty == 0 && |levels| >= 1)
        invariant it == 0 ==> n == CrossingCount(order.side, order.price, levels)
        invariant SweepResumes(m0, order.id, ts, trades, qty, levels, n)
        decreases |levels| - it
      {
        assert it == 0 && CrossingCount(order.side, order.price, levels[1..]) == n - 1;
        var emptied;
        qty, levels, trades, emptied := MatchFront(m0, order.id, ts, qty, levels, n, trades);
        if !emptied {
          it := it + 1;
        }
        n := n - 1;
      }
    }

    /**
     * One round of a sweep: the best level is matched against the taker and
     * erased when it is emptied (`emptied`); a level that is not emptied has
     * filled the taker.
     */
    static method MatchFront(ghost m0: SideMatch, takerId: nat, ts: nat, qty: int, levels: seq<Level>, ghost n: nat,
                             trades: seq<Trade>)
      returns (qty': int, levels': seq<Level>, trades': seq<Trade>, emptied: bool)
      requires SideLive(levels) && qty > 0 && levels != [] && n > 0
      requires SweepResumes(m0, takerId, ts, trades, qty, levels, n)
      ensures SideLive(levels') && SweepResumes(m0, takerId, ts, trades', qty', levels', n - 1)
      ensures emptied ==> levels' == levels[1..]
      ensures !emptied ==> qty' == 0 && |levels'| == |levels|
    {
      var r, rest, tr := MatchLevel(takerId, qty, levels[0].orders, levels[0].price, ts);
      if rest == [] {
        SweepAdvanceErase(m0, takerId, ts, trades, qty, levels, n, r, tr);
        levels' := levels[1..];
        emptied := true;
      } else {
        SweepAdvanceKeep(m0, takerId, ts, trades, qty, levels, n, r, rest, tr);
        levels' := levels[0 := levels[0].(orders := rest)];
        emptied := false;
      }
      trades' := trades + tr;
      qty' := r;
    }

    /**
     * The matching loop of a market order over the opposite side `levels0`:
     * the best level is matched and erased when emptied, until the taker or
     * the side is exhausted or, when `maxLevels` is positive, `maxLevels`
     * levels have been visited.
     */
    static method SweepMarket(order: Order, levels0: seq<Level>, maxLevels: int, ts: nat)
      returns (qty: int, levels: seq<Level>, trades: seq<Trade>)
      requires SideLive(levels0) && order.qty > 0
      ensures SideMatch(qty, levels, trades) == MatchMarket(order, levels0, maxLevels, ts)
    {
      ghost var n: nat := MarketReach(maxLevels, levels0);
      ghost var m0 := MatchMarket(order, levels0, maxLevels, ts);
      qty, levels, trades := order.qty, levels0, [];
      var level := 0;
      while qty > 0 && levels != []
        invariant SideLive(levels)
        invariant maxLevels > 0 ==> 0 <= level < maxLevels && n == maxLevels - level
        invariant maxLevels <= 0 ==> qty <= 0 || n >= |levels|
        invariant SweepResumes(m0, order.id, ts, trades, qty, levels, n)
        decreases |levels|, qty
      {
        var emptied;
        qty, levels, trades, emptied := MatchFront(m0, order.id, ts, qty, levels, n, trades);
        n := n - 1;
        if maxLevels > 0 {
          level := level + 1;
          if level >= maxLevels {
            break;
          }
        }
      }
      SweepResumesDone(m0, order.id, ts, trades, qty, levels, n);
    }

    /**
     * Adds a limit order: it matches the crossing levels of the opposite
     * side best first; a GTC remainder rests at the back of its price level
     * and is indexed, an IOC or FOK remainder is dropped.
     */
    method AddLimit(order: Order, tif: TimeInForce, ts: nat) returns (trades: seq<Trade>)
      requires Valid()
      modifies this
      ensures Valid()
      ensures var st := BookSpec.AddLimit(old(State()), order, tif, ts);
        State() == st.book && trades == st.trades
    {
      trades := [];
      if order.qty <= 0 {
        return;
      }
      ghost var b0 := State();
      var qty;
      if order.side == Buy {
        qty, asks, trades := SweepCrossing(order, asks, ts);
      } else {
        qty, bids, trades := SweepCrossing(order, bids, ts);
      }
      if qty > 0 && tif == GTC {
        var o := order.(qty := qty);
        if order.side == Buy {
          bids := Rest(Buy, bids, o);
        } else {
          asks := Rest(Sell, asks, o);
        }
        index := index[order.id := (order.side, order.price)];
      }
      assert State() == BookSpec.AddLimit(b0, order, tif, ts).book;
      AddLimitKeepsBookValid(b0, order, tif, ts);
    }

    /**
     * Adds a market order: it sweeps the opposite side (at most `maxLevels`
     * levels when that is positive) and drops the remainder, whatever its
     * time in force `tif`. `emptyBook` says whether the opposite side is
     * left empty.
     */
    method AddMarket(order: Order, tif: TimeInForce, ts: nat, maxLevels: int) returns (trades: seq<Trade>, emptyBook: bool)
      requires Valid()
      modifies this
      ensures Valid()
      ensures var st := BookSpec.AddMarket(old(State()), order, maxLevels, ts);
        State() == st.book && trades == st.trades && emptyBook == st.emptyBook
    {
      trades, emptyBook := [], false;
      if order.qty <= 0 {
        return;
      }
      ghost var b0 := State();
      var qty;
      if order.side == Buy {
        qty, asks, trades := SweepMarket(order, asks, maxLevels, ts);
        emptyBook := asks == [];
      } else {
        qty, bids, trades := SweepMarket(order, bids, maxLevels, ts);
        emptyBook := bids == [];
      }
      AddMarketKeepsBookValid(b0, order, maxLevels, ts);
    }

    /**
     * Cancels an order by id: false when the id is not indexed; otherwise
     * the index entry goes, and the order is removed from its level (the
     * level too when it empties) if it is still there.
     */
    method Cancel(id: nat) returns (ok: bool)
      requires Valid()
      modifies this
      ensures Valid()
      ensures (State(), ok) == BookSpec.Cancel(old(State()), id)
    {
      CancelKeepsBookValid(State(), id);
      if id !in index {
        return false;
      }
      var (side, px) := index[id];
      index := index - {id};
      var ls := if side == Buy then bids else asks;
      match FindLevel(ls, px)
      case None =>
        ok := false;
      case Some(i) =>
        match FindOrder(ls[i].orders, id)
        case None =>
          ok := false;
        case Some(j) =>
          if side == Buy {
            bids := CancelFromSide(ls, i, j);
          } else {
            asks := CancelFromSide(ls, i, j);
          }
          ok := true;
    }

    /** The best `depth` levels of each side with their total quantities. */
    method Snapshot(depth: int) returns (snap: EngineTypes.Snapshot)
      ensures snap == SnapshotOf(State(), depth)
    {
      var sb: seq<SnapshotLevel> := [];
      var sa: seq<SnapshotLevel> := [];
      var bit, ait := 0, 0;
      var i := 0;
      while i < depth
        invariant 0 <= i <= Max(0, depth)
        invariant bit == Min(i, |bids|) && ait == Min(i, |asks|)
        invariant |sb| == bit && |sa| == ait
        invariant forall j :: 0 <= j < bit ==> sb[j] == SnapshotLevel(bids[j].price, SumOrders(bids[j].orders))
        invariant forall j :: 0 <= j < ait ==> sa[j] == SnapshotLevel(asks[j].price, SumOrders(asks[j].orders))
      {
        if bit < |bids| {
          var s := LevelQty(bids[bit].orders);
          sb := sb + [SnapshotLevel(bids[bit].price, s)];
          bit := bit + 1;
        }
        if ait < |asks| {
          var s := LevelQty(asks[ait].orders);
          sa := sa + [SnapshotLevel(asks[ait].price, s)];
          ait := ait + 1;
        }
        i := i + 1;
      }
      SnapshotSideSpec(bids, depth);
      SnapshotSideSpec(asks, depth);
      assert sb == SnapshotSide(bids, depth);
      assert sa == SnapshotSide(asks, depth);
      snap := EngineTypes.Snapshot(sb, sa);
    }
  }

  /** Extending a prefix of levels by one level adds that level's quantity. */
  lemma AppendLevel(ls: seq<Level>, i: nat)
    requires i < |ls|
    ensures SumLevels(ls[..i + 1]) == SumLevels(ls[..i]) + SumOrders(ls[i].orders)
  {
    assert ls[..i + 1] == ls[..i] + [ls[i]];
    SumLevelsAppend(ls[..i], [ls[i]]);
    assert [ls[i]][1..] == [];
  }

  /** The loop invariant of OrderBook.MatchLevel: matching `q0` is `done` followed by matching `q`. */
  ghost predicate MatchLevelResumes(takerId: nat, qty0: int, q0: seq<Order>, px: int, ts: nat,
                                    done: seq<Trade>, qty: int, q: seq<Order>)
    requires LiveOrders(q0) && LiveOrders(q)
  {
    var m := BookSpec.MatchLevel(takerId, qty, q, px, ts);
    BookSpec.MatchLevel(takerId, qty0, q0, px, ts) == LevelMatch(m.remaining, m.rest, done + m.trades)
  }

  /** One round of OrderBook.MatchLevel keeps its loop invariant. */
  lemma MatchLevelAdvance(takerId: nat, qty0: int, q0: seq<Order>, px: int, ts: nat,
                          done: seq<Trade>, qty: int, q: seq<Order>)
    requires LiveOrders(q0) && LiveOrders(q) && qty > 0 && q != []
    requires MatchLevelResumes(takerId, qty0, q0, px, ts, done, qty, q)
    ensures var t := Min(qty, q[0].qty);
      var tr := Trade(takerId, q[0].id, px, t, ts);
      var q' := if q[0].qty - t == 0 then q[1..] else q[0 := q[0].(qty := q[0].qty - t)];
      && LiveOrders(q')
      && MatchLevelResumes(takerId, qty0, q0, px, ts, done + [tr], qty - t, q')
  {
    if q[0].qty <= qty {
      MatchLevelAdvanceUsedUp(takerId, qty0, q0, px, ts, done, qty, q);
    } else {
      MatchLevelAdvanceFilled(takerId, qty0, q0, px, ts, done, qty, q);
    }
  }

  /** A round of OrderBook.MatchLevel that uses up the front maker. */
  lemma MatchLevelAdvanceUsedUp(takerId: nat, qty0: int, q0: seq<Order>, px: int, ts: nat,
                                done: seq<Trade>, qty: int, q: seq<Order>)
    requires LiveOrders(q0) && LiveOrders(q) && qty > 0 && q != [] && q[0].qty <= qty
    requires MatchLevelResumes(takerId, qty0, q0, px, ts, done, qty, q)
    ensures LiveOrders(q[1..])
    ensures MatchLevelResumes(takerId, qty0, q0, px, ts, done + [Trade(takerId, q[0].id, px, q[0].qty, ts)],
                              qty - q[0].qty, q[1..])
  {
    var tr := Trade(takerId, q[0].id, px, q[0].qty, ts);
    var m := BookSpec.MatchLevel(takerId, qty - q[0].qty, q[1..], px, ts);
    MatchLevelStep(takerId, qty, q, px, ts);
    assert BookSpec.MatchLevel(takerId, qty, q, px, ts) == LevelMatch(m.remaining, m.rest, [tr] + m.trades);
    assert done + ([tr] + m.trades) == (done + [tr]) + m.trades;
    assert BookSpec.MatchLevel(takerId, qty0, q0, px, ts) == LevelMatch(m.remaining, m.rest, done + ([tr] + m.trades));
  }

  /** A round of OrderBook.MatchLevel that fills the taker from a larger front maker. */
  lemma MatchLevelAdvanceFilled(takerId: nat, qty0: int, q0: seq<Order>, px: int, ts: nat,
                                done: seq<Trade>, qty: int, q: seq<Order>)
    requires LiveOrders(q0) && LiveOrders(q) && qty > 0 && q != [] && q[0].qty > qty
    requires MatchLevelResumes(takerId, qty0, q0, px, ts, done, qty, q)
    ensures LiveOrders(q[0 := q[0].(qty := q[0].qty - qty)])
    ensures MatchLevelResumes(takerId, qty0, q0, px, ts, done + [Trade(takerId, q[0].id, px, qty, ts)],
                              0, q[0 := q[0].(qty := q[0].qty - qty)])
  {
    MatchLevelStep(takerId, qty, q, px, ts);
    assert q[0 := q[0].(qty := q[0].qty - qty)] == [q[0].(qty := q[0].qty - qty)] + q[1..];
  }

  /**
   * One round of matching a level: the front maker trades min(taker, maker);
   * if it is used up the rest of the queue is matched, otherwise the taker
   * is done and the reduced maker stays at the front.
   */
  lemma MatchLevelStep(takerId: nat, qty: int, q: seq<Order>, px: int, ts: nat)
    requires LiveOrders(q) && qty > 0 && q != []
    ensures var tr := Trade(takerId, q[0].id, px, Min(qty, q[0].qty), ts);
      var m := BookSpec.MatchLevel(takerId, qty - q[0].qty, q[1..], px, ts);
      q[0].qty <= qty ==>
        BookSpec.MatchLevel(takerId, qty, q, px, ts) == LevelMatch(m.remaining, m.rest, [tr] + m.trades)
    ensures var tr := Trade(takerId, q[0].id, px, Min(qty, q[0].qty), ts);
      q[0].qty > qty ==>
        BookSpec.MatchLevel(takerId, qty, q, px, ts) == LevelMatch(0, [q[0].(qty := q[0].qty - qty)] + q[1..], [tr])
  {
  }

  /** The loop invariant of the sweeps: the whole sweep `m0` is `done` followed by sweeping `levels`. */
  ghost predicate SweepResumes(m0: SideMatch, takerId: nat, ts: nat, done: seq<Trade>, qty: int, levels: seq<Level>, n: nat)
    requires SideLive(levels)
  {
    var m := SweepN(takerId, qty, levels, n, ts);
    m0 == SideMatch(m.remaining, m.levels, done + m.trades)
  }

  /** A sweep that can go no further has nothing left to add to what is done. */
  lemma SweepResumesDone(m0: SideMatch, takerId: nat, ts: nat, done: seq<Trade>, qty: int, levels: seq<Level>, n: nat)
    requires SideLive(levels) && SweepResumes(m0, takerId, ts, done, qty, levels, n)
    requires qty <= 0 || n == 0 || levels == []
    ensures m0 == SideMatch(qty, levels, done)
  {
    assert done + [] == done;
  }

  /** A round of a sweep that empties the front level keeps the loop invariant without it. */
  lemma SweepAdvanceErase(m0: SideMatch, takerId: nat, ts: nat, done: seq<Trade>, qty: int, levels: seq<Level>, n: nat,
                          r: int, tr: seq<Trade>)
    requires SideLive(levels) && qty > 0 && levels != [] && n > 0
    requires SweepResumes(m0, takerId, ts, done, qty, levels, n)
    requires LevelMatch(r, [], tr) == BookSpec.MatchLevel(takerId, qty, levels[0].orders, levels[0].price, ts)
    ensures SideLive(levels[1..]) && SweepResumes(m0, takerId, ts, done + tr, r, levels[1..], n - 1)
  {
    var m := SweepN(takerId, r, levels[1..], n - 1, ts);
    assert done + (tr + m.trades) == (done + tr) + m.trades;
  }

  /** A round of a sweep that leaves the front level non-empty fills the taker and ends the sweep. */
  lemma SweepAdvanceKeep(m0: SideMatch, takerId: nat, ts: nat, done: seq<Trade>, qty: int, levels: seq<Level>, n: nat,
                         r: int, rest: seq<Order>, tr: seq<Trade>)
    requires SideLive(levels) && qty > 0 && levels != [] && n > 0
    requires SweepResumes(m0, takerId, ts, done, qty, levels, n)
    requires rest != []
    requires LevelMatch(r, rest, tr) == BookSpec.MatchLevel(takerId, qty, levels[0].orders, levels[0].price, ts)
    ensures r == 0 && SideLive(levels[0 := levels[0].(orders := rest)])
    ensures m0 == SideMatch(0, levels[0 := levels[0].(orders := rest)], done + tr)
    ensures SweepResumes(m0, takerId, ts, done + tr, 0, levels[0 := levels[0].(orders := rest)], n - 1)
  {
    assert levels[0 := levels[0].(orders := rest)] == [levels[0].(orders := rest)] + levels[1..];
    assert done + tr + [] == done + tr;
  }
}
