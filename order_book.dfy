/**
 * The per-symbol order book: two FIFO queues of resting orders, the
 * last-seen order id used as a watermark, the time of the last event, the
 * best-order caches, the late-event store, and the two depth snapshots the
 * matching simulation leaves behind.
 */
module Book {
  import opened Types
  import opened CArith
  import opened Queues
  import opened Levels

  class OrderBook {
    var lastOrderId: int
    var lastMsgTime: int
    var bestBid: Order
    var bestAsk: Order
    var bids: seq<Order>
    var asks: seq<Order>
    /** Order id to quantity, for cancels and executions that arrived before their order. */
    var lateOrders: map<int, int>
    var bidBookSnapshot: seq<Level>
    var askBookSnapshot: seq<Level>

    /**
     * Each queue holds only positive orders of its own side; the snapshots
     * are depth maps in their map order with positive levels and no bid
     * level at or above an ask level.
     */
    ghost predicate Valid()
      reads this
    {
      && Resting(bids, Bid) && Resting(asks, Ask)
      && Sorted(bidBookSnapshot, Bid) && Sorted(askBookSnapshot, Ask)
      && Positive(bidBookSnapshot) && Positive(askBookSnapshot)
      && Uncrossed(bidBookSnapshot, askBookSnapshot)
    }

    /** An empty book: no orders, no late events, watermark and time at zero. */
    constructor()
      ensures Valid()
      ensures lastOrderId == 0 && lastMsgTime == 0
      ensures bestBid == NoOrder && bestAsk == NoOrder
      ensures bids == [] && asks == [] && lateOrders == map[]
      ensures bidBookSnapshot == [] && askBookSnapshot == []
    {
      lastOrderId := 0;
      lastMsgTime := 0;
      bestBid := NoOrder;
      bestAsk := NoOrder;
      bids := [];
      asks := [];
      lateOrders := map[];
      bidBookSnapshot := [];
      askBookSnapshot := [];
    }

    /** The number of resting orders on both sides. */
    function Size(): (n: nat)
      reads this
      ensures n == |bids| + |asks|
    {
      |bids| + |asks|
    }

    /** The book holds no resting order. */
    predicate Empty()
      reads this
      ensures Empty() <==> bids == [] && asks == []
    {
      Size() == 0
    }

    /** `operator bool`: the book holds some resting order. */
    predicate NonEmpty()
      reads this
      ensures NonEmpty() <==> exists o :: o in bids || o in asks
    {
      assert bids != [] ==> bids[0] in bids;
      assert asks != [] ==> asks[0] in asks;
      !Empty()
    }

    /** The bid depth the last bid-side simulation left: sorted, positive, below every ask level. */
    function BidBookSnapshot(): (r: seq<Level>)
      reads this
      requires Valid()
      ensures Sorted(r, Bid) && Positive(r) && Uncrossed(r, askBookSnapshot)
    {
      bidBookSnapshot
    }

    /** The ask depth the last simulation left: sorted, positive, above every bid level. */
    function AskBookSnapshot(): (r: seq<Level>)
      reads this
      requires Valid()
      ensures Sorted(r, Ask) && Positive(r) && Uncrossed(bidBookSnapshot, r)
    {
      askBookSnapshot
    }

    /** Nothing of the book but possibly its queues and best caches changed. */
    twostate predicate OnlyQueuesChanged()
      reads this
    {
      && lastOrderId == old(lastOrderId) && lastMsgTime == old(lastMsgTime)
      && lateOrders == old(lateOrders)
      && bidBookSnapshot == old(bidBookSnapshot) && askBookSnapshot == old(askBookSnapshot)
    }

    /** Nothing of the book but possibly its snapshots changed. */
    twostate predicate OnlySnapshotsChanged()
      reads this
    {
      && lastOrderId == old(lastOrderId) && lastMsgTime == old(lastMsgTime)
      && lateOrders == old(lateOrders)
      && bids == old(bids) && asks == old(asks) && bestBid == old(bestBid) && bestAsk == old(bestAsk)
    }

    /** The queues and the best caches are as they were. */
    twostate predicate QueuesKept()
      reads this
    {
      bids == old(bids) && asks == old(asks) && bestBid == old(bestBid) && bestAsk == old(bestAsk)
    }

    /**
     * What `add_order` does to the queues and caches: a buy order goes to
     * the back of the bid queue and becomes the best bid when there was none
     * (price 0) or it is strictly higher; a sell order likewise on the ask
     * side with strictly lower; an order of neither side changes nothing.
     */
    twostate predicate Added(order: Order)
      reads this
    {
      if order.IsBuy() then
        && bids == old(bids) + [order] && asks == old(asks) && bestAsk == old(bestAsk)
        && bestBid == (if old(bestBid).price == 0 || order.price > old(bestBid).price then order else old(bestBid))
      else if order.IsSell() then
        && asks == old(asks) + [order] && bids == old(bids) && bestBid == old(bestBid)
        && bestAsk == (if old(bestAsk).price == 0 || order.price < old(bestAsk).price then order else old(bestAsk))
      else
        bids == old(bids) && asks == old(asks) && bestBid == old(bestBid) && bestAsk == old(bestAsk)
    }

    /** Queues an order on the side it names. */
    method AddOrder(order: Order)
      requires Valid()
      modifies this
      ensures Added(order) && OnlyQueuesChanged()
      ensures order.qty > 0 ==> Valid()
      ensures Size() == old(Size()) + (if order.IsBuy() || order.IsSell() then 1 else 0)
    {
      if order.IsBuy() {
        bids := bids + [order];
        if bestBid.price == 0 || order.price > bestBid.price {
          bestBid := order;
        }
      } else if order.IsSell() {
        asks := asks + [order];
        if bestAsk.price == 0 || order.price < bestAsk.price {
          bestAsk := order;
        }
      }
    }

    /**
     * `trade_supped`: nets an incoming order against a late event stored
     * under its id. Returns whether nothing of the order is left, and the
     * order with what is left of its quantity; the store is not changed.
     */
    method TradeSupped(order: Order) returns (supped: bool, netted: Order)
      ensures netted == Netted(lateOrders, order)
      ensures supped == Absorbed(lateOrders, order)
    {
      netted := order;
      supped := false;
      if order.orderId in lateOrders {
        var qty := Min(lateOrders[order.orderId], order.qty);
        netted := order.(qty := order.qty - qty);
        supped := netted.qty <= 0;
      }
    }

    /**
     * Ingests an order event. The watermark and the time are set from the
     * event first. An event the late store absorbs changes nothing else. A
     * Shanghai delete removes every order with its id from the queue of its
     * side. Any other event is queued with its netted quantity if that is
     * positive.
     */
    method OnOrder(order: Order)
      requires Valid()
      modifies this
      ensures Valid()
      ensures lastOrderId == order.orderId && lastMsgTime == order.time
      ensures lateOrders == old(lateOrders)
      ensures bidBookSnapshot == old(bidBookSnapshot) && askBookSnapshot == old(askBookSnapshot)
      ensures Absorbed(old(lateOrders), order) ==> QueuesKept()
      ensures !Absorbed(old(lateOrders), order) && order.IsShDelete() ==>
        && bids == (if order.IsBuy() then Without(old(bids), order.orderId) else old(bids))
        && asks == (if order.IsSell() then Without(old(asks), order.orderId) else old(asks))
        && bestBid == old(bestBid) && bestAsk == old(bestAsk)
      ensures !Absorbed(old(lateOrders), order) && !order.IsShDelete() ==>
        if Netted(old(lateOrders), order).qty > 0 then Added(Netted(old(lateOrders), order)) else QueuesKept()
    {
      lastOrderId := order.orderId;
      lastMsgTime := order.time;
      var supped, newOrder := TradeSupped(order);
      if supped {
        return;
      }
      if newOrder.exchange == SH && newOrder.ordType == ShDel {
        if newOrder.IsBuy() {
          bids := Without(bids, newOrder.orderId);
        } else if newOrder.IsSell() {
          asks := Without(asks, newOrder.orderId);
        }
      } else if newOrder.qty > 0 {
        AddOrder(newOrder);
      }
    }

    /**
     * What `on_cancel` does: the cancelled id is the bid id when that is
     * not 0, else the ask id. An id at or below the watermark is removed from
     * that side's queue; a later id is stored as a late event with the
     * record's quantity.
     */
    twostate predicate Cancelled(trade: Trade)
      reads this
    {
      var id := if trade.bidId != 0 then trade.bidId else trade.askId;
      if old(lastOrderId) >= id then
        && lateOrders == old(lateOrders)
        && bids == (if trade.bidId != 0 then Without(old(bids), id) else old(bids))
        && asks == (if trade.bidId != 0 then old(asks) else Without(old(asks), id))
      else
        lateOrders == old(lateOrders)[id := trade.qty] && bids == old(bids) && asks == old(asks)
    }

    /**
     * What `on_traded` does: the bid id when the ask id is larger, else the
     * ask id, is stored as a late event when it is above the watermark;
     * each side whose id is at or below the watermark gets the execution
     * walk.
     */
    twostate predicate Executed(trade: Trade)
      reads this
    {
      var lateId := if trade.IsBuy() then trade.bidId else trade.askId;
      && lateOrders == (if old(lastOrderId) < lateId then old(lateOrders)[lateId := trade.qty] else old(lateOrders))
      && bids == (if old(lastOrderId) >= trade.bidId then Traded(old(bids), Bid, trade) else old(bids))
      && asks == (if old(lastOrderId) >= trade.askId then Traded(old(asks), Ask, trade) else old(asks))
    }

    /** Everything but the queues and the late store is as it was. */
    twostate predicate OnlyQueuesAndStoreChanged()
      reads this
    {
      && lastOrderId == old(lastOrderId) && lastMsgTime == old(lastMsgTime)
      && bestBid == old(bestBid) && bestAsk == old(bestAsk)
      && bidBookSnapshot == old(bidBookSnapshot) && askBookSnapshot == old(askBookSnapshot)
    }

    /**
     * Ingests an execution record. The time is set from the record; a
     * Shenzhen record with the cancel flag is a cancellation, any other is
     * an execution.
     */
    method OnTrade(trade: Trade)
      requires Valid()
      modifies this
      ensures Valid()
      ensures lastMsgTime == trade.time
      ensures lastOrderId == old(lastOrderId) && bestBid == old(bestBid) && bestAsk == old(bestAsk)
      ensures bidBookSnapshot == old(bidBookSnapshot) && askBookSnapshot == old(askBookSnapshot)
      ensures if trade.IsSzCancel() then Cancelled(trade) else Executed(trade)
    {
      lastMsgTime := trade.time;
      if trade.exchange == SZ && trade.tradeFlag == SzCancelFlag {
        OnCancel(trade);
      } else {
        OnTraded(trade);
      }
    }

    method OnCancel(trade: Trade)
      requires Valid()
      modifies this
      ensures Valid()
      ensures Cancelled(trade) && OnlyQueuesAndStoreChanged()
    {
      if trade.bidId != 0 {
        var id := trade.bidId;
        if lastOrderId >= id {
          bids := Without(bids, id);
        } else {
          lateOrders := lateOrders[id := trade.qty];
        }
      } else {
        var id := trade.askId;
        if lastOrderId >= id {
          asks := Without(asks, id);
        } else {
          lateOrders := lateOrders[id := trade.qty];
        }
      }
    }

    method OnTraded(trade: Trade)
      requires Valid()
      modifies this
      ensures Valid()
      ensures Executed(trade) && OnlyQueuesAndStoreChanged()
    {
      var tradeId := if trade.IsBuy() then trade.bidId else trade.askId;
      if lastOrderId < tradeId {
        lateOrders := lateOrders[tradeId := trade.qty];
      }
      if lastOrderId >= trade.bidId {
        bids := WalkQueue(bids, Bid, trade);
      }
      if lastOrderId >= trade.askId {
        asks := WalkQueue(asks, Ask, trade);
      }
      TradedResting(old(bids), Bid, trade);
      TradedResting(old(asks), Ask, trade);
    }

    /**
     * `get_bid_book`: the bid depth, built by adding each bid's quantity to
     * its price level. Its keys are exactly the bid prices, highest first,
     * each maps to the quantity resting there, and the values add up to the
     * queue's quantity. It depends on the bid queue only.
     */
    method GetBidBook() returns (book: seq<Level>)
      ensures book == BookOf(bids, Bid)
      ensures Sorted(book, Bid)
      ensures Prices(book) == QueuePrices(bids)
      ensures forall p :: QtyAt(book, p) == SumAt(bids, p)
      ensures Total(book) == TotalQty(bids)
    {
      book := [];
      for i := 0 to |bids|
        invariant book == BookOf(bids[..i], Bid)
      {
        assert bids[..i + 1][..i] == bids[..i];
        book := Credit(book, Bid, bids[i].price, bids[i].qty);
      }
      assert bids[..|bids|] == bids;
      BookSorted(bids, Bid);
      BookPrices(bids, Bid);
      BookTotal(bids, Bid);
      forall p ensures QtyAt(book, p) == SumAt(bids, p) {
        BookQty(bids, Bid, p);
      }
    }

    /** `get_ask_book`: the ask depth, lowest price first; as for bids. */
    method GetAskBook() returns (book: seq<Level>)
      ensures book == BookOf(asks, Ask)
      ensures Sorted(book, Ask)
      ensures Prices(book) == QueuePrices(asks)
      ensures forall p :: QtyAt(book, p) == SumAt(asks, p)
      ensures Total(book) == TotalQty(asks)
    {
      book := [];
      for i := 0 to |asks|
        invariant book == BookOf(asks[..i], Ask)
      {
        assert asks[..i + 1][..i] == asks[..i];
        book := Credit(book, Ask, asks[i].price, asks[i].qty);
      }
      assert asks[..|asks|] == asks;
      BookSorted(asks, Ask);
      BookPrices(asks, Ask);
      BookTotal(asks, Ask);
      forall p ensures QtyAt(book, p) == SumAt(asks, p) {
        BookQty(asks, Ask, p);
      }
    }

    /**
     * `match_bid_book`: takes fresh snapshots of both depths and lets each
     * bid level, highest first, trade against the ask levels. Only the
     * snapshots change; what the bid snapshot loses the ask snapshot loses.
     */
    method MatchBidBook()
      requires Valid()
      modifies this
      ensures Valid() && OnlySnapshotsChanged()
      ensures (bidBookSnapshot, askBookSnapshot) == Cross(Bid, BookOf(bids, Bid), BookOf(asks, Ask))
      ensures Prices(bidBookSnapshot) <= QueuePrices(bids) && Prices(askBookSnapshot) <= QueuePrices(asks)
      ensures TotalQty(bids) - Total(bidBookSnapshot) == TotalQty(asks) - Total(askBookSnapshot)
    {
      var bidBook := GetBidBook();
      var askBook := GetAskBook();
      BookPositive(bids, Bid);
      BookPositive(asks, Ask);
      bidBookSnapshot, askBookSnapshot := CrossLevels(Bid, bidBook, askBook);
      CrossLeavesDepth(Bid, bidBook, askBook);
      CrossConserves(Bid, bidBook, askBook);
    }

    /** `match_ask_book`: as `match_bid_book` with each ask level, lowest first, as the taker. */
    method MatchAskBook()
      requires Valid()
      modifies this
      ensures Valid() && OnlySnapshotsChanged()
      ensures (askBookSnapshot, bidBookSnapshot) == Cross(Ask, BookOf(asks, Ask), BookOf(bids, Bid))
      ensures Prices(bidBookSnapshot) <= QueuePrices(bids) && Prices(askBookSnapshot) <= QueuePrices(asks)
      ensures TotalQty(bids) - Total(bidBookSnapshot) == TotalQty(asks) - Total(askBookSnapshot)
    {
      var bidBook := GetBidBook();
      var askBook := GetAskBook();
      BookPositive(bids, Bid);
      BookPositive(asks, Ask);
      askBookSnapshot, bidBookSnapshot := CrossLevels(Ask, askBook, bidBook);
      CrossLeavesDepth(Ask, askBook, bidBook);
      CrossConserves(Ask, askBook, bidBook);
    }

    /** `match_order`: a sell order runs the ask-side simulation, a buy order the bid-side one. */
    method MatchOrder(order: Order)
      requires Valid()
      modifies this
      ensures Valid() && OnlySnapshotsChanged()
      ensures order.IsSell() ==>
        (askBookSnapshot, bidBookSnapshot) == Cross(Ask, BookOf(asks, Ask), BookOf(bids, Bid))
      ensures order.IsBuy() ==>
        (bidBookSnapshot, askBookSnapshot) == Cross(Bid, BookOf(bids, Bid), BookOf(asks, Ask))
      ensures !order.IsBuy() && !order.IsSell() ==>
        bidBookSnapshot == old(bidBookSnapshot) && askBookSnapshot == old(askBookSnapshot)
    {
      if order.IsSell() {
        MatchAskBook();
      } else if order.IsBuy() {
        MatchBidBook();
      }
    }
  }
}
