/**
 * Short event sequences run through a fresh book, with what the book holds
 * afterwards. Prices are in ticks of 0.1.
 */
module BookScenarios {
  import opened Types
  import opened Queues
  import opened Book

  /** A Shenzhen limit order event. */
  function SzOrder(id: int, side: char, price: int, qty: int, time: int): Order {
    Order("000001", time, time, 1, id, price, qty, side, SzLimit, 0, id, SZ)
  }

  /** A Shenzhen fill record. */
  function SzFill(bidId: int, askId: int, price: int, qty: int, time: int): Trade {
    Trade("000001", time, time, 1, 1, price, qty, 0, bidId, askId, SzFillFlag, SZ, 1)
  }

  /** The simulation for the sell of 40 at 9.5 against the bid of 100 at 10.0 leaves 60 at 10.0. */
  lemma PartialFillDepth(buy: Order, sell: Order)
    requires buy == SzOrder(1, SzBuy, 100, 100, 1) && sell == SzOrder(2, SzSell, 95, 40, 2)
    ensures Levels.Cross(Ask, Levels.BookOf([sell], Ask), Levels.BookOf([buy], Bid)) == ([], [Levels.Level(100, 60)])
  {
    assert Levels.BookOf([sell], Ask) == [Levels.Level(95, 40)] by {
      assert [sell][..0] == [];
    }
    assert Levels.BookOf([buy], Bid) == [Levels.Level(100, 100)] by {
      assert [buy][..0] == [];
    }
    var maker := Levels.Level(100, 100);
    assert Levels.Fill(Ask, 95, 40, maker) == 40;
    assert Levels.Kept(maker, 40) == [Levels.Level(100, 60)];
    assert Levels.Sweep(Ask, 95, 0, []) == (0, []);
    Levels.SweepUnfold(Ask, 95, 40, maker, []);
    assert [maker] + [] == [maker];
    assert [Levels.Level(100, 60)] + [] == [Levels.Level(100, 60)];
    assert Levels.Sweep(Ask, 95, 40, [maker]).1 == [Levels.Level(100, 60)];
    assert Levels.Sweep(Ask, 95, 40, [maker]) == (0, [Levels.Level(100, 60)]);
    var taker := Levels.Level(95, 40);
    Levels.CrossUnfold(Ask, taker, [], [maker]);
    assert [taker] + [] == [taker];
    assert Levels.Cross(Ask, [], [Levels.Level(100, 60)]) == ([], [Levels.Level(100, 60)]);
    assert Levels.Cross(Ask, [taker], [maker]).0 == [];
    assert Levels.Cross(Ask, [taker], [maker]).1 == [Levels.Level(100, 60)];
    assert Levels.Cross(Ask, [taker], [maker]) == ([], [Levels.Level(100, 60)]);
  }

  /** The fill of 40 leaves 60 of the bid and nothing of the ask. */
  lemma PartialFillQueues(buy: Order, sell: Order, t: Trade)
    requires buy == SzOrder(1, SzBuy, 100, 100, 1) && sell == SzOrder(2, SzSell, 95, 40, 2)
    requires t == SzFill(1, 2, 95, 40, 3)
    ensures Traded([buy], Bid, t) == [SzOrder(1, SzBuy, 100, 60, 1)]
    ensures Traded([sell], Ask, t) == []
  {
    assert [buy][..0] == [] && [sell][..0] == [];
  }

  /**
   * A buy of 100 at 10.0, then a sell of 40 at 9.5, then the fill of 40
   * between them: the bid rests with 60 left, the ask queue is empty, and
   * the simulation run for the sell left 60 at 10.0 and no ask level.
   */
  method PartialFill() returns (bids: seq<Order>, asks: seq<Order>, bidDepth: seq<Levels.Level>, askDepth: seq<Levels.Level>)
    ensures bids == [SzOrder(1, SzBuy, 100, 60, 1)] && asks == []
    ensures bidDepth == [Levels.Level(100, 60)] && askDepth == []
  {
    var book := new OrderBook();
    var buy, sell := SzOrder(1, SzBuy, 100, 100, 1), SzOrder(2, SzSell, 95, 40, 2);
    var fill := SzFill(1, 2, 95, 40, 3);
    book.OnOrder(buy);
    assert book.bids == [buy] && book.asks == [];
    book.OnOrder(sell);
    assert book.bids == [buy] && book.asks == [sell] && book.lastOrderId == 2;
    book.MatchOrder(sell);
    PartialFillDepth(buy, sell);
    bidDepth, askDepth := book.bidBookSnapshot, book.askBookSnapshot;
    PartialFillQueues(buy, sell, fill);
    book.OnTrade(fill);
    bids, asks := book.bids, book.asks;
  }

  /**
   * A fill of 30 naming buy order 5 and sell order 6 before either was
   * seen, then buy order 5 of 30: the fill is stored under the buy id, the
   * smaller one, and absorbs the order, which never rests.
   */
  method LateFillAbsorbs() returns (late: map<int, int>, bids: seq<Order>)
    ensures late == map[5 := 30] && bids == []
  {
    var book := new OrderBook();
    book.OnTrade(SzFill(5, 6, 110, 30, 1));
    late := book.lateOrders;
    book.OnOrder(SzOrder(5, SzBuy, 110, 30, 2));
    bids := book.bids;
  }

  /**
   * A fill of 30 naming buy order 5 and no sell order, then buy order 5 of
   * 30: the larger id is the buy id, so the id stored is the sell id 0,
   * which is not above the watermark; nothing is stored and the order
   * rests in full.
   */
  method LateFillWithoutAskId() returns (late: map<int, int>, bids: seq<Order>)
    ensures late == map[] && bids == [SzOrder(5, SzBuy, 110, 30, 2)]
  {
    var book := new OrderBook();
    book.OnTrade(SzFill(5, 0, 110, 30, 1));
    late := book.lateOrders;
    book.OnOrder(SzOrder(5, SzBuy, 110, 30, 2));
    bids := book.bids;
  }
}
