/**
 * Market-data event records of the order book: the exchange tag, the order
 * and trade events, and the exchange-specific side and type codes.
 *
 * Prices are integer ticks (the book only compares prices and uses them as
 * keys); quantities, ids and times are unbounded integers.
 */
module Types {

  /** The two exchanges whose feeds the book understands. */
  datatype Exchange = SH | SZ

  /** Which queue of the book an order rests in. */
  datatype Side = Bid | Ask

  // Shanghai side codes and order types
  const ShBuy: char := 'B'
  const ShSell: char := 'S'
  const ShAdd: char := 'A'
  const ShDel: char := 'D'

  // Shenzhen side codes (borrow and loan are neither buy nor sell) and order types
  const SzBuy: char := '1'
  const SzSell: char := '2'
  const SzBorrow: char := 'G'
  const SzLoan: char := 'F'
  const SzMarket: char := '1'
  const SzLimit: char := '2'
  const SzBetter: char := 'U'

  /** Shenzhen trade flag of an execution record that reports a cancellation. */
  const SzCancelFlag: char := '4'
  /** Shenzhen trade flag of an execution record that reports a fill. */
  const SzFillFlag: char := 'F'

  /** An order event, and a resting order once it is queued. */
  datatype Order = Order(
    ticker: string,
    recTime: int,
    time: int,
    channelNo: int,
    orderId: int,
    price: int,
    qty: int,
    side: char,
    ordType: char,
    originOrderId: int,
    businessNo: int,
    exchange: Exchange)
  {
    /** Buy side: 'B' on Shanghai, '1' on Shenzhen. */
    function IsBuy(): (b: bool)
      ensures exchange == SH ==> (b <==> side == ShBuy)
      ensures exchange == SZ ==> (b <==> side == SzBuy)
      ensures b ==> side != ShSell && side != SzSell
    {
      if exchange == SH then side == ShBuy else side == SzBuy
    }

    /** Sell side: 'S' on Shanghai, '2' on Shenzhen. */
    function IsSell(): (b: bool)
      ensures exchange == SH ==> (b <==> side == ShSell)
      ensures exchange == SZ ==> (b <==> side == SzSell)
      ensures b ==> !IsBuy()
    {
      if exchange == SH then side == ShSell else side == SzSell
    }

    /** A Shanghai order event whose type code asks for deletion of a resting order. */
    predicate IsShDelete() {
      exchange == SH && ordType == ShDel
    }
  }

  /** The all-zero order a default-initialised record holds. */
  const NoOrder: Order := Order("", 0, 0, 0, 0, 0, 0, '\0', '\0', 0, 0, SH)

  /** An execution (or, on Shenzhen, cancellation) event. */
  datatype Trade = Trade(
    ticker: string,
    recTime: int,
    time: int,
    channelId: int,
    tradeId: int,
    price: int,
    qty: int,
    amount: int,
    bidId: int,
    askId: int,
    tradeFlag: char,
    exchange: Exchange,
    businessNo: int)
  {
    /** `is_buy`: the ask (sell) order id is the larger one. */
    function IsBuy(): (b: bool)
      ensures b ==> bidId != askId
      ensures b <==> askId > bidId
    {
      askId > bidId
    }

    /** `is_sell`: the bid (buy) order id is the larger one. */
    function IsSell(): (b: bool)
      ensures b ==> !IsBuy()
      ensures b <==> bidId > askId
    {
      bidId > askId
    }

    /** A Shenzhen execution record that carries a cancellation. */
    predicate IsSzCancel() {
      exchange == SZ && tradeFlag == SzCancelFlag
    }
  }

  /** The Shenzhen borrow and loan codes are neither buy nor sell. */
  lemma BorrowAndLoanHaveNoSide(o: Order)
    requires o.exchange == SZ && (o.side == SzBorrow || o.side == SzLoan)
    ensures !o.IsBuy() && !o.IsSell()
  {
  }

  /** A trade whose two ids are equal satisfies neither `is_buy` nor `is_sell`. */
  lemma TradeEqualIdsHaveNoSide(t: Trade)
    requires t.bidId == t.askId
    ensures !t.IsBuy() && !t.IsSell()
  {
  }
}
