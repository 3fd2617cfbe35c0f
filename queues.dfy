/**
 * What the book does to one queue of resting orders, as functions on
 * sequences: `std::list::remove_if` by order id, the per-order effect of an
 * execution (reduce the matched order, purge stale crossed orders), and the
 * late-order netting of an incoming order.
 */
module Queues {
  import opened Types
  import opened CArith

  /** `a` is `b` with some elements left out, the rest in the same order. */
  predicate IsSubseq<T(==)>(a: seq<T>, b: seq<T>)
    decreases |b|
  {
    if b == [] then a == []
    else
      IsSubseq(a, b[..|b| - 1])
      || (a != [] && a[|a| - 1] == b[|b| - 1] && IsSubseq(a[..|a| - 1], b[..|b| - 1]))
  }

  /**
   * `remove_if(o.order_id == id)` on a queue: every order with that id is
   * dropped, every other order is kept, in its place.
   */
  function Without(q: seq<Order>, id: int): (r: seq<Order>)
    ensures forall o :: o in r <==> o in q && o.orderId != id
    ensures forall o :: multiset(r)[o] == if o.orderId == id then 0 else multiset(q)[o]
    ensures IsSubseq(r, q)
    decreases |q|
  {
    if q == [] then []
    else
      var init, last := q[..|q| - 1], q[|q| - 1];
      assert q == init + [last];
      var rest := Without(init, id);
      if last.orderId == id then rest
      else
        assert (rest + [last])[..|rest|] == rest;
        rest + [last]
  }

  /** The order id an execution names on a side: the buy order on the bid side. */
  function RefId(side: Side, t: Trade): int {
    if side == Bid then t.bidId else t.askId
  }

  /**
   * A resting order other than the matched one that the trade shows to be
   * stale: its price was crossed by the trade price (a bid above it, an ask
   * below it) and it is older than the trade.
   */
  predicate StaleCrossed(o: Order, side: Side, t: Trade) {
    (if side == Bid then o.price > t.price else o.price < t.price) && o.time < t.time
  }

  /** What one visit of the execution walk leaves of resting order `o`; [] when it is erased. */
  function TradeStep(o: Order, side: Side, t: Trade): seq<Order> {
    if o.orderId == RefId(side, t) then
      var reduced := o.(qty := o.qty - t.qty);
      if reduced.qty <= 0 then [] else [reduced]
    else if StaleCrossed(o, side, t) then []
    else [o]
  }

  /**
   * The queue after an execution walk over it, front to back: each order
   * becomes what `TradeStep` leaves of it.
   */
  function Traded(q: seq<Order>, side: Side, t: Trade): (r: seq<Order>)
    ensures |r| <= |q|
    decreases |q|
  {
    if q == [] then []
    else Traded(q[..|q| - 1], side, t) + TradeStep(q[|q| - 1], side, t)
  }

  lemma TradedSnoc(q: seq<Order>, i: int, side: Side, t: Trade)
    requires 0 <= i < |q|
    ensures Traded(q[..i + 1], side, t) == Traded(q[..i], side, t) + TradeStep(q[i], side, t)
  {
    assert q[..i + 1][..i] == q[..i];
  }

  /**
   * The state of an in-place execution walk over the original queue `q`
   * after `i` visits: the visited prefix has become what the walk leaves of
   * it and ends at position `j`, the rest is untouched.
   */
  predicate WalkAt(q: seq<Order>, i: int, side: Side, t: Trade, cur: seq<Order>, j: int) {
    0 <= i <= |q| && cur == Traded(q[..i], side, t) + q[i..] && j == |Traded(q[..i], side, t)|
  }

  lemma WalkStart(q: seq<Order>, side: Side, t: Trade)
    ensures WalkAt(q, 0, side, t, q, 0)
  {
    assert q[..0] == [] && q[0..] == q;
  }

  /** The walk is over once its position has reached the end of the queue. */
  lemma WalkDone(q: seq<Order>, i: int, side: Side, t: Trade, cur: seq<Order>, j: int)
    requires WalkAt(q, i, side, t, cur, j) && j >= |cur|
    ensures cur == Traded(q, side, t)
  {
    assert q[..i] == q && q[i..] == [];
  }

  /** Overwriting the visited order with `x` advances the walk when the step keeps it as `x`. */
  lemma WalkReplace(q: seq<Order>, i: int, side: Side, t: Trade, cur: seq<Order>, j: int, x: Order)
    requires WalkAt(q, i, side, t, cur, j) && j < |cur|
    requires TradeStep(cur[j], side, t) == [x]
    ensures WalkAt(q, i + 1, side, t, cur[j := x], j + 1)
  {
    TradedSnoc(q, i, side, t);
    assert cur[..j] == Traded(q[..i], side, t) && cur[j] == q[i] && cur[j + 1..] == q[i + 1..];
    assert cur[j := x] == Traded(q[..i], side, t) + [x] + q[i + 1..];
  }

  /** Erasing the visited order advances the walk when the step drops it. */
  lemma WalkErase(q: seq<Order>, i: int, side: Side, t: Trade, cur: seq<Order>, j: int)
    requires WalkAt(q, i, side, t, cur, j) && j < |cur|
    requires TradeStep(cur[j], side, t) == []
    ensures WalkAt(q, i + 1, side, t, cur[..j] + cur[j + 1..], j)
  {
    TradedSnoc(q, i, side, t);
    assert cur[..j] == Traded(q[..i], side, t) && cur[j] == q[i] && cur[j + 1..] == q[i + 1..];
  }

  /** Erasing the visited matched order advances the walk once nothing is left of it. */
  lemma WalkEraseMatched(q: seq<Order>, i: int, side: Side, t: Trade, cur: seq<Order>, j: int)
    requires WalkAt(q, i, side, t, cur, j) && j < |cur|
    requires cur[j].orderId == RefId(side, t) && Reduced(cur[j], t).qty <= 0
    ensures WalkAt(q, i + 1, side, t, cur[..j] + cur[j + 1..], j)
  {
    WalkErase(q, i, side, t, cur, j);
  }

  /** Erasing a visited stale order advances the walk. */
  lemma WalkEraseStale(q: seq<Order>, i: int, side: Side, t: Trade, cur: seq<Order>, j: int)
    requires WalkAt(q, i, side, t, cur, j) && j < |cur|
    requires cur[j].orderId != RefId(side, t) && StaleCrossed(cur[j], side, t)
    ensures WalkAt(q, i + 1, side, t, cur[..j] + cur[j + 1..], j)
  {
    WalkErase(q, i, side, t, cur, j);
  }

  /** Moving on past the visited order advances the walk when the step keeps it as it is. */
  lemma WalkKeep(q: seq<Order>, i: int, side: Side, t: Trade, cur: seq<Order>, j: int)
    requires WalkAt(q, i, side, t, cur, j) && j < |cur|
    requires cur[j].orderId != RefId(side, t) && !StaleCrossed(cur[j], side, t)
    ensures WalkAt(q, i + 1, side, t, cur, j + 1)
  {
    WalkReplace(q, i, side, t, cur, j, cur[j]);
    assert cur[j := cur[j]] == cur;
  }

  /** The matched order after the execution quantity is taken off it. */
  function Reduced(o: Order, t: Trade): Order {
    o.(qty := o.qty - t.qty)
  }

  /** Overwriting the visited matched order with its reduced self advances the walk while it stays positive. */
  lemma WalkReduce(q: seq<Order>, i: int, side: Side, t: Trade, cur: seq<Order>, j: int)
    requires WalkAt(q, i, side, t, cur, j) && j < |cur|
    requires cur[j].orderId == RefId(side, t) && Reduced(cur[j], t).qty > 0
    ensures WalkAt(q, i + 1, side, t, cur[j := Reduced(cur[j], t)], j + 1)
  {
    WalkReplace(q, i, side, t, cur, j, Reduced(cur[j], t));
  }

  /**
   * One visit of the execution walk of `on_traded` at position `j`: the
   * order with the side's id from the execution is reduced by the executed
   * quantity and erased when nothing is left of it; any other order that
   * the execution shows stale (bids priced above it, asks priced below it,
   * both older than it) is erased; the walk moves on past every order it
   * keeps.
   */
  method WalkStep(ghost q: seq<Order>, ghost i: int, side: Side, trade: Trade, r: seq<Order>, j: int)
    returns (r': seq<Order>, j': int)
    requires WalkAt(q, i, side, trade, r, j) && j < |r|
    ensures WalkAt(q, i + 1, side, trade, r', j')
    ensures |r'| - j' < |r| - j
  {
    var o := r[j];
    if o.orderId == RefId(side, trade) {
      var reduced := Reduced(o, trade);
      if reduced.qty <= 0 {
        WalkEraseMatched(q, i, side, trade, r, j);
        r', j' := r[..j] + r[j + 1..], j;
      } else {
        WalkReduce(q, i, side, trade, r, j);
        r', j' := r[j := reduced], j + 1;
      }
    } else if StaleCrossed(o, side, trade) {
      WalkEraseStale(q, i, side, trade, r, j);
      r', j' := r[..j] + r[j + 1..], j;
    } else {
      WalkKeep(q, i, side, trade, r, j);
      r', j' := r, j + 1;
    }
  }

  /** The execution walk of `on_traded` over one queue, erasing in place, front to back. */
  method WalkQueue(q: seq<Order>, side: Side, trade: Trade) returns (r: seq<Order>)
    ensures r == Traded(q, side, trade)
  {
    r := q;
    ghost var i := 0;
    var j := 0;
    WalkStart(q, side, trade);
    while j < |r|
      invariant WalkAt(q, i, side, trade, r, j)
      decreases |r| - j
    {
      r, j := WalkStep(q, i, side, trade, r, j);
      i := i + 1;
    }
    WalkDone(q, i, side, trade, r, j);
  }

  /**
   * What survives an execution walk: the matched order, reduced, while its
   * quantity stays positive; every other order unless it is stale and
   * crossed; nothing else.
   */
  lemma {:induction false} TradedSurvivors(q: seq<Order>, side: Side, t: Trade)
    ensures forall o :: o in q && o.orderId != RefId(side, t) && !StaleCrossed(o, side, t) ==> o in Traded(q, side, t)
    ensures forall o :: o in q && o.orderId == RefId(side, t) && o.qty > t.qty ==> Reduced(o, t) in Traded(q, side, t)
    ensures forall o :: o in Traded(q, side, t) && o.orderId != RefId(side, t) ==> o in q && !StaleCrossed(o, side, t)
    ensures forall o :: o in Traded(q, side, t) && o.orderId == RefId(side, t) ==>
      o.qty > 0 && exists p :: p in q && o == Reduced(p, t)
    decreases |q|
  {
    if q != [] {
      var init, last := q[..|q| - 1], q[|q| - 1];
      assert q == init + [last];
      TradedSurvivors(init, side, t);
    }
  }

  /** The order ids of a queue, front to back. */
  function Ids(q: seq<Order>): (ids: seq<int>)
    ensures |ids| == |q|
    ensures forall i :: 0 <= i < |q| ==> ids[i] == q[i].orderId
  {
    if q == [] then [] else [q[0].orderId] + Ids(q[1..])
  }

  lemma {:induction false} IdsAppend(a: seq<Order>, b: seq<Order>)
    ensures Ids(a + b) == Ids(a) + Ids(b)
    decreases |a|
  {
    if a == [] {
      assert a + b == b;
    } else {
      assert (a + b)[0] == a[0] && (a + b)[1..] == a[1..] + b;
      IdsAppend(a[1..], b);
    }
  }

  /** Extending the longer sequence by one element keeps a subsequence, and so does extending both by the same one. */
  lemma SubseqExtend<T>(a: seq<T>, s: seq<T>, b: seq<T>, l: seq<T>)
    requires IsSubseq(a, b) && |l| == 1 && (s == [] || s == l)
    ensures IsSubseq(a + s, b + l)
  {
    assert (b + l)[..|b + l| - 1] == b;
    if s == [] {
      assert a + s == a;
    } else {
      assert (a + s)[..|a + s| - 1] == a;
    }
  }

  /** An execution walk keeps the surviving orders in their relative queue order. */
  lemma {:induction false} TradedKeepsOrder(q: seq<Order>, side: Side, t: Trade)
    ensures IsSubseq(Ids(Traded(q, side, t)), Ids(q))
    decreases |q|
  {
    if q != [] {
      var init, last := q[..|q| - 1], q[|q| - 1];
      assert q == init + [last];
      TradedKeepsOrder(init, side, t);
      var before, step := Traded(init, side, t), TradeStep(last, side, t);
      IdsAppend(before, step);
      IdsAppend(init, [last]);
      assert step == [] || Ids(step) == Ids([last]);
      SubseqExtend(Ids(before), Ids(step), Ids(init), Ids([last]));
    }
  }

  /** The quantity left of an incoming order after netting it against a late-event store entry. */
  function Netted(late: map<int, int>, o: Order): Order {
    if o.orderId in late then o.(qty := Max(o.qty - late[o.orderId], 0)) else o
  }

  /** An incoming order the late-event store absorbs entirely. */
  predicate Absorbed(late: map<int, int>, o: Order) {
    o.orderId in late && o.qty <= late[o.orderId]
  }

  /** An order belongs on the side: a buy order on the bid side, a sell order on the ask side. */
  predicate OnSide(o: Order, side: Side) {
    if side == Bid then o.IsBuy() else o.IsSell()
  }

  /** A queue of one side: every order has positive quantity and belongs on that side. */
  predicate Resting(q: seq<Order>, side: Side) {
    forall o :: o in q ==> o.qty > 0 && OnSide(o, side)
  }

  /** An execution walk leaves a queue of the side a queue of the side. */
  lemma TradedResting(q: seq<Order>, side: Side, t: Trade)
    requires Resting(q, side)
    ensures Resting(Traded(q, side, t), side)
  {
    TradedSurvivors(q, side, t);
    forall o | o in Traded(q, side, t) ensures o.qty > 0 && OnSide(o, side) {
      if o.orderId == RefId(side, t) {
        var p :| p in q && o == Reduced(p, t);
        assert OnSide(p, side);
      }
    }
  }

  /**
   * Netting against the store: an order whose id is stored loses the stored
   * quantity, never going below zero, and is absorbed exactly when nothing
   * is left; any other order passes through.
   */
  lemma NettedFacts(late: map<int, int>, o: Order)
    ensures Netted(late, o) == o.(qty := Netted(late, o).qty)
    ensures o.orderId !in late ==> Netted(late, o) == o
    ensures o.orderId in late ==> Netted(late, o).qty >= 0
    ensures Absorbed(late, o) <==> o.orderId in late && Netted(late, o).qty == 0
  {
  }
}
