/**
 * Aggregated depth: a side's `std::map` from price to total quantity, held
 * as a sequence of levels in the map's iteration order (bids by descending
 * price, asks by ascending price); the aggregation of a queue into levels;
 * and the matching simulation that crosses the two sides' levels.
 */
module Levels {
  import opened Types
  import opened CArith

  /** One price level of a depth map: the price and the quantity resting there. */
  datatype Level = Level(price: int, qty: int)

  function Opposite(side: Side): Side {
    if side == Bid then Ask else Bid
  }

  /** Price `a` comes before price `b` in the side's map: bids descending, asks ascending. */
  predicate Precedes(side: Side, a: int, b: int) {
    if side == Bid then a > b else a < b
  }

  /** Strictly in the side's map order, so in particular no price twice: each price comes before all later ones. */
  predicate Sorted(levels: seq<Level>, side: Side)
    decreases |levels|
  {
    levels == [] || (Leads(side, levels[0].price, levels[1..]) && Sorted(levels[1..], side))
  }

  predicate Positive(levels: seq<Level>) {
    forall l :: l in levels ==> l.qty > 0
  }

  /** The keys of the map. */
  function Prices(levels: seq<Level>): set<int> {
    set l | l in levels :: l.price
  }

  /** The map's value at `p`, 0 when `p` is not a key (what `operator[]` starts from). */
  function QtyAt(levels: seq<Level>, p: int): int {
    if levels == [] then 0
    else if levels[0].price == p then levels[0].qty
    else QtyAt(levels[1..], p)
  }

  /** The sum of all values of the map. */
  function Total(levels: seq<Level>): int {
    if levels == [] then 0 else levels[0].qty + Total(levels[1..])
  }

  lemma {:induction false} TotalAppend(a: seq<Level>, b: seq<Level>)
    ensures Total(a + b) == Total(a) + Total(b)
  {
    if a == [] {
      assert a + b == b;
    } else {
      assert (a + b)[0] == a[0];
      assert (a + b)[1..] == a[1..] + b;
      TotalAppend(a[1..], b);
    }
  }

  /** Price `p` comes before every price of `levels` in the side's order. */
  predicate Leads(side: Side, p: int, levels: seq<Level>) {
    forall l :: l in levels ==> Precedes(side, p, l.price)
  }

  /** Leading is a property of the prices alone. */
  lemma LeadsPrices(side: Side, p: int, levels: seq<Level>)
    ensures Leads(side, p, levels) <==> forall x :: x in Prices(levels) ==> Precedes(side, p, x)
  {
    if forall x :: x in Prices(levels) ==> Precedes(side, p, x) {
      forall l | l in levels ensures Precedes(side, p, l.price) {
        assert l.price in Prices(levels);
      }
    }
  }

  lemma LeadsSubset(side: Side, p: int, a: seq<Level>, b: seq<Level>)
    requires Prices(a) <= Prices(b) && Leads(side, p, b)
    ensures Leads(side, p, a)
  {
    forall l | l in a ensures Precedes(side, p, l.price) {
      assert l.price in Prices(a);
      var m :| m in b && m.price == l.price;
    }
  }

  lemma {:induction false} QtyAtAbsent(levels: seq<Level>, p: int)
    requires p !in Prices(levels)
    ensures QtyAt(levels, p) == 0
  {
    if levels != [] {
      assert levels[0] in levels;
      assert Prices(levels[1..]) <= Prices(levels);
      QtyAtAbsent(levels[1..], p);
    }
  }

  /** Sorted levels are a head that precedes every later price, followed by sorted levels. */
  lemma SortedCons(x: Level, rest: seq<Level>, side: Side)
    ensures Sorted([x] + rest, side) <==> Sorted(rest, side) && Leads(side, x.price, rest)
  {
    assert ([x] + rest)[0] == x && ([x] + rest)[1..] == rest;
  }

  /** Sorted is the pairwise order: of any two levels, the earlier price comes first. */
  lemma {:induction false} SortedPairwise(levels: seq<Level>, side: Side)
    ensures Sorted(levels, side) <==>
      forall i, j :: 0 <= i < j < |levels| ==> Precedes(side, levels[i].price, levels[j].price)
    decreases |levels|
  {
    if levels != [] {
      var x, rest := levels[0], levels[1..];
      SortedPairwise(rest, side);
      if Sorted(levels, side) {
        forall i, j | 0 <= i < j < |levels| ensures Precedes(side, levels[i].price, levels[j].price) {
          assert levels[j] == rest[j - 1] && levels[j] in rest;
          if i > 0 {
            assert levels[i] == rest[i - 1];
          }
        }
      }
      if forall i, j :: 0 <= i < j < |levels| ==> Precedes(side, levels[i].price, levels[j].price) {
        forall l | l in rest ensures Precedes(side, x.price, l.price) {
          var k :| 0 <= k < |rest| && rest[k] == l;
          assert levels[k + 1] == l;
        }
        forall i, j | 0 <= i < j < |rest| ensures Precedes(side, rest[i].price, rest[j].price) {
          assert rest[i] == levels[i + 1] && rest[j] == levels[j + 1];
        }
      }
    }
  }

  lemma SortedHead(x: Level, rest: seq<Level>, side: Side)
    requires Sorted([x] + rest, side)
    ensures Sorted(rest, side) && Leads(side, x.price, rest)
  {
    SortedCons(x, rest, side);
  }

  lemma SortedBuild(x: Level, rest: seq<Level>, side: Side)
    requires Sorted(rest, side) && Leads(side, x.price, rest)
    ensures Sorted([x] + rest, side)
  {
    SortedCons(x, rest, side);
  }

  /**
   * `book[price] += qty` on a depth map in the side's order: the level at
   * `price` gains `qty`, or a new level is inserted where the order puts it.
   */
  function Credit(levels: seq<Level>, side: Side, price: int, qty: int): seq<Level> {
    if levels == [] then [Level(price, qty)]
    else if levels[0].price == price then [Level(price, levels[0].qty + qty)] + levels[1..]
    else if Precedes(side, price, levels[0].price) then [Level(price, qty)] + levels
    else [levels[0]] + Credit(levels[1..], side, price, qty)
  }

  lemma PricesCons(x: Level, rest: seq<Level>)
    ensures Prices([x] + rest) == {x.price} + Prices(rest)
  {
    var s := [x] + rest;
    forall p | p in Prices(s) ensures p in {x.price} + Prices(rest) {
      var l :| l in s && l.price == p;
      if l != x {
        assert l in rest;
      }
    }
    forall p | p in Prices(rest) ensures p in Prices(s) {
      var l :| l in rest && l.price == p;
      assert l in s;
    }
    assert x in s;
  }

  lemma PricesAppend(a: seq<Level>, b: seq<Level>)
    ensures Prices(a + b) == Prices(a) + Prices(b)
  {
    forall p | p in Prices(a + b) ensures p in Prices(a) + Prices(b) {
      var l :| l in a + b && l.price == p;
    }
    forall p | p in Prices(a) + Prices(b) ensures p in Prices(a + b) {
      if p in Prices(a) {
        var l :| l in a && l.price == p;
        assert l in a + b;
      } else {
        var l :| l in b && l.price == p;
        assert l in a + b;
      }
    }
  }

  /** `book[price] += qty` has `price` as a key afterwards, and the keys it had. */
  lemma {:induction false} CreditPrices(levels: seq<Level>, side: Side, price: int, qty: int)
    ensures Prices(Credit(levels, side, price, qty)) == Prices(levels) + {price}
  {
    if levels == [] {
      PricesCons(Level(price, qty), []);
    } else {
      var head, rest := levels[0], levels[1..];
      assert levels == [head] + rest;
      PricesCons(head, rest);
      if head.price == price {
        PricesCons(Level(price, head.qty + qty), rest);
      } else if Precedes(side, price, head.price) {
        PricesCons(Level(price, qty), levels);
      } else {
        CreditPrices(rest, side, price, qty);
        PricesCons(head, Credit(rest, side, price, qty));
      }
    }
  }

  /** `book[price] += qty` keeps the map in its order. */
  lemma {:induction false} CreditSorted(levels: seq<Level>, side: Side, price: int, qty: int)
    requires Sorted(levels, side)
    ensures Sorted(Credit(levels, side, price, qty), side)
  {
    if levels == [] {
      SortedCons(Level(price, qty), [], side);
    } else {
      var head, rest := levels[0], levels[1..];
      assert levels == [head] + rest;
      SortedCons(head, rest, side);
      if head.price == price {
        SortedCons(Level(price, head.qty + qty), rest, side);
      } else if Precedes(side, price, head.price) {
        assert Leads(side, price, levels);
        SortedCons(Level(price, qty), levels, side);
      } else {
        var tail := Credit(rest, side, price, qty);
        CreditSorted(rest, side, price, qty);
        CreditPrices(rest, side, price, qty);
        assert Precedes(side, head.price, price);
        LeadsPrices(side, head.price, rest);
        LeadsPrices(side, head.price, tail);
        SortedCons(head, tail, side);
      }
    }
  }

  /** `book[price] += qty` adds `qty` to the value at `price` and changes no other value. */
  lemma {:induction false} CreditQty(levels: seq<Level>, side: Side, price: int, qty: int, p: int)
    requires Sorted(levels, side)
    ensures QtyAt(Credit(levels, side, price, qty), p) == QtyAt(levels, p) + (if p == price then qty else 0)
  {
    if levels != [] {
      var head, rest := levels[0], levels[1..];
      assert levels == [head] + rest;
      SortedCons(head, rest, side);
      if head.price == price {
      } else if Precedes(side, price, head.price) {
        assert price !in Prices(levels);
        QtyAtAbsent(levels, price);
      } else {
        CreditQty(rest, side, price, qty, p);
      }
    }
  }

  lemma {:induction false} CreditTotal(levels: seq<Level>, side: Side, price: int, qty: int)
    ensures Total(Credit(levels, side, price, qty)) == Total(levels) + qty
  {
    if levels != [] {
      var head, rest := levels[0], levels[1..];
      assert levels == [head] + rest;
      SortedCons(head, rest, side);
      if head.price != price && !Precedes(side, price, head.price) {
        CreditTotal(rest, side, price, qty);
      }
    }
  }

  lemma {:induction false} CreditPositive(levels: seq<Level>, side: Side, price: int, qty: int)
    requires Positive(levels) && qty > 0
    ensures Positive(Credit(levels, side, price, qty))
  {
    if levels != [] {
      var head, rest := levels[0], levels[1..];
      assert levels == [head] + rest;
      SortedCons(head, rest, side);
      if head.price != price && !Precedes(side, price, head.price) {
        CreditPositive(rest, side, price, qty);
      }
    }
  }

  /** The sum of the quantities of the orders resting at price `p`. */
  function SumAt(q: seq<Order>, p: int): int
    decreases |q|
  {
    if q == [] then 0
    else SumAt(q[..|q| - 1], p) + (if q[|q| - 1].price == p then q[|q| - 1].qty else 0)
  }

  /** The sum of the quantities of a queue. */
  function TotalQty(q: seq<Order>): int
    decreases |q|
  {
    if q == [] then 0 else TotalQty(q[..|q| - 1]) + q[|q| - 1].qty
  }

  /** The prices present in a queue. */
  function QueuePrices(q: seq<Order>): set<int> {
    set o | o in q :: o.price
  }

  /**
   * The depth map of a queue, built as `get_bid_book`/`get_ask_book` build
   * it: `book[o.price] += o.qty` for each order, front to back.
   */
  function BookOf(q: seq<Order>, side: Side): seq<Level>
    decreases |q|
  {
    if q == [] then []
    else Credit(BookOf(q[..|q| - 1], side), side, q[|q| - 1].price, q[|q| - 1].qty)
  }

  /** The depth map is in the side's order: bids highest first, asks lowest first. */
  lemma {:induction false} BookSorted(q: seq<Order>, side: Side)
    ensures Sorted(BookOf(q, side), side)
    decreases |q|
  {
    if q != [] {
      var init, last := q[..|q| - 1], q[|q| - 1];
      BookSorted(init, side);
      CreditSorted(BookOf(init, side), side, last.price, last.qty);
    }
  }

  /** The depth map has exactly the queue's prices as keys. */
  lemma {:induction false} BookPrices(q: seq<Order>, side: Side)
    ensures Prices(BookOf(q, side)) == QueuePrices(q)
    decreases |q|
  {
    if q != [] {
      var init, last := q[..|q| - 1], q[|q| - 1];
      assert q == init + [last];
      BookPrices(init, side);
      CreditPrices(BookOf(init, side), side, last.price, last.qty);
      assert QueuePrices(q) == QueuePrices(init) + {last.price};
    }
  }

  /** Each key maps to the total quantity resting at that price. */
  lemma {:induction false} BookQty(q: seq<Order>, side: Side, p: int)
    ensures QtyAt(BookOf(q, side), p) == SumAt(q, p)
    decreases |q|
  {
    if q != [] {
      var init, last := q[..|q| - 1], q[|q| - 1];
      BookQty(init, side, p);
      BookSorted(init, side);
      CreditQty(BookOf(init, side), side, last.price, last.qty, p);
    }
  }

  /** The values of the depth map add up to the quantity of the queue. */
  lemma {:induction false} BookTotal(q: seq<Order>, side: Side)
    ensures Total(BookOf(q, side)) == TotalQty(q)
    decreases |q|
  {
    if q != [] {
      var init, last := q[..|q| - 1], q[|q| - 1];
      BookTotal(init, side);
      CreditTotal(BookOf(init, side), side, last.price, last.qty);
    }
  }

  /** A queue of positive orders has positive levels. */
  lemma {:induction false} BookPositive(q: seq<Order>, side: Side)
    requires forall o :: o in q ==> o.qty > 0
    ensures Positive(BookOf(q, side))
    decreases |q|
  {
    if q != [] {
      var init, last := q[..|q| - 1], q[|q| - 1];
      assert q == init + [last];
      BookPositive(init, side);
      CreditPositive(BookOf(init, side), side, last.price, last.qty);
    }
  }

  /** A maker level at price `m` is crossed by a taker at price `t`: a bid at or above the ask. */
  predicate Crosses(side: Side, t: int, m: int) {
    if side == Bid then m <= t else m >= t
  }

  /** No level of `levels` is crossed by a taker at price `t`. */
  predicate ClearOf(side: Side, t: int, levels: seq<Level>) {
    forall l :: l in levels ==> !Crosses(side, t, l.price)
  }

  lemma ClearOfSubset(side: Side, t: int, a: seq<Level>, b: seq<Level>)
    requires Prices(a) <= Prices(b) && ClearOf(side, t, b)
    ensures ClearOf(side, t, a)
  {
    forall l | l in a ensures !Crosses(side, t, l.price) {
      assert l.price in Prices(a);
      var m :| m in b && m.price == l.price;
    }
  }

  /** What a taker at `price` with `qty` left fills against maker level `m`: `min` of the two where they cross. */
  function Fill(side: Side, price: int, qty: int, m: Level): int {
    if Crosses(side, price, m.price) then Min(m.qty, qty) else 0
  }

  /**
   * The inner loop of the matching simulation: one taker level at `price`
   * with `qty` walks the opposite side's levels in map order while it has
   * quantity left, fills against every level it crosses, and drops each
   * level that reaches zero. Returns the taker's remaining quantity and the
   * opposite side's levels.
   */
  function Sweep(side: Side, price: int, qty: int, makers: seq<Level>): (int, seq<Level>)
    decreases |makers|
  {
    if makers == [] || qty <= 0 then (qty, makers)
    else
      var m := makers[0];
      var fill := Fill(side, price, qty, m);
      var rest := Sweep(side, price, qty - fill, makers[1..]);
      (rest.0, Kept(m, fill) + rest.1)
  }

  /** What is left of maker level `m` after `fill` is taken from it: nothing once it reaches zero. */
  function Kept(m: Level, fill: int): seq<Level> {
    if m.qty - fill == 0 then [] else [Level(m.price, m.qty - fill)]
  }

  lemma KeptFacts(m: Level, fill: int)
    ensures Prices(Kept(m, fill)) <= {m.price}
    ensures Total(Kept(m, fill)) == m.qty - fill
  {
    if m.qty - fill != 0 {
      PricesCons(Level(m.price, m.qty - fill), []);
    }
  }

  /** A sweep adds no price. */
  lemma {:induction false} SweepPrices(side: Side, price: int, qty: int, makers: seq<Level>)
    ensures Prices(Sweep(side, price, qty, makers).1) <= Prices(makers)
    decreases |makers|
  {
    if makers != [] && qty > 0 {
      var m, tail := makers[0], makers[1..];
      var fill := Fill(side, price, qty, m);
      var rest := Sweep(side, price, qty - fill, tail);
      SweepPrices(side, price, qty - fill, tail);
      KeptFacts(m, fill);
      PricesAppend(Kept(m, fill), rest.1);
      assert makers == [m] + tail;
      PricesCons(m, tail);
    }
  }

  /** What a sweep takes from the taker it takes from the makers. */
  lemma {:induction false} SweepTotal(side: Side, price: int, qty: int, makers: seq<Level>)
    ensures qty - Sweep(side, price, qty, makers).0 == Total(makers) - Total(Sweep(side, price, qty, makers).1)
    decreases |makers|
  {
    if makers != [] && qty > 0 {
      var m, tail := makers[0], makers[1..];
      var fill := Fill(side, price, qty, m);
      var rest := Sweep(side, price, qty - fill, tail);
      SweepTotal(side, price, qty - fill, tail);
      KeptFacts(m, fill);
      TotalAppend(Kept(m, fill), rest.1);
    }
  }

  /** What a sweep takes from the taker it takes from the makers, and it adds no price. */
  lemma SweepConserves(side: Side, price: int, qty: int, makers: seq<Level>)
    ensures Prices(Sweep(side, price, qty, makers).1) <= Prices(makers)
    ensures qty - Sweep(side, price, qty, makers).0 == Total(makers) - Total(Sweep(side, price, qty, makers).1)
  {
    SweepPrices(side, price, qty, makers);
    SweepTotal(side, price, qty, makers);
  }

  /**
   * Against positive levels a positive taker is never overfilled, and when
   * it keeps some quantity every level it crossed has been used up.
   */
  lemma {:induction false} SweepClears(side: Side, price: int, qty: int, makers: seq<Level>)
    requires Positive(makers)
    ensures Positive(Sweep(side, price, qty, makers).1)
    ensures qty > 0 ==> 0 <= Sweep(side, price, qty, makers).0 <= qty
    ensures Sweep(side, price, qty, makers).0 > 0 ==> ClearOf(side, price, Sweep(side, price, qty, makers).1)
    decreases |makers|
  {
    if makers != [] && qty > 0 {
      var m := makers[0];
      assert makers == [m] + makers[1..];
      var fill := Fill(side, price, qty, m);
      SweepClears(side, price, qty - fill, makers[1..]);
    }
  }

  /** A price that comes before every maker level comes before every level a sweep leaves. */
  lemma {:induction false} SweepLeads(side: Side, price: int, qty: int, makers: seq<Level>, order: Side, p: int)
    requires Leads(order, p, makers)
    ensures Leads(order, p, Sweep(side, price, qty, makers).1)
    decreases |makers|
  {
    if makers != [] && qty > 0 {
      var m, tail := makers[0], makers[1..];
      var fill := Fill(side, price, qty, m);
      var rest := Sweep(side, price, qty - fill, tail);
      assert Leads(order, p, tail) by {
        forall l | l in tail ensures Precedes(order, p, l.price) {
          assert l in makers;
        }
      }
      SweepLeads(side, price, qty - fill, tail, order, p);
      assert m in makers;
      LeadsAppend(order, p, Kept(m, fill), rest.1);
    }
  }

  lemma LeadsAppend(side: Side, p: int, a: seq<Level>, b: seq<Level>)
    requires Leads(side, p, a) && Leads(side, p, b)
    ensures Leads(side, p, a + b)
  {
  }

  lemma {:induction false} SweepSorted(side: Side, price: int, qty: int, makers: seq<Level>)
    requires Sorted(makers, Opposite(side))
    ensures Sorted(Sweep(side, price, qty, makers).1, Opposite(side))
    decreases |makers|
  {
    if makers != [] && qty > 0 {
      var m, tail := makers[0], makers[1..];
      var fill := Fill(side, price, qty, m);
      var rest := Sweep(side, price, qty - fill, tail);
      SweepSorted(side, price, qty - fill, tail);
      if m.qty - fill != 0 {
        SweepLeads(side, price, qty - fill, tail, Opposite(side), m.price);
        SortedBuild(Level(m.price, m.qty - fill), rest.1, Opposite(side));
        assert Kept(m, fill) == [Level(m.price, m.qty - fill)];
      } else {
        assert Kept(m, fill) + rest.1 == rest.1;
      }
    }
  }

  /**
   * The matching simulation: each taker level in map order sweeps the
   * opposite side; a taker level whose quantity reaches zero is dropped.
   * Returns the taker side's and the maker side's levels afterwards.
   */
  function Cross(side: Side, takers: seq<Level>, makers: seq<Level>): (seq<Level>, seq<Level>)
    decreases |takers|
  {
    if takers == [] then ([], makers)
    else
      var t := takers[0];
      var swept := Sweep(side, t.price, t.qty, makers);
      var rest := Cross(side, takers[1..], swept.1);
      ((if swept.0 == 0 then [] else [Level(t.price, swept.0)]) + rest.0, rest.1)
  }

  /** Both sides lose the same quantity, and no price is added to either. */
  lemma {:induction false} CrossConserves(side: Side, takers: seq<Level>, makers: seq<Level>)
    ensures Prices(Cross(side, takers, makers).0) <= Prices(takers)
    ensures Prices(Cross(side, takers, makers).1) <= Prices(makers)
    ensures Total(takers) - Total(Cross(side, takers, makers).0) == Total(makers) - Total(Cross(side, takers, makers).1)
    decreases |takers|
  {
    if takers != [] {
      var t := takers[0];
      assert takers == [t] + takers[1..];
      var swept := Sweep(side, t.price, t.qty, makers);
      SweepConserves(side, t.price, t.qty, makers);
      var rest := Cross(side, takers[1..], swept.1);
      CrossConserves(side, takers[1..], swept.1);
      var kept := if swept.0 == 0 then [] else [Level(t.price, swept.0)];
      assert Prices(takers[1..]) <= Prices(takers);
      TotalAppend(kept, rest.0);
    }
  }

  /**
   * With positive levels on both sides, the simulated book is left
   * uncrossed: no remaining taker level crosses a remaining maker level,
   * and every remaining level is positive.
   */
  lemma {:induction false} CrossUncrosses(side: Side, takers: seq<Level>, makers: seq<Level>)
    requires Positive(takers) && Positive(makers)
    ensures Positive(Cross(side, takers, makers).0) && Positive(Cross(side, takers, makers).1)
    ensures forall x, y :: x in Cross(side, takers, makers).0 && y in Cross(side, takers, makers).1 ==>
      !Crosses(side, x.price, y.price)
    decreases |takers|
  {
    if takers != [] {
      var t := takers[0];
      assert takers == [t] + takers[1..];
      var swept := Sweep(side, t.price, t.qty, makers);
      SweepClears(side, t.price, t.qty, makers);
      var rest := Cross(side, takers[1..], swept.1);
      CrossUncrosses(side, takers[1..], swept.1);
      CrossConserves(side, takers[1..], swept.1);
      if swept.0 != 0 {
        ClearOfSubset(side, t.price, rest.1, swept.1);
      }
    }
  }

  /** The simulation keeps both sides in their map order. */
  lemma {:induction false} CrossSorted(side: Side, takers: seq<Level>, makers: seq<Level>)
    requires Sorted(takers, side) && Sorted(makers, Opposite(side))
    ensures Sorted(Cross(side, takers, makers).0, side)
    ensures Sorted(Cross(side, takers, makers).1, Opposite(side))
    decreases |takers|
  {
    if takers != [] {
      var t, tail := takers[0], takers[1..];
      assert takers == [t] + tail;
      CrossUnfold(side, t, tail, makers);
      SortedHead(t, tail, side);
      var swept := Sweep(side, t.price, t.qty, makers);
      SweepSorted(side, t.price, t.qty, makers);
      var rest := Cross(side, tail, swept.1);
      CrossSorted(side, tail, swept.1);
      if swept.0 != 0 {
        CrossConserves(side, tail, swept.1);
        LeadsSubset(side, t.price, rest.0, tail);
        SortedBuild(Level(t.price, swept.0), rest.0, side);
      } else {
        assert [] + rest.0 == rest.0;
      }
    }
  }

  /** Every bid level is priced below every ask level. */
  predicate Uncrossed(bidLevels: seq<Level>, askLevels: seq<Level>) {
    forall b, a :: b in bidLevels && a in askLevels ==> b.price < a.price
  }

  /**
   * What the simulation leaves of two depth maps in their map order with
   * positive levels: two depth maps in their map order with positive
   * levels, no bid level at or above an ask level.
   */
  lemma CrossLeavesDepth(side: Side, takers: seq<Level>, makers: seq<Level>)
    requires Sorted(takers, side) && Sorted(makers, Opposite(side))
    requires Positive(takers) && Positive(makers)
    ensures Sorted(Cross(side, takers, makers).0, side)
    ensures Sorted(Cross(side, takers, makers).1, Opposite(side))
    ensures Positive(Cross(side, takers, makers).0) && Positive(Cross(side, takers, makers).1)
    ensures side == Bid ==> Uncrossed(Cross(side, takers, makers).0, Cross(side, takers, makers).1)
    ensures side == Ask ==> Uncrossed(Cross(side, takers, makers).1, Cross(side, takers, makers).0)
  {
    CrossSorted(side, takers, makers);
    CrossUncrosses(side, takers, makers);
  }

  /**
   * The state of the inner matching loop over the maker levels `ms` at
   * position `mi`, for a taker at `price` that started with `q1` against the
   * levels `m1` and has `qty` left: the levels before `mi` are final, and
   * what is left is what the rest of the sweep makes of the rest.
   */
  predicate SweepAt(side: Side, price: int, q1: int, m1: seq<Level>, qty: int, ms: seq<Level>, mi: int) {
    && 0 <= mi <= |ms|
    && Sweep(side, price, q1, m1).0 == Sweep(side, price, qty, ms[mi..]).0
    && Sweep(side, price, q1, m1).1 == ms[..mi] + Sweep(side, price, qty, ms[mi..]).1
  }

  lemma SweepStart(side: Side, price: int, qty: int, ms: seq<Level>)
    ensures SweepAt(side, price, qty, ms, qty, ms, 0)
  {
    assert ms[0..] == ms && ms[..0] == [];
  }

  lemma SweepDone(side: Side, price: int, q1: int, m1: seq<Level>, qty: int, ms: seq<Level>, mi: int)
    requires SweepAt(side, price, q1, m1, qty, ms, mi) && !(qty > 0 && mi < |ms|)
    ensures Sweep(side, price, q1, m1) == (qty, ms)
  {
    assert ms[..mi] + ms[mi..] == ms;
  }

  /** One step of a sweep against a first maker level `m`. */
  lemma SweepUnfold(side: Side, price: int, qty: int, m: Level, tail: seq<Level>)
    requires qty > 0
    ensures Sweep(side, price, qty, [m] + tail) ==
      (Sweep(side, price, qty - Fill(side, price, qty, m), tail).0,
       Kept(m, Fill(side, price, qty, m)) + Sweep(side, price, qty - Fill(side, price, qty, m), tail).1)
  {
    assert ([m] + tail)[0] == m && ([m] + tail)[1..] == tail;
  }

  /** Erasing an exhausted maker level advances the inner loop. */
  lemma SweepErase(side: Side, price: int, q1: int, m1: seq<Level>, qty: int, ms: seq<Level>, mi: int, fill: int)
    requires SweepAt(side, price, q1, m1, qty, ms, mi) && qty > 0 && mi < |ms|
    requires fill == Fill(side, price, qty, ms[mi]) && ms[mi].qty - fill == 0
    ensures SweepAt(side, price, q1, m1, qty - fill, ms[..mi] + ms[mi + 1..], mi)
  {
    var m := ms[mi];
    var ms' := ms[..mi] + ms[mi + 1..];
    var tail := ms'[mi..];
    assert ms[mi..] == [m] + tail;
    SweepUnfold(side, price, qty, m, tail);
    var rest := Sweep(side, price, qty - fill, tail);
    assert Kept(m, fill) + rest.1 == rest.1;
    assert Sweep(side, price, qty, ms[mi..]) == rest;
    assert ms'[..mi] == ms[..mi];
    assert Sweep(side, price, q1, m1) == (rest.0, ms'[..mi] + rest.1);
  }

  /** Writing back a maker level that still has quantity advances the inner loop. */
  lemma SweepKeep(side: Side, price: int, q1: int, m1: seq<Level>, qty: int, ms: seq<Level>, mi: int, fill: int)
    requires SweepAt(side, price, q1, m1, qty, ms, mi) && qty > 0 && mi < |ms|
    requires fill == Fill(side, price, qty, ms[mi]) && ms[mi].qty - fill != 0
    ensures SweepAt(side, price, q1, m1, qty - fill, ms[mi := Level(ms[mi].price, ms[mi].qty - fill)], mi + 1)
  {
    var m := ms[mi];
    var ms' := ms[mi := Level(m.price, m.qty - fill)];
    var tail := ms'[mi + 1..];
    assert ms[mi..] == [m] + tail;
    SweepUnfold(side, price, qty, m, tail);
    var rest := Sweep(side, price, qty - fill, tail);
    assert Kept(m, fill) == [ms'[mi]];
    assert Sweep(side, price, qty, ms[mi..]) == (rest.0, [ms'[mi]] + rest.1);
    assert ms'[..mi + 1] == ms[..mi] + [ms'[mi]];
    assert ms[..mi] + ([ms'[mi]] + rest.1) == ms'[..mi + 1] + rest.1;
    assert Sweep(side, price, q1, m1) == (rest.0, ms'[..mi + 1] + rest.1);
  }

  /**
   * The state of the outer matching loop over the taker levels `ts` at
   * position `ti` with maker levels `ms`: the taker levels before `ti` are
   * final, and what is left is what the rest of the simulation makes of the
   * rest.
   */
  predicate CrossAt(side: Side, takers: seq<Level>, makers: seq<Level>, ts: seq<Level>, ti: int, ms: seq<Level>) {
    && 0 <= ti <= |ts|
    && Cross(side, takers, makers).0 == ts[..ti] + Cross(side, ts[ti..], ms).0
    && Cross(side, takers, makers).1 == Cross(side, ts[ti..], ms).1
  }

  lemma CrossStart(side: Side, takers: seq<Level>, makers: seq<Level>)
    ensures CrossAt(side, takers, makers, takers, 0, makers)
  {
    assert takers[0..] == takers && takers[..0] == [];
  }

  lemma CrossDone(side: Side, takers: seq<Level>, makers: seq<Level>, ts: seq<Level>, ti: int, ms: seq<Level>)
    requires CrossAt(side, takers, makers, ts, ti, ms) && ti >= |ts|
    ensures Cross(side, takers, makers) == (ts, ms)
  {
    assert ts[ti..] == [];
    assert Cross(side, ts[ti..], ms) == ([], ms);
    assert ts[..ti] + [] == ts;
  }

  /** One step of the simulation for a first taker level `t`. */
  lemma CrossUnfold(side: Side, t: Level, tail: seq<Level>, ms: seq<Level>)
    ensures Cross(side, [t] + tail, ms) ==
      (var swept := Sweep(side, t.price, t.qty, ms);
       var rest := Cross(side, tail, swept.1);
       ((if swept.0 == 0 then [] else [Level(t.price, swept.0)]) + rest.0, rest.1))
  {
    assert ([t] + tail)[0] == t && ([t] + tail)[1..] == tail;
  }

  /** Erasing a taker level the sweep used up advances the outer loop. */
  lemma CrossErase(side: Side, takers: seq<Level>, makers: seq<Level>, ts: seq<Level>, ti: int, ms: seq<Level>, ms': seq<Level>)
    requires CrossAt(side, takers, makers, ts, ti, ms) && ti < |ts|
    requires Sweep(side, ts[ti].price, ts[ti].qty, ms) == (0, ms')
    ensures CrossAt(side, takers, makers, ts[..ti] + ts[ti + 1..], ti, ms')
  {
    var t := ts[ti];
    var ts' := ts[..ti] + ts[ti + 1..];
    var tail := ts'[ti..];
    assert ts[ti..] == [t] + tail;
    CrossUnfold(side, t, tail, ms);
    var rest := Cross(side, tail, ms');
    assert [] + rest.0 == rest.0;
    assert ts'[..ti] == ts[..ti];
  }

  /** Writing back a taker level with quantity left advances the outer loop. */
  lemma CrossKeep(side: Side, takers: seq<Level>, makers: seq<Level>, ts: seq<Level>, ti: int, ms: seq<Level>, qty: int, ms': seq<Level>)
    requires CrossAt(side, takers, makers, ts, ti, ms) && ti < |ts|
    requires Sweep(side, ts[ti].price, ts[ti].qty, ms) == (qty, ms') && qty != 0
    ensures CrossAt(side, takers, makers, ts[ti := Level(ts[ti].price, qty)], ti + 1, ms')
  {
    var t := ts[ti];
    var ts' := ts[ti := Level(t.price, qty)];
    var tail := ts'[ti + 1..];
    assert ts[ti..] == [t] + tail;
    CrossUnfold(side, t, tail, ms);
    var rest := Cross(side, tail, ms');
    assert ts'[..ti + 1] == ts[..ti] + [ts'[ti]];
    assert ts[..ti] + ([ts'[ti]] + rest.0) == ts'[..ti + 1] + rest.0;
  }

  /**
   * One visit of the inner matching loop at maker level `mi`: fills `min`
   * of the two quantities where the prices cross, erases the maker level
   * when it reaches zero and writes it back otherwise.
   */
  method SweepStep(side: Side, price: int, ghost q1: int, ghost m1: seq<Level>, qty: int, ms: seq<Level>, mi: int)
    returns (qty': int, ms': seq<Level>, mi': int)
    requires SweepAt(side, price, q1, m1, qty, ms, mi) && qty > 0 && mi < |ms|
    ensures SweepAt(side, price, q1, m1, qty', ms', mi')
    ensures |ms'| - mi' < |ms| - mi
  {
    var m := ms[mi];
    var fill := 0;
    if Crosses(side, price, m.price) {
      fill := Min(m.qty, qty);
    }
    assert fill == Fill(side, price, qty, m);
    if m.qty - fill == 0 {
      SweepErase(side, price, q1, m1, qty, ms, mi, fill);
      ms', mi' := ms[..mi] + ms[mi + 1..], mi;
    } else {
      SweepKeep(side, price, q1, m1, qty, ms, mi, fill);
      ms', mi' := ms[mi := Level(m.price, m.qty - fill)], mi + 1;
    }
    qty' := qty - fill;
  }

  /**
   * The inner loop of the matching simulation, erasing exhausted maker
   * levels in place: walks the maker levels in map order while the taker
   * has quantity left. Returns the taker's remaining quantity and the maker
   * levels.
   */
  method SweepLevels(side: Side, price: int, q1: int, makers: seq<Level>) returns (qty: int, ms: seq<Level>)
    ensures (qty, ms) == Sweep(side, price, q1, makers)
  {
    qty, ms := q1, makers;
    var mi := 0;
    SweepStart(side, price, qty, ms);
    while qty > 0 && mi < |ms|
      invariant SweepAt(side, price, q1, makers, qty, ms, mi)
      decreases |ms| - mi
    {
      qty, ms, mi := SweepStep(side, price, q1, makers, qty, ms, mi);
    }
    SweepDone(side, price, q1, makers, qty, ms, mi);
  }

  /**
   * The outer loop of the matching simulation, erasing exhausted taker
   * levels in place: each taker level in map order sweeps the maker levels
   * and is written back with what it has left.
   */
  method CrossLevels(side: Side, takers: seq<Level>, makers: seq<Level>) returns (ts: seq<Level>, ms: seq<Level>)
    ensures (ts, ms) == Cross(side, takers, makers)
  {
    ts, ms := takers, makers;
    var ti := 0;
    CrossStart(side, takers, makers);
    while ti < |ts|
      invariant CrossAt(side, takers, makers, ts, ti, ms)
      decreases |ts| - ti
    {
      var price := ts[ti].price;
      ghost var m1 := ms;
      var qty;
      qty, ms := SweepLevels(side, price, ts[ti].qty, ms);
      if qty == 0 {
        CrossErase(side, takers, makers, ts, ti, m1, ms);
        ts := ts[..ti] + ts[ti + 1..];
      } else {
        CrossKeep(side, takers, makers, ts, ti, m1, qty, ms);
        ts := ts[ti := Level(price, qty)];
        ti := ti + 1;
      }
    }
    CrossDone(side, takers, makers, ts, ti, ms);
  }
}
