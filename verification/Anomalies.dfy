/** Inputs on which the matching engine, as written, does not do what its interface promises. */
module Anomalies {
  import opened Options
  import opened Orders
  import opened PriorityList
  import opened BookSpec
  import opened Invariants
  import opened Fills
  import opened Trades
  import Chains

  function LimitOrder(id: nat, side: Side, price: nat, quantity: nat, tif: TimeInForce): Order {
    Order(id, 0, Limit, side, price, 0, quantity, 0, quantity, tif, ORDER_INT_MAX, ORDER_INT_MAX, 0, 0)
  }

  function BookWith(bids: seq<Order>, asks: seq<Order>): Book {
    EMPTY.(bids := bids, asks := asks)
  }

  // Queues and next prices of short lists.
  function Only(k: Kind, o: Order, price: nat): seq<Order> { if Key(k, o) == price then [o] else [] }

  lemma ShortQueues(k: Kind, x: Order, y: Order, z: Order, price: nat)
    ensures Queue(k, [x], price) == Only(k, x, price)
    ensures Queue(k, [x, y], price) == Only(k, x, price) + Only(k, y, price)
    ensures Queue(k, [x, y, z], price) == Only(k, x, price) + (Only(k, y, price) + Only(k, z, price))
  {
    assert [x][1..] == [] && [x, y][1..] == [y] && [x, y, z][1..] == [y, z] && [y, z][1..] == [z];
    assert Queue(k, [x], price) == Only(k, x, price) + [];
    assert Queue(k, [z], price) == Only(k, z, price) + [] by { assert [z][1..] == []; }
    assert Queue(k, [y], price) == Only(k, y, price) + [] by { assert [y][1..] == []; }
    assert Queue(k, [y, z], price) == Only(k, y, price) + Queue(k, [z], price);
    assert Queue(k, [x, y], price) == Only(k, x, price) + Queue(k, [y], price);
    assert Queue(k, [x, y, z], price) == Only(k, x, price) + Queue(k, [y, z], price);
  }

  lemma ShortNextPrice(k: Kind, x: Order, y: Order, z: Order, price: nat)
    requires !Better(k, price, Key(k, x))
    ensures NextPrice(k, [x], price) == None
    ensures Better(k, price, Key(k, y)) ==> NextPrice(k, [x, y], price) == Some(Key(k, y))
    ensures !Better(k, price, Key(k, y)) && Better(k, price, Key(k, z)) ==>
              NextPrice(k, [x, y, z], price) == Some(Key(k, z))
  {
    assert [x][1..] == [] && [x, y][1..] == [y] && [x, y, z][1..] == [y, z] && [y, z][1..] == [z];
    assert NextPrice(k, [x], price) == NextPrice(k, [], price);
    assert NextPrice(k, [x, y], price) == NextPrice(k, [y], price);
    assert NextPrice(k, [x, y, z], price) == NextPrice(k, [y, z], price);
    if !Better(k, price, Key(k, y)) { assert NextPrice(k, [y, z], price) == NextPrice(k, [z], price); }
  }

  /** An 'All-Or-None' bid for 100 against an ask of 50 at the same price blocks the matching: the book
      stays crossed, although matching promises a best bid below the best ask. */
  lemma AllOrNoneStaysCrossed()
    ensures var b := BookWith([LimitOrder(1, Buy, 10, 100, AON)], [LimitOrder(2, Sell, 10, 50, GTC)]);
            Good(b, Any) && Match(b) == b && b.Crossed()
  {
    hide TwoSidedWalk;
    var bid, ask := LimitOrder(1, Buy, 10, 100, AON), LimitOrder(2, Sell, 10, 50, GTC);
    var b := BookWith([bid], [ask]);
    ShortQueues(Bids, bid, bid, bid, 10);
    ShortQueues(Asks, ask, ask, ask, 10);
    ShortNextPrice(Asks, ask, ask, ask, 10);
    WalkOrder(b, Bids, 10, Asks, 10, [bid], [ask], 100, 0);
    WalkLevel(b, Bids, 10, Asks, 10, [bid], [], 100, 50);
    assert [ask][1..] == [];
    assert TwoSidedChain(b) == 0;
  }

  /** Orders are paired by position, so a later order can be filled before an earlier one at its
      price: of asks for 15 and 5, against bids for 10 and 5, the first is left with 5. */
  lemma LaterOrderFilledFirst()
    ensures var first, later := LimitOrder(3, Sell, 10, 15, GTC), LimitOrder(4, Sell, 10, 5, GTC);
            var b := BookWith([LimitOrder(1, Buy, 10, 10, GTC), LimitOrder(2, Buy, 10, 5, GTC)], [first, later]);
            Good(b, Plain) && Match(b).bids == [] &&
            Match(b).asks == [first.(executed := 10, leaves := 5)]
  {
    hide Match, PairLevels;
    var b1, b2 := LimitOrder(1, Buy, 10, 10, GTC), LimitOrder(2, Buy, 10, 5, GTC);
    var a1, a2 := LimitOrder(3, Sell, 10, 15, GTC), LimitOrder(4, Sell, 10, 5, GTC);
    TwoPairs(b1, b2, a1, a2);
    QuietMatch(BookWith([b1, b2], [a1, a2]), PairLevels(BookWith([b1, b2], [a1, a2]), 0, 0).0);
  }

  lemma TwoPairs(b1: Order, b2: Order, a1: Order, a2: Order)
    requires b1.price == b2.price == a1.price == a2.price
    requires b1.leaves < a1.leaves && b2.leaves == a2.leaves > 0
    requires KindOf(b1) == KindOf(b2) == Bids && KindOf(a1) == KindOf(a2) == Asks
    requires !b1.IsAON() && !b2.IsAON() && !a1.IsAON() && !a2.IsAON()
    ensures var (d, blocked) := PairLevels(BookWith([b1, b2], [a1, a2]), 0, 0);
            d.bids == [] && d.asks == [a1.(executed := a1.executed + b1.leaves, leaves := a1.leaves - b1.leaves)] &&
            d.buyStops == d.sellStops == [] && !blocked
  {
    hide TradePair, PairLevels;
    var b := BookWith([b1, b2], [a1, a2]);
    var a1' := a1.(executed := a1.executed + b1.leaves, leaves := a1.leaves - b1.leaves);
    FirstPair(b1, b2, a1, a2);
    PairStep(b, 0, 0);
    SecondPair(TradePair(b, 0, 0), b2, a1', a2);
    PairStep(TradePair(b, 0, 0), 0, 1);
  }

  lemma FirstPair(b1: Order, b2: Order, a1: Order, a2: Order)
    requires b1.leaves < a1.leaves && KindOf(b1) == Bids && KindOf(a1) == Asks
    ensures var c := TradePair(BookWith([b1, b2], [a1, a2]), 0, 0);
            c.bids == [b2] && c.buyStops == c.sellStops == [] &&
            c.asks == [a1.(executed := a1.executed + b1.leaves, leaves := a1.leaves - b1.leaves), a2]
  {
    hide Hit;
    var b := BookWith([b1, b2], [a1, a2]);
    HitAtFront(b, Bids, b1.price, b1.leaves);
    HitLists(b, Bids, 0, b1.price, b1.leaves);
    var c := Hit(b, Bids, 0, b1.price, b1.leaves);
    HitAtFront(c, Asks, b1.price, b1.leaves);
    HitLists(c, Asks, 0, b1.price, b1.leaves);
    assert c.Get(Asks) == [a1, a2] && [b1, b2][1..] == [b2] && [a1, a2][1..] == [a2];
  }

  lemma SecondPair(c: Book, b2: Order, a1: Order, a2: Order)
    requires c.bids == [b2] && c.asks == [a1, a2] && b2.leaves == a2.leaves > 0
    ensures var d := TradePair(c, 0, 1);
            d.bids == [] && d.asks == [a1] && d.buyStops == c.buyStops && d.sellStops == c.sellStops
  {
  }

  // A pass over the best levels that leaves the book uncrossed ends the matching.
  lemma QuietMatch(b: Book, d: Book)
    requires b.Crossed() && PairLevels(b, 0, 0) == (d, false)
    requires !d.Crossed() && d.buyStops == d.sellStops == []
    ensures Match(b) == d
  {
    PairLevelsSize(b, 0, 0);
    assert CrossLoop(d) == (d, false);
  }

  /** The walk for 'All-Or-None' orders goes on to worse levels without looking at their prices: a
      sell order with limit 20 is executed at 9. */
  lemma SoldBelowItsLimit()
    ensures var b := BookWith([LimitOrder(1, Buy, 10, 100, AON)],
                              [LimitOrder(2, Sell, 9, 50, GTC), LimitOrder(3, Sell, 20, 50, GTC)]);
            Good(b, Any) && Executed(3, Sell, 20, 9, 50) in Match(b).tape.log && !Fair(Executed(3, Sell, 20, 9, 50))
  {
    hide TwoSidedChain, ExecuteChain, Match, PairLevels;
    var bid := LimitOrder(1, Buy, 10, 100, AON);
    var near, far := LimitOrder(2, Sell, 9, 50, GTC), LimitOrder(3, Sell, 20, 50, GTC);
    var b := BookWith([bid], [near, far]);
    FarChain(bid, near, far);
    FarExecution(b, bid, near, far);
    PairBlocks(b, 0, 0);
    QuietMatch(b, ExecuteChain(ExecuteChain(b, Bids, 10, 100), Asks, 9, 100));
  }

  lemma FarChain(bid: Order, near: Order, far: Order)
    requires bid == LimitOrder(1, Buy, 10, 100, AON) && near == LimitOrder(2, Sell, 9, 50, GTC)
    requires far == LimitOrder(3, Sell, 20, 50, GTC)
    ensures TwoSidedChain(BookWith([bid], [near, far])) == 100
  {
    hide TwoSidedWalk;
    var b := BookWith([bid], [near, far]);
    ShortQueues(Bids, bid, bid, bid, 10);
    ShortQueues(Asks, near, far, far, 9);
    ShortQueues(Asks, near, far, far, 20);
    ShortNextPrice(Asks, near, far, far, 9);
    assert Queue(Asks, b.asks, 9) == [near] && Queue(Asks, b.asks, 20) == [far];
    WalkOrder(b, Bids, 10, Asks, 9, [bid], [near], 100, 0);
    assert [near][1..] == [];
    WalkLevel(b, Bids, 10, Asks, 9, [bid], [], 100, 50);
    WalkOrder(b, Bids, 10, Asks, 20, [bid], [far], 100, 50);
  }

  lemma FarExecution(b: Book, bid: Order, near: Order, far: Order)
    requires b == BookWith([bid], [near, far]) && bid == LimitOrder(1, Buy, 10, 100, AON)
    requires near == LimitOrder(2, Sell, 9, 50, GTC) && far == LimitOrder(3, Sell, 20, 50, GTC)
    ensures var r := ExecuteChain(ExecuteChain(b, Bids, 10, 100), Asks, 9, 100);
            r.bids == [] && r.asks == [] && r.buyStops == r.sellStops == [] &&
            Executed(3, Sell, 20, 9, 50) in r.tape.log
  {
    hide ExecuteChain, Chains.Reached;
    assert Good(b, Any);
    assert [near, far][1..] == [far];
    SumOfOne(bid);
    SumOfOne(far);
    assert Leaves(b.asks) == 100 && Leaves(b.bids) == 100;
    Chains.BothReach(b, 100);
    FarReports(bid, near, far);
    var r := ExecuteChain(ExecuteChain(b, Bids, 10, 100), Asks, 9, 100);
    assert r.Get(BuyStops) == [] && r.Get(SellStops) == [];
    assert r.tape.log[4] == Executed(3, Sell, 20, 9, 50);
  }

  lemma SumOfOne(o: Order)
    ensures Leaves([o]) == o.leaves
  {
    assert [o][1..] == [];
  }

  // What the two chains take and report.
  lemma FarReports(bid: Order, near: Order, far: Order)
    requires bid == LimitOrder(1, Buy, 10, 100, AON)
    requires near == LimitOrder(2, Sell, 9, 50, GTC) && far == LimitOrder(3, Sell, 20, 50, GTC)
    ensures Chains.Reached([bid], 100) == 100 && Chains.Reached([near, far], 100) == 100
    ensures Take([bid], 100) == [] && Take([near, far], 100) == []
    ensures Chains.ChainReports([bid], 10, 100) == [Executed(1, Buy, 10, 10, 100), Deleted(1)]
    ensures Chains.ChainReports([near, far], 9, 100) ==
            [Executed(2, Sell, 9, 9, 50), Deleted(2), Executed(3, Sell, 20, 9, 50), Deleted(3)]
  {
    assert [bid][1..] == [] && [near, far][1..] == [far] && [far][1..] == [];
    SumOfOne(bid);
    SumOfOne(far);
    assert Leaves([near, far]) == 100 && CutsAt([far], 50) && Take([far], 50) == [];
    assert Chains.ChainReports([far], 9, 50) == [Executed(3, Sell, 20, 9, 50), Deleted(3)];
  }

  /** After a swap the level pointers belong to the wrong sides, and asks are counted as if they were
      bids: 24 are sold against a bid for 10. */
  lemma SoldMoreThanBought()
    ensures var b := BookWith([LimitOrder(1, Buy, 10, 10, AON)],
                              [LimitOrder(2, Sell, 10, 4, GTC), LimitOrder(3, Sell, 10, 20, AON),
                               LimitOrder(4, Sell, 12, 14, GTC)]);
            Good(b, Any) && Gap(Match(b).tape.log) == 10 - 24
  {
    hide TwoSidedChain, ExecuteChain, Match, PairLevels;
    var bid := LimitOrder(1, Buy, 10, 10, AON);
    var a1, a2 := LimitOrder(2, Sell, 10, 4, GTC), LimitOrder(3, Sell, 10, 20, AON);
    var a3 := LimitOrder(4, Sell, 12, 14, GTC);
    var b := BookWith([bid], [a1, a2, a3]);
    SwappedChain(bid, a1, a2, a3);
    SwappedExecution(b, bid, a1, a2, a3);
    PairBlocks(b, 0, 0);
    var r := ExecuteChain(ExecuteChain(b, Bids, 10, 24), Asks, 10, 24);
    QuietMatch(b, r);
    GapOfSix(r.tape.log);
  }

  lemma SwappedChain(bid: Order, a1: Order, a2: Order, a3: Order)
    requires bid == LimitOrder(1, Buy, 10, 10, AON) && a1 == LimitOrder(2, Sell, 10, 4, GTC)
    requires a2 == LimitOrder(3, Sell, 10, 20, AON) && a3 == LimitOrder(4, Sell, 12, 14, GTC)
    ensures TwoSidedChain(BookWith([bid], [a1, a2, a3])) == 24
  {
    hide TwoSidedWalk;
    var b := BookWith([bid], [a1, a2, a3]);
    ShortQueues(Bids, bid, bid, bid, 10);
    ShortQueues(Asks, a1, a2, a3, 10);
    ShortQueues(Asks, a1, a2, a3, 12);
    ShortNextPrice(Asks, a1, a2, a3, 10);
    assert Queue(Asks, b.asks, 10) == [a1, a2] && Queue(Asks, b.asks, 12) == [a3];
    assert [a1, a2][1..] == [a2] && [bid][1..] == [];
    WalkOrder(b, Bids, 10, Asks, 10, [bid], [a1, a2], 10, 0);
    WalkOrder(b, Bids, 10, Asks, 10, [bid], [a2], 10, 4);
    WalkLevel(b, Bids, 10, Asks, 10, [a2], [], 24, 10);
    WalkOrder(b, Bids, 10, Asks, 12, [a2], [a3], 24, 10);
  }

  lemma SwappedExecution(b: Book, bid: Order, a1: Order, a2: Order, a3: Order)
    requires b == BookWith([bid], [a1, a2, a3])
    requires bid == LimitOrder(1, Buy, 10, 10, AON) && a1 == LimitOrder(2, Sell, 10, 4, GTC)
    requires a2 == LimitOrder(3, Sell, 10, 20, AON) && a3 == LimitOrder(4, Sell, 12, 14, GTC)
    ensures var r := ExecuteChain(ExecuteChain(b, Bids, 10, 24), Asks, 10, 24);
            r.bids == [] && r.asks == [a3] && r.buyStops == r.sellStops == [] &&
            r.tape.log == [Executed(1, Buy, 10, 10, 10), Deleted(1), Executed(2, Sell, 10, 10, 4), Deleted(2),
                           Executed(3, Sell, 10, 10, 20), Deleted(3)]
  {
    hide ExecuteChain, Chains.Reached, Chains.ChainReports, Take, Leaves, CutsAt, Good;
    SwappedIsGood(b, bid, a1, a2, a3);
    Chains.BothReach(b, 24);
    SwappedReports(bid, a1, a2, a3);
    var r := ExecuteChain(ExecuteChain(b, Bids, 10, 24), Asks, 10, 24);
    assert r.Get(BuyStops) == [] && r.Get(SellStops) == [];
  }

  lemma SwappedIsGood(b: Book, bid: Order, a1: Order, a2: Order, a3: Order)
    requires b == BookWith([bid], [a1, a2, a3])
    requires bid == LimitOrder(1, Buy, 10, 10, AON) && a1 == LimitOrder(2, Sell, 10, 4, GTC)
    requires a2 == LimitOrder(3, Sell, 10, 20, AON) && a3 == LimitOrder(4, Sell, 12, 14, GTC)
    ensures Good(b, Any) && Leaves(b.asks) == 38 && Leaves(b.bids) == 10
  {
    assert [a1, a2, a3][1..] == [a2, a3] && [a2, a3][1..] == [a3];
    SumOfOne(bid);
    SumOfOne(a3);
    assert Leaves([a2, a3]) == 34;
  }

  lemma SwappedReports(bid: Order, a1: Order, a2: Order, a3: Order)
    requires bid == LimitOrder(1, Buy, 10, 10, AON) && a1 == LimitOrder(2, Sell, 10, 4, GTC)
    requires a2 == LimitOrder(3, Sell, 10, 20, AON) && a3 == LimitOrder(4, Sell, 12, 14, GTC)
    ensures Chains.Reached([bid], 24) == 10 && Chains.Reached([a1, a2, a3], 24) == 24
    ensures Take([bid], 10) == [] && Take([a1, a2, a3], 24) == [a3]
    ensures Chains.ChainReports([bid], 10, 10) == [Executed(1, Buy, 10, 10, 10), Deleted(1)]
    ensures Chains.ChainReports([a1, a2, a3], 10, 24) ==
            [Executed(2, Sell, 10, 10, 4), Deleted(2), Executed(3, Sell, 10, 10, 20), Deleted(3)]
  {
    assert [bid][1..] == [] && [a1, a2, a3][1..] == [a2, a3] && [a2, a3][1..] == [a3];
    SumOfOne(bid);
    SumOfOne(a3);
    assert Leaves([a2, a3]) == 34 && CutsAt([a2, a3], 20) && Take([a2, a3], 20) == [a3];
    assert Chains.ChainReports([a2, a3], 10, 20) == [Executed(3, Sell, 10, 10, 20), Deleted(3)];
  }

  /** Every operation ends by resetting the matching prices, which can move the market price past a stop
      that matching has just left alone: a buy stop at 25 waits although the best ask is 30. */
  lemma StopLeftTriggered()
    ensures var ask, far := LimitOrder(1, Sell, 20, 5, GTC), LimitOrder(2, Sell, 30, 5, GTC);
            var stop := LimitOrder(4, Buy, 0, 5, GTC).(typ := Stop, stopPrice := 25);
            var b := BookWith([LimitOrder(3, Buy, 12, 5, GTC)], [ask, far]).(buyStops := [stop]);
            Good(b, Quoted) && !Triggered(b, BuyStops) &&
            Triggered(ModifyOrder(b, Asks, 0, 10, 5, false, true), BuyStops)
  {
    var bid := LimitOrder(3, Buy, 12, 5, GTC);
    var ask, far := LimitOrder(1, Sell, 20, 5, GTC), LimitOrder(2, Sell, 30, 5, GTC);
    var stop := LimitOrder(4, Buy, 0, 5, GTC).(typ := Stop, stopPrice := 25);
    var b := BookWith([bid], [ask, far]).(buyStops := [stop]);
    assert Good(b, Quoted) && !Triggered(b, BuyStops);
    hide Good, ModifyOrder;
    ModifiedIntoBid(b, bid, ask, far, stop);
  }

  lemma ModifiedIntoBid(b: Book, bid: Order, ask: Order, far: Order, stop: Order)
    requires bid == LimitOrder(3, Buy, 12, 5, GTC) && ask == LimitOrder(1, Sell, 20, 5, GTC)
    requires far == LimitOrder(2, Sell, 30, 5, GTC)
    requires stop == LimitOrder(4, Buy, 0, 5, GTC).(typ := Stop, stopPrice := 25)
    requires b == BookWith([bid], [ask, far]).(buyStops := [stop])
    ensures var r := ModifyOrder(b, Asks, 0, 10, 5, false, true);
            r.buyStops == [stop] && r.asks == [far] && r.tape.matchAsk == ORDER_INT_MAX
  {
    hide MatchOrder, Match, Link;
    var b1, o1 := Unlink(b, Asks, 0), Modified(ask, 10, 5, false);
    assert b1.asks == [far] && b1.bids == [bid] && b1.buyStops == [stop] && b1.sellStops == [];
    SoldToOnlyBid(b1, bid, o1);
    var c := MatchOrder(b1, o1).0.Say(Deleted(1));
    assert c.asks == [far] && c.bids == [] && c.buyStops == [stop] && c.sellStops == [] && c.tape.matchAsk == 12;
    UntriggeredMatch(c);
  }

  lemma SoldToOnlyBid(b: Book, bid: Order, o: Order)
    requires b.bids == [bid] && bid.leaves == o.leaves > 0 && o.side == Sell && o.price <= bid.price && !o.IsWhole()
    ensures var (b', o') := MatchOrder(b, o);
            o'.leaves == 0 && o'.id == o.id && b'.bids == [] && b'.asks == b.asks && b'.tape.matchAsk == bid.price &&
            b'.tape.matchBid == 0 && b'.buyStops == b.buyStops && b'.sellStops == b.sellStops
  {
    hide MatchOrder;
    MatchStep(b, o);
    assert RemoveAt([bid.(executed := bid.executed + o.leaves)], 0) == [];
  }

  lemma UntriggeredMatch(b: Book)
    requires !b.Crossed() && !Triggered(b, BuyStops) && !Triggered(b, SellStops)
    ensures Match(b) == b
  {
  }

  /** An id that is in use is noticed only after matching: a sell order with the id of a resting bid buys out
      the best bid before it is refused. */
  lemma TradesOfDuplicateStay()
    ensures var best, other := LimitOrder(1, Buy, 10, 5, GTC), LimitOrder(2, Buy, 9, 5, GTC);
            var b, o := BookWith([best, other], []), LimitOrder(2, Sell, 10, 8, GTC);
            var (r, code) := AddOrder(b, o, true, {});
            Good(b, Quoted) && o.Validate() == OK && code == OrderDuplicate && r.bids == [other]
  {
    hide Match, MatchOrder, Settle;
    var best, other := LimitOrder(1, Buy, 10, 5, GTC), LimitOrder(2, Buy, 9, 5, GTC);
    var b, o := BookWith([best, other], []), LimitOrder(2, Sell, 10, 8, GTC);
    PartlyFilled(b.Say(Added(2)), best, other, o);
    var (b2, o2) := MatchOrder(b.Say(Added(2)), o);
    assert Lists(b2, 2) by { assert b2.bids[0].id == 2; }
  }

  lemma PartlyFilled(b: Book, best: Order, other: Order, o: Order)
    requires b.bids == [best, other] && best.leaves < o.leaves && other.price < o.price <= best.price
    requires o.side == Sell && !o.IsWhole() && !best.IsAON() && best.leaves > 0
    ensures var (b2, o2) := MatchOrder(b, o);
            b2.bids == [other] && o2 == o.(executed := o2.executed, leaves := o.leaves - best.leaves)
  {
    hide MatchOrder, HitBest;
    HitFront(b, o);
    MatchStep(b, o);
    BestIsHit(b, o);
    MatchStops(HitBest(b, o).0, HitBest(b, o).1);
  }

  lemma GapOfSix(log: seq<Event>)
    requires |log| == 6
    ensures Gap(log) ==
            Weight(log[0]) + Weight(log[1]) + Weight(log[2]) + Weight(log[3]) + Weight(log[4]) + Weight(log[5])
  {
    GapLast(log, 6);
    GapLast(log, 5);
    GapLast(log, 4);
    GapLast(log, 3);
    GapLast(log, 2);
    GapLast(log, 1);
    assert log[..6] == log;
  }

  lemma GapLast(log: seq<Event>, n: nat)
    requires 0 < n <= |log|
    ensures Gap(log[..n]) == Gap(log[..n - 1]) + Weight(log[n - 1])
    ensures n == 1 ==> Gap(log[..n - 1]) == 0
  {
    assert log[..n][..n - 1] == log[..n - 1];
  }
}
