/** When stop orders are activated: after each pair of crossing levels and before the next, buy stops before sell
    stops, and only those that the market has reached. */
module Activations {
  import opened Orders
  import opened PriorityList
  import opened BookSpec
  import opened Invariants
  import opened Fills
  import opened StopOrders
  import opened Logs
  import opened Anomalies

  // ---------- which stop orders

  /** A buy stop is triggered when neither the best ask nor the remembered ask price is below its stop price, a
      sell stop when neither the best bid nor the remembered bid price is above it. */
  lemma TriggeredIff(b: Book)
    ensures Triggered(b, BuyStops) <==>
            (b.buyStops != [] && b.buyStops[0].stopPrice <= b.tape.matchAsk &&
             b.buyStops[0].stopPrice <= if b.asks == [] then ORDER_INT_MAX else b.asks[0].price)
    ensures Triggered(b, SellStops) <==>
            (b.sellStops != [] && b.sellStops[0].stopPrice >= b.tape.matchBid &&
             b.sellStops[0].stopPrice >= if b.bids == [] then 0 else b.bids[0].price)
  {
  }

  // The best level of a stop list, if it is triggered, activated order by order on a book that lacks it.
  function LevelActivated(b: Book, k: Kind): Book {
    if Triggered(b, k) then
      var s, n := b.Get(k), RunLength(k, b.Get(k));
      ActivateEach(b.Set(k, s[n..]), s[..n])
    else b
  }

  lemma BestIsLevel(b: Book, k: Kind)
    requires IsStopList(k) && ListOk(k, b.Get(k))
    ensures ActivateBest(b, k) == LevelActivated(b, k)
  {
    hide ActivateRun, ActivateEach;
    if Triggered(b, k) { ActivatesTheLevel(b, k); }
  }

  // Buy stops first, then the sell stops that are triggered after that.
  lemma PassIsLevels(b: Book)
    requires Good(b, Any)
    ensures ActivatePass(b) == LevelActivated(LevelActivated(b, BuyStops), SellStops)
    ensures b.tape.log <= LevelActivated(b, BuyStops).tape.log <= ActivatePass(b).tape.log
  {
    hide Good, ActivateBest, LevelActivated;
    var c := ActivateBest(b, BuyStops);
    ListOkOf(b, BuyStops);
    BestIsLevel(b, BuyStops);
    GoodActivateBest(b, Any, BuyStops);
    ListOkOf(c, SellStops);
    BestIsLevel(c, SellStops);
    ActivateBestTells(b, BuyStops);
    ActivateBestTells(c, SellStops);
  }

  lemma ListOkOf(b: Book, k: Kind)
    requires Good(b, Any)
    ensures ListOk(k, b.Get(k))
  {
  }

  // ---------- when

  /** After a pass over two crossing levels the triggered buy stops are activated, then the triggered sell stops,
      and only then matching goes on: what they trade is reported in front of everything else. */
  lemma BetweenLevels(b: Book)
    requires Good(b, Any) && b.Crossed() && !PairLevels(b, 0, 0).1
    ensures var c := PairLevels(b, 0, 0).0;
            var d := LevelActivated(c, BuyStops);
            var e := LevelActivated(d, SellStops);
            c.tape.log <= d.tape.log <= e.tape.log <= Match(b).tape.log && Match(b) == Match(e)
  {
    hide Good, PairLevels, LevelActivated, ActivatePass, Match, CrossLoop;
    var c := PairLevels(b, 0, 0).0;
    GoodPairLevels(b, Any, 0, 0);
    PassIsLevels(c);
    PassThenLoop(b);
    MatchTells(ActivatePass(c));
  }

  lemma PassThenLoop(b: Book)
    requires b.Crossed() && !PairLevels(b, 0, 0).1
    ensures Match(b) == Match(ActivatePass(PairLevels(b, 0, 0).0))
  {
    hide PairLevels, ActivateBest;
    PairLevelsSize(b, 0, 0);
    assert CrossLoop(b) == CrossLoop(ActivatePass(PairLevels(b, 0, 0).0));
  }

  /** The same on a book that is not crossed, where matching is over when nothing is activated. */
  lemma OnUncrossed(b: Book)
    requires Good(b, Any) && !b.Crossed()
    ensures var d := LevelActivated(b, BuyStops);
            var e := LevelActivated(d, SellStops);
            b.tape.log <= d.tape.log <= e.tape.log <= Match(b).tape.log &&
            (!Triggered(b, BuyStops) && !Triggered(d, SellStops) ==> Match(b) == b)
  {
    hide Good, LevelActivated, ActivatePass, Match, ActivateBest, Triggered;
    PassIsLevels(b);
    ListOkOf(b, BuyStops);
    BestIsLevel(b, BuyStops);
    AllThenMatch(b);
    if Active(b) {
      var p := ActivatePass(b);
      ActivateAllTells(p);
      MatchTells(ActivateAll(p));
    }
  }

  lemma AllThenMatch(b: Book)
    requires !b.Crossed()
    ensures Match(b) == if Active(b) then Match(ActivateAll(ActivatePass(b))) else b
  {
    hide ActivatePass, Active;
    assert CrossLoop(b) == (b, false);
  }

  // ---------- a stop order that trades between two crossing levels

  /** Bids for 5 at 10 and at 9, asks of 5 at 8 and at 9, and a buy stop at 9: once the first bid and the first ask
      have traded, the stop buys the second ask, and the second bid is left. */
  lemma StopTradesBetween()
    ensures var bid, next := LimitOrder(1, Buy, 10, 5, GTC), LimitOrder(2, Buy, 9, 5, GTC);
            var ask, far := LimitOrder(3, Sell, 8, 5, GTC), LimitOrder(4, Sell, 9, 5, GTC);
            var stop := LimitOrder(5, Buy, 0, 5, GTC).(typ := Stop, stopPrice := 9, slippage := 0);
            var b := BookWith([bid, next], [ask, far]).(buyStops := [stop]);
            Good(b, Plain) && Match(b).bids == [next] && Match(b).asks == [] && Match(b).buyStops == []
  {
    var bid, next := LimitOrder(1, Buy, 10, 5, GTC), LimitOrder(2, Buy, 9, 5, GTC);
    var ask, far := LimitOrder(3, Sell, 8, 5, GTC), LimitOrder(4, Sell, 9, 5, GTC);
    var stop := LimitOrder(5, Buy, 0, 5, GTC).(typ := Stop, stopPrice := 9, slippage := 0);
    var b := BookWith([bid, next], [ask, far]).(buyStops := [stop]);
    assert Good(b, Plain);
    hide PairLevels, Match, ActivatePass;
    FirstLevels(b, bid, next, ask, far, stop);
    PassThenLoop(b);
    StopBuysFar(PairLevels(b, 0, 0).0, next, far, stop);
    UntriggeredMatch(ActivatePass(PairLevels(b, 0, 0).0));
  }

  lemma FirstLevels(b: Book, bid: Order, next: Order, ask: Order, far: Order, stop: Order)
    requires b == BookWith([bid, next], [ask, far]).(buyStops := [stop]) && bid.leaves == ask.leaves == 5
    requires bid.price == 10 && next.price == 9 && ask.price == 8 && far.price == 9 && !bid.IsAON() && !ask.IsAON()
    ensures var (c, blocked) := PairLevels(b, 0, 0);
            !blocked && c.bids == [next] && c.asks == [far] && c.buyStops == [stop] && c.sellStops == [] &&
            c.tape == c.tape.Reset()
  {
    hide Hit;
    HitAtFront(b, Bids, 10, 5);
    HitLists(b, Bids, 0, 10, 5);
    var c := Hit(b, Bids, 0, 10, 5);
    HitAtFront(c, Asks, 10, 5);
    HitLists(c, Asks, 0, 10, 5);
    assert [bid, next][1..] == [next] && [ask, far][1..] == [far];
    assert Hit(c, Asks, 0, 10, 5).tape == Hit(c, Asks, 0, 10, 5).tape.Reset() by { Resets(c, 10, 5); }
    PairStep(b, 0, 0);
  }

  lemma Resets(b: Book, price: nat, q: nat)
    requires b.asks != [] && q <= b.asks[0].leaves
    ensures Hit(b, Asks, 0, price, q).tape == Hit(b, Asks, 0, price, q).tape.Reset()
  {
  }

  lemma StopBuysFar(c: Book, next: Order, far: Order, stop: Order)
    requires c.bids == [next] && c.asks == [far] && c.buyStops == [stop] && c.sellStops == []
    requires next.price == far.price == stop.stopPrice == 9 && far.leaves == stop.leaves == 5
    requires c.tape == c.tape.Reset()
    requires stop.typ == Stop && stop.side == Buy && stop.tif == GTC && stop.slippage == 0 && !far.IsAON()
    ensures var d := ActivatePass(c); d.bids == [next] && d.asks == [] && d.buyStops == d.sellStops == []
  {
    hide MatchOrder, ActivateRun;
    var a := Unlink(c, BuyStops, 0);
    var p := AsMarket(stop).(price := 9);
    assert (9 + 0) % TWO64 == 9;
    assert [stop][1..] == [] && RunLength(BuyStops, [stop]) == 1;
    MatchStep(a, p);
    assert RemoveAt([far.(executed := far.executed + 5)], 0) == [];
    StopActivation(c, BuyStops);
    OneRun(c);
  }

  lemma OneRun(c: Book)
    requires |c.buyStops| == 1
    ensures ActivateRun(c, BuyStops, 1) == ActivateFirst(c, BuyStops)
  {
    assert ActivateRun(ActivateFirst(c, BuyStops), BuyStops, 0) == ActivateFirst(c, BuyStops);
  }
}
