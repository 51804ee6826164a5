/** What is bought is sold, and no order trades beyond its limit: on books without 'All-Or-None'
    orders this holds of everything the matching engine reports. */
module Trades {
  import opened Options
  import opened Orders
  import opened PriorityList
  import opened BookSpec
  import opened Invariants
  import opened Fills

  // Quantity reported as bought less quantity reported as sold.
  function Gap(log: seq<Event>): int {
    if log == [] then 0 else Gap(log[..|log| - 1]) + Weight(log[|log| - 1])
  }

  function Signed(side: Side, q: nat): int { if side == Buy then q else 0 - q }

  function Weight(e: Event): int {
    match e case Executed(_, side, _, _, q) => Signed(side, q) case _ => 0
  }

  // The price of a trade is one the limit of the order accepts.
  predicate Fair(e: Event) { e.Executed? ==> Accepts(e.side, e.limit, e.price) }

  ghost predicate Honest(b: Book, gap: int) {
    Gap(b.tape.log) == gap && forall i :: 0 <= i < |b.tape.log| ==> Fair(b.tape.log[i])
  }

  function Sign(k: Kind): int { if k == Bids then 1 else -1 }

  lemma HonestSay(b: Book, gap: int, e: Event)
    requires Honest(b, gap) && Fair(e)
    ensures Honest(b.Say(e), gap + Weight(e))
  {
    assert (b.tape.log + [e])[..|b.tape.log|] == b.tape.log;
  }

  lemma HonestTape(b: Book, c: Book, gap: int)
    requires Honest(b, gap) && c.tape.log == b.tape.log
    ensures Honest(c, gap)
  {
  }

  lemma HonestTrade(b: Book, gap: int, o: Order, price: nat, q: nat)
    requires Honest(b, gap) && Accepts(o.side, o.price, price)
    ensures Honest(b.Trade(o, price, q), gap + Signed(o.side, q))
  {
    HonestSay(b, gap, Executed(o.id, o.side, o.price, price, q));
    HonestTape(b.Say(Executed(o.id, o.side, o.price, price, q)), b.Trade(o, price, q),
               gap + Signed(o.side, q));
  }

  lemma HonestHit(b: Book, gap: int, k: Kind, i: nat, price: nat, q: nat)
    requires Honest(b, gap) && (k == Bids || k == Asks) && i < |b.Get(k)| && q <= b.Get(k)[i].leaves
    requires KindOf(b.Get(k)[i]) == k && Accepts(b.Get(k)[i].side, b.Get(k)[i].price, price)
    ensures Honest(Hit(b, k, i, price, q), gap + Sign(k) * q)
  {
    hide Honest;
    var o := b.Get(k)[i];
    var b1 := b.Trade(o, price, q);
    var gap' := gap + Sign(k) * q;
    HonestTrade(b, gap, o, price, q);
    HonestSay(b1, gap', Deleted(o.id));
    HonestTape(if q == o.leaves then b1.Say(Deleted(o.id)) else b1, Hit(b, k, i, price, q), gap');
  }

  // The first order of a list of limit orders.
  lemma FirstOk(b: Book, m: Mode, k: Kind)
    requires Good(b, m) && (k == Bids || k == Asks) && b.Get(k) != []
    ensures var o := b.Get(k)[0];
            KindOf(o) == k && o.leaves > 0 && (o.side == Buy <==> k == Bids) && (m != Any ==> !o.IsAON())
  {
  }

  lemma {:induction false} HonestFill(b: Book, m: Mode, gap: int, o: Order)
    requires Good(b, m) && m != Any && Honest(b, gap) && o.leaves > 0
    ensures Honest(Fill(b, o).0, gap)
    decreases |b.Get(Opposite(o.side))|
  {
    hide Honest, Good, Hit, HitBest;
    var k := Opposite(o.side);
    var s := b.Get(k);
    if s != [] && Accepts(o.side, o.price, s[0].price) {
      FirstOk(b, m, k);
      BestIsHit(b, o);
      HitFront(b, o);
      var q := Min(s[0].leaves, o.leaves);
      var b1 := Hit(b, k, 0, s[0].price, q);
      HonestHit(b, gap, k, 0, s[0].price, q);
      HonestTrade(b1, gap + Sign(k) * q, o, s[0].price, q);
      GoodHit(b, m, k, 0, s[0].price, q);
      SameLists(b1, b1.Trade(o, s[0].price, q), m);
      if o.leaves - q > 0 { HonestFill(b1.Trade(o, s[0].price, q), m, gap, Fills.Traded(o, q)); }
    }
  }

  /** A chain trades its volume at the limit of the incoming order, which suits everyone it reaches. */
  lemma {:induction false} HonestExecuteChain(b: Book, m: Mode, gap: int, side: Side, price: nat, volume: nat)
    requires Good(b, m) && Honest(b, gap)
    requires CutsAt(b.Get(Opposite(side)), volume) && volume <= Within(side, price, b.Get(Opposite(side)))
    ensures Honest(ExecuteChain(b, Opposite(side), price, volume), gap + Sign(Opposite(side)) * volume)
    decreases |b.Get(Opposite(side))|
  {
    hide Honest, Good, Hit;
    var k := Opposite(side);
    var s := b.Get(k);
    if s != [] && volume > 0 {
      FirstOk(b, m, k);
      var q := if s[0].IsAON() then s[0].leaves else Min(s[0].leaves, volume);
      var b1 := Hit(b, k, 0, price, q);
      ChainStep(b, k, price, volume);
      HonestHit(b, gap, k, 0, price, q);
      if q == s[0].leaves {
        GoodHit(b, m, k, 0, price, q);
        HonestExecuteChain(b1, m, gap + Sign(k) * q, side, price, volume - q);
      } else {
        NoVolume(b1, k, price);
      }
    }
  }

  lemma HonestMatchOrder(b: Book, m: Mode, gap: int, o: Order)
    requires Good(b, m) && m != Any && Honest(b, gap) && o.leaves > 0
    ensures Honest(MatchOrder(b, o).0, gap)
  {
    hide Honest, Good, HaveLeaves, Chain, Fill, ExecuteChain;
    if o.IsWhole() {
      var k := Opposite(o.side);
      var s := b.Get(k);
      assert s[0..] == s;
      ListHasLeaves(b, m, k);
      ChainIff(o.side, s, 0, o.price, o.leaves, 0);
      if Chain(k, s, 0, o.price, o.leaves, 0) != 0 {
        HonestExecuteChain(b, m, gap, o.side, o.price, o.leaves);
        AcceptsOwn(o.side, o.price);
        HonestTrade(ExecuteChain(b, k, o.price, o.leaves), gap + Sign(k) * o.leaves, o, o.price, o.leaves);
      }
    } else {
      HonestFill(b, m, gap, o);
    }
  }

  lemma ListHasLeaves(b: Book, m: Mode, k: Kind)
    requires Good(b, m)
    ensures HaveLeaves(b.Get(k))
  {
  }

  lemma AcceptsOwn(side: Side, price: nat)
    ensures Accepts(side, price, price)
  {
  }

  lemma HonestMatchMarket(b: Book, m: Mode, gap: int, o: Order)
    requires Good(b, m) && m != Any && Honest(b, gap) && o.leaves > 0
    ensures Honest(MatchMarket(b, o).0, gap)
  {
    hide Honest, Good;
    var s := b.Get(Opposite(o.side));
    if s != [] { HonestMatchOrder(b, m, gap, o.(price := MarketLimit(o.side, s[0].price, o.slippage))); }
  }

  lemma HonestActivateFirst(b: Book, m: Mode, gap: int, k: Kind)
    requires (k == BuyStops || k == SellStops) && b.Get(k) != []
    requires Good(b, m) && m != Any && Honest(b, gap)
    ensures Honest(ActivateFirst(b, k), gap)
  {
    hide Honest, Good, MatchMarket, MatchOrder, Unlink;
    var o := b.Get(k)[0];
    var b1 := Unlink(b, k, 0);
    GoodUnlink(b, m, k, 0);
    HonestTape(b, b1, gap) by { UnlinkLog(b, k); }
    if o.typ == Stop {
      StopActivation(b, k);
      HonestMatchMarket(b1, m, gap, AsMarket(o));
      HonestSay(MatchMarket(b1, AsMarket(o)).0, gap, Deleted(o.id));
    } else {
      var (b2, o2) := MatchOrder(b1, AsLimit(o));
      HonestMatchOrder(b1, m, gap, AsLimit(o));
      HonestTape(b2, Link(b2, o2), gap);
      HonestSay(b2, gap, Deleted(o2.id));
    }
  }

  lemma UnlinkLog(b: Book, k: Kind)
    requires b.Get(k) != []
    ensures Unlink(b, k, 0).tape == b.tape
  {
  }

  lemma {:induction false} HonestActivateRun(b: Book, m: Mode, gap: int, k: Kind, n: nat)
    requires k == BuyStops || k == SellStops
    requires Good(b, m) && m != Any && Honest(b, gap) && n <= |b.Get(k)|
    ensures Honest(ActivateRun(b, k, n), gap)
    decreases n
  {
    hide Honest, Good, ActivateFirst;
    if n > 0 {
      HonestActivateFirst(b, m, gap, k);
      GoodActivateFirst(b, m, k);
      HonestActivateRun(ActivateFirst(b, k), m, gap, k, n - 1);
    }
  }

  lemma HonestActivateBest(b: Book, m: Mode, gap: int, k: Kind)
    requires k == BuyStops || k == SellStops
    requires Good(b, m) && m != Any && Honest(b, gap)
    ensures Honest(ActivateBest(b, k), gap) && Good(ActivateBest(b, k), m)
  {
    hide Honest, Good;
    HonestActivateRun(b, m, gap, k, if Triggered(b, k) then RunLength(k, b.Get(k)) else 0);
    GoodActivateBest(b, m, k);
  }

  lemma {:induction false} HonestActivateAll(b: Book, m: Mode, gap: int)
    requires Good(b, m) && m != Any && Honest(b, gap)
    ensures Honest(ActivateAll(b), gap)
    decreases b.Stops()
  {
    hide Honest, Good, ActivateBest, Triggered;
    if Active(b) {
      HonestActivateBest(b, m, gap, BuyStops);
      HonestActivateBest(ActivateBest(b, BuyStops), m, gap, SellStops);
      HonestActivateAll(ActivatePass(b), m, gap);
    }
  }

  lemma PairReported(b: Book, i: nat, j: nat)
    requires i < |b.bids| && j < |b.asks|
    ensures var bid, ask := b.bids[i], b.asks[j];
            TradePair(b, i, j).tape.log == b.tape.log +
            if bid.leaves > ask.leaves then
              TradeReports(ask, ask.price, ask.leaves) + TradeReports(bid, ask.price, ask.leaves)
            else TradeReports(bid, bid.price, bid.leaves) + TradeReports(ask, bid.price, bid.leaves)
  {
    hide Hit, TradeReports;
    var bid, ask := b.bids[i], b.asks[j];
    if bid.leaves > ask.leaves {
      HitReported(b, Asks, j, ask.price, ask.leaves);
      HitLists(b, Asks, j, ask.price, ask.leaves);
      HitReported(Hit(b, Asks, j, ask.price, ask.leaves), Bids, i, ask.price, ask.leaves);
    } else {
      HitReported(b, Bids, i, bid.price, bid.leaves);
      HitLists(b, Bids, i, bid.price, bid.leaves);
      HitReported(Hit(b, Bids, i, bid.price, bid.leaves), Asks, j, bid.price, bid.leaves);
    }
  }

  /** Two crossing orders trade what the smaller one has left at its price, which lies between both limits,
      and these are the only reports. */
  lemma HonestTradePair(b: Book, m: Mode, gap: int, i: nat, j: nat)
    requires Good(b, m) && Honest(b, gap) && i < |b.bids| && j < |b.asks| && b.bids[i].price >= b.asks[j].price
    ensures Honest(TradePair(b, i, j), gap)
    ensures var bid, ask := b.bids[i], b.asks[j];
            var (first, second) := if bid.leaves > ask.leaves then (ask, bid) else (bid, ask);
            ask.price <= first.price <= bid.price && first.leaves <= second.leaves &&
            TradePair(b, i, j).tape.log == b.tape.log +
            (TradeReports(first, first.price, first.leaves) + TradeReports(second, first.price, first.leaves))
  {
    hide Honest, Hit, TradeReports;
    PairReported(b, i, j);
    var bid, ask := b.bids[i], b.asks[j];
    if bid.leaves > ask.leaves {
      HonestHit(b, gap, Asks, j, ask.price, ask.leaves);
      HitLists(b, Asks, j, ask.price, ask.leaves);
      HonestHit(Hit(b, Asks, j, ask.price, ask.leaves), gap - ask.leaves, Bids, i, ask.price, ask.leaves);
    } else {
      HonestHit(b, gap, Bids, i, bid.price, bid.leaves);
      HitLists(b, Bids, i, bid.price, bid.leaves);
      HonestHit(Hit(b, Bids, i, bid.price, bid.leaves), gap + bid.leaves, Asks, j, bid.price, bid.leaves);
    }
  }

  lemma {:induction false} HonestPairLevels(b: Book, m: Mode, gap: int, i: nat, j: nat)
    requires Good(b, m) && m != Any && Honest(b, gap)
    requires i < |b.bids| && j < |b.asks| && b.bids[i].price >= b.asks[j].price
    ensures Honest(PairLevels(b, i, j).0, gap)
    decreases |b.bids| - i
  {
    hide Honest, TradePair, PairLevels;
    assert !b.bids[i].IsAON() && !b.asks[j].IsAON();
    PairStep(b, i, j);
    HonestTradePair(b, m, gap, i, j);
    GoodTradePair(b, m, i, j);
    if NextInLevel(Bids, b.bids, i) != None && NextInLevel(Asks, b.asks, j) != None {
      var i' := if b.bids[i].leaves <= b.asks[j].leaves then i else i + 1;
      var j' := if b.asks[j].leaves <= b.bids[i].leaves then j else j + 1;
      HonestPairLevels(TradePair(b, i, j), m, gap, i', j');
    }
  }

  lemma {:induction false} HonestCrossLoop(b: Book, m: Mode, gap: int)
    requires Good(b, m) && m != Any && Honest(b, gap)
    ensures Honest(CrossLoop(b).0, gap)
    decreases b.Stops(), b.Size()
  {
    hide Honest, Good, PairLevels, ActivateBest;
    if b.Crossed() {
      var (b1, blocked) := PairLevels(b, 0, 0);
      HonestPairLevels(b, m, gap, 0, 0);
      GoodPairLevels(b, m, 0, 0);
      PairLevelsSize(b, 0, 0);
      if !blocked {
        HonestActivateBest(b1, m, gap, BuyStops);
        HonestActivateBest(ActivateBest(b1, BuyStops), m, gap, SellStops);
        HonestCrossLoop(ActivateBest(ActivateBest(b1, BuyStops), SellStops), m, gap);
      }
    }
  }

  /** Matching, whether it works off a crossed book or only activates stop orders, buys what it sells
      and stays within all limits. */
  lemma {:induction false} HonestMatch(b: Book, m: Mode, gap: int)
    requires Good(b, m) && m != Any && Honest(b, gap)
    ensures Honest(Match(b), gap)
    decreases b.Stops()
  {
    hide Honest, Good, CrossLoop, ActivateAll, Active;
    HonestCrossLoop(b, m, gap);
    GoodCrossLoop(b, m);
    var (b1, blocked) := CrossLoop(b);
    if !blocked && Active(b1) {
      HonestActivateAll(b1, m, gap);
      GoodActivateAll(b1, m);
      HonestMatch(ActivateAll(b1), m, gap);
    }
  }
}
