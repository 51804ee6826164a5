/** Market orders: what slippage bounds for a buy, and when a sell trades at all. */
module MarketOrders {
  import opened Orders
  import opened BookSpec
  import opened Invariants
  import opened Fills
  import Duplicates

  // ---------- prices paid

  // All that has been added to the log are reports, and none of an execution above the limit.
  ghost predicate PaysUpTo(b: Book, r: Book, limit: nat) {
    b.tape.log <= r.tape.log &&
    forall i :: |b.tape.log| <= i < |r.tape.log| && r.tape.log[i].Executed? ==> r.tape.log[i].price <= limit
  }

  lemma PaysTransitive(b: Book, c: Book, d: Book, limit: nat)
    requires PaysUpTo(b, c, limit) && PaysUpTo(c, d, limit)
    ensures PaysUpTo(b, d, limit)
  {
    assert forall i :: 0 <= i < |c.tape.log| ==> d.tape.log[i] == c.tape.log[i];
  }

  lemma HitPays(b: Book, k: Kind, price: nat, q: nat, limit: nat)
    requires b.Get(k) != [] && q <= b.Get(k)[0].leaves && price <= limit
    ensures PaysUpTo(b, Hit(b, k, 0, price, q), limit)
  {
  }

  lemma TradePays(b: Book, o: Order, price: nat, q: nat, limit: nat)
    requires price <= limit
    ensures PaysUpTo(b, b.Trade(o, price, q), limit)
  {
  }

  lemma {:induction false} FillPays(b: Book, o: Order)
    requires o.side == Buy
    ensures PaysUpTo(b, Fill(b, o).0, o.price)
    decreases |b.asks|
  {
    hide PaysUpTo, Hit;
    PaysItself(b, o.price);
    var s := b.Get(Asks);
    if s != [] && s[0].price <= o.price && !(s[0].IsAON() && s[0].leaves > o.leaves) {
      var q := Min(s[0].leaves, o.leaves);
      var c := Hit(b, Asks, 0, s[0].price, q);
      HitAtFront(b, Asks, s[0].price, q);
      HitPays(b, Asks, s[0].price, q, o.price);
      TradePays(c, o, s[0].price, q, o.price);
      PaysTransitive(b, c, c.Trade(o, s[0].price, q), o.price);
      var (b', o') := HitBest(b, o);
      if o'.leaves > 0 {
        FillPays(b', o');
        PaysTransitive(b, b', Fill(b', o').0, o.price);
      }
    }
  }

  lemma PaysItself(b: Book, limit: nat)
    ensures PaysUpTo(b, b, limit)
  {
  }

  lemma {:induction false} ChainPays(b: Book, k: Kind, price: nat, volume: nat)
    ensures PaysUpTo(b, ExecuteChain(b, k, price, volume), price)
    decreases |b.Get(k)|
  {
    hide PaysUpTo, Hit;
    PaysItself(b, price);
    var s := b.Get(k);
    if s != [] && volume > 0 {
      var q := if s[0].IsAON() then s[0].leaves else Min(s[0].leaves, volume);
      var c := Hit(b, k, 0, price, q);
      HitAtFront(b, k, price, q);
      HitPays(b, k, price, q, price);
      if q == s[0].leaves {
        ChainPays(c, k, price, Sub64(volume, q));
        PaysTransitive(b, c, ExecuteChain(c, k, price, Sub64(volume, q)), price);
      }
    }
  }

  lemma MatchPays(b: Book, o: Order)
    requires o.side == Buy
    ensures PaysUpTo(b, MatchOrder(b, o).0, o.price)
  {
    hide PaysUpTo, ExecuteChain, Fill, Chain;
    PaysItself(b, o.price);
    if o.IsWhole() {
      var chain := Chain(Asks, b.asks, 0, o.price, o.leaves, 0);
      var c := ExecuteChain(b, Asks, o.price, chain);
      ChainPays(b, Asks, o.price, chain);
      TradePays(c, o, o.price, o.leaves, o.price);
      PaysTransitive(b, c, c.Trade(o, o.price, o.leaves), o.price);
    } else {
      FillPays(b, o);
    }
  }

  // ---------- buys

  // The highest price a buy market order accepts.
  function BuyLimit(best: nat, slippage: nat): nat { Min(best + slippage, ORDER_INT_MAX) }

  /** A buy market order pays at most the best ask plus its slippage, capped at the largest price, whether
      it may be filled in parts or not. */
  lemma BuyPaysUpToSlippage(b: Book, o: Order)
    requires o.side == Buy && b.asks != [] && o.slippage <= ORDER_INT_MAX
    ensures MatchMarket(b, o) == MatchOrder(b, o.(price := BuyLimit(b.asks[0].price, o.slippage)))
    ensures PaysUpTo(b, MatchMarket(b, o).0, BuyLimit(b.asks[0].price, o.slippage))
  {
    hide MatchOrder, PaysUpTo;
    BuyLimitIs(b.asks[0].price, o.slippage);
    MatchPays(b, o.(price := BuyLimit(b.asks[0].price, o.slippage)));
  }

  lemma BuyLimitIs(best: nat, slippage: nat)
    requires slippage <= ORDER_INT_MAX
    ensures MarketLimit(Buy, best, slippage) == BuyLimit(best, slippage)
  {
    if best + slippage <= ORDER_INT_MAX { assert (best + slippage) % TWO64 == best + slippage; }
  }

  /** Filled in parts, it takes from the front of the asks what it asks for or all there is up to that price,
      whichever is less, as far as this splits no 'All-Or-None' order; otherwise all it asks for or nothing. */
  lemma BuyTakesWithinSlippage(b: Book, o: Order)
    requires o.side == Buy && o.leaves > 0 && o.slippage <= ORDER_INT_MAX && b.asks != [] && HaveLeaves(b.asks)
    ensures var p := o.(price := BuyLimit(b.asks[0].price, o.slippage));
            var (b', o') := MatchMarket(b, o);
            if o.IsWhole() then
              if CutsAt(b.asks, o.leaves) && o.leaves <= Within(Buy, p.price, b.asks) then
                o' == Traded(p, o.leaves) && b'.asks == Take(b.asks, o.leaves) && b'.bids == b.bids
              else (b', o') == (b, p)
            else
              var q := FillVolume(p, b.asks);
              o' == Traded(p, q) && b'.asks == Take(b.asks, q) && b'.bids == b.bids &&
              b'.tape.log == b.tape.log + Reports(b.asks, p, q)
    ensures NoAON(b.asks) ==>
              var p := o.(price := BuyLimit(b.asks[0].price, o.slippage));
              FillVolume(p, b.asks) == Min(o.leaves, Within(Buy, p.price, b.asks))
  {
    hide MatchMarket, Fill, Reports, MatchWhole, FillVolume;
    var p := o.(price := BuyLimit(b.asks[0].price, o.slippage));
    BuyPaysUpToSlippage(b, o);
    if NoAON(b.asks) { PlainFillVolume(p, b.asks); }
    if o.IsWhole() {
      WholeOrNothing(b, p);
      assert MatchOrder(b, p).0.Get(Bids) == b.bids;
    } else {
      FillIsGreedy(b, p);
      FillReports(b, p);
      assert Fill(b, p).0.Get(Bids) == b.Get(Bids);
    }
  }

  // ---------- sells

  /** Whether the limit of a sell market order lets it trade at the best bid. With a slippage that is a
      price, it takes a bid at the largest price. */
  predicate SellReaches(best: nat, slippage: nat) {
    if best < Add64(ORDER_INT_MAX, slippage) then best >= ORDER_INT_MAX else slippage <= best
  }

  lemma SellReachesIff(best: nat, slippage: nat)
    requires slippage <= ORDER_INT_MAX
    ensures SellReaches(best, slippage) <==> best >= ORDER_INT_MAX
  {
    assert (ORDER_INT_MAX + slippage) % TWO64 == ORDER_INT_MAX + slippage;
  }

  lemma SellLimitAccepts(best: nat, slippage: nat)
    requires best < TWO64 && slippage < TWO64
    ensures Accepts(Sell, MarketLimit(Sell, best, slippage), best) <==> SellReaches(best, slippage)
  {
    if slippage > best { assert (best - slippage) % TWO64 == best - slippage + TWO64; }
  }

  /** A sell market order changes nothing but its own price exactly when its limit does not reach the best
      bid, or it does and an 'All-Or-None' order stands in the way or the order itself cannot be filled whole.
      For any slippage that is a price, reaching means a best bid at the largest price. */
  lemma SellTradesIff(b: Book, o: Order)
    requires o.side == Sell && o.leaves > 0 && o.slippage < TWO64
    requires b.bids != [] && HaveLeaves(b.bids) && b.bids[0].price < TWO64
    ensures var best := b.bids[0].price;
            var p := o.(price := MarketLimit(Sell, best, o.slippage));
            (MatchMarket(b, o) == (b, p) <==> !SellReaches(best, o.slippage) || Duplicates.Untradable(b, p)) &&
            (NoAON(b.bids) && !o.IsWhole() ==> (Duplicates.Untradable(b, p) <==> !SellReaches(best, o.slippage)))
    ensures o.slippage <= ORDER_INT_MAX ==>
              (SellReaches(b.bids[0].price, o.slippage) <==> b.bids[0].price >= ORDER_INT_MAX)
  {
    hide MatchOrder, MarketLimit, SellReaches;
    var best := b.bids[0].price;
    var p := o.(price := MarketLimit(Sell, best, o.slippage));
    SellLimitAccepts(best, o.slippage);
    if o.slippage <= ORDER_INT_MAX { SellReachesIff(best, o.slippage); }
    Duplicates.MatchIdleIff(b, p);
    if !SellReaches(best, o.slippage) { MatchStops(b, p); }
  }

  /** So no ordinary bid is ever reached, by a sell market order of either kind. */
  lemma SellMissesOrdinaryBids(b: Book, o: Order)
    requires o.side == Sell && o.leaves > 0 && o.slippage <= ORDER_INT_MAX
    requires b.bids != [] && b.bids[0].price < ORDER_INT_MAX
    ensures MatchMarket(b, o) == (b, o.(price := ORDER_INT_MAX))
  {
    hide MatchOrder;
    assert (ORDER_INT_MAX + o.slippage) % TWO64 == ORDER_INT_MAX + o.slippage;
    MatchStops(b, o.(price := ORDER_INT_MAX));
  }
}
