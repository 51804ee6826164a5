/** What an order takes from the other side, said from its fields: its limit, its volume, whether it may be
    filled in parts; for incoming orders, market orders and stop orders that are activated. */
module Offers {
  import opened Orders
  import opened PriorityList
  import opened BookSpec
  import opened Fills
  import opened Chains
  import opened MarketOrders

  // ---------- volume, reports and prices

  /** Of n units at prices within the limit: all or nothing, or the largest volume that splits no
      'All-Or-None' order. */
  function TakeVolume(side: Side, limit: nat, whole: bool, n: nat, s: seq<Order>): (v: nat)
    ensures v <= n
  {
    if whole then (if CutsAt(s, n) && n <= Within(side, limit, s) then n else 0)
    else LargestCut(s, Min(n, Within(side, limit, s)))
  }

  /** In parts, each trade is at the price of the order that is met and reported for both sides; as a whole, all
      are at the limit and the taker is reported once. */
  function TakeReports(o: Order, limit: nat, whole: bool, s: seq<Order>, v: nat): seq<Event> {
    if v == 0 then []
    else if whole then ChainReports(s, limit, v) + [Executed(o.id, o.side, limit, limit, v)]
    else Reports(s, o.(price := limit), v)
  }

  // The last trade price of the side is its matching price, and the other side has none.
  predicate Marked(t: Tape, side: Side) {
    if side == Buy then t.matchBid == t.lastBid && t.matchAsk == ORDER_INT_MAX
    else t.matchAsk == t.lastAsk && t.matchBid == 0
  }

  function Facing(b: Book, side: Side): seq<Order> { if side == Buy then b.asks else b.bids }

  /** The book after an order has taken v units: the other side has lost them from its front, and nothing else
      has changed but prices and reports. */
  predicate Taken(b: Book, c: Book, o: Order, limit: nat, whole: bool, v: nat) {
    (if o.side == Buy then c.asks == Take(b.asks, v) && c.bids == b.bids
     else c.bids == Take(b.bids, v) && c.asks == b.asks) &&
    c.buyStops == b.buyStops && c.sellStops == b.sellStops &&
    c.tape.log == b.tape.log + TakeReports(o, limit, whole, Facing(b, o.side), v) &&
    if v == 0 then c.tape == b.tape else Marked(c.tape, o.side)
  }

  // The order stands in its list behind all that are at least as good, and in front of all that are worse.
  ghost predicate Placed(k: Kind, s: seq<Order>, o: Order, t: seq<Order>) {
    exists n ::
      0 <= n <= |s| && t == s[..n] + [o] + s[n..] && (forall i :: 0 <= i < n ==> !Better(k, Key(k, o), Key(k, s[i]))) &&
      forall i :: n <= i < |s| ==> Better(k, Key(k, o), Key(k, s[i]))
  }

  // Nothing has changed but that the order waits in the list.
  ghost predicate Listed(b: Book, k: Kind, o: Order, c: Book) {
    c == b.Set(k, c.Get(k)) && Placed(k, b.Get(k), o, c.Get(k))
  }

  lemma LinkLists(b: Book, o: Order)
    requires Sorted(KindOf(o), b.Get(KindOf(o)))
    ensures Listed(b, KindOf(o), o, Link(b, o))
  {
    hide Insert;
    var n := InsertAt(KindOf(o), b.Get(KindOf(o)), o);
  }

  // ---------- an incoming order

  lemma {:induction false} FillMarks(b: Book, o: Order)
    ensures Fill(b, o) == (b, o) || Marked(Fill(b, o).0.tape, o.side)
    decreases |b.Get(Opposite(o.side))|
  {
    var s := b.Get(Opposite(o.side));
    if s != [] && Accepts(o.side, o.price, s[0].price) && !(s[0].IsAON() && s[0].leaves > o.leaves) {
      var (b', o') := HitBest(b, o);
      if o'.leaves > 0 { FillMarks(b', o'); }
    }
  }

  lemma {:induction false} ChainIsReported(b: Book, k: Kind, price: nat, volume: nat)
    requires CutsAt(b.Get(k), volume) && HaveLeaves(b.Get(k))
    ensures ExecuteChain(b, k, price, volume).tape.log == b.tape.log + ChainReports(b.Get(k), price, volume)
    ensures volume > 0 ==> ExecuteChain(b, k, price, volume).tape == ExecuteChain(b, k, price, volume).tape.Reset()
    decreases |b.Get(k)|
  {
    hide Hit, ExecuteChain, TradeReports;
    var s := b.Get(k);
    if volume == 0 {
      NoVolume(b, k, price);
    } else {
      LeavesOfTail(s);
      ChainHit(b, k, price, volume);
      var q := if s[0].IsAON() then s[0].leaves else Min(s[0].leaves, volume);
      var c := Hit(b, k, 0, price, q);
      HitResets(b, k, price, q);
      if q == s[0].leaves {
        ChainIsReported(c, k, price, volume - q);
        NoVolume(c, k, price);
      } else {
        NoVolume(c, k, price);
        assert ChainReports(s[1..], price, 0) == [];
      }
    }
  }

  lemma HitResets(b: Book, k: Kind, price: nat, q: nat)
    requires b.Get(k) != [] && q <= b.Get(k)[0].leaves
    ensures Hit(b, k, 0, price, q).tape == Hit(b, k, 0, price, q).tape.Reset()
  {
  }

  lemma NothingToTake(b: Book, o: Order)
    requires !o.IsWhole() && o.leaves > 0 && HaveLeaves(b.Get(Opposite(o.side)))
    requires FillVolume(o, b.Get(Opposite(o.side))) == 0
    ensures Fill(b, o) == (b, o)
  {
    FillVolumeStep(o, b.Get(Opposite(o.side)));
  }

  lemma WholeTakes(b: Book, o: Order)
    requires HaveLeaves(Facing(b, o.side)) && o.leaves > 0 && o.IsWhole()
    ensures var v := TakeVolume(o.side, o.price, true, o.leaves, Facing(b, o.side));
            MatchOrder(b, o).1 == Traded(o, v) && Taken(b, MatchOrder(b, o).0, o, o.price, true, v)
  {
    hide Fill, FillVolume, Chain, ExecuteChain, ChainReports, Take;
    var k := Opposite(o.side);
    var s := b.Get(k);
    assert s == Facing(b, o.side) && s[0..] == s;
    ChainIff(o.side, s, 0, o.price, o.leaves, 0);
    if Chain(k, s, 0, o.price, o.leaves, 0) != 0 {
      var c := ExecuteChain(b, k, o.price, o.leaves);
      ExecuteChainTakes(b, k, o.price, o.leaves);
      ChainIsReported(b, k, o.price, o.leaves);
      assert forall j :: j != k ==> c.Get(j) == b.Get(j);
      assert c.Get(Bids) == c.bids && c.Get(Asks) == c.asks && c.Get(BuyStops) == c.buyStops;
      assert c.Get(SellStops) == c.sellStops;
    } else {
      NothingTaken(b, o, o.price, true);
    }
  }

  lemma NothingTaken(b: Book, o: Order, limit: nat, whole: bool)
    ensures Taken(b, b, o, limit, whole, 0) && Traded(o, 0) == o
  {
  }

  lemma PartsTaken(b: Book, o: Order)
    requires HaveLeaves(Facing(b, o.side)) && o.leaves > 0 && !o.IsWhole()
    ensures var v := TakeVolume(o.side, o.price, false, o.leaves, Facing(b, o.side));
            MatchOrder(b, o).1 == Traded(o, v) && Taken(b, MatchOrder(b, o).0, o, o.price, false, v)
  {
    hide Fill, Take, LargestCut, Reports;
    var k := Opposite(o.side);
    var s := b.Get(k);
    assert s == Facing(b, o.side) && o.(price := o.price) == o;
    var c := Fill(b, o).0;
    FillIsGreedy(b, o);
    FillReports(b, o);
    FillMarks(b, o);
    if FillVolume(o, s) == 0 {
      NothingToTake(b, o);
      NothingTaken(b, o, o.price, false);
    } else {
      NotIdle(b, o);
    }
    assert c.Get(Bids) == c.bids && c.Get(Asks) == c.asks;
  }

  lemma NotIdle(b: Book, o: Order)
    requires FillVolume(o, b.Get(Opposite(o.side))) > 0 && HaveLeaves(b.Get(Opposite(o.side))) && o.leaves > 0
    ensures Fill(b, o) != (b, o)
  {
    FillIsGreedy(b, o);
  }

  predicate Whole(tif: TimeInForce) { tif == FOK || tif == AON }

  /** An incoming order takes its volume at its limit, and what it takes is no longer to be filled. */
  lemma OrderTakes(b: Book, o: Order)
    requires HaveLeaves(Facing(b, o.side)) && o.leaves > 0
    ensures var v := TakeVolume(o.side, o.price, Whole(o.tif), o.leaves, Facing(b, o.side));
            MatchOrder(b, o).1 == Traded(o, v) && Taken(b, MatchOrder(b, o).0, o, o.price, Whole(o.tif), v)
  {
    hide MatchOrder, Taken, TakeVolume;
    if o.IsWhole() { WholeTakes(b, o); } else { PartsTaken(b, o); }
  }

  // ---------- a market order

  /** The limit of a market order: a buy accepts the best price plus its slippage up to the largest price; a sell
      accepts the best price less its slippage, but nothing below the largest price. */
  function LimitOf(side: Side, best: nat, slippage: nat): nat {
    if side == Buy then BuyLimit(best, slippage)
    else if best > ORDER_INT_MAX + slippage then best - slippage else ORDER_INT_MAX
  }

  lemma LimitIs(side: Side, best: nat, slippage: nat)
    requires slippage <= ORDER_INT_MAX
    ensures MarketLimit(side, best, slippage) == LimitOf(side, best, slippage)
  {
    assert (ORDER_INT_MAX + slippage) % TWO64 == ORDER_INT_MAX + slippage;
    BuyLimitIs(best, slippage);
  }

  // What a market order takes, and at which limit: nothing when the other side is empty.
  function MarketVolume(o: Order, whole: bool, s: seq<Order>): (v: nat)
    ensures v <= o.leaves
  {
    if s == [] then 0 else TakeVolume(o.side, LimitOf(o.side, s[0].price, o.slippage), whole, o.leaves, s)
  }

  function MarketPrice(o: Order, s: seq<Order>): nat {
    if s == [] then o.price else LimitOf(o.side, s[0].price, o.slippage)
  }

  lemma MarketTakes(b: Book, o: Order)
    requires HaveLeaves(Facing(b, o.side)) && o.leaves > 0 && o.slippage <= ORDER_INT_MAX
    ensures var s := Facing(b, o.side);
            var v := MarketVolume(o, Whole(o.tif), s);
            Taken(b, MatchMarket(b, o).0, o, MarketPrice(o, s), Whole(o.tif), v)
  {
    hide MatchOrder, Taken, TakeVolume, LimitOf;
    var s := Facing(b, o.side);
    assert s == b.Get(Opposite(o.side));
    if s == [] {
      NothingTaken(b, o, o.price, Whole(o.tif));
    } else {
      var p := o.(price := LimitOf(o.side, s[0].price, o.slippage));
      LimitIs(o.side, s[0].price, o.slippage);
      OrderTakes(b, p);
      SameTaker(b, MatchOrder(b, p).0, p, o, p.price, Whole(o.tif),
                TakeVolume(o.side, p.price, Whole(o.tif), o.leaves, s));
    }
  }

  // Of the taker only the id and the side are reported, with the limit.
  lemma SameTaker(b: Book, c: Book, o: Order, p: Order, limit: nat, whole: bool, v: nat)
    requires Taken(b, c, o, limit, whole, v) && p.id == o.id && p.side == o.side
    ensures Taken(b, c, p, limit, whole, v)
  {
    SameReports(Facing(b, o.side), o.(price := limit), p.(price := limit), v);
  }

  lemma {:induction false} SameReports(s: seq<Order>, o: Order, p: Order, q: nat)
    requires p.id == o.id && p.side == o.side && p.price == o.price
    ensures Reports(s, o, q) == Reports(s, p, q)
  {
    if s != [] && q > 0 { SameReports(s[1..], o, p, q - Min(s[0].leaves, q)); }
  }

  // ---------- a stop order that is activated

  /** A stop order trades as a market order, as a whole if it is 'Fill-Or-Kill', and is deleted. */
  lemma StopTrades(b: Book, o: Order) returns (c: Book)
    requires o.typ == Stop && HaveLeaves(Facing(b, o.side)) && o.leaves > 0 && o.slippage <= ORDER_INT_MAX
    ensures var s := Facing(b, o.side);
            Taken(b, c, o, MarketPrice(o, s), o.tif == FOK, MarketVolume(o, o.tif == FOK, s))
    ensures Activate(b, o) == c.(tape := c.tape.(log := c.tape.log + [Deleted(o.id)]))
  {
    hide MatchMarket, Taken, TakeVolume, LimitOf;
    var s := Facing(b, o.side);
    var p := AsMarket(o);
    c := MatchMarket(b, p).0;
    MarketTakes(b, p);
    assert MatchMarket(b, p).1.id == o.id by { MarketKeepsId(b, p); }
    if s == [] {
      NothingTaken(b, o, MarketPrice(o, s), o.tif == FOK);
      assert c == b by { EmptyMarket(b, p); }
    } else {
      SameTaker(b, c, p, o, MarketPrice(o, s), o.tif == FOK, MarketVolume(o, o.tif == FOK, s));
    }
  }

  lemma MarketKeepsId(b: Book, o: Order)
    ensures MatchMarket(b, o).1.id == o.id
  {
    hide Fill, MatchWhole;
  }

  lemma EmptyMarket(b: Book, o: Order)
    requires Facing(b, o.side) == []
    ensures MatchMarket(b, o).0 == b
  {
  }

  /** A stop-limit order trades at its limit price, and what is left of it waits as a limit order at that price,
      or is deleted. */
  lemma StopLimitTrades(b: Book, o: Order) returns (c: Book)
    requires o.typ == StopLimit && HaveLeaves(Facing(b, o.side)) && o.leaves > 0
    requires Sorted(Bids, b.bids) && Sorted(Asks, b.asks)
    ensures var v := TakeVolume(o.side, o.price, Whole(o.tif), o.leaves, Facing(b, o.side));
            var p := o.(typ := Limit, stopPrice := 0, executed := o.executed + v, leaves := o.leaves - v);
            Taken(b, c, o, o.price, Whole(o.tif), v) &&
            if v < o.leaves && (o.tif == GTC || o.tif == AON) then
              Listed(c, if o.side == Buy then Bids else Asks, p, Activate(b, o))
            else Activate(b, o) == c.(tape := c.tape.(log := c.tape.log + [Deleted(o.id)]))
  {
    hide MatchOrder, Taken, TakeVolume, Link;
    var p := AsLimit(o);
    var v := TakeVolume(o.side, o.price, Whole(o.tif), o.leaves, Facing(b, o.side));
    c := MatchOrder(b, p).0;
    OrderTakes(b, p);
    SameTaker(b, c, p, o, o.price, Whole(o.tif), v);
    if v < o.leaves && (o.tif == GTC || o.tif == AON) {
      OwnSideStays(b, c, o, v);
      LinkLists(c, MatchOrder(b, p).1);
    }
  }

  lemma OwnSideStays(b: Book, c: Book, o: Order, v: nat)
    requires Taken(b, c, o, o.price, Whole(o.tif), v)
    ensures if o.side == Buy then c.bids == b.bids else c.asks == b.asks
  {
  }
}
