/** Activation of stop orders: each order of a triggered level exactly once and in time order,
    whatever else waits in the stop lists. */
module StopOrders {
  import opened Orders
  import opened PriorityList
  import opened BookSpec
  import opened Invariants
  import opened Crossing

  predicate IsStopList(k: Kind) { k == BuyStops || k == SellStops }

  // ---------- matching neither reads nor writes a stop list

  lemma HitIgnores(b: Book, k: Kind, s: seq<Order>, j: Kind, price: nat, q: nat)
    requires IsStopList(k) && !IsStopList(j) && b.Get(j) != [] && q <= b.Get(j)[0].leaves
    ensures b.Set(k, s).Get(j) == b.Get(j)
    ensures Hit(b.Set(k, s), j, 0, price, q) == Hit(b, j, 0, price, q).Set(k, s)
  {
  }

  lemma {:induction false} FillIgnores(b: Book, k: Kind, s: seq<Order>, o: Order)
    requires IsStopList(k)
    ensures Fill(b.Set(k, s), o) == (Fill(b, o).0.Set(k, s), Fill(b, o).1)
    decreases |b.Get(Opposite(o.side))|
  {
    var j := Opposite(o.side);
    var t := b.Get(j);
    assert b.Set(k, s).Get(j) == t;
    if t != [] && Accepts(o.side, o.price, t[0].price) && !(t[0].IsAON() && t[0].leaves > o.leaves) {
      HitIgnores(b, k, s, j, t[0].price, Min(t[0].leaves, o.leaves));
      var (b', o') := HitBest(b, o);
      assert HitBest(b.Set(k, s), o) == (b'.Set(k, s), o') by { hide Hit; }
      if o'.leaves > 0 { FillIgnores(b', k, s, o'); }
    }
  }

  lemma {:induction false} ChainIgnores(b: Book, k: Kind, s: seq<Order>, j: Kind, price: nat, volume: nat)
    requires IsStopList(k) && !IsStopList(j)
    ensures ExecuteChain(b.Set(k, s), j, price, volume) == ExecuteChain(b, j, price, volume).Set(k, s)
    decreases |b.Get(j)|
  {
    hide Hit;
    var t := b.Get(j);
    assert b.Set(k, s).Get(j) == t;
    if t != [] && volume > 0 {
      var q := if t[0].IsAON() then t[0].leaves else Min(t[0].leaves, volume);
      HitIgnores(b, k, s, j, price, q);
      ChainStep(b, j, price, volume);
      ChainStep(b.Set(k, s), j, price, volume);
      if q == t[0].leaves {
        ChainIgnores(Hit(b, j, 0, price, q), k, s, j, price, Sub64(volume, q));
      }
    }
  }

  lemma MatchIgnores(b: Book, k: Kind, s: seq<Order>, o: Order)
    requires IsStopList(k)
    ensures MatchOrder(b.Set(k, s), o) == (MatchOrder(b, o).0.Set(k, s), MatchOrder(b, o).1)
  {
    var j := Opposite(o.side);
    assert b.Set(k, s).Get(j) == b.Get(j);
    hide ExecuteChain, Fill;
    if o.IsWhole() {
      var chain := Chain(j, b.Get(j), 0, o.price, o.leaves, 0);
      ChainIgnores(b, k, s, j, o.price, chain);
    } else {
      FillIgnores(b, k, s, o);
    }
  }

  lemma ActivateIgnores(b: Book, k: Kind, s: seq<Order>, o: Order)
    requires IsStopList(k) && (o.typ == Stop || o.typ == StopLimit)
    ensures Activate(b.Set(k, s), o) == Activate(b, o).Set(k, s)
  {
    hide MatchOrder;
    var j := Opposite(o.side);
    assert b.Set(k, s).Get(j) == b.Get(j);
    if o.typ == Stop {
      if b.Get(j) != [] {
        MatchIgnores(b, k, s, AsMarket(o).(price := MarketLimit(o.side, b.Get(j)[0].price, o.slippage)));
      }
    } else {
      MatchIgnores(b, k, s, AsLimit(o));
    }
  }

  // ---------- a level is activated order by order

  // Stop orders become market or limit orders one after the other.
  function ActivateEach(b: Book, run: seq<Order>): Book
    decreases |run|
  {
    if run == [] then b else ActivateEach(Activate(b, run[0]), run[1..])
  }

  lemma SetTwice(b: Book, k: Kind, s: seq<Order>, t: seq<Order>)
    ensures b.Set(k, s).Set(k, t) == b.Set(k, t) && b.Set(k, b.Get(k)) == b
  {
  }

  lemma {:induction false} RunIsEach(b: Book, k: Kind, n: nat)
    requires IsStopList(k) && OfKind(k, b.Get(k)) && n <= |b.Get(k)|
    ensures ActivateRun(b, k, n) == ActivateEach(b.Set(k, b.Get(k)[n..]), b.Get(k)[..n])
    decreases n
  {
    hide Activate, ActivateFirst;
    var s := b.Get(k);
    if n == 0 {
      SetTwice(b, k, s, s);
      assert s[0..] == s;
    } else {
      var c := ActivateFirst(b, k);
      ActivateTakesFirst(b, k);
      assert OfKind(k, c.Get(k)) by { assert forall i :: 0 <= i < |s[1..]| ==> s[1..][i] == s[i + 1]; }
      RunIsEach(c, k, n - 1);
      FirstIsActivate(b, k, s[n..]);
      assert s[1..][n - 1..] == s[n..] && s[1..][..n - 1] == s[..n][1..];
    }
  }

  lemma FirstIsActivate(b: Book, k: Kind, t: seq<Order>)
    requires IsStopList(k) && b.Get(k) != [] && (b.Get(k)[0].typ == Stop || b.Get(k)[0].typ == StopLimit)
    ensures ActivateFirst(b, k).Set(k, t) == Activate(b.Set(k, t), b.Get(k)[0])
  {
    hide Activate;
    var b1 := Unlink(b, k, 0);
    ActivateIgnores(b1, k, t, b.Get(k)[0]);
    SetTwice(b, k, RemoveAt(b.Get(k), 0), t);
  }

  lemma {:induction false} RunIsLevel(k: Kind, s: seq<Order>)
    requires Sorted(k, s)
    ensures var n := RunLength(k, s);
            (forall i :: 0 <= i < n ==> Key(k, s[i]) == Key(k, s[0])) &&
            forall i :: n <= i < |s| ==> Better(k, Key(k, s[0]), Key(k, s[i]))
  {
    if |s| > 1 {
      SortedTail(k, s);
      if Key(k, s[1]) == Key(k, s[0]) {
        RunIsLevel(k, s[1..]);
        var n := RunLength(k, s);
        forall i | 0 <= i < n ensures Key(k, s[i]) == Key(k, s[0]) { if i > 0 { assert s[1..][i - 1] == s[i]; } }
        forall i | n <= i < |s| ensures Better(k, Key(k, s[0]), Key(k, s[i])) { assert s[1..][i - 1] == s[i]; }
      } else {
        assert !Better(k, Key(k, s[1]), Key(k, s[0]));
        forall i | 1 <= i < |s| ensures Better(k, Key(k, s[0]), Key(k, s[i])) {
          if i > 1 { assert !Better(k, Key(k, s[i]), Key(k, s[1])); }
        }
      }
    }
  }

  /** A triggered level leaves its list as a whole: its orders, those at the best stop price, are
      activated once each in time order against a book whose stop lists already lack them, and no
      other stop order is touched. */
  lemma ActivatesTheLevel(b: Book, k: Kind)
    requires IsStopList(k) && ListOk(k, b.Get(k)) && Triggered(b, k)
    ensures var s, n := b.Get(k), RunLength(k, b.Get(k));
            (forall i :: 0 <= i < n ==> s[i].stopPrice == s[0].stopPrice) &&
            (forall i :: n <= i < |s| ==> Better(k, s[0].stopPrice, s[i].stopPrice)) &&
            ActivateBest(b, k) == ActivateEach(b.Set(k, s[n..]), s[..n]) && ActivateBest(b, k).Get(k) == s[n..] &&
            forall j :: j != k && IsStopList(j) ==> ActivateBest(b, k).Get(j) == b.Get(j)
  {
    hide ActivateRun;
    var s, n := b.Get(k), RunLength(k, b.Get(k));
    RunIsLevel(k, s);
    RunIsEach(b, k, n);
    EachKeepsStops(b.Set(k, s[n..]), k, s[..n]);
    assert b.Set(k, s[n..]).Get(k) == s[n..];
  }

  lemma {:induction false} EachKeepsStops(b: Book, k: Kind, run: seq<Order>)
    requires IsStopList(k)
    ensures ActivateEach(b, run).Get(k) == b.Get(k)
    decreases |run|
  {
    hide Activate;
    if run != [] {
      assert Activate(b, run[0]).Get(k) == b.Get(k);
      EachKeepsStops(Activate(b, run[0]), k, run[1..]);
    }
  }

  // ---------- stop orders left triggered

  /** Every operation ends with the matching prices reset. That leaves a stop order triggered, when nothing
      was to be activated, exactly when the last trade price alone had kept it from that: it lies on the far
      side of the stop price, and the best level does not. */
  lemma LeftTriggeredIff(b: Book)
    requires Good(b, Quoted) && !Triggered(b, BuyStops) && !Triggered(b, SellStops)
    ensures Settle(b, true) == b.Reset()
    ensures Triggered(Settle(b, true), BuyStops) <==>
            (b.buyStops != [] && b.tape.matchAsk < b.buyStops[0].stopPrice <= b.Reset().MarketAsk())
    ensures Triggered(Settle(b, true), SellStops) <==>
            (b.sellStops != [] && b.Reset().MarketBid() <= b.sellStops[0].stopPrice < b.tape.matchBid)
  {
    hide Good;
    GoodCrossLoop(b, Quoted);
  }

  function StopsOf(side: Side): Kind { if side == Buy then BuyStops else SellStops }

  // No trade price of the opposite side is remembered.
  predicate Unmarked(b: Book, side: Side) {
    if side == Buy then b.tape.matchAsk == ORDER_INT_MAX else b.tape.matchBid == 0
  }

  lemma {:induction false} FillUnmarked(b: Book, o: Order)
    requires Unmarked(b, o.side)
    ensures Unmarked(Fill(b, o).0, o.side)
    decreases |b.Get(Opposite(o.side))|
  {
    var s := b.Get(Opposite(o.side));
    if s != [] && Accepts(o.side, o.price, s[0].price) && !(s[0].IsAON() && s[0].leaves > o.leaves) {
      var (b', o') := HitBest(b, o);
      if o'.leaves > 0 { FillUnmarked(b', o'); }
    }
  }

  lemma {:induction false} ChainUnmarked(b: Book, k: Kind, price: nat, volume: nat, side: Side)
    requires Unmarked(b, side)
    ensures Unmarked(ExecuteChain(b, k, price, volume), side)
    decreases |b.Get(k)|
  {
    var s := b.Get(k);
    if s != [] && volume > 0 {
      var q := if s[0].IsAON() then s[0].leaves else Min(s[0].leaves, volume);
      ChainUnmarkedStep(b, k, price, q, side);
      if q == s[0].leaves { ChainUnmarked(Hit(b, k, 0, price, q), k, price, Sub64(volume, q), side); }
    }
  }

  lemma ChainUnmarkedStep(b: Book, k: Kind, price: nat, q: nat, side: Side)
    requires b.Get(k) != [] && q <= b.Get(k)[0].leaves
    ensures Unmarked(Hit(b, k, 0, price, q), side)
  {
  }

  // An incoming order marks only the matching price of its own side.
  lemma MatchUnmarked(b: Book, o: Order)
    requires Unmarked(b, o.side)
    ensures Unmarked(MatchOrder(b, o).0, o.side)
  {
    hide Fill, ExecuteChain;
    if o.IsWhole() {
      var k := Opposite(o.side);
      ChainUnmarked(b, k, o.price, Chain(k, b.Get(k), 0, o.price, o.leaves, 0), o.side);
    } else {
      FillUnmarked(b, o);
    }
  }

  lemma ActivateUnmarked(b: Book, o: Order)
    requires Unmarked(b, o.side) && (o.typ == Stop || o.typ == StopLimit)
    ensures Unmarked(Activate(b, o), o.side)
  {
    hide MatchOrder;
    var s := b.Get(Opposite(o.side));
    if o.typ == Stop {
      if s != [] { MatchUnmarked(b, AsMarket(o).(price := MarketLimit(o.side, s[0].price, o.slippage))); }
    } else {
      MatchUnmarked(b, AsLimit(o));
    }
  }

  lemma {:induction false} EachUnmarked(b: Book, run: seq<Order>, side: Side)
    requires Unmarked(b, side) && forall i :: 0 <= i < |run| ==> run[i].side == side && run[i].typ in {Stop, StopLimit}
    ensures Unmarked(ActivateEach(b, run), side)
    decreases |run|
  {
    hide Activate, Unmarked;
    if run != [] {
      ActivateUnmarked(b, run[0]);
      EachUnmarked(Activate(b, run[0]), run[1..], side);
    }
  }

  lemma ActivateBestUnmarked(b: Book, side: Side)
    requires ListOk(StopsOf(side), b.Get(StopsOf(side))) && Unmarked(b, side)
    ensures Unmarked(ActivateBest(b, StopsOf(side)), side)
  {
    hide ActivateEach, Unmarked;
    var k := StopsOf(side);
    if Triggered(b, k) {
      var s, n := b.Get(k), RunLength(k, b.Get(k));
      ActivatesTheLevel(b, k);
      OfOneSide(b, side, n);
      UnmarkedLists(b, side, s[n..]);
      EachUnmarked(b.Set(k, s[n..]), s[..n], side);
    }
  }

  lemma UnmarkedLists(b: Book, side: Side, s: seq<Order>)
    requires Unmarked(b, side)
    ensures Unmarked(b.Set(StopsOf(side), s), side)
  {
  }

  lemma OfOneSide(b: Book, side: Side, n: nat)
    requires ListOk(StopsOf(side), b.Get(StopsOf(side))) && n <= |b.Get(StopsOf(side))|
    ensures forall i :: 0 <= i < n ==>
              b.Get(StopsOf(side))[..n][i].side == side && b.Get(StopsOf(side))[..n][i].typ in {Stop, StopLimit}
  {
    forall i | 0 <= i < n
      ensures b.Get(StopsOf(side))[..n][i].side == side && b.Get(StopsOf(side))[..n][i].typ in {Stop, StopLimit}
    {
      assert Resting(StopsOf(side), b.Get(StopsOf(side))[i]);
    }
  }

  // ---------- and when none is

  // The stop list that looks at the bids or asks an order of the given side is added to.
  function OtherStops(side: Side): Kind { if side == Buy then SellStops else BuyStops }

  function Own(side: Side): Kind { if side == Buy then Bids else Asks }

  // The best level alone keeps the stops of the list from being triggered. A trade price cannot change that.
  predicate Calm(b: Book, k: Kind) {
    b.Get(k) == [] ||
    if k == SellStops then b.bids != [] && b.bids[0].price > b.sellStops[0].stopPrice
    else b.asks != [] && b.asks[0].price < b.Get(k)[0].stopPrice
  }

  // A best price is still there, or a better one.
  predicate NoWorse(k: Kind, s: seq<Order>, t: seq<Order>) {
    s != [] ==> t != [] && !Better(k, Key(k, s[0]), Key(k, t[0]))
  }

  lemma CalmNotTriggered(b: Book, k: Kind)
    requires IsStopList(k) && Calm(b, k)
    ensures !Triggered(b, k)
  {
  }

  lemma StaysCalm(b: Book, c: Book, side: Side)
    requires Calm(b, OtherStops(side)) && NoWorse(Own(side), b.Get(Own(side)), c.Get(Own(side)))
    requires c.Get(OtherStops(side)) == b.Get(OtherStops(side))
    ensures Calm(c, OtherStops(side))
  {
  }

  lemma {:induction false} FillKeepsOwn(b: Book, o: Order)
    ensures Fill(b, o).0.Get(Own(o.side)) == b.Get(Own(o.side))
    decreases |b.Get(Opposite(o.side))|
  {
    var s := b.Get(Opposite(o.side));
    if s != [] && Accepts(o.side, o.price, s[0].price) && !(s[0].IsAON() && s[0].leaves > o.leaves) {
      var (b', o') := HitBest(b, o);
      if o'.leaves > 0 { FillKeepsOwn(b', o'); }
    }
  }

  // An incoming order changes no list but the one it is matched against.
  lemma MatchKeepsOwn(b: Book, o: Order)
    ensures MatchOrder(b, o).0.Get(Own(o.side)) == b.Get(Own(o.side))
    ensures forall k :: IsStopList(k) ==> MatchOrder(b, o).0.Get(k) == b.Get(k)
  {
    hide Fill, ExecuteChain;
    FillKeepsOwn(b, o);
  }

  lemma MarketKeepsOwn(b: Book, o: Order)
    ensures MatchMarket(b, o).0.Get(Own(o.side)) == b.Get(Own(o.side))
    ensures forall k :: IsStopList(k) ==> MatchMarket(b, o).0.Get(k) == b.Get(k)
    ensures Unmarked(b, o.side) ==> Unmarked(MatchMarket(b, o).0, o.side)
  {
    hide MatchOrder;
    var s := b.Get(Opposite(o.side));
    if s != [] {
      var p := o.(price := MarketLimit(o.side, s[0].price, o.slippage));
      MatchKeepsOwn(b, p);
      if Unmarked(b, o.side) { MatchUnmarked(b, p); }
    }
  }

  lemma InsertNoWorse(k: Kind, s: seq<Order>, o: Order)
    ensures NoWorse(k, s, Insert(k, s, o))
  {
  }

  lemma ActivateNoWorse(b: Book, o: Order)
    requires o.typ == Stop || o.typ == StopLimit
    ensures NoWorse(Own(o.side), b.Get(Own(o.side)), Activate(b, o).Get(Own(o.side)))
  {
    hide MatchOrder, MatchMarket, Insert;
    MarketKeepsOwn(b, AsMarket(o));
    MatchKeepsOwn(b, AsLimit(o));
    var (b', o') := MatchOrder(b, AsLimit(o));
    InsertNoWorse(KindOf(o'), b'.Get(KindOf(o')), o');
  }

  lemma {:induction false} EachNoWorse(b: Book, run: seq<Order>, side: Side)
    requires forall i :: 0 <= i < |run| ==> run[i].side == side && run[i].typ in {Stop, StopLimit}
    ensures NoWorse(Own(side), b.Get(Own(side)), ActivateEach(b, run).Get(Own(side)))
    decreases |run|
  {
    hide Activate;
    if run != [] {
      ActivateNoWorse(b, run[0]);
      EachNoWorse(Activate(b, run[0]), run[1..], side);
    }
  }

  // Activating the stops of one side leaves those of the other calm.
  lemma ActivateBestCalm(b: Book, side: Side)
    requires ListOk(StopsOf(side), b.Get(StopsOf(side))) && Calm(b, OtherStops(side))
    ensures Calm(ActivateBest(b, StopsOf(side)), OtherStops(side))
  {
    hide ActivateEach, Calm, NoWorse, Triggered, ActivateRun, RunLength;
    var k := StopsOf(side);
    if Triggered(b, k) {
      var s, n := b.Get(k), RunLength(k, b.Get(k));
      ActivatesTheLevel(b, k);
      OfOneSide(b, side, n);
      var c := b.Set(k, s[n..]);
      assert c.Get(Own(side)) == b.Get(Own(side));
      EachNoWorse(c, s[..n], side);
      StaysCalm(b, ActivateBest(b, k), side);
    }
  }

  // While the stops of the other side are calm, a pass is about one side.
  lemma PassOfOneSide(b: Book, side: Side)
    requires Good(b, Quoted) && Calm(b, OtherStops(side)) && Unmarked(b, side)
    ensures var r := ActivatePass(b);
            r == ActivateBest(b, StopsOf(side)) && Calm(r, OtherStops(side)) && Unmarked(r, side)
  {
    hide Triggered, ActivateBest, Unmarked, Good;
    var k := StopsOf(side);
    ListsOf(b, k);
    ActivateBestCalm(b, side);
    ActivateBestUnmarked(b, side);
    CalmNotTriggered(b, OtherStops(side));
    CalmNotTriggered(ActivateBest(b, k), OtherStops(side));
  }

  lemma {:induction false} ActivateAllCalm(b: Book, side: Side)
    requires Good(b, Quoted) && Calm(b, OtherStops(side)) && Unmarked(b, side)
    ensures var r := ActivateAll(b); Calm(r, OtherStops(side)) && Unmarked(r, side)
    decreases b.Stops()
  {
    hide Good, Unmarked, ActivateBest, Calm;
    if Active(b) {
      PassOfOneSide(b, side);
      GoodActivateBest(b, Quoted, StopsOf(side));
      ActivateAllCalm(ActivatePass(b), side);
    }
  }

  lemma ListsOf(b: Book, k: Kind)
    requires Good(b, Quoted)
    ensures ListOk(k, b.Get(k))
  {
  }

  /** No operation leaves a stop order triggered if the book it settles remembers no trade price that the stops
      of one side look at, and the stops of the other side are calm: activating the former never worsens the
      best level that the latter look at. */
  lemma NoneLeftTriggered(b: Book, side: Side)
    requires Good(b, Quoted) && Unmarked(b, side) && Calm(b, OtherStops(side))
    ensures var r := Settle(b, true); !Triggered(r, BuyStops) && !Triggered(r, SellStops)
  {
    hide Good, CrossLoop, ActivateAll, Active;
    MatchUncrosses(b, Quoted);
    MatchIsActivation(b);
    ActivateAllCalm(b, side);
  }

  lemma MatchIsActivation(b: Book)
    requires Good(b, Quoted)
    ensures Match(b) == ActivateAll(b)
  {
    hide Good, CrossLoop;
    GoodCrossLoop(b, Quoted);
    GoodActivateAll(b, Quoted);
    GoodCrossLoop(ActivateAll(b), Quoted);
  }
}
