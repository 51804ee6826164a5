/** What every step of the flat engine keeps: lists in priority order holding only orders that may
    wait and, for automatic matching, a book that is not crossed and has no 'All-Or-None' order. */
module Invariants {
  import opened Options
  import opened Orders
  import opened PriorityList
  import opened BookSpec

  ghost predicate ListsOk(b: Book) {
    ListOk(Bids, b.bids) && ListOk(Asks, b.asks) && ListOk(BuyStops, b.buyStops) && ListOk(SellStops, b.sellStops)
  }

  ghost predicate NoAON(s: seq<Order>) { forall i :: 0 <= i < |s| ==> !s[i].IsAON() }

  ghost predicate AONFree(b: Book) { NoAON(b.bids) && NoAON(b.asks) && NoAON(b.buyStops) && NoAON(b.sellStops) }

  // The state automatic matching starts from and comes back to.
  ghost predicate Quotable(b: Book) { AONFree(b) && !b.Crossed() }

  /** How much is asked of a book: nothing more than its lists in order, no 'All-Or-None' orders, or
      also best bid below best ask. */
  datatype Mode = Any | Plain | Quoted

  function ModeOf(matching: bool): Mode { if matching then Quoted else Any }

  ghost predicate Good(b: Book, m: Mode) {
    ListsOk(b) && (m != Any ==> AONFree(b)) && (m == Quoted ==> !b.Crossed())
  }

  lemma EmptyGood(m: Mode)
    ensures Good(EMPTY, m)
  {
  }

  // Matching can be switched on for a quotable book, and always off.
  lemma SwitchMatching(b: Book, m: Mode)
    requires Good(b, m)
    ensures Good(b, Any) && (Quotable(b) ==> Good(b, Quoted))
  {
  }

  lemma GoodPut(b: Book, m: Mode, k: Kind, i: nat, o: Order)
    requires Good(b, m) && i < |b.Get(k)|
    requires o == b.Get(k)[i].(leaves := o.leaves, executed := o.executed)
    ensures Good(b.Set(k, Put(b.Get(k), i, o)), m)
    ensures Good(b.Set(k, RemoveAt(b.Get(k), i)), m)
  {
    var s := b.Get(k);
    ListOkGet(b, k);
    PutOk(k, s, i, o);
    PutOk(k, s, i, o.(leaves := 0));
    BestAfterPut(k, s, i, o);
    BestAfterPut(k, s, i, o.(leaves := 0));
  }

  lemma GoodUnlink(b: Book, m: Mode, k: Kind, i: nat)
    requires Good(b, m) && i < |b.Get(k)|
    ensures Good(Unlink(b, k, i), m)
    ensures Resting(k, b.Get(k)[i]) && (m != Any ==> !b.Get(k)[i].IsAON())
    ensures i == 0 ==> Unlink(b, k, i).Get(k) == b.Get(k)[1..]
  {
    GoodPut(b, m, k, i, b.Get(k)[i]);
    ListOkGet(b, k);
  }

  lemma ListOkGet(b: Book, k: Kind)
    requires ListsOk(b)
    ensures ListOk(k, b.Get(k))
  {
  }

  // Taking from a list never improves its best price.
  lemma BestAfterPut(k: Kind, s: seq<Order>, i: nat, o: Order)
    requires ListOk(k, s) && i < |s| && o == s[i].(leaves := o.leaves, executed := o.executed)
    ensures var t := Put(s, i, o); t != [] ==> !Better(k, Key(k, t[0]), Key(k, s[0]))
    ensures NoAON(s) ==> NoAON(Put(s, i, o))
  {
  }

  lemma GoodHit(b: Book, m: Mode, k: Kind, i: nat, price: nat, q: nat)
    requires Good(b, m) && i < |b.Get(k)| && q <= b.Get(k)[i].leaves
    ensures Good(Hit(b, k, i, price, q), m)
  {
    var o := b.Get(k)[i];
    GoodPut(b, m, k, i, o.(executed := o.executed + q, leaves := o.leaves - q));
    HitLists(b, k, i, price, q);
    SameLists(b.Set(k, Put(b.Get(k), i, o.(executed := o.executed + q, leaves := o.leaves - q))),
              Hit(b, k, i, price, q), m);
  }

  lemma SameLists(b: Book, c: Book, m: Mode)
    requires Good(b, m) && c == b.(tape := c.tape)
    ensures Good(c, m)
  {
  }

  lemma GoodReduce(b: Book, m: Mode, k: Kind, i: nat, q: nat)
    requires Good(b, m) && i < |b.Get(k)| && q <= b.Get(k)[i].leaves
    ensures Good(Reduce(b, k, i, q), m) && Good(Reduce(b, k, i, q).Reset(), m)
  {
    var o := b.Get(k)[i];
    GoodPut(b, m, k, i, o.(leaves := o.leaves - q));
    var c := b.Set(k, Put(b.Get(k), i, o.(leaves := o.leaves - q)));
    SameLists(c, Reduce(b, k, i, q), m);
    SameLists(c, Reduce(b, k, i, q).Reset(), m);
  }

  lemma GoodCredit(b: Book, m: Mode, k: Kind, i: nat, q: nat)
    requires Good(b, m) && i < |b.Get(k)|
    ensures Good(Credit(b, k, i, q), m)
  {
    hide Good;
    var o := b.Get(k)[i];
    HasLeaves(b, m, k, i);
    GoodPut(b, m, k, i, o.(executed := o.executed + q));
  }

  lemma HasLeaves(b: Book, m: Mode, k: Kind, i: nat)
    requires Good(b, m) && i < |b.Get(k)|
    ensures b.Get(k)[i].leaves > 0
  {
    ListOkGet(b, k);
  }

  lemma {:induction false} GoodFill(b: Book, m: Mode, o: Order)
    requires Good(b, m) && o.leaves > 0
    ensures var (b', o') := Fill(b, o);
            Good(b', m) && (o'.leaves == 0 || NoMatch(b', o'))
    decreases |b.Get(Opposite(o.side))|
  {
    var s := b.Get(Opposite(o.side));
    if s != [] && Accepts(o.side, o.price, s[0].price) && !(s[0].IsAON() && s[0].leaves > o.leaves) {
      GoodHit(b, m, Opposite(o.side), 0, s[0].price, Min(s[0].leaves, o.leaves));
      var (b', o') := HitBest(b, o);
      if o'.leaves > 0 { GoodFill(b', m, o'); }
    }
  }

  // Nothing on the opposite side can trade with the order.
  predicate NoMatch(b: Book, o: Order) {
    var s := b.Get(Opposite(o.side));
    s == [] || !Accepts(o.side, o.price, s[0].price) || (s[0].IsAON() && s[0].leaves > o.leaves)
  }

  lemma {:induction false} GoodExecuteChain(b: Book, m: Mode, k: Kind, price: nat, volume: nat)
    requires Good(b, m)
    ensures Good(ExecuteChain(b, k, price, volume), m)
    decreases |b.Get(k)|
  {
    var s := b.Get(k);
    if s != [] && volume > 0 {
      var q := if s[0].IsAON() then s[0].leaves else Min(s[0].leaves, volume);
      GoodHit(b, m, k, 0, price, q);
      if q == s[0].leaves { GoodExecuteChain(Hit(b, k, 0, price, q), m, k, price, Sub64(volume, q)); }
    }
  }

  /** Matching an order never crosses the book, and an order that goes on to wait does not cross it either. */
  lemma GoodMatchOrder(b: Book, m: Mode, o: Order)
    requires Good(b, m) && o.leaves > 0 && (m != Any ==> !o.IsAON())
    ensures var (b', o') := MatchOrder(b, o);
            Good(b', m) && (o'.leaves > 0 && !o.IsWhole() ==> NoMatch(b', o'))
  {
    if o.IsWhole() {
      GoodExecuteChain(b, m, Opposite(o.side), o.price,
                       Chain(Opposite(o.side), b.Get(Opposite(o.side)), 0, o.price, o.leaves, 0));
    } else {
      GoodFill(b, m, o);
    }
  }

  lemma GoodMatchMarket(b: Book, m: Mode, o: Order)
    requires Good(b, m) && o.leaves > 0 && (m != Any ==> !o.IsAON())
    ensures Good(MatchMarket(b, o).0, m)
  {
    var s := b.Get(Opposite(o.side));
    if s != [] { GoodMatchOrder(b, m, o.(price := MarketLimit(o.side, s[0].price, o.slippage))); }
  }

  lemma GoodLink(b: Book, m: Mode, o: Order)
    requires Good(b, m) && Resting(KindOf(o), o) && (m != Any ==> !o.IsAON())
    requires m == Quoted && o.typ == Limit ==> NoMatch(b, o)
    ensures Good(Link(b, o), m)
  {
    var k := KindOf(o);
    ListOkGet(b, k);
    InsertOk(k, b.Get(k), o);
    var n := InsertAt(k, b.Get(k), o);
    assert m != Any ==> NoAON(Insert(k, b.Get(k), o));
  }

  lemma GoodActivate(b: Book, m: Mode, o: Order)
    requires Good(b, m) && (Resting(BuyStops, o) || Resting(SellStops, o)) && (m != Any ==> !o.IsAON())
    ensures Good(Activate(b, o), m)
  {
    if o.typ == Stop {
      GoodMatchMarket(b, m, AsMarket(o));
    } else {
      GoodMatchOrder(b, m, AsLimit(o));
      var (b', o') := MatchOrder(b, AsLimit(o));
      if o'.Rests() { GoodLink(b', m, o'); }
    }
  }

  lemma GoodActivateFirst(b: Book, m: Mode, k: Kind)
    requires k == BuyStops || k == SellStops
    requires Good(b, m) && b.Get(k) != []
    ensures Good(ActivateFirst(b, k), m)
  {
    GoodUnlink(b, m, k, 0);
    GoodActivate(Unlink(b, k, 0), m, b.Get(k)[0]);
  }

  lemma {:induction false} GoodActivateRun(b: Book, m: Mode, k: Kind, n: nat)
    requires k == BuyStops || k == SellStops
    requires Good(b, m) && n <= |b.Get(k)|
    ensures Good(ActivateRun(b, k, n), m)
    decreases n
  {
    hide Good, ActivateFirst;
    if n > 0 {
      GoodActivateFirst(b, m, k);
      GoodActivateRun(ActivateFirst(b, k), m, k, n - 1);
    }
  }

  lemma GoodActivateBest(b: Book, m: Mode, k: Kind)
    requires (k == BuyStops || k == SellStops) && Good(b, m)
    ensures Good(ActivateBest(b, k), m)
  {
    GoodActivateRun(b, m, k, if Triggered(b, k) then RunLength(k, b.Get(k)) else 0);
  }

  lemma {:induction false} GoodActivateAll(b: Book, m: Mode)
    requires Good(b, m)
    ensures Good(ActivateAll(b), m)
    decreases b.Stops()
  {
    if Active(b) {
      GoodActivateBest(b, m, BuyStops);
      GoodActivateBest(ActivateBest(b, BuyStops), m, SellStops);
      GoodActivateAll(ActivatePass(b), m);
    }
  }

  lemma GoodTradePair(b: Book, m: Mode, i: nat, j: nat)
    requires Good(b, m) && i < |b.bids| && j < |b.asks|
    ensures Good(TradePair(b, i, j), m)
  {
    hide Good;
    var bid, ask := b.bids[i], b.asks[j];
    if bid.leaves > ask.leaves {
      GoodHit(b, m, Asks, j, ask.price, ask.leaves);
      GoodHit(Hit(b, Asks, j, ask.price, ask.leaves), m, Bids, i, ask.price, ask.leaves);
    } else {
      GoodHit(b, m, Bids, i, bid.price, bid.leaves);
      GoodHit(Hit(b, Bids, i, bid.price, bid.leaves), m, Asks, j, bid.price, bid.leaves);
    }
  }

  lemma {:induction false} GoodPairLevels(b: Book, m: Mode, i: nat, j: nat)
    requires Good(b, m) && i < |b.bids| && j < |b.asks|
    ensures Good(PairLevels(b, i, j).0, m)
    ensures m != Any ==> !PairLevels(b, i, j).1
    decreases |b.bids| - i
  {
    hide TradePair, TwoSidedChain, ExecuteChain;
    var bid, ask := b.bids[i], b.asks[j];
    if bid.IsAON() || ask.IsAON() {
      var chain := TwoSidedChain(b);
      GoodExecuteChain(b, m, Bids, bid.price, chain);
      GoodExecuteChain(ExecuteChain(b, Bids, bid.price, chain), m, Asks, ask.price, chain);
    } else {
      GoodTradePair(b, m, i, j);
      if NextInLevel(Bids, b.bids, i) != None && NextInLevel(Asks, b.asks, j) != None {
        GoodPairLevels(TradePair(b, i, j), m, if bid.leaves <= ask.leaves then i else i + 1,
                       if ask.leaves <= bid.leaves then j else j + 1);
      }
    }
  }

  lemma {:induction false} GoodCrossLoop(b: Book, m: Mode)
    requires Good(b, m)
    ensures Good(CrossLoop(b).0, m)
    ensures m == Quoted ==> CrossLoop(b) == (b, false)
    ensures m != Any ==> !CrossLoop(b).1
    decreases b.Stops(), b.Size()
  {
    if b.Crossed() {
      hide Good, PairLevels, ActivateBest;
      var (b1, blocked) := PairLevels(b, 0, 0);
      GoodPairLevels(b, m, 0, 0);
      PairLevelsSize(b, 0, 0);
      if !blocked {
        GoodActivateBest(b1, m, BuyStops);
        GoodActivateBest(ActivateBest(b1, BuyStops), m, SellStops);
        GoodCrossLoop(ActivateBest(ActivateBest(b1, BuyStops), SellStops), m);
      }
    }
  }

  lemma {:induction false} GoodMatch(b: Book, m: Mode)
    requires Good(b, m)
    ensures Good(Match(b), m)
    decreases b.Stops()
  {
    GoodCrossLoop(b, m);
    var (b1, blocked) := CrossLoop(b);
    if !blocked && Active(b1) {
      GoodActivateAll(b1, m);
      GoodMatch(ActivateAll(b1), m);
    }
  }

  lemma GoodSettle(b: Book, matching: bool)
    requires Good(b, ModeOf(matching))
    ensures Good(Settle(b, matching), ModeOf(matching))
  {
    GoodMatch(b, ModeOf(matching));
  }
}
