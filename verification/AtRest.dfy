/** Books that an operation leaves with no stop order triggered, from one operation to the next. */
module AtRest {
  import opened Orders
  import opened PriorityList
  import opened BookSpec
  import opened Invariants
  import opened StopOrders
  import opened Runs
  import Duplicates

  // Without asks the market price is ORDER_INT_MAX, which a buy stop above it would not be triggered by.
  ghost predicate Priced(s: seq<Order>) { forall i :: 0 <= i < |s| ==> s[i].stopPrice <= ORDER_INT_MAX }

  predicate BelowMax(o: Order) {
    (o.typ == Stop || o.typ == StopLimit) && o.side == Buy ==> o.stopPrice <= ORDER_INT_MAX
  }

  /** Settled, and nothing left to do. */
  ghost predicate Rested(b: Book) {
    Good(b, Quoted) && Priced(b.buyStops) && b == b.Reset() && !Triggered(b, BuyStops) && !Triggered(b, SellStops)
  }

  // In front of settling: the stops of one side are calm, and no trade price is remembered for the other.
  ghost predicate Restful(b: Book, side: Side) {
    Good(b, Quoted) && Priced(b.buyStops) && Unmarked(b, side) && Calm(b, OtherStops(side))
  }

  lemma CalmIff(b: Book, k: Kind)
    requires IsStopList(k) && Priced(b.buyStops)
    ensures Calm(b, k) <==> !Triggered(b.Reset(), k)
  {
    if k == BuyStops && b.buyStops != [] { assert b.buyStops[0].stopPrice <= ORDER_INT_MAX; }
  }

  lemma RestedIsRestful(b: Book, side: Side)
    requires Rested(b)
    ensures Restful(b, side)
  {
    hide Good;
    CalmIff(b, OtherStops(side));
  }

  /** At rest every buy stop lies above the best ask and every sell stop below the best bid. */
  lemma RestedMeansAll(b: Book)
    requires Rested(b)
    ensures forall i :: 0 <= i < |b.buyStops| ==> b.asks != [] && b.asks[0].price < b.buyStops[i].stopPrice
    ensures forall i :: 0 <= i < |b.sellStops| ==> b.bids != [] && b.bids[0].price > b.sellStops[i].stopPrice
    ensures b.bids != [] && b.asks != [] ==> b.bids[0].price < b.asks[0].price
  {
    CalmIff(b, BuyStops);
    CalmIff(b, SellStops);
    forall i | 0 <= i < |b.buyStops| ensures b.asks != [] && b.asks[0].price < b.buyStops[i].stopPrice {
      assert i > 0 ==> !Better(BuyStops, Key(BuyStops, b.buyStops[i]), Key(BuyStops, b.buyStops[0]));
    }
    forall i | 0 <= i < |b.sellStops| ensures b.bids != [] && b.bids[0].price > b.sellStops[i].stopPrice {
      assert i > 0 ==> !Better(SellStops, Key(SellStops, b.sellStops[i]), Key(SellStops, b.sellStops[0]));
    }
  }

  // ---------- no operation but an addition brings in a stop price

  lemma {:induction false} ActivateAllPriced(b: Book)
    requires Good(b, Quoted) && Priced(b.buyStops)
    ensures Priced(ActivateAll(b).buyStops)
    decreases b.Stops()
  {
    hide Good, Priced, ActivateBest, Triggered;
    if Active(b) {
      var c := ActivateBest(b, BuyStops);
      ListsOf(b, BuyStops);
      ActivateBestPriced(b, BuyStops);
      GoodActivateBest(b, Quoted, BuyStops);
      ListsOf(c, SellStops);
      ActivateBestPriced(c, SellStops);
      GoodActivateBest(c, Quoted, SellStops);
      ActivateAllPriced(ActivatePass(b));
    }
  }

  lemma ActivateBestPriced(b: Book, k: Kind)
    requires IsStopList(k) && ListOk(k, b.Get(k)) && Priced(b.buyStops)
    ensures Priced(ActivateBest(b, k).buyStops)
  {
    hide ActivateRun, Triggered, RunLength;
    if Triggered(b, k) {
      ActivatesTheLevel(b, k);
      var r := ActivateBest(b, k);
      assert r.Get(BuyStops) == if k == BuyStops then b.buyStops[RunLength(k, b.buyStops)..] else b.buyStops;
    }
  }

  // ---------- settling

  lemma SettleRests(b: Book, side: Side)
    requires Restful(b, side)
    ensures Rested(Settle(b, true))
  {
    hide Good, Triggered, Priced, Match, Calm, Unmarked;
    NoneLeftTriggered(b, side);
    GoodSettle(b, true);
    MatchIsActivation(b);
    ActivateAllPriced(b);
  }

  // An order of the given side is taken out, added or reported.
  lemma ReportRestful(b: Book, side: Side, e: Event)
    requires Restful(b, side)
    ensures Restful(b.Say(e), side)
  {
    GoodSay(b, Quoted, e);
  }

  lemma LinkRestful(b: Book, o: Order, side: Side)
    requires Restful(b, side) && KindOf(o) != OtherStops(side)
    requires Resting(KindOf(o), o) && !o.IsAON() && BelowMax(o) && (o.typ == Limit ==> NoMatch(b, o))
    ensures Restful(Link(b, o), side)
  {
    hide Good, NoMatch, Calm;
    GoodLink(b, Quoted, o);
    var k := KindOf(o);
    InsertNoWorse(k, b.Get(k), o);
    InsertPriced(k, b.buyStops, o);
    StaysCalm(b, Link(b, o), side);
  }

  lemma {:induction false} InsertPriced(k: Kind, s: seq<Order>, o: Order)
    requires Priced(s)
    ensures o.stopPrice <= ORDER_INT_MAX ==> Priced(Insert(k, s, o))
  {
    if s != [] { InsertPriced(k, s[1..], o); }
  }

  lemma MatchRestful(b: Book, o: Order)
    requires Restful(b, o.side) && o.leaves > 0 && !o.IsAON()
    ensures Restful(MatchOrder(b, o).0, o.side)
  {
    hide Good, Calm, Unmarked, MatchOrder, Priced;
    GoodMatchOrder(b, Quoted, o);
    MatchUnmarked(b, o);
    MatchKeepsOwn(b, o);
    SameIsNoWorse(b, MatchOrder(b, o).0, o.side);
    assert MatchOrder(b, o).0.Get(BuyStops) == b.Get(BuyStops);
  }

  lemma MarketRestful(b: Book, o: Order)
    requires Restful(b, o.side) && o.leaves > 0 && !o.IsAON()
    ensures Restful(MatchMarket(b, o).0, o.side)
  {
    hide Good, Calm, Unmarked, MatchMarket, Priced;
    GoodMatchMarket(b, Quoted, o);
    MarketKeepsOwn(b, o);
    SameIsNoWorse(b, MatchMarket(b, o).0, o.side);
    assert MatchMarket(b, o).0.Get(BuyStops) == b.Get(BuyStops);
  }

  lemma SameIsNoWorse(b: Book, c: Book, side: Side)
    requires Calm(b, OtherStops(side)) && c.Get(Own(side)) == b.Get(Own(side))
    requires c.Get(OtherStops(side)) == b.Get(OtherStops(side))
    ensures Calm(c, OtherStops(side))
  {
    StaysCalm(b, c, side);
  }

  // ---------- an order is reduced or deleted

  // The stops of which side an order's going may trigger.
  function Freed(k: Kind): Side { if k == Asks then Buy else Sell }

  /** The best level that the stops of one side look at is not in the list the order is taken from. */
  lemma PutRestful(b: Book, k: Kind, i: nat, o: Order)
    requires Rested(b) && i < |b.Get(k)| && o == b.Get(k)[i].(leaves := o.leaves, executed := o.executed)
    ensures Restful(b.Set(k, Put(b.Get(k), i, o)), Freed(k))
    ensures IsStopList(k) ==> forall side :: Restful(b.Set(k, Put(b.Get(k), i, o)), side)
  {
    var c := b.Set(k, Put(b.Get(k), i, o));
    GoodPut(b, Quoted, k, i, o);
    GoodPut(b, Quoted, k, i, o.(leaves := 0));
    ListOkGet(b, k);
    BestAfterPut(k, b.Get(k), i, o);
    PutPriced(b, k, i, o);
    CalmIff(b, BuyStops);
    CalmIff(b, SellStops);
    PutCalm(b, k, i, o);
  }

  lemma PutPriced(b: Book, k: Kind, i: nat, o: Order)
    requires Priced(b.buyStops) && i < |b.Get(k)| && o == b.Get(k)[i].(leaves := o.leaves, executed := o.executed)
    ensures Priced(b.Set(k, Put(b.Get(k), i, o)).buyStops)
  {
  }

  lemma PutCalm(b: Book, k: Kind, i: nat, o: Order)
    requires i < |b.Get(k)| && o == b.Get(k)[i].(leaves := o.leaves, executed := o.executed)
    requires Calm(b, BuyStops) && Calm(b, SellStops) && ListOk(k, b.Get(k))
    ensures var c := b.Set(k, Put(b.Get(k), i, o));
            Calm(c, OtherStops(Freed(k))) && (IsStopList(k) ==> Calm(c, BuyStops) && Calm(c, SellStops))
  {
    BestAfterPut(k, b.Get(k), i, o);
  }

  /** Cancelling an order leaves no stop order triggered, whatever it sets off. */
  lemma DeleteRests(b: Book, k: Kind, i: nat)
    requires Rested(b) && i < |b.Get(k)|
    ensures Rested(DeleteOrder(b, k, i, true))
  {
    hide Rested, Restful, Settle;
    PutRestful(b, k, i, b.Get(k)[i].(leaves := 0));
    ReportRestful(Unlink(b, k, i), Freed(k), Deleted(b.Get(k)[i].id));
    SettleRests(Delete(b, k, i), Freed(k));
  }

  /** Nor does reducing one. */
  lemma ReduceRests(b: Book, k: Kind, i: nat, quantity: nat)
    requires Rested(b) && i < |b.Get(k)|
    ensures Rested(ReduceOrder(b, k, i, quantity, true))
  {
    hide Rested, Restful, Settle;
    var o := b.Get(k)[i];
    var q := Min(quantity, o.leaves);
    var c := b.Set(k, Put(b.Get(k), i, o.(leaves := o.leaves - q)));
    PutRestful(b, k, i, o.(leaves := o.leaves - q));
    ReportRestful(c, Freed(k), Deleted(o.id));
    SettleRests(Reduce(b, k, i, q), Freed(k));
  }

  // ---------- an order is added

  // Matching only takes orders away.
  lemma HitListed(b: Book, k: Kind, price: nat, q: nat)
    requires b.Get(k) != [] && q <= b.Get(k)[0].leaves
    ensures forall id :: Lists(Hit(b, k, 0, price, q), id) ==> Lists(b, id)
  {
    hide Hit, Has;
    var o := b.Get(k)[0];
    var p := o.(executed := o.executed + q, leaves := o.leaves - q);
    HitLists(b, k, 0, price, q);
    PutHas(b.Get(k), p);
    var c := Hit(b, k, 0, price, q);
    forall id | Lists(c, id) ensures Lists(b, id) {
      assert c.bids == c.Get(Bids) && c.asks == c.Get(Asks) && c.buyStops == c.Get(BuyStops);
      assert Has(b.Get(k), id) ==> Lists(b, id);
    }
  }

  lemma PutHas(s: seq<Order>, o: Order)
    requires s != [] && o.id == s[0].id
    ensures forall id :: Has(Put(s, 0, o), id) ==> Has(s, id)
  {
    var t := Put(s, 0, o);
    forall id | Has(t, id) ensures Has(s, id) {
      var i :| 0 <= i < |t| && t[i].id == id;
      assert s[if |t| == |s| then i else i + 1].id == id;
    }
  }

  lemma SameListed(b: Book, c: Book, id: nat)
    requires c == b.(tape := c.tape)
    ensures Lists(b, id) <==> Lists(c, id)
  {
  }

  lemma {:induction false} FillListed(b: Book, o: Order, id: nat)
    ensures Lists(Fill(b, o).0, id) ==> Lists(b, id)
    decreases |b.Get(Opposite(o.side))|
  {
    hide Hit, Lists;
    var s := b.Get(Opposite(o.side));
    if s != [] && Accepts(o.side, o.price, s[0].price) && !(s[0].IsAON() && s[0].leaves > o.leaves) {
      var q := Min(s[0].leaves, o.leaves);
      var (b', o') := HitBest(b, o);
      HitListed(b, Opposite(o.side), s[0].price, q);
      SameListed(Hit(b, Opposite(o.side), 0, s[0].price, q), b', id);
      HitShortens(b, Opposite(o.side), s[0].price, q);
      if o'.leaves > 0 { FillListed(b', o', id); }
    }
  }

  lemma {:induction false} ChainListed(b: Book, k: Kind, price: nat, volume: nat, id: nat)
    ensures Lists(ExecuteChain(b, k, price, volume), id) ==> Lists(b, id)
    decreases |b.Get(k)|
  {
    hide Hit, Lists;
    var s := b.Get(k);
    if s != [] && volume > 0 {
      var q := if s[0].IsAON() then s[0].leaves else Min(s[0].leaves, volume);
      HitListed(b, k, price, q);
      HitShortens(b, k, price, q);
      if q == s[0].leaves { ChainListed(Hit(b, k, 0, price, q), k, price, Sub64(volume, q), id); }
    }
  }

  lemma MatchListed(b: Book, o: Order, id: nat)
    ensures Lists(MatchOrder(b, o).0, id) ==> Lists(b, id)
  {
    hide Fill, ExecuteChain, Lists;
    if o.IsWhole() {
      var k := Opposite(o.side);
      var chain := Chain(k, b.Get(k), 0, o.price, o.leaves, 0);
      ChainListed(b, k, o.price, chain, id);
      var c := ExecuteChain(b, k, o.price, chain);
      SameListed(c, c.Trade(o, o.price, o.leaves), id);
    } else {
      FillListed(b, o, id);
    }
  }

  // An id that is not in use.
  predicate Fresh(b: Book, id: nat, foreign: set<nat>) { !Lists(b, id) && id !in foreign }

  lemma InsertionRests(b: Book, o: Order, foreign: set<nat>)
    requires Restful(b, o.side) && Fresh(b, o.id, foreign)
    requires Resting(KindOf(o), o) && !o.IsAON() && (o.typ == Limit ==> NoMatch(b, o))
    requires BelowMax(o)
    ensures Insertion(b, o, true, foreign).1 == OK && Rested(Insertion(b, o, true, foreign).0)
  {
    hide Rested, Restful, Settle, Link, Lists, NoMatch;
    LinkRestful(b, o, o.side);
    SettleRests(Link(b, o), o.side);
  }

  lemma DropRests(b: Book, side: Side, id: nat)
    requires Restful(b, side)
    ensures Rested(Settle(b.Say(Deleted(id)), true))
  {
    hide Rested, Restful, Settle;
    ReportRestful(b, side, Deleted(id));
    SettleRests(b.Say(Deleted(id)), side);
  }

  // A limit order is matched, and what is left of it waits or is dropped.
  lemma PlaceRests(b: Book, o: Order, foreign: set<nat>)
    requires Restful(b, o.side) && o.typ == Limit && o.leaves > 0 && !o.IsAON() && Fresh(b, o.id, foreign)
    ensures var (b', o') := MatchOrder(b, o);
            Place(b', o', true, foreign).1 == OK && Rested(Place(b', o', true, foreign).0)
  {
    hide Good, Rested, Settle, MatchOrder, Insertion, Lists, NoMatch, Calm, Unmarked, Priced;
    GoodMatchOrder(b, Quoted, o);
    MatchRestful(b, o);
    MatchListed(b, o, o.id);
    var (b', o') := MatchOrder(b, o);
    if o'.Rests() { InsertionRests(b', o', foreign); } else { DropRests(b', o.side, o'.id); }
  }

  /** Nor does adding an order with an id that is not in use, whether it is matched, waits, is dropped, or is
      itself a stop order that is triggered at once. */
  lemma AddRests(b: Book, o: Order, foreign: set<nat>)
    requires Rested(b) && o.leaves > 0 && !o.IsAON() && Fresh(b, o.id, foreign)
    requires BelowMax(o)
    ensures AddOrder(b, o, true, foreign).1 == OK && Rested(AddOrder(b, o, true, foreign).0)
  {
    hide Rested, Restful, Settle, MatchOrder, MatchMarket, Place, Insertion, Lists, NoMatch, Triggers;
    var b1 := b.Say(Added(o.id));
    RestedIsRestful(b, o.side);
    ReportRestful(b, o.side, Added(o.id));
    SameListed(b, b1, o.id);
    match o.typ {
      case Market =>
        MarketRestful(b1, o);
        DropRests(MatchMarket(b1, o).0, o.side, o.id);
      case Limit =>
        PlaceRests(b1, o, foreign);
      case Stop =>
        MarketRestful(b1, AsMarket(o));
        DropRests(MatchMarket(b1, AsMarket(o)).0, o.side, o.id);
        InsertionRests(b1, o, foreign);
      case StopLimit =>
        PlaceRests(b1, AsLimit(o), foreign);
        InsertionRests(b1, o, foreign);
    }
  }

  // ---------- an order is modified, replaced or executed

  // The order is matched against a book whose other stops are calm, or not at all.
  ghost predicate Undisturbed(b: Book, o: Order) { NoMatch(b, o) || Calm(b, OtherStops(o.side)) }

  lemma TakenOut(b: Book, k: Kind, i: nat, c: Book)
    requires Rested(b) && i < |b.Get(k)| && c == Unlink(b, k, i).(tape := c.tape) && c.tape == c.tape.Reset()
    ensures Good(c, Quoted) && Restful(c, Freed(k)) && (IsStopList(k) ==> forall side :: Restful(c, side))
    ensures forall side :: Calm(c, OtherStops(side)) ==> Restful(c, side)
  {
    hide Good, Calm, Unmarked, Priced, Rested, Unlink;
    var d := Unlink(b, k, i);
    UnlinkRestful(b, k, i);
    SameLists(d, c, Quoted);
    forall side ensures Calm(c, OtherStops(side)) <==> Calm(d, OtherStops(side)) { SameCalm(d, c, OtherStops(side)); }
    forall side ensures Unmarked(c, side) { ResetUnmarked(c, side); }
    forall side | IsStopList(k) ensures Restful(c, side) { assert Restful(d, side); }
  }

  lemma UnlinkRestful(b: Book, k: Kind, i: nat)
    requires Rested(b) && i < |b.Get(k)|
    ensures Restful(Unlink(b, k, i), Freed(k)) && (IsStopList(k) ==> forall side :: Restful(Unlink(b, k, i), side))
  {
    hide Rested, Restful;
    PutRestful(b, k, i, b.Get(k)[i].(leaves := 0));
  }

  lemma SameCalm(b: Book, c: Book, k: Kind)
    requires c == b.(tape := c.tape)
    ensures Calm(b, k) <==> Calm(c, k)
  {
  }

  lemma ResetUnmarked(b: Book, side: Side)
    requires b.tape == b.tape.Reset()
    ensures Unmarked(b, side)
  {
  }

  lemma Listed(b: Book, k: Kind, i: nat)
    requires Rested(b) && i < |b.Get(k)|
    ensures var o := b.Get(k)[i];
            KindOf(o) == k && Resting(k, o) && !o.IsAON() && BelowMax(o) && (!IsStopList(k) ==> o.tif == GTC)
  {
    RestedMeans(b);
    GoodUnlink(b, Quoted, k, i);
    assert k == BuyStops ==> b.buyStops[i].stopPrice <= ORDER_INT_MAX;
  }

  // An order that has been taken out and changed is matched, and waits again or is dropped. The stops of
  // either side may be the calm ones.
  lemma ChangedRestful(b: Book, k: Kind, i: nat, c: Book, o: Order) returns (side: Side)
    requires Rested(b) && i < |b.Get(k)| && c == Unlink(b, k, i).(tape := c.tape) && c.tape == c.tape.Reset()
    requires var e := b.Get(k)[i]; o.side == e.side && o.typ == e.typ && o.tif == e.tif && o.stopPrice == e.stopPrice
    requires o.leaves > 0 && (IsStopList(k) || Undisturbed(c, o))
    ensures var (b', o') := MatchOrder(c, o);
            Restful(b', side) && KindOf(o') != OtherStops(side) && BelowMax(o') && !o'.IsAON() &&
            (o'.leaves > 0 ==> Resting(KindOf(o'), o')) && (o'.leaves > 0 && o'.typ == Limit ==> NoMatch(b', o'))
  {
    hide Good, Rested, Restful, MatchOrder, NoMatch, Calm;
    TakenOut(b, k, i, c);
    Listed(b, k, i);
    MatchedRest(c, o);
    if Restful(c, o.side) {
      MatchRestful(c, o);
      side := o.side;
    } else {
      NotMatched(c, o);
      side := Freed(k);
    }
  }

  lemma MatchedRest(b: Book, o: Order)
    requires Good(b, Quoted) && o.leaves > 0 && !o.IsAON() && (o.typ == Limit ==> o.tif == GTC)
    ensures var (b', o') := MatchOrder(b, o); o'.leaves > 0 && o'.typ == Limit ==> NoMatch(b', o')
  {
    GoodMatchOrder(b, Quoted, o);
  }

  lemma NotMatched(b: Book, o: Order)
    requires NoMatch(b, o) && !o.IsWhole()
    ensures MatchOrder(b, o) == (b, o)
  {
    MatchStops(b, o);
  }

  // The order waits again or is dropped.
  lemma RelinkRests(b: Book, o: Order, side: Side)
    requires Restful(b, side) && KindOf(o) != OtherStops(side) && BelowMax(o) && !o.IsAON()
    requires o.leaves > 0 ==> Resting(KindOf(o), o) && (o.typ == Limit ==> NoMatch(b, o))
    ensures Rested(Settle(if o.leaves > 0 then Link(b, o) else b.Say(Deleted(o.id)), true))
  {
    hide Rested, Restful, Settle, NoMatch, Link;
    if o.leaves > 0 {
      LinkRestful(b, o, side);
      SettleRests(Link(b, o), side);
    } else {
      DropRests(b, side, o.id);
    }
  }

  // Modification to nothing, of a stop order, to a price that does not trade, or of a bid or ask that the
  // stops looking at its list can do without.
  ghost predicate ModifyOrderly(b: Book, k: Kind, i: nat, price: nat, quantity: nat, mitigate: bool)
    requires i < |b.Get(k)|
  {
    var o := Modified(b.Get(k)[i], price, quantity, mitigate);
    IsStopList(k) || o.leaves == 0 || Undisturbed(Unlink(b, k, i), o)
  }

  /** Modifying an order leaves no stop order triggered unless it trades while the stops that look at its own
      list are not kept calm by the orders left there. */
  lemma ModifyRests(b: Book, k: Kind, i: nat, price: nat, quantity: nat, mitigate: bool)
    requires Rested(b) && i < |b.Get(k)| && ModifyOrderly(b, k, i, price, quantity, mitigate)
    ensures Rested(ModifyOrder(b, k, i, price, quantity, mitigate, true))
  {
    hide Rested, Restful, Settle, MatchOrder, Link, Undisturbed;
    var c, o := Unlink(b, k, i), Modified(b.Get(k)[i], price, quantity, mitigate);
    RestedMeans(b);
    TakenOut(b, k, i, c);
    Listed(b, k, i);
    if o.leaves > 0 {
      var side := ChangedRestful(b, k, i, c, o);
      RelinkRests(MatchOrder(c, o).0, MatchOrder(c, o).1, side);
    } else {
      DropRests(c, Freed(k), o.id);
    }
  }

  lemma RestedMeans(b: Book)
    requires Rested(b)
    ensures Good(b, Quoted) && Priced(b.buyStops) && b.tape == b.tape.Reset()
  {
  }

  ghost predicate ReplaceOrderly(b: Book, k: Kind, i: nat, newId: nat, price: nat, quantity: nat, foreign: set<nat>)
    requires i < |b.Get(k)|
  {
    Fresh(Unlink(b, k, i), newId, foreign) &&
    Undisturbed(Unlink(b, k, i), Duplicates.Replacement(b.Get(k)[i], newId, price, quantity))
  }

  /** The same for a replacement whose id is not in use once the old order is gone. */
  lemma ReplaceRests(b: Book, k: Kind, i: nat, newId: nat, price: nat, quantity: nat, foreign: set<nat>)
    requires Rested(b) && (k == Bids || k == Asks) && i < |b.Get(k)| && quantity > 0
    requires ReplaceOrderly(b, k, i, newId, price, quantity, foreign)
    ensures var r := ReplaceOrder(b, k, i, newId, price, quantity, true, foreign);
            r.1 == OK && Rested(r.0)
  {
    hide Rested, Restful, Settle, MatchOrder, Link, Lists, NoMatch, Calm;
    var c := Delete(b, k, i).Say(Added(newId));
    var o := Duplicates.Replacement(b.Get(k)[i], newId, price, quantity);
    RestedMeans(b);
    SameUndisturbed(Unlink(b, k, i), c, o);
    SameListed(Unlink(b, k, i), c, newId);
    var side := ChangedRestful(b, k, i, c, o);
    var (b', o') := MatchOrder(c, o);
    MatchListed(c, o, newId);
    RelinkRests(b', o', side);
  }

  lemma SameUndisturbed(b: Book, c: Book, o: Order)
    requires c == b.(tape := c.tape)
    ensures Undisturbed(b, o) <==> Undisturbed(c, o)
  {
  }

  // The book in front of settling a modification.
  function Modifying(b: Book, k: Kind, i: nat, price: nat, quantity: nat, mitigate: bool): Book
    requires i < |b.Get(k)|
  {
    var (c, o) := AfterModify(b, k, i, price, quantity, mitigate, true);
    if o.leaves > 0 then Link(c, o) else c.Say(Deleted(o.id))
  }

  /** Otherwise the order may still be back in time: its rest, or what is left in its list, keeps those stops
      calm. If not, and nothing is to be activated, one is left triggered. */
  lemma ModifyDecides(b: Book, k: Kind, i: nat, price: nat, quantity: nat, mitigate: bool)
    requires Rested(b) && i < |b.Get(k)|
    ensures var c, side := Modifying(b, k, i, price, quantity, mitigate), b.Get(k)[i].side;
            var r := ModifyOrder(b, k, i, price, quantity, mitigate, true);
            (Calm(c, OtherStops(side)) ==> Rested(r)) &&
            (!Calm(c, OtherStops(side)) && !Triggered(c, BuyStops) && !Triggered(c, SellStops) ==>
             Triggered(r, OtherStops(side)))
  {
    hide Rested, Good, Settle, Priced, Unmarked, Calm, Triggered;
    var c, side := Modifying(b, k, i, price, quantity, mitigate), b.Get(k)[i].side;
    ModifyingGood(b, k, i, price, quantity, mitigate);
    if Calm(c, OtherStops(side)) {
      SettleRests(c, side);
    } else if !Triggered(c, BuyStops) && !Triggered(c, SellStops) {
      LeftTriggeredIff(c);
      CalmIff(c, OtherStops(side));
    }
  }

  lemma ModifyingGood(b: Book, k: Kind, i: nat, price: nat, quantity: nat, mitigate: bool)
    requires Rested(b) && i < |b.Get(k)|
    ensures var c := Modifying(b, k, i, price, quantity, mitigate);
            Good(c, Quoted) && Priced(c.buyStops) && Unmarked(c, b.Get(k)[i].side)
  {
    hide Rested, Good, MatchOrder, Priced, NoMatch, Link;
    var c, o := Unlink(b, k, i), Modified(b.Get(k)[i], price, quantity, mitigate);
    RestedMeans(b);
    TakenOut(b, k, i, c);
    Listed(b, k, i);
    GoodUnlink(b, Quoted, k, i);
    if o.leaves == 0 {
      GoodSay(c, Quoted, Deleted(o.id));
    } else {
      var (d, p) := MatchOrder(c, o);
      MatchedRest(c, o);
      GoodMatchOrder(c, Quoted, o);
      MatchUnmarked(c, o);
      MatchKeepsOwn(c, o);
      assert d.Get(BuyStops) == c.Get(BuyStops);
      GoodSay(d, Quoted, Deleted(p.id));
      if p.leaves > 0 {
        GoodLink(d, Quoted, p);
        LinkPriced(d, p);
      }
    }
  }

  lemma LinkPriced(b: Book, o: Order)
    requires Priced(b.buyStops) && BelowMax(o) && Resting(KindOf(o), o)
    ensures Priced(Link(b, o).buyStops) && Link(b, o).tape == b.tape
  {
    InsertPriced(KindOf(o), b.buyStops, o);
  }

  // The book in front of settling an execution reported from outside.
  function Executing(b: Book, k: Kind, i: nat, price: nat, quantity: nat): Book
    requires i < |b.Get(k)|
  {
    var q := Min(quantity, b.Get(k)[i].leaves);
    Reduce(Credit(b.Trade(b.Get(k)[i], price, q), k, i, q), k, i, q)
  }

  /** An execution reported from outside leaves no stop order triggered if the rest of the list keeps the stops
      calm that look at it, which a stop order's own list always does. If not, the reported price decides:
      one that does not reach the first stop price keeps it from being activated, and leaves it triggered. */
  lemma ExecuteRests(b: Book, k: Kind, i: nat, price: nat, quantity: nat)
    requires Rested(b) && i < |b.Get(k)|
    ensures var c, j := Executing(b, k, i, price, quantity), OtherStops(b.Get(k)[i].side);
            var r := ExecuteOrder(b, k, i, price, quantity, true);
            (IsStopList(k) ==> Calm(c, j)) && (Calm(c, j) ==> Rested(r)) &&
            (!Calm(c, j) && !Triggered(c, j) ==> Triggered(r, j))
  {
    hide Rested, Restful, Settle;
    var o := b.Get(k)[i];
    var c := Executing(b, k, i, price, quantity);
    ExecutingRestful(b, k, i, price, quantity);
    if Calm(c, OtherStops(o.side)) {
      SettleRests(c, o.side);
    } else if !Triggered(c, OtherStops(o.side)) {
      LeftTriggeredIff(c);
      CalmIff(c, OtherStops(o.side));
    }
  }

  lemma ExecutingRestful(b: Book, k: Kind, i: nat, price: nat, quantity: nat)
    requires Rested(b) && i < |b.Get(k)|
    ensures var c, side := Executing(b, k, i, price, quantity), b.Get(k)[i].side;
            Good(c, Quoted) && Priced(c.buyStops) && (Calm(c, OtherStops(side)) ==> Restful(c, side)) &&
            (IsStopList(k) ==> Calm(c, OtherStops(side))) && !Triggered(c, StopsOf(side))
  {
    hide Good, Calm, Priced, Rested, Triggered, Executing;
    var o := b.Get(k)[i];
    var q := Min(quantity, o.leaves);
    var p := o.(executed := o.executed + q, leaves := o.leaves - q);
    var c, d := Executing(b, k, i, price, quantity), b.Set(k, Put(b.Get(k), i, p));
    ExecutingLists(b, k, i, price, quantity);
    PutRestful(b, k, i, p);
    Listed(b, k, i);
    SameLists(d, c, Quoted);
    SameCalm(d, c, BuyStops);
    SameCalm(d, c, SellStops);
    var other := if o.side == Buy then Sell else Buy;
    assert IsStopList(k) ==> Restful(d, o.side) && Restful(d, other);
    CalmNotTriggered(c, StopsOf(o.side));
  }

  lemma ExecutingLists(b: Book, k: Kind, i: nat, price: nat, quantity: nat)
    requires Rested(b) && i < |b.Get(k)|
    ensures var o, c := b.Get(k)[i], Executing(b, k, i, price, quantity);
            var q := Min(quantity, o.leaves);
            var p := o.(executed := o.executed + q, leaves := o.leaves - q);
            c == b.Set(k, Put(b.Get(k), i, p)).(tape := c.tape) && Unmarked(c, o.side)
  {
    var o := b.Get(k)[i];
    var q := Min(quantity, o.leaves);
    var o1 := o.(executed := o.executed + q);
    assert Put(b.Get(k)[i := o1], i, o1.(leaves := o.leaves - q)) == Put(b.Get(k), i, o1.(leaves := o.leaves - q));
  }

  // ---------- runs

  // What an operation must be like to leave nothing undone, in terms of the book in front of it.
  ghost predicate Orderly(b: Book, op: Op) {
    match op
    case Add(o, foreign) => !o.IsAON() && BelowMax(o) && Fresh(b, o.id, foreign)
    case Execute(k, i, p, q) => i < |b.Get(k)| ==> Calm(Executing(b, k, i, p, q), OtherStops(b.Get(k)[i].side))
    case Modify(k, i, p, q, mitigate) => i < |b.Get(k)| ==> ModifyOrderly(b, k, i, p, q, mitigate)
    case Replace(k, i, id, p, q, foreign) => i < |b.Get(k)| ==> ReplaceOrderly(b, k, i, id, p, q, foreign)
    case _ => true
  }

  lemma StepRests(b: Book, op: Op)
    requires Rested(b) && Orderly(b, op)
    ensures Rested(Step(b, op, true))
  {
    hide Rested, AddOrder, ReduceOrder, DeleteOrder, ExecuteOrder, ModifyOrder, ReplaceOrder, Fresh, ModifyOrderly,
         ReplaceOrderly, Executing, Calm, Match;
    match op {
      case Add(o, foreign) => if o.Validate() == OK { AddRests(b, o, foreign); }
      case Cut(k, i, q) => if i < |b.Get(k)| { ReduceRests(b, k, i, q); }
      case Cancel(k, i) => if i < |b.Get(k)| { DeleteRests(b, k, i); }
      case Execute(k, i, p, q) => if i < |b.Get(k)| { ExecuteRests(b, k, i, p, q); }
      case Modify(k, i, p, q, mitigate) => if i < |b.Get(k)| { ModifyRests(b, k, i, p, q, mitigate); }
      case Replace(k, i, id, p, q, foreign) =>
        if q > 0 && (k == Bids || k == Asks) && i < |b.Get(k)| { ReplaceRests(b, k, i, id, p, q, foreign); }
      case Uncross => MatchRests(b);
    }
  }

  lemma MatchRests(b: Book)
    requires Rested(b)
    ensures Match(b) == b
  {
    hide Good;
    MatchIsActivation(b);
  }

  /** Every run of additions with fresh ids, reductions, cancellations, matching, and other operations that are
      orderly: no stop order is ever left triggered. */
  lemma {:induction false} RunRests(ops: seq<Op>)
    requires forall n :: 0 <= n < |ops| ==> Orderly(Run(ops[..n], true), ops[n])
    ensures Rested(Run(ops, true))
  {
    hide Step, Orderly;
    if ops == [] {
      EmptyGood(Quoted);
    } else {
      var n := |ops| - 1;
      var init := ops[..n];
      forall m | 0 <= m < n ensures Orderly(Run(init[..m], true), init[m]) { assert init[..m] == ops[..m]; }
      RunRests(init);
      StepRests(Run(init, true), ops[n]);
    }
  }
}
