/** What each public operation does to the book, said from the fields of the orders: the lists and the log in
    front of settling, and with nothing to settle those it ends with. */
module Operations {
  import opened Orders
  import opened PriorityList
  import opened BookSpec
  import opened Invariants
  import opened Fills
  import opened Offers
  import opened StopOrders
  import opened Runs

  // ---------- settling

  // The matching prices are reset, and nothing else changes.
  predicate Quiet(r: Book, c: Book) { r == c.(tape := c.tape.(matchBid := 0, matchAsk := ORDER_INT_MAX)) }

  /** The operation ends by settling the book: with automatic matching stop orders are activated, and without
      stop orders or without matching it only resets the matching prices. */
  ghost predicate Concluded(r: Book, c: Book, matching: bool) {
    Good(c, ModeOf(matching)) && r == Settle(c, matching) && (matching ==> r == ActivateAll(c).Reset()) &&
    (!matching || c.buyStops == c.sellStops == [] ==> Quiet(r, c))
  }

  lemma Concludes(c: Book, matching: bool)
    requires Good(c, ModeOf(matching))
    ensures Concluded(Settle(c, matching), c, matching)
  {
    hide Good, CrossLoop, ActivateAll;
    if matching {
      MatchIsActivation(c);
      if c.buyStops == c.sellStops == [] { assert ActivateAll(c) == c by { NothingToActivate(c); } }
    }
  }

  lemma NothingToActivate(c: Book)
    requires c.buyStops == c.sellStops == []
    ensures ActivateAll(c) == c
  {
  }

  // A report is all that is new.
  predicate Says(b: Book, e: Event, c: Book) { c == b.(tape := b.tape.(log := b.tape.log + [e])) }

  // An order of the book, in whatever list, has the id.
  ghost predicate InUse(b: Book, id: nat) { exists k: Kind, i :: 0 <= i < |b.Get(k)| && b.Get(k)[i].id == id }

  lemma InUseIff(b: Book, id: nat)
    ensures InUse(b, id) <==> Lists(b, id)
  {
    if InUse(b, id) {
      var k: Kind, i :| 0 <= i < |b.Get(k)| && b.Get(k)[i].id == id;
      assert Has(b.Get(k), id);
    }
    if Lists(b, id) {
      var k := if Has(b.bids, id) then Bids else if Has(b.asks, id) then Asks
               else if Has(b.buyStops, id) then BuyStops else SellStops;
      var i :| 0 <= i < |b.Get(k)| && b.Get(k)[i].id == id;
    }
  }

  /** What becomes of an order once it has been matched: it waits, or it is deleted, or its id is in use, which
      leaves the book unsettled. */
  ghost predicate Ends(b: Book, o: Order, waits: bool, matching: bool, foreign: set<nat>, c: Book, r: Book,
                       code: ErrorCode) {
    if !waits then Says(b, Deleted(o.id), c) && Concluded(r, c, matching) && code == OK
    else if InUse(b, o.id) || o.id in foreign then Says(b, Deleted(o.id), c) && r == c && code == OrderDuplicate
    else Listed(b, ListOf(o), o, c) && Concluded(r, c, matching) && code == OK
  }

  function ListOf(o: Order): Kind {
    match (o.typ, o.side)
    case (Limit, Buy) => Bids
    case (Limit, Sell) => Asks
    case (_, Buy) => BuyStops
    case (_, Sell) => SellStops
  }

  lemma InsertionEnds(b: Book, o: Order, matching: bool, foreign: set<nat>) returns (c: Book)
    requires Good(b, ModeOf(matching)) && Resting(KindOf(o), o)
    requires matching ==> !o.IsAON() && (o.typ == Limit ==> NoMatch(b, o))
    ensures var (r, code) := Insertion(b, o, matching, foreign); Ends(b, o, true, matching, foreign, c, r, code)
  {
    hide Good, Settle, Link, Lists, NoMatch, Concluded, Listed, InUse;
    InUseIff(b, o.id);
    if Lists(b, o.id) || o.id in foreign {
      c := b.Say(Deleted(o.id));
    } else {
      c := Link(b, o);
      GoodLink(b, ModeOf(matching), o);
      InOrder(b, ModeOf(matching), KindOf(o));
      LinkLists(b, o);
      Concludes(c, matching);
    }
  }

  lemma InOrder(b: Book, m: Mode, k: Kind)
    requires Good(b, m)
    ensures Sorted(k, b.Get(k)) && HaveLeaves(b.Get(k))
  {
  }

  lemma DropEnds(b: Book, o: Order, matching: bool, foreign: set<nat>) returns (c: Book)
    requires Good(b, ModeOf(matching))
    ensures Ends(b, o, false, matching, foreign, c, Settle(b.Say(Deleted(o.id)), matching), OK)
  {
    hide Good, Settle, Concluded;
    c := b.Say(Deleted(o.id));
    GoodSay(b, ModeOf(matching), Deleted(o.id));
    Concludes(c, matching);
  }

  // ---------- adding orders

  function Reported(b: Book, e: Event): Book { b.(tape := b.tape.(log := b.tape.log + [e])) }

  // What an order takes when it is added, which is nothing without automatic matching.
  function AddedVolume(b: Book, o: Order, matching: bool): (v: nat)
    ensures v <= o.leaves
  {
    if matching then TakeVolume(o.side, o.price, Whole(o.tif), o.leaves, Facing(b, o.side)) else 0
  }

  lemma FacingHasLeaves(b: Book, m: Mode, side: Side)
    requires Good(b, m)
    ensures HaveLeaves(Facing(b, side))
  {
  }

  // An order is matched, and what is left of it waits unless it is immediate.
  lemma PlaceEnds(b: Book, o: Order, matching: bool, foreign: set<nat>) returns (c: Book, d: Book)
    requires Good(b, ModeOf(matching)) && o.typ == Limit && o.leaves > 0 && (matching ==> !o.IsAON())
    ensures var v := AddedVolume(b, o, matching);
            var p := o.(executed := o.executed + v, leaves := o.leaves - v);
            var (b2, o2) := if matching then MatchOrder(b, o) else (b, o);
            var (r, code) := Place(b2, o2, matching, foreign);
            Taken(b, c, o, o.price, Whole(o.tif), v) &&
            Ends(c, p, p.leaves > 0 && o.tif != IOC && o.tif != FOK, matching, foreign, d, r, code)
  {
    hide Good, Settle, NoMatch, MatchOrder, Insertion, Ends, Taken, TakeVolume;
    FacingHasLeaves(b, ModeOf(matching), o.side);
    var (b2, o2) := if matching then MatchOrder(b, o) else (b, o);
    c := b2;
    if matching {
      OrderTakes(b, o);
      GoodMatchOrder(b, Quoted, o);
    } else {
      NothingTaken(b, o, o.price, Whole(o.tif));
    }
    if o2.Rests() {
      d := InsertionEnds(b2, o2, matching, foreign);
    } else {
      d := DropEnds(b2, o2, matching, foreign);
    }
  }

  /** A limit order takes its volume at its limit; what is left waits at that price behind all that are at least
      as good, or is deleted if it is immediate. */
  lemma AddLimitDoes(b: Book, o: Order, matching: bool, foreign: set<nat>) returns (c: Book, d: Book)
    requires Good(b, ModeOf(matching)) && o.typ == Limit && o.leaves > 0 && (matching ==> !o.IsAON())
    ensures var v := AddedVolume(b, o, matching);
            var p := o.(executed := o.executed + v, leaves := o.leaves - v);
            var (r, code) := AddOrder(b, o, matching, foreign);
            Taken(Reported(b, Added(o.id)), c, o, o.price, Whole(o.tif), v) &&
            Ends(c, p, p.leaves > 0 && o.tif != IOC && o.tif != FOK, matching, foreign, d, r, code)
  {
    hide Good, Settle, MatchOrder, Place, Ends, Taken, TakeVolume;
    var b1 := b.Say(Added(o.id));
    GoodSay(b, ModeOf(matching), Added(o.id));
    c, d := PlaceEnds(b1, o, matching, foreign);
  }

  /** A market order takes its volume within its slippage, and is deleted. */
  lemma AddMarketDoes(b: Book, o: Order, matching: bool, foreign: set<nat>) returns (c: Book, d: Book)
    requires Good(b, ModeOf(matching)) && o.typ == Market && o.leaves > 0 && (matching ==> !o.IsAON())
    requires o.slippage <= ORDER_INT_MAX
    ensures var s := Facing(b, o.side);
            var v := if matching then MarketVolume(o, Whole(o.tif), s) else 0;
            var (r, code) := AddOrder(b, o, matching, foreign);
            Taken(Reported(b, Added(o.id)), c, o, MarketPrice(o, s), Whole(o.tif), v) &&
            Ends(c, o, false, matching, foreign, d, r, code)
  {
    hide Good, Settle, MatchMarket, Ends, Taken, TakeVolume, LimitOf;
    var b1 := b.Say(Added(o.id));
    GoodSay(b, ModeOf(matching), Added(o.id));
    FacingHasLeaves(b1, ModeOf(matching), o.side);
    c := if matching then MatchMarket(b1, o).0 else b1;
    if matching {
      MarketTakes(b1, o);
      GoodMatchMarket(b1, Quoted, o);
    } else {
      NothingTaken(b1, o, MarketPrice(o, Facing(b, o.side)), Whole(o.tif));
    }
    d := DropEnds(c, o, matching, foreign);
  }

  // The market has reached the stop price: the best level and the remembered trade price.
  predicate IsReached(b: Book, side: Side, stopPrice: nat) {
    if side == Buy then
      stopPrice <= b.tape.matchAsk && stopPrice <= if b.asks == [] then ORDER_INT_MAX else b.asks[0].price
    else stopPrice >= b.tape.matchBid && stopPrice >= if b.bids == [] then 0 else b.bids[0].price
  }

  /** A stop order trades at once as a market order if the market has reached its stop price, and otherwise
      waits. */
  lemma AddStopDoes(b: Book, o: Order, matching: bool, foreign: set<nat>) returns (c: Book, d: Book)
    requires Good(b, ModeOf(matching)) && o.typ == Stop && o.leaves > 0 && (matching ==> !o.IsAON())
    requires o.slippage <= ORDER_INT_MAX
    ensures var s := Facing(b, o.side);
            var now := matching && IsReached(b, o.side, o.stopPrice);
            var v := if now then MarketVolume(o, o.tif == FOK, s) else 0;
            var (r, code) := AddOrder(b, o, matching, foreign);
            Taken(Reported(b, Added(o.id)), c, o, MarketPrice(o, s), o.tif == FOK, v) &&
            Ends(c, o, !now, matching, foreign, d, r, code)
  {
    hide Good, Settle, MatchMarket, Ends, Taken, TakeVolume, LimitOf, Insertion;
    var s, b1 := Facing(b, o.side), b.Say(Added(o.id));
    GoodSay(b, ModeOf(matching), Added(o.id));
    FacingHasLeaves(b1, ModeOf(matching), o.side);
    if matching && IsReached(b, o.side, o.stopPrice) {
      var p := AsMarket(o);
      c := MatchMarket(b1, p).0;
      MarketTakes(b1, p);
      GoodMatchMarket(b1, Quoted, p);
      if s == [] {
        EmptyMarket(b1, p);
        NothingTaken(b1, o, MarketPrice(o, s), o.tif == FOK);
      } else {
        SameTaker(b1, c, p, o, MarketPrice(o, s), o.tif == FOK, MarketVolume(o, o.tif == FOK, s));
      }
      d := DropEnds(c, o, matching, foreign);
    } else {
      c := b1;
      NothingTaken(b1, o, MarketPrice(o, s), o.tif == FOK);
      d := InsertionEnds(b1, o, matching, foreign);
    }
  }

  /** A stop-limit order trades at once as a limit order at its price, and what is left of it waits as one, if the
      market has reached its stop price; otherwise it waits as it is. */
  lemma AddStopLimitDoes(b: Book, o: Order, matching: bool, foreign: set<nat>) returns (c: Book, d: Book)
    requires Good(b, ModeOf(matching)) && o.typ == StopLimit && o.leaves > 0 && (matching ==> !o.IsAON())
    ensures var now := matching && IsReached(b, o.side, o.stopPrice);
            var v := if now then AddedVolume(b, o, matching) else 0;
            var p := if now then o.(typ := Limit, stopPrice := 0, executed := o.executed + v, leaves := o.leaves - v)
                     else o;
            var (r, code) := AddOrder(b, o, matching, foreign);
            Taken(Reported(b, Added(o.id)), c, o, o.price, Whole(o.tif), v) &&
            Ends(c, p, !now || (p.leaves > 0 && o.tif != IOC && o.tif != FOK), matching, foreign, d, r, code)
  {
    hide Good, Settle, MatchOrder, Ends, Taken, TakeVolume, Insertion, Place;
    var b1 := b.Say(Added(o.id));
    GoodSay(b, ModeOf(matching), Added(o.id));
    if matching && IsReached(b, o.side, o.stopPrice) {
      c, d := PlaceEnds(b1, AsLimit(o), matching, foreign);
      SameTaker(b1, c, AsLimit(o), o, o.price, Whole(o.tif), AddedVolume(b, o, matching));
    } else {
      c := b1;
      NothingTaken(b1, o, o.price, Whole(o.tif));
      d := InsertionEnds(b1, o, matching, foreign);
    }
  }

  /** So on a book without stop orders a market order leaves on the other side what it has not taken, and reports
      that it was added, what it has traded, and that it was deleted. */
  lemma AddMarketAlone(b: Book, o: Order, foreign: set<nat>)
    requires Good(b, Quoted) && o.typ == Market && o.leaves > 0 && !o.IsAON() && o.slippage <= ORDER_INT_MAX
    requires b.buyStops == b.sellStops == []
    ensures var s := Facing(b, o.side);
            var v := MarketVolume(o, o.tif == FOK, s);
            var (r, code) := AddOrder(b, o, true, foreign);
            code == OK && Facing(r, o.side) == Take(s, v) && r.buyStops == r.sellStops == [] &&
            (if o.side == Buy then r.bids == b.bids else r.asks == b.asks) &&
            r.tape.log == b.tape.log + [Added(o.id)] + TakeReports(o, MarketPrice(o, s), o.tif == FOK, s, v) +
                          [Deleted(o.id)] &&
            r.tape.matchBid == 0 && r.tape.matchAsk == ORDER_INT_MAX
  {
    hide AddOrder, TakeVolume, MarketVolume, TakeReports, Good, Settle;
    var c, d := AddMarketDoes(b, o, true, foreign);
  }

  // ---------- changing orders

  // The order at a position has gone.
  predicate Without(b: Book, k: Kind, i: nat, c: Book) {
    i < |b.Get(k)| && c == b.Set(k, c.Get(k)) && c.Get(k) == b.Get(k)[..i] + b.Get(k)[i + 1..]
  }

  // The order at a position has changed, or gone if nothing is left of it, which is then reported.
  predicate Became(b: Book, k: Kind, i: nat, o: Order, c: Book) {
    i < |b.Get(k)| &&
    if o.leaves > 0 then c == b.Set(k, b.Get(k)[i := o])
    else c == b.Set(k, b.Get(k)[..i] + b.Get(k)[i + 1..]).(tape := b.tape.(log := b.tape.log + [Deleted(o.id)]))
  }

  /** Reducing an order takes the given quantity, or all there is, from what is left to fill. */
  lemma ReduceDoes(b: Book, k: Kind, i: nat, quantity: nat, matching: bool) returns (c: Book)
    requires Good(b, ModeOf(matching)) && i < |b.Get(k)|
    ensures var o := b.Get(k)[i];
            Became(b, k, i, o.(leaves := if quantity < o.leaves then o.leaves - quantity else 0), c) &&
            Concluded(ReduceOrder(b, k, i, quantity, matching), c, matching)
  {
    hide Good, Settle, Concluded;
    var q := Min(quantity, b.Get(k)[i].leaves);
    c := Reduce(b, k, i, q);
    GoodReduce(b, ModeOf(matching), k, i, q);
    Concludes(c, matching);
  }

  /** Deleting an order takes it out of its list and reports that. */
  lemma DeleteDoes(b: Book, k: Kind, i: nat, matching: bool) returns (c: Book)
    requires Good(b, ModeOf(matching)) && i < |b.Get(k)|
    ensures Became(b, k, i, b.Get(k)[i].(leaves := 0), c) && Concluded(DeleteOrder(b, k, i, matching), c, matching)
  {
    hide Good, Settle, Concluded;
    c := Delete(b, k, i);
    GoodUnlink(b, ModeOf(matching), k, i);
    GoodSay(Unlink(b, k, i), ModeOf(matching), Deleted(b.Get(k)[i].id));
    Concludes(c, matching);
  }

  // The prices of a side after a trade.
  predicate Priced(t: Tape, o: Order, price: nat, u: Tape) {
    if o.side == Buy then u == t.(lastBid := price, matchBid := price, log := u.log)
    else u == t.(lastAsk := price, matchAsk := price, log := u.log)
  }

  /** An execution reported from outside moves the given quantity, or all there is, from what is left to fill to
      what has been executed, at the given price. */
  lemma ExecuteDoes(b: Book, k: Kind, i: nat, price: nat, quantity: nat, matching: bool) returns (t: Book, c: Book)
    requires Good(b, ModeOf(matching)) && i < |b.Get(k)|
    ensures var o := b.Get(k)[i];
            var q := if quantity < o.leaves then quantity else o.leaves;
            t == b.(tape := t.tape) && t.tape.log == b.tape.log + [Executed(o.id, o.side, o.price, price, q)] &&
            Priced(b.tape, o, price, t.tape) &&
            Became(t, k, i, o.(executed := o.executed + q, leaves := o.leaves - q), c) &&
            Concluded(ExecuteOrder(b, k, i, price, quantity, matching), c, matching)
  {
    hide Good, Settle, Concluded, Reduce, Became;
    var o := b.Get(k)[i];
    var q := Min(quantity, o.leaves);
    t := b.Trade(o, price, q);
    c := Reduce(Credit(t, k, i, q), k, i, q);
    CreditedBecomes(t, k, i, q);
    GoodHit(b, ModeOf(matching), k, i, price, q);
    SameLists(Hit(b, k, i, price, q), c, ModeOf(matching)) by { HitIsReset(b, k, i, price, q); }
    Concludes(c, matching);
  }

  lemma HitIsReset(b: Book, k: Kind, i: nat, price: nat, q: nat)
    requires i < |b.Get(k)| && q <= b.Get(k)[i].leaves
    ensures var c := Reduce(Credit(b.Trade(b.Get(k)[i], price, q), k, i, q), k, i, q);
            c == Hit(b, k, i, price, q).(tape := c.tape)
  {
  }

  lemma CreditedBecomes(b: Book, k: Kind, i: nat, q: nat)
    requires i < |b.Get(k)| && q <= b.Get(k)[i].leaves
    ensures var o := b.Get(k)[i];
            Became(b, k, i, o.(executed := o.executed + q, leaves := o.leaves - q), Reduce(Credit(b, k, i, q), k, i, q))
  {
    var s, o := b.Get(k), b.Get(k)[i];
    var o1 := o.(executed := o.executed + q);
    var o2 := o1.(leaves := o.leaves - q);
    assert Put(s[i := o1], i, o2) == Put(s, i, o2);
    assert b.Set(k, s[i := o1]).Set(k, Put(s, i, o2)) == b.Set(k, Put(s, i, o2));
  }

  // What a modified order is to be filled with.
  function Wanted(o: Order, quantity: nat, mitigate: bool): nat {
    if !mitigate then quantity else if quantity > o.executed then quantity - o.executed else 0
  }

  /** Modification, plain or mitigated, takes the order out of its list, gives it the new price and quantity, and
      matches it at that price; what is left waits there behind all that are at least as good. */
  lemma ModifyDoes(b: Book, k: Kind, i: nat, price: nat, quantity: nat, mitigate: bool, matching: bool)
    returns (a: Book, c: Book, d: Book)
    requires Good(b, ModeOf(matching)) && i < |b.Get(k)|
    ensures var o := b.Get(k)[i];
            var n := Wanted(o, quantity, mitigate);
            var v := if matching && n > 0 then TakeVolume(o.side, price, Whole(o.tif), n, Facing(b, o.side)) else 0;
            var p := o.(price := price, quantity := quantity, executed := o.executed + v, leaves := n - v);
            Without(b, k, i, a) && Taken(a, c, o, price, Whole(o.tif), v) &&
            (if p.leaves > 0 then Listed(c, k, p, d) else Says(c, Deleted(o.id), d)) &&
            Concluded(ModifyOrder(b, k, i, price, quantity, mitigate, matching), d, matching)
  {
    hide Good, Settle, Concluded, MatchOrder, Taken, TakeVolume, Listed, Link;
    var o, m := b.Get(k)[i], ModeOf(matching);
    a := Unlink(b, k, i);
    GoodUnlink(b, m, k, i);
    var q := Modified(o, price, quantity, mitigate);
    var p: Order;
    assert Facing(a, o.side) == Facing(b, o.side);
    FacingHasLeaves(a, m, o.side);
    if q.leaves > 0 && matching {
      OrderTakes(a, q);
      GoodMatchOrder(a, m, q);
      c, p := MatchOrder(a, q).0, MatchOrder(a, q).1;
      SameTaker(a, c, q, o, price, Whole(o.tif),
                TakeVolume(o.side, price, Whole(o.tif), q.leaves, Facing(b, o.side)));
    } else {
      c, p := a, q;
      NothingTaken(a, o, price, Whole(o.tif));
    }
    if p.leaves > 0 {
      d := Link(c, p);
      InOrder(c, m, k);
      LinkLists(c, p);
      GoodLink(c, m, p);
    } else {
      d := c.Say(Deleted(p.id));
      GoodSay(c, m, Deleted(p.id));
    }
    Concludes(d, matching);
  }

  /** Replacement deletes the order and adds one with the new id, price and quantity and nothing executed, which
      takes its volume at that price and waits there with what is left, unless the id is in use. */
  lemma ReplaceDoes(b: Book, k: Kind, i: nat, newId: nat, price: nat, quantity: nat, matching: bool,
                    foreign: set<nat>) returns (a: Book, c: Book, d: Book)
    requires Good(b, ModeOf(matching)) && (k == Bids || k == Asks) && i < |b.Get(k)| && quantity > 0
    ensures var o := b.Get(k)[i];
            var v := if matching then TakeVolume(o.side, price, Whole(o.tif), quantity, Facing(b, o.side)) else 0;
            var p := o.(id := newId, price := price, quantity := quantity, executed := v, leaves := quantity - v);
            var (r, code) := ReplaceOrder(b, k, i, newId, price, quantity, matching, foreign);
            Without(b, k, i, a) &&
            Taken(Reported(Reported(a, Deleted(o.id)), Added(newId)), c, p, price, Whole(o.tif), v) &&
            Ends(c, p, p.leaves > 0, matching, foreign, d, r, code)
  {
    hide Good, Settle, MatchOrder, Taken, TakeVolume, Ends, Insertion;
    var o, m := b.Get(k)[i], ModeOf(matching);
    a := Unlink(b, k, i);
    GoodUnlink(b, m, k, i);
    GoodSay(a, m, Deleted(o.id));
    GoodSay(Delete(b, k, i), m, Added(newId));
    var a1 := Delete(b, k, i).Say(Added(newId));
    var q := o.(id := newId, price := price, quantity := quantity, executed := 0, leaves := quantity);
    var p := q;
    FacingHasLeaves(a1, m, o.side);
    if matching {
      OrderTakes(a1, q);
      GoodMatchOrder(a1, m, q);
      c, p := MatchOrder(a1, q).0, MatchOrder(a1, q).1;
      SameTaker(a1, c, q, p, price, Whole(o.tif),
                TakeVolume(o.side, price, Whole(o.tif), quantity, Facing(b, o.side)));
    } else {
      c := a1;
      NothingTaken(a1, p, price, Whole(o.tif));
    }
    if p.leaves > 0 {
      d := InsertionEnds(c, p, matching, foreign);
    } else {
      d := DropEnds(c, p, matching, foreign);
    }
  }
}
