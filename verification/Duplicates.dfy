/** Order ids that are in use: the error is found only when the order is to be added to its book, after it
    has been matched, and what it has traded stays traded. */
module Duplicates {
  import opened Options
  import opened Orders
  import opened PriorityList
  import opened BookSpec
  import opened Invariants
  import opened Fills

  // The same orders, whatever has been reported.
  predicate Unmoved(b: Book, c: Book) { c == b.(tape := c.tape) }

  // Nothing of the order can be filled.
  predicate Untradable(b: Book, o: Order) {
    var s := b.Get(Opposite(o.side));
    if o.IsWhole() then !(CutsAt(s, o.leaves) && o.leaves <= Within(o.side, o.price, s)) else NoMatch(b, o)
  }

  lemma MatchIdleIff(b: Book, o: Order)
    requires HaveLeaves(b.Get(Opposite(o.side))) && o.leaves > 0
    ensures Unmoved(b, MatchOrder(b, o).0) <==> Untradable(b, o)
    ensures Untradable(b, o) ==> MatchOrder(b, o) == (b, o)
  {
    hide Fill, MatchWhole;
    if o.IsWhole() {
      WholeOrNothing(b, o);
      if !Untradable(b, o) { TakeIsLess(b.Get(Opposite(o.side)), o); }
    } else if NoMatch(b, o) {
      MatchStops(b, o);
    } else {
      FillMoves(b, o);
    }
  }

  lemma TakeIsLess(s: seq<Order>, o: Order)
    requires o.leaves > 0 && o.leaves <= Within(o.side, o.price, s)
    ensures Take(s, o.leaves) != s
  {
    WithinLeaves(o.side, o.price, s);
    TakeLeaves(s, o.leaves);
  }

  // A fill that begins leaves less on the other side.
  lemma FillMoves(b: Book, o: Order)
    requires HaveLeaves(b.Get(Opposite(o.side))) && o.leaves > 0 && !o.IsWhole() && !NoMatch(b, o)
    ensures !Unmoved(b, MatchOrder(b, o).0)
  {
    hide HitBest, MatchOrder;
    var k := Opposite(o.side);
    var s := b.Get(k);
    var (b', o') := HitBest(b, o);
    HitFront(b, o);
    LeavesOfPut(s, Min(s[0].leaves, o.leaves));
    MatchStep(b, o);
    assert MatchOrder(b, o) == Fill(b, o) by { MatchIsFill(b, o); }
    if o'.leaves > 0 { FillShrinks(b', o'); }
    SameLeaves(b, MatchOrder(b, o).0, k);
  }

  lemma MatchIsFill(b: Book, o: Order)
    requires !o.IsWhole()
    ensures MatchOrder(b, o) == Fill(b, o)
  {
  }

  lemma SameLeaves(b: Book, c: Book, k: Kind)
    ensures Unmoved(b, c) ==> Leaves(c.Get(k)) == Leaves(b.Get(k))
  {
  }

  lemma LeavesOfPut(s: seq<Order>, q: nat)
    requires s != [] && 0 < q <= s[0].leaves
    ensures Leaves(if q == s[0].leaves then s[1..] else [Traded(s[0], q)] + s[1..]) == Leaves(s) - q
  {
    assert ([Traded(s[0], q)] + s[1..])[1..] == s[1..];
  }

  lemma {:induction false} FillShrinks(b: Book, o: Order)
    ensures Leaves(Fill(b, o).0.Get(Opposite(o.side))) <= Leaves(b.Get(Opposite(o.side)))
    decreases |b.Get(Opposite(o.side))|
  {
    hide HitBest;
    var k := Opposite(o.side);
    var s := b.Get(k);
    if s != [] && Accepts(o.side, o.price, s[0].price) && !(s[0].IsAON() && s[0].leaves > o.leaves) {
      var (b', o') := HitBest(b, o);
      HitShrinks(b, o);
      if o'.leaves > 0 { FillShrinks(b', o'); }
    }
  }

  lemma HitShrinks(b: Book, o: Order)
    requires b.Get(Opposite(o.side)) != []
    ensures var k := Opposite(o.side); Leaves(HitBest(b, o).0.Get(k)) <= Leaves(b.Get(k))
    ensures var k := Opposite(o.side); HitBest(b, o).1.leaves > 0 ==> |HitBest(b, o).0.Get(k)| < |b.Get(k)|
    ensures HitBest(b, o).1.side == o.side
  {
    hide Hit;
    var k := Opposite(o.side);
    var e := b.Get(k)[0];
    HitAtFront(b, k, e.price, Min(e.leaves, o.leaves));
    assert ([Traded(e, Min(e.leaves, o.leaves))] + b.Get(k)[1..])[1..] == b.Get(k)[1..];
  }

  // ---------- adding

  lemma InsertionUnmoved(b: Book, o: Order, matching: bool, foreign: set<nat>)
    requires Insertion(b, o, matching, foreign).1 == OrderDuplicate
    ensures Unmoved(b, Insertion(b, o, matching, foreign).0)
  {
  }

  // The order as it is matched before the id is looked at, if it is.
  function Matched(b: Book, o: Order, matching: bool): Option<Order> {
    if !matching || o.typ == Market then None
    else if o.typ == Limit then Some(o)
    else if Triggers(b, KindOf(o), o.stopPrice) then Some(AsLimit(o))
    else None
  }

  /** A new order that is refused as a duplicate leaves the lists of its book as they were exactly when it
      was not matched, as a limit order or as a triggered stop-limit order, or could not be filled. */
  lemma AddDuplicateIff(b: Book, o: Order, matching: bool, foreign: set<nat>)
    requires o.leaves > 0 && HaveLeaves(b.bids) && HaveLeaves(b.asks)
    requires AddOrder(b, o, matching, foreign).1 == OrderDuplicate
    ensures Unmoved(b, AddOrder(b, o, matching, foreign).0) <==>
            match Matched(b, o, matching) case None => true case Some(p) => Untradable(b, p)
  {
    hide MatchOrder, MatchMarket, Insertion, Settle, Untradable;
    var b1 := b.Say(Added(o.id));
    AddedSame(b, o);
    match Matched(b, o, matching) {
      case None =>
        InsertionUnmoved(b1, o, matching, foreign);
      case Some(p) =>
        var (b2, o2) := MatchOrder(b1, p);
        MatchIdleIff(b1, p);
        InsertionUnmoved(b2, o2, matching, foreign);
        UnmovedTransitive(b, b1, b2, Insertion(b2, o2, matching, foreign).0);
        UntradableSame(b, b1, p);
    }
  }

  // The report of the addition changes neither prices nor lists.
  lemma AddedSame(b: Book, o: Order)
    ensures Unmoved(b, b.Say(Added(o.id)))
    ensures Triggers(b.Say(Added(o.id)), KindOf(o), o.stopPrice) <==> Triggers(b, KindOf(o), o.stopPrice)
  {
  }

  lemma UntradableSame(b: Book, c: Book, o: Order)
    requires Unmoved(b, c)
    ensures Untradable(b, o) <==> Untradable(c, o)
  {
  }

  lemma UnmovedTransitive(b: Book, c: Book, d: Book, e: Book)
    requires Unmoved(b, c) && Unmoved(d, e)
    ensures Unmoved(b, e) <==> Unmoved(c, d)
  {
  }

  // ---------- replacing

  // The new order of a replacement.
  function Replacement(o: Order, newId: nat, price: nat, quantity: nat): Order {
    o.(id := newId, price := price, quantity := quantity, executed := 0, leaves := quantity)
  }

  /** A replacement that is refused has always deleted the old order; beyond that the lists are as they were
      exactly when matching is off or the new order could not be filled. */
  lemma ReplaceDuplicateIff(b: Book, k: Kind, i: nat, newId: nat, price: nat, quantity: nat, matching: bool,
                            foreign: set<nat>)
    requires i < |b.Get(k)| && quantity > 0 && HaveLeaves(b.bids) && HaveLeaves(b.asks)
    requires ReplaceOrder(b, k, i, newId, price, quantity, matching, foreign).1 == OrderDuplicate
    ensures var r := ReplaceOrder(b, k, i, newId, price, quantity, matching, foreign).0;
            Unmoved(Delete(b, k, i), r) <==>
            (!matching || Untradable(Delete(b, k, i), Replacement(b.Get(k)[i], newId, price, quantity)))
  {
    hide MatchOrder, Insertion, Settle, Untradable;
    var c := Delete(b, k, i);
    var b1, o1 := c.Say(Added(newId)), Replacement(b.Get(k)[i], newId, price, quantity);
    var (b2, o2) := if matching then MatchOrder(b1, o1) else (b1, o1);
    DeletedHaveLeaves(b, k, i);
    MatchIdleIff(b1, o1);
    InsertionUnmoved(b2, o2, matching, foreign);
    UnmovedTransitive(c, b1, b2, Insertion(b2, o2, matching, foreign).0);
    UntradableSame(c, b1, o1);
  }

  lemma DeletedHaveLeaves(b: Book, k: Kind, i: nat)
    requires i < |b.Get(k)| && HaveLeaves(b.bids) && HaveLeaves(b.asks)
    ensures HaveLeaves(Delete(b, k, i).bids) && HaveLeaves(Delete(b, k, i).asks)
  {
  }
}
