/** The engine's promise for 'All-Or-None' orders over whole runs: none is ever filled in part, in crossed
    books and by chains whose volume has wrapped around as well. */
module WholeOrders {
  import opened Options
  import opened Orders
  import opened PriorityList
  import opened BookSpec
  import opened Runs

  // An 'All-Or-None' order has nothing executed as long as it waits.
  predicate Entire(o: Order) { o.IsAON() ==> o.executed == 0 }

  ghost predicate AllEntire(s: seq<Order>) { forall i :: 0 <= i < |s| ==> Entire(s[i]) }

  ghost predicate Intact(b: Book) {
    AllEntire(b.bids) && AllEntire(b.asks) && AllEntire(b.buyStops) && AllEntire(b.sellStops)
  }

  lemma IntactPut(b: Book, k: Kind, i: nat, o: Order)
    requires Intact(b) && i < |b.Get(k)| && (o.leaves > 0 ==> Entire(o))
    ensures Intact(b.Set(k, Put(b.Get(k), i, o))) && Entire(b.Get(k)[i])
  {
  }

  lemma SameIntact(b: Book, c: Book)
    requires Intact(b) && c == b.(tape := c.tape)
    ensures Intact(c)
  {
  }

  lemma IntactReduce(b: Book, k: Kind, i: nat, q: nat)
    requires Intact(b) && i < |b.Get(k)| && q <= b.Get(k)[i].leaves
    ensures Intact(Reduce(b, k, i, q))
  {
    hide Intact, Entire;
    var o := b.Get(k)[i];
    IntactPut(b, k, i, o.(leaves := 0));
    var p := o.(leaves := o.leaves - q);
    assert Entire(p) by { StillEntire(o, p); }
    IntactPut(b, k, i, p);
    SameIntact(b.Set(k, Put(b.Get(k), i, p)), Reduce(b, k, i, q));
  }

  lemma StillEntire(o: Order, p: Order)
    requires Entire(o) && p.tif == o.tif && p.executed == o.executed
    ensures Entire(p)
  {
  }

  // A trade takes all of an 'All-Or-None' order.
  lemma IntactHit(b: Book, k: Kind, i: nat, price: nat, q: nat)
    requires Intact(b) && i < |b.Get(k)| && q <= b.Get(k)[i].leaves
    requires b.Get(k)[i].IsAON() ==> q == b.Get(k)[i].leaves
    ensures Intact(Hit(b, k, i, price, q))
  {
    hide Intact, Hit;
    var o := b.Get(k)[i];
    var p := o.(executed := o.executed + q, leaves := o.leaves - q);
    HitLists(b, k, i, price, q);
    IntactPut(b, k, i, p);
    SameIntact(b.Set(k, Put(b.Get(k), i, p)), Hit(b, k, i, price, q));
  }

  lemma IntactLink(b: Book, o: Order)
    requires Intact(b) && Entire(o)
    ensures Intact(Link(b, o))
  {
    InsertEntire(KindOf(o), b.Get(KindOf(o)), o);
  }

  lemma {:induction false} InsertEntire(k: Kind, s: seq<Order>, o: Order)
    requires AllEntire(s) && Entire(o)
    ensures AllEntire(Insert(k, s, o))
  {
    if s != [] { InsertEntire(k, s[1..], o); }
  }

  // ---------- matching an order

  lemma {:induction false} IntactFill(b: Book, o: Order)
    requires Intact(b)
    ensures Intact(Fill(b, o).0)
    decreases |b.Get(Opposite(o.side))|
  {
    hide Intact;
    var s := b.Get(Opposite(o.side));
    if s != [] && Accepts(o.side, o.price, s[0].price) && !(s[0].IsAON() && s[0].leaves > o.leaves) {
      var q := Min(s[0].leaves, o.leaves);
      IntactHit(b, Opposite(o.side), 0, s[0].price, q);
      var (b', o') := HitBest(b, o);
      SameIntact(Hit(b, Opposite(o.side), 0, s[0].price, q), b');
      if o'.leaves > 0 { IntactFill(b', o'); }
    }
  }

  // Even when what remains of the volume has wrapped around.
  lemma {:induction false} IntactExecuteChain(b: Book, k: Kind, price: nat, volume: nat)
    requires Intact(b)
    ensures Intact(ExecuteChain(b, k, price, volume))
    decreases |b.Get(k)|
  {
    hide Intact;
    var s := b.Get(k);
    if s != [] && volume > 0 {
      var q := if s[0].IsAON() then s[0].leaves else Min(s[0].leaves, volume);
      IntactHit(b, k, 0, price, q);
      if q == s[0].leaves { IntactExecuteChain(Hit(b, k, 0, price, q), k, price, Sub64(volume, q)); }
    }
  }

  /** Neither a waiting 'All-Or-None' order nor the incoming one is filled in part. */
  lemma IntactMatchOrder(b: Book, o: Order)
    requires Intact(b)
    ensures var (b', o') := MatchOrder(b, o); Intact(b') && (Entire(o) && o'.leaves > 0 ==> Entire(o'))
  {
    hide Intact;
    if o.IsWhole() {
      var k := Opposite(o.side);
      var chain := Chain(k, b.Get(k), 0, o.price, o.leaves, 0);
      IntactExecuteChain(b, k, o.price, chain);
      var c := ExecuteChain(b, k, o.price, chain);
      SameIntact(c, c.Trade(o, o.price, o.leaves));
    } else {
      IntactFill(b, o);
    }
  }

  lemma IntactMatchMarket(b: Book, o: Order)
    requires Intact(b)
    ensures Intact(MatchMarket(b, o).0)
  {
    var s := b.Get(Opposite(o.side));
    if s != [] { IntactMatchOrder(b, o.(price := MarketLimit(o.side, s[0].price, o.slippage))); }
  }

  // ---------- activation of stop orders

  lemma IntactActivateFirst(b: Book, k: Kind)
    requires (k == BuyStops || k == SellStops) && b.Get(k) != [] && Intact(b)
    ensures Intact(ActivateFirst(b, k))
  {
    hide Intact, MatchMarket, MatchOrder, Unlink, Link;
    var o := b.Get(k)[0];
    var c := Unlink(b, k, 0);
    IntactUnlink(b, k, 0);
    if o.typ == Stop {
      StopActivation(b, k);
      IntactMatchMarket(c, AsMarket(o));
      SameIntact(MatchMarket(c, AsMarket(o)).0, MatchMarket(c, AsMarket(o)).0.Say(Deleted(o.id)));
    } else {
      var (d, p) := MatchOrder(c, AsLimit(o));
      IntactMatchOrder(c, AsLimit(o));
      SameIntact(d, d.Say(Deleted(p.id)));
      if p.Rests() { IntactLink(d, p); }
    }
  }

  lemma IntactUnlink(b: Book, k: Kind, i: nat)
    requires Intact(b) && i < |b.Get(k)|
    ensures Intact(Unlink(b, k, i)) && Entire(b.Get(k)[i])
  {
    IntactPut(b, k, i, b.Get(k)[i].(leaves := 0));
  }

  lemma {:induction false} IntactActivateRun(b: Book, k: Kind, n: nat)
    requires (k == BuyStops || k == SellStops) && n <= |b.Get(k)| && Intact(b)
    ensures Intact(ActivateRun(b, k, n))
    decreases n
  {
    hide Intact, ActivateFirst;
    if n > 0 {
      IntactActivateFirst(b, k);
      IntactActivateRun(ActivateFirst(b, k), k, n - 1);
    }
  }

  lemma IntactActivateBest(b: Book, k: Kind)
    requires (k == BuyStops || k == SellStops) && Intact(b)
    ensures Intact(ActivateBest(b, k))
  {
    hide Intact;
    IntactActivateRun(b, k, if Triggered(b, k) then RunLength(k, b.Get(k)) else 0);
  }

  lemma {:induction false} IntactActivateAll(b: Book)
    requires Intact(b)
    ensures Intact(ActivateAll(b))
    decreases b.Stops()
  {
    hide Intact, ActivateBest, Triggered;
    if Active(b) {
      IntactActivateBest(b, BuyStops);
      IntactActivateBest(ActivateBest(b, BuyStops), SellStops);
      IntactActivateAll(ActivatePass(b));
    }
  }

  // ---------- crossed books

  lemma {:induction false} IntactPairLevels(b: Book, i: nat, j: nat)
    requires Intact(b) && i < |b.bids| && j < |b.asks|
    ensures Intact(PairLevels(b, i, j).0)
    decreases |b.bids| - i
  {
    hide Intact, Hit, ExecuteChain, TwoSidedChain;
    var bid, ask := b.bids[i], b.asks[j];
    if bid.IsAON() || ask.IsAON() {
      var chain := TwoSidedChain(b);
      IntactExecuteChain(b, Bids, bid.price, chain);
      IntactExecuteChain(ExecuteChain(b, Bids, bid.price, chain), Asks, ask.price, chain);
    } else {
      IntactTradePair(b, i, j);
      if NextInLevel(Bids, b.bids, i) != None && NextInLevel(Asks, b.asks, j) != None {
        IntactPairLevels(TradePair(b, i, j), if bid.leaves <= ask.leaves then i else i + 1,
                         if ask.leaves <= bid.leaves then j else j + 1);
      }
    }
  }

  lemma IntactTradePair(b: Book, i: nat, j: nat)
    requires Intact(b) && i < |b.bids| && j < |b.asks| && !b.bids[i].IsAON() && !b.asks[j].IsAON()
    ensures Intact(TradePair(b, i, j))
  {
    hide Intact, Hit;
    var bid, ask := b.bids[i], b.asks[j];
    if bid.leaves > ask.leaves {
      IntactHit(b, Asks, j, ask.price, ask.leaves);
      HitLists(b, Asks, j, ask.price, ask.leaves);
      IntactHit(Hit(b, Asks, j, ask.price, ask.leaves), Bids, i, ask.price, ask.leaves);
    } else {
      IntactHit(b, Bids, i, bid.price, bid.leaves);
      HitLists(b, Bids, i, bid.price, bid.leaves);
      IntactHit(Hit(b, Bids, i, bid.price, bid.leaves), Asks, j, bid.price, bid.leaves);
    }
  }

  lemma {:induction false} IntactCrossLoop(b: Book)
    requires Intact(b)
    ensures Intact(CrossLoop(b).0)
    decreases b.Stops(), b.Size()
  {
    hide Intact, PairLevels, ActivateBest;
    if b.Crossed() {
      var (b1, blocked) := PairLevels(b, 0, 0);
      IntactPairLevels(b, 0, 0);
      PairLevelsSize(b, 0, 0);
      if !blocked {
        IntactActivateBest(b1, BuyStops);
        IntactActivateBest(ActivateBest(b1, BuyStops), SellStops);
        IntactCrossLoop(ActivateBest(ActivateBest(b1, BuyStops), SellStops));
      }
    }
  }

  lemma {:induction false} IntactMatch(b: Book)
    requires Intact(b)
    ensures Intact(Match(b))
    decreases b.Stops()
  {
    hide Intact, CrossLoop, ActivateAll, Active;
    IntactCrossLoop(b);
    var (b1, blocked) := CrossLoop(b);
    if !blocked && Active(b1) {
      IntactActivateAll(b1);
      IntactMatch(ActivateAll(b1));
    }
  }

  lemma IntactSettle(b: Book, matching: bool)
    requires Intact(b)
    ensures Intact(Settle(b, matching))
  {
    hide Intact, Match;
    IntactMatch(b);
    SameIntact(if matching then Match(b) else b, Settle(b, matching));
  }

  // ---------- public operations

  lemma IntactInsertion(b: Book, o: Order, matching: bool, foreign: set<nat>)
    requires Intact(b)
    ensures o.leaves > 0 && Entire(o) ==> Intact(Insertion(b, o, matching, foreign).0)
    ensures o.leaves > 0 && Entire(o) ==> Intact(Settle(Link(b, o), matching))
    ensures Intact(Settle(b.Say(Deleted(o.id)), matching))
  {
    hide Intact, Settle, Link, Lists;
    SameIntact(b, b.Say(Deleted(o.id)));
    IntactSettle(b.Say(Deleted(o.id)), matching);
    if Entire(o) {
      IntactLink(b, o);
      IntactSettle(Link(b, o), matching);
    }
  }

  lemma IntactAddOrder(b: Book, o: Order, matching: bool, foreign: set<nat>)
    requires Intact(b) && Entire(o)
    ensures Intact(AddOrder(b, o, matching, foreign).0)
  {
    hide Intact, Insertion, Settle, MatchMarket, MatchOrder;
    var b1 := b.Say(Added(o.id));
    SameIntact(b, b1);
    IntactInsertion(b1, o, matching, foreign);
    IntactMatchMarket(b1, o);
    IntactInsertion(MatchMarket(b1, o).0, o, matching, foreign);
    IntactMatchOrder(b1, o);
    IntactInsertion(MatchOrder(b1, o).0, MatchOrder(b1, o).1, matching, foreign);
    IntactMatchMarket(b1, AsMarket(o));
    IntactInsertion(MatchMarket(b1, AsMarket(o)).0, o, matching, foreign);
    IntactMatchOrder(b1, AsLimit(o));
    IntactInsertion(MatchOrder(b1, AsLimit(o)).0, MatchOrder(b1, AsLimit(o)).1, matching, foreign);
  }

  lemma IntactExecuteOrder(b: Book, k: Kind, i: nat, price: nat, quantity: nat, matching: bool)
    requires Intact(b) && i < |b.Get(k)| && (b.Get(k)[i].IsAON() ==> quantity >= b.Get(k)[i].leaves)
    ensures Intact(ExecuteOrder(b, k, i, price, quantity, matching))
  {
    hide Intact, Settle;
    var q := Min(quantity, b.Get(k)[i].leaves);
    var c := Reduce(Credit(b.Trade(b.Get(k)[i], price, q), k, i, q), k, i, q);
    IntactHit(b, k, i, price, q);
    SameIntact(Hit(b, k, i, price, q), c);
    IntactSettle(c, matching);
  }

  lemma IntactModifyOrder(b: Book, k: Kind, i: nat, price: nat, quantity: nat, mitigate: bool, matching: bool)
    requires Intact(b) && i < |b.Get(k)|
    ensures Intact(ModifyOrder(b, k, i, price, quantity, mitigate, matching))
  {
    hide Intact, Settle, MatchOrder, Link, Unlink;
    var b1, o1 := Unlink(b, k, i), Modified(b.Get(k)[i], price, quantity, mitigate);
    IntactUnlink(b, k, i);
    IntactMatchOrder(b1, o1);
    IntactInsertion(b1, o1, matching, {});
    IntactInsertion(MatchOrder(b1, o1).0, MatchOrder(b1, o1).1, matching, {});
  }

  lemma IntactReplaceOrder(b: Book, k: Kind, i: nat, newId: nat, price: nat, quantity: nat, matching: bool,
                           foreign: set<nat>)
    requires Intact(b) && i < |b.Get(k)|
    ensures Intact(ReplaceOrder(b, k, i, newId, price, quantity, matching, foreign).0)
  {
    hide Intact, Settle, MatchOrder, Insertion, Unlink;
    var b1 := Delete(b, k, i).Say(Added(newId));
    var o1 := b.Get(k)[i].(id := newId, price := price, quantity := quantity, executed := 0, leaves := quantity);
    IntactUnlink(b, k, i);
    SameIntact(Unlink(b, k, i), b1);
    IntactMatchOrder(b1, o1);
    IntactInsertion(b1, o1, matching, foreign);
    IntactInsertion(MatchOrder(b1, o1).0, MatchOrder(b1, o1).1, matching, foreign);
  }

  // ---------- runs

  // Only an addition and an execution reported from outside can bring in an order that is filled in part.
  predicate KeepsWhole(b: Book, op: Op) {
    match op
    case Add(o, _) => Entire(o)
    case Execute(k, i, _, q) => i < |b.Get(k)| && b.Get(k)[i].IsAON() ==> q >= b.Get(k)[i].leaves
    case _ => true
  }

  lemma IntactStep(b: Book, op: Op, matching: bool)
    requires Intact(b) && KeepsWhole(b, op)
    ensures Intact(Step(b, op, matching))
  {
    hide Intact, Entire, AddOrder, Settle, Reduce, Delete, ExecuteOrder, ModifyOrder, ReplaceOrder, Match;
    match op {
      case Add(o, foreign) => IntactAddOrder(b, o, matching, foreign);
      case Cut(k, i, q) =>
        if i < |b.Get(k)| {
          IntactReduce(b, k, i, Min(q, b.Get(k)[i].leaves));
          IntactSettle(Reduce(b, k, i, Min(q, b.Get(k)[i].leaves)), matching);
        }
      case Cancel(k, i) => if i < |b.Get(k)| { IntactDelete(b, k, i); IntactSettle(Delete(b, k, i), matching); }
      case Execute(k, i, p, q) => if i < |b.Get(k)| { IntactExecuteOrder(b, k, i, p, q, matching); }
      case Modify(k, i, p, q, mitigate) => if i < |b.Get(k)| { IntactModifyOrder(b, k, i, p, q, mitigate, matching); }
      case Replace(k, i, id, p, q, foreign) =>
        if i < |b.Get(k)| { IntactReplaceOrder(b, k, i, id, p, q, matching, foreign); }
      case Uncross => IntactMatch(b);
    }
  }

  lemma IntactDelete(b: Book, k: Kind, i: nat)
    requires Intact(b) && i < |b.Get(k)|
    ensures Intact(Delete(b, k, i))
  {
    IntactUnlink(b, k, i);
  }

  /** Every run, with matching on or off: no listed 'All-Or-None' order has been filled in part, unless it was
      added so or an execution reported from outside has done it. */
  lemma {:induction false} RunKeepsWhole(ops: seq<Op>, matching: bool)
    requires forall n :: 0 <= n < |ops| ==> KeepsWhole(Run(ops[..n], matching), ops[n])
    ensures Intact(Run(ops, matching))
  {
    hide Step, KeepsWhole;
    if ops != [] {
      var n := |ops| - 1;
      var init := ops[..n];
      forall m | 0 <= m < n ensures KeepsWhole(Run(init[..m], matching), init[m]) { assert init[..m] == ops[..m]; }
      RunKeepsWhole(init, matching);
      IntactStep(Run(init, matching), ops[n], matching);
    }
  }
}
