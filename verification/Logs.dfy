/** The tape of a book over whole runs: reports are only ever appended, and the last price of a side is that of
    the last execution reported for it. */
module Logs {
  import opened Options
  import opened Orders
  import opened PriorityList
  import opened BookSpec
  import opened Runs

  // The price of the last execution reported for an order of the side.
  function LastPrice(log: seq<Event>, side: Side): nat {
    if log == [] then (if side == Buy then 0 else ORDER_INT_MAX)
    else
      match log[|log| - 1]
      case Executed(_, s, _, price, _) => if s == side then price else LastPrice(log[..|log| - 1], side)
      case _ => LastPrice(log[..|log| - 1], side)
  }

  predicate LastsOk(b: Book) {
    b.tape.lastBid == LastPrice(b.tape.log, Buy) && b.tape.lastAsk == LastPrice(b.tape.log, Sell)
  }

  // What the second book says goes on from what the first one says.
  predicate Tells(b: Book, c: Book) { b.tape.log <= c.tape.log && (LastsOk(b) ==> LastsOk(c)) }

  lemma TellsOn(b: Book, c: Book, d: Book)
    requires Tells(b, c) && Tells(c, d)
    ensures Tells(b, d)
  {
  }

  lemma SameTells(b: Book, c: Book)
    requires c.tape.log == b.tape.log && c.tape.lastBid == b.tape.lastBid && c.tape.lastAsk == b.tape.lastAsk
    ensures Tells(b, c)
  {
  }

  lemma SayTells(b: Book, e: Event)
    requires !e.Executed?
    ensures Tells(b, b.Say(e))
  {
    assert (b.tape.log + [e])[..|b.tape.log|] == b.tape.log;
  }

  lemma TradeTells(b: Book, o: Order, price: nat, q: nat)
    ensures Tells(b, b.Trade(o, price, q))
  {
    var e := Executed(o.id, o.side, o.price, price, q);
    assert (b.tape.log + [e])[..|b.tape.log|] == b.tape.log;
  }

  lemma ReduceTells(b: Book, k: Kind, i: nat, q: nat)
    requires i < |b.Get(k)| && q <= b.Get(k)[i].leaves
    ensures Tells(b, Reduce(b, k, i, q)) && Tells(b, Reduce(b, k, i, q).Reset())
  {
    hide Tells;
    var o := b.Get(k)[i];
    var c := b.Set(k, Put(b.Get(k), i, o.(leaves := o.leaves - q)));
    SameTells(b, c);
    SayTells(c, Deleted(o.id));
    TellsOn(b, c, c.Say(Deleted(o.id)));
    SameTells(Reduce(b, k, i, q), Reduce(b, k, i, q).Reset());
    TellsOn(b, Reduce(b, k, i, q), Reduce(b, k, i, q).Reset());
  }

  lemma ExecutionTells(b: Book, k: Kind, i: nat, price: nat, q: nat)
    requires i < |b.Get(k)| && q <= b.Get(k)[i].leaves
    ensures Tells(b, Reduce(Credit(b.Trade(b.Get(k)[i], price, q), k, i, q), k, i, q))
    ensures Tells(b, Hit(b, k, i, price, q))
  {
    hide Tells, Reduce;
    var c := b.Trade(b.Get(k)[i], price, q);
    var d := Credit(c, k, i, q);
    TradeTells(b, b.Get(k)[i], price, q);
    SameTells(c, d);
    TellsOn(b, c, d);
    ReduceTells(d, k, i, q);
    TellsOn(b, d, Reduce(d, k, i, q));
    TellsOn(b, d, Reduce(d, k, i, q).Reset());
  }

  lemma DeleteTells(b: Book, k: Kind, i: nat)
    requires i < |b.Get(k)|
    ensures Tells(b, Unlink(b, k, i)) && Tells(b, Delete(b, k, i))
  {
    hide Tells;
    SameTells(b, Unlink(b, k, i));
    SayTells(Unlink(b, k, i), Deleted(b.Get(k)[i].id));
    TellsOn(b, Unlink(b, k, i), Delete(b, k, i));
  }

  // ---------- matching an order

  lemma {:induction false} FillTells(b: Book, o: Order)
    ensures Tells(b, Fill(b, o).0)
    decreases |b.Get(Opposite(o.side))|
  {
    hide Tells, Hit;
    var k := Opposite(o.side);
    var s := b.Get(k);
    SameTells(b, b);
    if s != [] && Accepts(o.side, o.price, s[0].price) && !(s[0].IsAON() && s[0].leaves > o.leaves) {
      var q := Min(s[0].leaves, o.leaves);
      var c := Hit(b, k, 0, s[0].price, q);
      ExecutionTells(b, k, 0, s[0].price, q);
      TradeTells(c, o, s[0].price, q);
      TellsOn(b, c, c.Trade(o, s[0].price, q));
      HitShortens(b, k, s[0].price, q);
      var (b', o') := HitBest(b, o);
      if o'.leaves > 0 {
        FillTells(b', o');
        TellsOn(b, b', Fill(b', o').0);
      }
    }
  }

  lemma {:induction false} ChainTells(b: Book, k: Kind, price: nat, volume: nat)
    ensures Tells(b, ExecuteChain(b, k, price, volume))
    decreases |b.Get(k)|
  {
    hide Tells, Hit;
    var s := b.Get(k);
    SameTells(b, b);
    if s != [] && volume > 0 {
      var q := if s[0].IsAON() then s[0].leaves else Min(s[0].leaves, volume);
      var c := Hit(b, k, 0, price, q);
      ExecutionTells(b, k, 0, price, q);
      HitShortens(b, k, price, q);
      if q == s[0].leaves {
        ChainTells(c, k, price, Sub64(volume, q));
        TellsOn(b, c, ExecuteChain(c, k, price, Sub64(volume, q)));
      }
    }
  }

  lemma MatchOrderTells(b: Book, o: Order)
    ensures Tells(b, MatchOrder(b, o).0)
  {
    hide Tells, ExecuteChain, Fill, Chain;
    SameTells(b, b);
    if o.IsWhole() {
      var k := Opposite(o.side);
      var chain := Chain(k, b.Get(k), 0, o.price, o.leaves, 0);
      var c := ExecuteChain(b, k, o.price, chain);
      ChainTells(b, k, o.price, chain);
      TradeTells(c, o, o.price, o.leaves);
      TellsOn(b, c, c.Trade(o, o.price, o.leaves));
    } else {
      FillTells(b, o);
    }
  }

  lemma MatchMarketTells(b: Book, o: Order)
    ensures Tells(b, MatchMarket(b, o).0)
  {
    hide MatchOrder;
    var s := b.Get(Opposite(o.side));
    if s != [] { MatchOrderTells(b, o.(price := MarketLimit(o.side, s[0].price, o.slippage))); }
  }

  // ---------- activation of stop orders

  lemma ActivateTells(b: Book, o: Order)
    ensures Tells(b, Activate(b, o))
  {
    hide Tells, MatchMarket, MatchOrder, Insert;
    if o.typ == Stop {
      var c := MatchMarket(b, AsMarket(o)).0;
      MatchMarketTells(b, AsMarket(o));
      var id := MatchMarket(b, AsMarket(o)).1.id;
      SayTells(c, Deleted(id));
      TellsOn(b, c, c.Say(Deleted(id)));
    } else {
      var (c, p) := MatchOrder(b, AsLimit(o));
      MatchOrderTells(b, AsLimit(o));
      SayTells(c, Deleted(p.id));
      SameTells(c, Link(c, p));
      TellsOn(b, c, Activate(b, o));
    }
  }

  lemma {:induction false} ActivateRunTells(b: Book, k: Kind, n: nat)
    requires (k == BuyStops || k == SellStops) && n <= |b.Get(k)|
    ensures Tells(b, ActivateRun(b, k, n))
    decreases n
  {
    hide Tells, Activate;
    SameTells(b, b);
    if n > 0 {
      var c := Unlink(b, k, 0);
      SameTells(b, c);
      ActivateTells(c, b.Get(k)[0]);
      TellsOn(b, c, ActivateFirst(b, k));
      ActivateRunTells(ActivateFirst(b, k), k, n - 1);
      TellsOn(b, ActivateFirst(b, k), ActivateRun(b, k, n));
    }
  }

  lemma ActivateBestTells(b: Book, k: Kind)
    requires k == BuyStops || k == SellStops
    ensures Tells(b, ActivateBest(b, k))
  {
    ActivateRunTells(b, k, if Triggered(b, k) then RunLength(k, b.Get(k)) else 0);
  }

  lemma ActivatePassTells(b: Book)
    ensures Tells(b, ActivatePass(b))
  {
    hide Tells, ActivateBest;
    ActivateBestTells(b, BuyStops);
    ActivateBestTells(ActivateBest(b, BuyStops), SellStops);
    TellsOn(b, ActivateBest(b, BuyStops), ActivatePass(b));
  }

  lemma {:induction false} ActivateAllTells(b: Book)
    ensures Tells(b, ActivateAll(b))
    decreases b.Stops()
  {
    hide Tells, ActivatePass, Active;
    SameTells(b, b);
    if Active(b) {
      ActivatePassTells(b);
      ActivateAllTells(ActivatePass(b));
      TellsOn(b, ActivatePass(b), ActivateAll(ActivatePass(b)));
    }
  }

  // ---------- crossed books

  lemma TradePairTells(b: Book, i: nat, j: nat)
    requires i < |b.bids| && j < |b.asks|
    ensures Tells(b, TradePair(b, i, j))
  {
    hide Tells, Hit;
    var bid, ask := b.bids[i], b.asks[j];
    if bid.leaves > ask.leaves {
      var c := Hit(b, Asks, j, ask.price, ask.leaves);
      HitLists(b, Asks, j, ask.price, ask.leaves);
      ExecutionTells(b, Asks, j, ask.price, ask.leaves);
      ExecutionTells(c, Bids, i, ask.price, ask.leaves);
      TellsOn(b, c, TradePair(b, i, j));
    } else {
      var c := Hit(b, Bids, i, bid.price, bid.leaves);
      HitLists(b, Bids, i, bid.price, bid.leaves);
      ExecutionTells(b, Bids, i, bid.price, bid.leaves);
      ExecutionTells(c, Asks, j, bid.price, bid.leaves);
      TellsOn(b, c, TradePair(b, i, j));
    }
  }

  lemma {:induction false} PairLevelsTells(b: Book, i: nat, j: nat)
    requires i < |b.bids| && j < |b.asks|
    ensures Tells(b, PairLevels(b, i, j).0)
    decreases |b.bids| - i
  {
    hide Tells, TradePair, ExecuteChain, TwoSidedChain;
    SameTells(b, b);
    var bid, ask := b.bids[i], b.asks[j];
    if bid.IsAON() || ask.IsAON() {
      var chain := TwoSidedChain(b);
      var c := ExecuteChain(b, Bids, bid.price, chain);
      ChainTells(b, Bids, bid.price, chain);
      ChainTells(c, Asks, ask.price, chain);
      TellsOn(b, c, ExecuteChain(c, Asks, ask.price, chain));
    } else {
      var c := TradePair(b, i, j);
      TradePairTells(b, i, j);
      if NextInLevel(Bids, b.bids, i) != None && NextInLevel(Asks, b.asks, j) != None {
        var i' := if bid.leaves <= ask.leaves then i else i + 1;
        var j' := if ask.leaves <= bid.leaves then j else j + 1;
        PairLevelsTells(c, i', j');
        TellsOn(b, c, PairLevels(c, i', j').0);
      }
    }
  }

  lemma {:induction false} CrossLoopTells(b: Book)
    ensures Tells(b, CrossLoop(b).0)
    decreases b.Stops(), b.Size()
  {
    hide Tells, PairLevels, ActivateBest;
    SameTells(b, b);
    if b.Crossed() {
      var (c, blocked) := PairLevels(b, 0, 0);
      PairLevelsTells(b, 0, 0);
      PairLevelsSize(b, 0, 0);
      if !blocked {
        ActivatePassTells(c);
        TellsOn(b, c, ActivatePass(c));
        CrossLoopTells(ActivatePass(c));
        TellsOn(b, ActivatePass(c), CrossLoop(ActivatePass(c)).0);
      }
    }
  }

  lemma {:induction false} MatchTells(b: Book)
    ensures Tells(b, Match(b))
    decreases b.Stops()
  {
    hide Tells, CrossLoop, ActivateAll, Active;
    var (c, blocked) := CrossLoop(b);
    CrossLoopTells(b);
    if !blocked && Active(c) {
      ActivateAllTells(c);
      TellsOn(b, c, ActivateAll(c));
      MatchTells(ActivateAll(c));
      TellsOn(b, ActivateAll(c), Match(b));
    }
  }

  lemma SettleTells(b: Book, matching: bool)
    ensures Tells(b, Settle(b, matching))
  {
    hide Tells, Match;
    SameTells(b, b.Reset());
    MatchTells(b);
    SameTells(Match(b), Match(b).Reset());
    TellsOn(b, Match(b), Match(b).Reset());
  }

  // ---------- public operations

  // What is said and linked before settling.
  lemma AndSettles(b: Book, c: Book, matching: bool)
    requires Tells(b, c)
    ensures Tells(b, Settle(c, matching))
  {
    hide Tells, Settle;
    SettleTells(c, matching);
    TellsOn(b, c, Settle(c, matching));
  }

  lemma InsertionTells(b: Book, o: Order, matching: bool, foreign: set<nat>)
    ensures Tells(b, Insertion(b, o, matching, foreign).0)
    ensures Tells(b, Settle(b.Say(Deleted(o.id)), matching)) && Tells(b, Settle(Link(b, o), matching))
  {
    hide Tells, Settle, Insert, Lists;
    SayTells(b, Deleted(o.id));
    AndSettles(b, b.Say(Deleted(o.id)), matching);
    SameTells(b, Link(b, o));
    AndSettles(b, Link(b, o), matching);
  }

  lemma AddOrderTells(b: Book, o: Order, matching: bool, foreign: set<nat>)
    ensures Tells(b, AddOrder(b, o, matching, foreign).0)
  {
    hide Tells, Settle, MatchMarket, MatchOrder, Insertion, Triggers;
    var b1 := b.Say(Added(o.id));
    SayTells(b, Added(o.id));
    forall c: Book, p: Order | Tells(b1, c)
      ensures Tells(b, Insertion(c, p, matching, foreign).0) && Tells(b, Settle(c.Say(Deleted(p.id)), matching))
    {
      TellsOn(b, b1, c);
      InsertionTells(c, p, matching, foreign);
      TellsOn(b, c, Insertion(c, p, matching, foreign).0);
      TellsOn(b, c, Settle(c.Say(Deleted(p.id)), matching));
    }
    SameTells(b1, b1);
    MatchMarketTells(b1, o);
    MatchOrderTells(b1, o);
    MatchMarketTells(b1, AsMarket(o));
    MatchOrderTells(b1, AsLimit(o));
  }

  lemma ModifyOrderTells(b: Book, k: Kind, i: nat, price: nat, quantity: nat, mitigate: bool, matching: bool)
    requires i < |b.Get(k)|
    ensures Tells(b, ModifyOrder(b, k, i, price, quantity, mitigate, matching))
  {
    hide Tells, Settle, MatchOrder, Link, Unlink;
    var c := Unlink(b, k, i);
    DeleteTells(b, k, i);
    var (d, p) := AfterModify(b, k, i, price, quantity, mitigate, matching);
    SameTells(c, c);
    MatchOrderTells(c, Modified(b.Get(k)[i], price, quantity, mitigate));
    InsertionTells(d, p, matching, {});
    TellsOn(b, c, d);
    TellsOn(b, d, ModifyOrder(b, k, i, price, quantity, mitigate, matching));
  }

  lemma ReplaceOrderTells(b: Book, k: Kind, i: nat, newId: nat, price: nat, quantity: nat, matching: bool,
                          foreign: set<nat>)
    requires i < |b.Get(k)|
    ensures Tells(b, ReplaceOrder(b, k, i, newId, price, quantity, matching, foreign).0)
  {
    hide Tells, Settle, MatchOrder, Insertion, Delete;
    var c := Delete(b, k, i).Say(Added(newId));
    var o := b.Get(k)[i].(id := newId, price := price, quantity := quantity, executed := 0, leaves := quantity);
    DeleteTells(b, k, i);
    SayTells(Delete(b, k, i), Added(newId));
    TellsOn(b, Delete(b, k, i), c);
    SameTells(c, c);
    MatchOrderTells(c, o);
    var (d, p) := if matching then MatchOrder(c, o) else (c, o);
    TellsOn(b, c, d);
    InsertionTells(d, p, matching, foreign);
    InsertionTells(d, o, matching, foreign);
    TellsOn(b, d, ReplaceOrder(b, k, i, newId, price, quantity, matching, foreign).0);
  }

  lemma ExecuteOrderTells(b: Book, k: Kind, i: nat, price: nat, quantity: nat, matching: bool)
    requires i < |b.Get(k)|
    ensures Tells(b, ExecuteOrder(b, k, i, price, quantity, matching))
  {
    hide Tells, Settle;
    var q := Min(quantity, b.Get(k)[i].leaves);
    ExecutionTells(b, k, i, price, q);
    AndSettles(b, Reduce(Credit(b.Trade(b.Get(k)[i], price, q), k, i, q), k, i, q), matching);
  }

  /** No operation takes back a report, and the last prices stay those of the last executions. */
  lemma StepTells(b: Book, op: Op, matching: bool)
    ensures Tells(b, Step(b, op, matching))
  {
    hide Tells, Settle, AddOrder, ModifyOrder, ReplaceOrder, ExecuteOrder, Reduce, Delete, Match;
    SameTells(b, b);
    match op {
      case Add(o, foreign) => AddOrderTells(b, o, matching, foreign);
      case Cut(k, i, q) =>
        if i < |b.Get(k)| {
          ReduceTells(b, k, i, Min(q, b.Get(k)[i].leaves));
          AndSettles(b, Reduce(b, k, i, Min(q, b.Get(k)[i].leaves)), matching);
        }
      case Cancel(k, i) =>
        if i < |b.Get(k)| {
          DeleteTells(b, k, i);
          AndSettles(b, Delete(b, k, i), matching);
        }
      case Execute(k, i, p, q) => if i < |b.Get(k)| { ExecuteOrderTells(b, k, i, p, q, matching); }
      case Modify(k, i, p, q, mitigate) => if i < |b.Get(k)| { ModifyOrderTells(b, k, i, p, q, mitigate, matching); }
      case Replace(k, i, id, p, q, foreign) =>
        if i < |b.Get(k)| { ReplaceOrderTells(b, k, i, id, p, q, matching, foreign); }
      case Uncross => MatchTells(b);
    }
  }

  /** Over every run, with matching on or off: the last bid and ask price are those of the last executions
      reported for a buy and a sell order, and what has been reported at any time stays reported. */
  lemma {:induction false} RunKeepsLastPrices(ops: seq<Op>, matching: bool)
    ensures LastsOk(Run(ops, matching))
    ensures forall n :: 0 <= n <= |ops| ==> Run(ops[..n], matching).tape.log <= Run(ops, matching).tape.log
  {
    hide Step, LastsOk;
    assert ops[..|ops|] == ops;
    if ops == [] {
      assert LastsOk(EMPTY) by { EmptyLasts(); }
    } else {
      var init := ops[..|ops| - 1];
      RunKeepsLastPrices(init, matching);
      StepTells(Run(init, matching), ops[|ops| - 1], matching);
      forall n | 0 <= n < |ops| ensures Run(ops[..n], matching).tape.log <= Run(ops, matching).tape.log {
        assert ops[..n] == init[..n];
      }
    }
  }

  lemma EmptyLasts()
    ensures LastsOk(EMPTY)
  {
  }
}
