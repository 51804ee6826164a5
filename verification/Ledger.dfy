/** What the handler is told adds up: orders reported as added and not yet as deleted are exactly the
    listed ones, and no listed order can be filled beyond its quantity. */
module Ledger {
  import opened Options
  import opened Orders
  import opened PriorityList
  import opened BookSpec

  // Orders added less orders deleted.
  function Open(log: seq<Event>): int {
    if log == [] then 0
    else Open(log[..|log| - 1]) + match log[|log| - 1] case Added(_) => 1 case Deleted(_) => -1 case _ => 0
  }

  lemma OpenSay(log: seq<Event>, e: Event)
    ensures Open(log + [e]) == Open(log) + match e case Added(_) => 1 case Deleted(_) => -1 case _ => 0
  {
    assert (log + [e])[..|log|] == log;
  }

  function Count(b: Book): nat { |b.bids| + |b.asks| + |b.buyStops| + |b.sellStops| }

  // An order that cannot be overfilled.
  predicate Fits(o: Order) { o.executed + o.leaves <= o.quantity }

  ghost predicate AllFit(s: seq<Order>) { forall i :: 0 <= i < |s| ==> Fits(s[i]) }

  /** `loose` orders have been reported as added and are neither listed nor reported as deleted. */
  ghost predicate Sound(b: Book, loose: int) {
    Open(b.tape.log) == Count(b) + loose &&
    AllFit(b.bids) && AllFit(b.asks) && AllFit(b.buyStops) && AllFit(b.sellStops)
  }

  lemma SoundSay(b: Book, loose: int, e: Event)
    requires Sound(b, loose)
    ensures Sound(b.Say(e), loose + match e case Added(_) => 1 case Deleted(_) => -1 case _ => 0)
  {
    OpenSay(b.tape.log, e);
  }

  lemma SoundTape(b: Book, c: Book, loose: int)
    requires Sound(b, loose) && c == b.(tape := c.tape) && c.tape.log == b.tape.log
    ensures Sound(c, loose)
  {
  }

  lemma SoundTrade(b: Book, loose: int, o: Order, price: nat, q: nat)
    requires Sound(b, loose)
    ensures Sound(b.Trade(o, price, q), loose)
  {
    SoundSay(b, loose, Executed(o.id, o.side, o.price, price, q));
    SoundTape(b.Say(Executed(o.id, o.side, o.price, price, q)), b.Trade(o, price, q), loose);
  }

  lemma SoundPut(b: Book, loose: int, k: Kind, i: nat, o: Order)
    requires Sound(b, loose) && i < |b.Get(k)| && Fits(o)
    ensures Sound(b.Set(k, Put(b.Get(k), i, o)), if o.leaves == 0 then loose + 1 else loose)
  {
  }

  lemma SoundUnlink(b: Book, loose: int, k: Kind, i: nat)
    requires Sound(b, loose) && i < |b.Get(k)|
    ensures Sound(Unlink(b, k, i), loose + 1) && Fits(b.Get(k)[i])
    ensures Sound(Delete(b, k, i), loose)
  {
    SoundPut(b, loose, k, i, b.Get(k)[i].(leaves := 0));
    SoundSay(Unlink(b, k, i), loose + 1, Deleted(b.Get(k)[i].id));
  }

  lemma SoundLink(b: Book, loose: int, o: Order)
    requires Sound(b, loose) && Fits(o)
    ensures Sound(Link(b, o), loose - 1)
  {
    InsertFits(KindOf(o), b.Get(KindOf(o)), o);
  }

  lemma {:induction false} InsertFits(k: Kind, s: seq<Order>, o: Order)
    requires AllFit(s) && Fits(o)
    ensures AllFit(Insert(k, s, o)) && |Insert(k, s, o)| == |s| + 1
  {
    if s != [] && !Better(k, Key(k, o), Key(k, s[0])) { InsertFits(k, s[1..], o); }
  }

  lemma SoundReduce(b: Book, loose: int, k: Kind, i: nat, q: nat)
    requires Sound(b, loose) && i < |b.Get(k)| && q <= b.Get(k)[i].leaves
    ensures Sound(Reduce(b, k, i, q), loose) && Sound(Reduce(b, k, i, q).Reset(), loose)
  {
    hide Sound;
    var o := b.Get(k)[i];
    var b1 := b.Set(k, Put(b.Get(k), i, o.(leaves := o.leaves - q)));
    assert Fits(o) by { SoundUnlink(b, loose, k, i); }
    SoundPut(b, loose, k, i, o.(leaves := o.leaves - q));
    if q == o.leaves { SoundSay(b1, loose + 1, Deleted(o.id)); }
    SoundTape(Reduce(b, k, i, q), Reduce(b, k, i, q).Reset(), loose);
  }

  /** A trade moves quantity from `leaves` to `executed`. */
  lemma SoundExecution(b: Book, loose: int, k: Kind, i: nat, price: nat, q: nat)
    requires Sound(b, loose) && i < |b.Get(k)| && q <= b.Get(k)[i].leaves
    ensures Sound(Reduce(Credit(b.Trade(b.Get(k)[i], price, q), k, i, q), k, i, q), loose)
    ensures Sound(Hit(b, k, i, price, q), loose)
  {
    hide Sound;
    var o := b.Get(k)[i];
    var b1 := b.Trade(o, price, q);
    var o2 := o.(executed := o.executed + q, leaves := o.leaves - q);
    SoundTrade(b, loose, o, price, q);
    assert Fits(o) by { SoundUnlink(b, loose, k, i); }
    SoundPut(b1, loose, k, i, o2);
    var b2 := b1.Set(k, Put(b1.Get(k), i, o2));
    var o1 := o.(executed := o.executed + q);
    assert Put(b.Get(k)[i := o1], i, o2) == Put(b.Get(k), i, o2);
    var b3 := if q == o.leaves then b2.Say(Deleted(o.id)) else b2;
    if q == o.leaves { SoundSay(b2, loose + 1, Deleted(o.id)); }
    assert Reduce(Credit(b1, k, i, q), k, i, q) == b3;
    SoundTape(b3, b3.Reset(), loose);
  }

  lemma {:induction false} FillKeepsSum(b: Book, o: Order)
    ensures Fill(b, o).1.executed + Fill(b, o).1.leaves == o.executed + o.leaves
    decreases |b.Get(Opposite(o.side))|
  {
    var s := b.Get(Opposite(o.side));
    if s != [] && Accepts(o.side, o.price, s[0].price) && !(s[0].IsAON() && s[0].leaves > o.leaves) {
      var (b', o') := HitBest(b, o);
      if o'.leaves > 0 { FillKeepsSum(b', o'); }
    }
  }

  lemma {:induction false} SoundFill(b: Book, loose: int, o: Order)
    requires Sound(b, loose)
    ensures Sound(Fill(b, o).0, loose)
    decreases |b.Get(Opposite(o.side))|
  {
    hide Sound;
    var s := b.Get(Opposite(o.side));
    if s != [] && Accepts(o.side, o.price, s[0].price) && !(s[0].IsAON() && s[0].leaves > o.leaves) {
      var q := Min(s[0].leaves, o.leaves);
      SoundExecution(b, loose, Opposite(o.side), 0, s[0].price, q);
      SoundTrade(Hit(b, Opposite(o.side), 0, s[0].price, q), loose, o, s[0].price, q);
      var (b', o') := HitBest(b, o);
      if o'.leaves > 0 { SoundFill(b', loose, o'); }
    }
  }

  lemma {:induction false} SoundExecuteChain(b: Book, loose: int, k: Kind, price: nat, volume: nat)
    requires Sound(b, loose)
    ensures Sound(ExecuteChain(b, k, price, volume), loose)
    decreases |b.Get(k)|
  {
    hide Sound;
    var s := b.Get(k);
    if s != [] && volume > 0 {
      var q := if s[0].IsAON() then s[0].leaves else Min(s[0].leaves, volume);
      SoundExecution(b, loose, k, 0, price, q);
      if q == s[0].leaves { SoundExecuteChain(Hit(b, k, 0, price, q), loose, k, price, Sub64(volume, q)); }
    }
  }

  lemma SoundMatchOrder(b: Book, loose: int, o: Order)
    requires Sound(b, loose)
    ensures Sound(MatchOrder(b, o).0, loose)
    ensures Fits(o) ==> Fits(MatchOrder(b, o).1)
  {
    hide Sound;
    if o.IsWhole() {
      var k := Opposite(o.side);
      var chain := Chain(k, b.Get(k), 0, o.price, o.leaves, 0);
      SoundExecuteChain(b, loose, k, o.price, chain);
      SoundTrade(ExecuteChain(b, k, o.price, chain), loose, o, o.price, o.leaves);
    } else {
      SoundFill(b, loose, o);
      FillKeepsSum(b, o);
    }
  }

  lemma SoundMatchMarket(b: Book, loose: int, o: Order)
    requires Sound(b, loose)
    ensures Sound(MatchMarket(b, o).0, loose)
  {
    var s := b.Get(Opposite(o.side));
    if s != [] { SoundMatchOrder(b, loose, o.(price := MarketLimit(o.side, s[0].price, o.slippage))); }
  }

  lemma SoundActivateFirst(b: Book, loose: int, k: Kind)
    requires (k == BuyStops || k == SellStops) && b.Get(k) != []
    requires Sound(b, loose)
    ensures Sound(ActivateFirst(b, k), loose)
  {
    hide Sound, MatchMarket, MatchOrder, Unlink;
    var o := b.Get(k)[0];
    var b1 := Unlink(b, k, 0);
    SoundUnlink(b, loose, k, 0);
    if o.typ == Stop {
      StopActivation(b, k);
      SoundMatchMarket(b1, loose + 1, AsMarket(o));
      SoundSay(MatchMarket(b1, AsMarket(o)).0, loose + 1, Deleted(o.id));
    } else {
      var (b2, o2) := MatchOrder(b1, AsLimit(o));
      SoundMatchOrder(b1, loose + 1, AsLimit(o));
      SoundLink(b2, loose + 1, o2);
      SoundSay(b2, loose + 1, Deleted(o2.id));
    }
  }

  lemma {:induction false} SoundActivateRun(b: Book, loose: int, k: Kind, n: nat)
    requires k == BuyStops || k == SellStops
    requires Sound(b, loose) && n <= |b.Get(k)|
    ensures Sound(ActivateRun(b, k, n), loose)
    decreases n
  {
    hide Sound, ActivateFirst;
    if n > 0 {
      SoundActivateFirst(b, loose, k);
      SoundActivateRun(ActivateFirst(b, k), loose, k, n - 1);
    }
  }

  lemma SoundActivateBest(b: Book, loose: int, k: Kind)
    requires (k == BuyStops || k == SellStops) && Sound(b, loose)
    ensures Sound(ActivateBest(b, k), loose)
  {
    hide Sound;
    SoundActivateRun(b, loose, k, if Triggered(b, k) then RunLength(k, b.Get(k)) else 0);
  }

  lemma {:induction false} SoundActivateAll(b: Book, loose: int)
    requires Sound(b, loose)
    ensures Sound(ActivateAll(b), loose)
    decreases b.Stops()
  {
    hide Sound, ActivateBest, Triggered;
    if Active(b) {
      SoundActivateBest(b, loose, BuyStops);
      SoundActivateBest(ActivateBest(b, BuyStops), loose, SellStops);
      SoundActivateAll(ActivatePass(b), loose);
    }
  }

  lemma {:induction false} SoundPairLevels(b: Book, loose: int, i: nat, j: nat)
    requires Sound(b, loose) && i < |b.bids| && j < |b.asks|
    ensures Sound(PairLevels(b, i, j).0, loose)
    decreases |b.bids| - i
  {
    hide Sound, Hit, ExecuteChain, TwoSidedChain;
    var bid, ask := b.bids[i], b.asks[j];
    if bid.IsAON() || ask.IsAON() {
      var chain := TwoSidedChain(b);
      SoundExecuteChain(b, loose, Bids, bid.price, chain);
      SoundExecuteChain(ExecuteChain(b, Bids, bid.price, chain), loose, Asks, ask.price, chain);
    } else {
      SoundTradePair(b, loose, i, j);
      if NextInLevel(Bids, b.bids, i) != None && NextInLevel(Asks, b.asks, j) != None {
        SoundPairLevels(TradePair(b, i, j), loose, if bid.leaves <= ask.leaves then i else i + 1,
                        if ask.leaves <= bid.leaves then j else j + 1);
      }
    }
  }

  lemma SoundTradePair(b: Book, loose: int, i: nat, j: nat)
    requires Sound(b, loose) && i < |b.bids| && j < |b.asks|
    ensures Sound(TradePair(b, i, j), loose)
  {
    hide Sound;
    var bid, ask := b.bids[i], b.asks[j];
    if bid.leaves > ask.leaves {
      SoundExecution(b, loose, Asks, j, ask.price, ask.leaves);
      SoundExecution(Hit(b, Asks, j, ask.price, ask.leaves), loose, Bids, i, ask.price, ask.leaves);
    } else {
      SoundExecution(b, loose, Bids, i, bid.price, bid.leaves);
      SoundExecution(Hit(b, Bids, i, bid.price, bid.leaves), loose, Asks, j, bid.price, bid.leaves);
    }
  }

  lemma {:induction false} SoundCrossLoop(b: Book, loose: int)
    requires Sound(b, loose)
    ensures Sound(CrossLoop(b).0, loose)
    decreases b.Stops(), b.Size()
  {
    hide Sound, PairLevels, ActivateBest;
    if b.Crossed() {
      var (b1, blocked) := PairLevels(b, 0, 0);
      SoundPairLevels(b, loose, 0, 0);
      PairLevelsSize(b, 0, 0);
      if !blocked {
        SoundActivateBest(b1, loose, BuyStops);
        SoundActivateBest(ActivateBest(b1, BuyStops), loose, SellStops);
        SoundCrossLoop(ActivateBest(ActivateBest(b1, BuyStops), SellStops), loose);
      }
    }
  }

  lemma {:induction false} SoundMatch(b: Book, loose: int)
    requires Sound(b, loose)
    ensures Sound(Match(b), loose)
    decreases b.Stops()
  {
    hide Sound, CrossLoop, ActivateAll, Active;
    SoundCrossLoop(b, loose);
    var (b1, blocked) := CrossLoop(b);
    if !blocked && Active(b1) {
      SoundActivateAll(b1, loose);
      SoundMatch(ActivateAll(b1), loose);
    }
  }

  lemma SoundSettle(b: Book, loose: int, matching: bool)
    requires Sound(b, loose)
    ensures Sound(Settle(b, matching), loose)
  {
    hide Sound, Match;
    SoundMatch(b, loose);
    SoundTape(if matching then Match(b) else b, Settle(b, matching), loose);
  }

  // ---------- public operations

  lemma SoundInsertion(b: Book, o: Order, matching: bool, foreign: set<nat>)
    requires Sound(b, 1) && Fits(o)
    ensures Sound(Insertion(b, o, matching, foreign).0, 0)
    ensures Sound(Settle(b.Say(Deleted(o.id)), matching), 0)
  {
    hide Sound, Settle, Link;
    SoundSay(b, 1, Deleted(o.id));
    SoundLink(b, 1, o);
    SoundSettle(Link(b, o), 0, matching);
    SoundSettle(b.Say(Deleted(o.id)), 0, matching);
  }

  /** Adding an order keeps the ledger, whatever becomes of it: matched, waiting, dropped or refused
      because its id is taken. */
  lemma SoundAddOrder(b: Book, o: Order, matching: bool, foreign: set<nat>)
    requires Sound(b, 0) && Fits(o)
    ensures Sound(AddOrder(b, o, matching, foreign).0, 0)
  {
    hide Sound, Insertion, Settle, MatchMarket, MatchOrder;
    var b1 := b.Say(Added(o.id));
    SoundSay(b, 0, Added(o.id));
    SoundInsertion(b1, o, matching, foreign);
    SoundMatchMarket(b1, 1, o);
    SoundInsertion(MatchMarket(b1, o).0, o, matching, foreign);
    SoundMatchOrder(b1, 1, o);
    SoundInsertion(MatchOrder(b1, o).0, MatchOrder(b1, o).1, matching, foreign);
    SoundMatchMarket(b1, 1, AsMarket(o));
    SoundInsertion(MatchMarket(b1, AsMarket(o)).0, o, matching, foreign);
    SoundMatchOrder(b1, 1, AsLimit(o));
    SoundInsertion(MatchOrder(b1, AsLimit(o)).0, MatchOrder(b1, AsLimit(o)).1, matching, foreign);
  }

  lemma SoundReduceOrder(b: Book, k: Kind, i: nat, quantity: nat, matching: bool)
    requires Sound(b, 0) && i < |b.Get(k)|
    ensures Sound(ReduceOrder(b, k, i, quantity, matching), 0)
  {
    hide Sound, Settle;
    SoundReduce(b, 0, k, i, Min(quantity, b.Get(k)[i].leaves));
    SoundSettle(Reduce(b, k, i, Min(quantity, b.Get(k)[i].leaves)), 0, matching);
  }

  lemma SoundDeleteOrder(b: Book, k: Kind, i: nat, matching: bool)
    requires Sound(b, 0) && i < |b.Get(k)|
    ensures Sound(DeleteOrder(b, k, i, matching), 0)
  {
    hide Sound, Settle;
    SoundUnlink(b, 0, k, i);
    SoundSettle(Delete(b, k, i), 0, matching);
  }

  lemma SoundExecuteOrder(b: Book, k: Kind, i: nat, price: nat, quantity: nat, matching: bool)
    requires Sound(b, 0) && i < |b.Get(k)|
    ensures Sound(ExecuteOrder(b, k, i, price, quantity, matching), 0)
  {
    hide Sound, Settle;
    var q := Min(quantity, b.Get(k)[i].leaves);
    SoundExecution(b, 0, k, i, price, q);
    SoundSettle(Reduce(Credit(b.Trade(b.Get(k)[i], price, q), k, i, q), k, i, q), 0, matching);
  }

  lemma MatchKeepsSum(b: Book, o: Order)
    ensures MatchOrder(b, o).1.executed + MatchOrder(b, o).1.leaves == o.executed + o.leaves
  {
    hide Fill, Chain, ExecuteChain;
    FillKeepsSum(b, o);
  }

  /** Plain modification does not look at what was executed: once matched, or not, the order can be filled
      up to what it had already plus the new quantity, which stays within that quantity exactly when it had
      not traded before. */
  lemma ModifiedFitsIff(b: Book, k: Kind, i: nat, price: nat, quantity: nat, matching: bool)
    requires i < |b.Get(k)| && quantity > 0
    ensures var o, o2 := b.Get(k)[i], AfterModify(b, k, i, price, quantity, false, matching).1;
            o2.quantity == quantity && o2.executed + o2.leaves == o.executed + quantity &&
            (Fits(o2) <==> o.executed == 0)
  {
    hide MatchOrder, Unlink;
    MatchKeepsSum(Unlink(b, k, i), Modified(b.Get(k)[i], price, quantity, false));
  }

  /** Mitigation does: the order is deleted unmatched when no more is wanted than it had, and else it can be
      filled up to exactly the new quantity. */
  lemma MitigatedFits(b: Book, k: Kind, i: nat, price: nat, quantity: nat, matching: bool)
    requires i < |b.Get(k)|
    ensures var o, (b2, o2) := b.Get(k)[i], AfterModify(b, k, i, price, quantity, true, matching);
            if quantity <= o.executed then
              ModifyOrder(b, k, i, price, quantity, true, matching) ==
              Settle(Unlink(b, k, i).Say(Deleted(o.id)), matching)
            else
              o2.executed + o2.leaves == o2.quantity == quantity &&
              ModifyOrder(b, k, i, price, quantity, true, matching) ==
              Settle(if o2.leaves > 0 then Link(b2, o2) else b2.Say(Deleted(o.id)), matching)
  {
    hide MatchOrder, Unlink, Settle, Link;
    MatchKeepsSum(Unlink(b, k, i), Modified(b.Get(k)[i], price, quantity, true));
  }

  lemma SoundModifyOrder(b: Book, k: Kind, i: nat, price: nat, quantity: nat, mitigate: bool, matching: bool)
    requires Sound(b, 0) && i < |b.Get(k)| && quantity > 0
    requires mitigate || b.Get(k)[i].executed == 0
    ensures Sound(ModifyOrder(b, k, i, price, quantity, mitigate, matching), 0)
  {
    hide Sound, Settle, MatchOrder, Link, Unlink;
    var b1, o1 := Unlink(b, k, i), Modified(b.Get(k)[i], price, quantity, mitigate);
    SoundUnlink(b, 0, k, i);
    SoundMatchOrder(b1, 1, o1);
    var (b2, o2) := if o1.leaves > 0 && matching then MatchOrder(b1, o1) else (b1, o1);
    SoundSay(b2, 1, Deleted(o2.id));
    if o2.leaves > 0 { SoundLink(b2, 1, o2); }
    SoundSettle(if o2.leaves > 0 then Link(b2, o2) else b2.Say(Deleted(o2.id)), 0, matching);
  }

  /** So while matching is off ModifyOrder keeps the ledger exactly when the order has not traded before. (The
      ledger is about listed orders: with matching on, an order can be overfilled and deleted at once.) */
  lemma ModifyKeepsLedgerIff(b: Book, k: Kind, i: nat, price: nat, quantity: nat)
    requires Sound(b, 0) && i < |b.Get(k)| && quantity > 0
    ensures Sound(ModifyOrder(b, k, i, price, quantity, false, false), 0) <==> b.Get(k)[i].executed == 0
  {
    var o1 := Modified(b.Get(k)[i], price, quantity, false);
    if b.Get(k)[i].executed == 0 {
      SoundModifyOrder(b, k, i, price, quantity, false, false);
    } else {
      var k1 := KindOf(o1);
      var b1 := Unlink(b, k, i);
      var n := InsertHas(k1, b1.Get(k1), o1);
      assert ModifyOrder(b, k, i, price, quantity, false, false).Get(k1)[n] == o1;
    }
  }

  lemma {:induction false} InsertHas(k: Kind, s: seq<Order>, o: Order) returns (n: nat)
    ensures n < |Insert(k, s, o)| && Insert(k, s, o)[n] == o
  {
    if s == [] || Better(k, Key(k, o), Key(k, s[0])) {
      n := 0;
    } else {
      var m := InsertHas(k, s[1..], o);
      n := m + 1;
    }
  }

  lemma SoundReplaceOrder(b: Book, k: Kind, i: nat, newId: nat, price: nat, quantity: nat, matching: bool,
                          foreign: set<nat>)
    requires Sound(b, 0) && i < |b.Get(k)|
    ensures Sound(ReplaceOrder(b, k, i, newId, price, quantity, matching, foreign).0, 0)
  {
    hide Sound, Settle, MatchOrder, Insertion, Delete;
    var b1 := Delete(b, k, i).Say(Added(newId));
    var o1 := b.Get(k)[i].(id := newId, price := price, quantity := quantity, executed := 0, leaves := quantity);
    SoundUnlink(b, 0, k, i);
    SoundSay(Delete(b, k, i), 0, Added(newId));
    SoundMatchOrder(b1, 1, o1);
    var (b2, o2) := if matching then MatchOrder(b1, o1) else (b1, o1);
    SoundInsertion(b2, o2, matching, foreign);
  }
}
