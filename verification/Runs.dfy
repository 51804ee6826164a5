/** Whole runs of public operations on one book. */
module Runs {
  import opened Orders
  import opened PriorityList
  import opened BookSpec
  import opened Invariants
  import Ledger
  import Trades

  // Existing orders are named by their tree and position, and new ones come with the ids that are in use
  // in other books.
  datatype Op = Add(order: Order, foreign: set<nat>)
              | Cut(k: Kind, i: nat, quantity: nat)
              | Cancel(k: Kind, i: nat)
              | Execute(k: Kind, i: nat, price: nat, quantity: nat)
              | Modify(k: Kind, i: nat, price: nat, quantity: nat, mitigate: bool)
              | Replace(k: Kind, i: nat, newId: nat, price: nat, quantity: nat, foreign: set<nat>)
              | Uncross

  // An operation that the public interface refuses at once changes nothing.
  function Step(b: Book, op: Op, matching: bool): Book {
    match op
    case Add(o, foreign) => if o.Validate() == OK then AddOrder(b, o, matching, foreign).0 else b
    case Cut(k, i, q) => if q > 0 && i < |b.Get(k)| then ReduceOrder(b, k, i, q, matching) else b
    case Cancel(k, i) => if i < |b.Get(k)| then DeleteOrder(b, k, i, matching) else b
    case Execute(k, i, p, q) => if q > 0 && i < |b.Get(k)| then ExecuteOrder(b, k, i, p, q, matching) else b
    case Modify(k, i, p, q, mitigate) =>
      if q > 0 && i < |b.Get(k)| then ModifyOrder(b, k, i, p, q, mitigate, matching) else b
    case Replace(k, i, id, p, q, foreign) =>
      if q > 0 && id > 0 && (k == Bids || k == Asks) && i < |b.Get(k)| then
        ReplaceOrder(b, k, i, id, p, q, matching, foreign).0
      else b
    case Uncross => Match(b)
  }

  function Run(ops: seq<Op>, matching: bool): Book {
    if ops == [] then EMPTY else Step(Run(ops[..|ops| - 1], matching), ops[|ops| - 1], matching)
  }

  // ---------- one operation with automatic matching

  lemma GoodSay(b: Book, m: Mode, e: Event)
    requires Good(b, m)
    ensures Good(b.Say(e), m)
  {
    SameLists(b, b.Say(e), m);
  }

  lemma GoodInsertion(b: Book, o: Order, foreign: set<nat>)
    requires Good(b, Quoted)
    requires o.leaves > 0 ==> Resting(KindOf(o), o) && !o.IsAON() && (o.typ == Limit ==> NoMatch(b, o))
    ensures Good(Settle(b.Say(Deleted(o.id)), true), Quoted)
    ensures o.leaves > 0 ==> Good(Settle(Link(b, o), true), Quoted) && Good(Insertion(b, o, true, foreign).0, Quoted)
  {
    hide Good, Settle, Link, NoMatch, Lists;
    GoodSay(b, Quoted, Deleted(o.id));
    GoodSettle(b.Say(Deleted(o.id)), true);
    if o.leaves > 0 {
      GoodLink(b, Quoted, o);
      GoodSettle(Link(b, o), true);
    }
  }

  lemma GoodPlace(b: Book, o: Order, foreign: set<nat>)
    requires Good(b, Quoted) && o.typ == Limit && o.leaves > 0 && !o.IsAON()
    ensures var (b', o') := MatchOrder(b, o); Good(Place(b', o', true, foreign).0, Quoted)
  {
    hide Good, Settle, Link, NoMatch, MatchOrder, Insertion;
    GoodMatchOrder(b, Quoted, o);
    var (b', o') := MatchOrder(b, o);
    if o'.Rests() {
      GoodInsertion(b', o', foreign);
    } else {
      GoodSay(b', Quoted, Deleted(o'.id));
      GoodSettle(b'.Say(Deleted(o'.id)), true);
    }
  }

  lemma GoodAddOrder(b: Book, o: Order, foreign: set<nat>)
    requires Good(b, Quoted) && o.leaves > 0 && !o.IsAON()
    ensures Good(AddOrder(b, o, true, foreign).0, Quoted)
  {
    hide Good, Settle, MatchMarket, MatchOrder, Place, Insertion;
    var b1 := b.Say(Added(o.id));
    GoodSay(b, Quoted, Added(o.id));
    match o.typ {
      case Market =>
        GoodMatchMarket(b1, Quoted, o);
        GoodSay(MatchMarket(b1, o).0, Quoted, Deleted(o.id));
        GoodSettle(MatchMarket(b1, o).0.Say(Deleted(o.id)), true);
      case Limit =>
        GoodPlace(b1, o, foreign);
      case Stop =>
        GoodMatchMarket(b1, Quoted, AsMarket(o));
        GoodSay(MatchMarket(b1, AsMarket(o)).0, Quoted, Deleted(o.id));
        GoodSettle(MatchMarket(b1, AsMarket(o)).0.Say(Deleted(o.id)), true);
        GoodInsertion(b1, o, foreign);
      case StopLimit =>
        GoodPlace(b1, AsLimit(o), foreign);
        GoodInsertion(b1, o, foreign);
    }
  }

  lemma GoodModifyOrder(b: Book, k: Kind, i: nat, price: nat, quantity: nat, mitigate: bool)
    requires Good(b, Quoted) && i < |b.Get(k)|
    ensures Good(ModifyOrder(b, k, i, price, quantity, mitigate, true), Quoted)
  {
    hide Good, Settle, MatchOrder, Insertion, Unlink, Link, NoMatch;
    var b1, o1 := Unlink(b, k, i), Modified(b.Get(k)[i], price, quantity, mitigate);
    GoodUnlink(b, Quoted, k, i);
    if o1.leaves > 0 {
      GoodMatchOrder(b1, Quoted, o1);
      GoodInsertion(MatchOrder(b1, o1).0, MatchOrder(b1, o1).1, {});
    } else {
      GoodInsertion(b1, o1, {});
    }
  }

  lemma GoodReplaceOrder(b: Book, k: Kind, i: nat, newId: nat, price: nat, quantity: nat, foreign: set<nat>)
    requires Good(b, Quoted) && (k == Bids || k == Asks) && i < |b.Get(k)| && quantity > 0
    ensures Good(ReplaceOrder(b, k, i, newId, price, quantity, true, foreign).0, Quoted)
  {
    hide Good, Settle, MatchOrder, Insertion, Unlink, NoMatch;
    var b1 := Delete(b, k, i).Say(Added(newId));
    var o1 := b.Get(k)[i].(id := newId, price := price, quantity := quantity, executed := 0, leaves := quantity);
    GoodUnlink(b, Quoted, k, i);
    GoodSay(Unlink(b, k, i), Quoted, Deleted(b.Get(k)[i].id));
    GoodSay(Delete(b, k, i), Quoted, Added(newId));
    GoodMatchOrder(b1, Quoted, o1);
    GoodInsertion(MatchOrder(b1, o1).0, MatchOrder(b1, o1).1, foreign);
  }

  lemma GoodStep(b: Book, op: Op)
    requires Good(b, Quoted) && (op.Add? ==> !op.order.IsAON())
    ensures Good(Step(b, op, true), Quoted)
  {
    hide Good, Settle, AddOrder, ModifyOrder, ReplaceOrder, Reduce, Unlink, Credit;
    match op {
      case Add(o, foreign) => if o.Validate() == OK { GoodAddOrder(b, o, foreign); }
      case Cut(k, i, q) =>
        if i < |b.Get(k)| {
          GoodReduce(b, Quoted, k, i, Min(q, b.Get(k)[i].leaves));
          GoodSettle(Reduce(b, k, i, Min(q, b.Get(k)[i].leaves)), true);
        }
      case Cancel(k, i) =>
        if i < |b.Get(k)| {
          GoodUnlink(b, Quoted, k, i);
          GoodSay(Unlink(b, k, i), Quoted, Deleted(b.Get(k)[i].id));
          GoodSettle(Delete(b, k, i), true);
        }
      case Execute(k, i, p, q) =>
        if i < |b.Get(k)| { GoodExecuteOrder(b, k, i, p, q); }
      case Modify(k, i, p, q, mitigate) =>
        if i < |b.Get(k)| { GoodModifyOrder(b, k, i, p, q, mitigate); }
      case Replace(k, i, id, p, q, foreign) =>
        if q > 0 && (k == Bids || k == Asks) && i < |b.Get(k)| { GoodReplaceOrder(b, k, i, id, p, q, foreign); }
      case Uncross => GoodMatch(b, Quoted);
    }
  }

  lemma GoodExecuteOrder(b: Book, k: Kind, i: nat, price: nat, quantity: nat)
    requires Good(b, Quoted) && i < |b.Get(k)|
    ensures Good(ExecuteOrder(b, k, i, price, quantity, true), Quoted)
  {
    hide Good, Settle;
    var q := Min(quantity, b.Get(k)[i].leaves);
    GoodHit(b, Quoted, k, i, price, q);
    var c := Reduce(Credit(b.Trade(b.Get(k)[i], price, q), k, i, q), k, i, q);
    SameLists(Hit(b, k, i, price, q), c, Quoted);
    GoodSettle(c, true);
  }

  /** Every run with automatic matching and without 'All-Or-None' orders, from the empty book: all
      lists stay in price-time order and best bid stays below best ask, after every operation. */
  lemma {:induction false} RunStaysUncrossed(ops: seq<Op>)
    requires forall op :: op in ops && op.Add? ==> !op.order.IsAON()
    ensures Good(Run(ops, true), Quoted) && !Run(ops, true).Crossed()
  {
    hide Step;
    if ops == [] {
      EmptyGood(Quoted);
    } else {
      RunStaysUncrossed(ops[..|ops| - 1]);
      GoodStep(Run(ops[..|ops| - 1], true), ops[|ops| - 1]);
    }
  }

  // ---------- ledgers of whole runs

  predicate KeepsLedger(op: Op) {
    match op
    case Add(o, _) => Ledger.Fits(o)
    case Modify(_, _, _, _, mitigate) => mitigate
    case _ => true
  }

  lemma SoundStep(b: Book, op: Op, matching: bool)
    requires Ledger.Sound(b, 0) && KeepsLedger(op)
    ensures Ledger.Sound(Step(b, op, matching), 0)
  {
    hide Ledger.Sound, AddOrder, ReduceOrder, DeleteOrder, ExecuteOrder, ModifyOrder, ReplaceOrder;
    match op {
      case Add(o, foreign) => Ledger.SoundAddOrder(b, o, matching, foreign);
      case Cut(k, i, q) => if i < |b.Get(k)| { Ledger.SoundReduceOrder(b, k, i, q, matching); }
      case Cancel(k, i) => if i < |b.Get(k)| { Ledger.SoundDeleteOrder(b, k, i, matching); }
      case Execute(k, i, p, q) => if i < |b.Get(k)| { Ledger.SoundExecuteOrder(b, k, i, p, q, matching); }
      case Modify(k, i, p, q, mitigate) =>
        if q > 0 && i < |b.Get(k)| { Ledger.SoundModifyOrder(b, k, i, p, q, mitigate, matching); }
      case Replace(k, i, id, p, q, foreign) =>
        if i < |b.Get(k)| { Ledger.SoundReplaceOrder(b, k, i, id, p, q, matching, foreign); }
      case Uncross => Ledger.SoundMatch(b, 0);
    }
  }

  /** Every run, with matching on or off and with any kind of order, but without plain ModifyOrder:
      orders reported as added and not as deleted are exactly the listed ones, and each of them keeps
      executed and leaves quantity together within its quantity. */
  lemma {:induction false} RunKeepsLedger(ops: seq<Op>, matching: bool)
    requires forall op :: op in ops ==> KeepsLedger(op)
    ensures Ledger.Sound(Run(ops, matching), 0)
  {
    hide Step, KeepsLedger;
    if ops != [] {
      RunKeepsLedger(ops[..|ops| - 1], matching);
      SoundStep(Run(ops[..|ops| - 1], matching), ops[|ops| - 1], matching);
    }
  }

  // ---------- trades of whole runs

  lemma HonestSettle(b: Book)
    requires Good(b, Quoted) && Trades.Honest(b, 0)
    ensures Trades.Honest(Settle(b, true), 0)
  {
    Trades.HonestMatch(b, Quoted, 0);
  }

  lemma HonestInsertion(b: Book, o: Order, foreign: set<nat>)
    requires Good(b, Quoted) && Trades.Honest(b, 0)
    requires o.leaves > 0 ==> Resting(KindOf(o), o) && !o.IsAON() && (o.typ == Limit ==> NoMatch(b, o))
    ensures Trades.Honest(Settle(b.Say(Deleted(o.id)), true), 0)
    ensures o.leaves > 0 ==>
              Trades.Honest(Settle(Link(b, o), true), 0) && Trades.Honest(Insertion(b, o, true, foreign).0, 0)
  {
    hide Good, Settle, NoMatch, Lists, Trades.Honest;
    Trades.HonestSay(b, 0, Deleted(o.id));
    GoodSay(b, Quoted, Deleted(o.id));
    HonestSettle(b.Say(Deleted(o.id)));
    if o.leaves > 0 {
      Trades.HonestTape(b, Link(b, o), 0);
      GoodLink(b, Quoted, o);
      HonestSettle(Link(b, o));
    }
  }

  lemma HonestDrop(b: Book, id: nat)
    requires Good(b, Quoted) && Trades.Honest(b, 0)
    ensures Trades.Honest(Settle(b.Say(Deleted(id)), true), 0)
  {
    hide Good, Settle, Trades.Honest;
    Trades.HonestSay(b, 0, Deleted(id));
    GoodSay(b, Quoted, Deleted(id));
    HonestSettle(b.Say(Deleted(id)));
  }

  lemma HonestPlace(b: Book, o: Order, foreign: set<nat>)
    requires Good(b, Quoted) && Trades.Honest(b, 0) && o.typ == Limit && o.leaves > 0 && !o.IsAON()
    ensures var (b', o') := MatchOrder(b, o); Trades.Honest(Place(b', o', true, foreign).0, 0)
  {
    hide Good, Settle, Link, NoMatch, MatchOrder, Insertion, Trades.Honest;
    GoodMatchOrder(b, Quoted, o);
    Trades.HonestMatchOrder(b, Quoted, 0, o);
    var (b', o') := MatchOrder(b, o);
    if o'.Rests() { HonestInsertion(b', o', foreign); } else { HonestDrop(b', o'.id); }
  }

  lemma HonestAddOrder(b: Book, o: Order, foreign: set<nat>)
    requires Good(b, Quoted) && Trades.Honest(b, 0) && o.leaves > 0 && !o.IsAON()
    ensures Trades.Honest(AddOrder(b, o, true, foreign).0, 0)
  {
    hide Good, Settle, MatchMarket, MatchOrder, Place, Insertion, Trades.Honest;
    var b1 := b.Say(Added(o.id));
    GoodSay(b, Quoted, Added(o.id));
    Trades.HonestSay(b, 0, Added(o.id));
    match o.typ {
      case Market =>
        GoodMatchMarket(b1, Quoted, o);
        Trades.HonestMatchMarket(b1, Quoted, 0, o);
        HonestDrop(MatchMarket(b1, o).0, o.id);
      case Limit =>
        HonestPlace(b1, o, foreign);
      case Stop =>
        GoodMatchMarket(b1, Quoted, AsMarket(o));
        Trades.HonestMatchMarket(b1, Quoted, 0, AsMarket(o));
        HonestDrop(MatchMarket(b1, AsMarket(o)).0, o.id);
        HonestInsertion(b1, o, foreign);
      case StopLimit =>
        HonestPlace(b1, AsLimit(o), foreign);
        HonestInsertion(b1, o, foreign);
    }
  }

  lemma HonestModifyOrder(b: Book, k: Kind, i: nat, price: nat, quantity: nat, mitigate: bool)
    requires Good(b, Quoted) && Trades.Honest(b, 0) && i < |b.Get(k)|
    ensures Trades.Honest(ModifyOrder(b, k, i, price, quantity, mitigate, true), 0)
  {
    hide Good, Settle, MatchOrder, Insertion, Link, NoMatch, Trades.Honest;
    var b1, o1 := Unlink(b, k, i), Modified(b.Get(k)[i], price, quantity, mitigate);
    GoodUnlink(b, Quoted, k, i);
    Trades.HonestTape(b, b1, 0);
    if o1.leaves > 0 {
      GoodMatchOrder(b1, Quoted, o1);
      Trades.HonestMatchOrder(b1, Quoted, 0, o1);
      HonestInsertion(MatchOrder(b1, o1).0, MatchOrder(b1, o1).1, {});
    } else {
      HonestInsertion(b1, o1, {});
    }
  }

  lemma HonestReplaceOrder(b: Book, k: Kind, i: nat, newId: nat, price: nat, quantity: nat, foreign: set<nat>)
    requires Good(b, Quoted) && Trades.Honest(b, 0) && (k == Bids || k == Asks) && i < |b.Get(k)| && quantity > 0
    ensures Trades.Honest(ReplaceOrder(b, k, i, newId, price, quantity, true, foreign).0, 0)
  {
    hide Good, Settle, MatchOrder, Insertion, NoMatch, Trades.Honest;
    var b1 := Delete(b, k, i).Say(Added(newId));
    var o1 := b.Get(k)[i].(id := newId, price := price, quantity := quantity, executed := 0, leaves := quantity);
    GoodUnlink(b, Quoted, k, i);
    GoodSay(Unlink(b, k, i), Quoted, Deleted(b.Get(k)[i].id));
    GoodSay(Delete(b, k, i), Quoted, Added(newId));
    Trades.HonestTape(b, Unlink(b, k, i), 0);
    Trades.HonestSay(Unlink(b, k, i), 0, Deleted(b.Get(k)[i].id));
    Trades.HonestSay(Delete(b, k, i), 0, Added(newId));
    GoodMatchOrder(b1, Quoted, o1);
    Trades.HonestMatchOrder(b1, Quoted, 0, o1);
    HonestInsertion(MatchOrder(b1, o1).0, MatchOrder(b1, o1).1, foreign);
  }

  lemma HonestStep(b: Book, op: Op)
    requires Good(b, Quoted) && Trades.Honest(b, 0) && (op.Add? ==> !op.order.IsAON()) && !op.Execute?
    ensures Trades.Honest(Step(b, op, true), 0)
  {
    hide Good, Settle, AddOrder, ModifyOrder, ReplaceOrder, Trades.Honest;
    match op {
      case Add(o, foreign) => if o.Validate() == OK { HonestAddOrder(b, o, foreign); }
      case Cut(k, i, q) =>
        if i < |b.Get(k)| {
          var n := Min(q, b.Get(k)[i].leaves);
          GoodReduce(b, Quoted, k, i, n);
          Trades.HonestSay(b, 0, Deleted(b.Get(k)[i].id));
          Trades.HonestTape(if n == b.Get(k)[i].leaves then b.Say(Deleted(b.Get(k)[i].id)) else b,
                            Reduce(b, k, i, n), 0);
          HonestSettle(Reduce(b, k, i, n));
        }
      case Cancel(k, i) =>
        if i < |b.Get(k)| {
          GoodUnlink(b, Quoted, k, i);
          Trades.HonestTape(b, Unlink(b, k, i), 0);
          HonestDrop(Unlink(b, k, i), b.Get(k)[i].id);
        }
      case Modify(k, i, p, q, mitigate) =>
        if i < |b.Get(k)| { HonestModifyOrder(b, k, i, p, q, mitigate); }
      case Replace(k, i, id, p, q, foreign) =>
        if q > 0 && (k == Bids || k == Asks) && i < |b.Get(k)| { HonestReplaceOrder(b, k, i, id, p, q, foreign); }
      case Uncross => Trades.HonestMatch(b, Quoted, 0);
    }
  }

  /** In every such run in which nobody reports executions from outside, what matching reports as
      bought and as sold is the same, and every order trades at a price its limit accepts. */
  lemma {:induction false} RunIsHonest(ops: seq<Op>)
    requires forall op :: op in ops ==> (op.Add? ==> !op.order.IsAON()) && !op.Execute?
    ensures Trades.Honest(Run(ops, true), 0)
  {
    hide Step;
    if ops != [] {
      var before := ops[..|ops| - 1];
      RunIsHonest(before);
      RunStaysUncrossed(before);
      HonestStep(Run(before, true), ops[|ops| - 1]);
    }
  }
}
