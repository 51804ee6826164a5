/** The market manager: the re-entrant matching engine over order nodes, level pointers and cached
    sums. Every method is proved to compute what `BookSpec` says on flat lists. */
module MarketManagers {
  import opened Options
  import opened Orders
  import opened PriorityList
  import opened IdIndex
  import opened Invariants
  import opened OrderBooks
  import BookSpec

  class MarketManager {
    var orders: map<nat, Ref>
    var books: map<nat, OrderBook>
    var symbols: set<nat>
    var matching: bool

    // The book is one of this manager's, its ids are indexed, and it can be matched automatically if it is to be.
    ghost predicate Ok(book: OrderBook)
      reads this, book
    {
      book.symbol in books && books[book.symbol] == book && book.Valid() &&
      Indexed(orders, book.symbol, book.View()) && Good(book.View(), ModeOf(matching))
    }

    // Every book can be worked on, and every node is linked into one of them.
    ghost predicate Valid()
      reads this, books.Values
    {
      (forall s :: s in books ==> books[s].symbol == s && Ok(books[s])) &&
      (forall id :: id in orders ==> orders[id].place.Some? && orders[id].symbol in books)
    }

    // An operation on one book keeps all of them valid.
    twostate lemma Restore(book: OrderBook)
      requires old(Valid()) && book.symbol in books && books[book.symbol] == book
      requires books == old(books) && matching == old(matching)
      requires Ok(book) && Kept(old(orders), orders, book.symbol)
      requires forall s :: s in books && s != book.symbol ==> unchanged(books[s])
      ensures Valid()
    {
      forall s | s in books && s != book.symbol ensures Ok(books[s]) {
        IndexedElsewhere(old(orders), orders, book.symbol, s, books[s].View());
      }
    }

    // The order is listed in tree k of the book.
    ghost predicate Listed(book: OrderBook, k: Kind, id: nat)
      reads this
    {
      id in orders && orders[id] == Ref(book.symbol, Some(k))
    }

    // The node of an order that has been taken out of its book.
    ghost predicate Loose(book: OrderBook, id: nat)
      reads this
    {
      id in orders && orders[id] == Ref(book.symbol, None)
    }

    lemma ListedIn(book: OrderBook, k: Kind, id: nat)
      requires Ok(book) && Listed(book, k, id)
      ensures Has(book.View().Get(k), id)
    {
      ListedAt(orders, book.symbol, book.View(), k, id);
    }

    // The order at position i of a tree has a node, and is found at that position.
    lemma NodeOf(book: OrderBook, k: Kind, i: nat)
      requires Ok(book) && i < |book.View().Get(k)|
      ensures var id := book.View().Get(k)[i].id;
              Listed(book, k, id) && Has(book.View().Get(k), id) && IndexOf(book.View().Get(k), id) == i &&
              book.Node(k, id) == book.View().Get(k)[i] &&
              book.NextOrder(k, id) == NextInLevel(k, book.View().Get(k), i)
    {
      PositionOf(orders, book.symbol, book.View(), k, i);
    }

    // A report or a price update changes no list.
    lemma SameBook(book: OrderBook, b: BookSpec.Book)
      requires book.symbol in books && books[book.symbol] == book && book.Valid()
      requires Indexed(orders, book.symbol, b) && Good(b, ModeOf(matching)) &&
               book.View() == b.(tape := book.View().tape)
      ensures Ok(book)
    {
      SameIndex(orders, book.symbol, b, book.View());
      SameLists(b, book.View(), ModeOf(matching));
    }

    // ---------- reducing and deleting; both match again unless matching is off

    method ReduceNode(book: OrderBook, k: Kind, id: nat, quantity: nat, internal: bool)
      requires Ok(book) && Listed(book, k, id)
      requires Has(book.View().Get(k), id)
      modifies this`orders, book
      ensures Ok(book) && Kept(old(orders), orders, book.symbol)
      ensures var b, i := old(book.View()), IndexOf(old(book.View()).Get(k), id);
              book.View() == if internal then BookSpec.Reduce(b, k, i, Min(quantity, b.Get(k)[i].leaves)).Reset()
                             else BookSpec.ReduceOrder(b, k, i, quantity, matching)
      decreases if internal then 1 else 9
    {
      hide Indexed, Good, Kept, OrderBook.Valid, OrderBook.View, Put, Sorted, OfKind;
      ghost var b, i := book.View(), IndexOf(book.View().Get(k), id);
      var o := book.Node(k, id);
      var q := Min(quantity, o.leaves);
      var o' := o.(leaves := o.leaves - q);
      GoodReduce(b, ModeOf(matching), k, i, q);
      book.ViewOk(k);
      IndexedPut(orders, book.symbol, b, k, i, o');
      if o'.leaves > 0 {
        book.ReduceOrder(k, o', q, o.Hidden() - o'.Hidden(), o.Visible() - o'.Visible());
      } else {
        book.Report(Deleted(id));
        book.ReduceOrder(k, o', q, o.Hidden() - o'.Hidden(), o.Visible() - o'.Visible());
        orders := orders - {id};
      }
      ghost var m := orders;
      assert book.View() == BookSpec.Reduce(b, k, i, q);
      SameIndex(orders, book.symbol, b.Set(k, Put(b.Get(k), i, o')), book.View());
      Rematch(book, internal);
      KeptTransitive(old(orders), m, orders, book.symbol);
    }

    method DeleteNode(book: OrderBook, k: Kind, id: nat, internal: bool)
      requires Ok(book) && Listed(book, k, id)
      requires Has(book.View().Get(k), id)
      modifies this`orders, book
      ensures Ok(book) && Kept(old(orders), orders, book.symbol)
      ensures var b, i := old(book.View()), IndexOf(old(book.View()).Get(k), id);
              book.View() ==
              if internal then BookSpec.Delete(b, k, i).Reset() else BookSpec.DeleteOrder(b, k, i, matching)
      decreases if internal then 1 else 9
    {
      hide Indexed, Good, Kept, OrderBook.Valid, OrderBook.View;
      ghost var b, i := book.View(), IndexOf(book.View().Get(k), id);
      GoodReduce(b, ModeOf(matching), k, i, b.Get(k)[i].leaves);
      book.ViewOk(k);
      IndexedUnlink(orders, book.symbol, b, k, i);
      book.DeleteOrder(k, id);
      book.Report(Deleted(id));
      orders := orders - {id};
      ghost var m := orders;
      assert book.View() == BookSpec.Delete(b, k, i);
      SameIndex(orders, book.symbol, BookSpec.Unlink(b, k, i), book.View());
      Rematch(book, internal);
      KeptTransitive(old(orders), m, orders, book.symbol);
    }

    // The end of every operation: automatic matching, and the matching prices are reset.
    method Rematch(book: OrderBook, internal: bool)
      requires Ok(book)
      modifies this`orders, book
      ensures Ok(book) && Kept(old(orders), orders, book.symbol)
      ensures book.View() == if internal then old(book.View()).Reset() else BookSpec.Settle(old(book.View()), matching)
      decreases if internal then 0 else 8, 4
    {
      hide Indexed, Good, Kept, OrderBook.Valid, OrderBook.View;
      KeptSelf(orders, book.symbol);
      if matching {
        Match(book, internal);
      }
      ghost var b := book.View();
      book.ResetMatchingPrice();
      SameBook(book, b);
    }

    // ---------- execution of resting orders

    // Reports the trade, adds to the executed quantity and reduces the order in its book.
    method HitNode(book: OrderBook, k: Kind, id: nat, price: nat, quantity: nat)
      requires Ok(book) && Listed(book, k, id)
      requires Has(book.View().Get(k), id) && quantity <= Find(book.View().Get(k), id).leaves
      modifies this`orders, book
      ensures Ok(book) && Kept(old(orders), orders, book.symbol)
      ensures book.View() == BookSpec.Hit(old(book.View()), k, IndexOf(old(book.View()).Get(k), id), price, quantity)
      decreases 2
    {
      hide Indexed, Good, Kept, OrderBook.Valid, OrderBook.View;
      ghost var b, i := book.View(), IndexOf(book.View().Get(k), id);
      ReportAndCredit(book, k, id, price, quantity);
      NodeOf(book, k, i);
      ReduceNode(book, k, id, quantity, true);
    }

    // The same for an order that trades all it has and is deleted.
    method TakeNode(book: OrderBook, k: Kind, id: nat, price: nat)
      requires Ok(book) && Listed(book, k, id)
      requires Has(book.View().Get(k), id)
      modifies this`orders, book
      ensures Ok(book) && Kept(old(orders), orders, book.symbol)
      ensures var b, i := old(book.View()), IndexOf(old(book.View()).Get(k), id);
              book.View() == BookSpec.Hit(b, k, i, price, b.Get(k)[i].leaves)
      decreases 2
    {
      hide Indexed, Good, Kept, OrderBook.Valid, OrderBook.View;
      ghost var b, i := book.View(), IndexOf(book.View().Get(k), id);
      BookSpec.DeleteIsHit(b, k, i, price);
      ReportAndCredit(book, k, id, price, book.Node(k, id).leaves);
      NodeOf(book, k, i);
      DeleteNode(book, k, id, true);
    }

    method ReportAndCredit(book: OrderBook, k: Kind, id: nat, price: nat, quantity: nat)
      requires Ok(book) && Listed(book, k, id)
      requires Has(book.View().Get(k), id)
      modifies book
      ensures Ok(book)
      ensures var b, i := old(book.View()), IndexOf(old(book.View()).Get(k), id);
              book.View() == BookSpec.Credit(b.Trade(b.Get(k)[i], price, quantity), k, i, quantity) &&
              i < |book.View().Get(k)| && book.View().Get(k)[i].id == id
    {
      hide Indexed, Good, Kept, OrderBook.Valid, OrderBook.View;
      ghost var b, i := book.View(), IndexOf(book.View().Get(k), id);
      book.ReportTrade(book.Node(k, id), price, quantity);
      ghost var b1 := book.View();
      SameBook(book, b);
      var o := book.Node(k, id);
      GoodCredit(b1, ModeOf(matching), k, i, quantity);
      book.ViewOk(k);
      IndexedPut(orders, book.symbol, b1, k, i, o.(executed := o.executed + quantity));
      book.IncreaseExecuted(k, id, quantity);
    }

    // ---------- an incoming order

    method MatchMarket(book: OrderBook, o: Order) returns (r: Order)
      requires Ok(book) && o.leaves > 0 && (matching ==> !o.IsAON())
      modifies this`orders, book
      ensures Ok(book) && Kept(old(orders), orders, book.symbol)
      ensures (book.View(), r) == BookSpec.MatchMarket(old(book.View()), o)
      decreases 5
    {
      hide Indexed, Good, Kept, OrderBook.Valid, OrderBook.View;
      KeptSelf(orders, book.symbol);
      var best := book.BestLevel(Opposite(o.side));
      if best == None {
        return o;
      }
      var limit := best.value;
      if o.side == Buy {
        if limit > Sub64(ORDER_INT_MAX, o.slippage) {
          limit := ORDER_INT_MAX;
        } else {
          limit := Add64(limit, o.slippage);
        }
      } else {
        if limit < Add64(ORDER_INT_MAX, o.slippage) {
          limit := ORDER_INT_MAX;
        } else {
          limit := Sub64(limit, o.slippage);
        }
      }
      r := MatchOrder(book, o.(price := limit));
    }

    method MatchOrder(book: OrderBook, o: Order) returns (r: Order)
      requires Ok(book) && o.leaves > 0 && (matching ==> !o.IsAON())
      modifies this`orders, book
      ensures Ok(book) && Kept(old(orders), orders, book.symbol)
      ensures (book.View(), r) == BookSpec.MatchOrder(old(book.View()), o)
      decreases 4, 1
    {
      hide Indexed, Good, Kept, OrderBook.Valid, OrderBook.View, BookSpec.MatchOrder;
      KeptSelf(orders, book.symbol);
      r := o;
      var k := Opposite(o.side);
      ghost var b0 := book.View();
      var level := book.BestLevel(k);
      while level.Some?
        invariant Ok(book) && Kept(old(orders), orders, book.symbol)
        invariant level == book.BestLevel(k)
        invariant r.leaves > 0 && r == o.(executed := r.executed, leaves := r.leaves)
        invariant BookSpec.MatchOrder(b0, o) == BookSpec.MatchOrder(book.View(), r)
        decreases |book.View().Get(k)|
      {
        if !Accepts(o.side, r.price, level.value) {
          BookSpec.MatchStops(book.View(), r);
          return;
        }
        ghost var m := orders;
        if r.IsWhole() {
          r := MatchWhole(book, k, level.value, r);
          KeptTransitive(old(orders), m, orders, book.symbol);
          return;
        }
        var done;
        r, done := MatchLevel(book, k, level.value, r);
        KeptTransitive(old(orders), m, orders, book.symbol);
        if done {
          return;
        }
        level := book.BestLevel(k);
      }
      BookSpec.MatchStops(book.View(), r);
    }

    // The orders of the best level, until the incoming order is filled or refused.
    method MatchLevel(book: OrderBook, k: Kind, level: nat, o: Order) returns (r: Order, done: bool)
      requires Ok(book) && o.leaves > 0 && (matching ==> !o.IsAON()) && !o.IsWhole()
      requires k == Opposite(o.side) && book.BestLevel(k) == Some(level) && Accepts(o.side, o.price, level)
      modifies this`orders, book
      ensures Ok(book) && Kept(old(orders), orders, book.symbol)
      ensures BookSpec.MatchOrder(old(book.View()), o) ==
              if done then (book.View(), r) else BookSpec.MatchOrder(book.View(), r)
      ensures !done ==> r.leaves > 0 && r == o.(executed := r.executed, leaves := r.leaves)
      ensures !done ==> |book.View().Get(k)| < |old(book.View()).Get(k)|
      decreases 4, 0
    {
      hide Indexed, Good, Kept, OrderBook.Valid, OrderBook.View, BookSpec.MatchOrder, BookSpec.Hit, Sorted, ListOk,
           Queue;
      KeptSelf(orders, book.symbol);
      r, done := o, true;
      ghost var b0 := book.View();
      book.ViewOk(k);
      FirstOfList(k, b0.Get(k));
      var executing := Some(book.OrderList(k, level)[0].id);
      while executing.Some?
        invariant Ok(book) && Kept(old(orders), orders, book.symbol)
        invariant r.leaves > 0 && r == o.(executed := r.executed, leaves := r.leaves)
        invariant BookSpec.MatchOrder(b0, o) == BookSpec.MatchOrder(book.View(), r)
        invariant executing.Some? ==>
            book.View().Get(k) != [] && book.View().Get(k)[0].id == executing.value &&
            Accepts(o.side, r.price, book.View().Get(k)[0].price)
        invariant |book.View().Get(k)| <= |b0.Get(k)| && (executing.None? ==> |book.View().Get(k)| < |b0.Get(k)|)
        decreases |book.View().Get(k)|
      {
        ghost var b := book.View();
        NodeOf(book, k, 0);
        var id := executing.value;
        var e := book.Node(k, id);
        var next := book.NextOrder(k, id);
        var quantity := Min(e.leaves, r.leaves);
        if e.IsAON() && e.leaves > r.leaves {
          BookSpec.MatchStops(b, r);
          return;
        }
        BookSpec.MatchStep(b, r);
        ghost var m := orders;
        HitNode(book, k, id, e.price, quantity);
        KeptTransitive(old(orders), m, orders, book.symbol);
        ghost var b1 := book.View();
        book.ReportTrade(r, e.price, quantity);
        SameBook(book, b1);
        r := r.(executed := r.executed + quantity, leaves := r.leaves - quantity);
        if r.leaves == 0 {
          return;
        }
        executing := next;
      }
      done := false;
    }

    // An order that is filled entirely or not at all.
    method MatchWhole(book: OrderBook, k: Kind, level: nat, o: Order) returns (r: Order)
      requires Ok(book) && o.leaves > 0 && o.IsWhole()
      requires k == Opposite(o.side) && book.BestLevel(k) == Some(level)
      modifies this`orders, book
      ensures Ok(book) && Kept(old(orders), orders, book.symbol)
      ensures (book.View(), r) == BookSpec.MatchOrder(old(book.View()), o)
      decreases 4, 0
    {
      hide Indexed, Good, Kept, OrderBook.Valid, OrderBook.View;
      KeptSelf(orders, book.symbol);
      r := o;
      var chain := CalculateMatchingChain(book, k, level, r.price, r.leaves);
      if chain == 0 {
        return;
      }
      ExecuteMatchingChain(book, k, level, r.price, chain);
      ghost var b := book.View();
      book.ReportTrade(r, r.price, r.leaves);
      SameBook(book, b);
      r := r.(executed := r.executed + r.leaves, leaves := 0);
    }

    // ---------- 'Fill-Or-Kill' and 'All-Or-None' orders

    method CalculateMatchingChain(book: OrderBook, k: Kind, level: nat, price: nat, volume: nat) returns (chain: nat)
      requires Ok(book) && (k == Bids || k == Asks) && book.BestLevel(k) == Some(level)
      ensures chain == BookSpec.Chain(k, book.View().Get(k), 0, price, volume, 0)
    {
      hide Indexed, Good, Kept, OrderBook.Valid, OrderBook.View, Queue, NextPrice;
      ghost var s := book.View().Get(k);
      book.ViewOk(k);
      var current := Some(level);
      var available: nat := 0;
      ghost var n := 0;
      while current.Some?
        invariant n <= |s| && available <= volume
        invariant BookSpec.Chain(k, s, 0, price, volume, 0) == BookSpec.Chain(k, s, n, price, volume, available)
        invariant current == if n < |s| then Some(Key(k, s[n])) else None
        invariant 0 < n < |s| ==> Key(k, s[n - 1]) != Key(k, s[n])
        decreases |s| - n
      {
        if if IsBidLevel(k) then price > current.value else price < current.value {
          return 0;
        }
        var found: Option<nat>;
        found, available, n := ChainInLevel(book, k, current.value, price, volume, available, n);
        if found.Some? {
          return found.value;
        }
        LevelEnd(k, s, n);
        NodePrice(book, k, n - 1);
        current := book.NextLevel(k, current.value);
      }
      return 0;
    }

    // The orders of one level, the first of which is at position `start` of the list.
    method ChainInLevel(book: OrderBook, k: Kind, level: nat, price: nat, volume: nat, collected: nat, ghost start: nat)
      returns (chain: Option<nat>, available: nat, ghost n: nat)
      requires book.Valid() && (k == Bids || k == Asks) && start < |book.View().Get(k)| && collected <= volume
      requires var s := book.View().Get(k);
               Key(k, s[start]) == level && (start > 0 ==> Key(k, s[start - 1]) != level)
      requires if IsBidLevel(k) then price <= level else price >= level
      ensures var s := book.View().Get(k);
              match chain
              case Some(c) => BookSpec.Chain(k, s, start, price, volume, collected) == c
              case None =>
                available <= volume && start < n <= |s| && Key(k, s[n - 1]) == level &&
                (n < |s| ==> Key(k, s[n]) != level) &&
                BookSpec.Chain(k, s, start, price, volume, collected) ==
                BookSpec.Chain(k, s, n, price, volume, available)
    {
      hide OrderBook.Valid, OrderBook.View, OrderBook.Levels, Queue, OrderBook.OrderList, BookSpec.Chain;
      ghost var s := book.View().Get(k);
      book.ViewOk(k);
      LevelStart(k, s, start);
      QueueIsRun(k, s, start);
      hide Sorted, ListOk;
      var orderList := book.OrderList(k, level);
      available, n := collected, start;
      for i := 0 to |orderList|
        invariant n == start + i && available <= volume
        invariant BookSpec.Chain(k, s, start, price, volume, collected) ==
                  BookSpec.Chain(k, s, n, price, volume, available)
      {
        var order := orderList[i];
        var need := volume - available;
        var quantity := if order.IsAON() then order.leaves else Min(order.leaves, need);
        BookSpec.ChainWalk(k, s, n, price, volume, available);
        if volume == available + quantity {
          return Some(volume), available, n;
        }
        if volume < available + quantity {
          return Some(0), available, n;
        }
        available := available + quantity;
        n := n + 1;
      }
      assert orderList[|orderList| - 1] == s[n - 1];
      chain := None;
    }

    lemma NodePrice(book: OrderBook, k: Kind, i: nat)
      requires i < |book.View().Get(k)|
      ensures HasPrice(k, book.View().Get(k), Key(k, book.View().Get(k)[i]))
    {
    }

    method ExecuteMatchingChain(book: OrderBook, k: Kind, level: nat, price: nat, volume: nat)
      requires Ok(book) && (k == Bids || k == Asks) && book.BestLevel(k) == Some(level)
      modifies this`orders, book
      ensures Ok(book) && Kept(old(orders), orders, book.symbol)
      ensures book.View() == BookSpec.ExecuteChain(old(book.View()), k, price, volume)
      decreases 3, 1
    {
      hide Indexed, Good, Kept, OrderBook.Valid, OrderBook.View;
      KeptSelf(orders, book.symbol);
      ghost var b0 := book.View();
      var rest := volume;
      var current := Some(level);
      while rest > 0 && current.Some?
        invariant Ok(book) && Kept(old(orders), orders, book.symbol)
        invariant BookSpec.ExecuteChain(b0, k, price, volume) == BookSpec.ExecuteChain(book.View(), k, price, rest)
        invariant rest > 0 ==> current == book.BestLevel(k)
        decreases |book.View().Get(k)|, rest
      {
        ghost var s := book.View().Get(k);
        ghost var m := orders;
        book.ViewOk(k);
        LevelStart(k, s, 0);
        var next := book.NextLevel(k, current.value);
        rest := ExecuteLevel(book, k, current.value, price, rest);
        KeptTransitive(old(orders), m, orders, book.symbol);
        current := next;
      }
    }

    // The orders of the best level, while some volume is left.
    method ExecuteLevel(book: OrderBook, k: Kind, level: nat, price: nat, volume: nat) returns (rest: nat)
      requires Ok(book) && (k == Bids || k == Asks) && book.BestLevel(k) == Some(level) && volume > 0
      modifies this`orders, book
      ensures Ok(book) && Kept(old(orders), orders, book.symbol)
      ensures BookSpec.ExecuteChain(old(book.View()), k, price, volume) ==
              BookSpec.ExecuteChain(book.View(), k, price, rest)
      ensures |book.View().Get(k)| <= |old(book.View()).Get(k)|
      ensures rest > 0 ==> |book.View().Get(k)| < |old(book.View()).Get(k)|
      ensures rest > 0 ==> book.BestLevel(k) == NextPrice(k, old(book.View()).Get(k), level)
      decreases 3, 0
    {
      hide Indexed, Good, Kept, OrderBook.Valid, OrderBook.View, BookSpec.ExecuteChain, BookSpec.Hit, Queue, NextPrice;
      KeptSelf(orders, book.symbol);
      ghost var b0 := book.View();
      rest := volume;
      book.ViewOk(k);
      LevelStart(k, b0.Get(k), 0);
      var executing := Some(book.OrderList(k, level)[0].id);
      while rest > 0 && executing.Some?
        invariant Ok(book) && Kept(old(orders), orders, book.symbol)
        invariant BookSpec.ExecuteChain(b0, k, price, volume) == BookSpec.ExecuteChain(book.View(), k, price, rest)
        invariant rest > 0 ==> NextPrice(k, book.View().Get(k), level) == NextPrice(k, b0.Get(k), level)
        invariant rest > 0 && executing.Some? ==>
            var s := book.View().Get(k); s != [] && s[0].id == executing.value && Key(k, s[0]) == level
        invariant rest > 0 && executing.None? ==>
            |book.View().Get(k)| < |b0.Get(k)| && book.BestLevel(k) == NextPrice(k, b0.Get(k), level)
        invariant |book.View().Get(k)| <= |b0.Get(k)|
        decreases if rest > 0 then 1 else 0, |book.View().Get(k)|
      {
        ghost var s := book.View().Get(k);
        book.ViewOk(k);
        NodeOf(book, k, 0);
        LevelStep(k, s);
        BookSpec.ChainStep(book.View(), k, price, rest);
        var id := executing.value;
        var next := book.NextOrder(k, id);
        var e := book.Node(k, id);
        var quantity := if e.IsAON() then e.leaves else Min(e.leaves, rest);
        ghost var m := orders;
        if e.IsAON() {
          TakeNode(book, k, id, price);
        } else {
          HitNode(book, k, id, price, quantity);
        }
        KeptTransitive(old(orders), m, orders, book.symbol);
        rest := Sub64(rest, quantity);
        executing := next;
      }
    }

    // ---------- stop orders

    /** Activates all orders of the best stop level once the stop price has reached it. */
    method ActivateBestLevel(book: OrderBook, k: Kind, level: Option<nat>, stopPrice: nat) returns (result: bool)
      requires Ok(book) && (k == BuyStops || k == SellStops) && level == book.BestLevel(k)
      requires stopPrice == if k == SellStops then book.View().MarketBid() else book.View().MarketAsk()
      modifies this`orders, book
      ensures Ok(book) && Kept(old(orders), orders, book.symbol)
      ensures book.View() == BookSpec.ActivateBest(old(book.View()), k)
      ensures result == BookSpec.Triggered(old(book.View()), k)
      decreases 7, 0
    {
      hide Indexed, Good, Kept, OrderBook.Valid, OrderBook.View, BookSpec.ActivateRun, RunLength;
      KeptSelf(orders, book.symbol);
      result := false;
      if level.Some? {
        if if IsBidLevel(k) then stopPrice > level.value else stopPrice < level.value {
          return;
        }
        result := ActivateLevel(book, k, level.value);
      }
    }

    method ActivateLevel(book: OrderBook, k: Kind, level: nat) returns (result: bool)
      requires Ok(book) && (k == BuyStops || k == SellStops) && book.BestLevel(k) == Some(level)
      modifies this`orders, book
      ensures Ok(book) && Kept(old(orders), orders, book.symbol) && result
      ensures var b := old(book.View());
              book.View() == BookSpec.ActivateRun(b, k, RunLength(k, b.Get(k)))
      decreases 6, 1
    {
      hide Indexed, Good, Kept, OrderBook.Valid, OrderBook.View, BookSpec.ActivateFirst, BookSpec.ActivateRun,
           RunLength, Queue;
      KeptSelf(orders, book.symbol);
      ghost var b0 := book.View();
      book.ViewOk(k);
      LevelStart(k, b0.Get(k), 0);
      hide Sorted, ListOk;
      result := false;
      var activating := Some(book.OrderList(k, level)[0].id);
      while activating.Some?
        invariant Ok(book) && Kept(old(orders), orders, book.symbol)
        invariant match activating
                  case Some(id) =>
                    var b := book.View();
                    b.Get(k) != [] && b.Get(k)[0].id == id &&
                    BookSpec.ActivateRun(b0, k, RunLength(k, b0.Get(k))) ==
                    BookSpec.ActivateRun(b, k, RunLength(k, b.Get(k)))
                  case None => result && book.View() == BookSpec.ActivateRun(b0, k, RunLength(k, b0.Get(k)))
        decreases |book.View().Get(k)|, if activating.Some? then 1 else 0
      {
        ghost var m := orders;
        NodeOf(book, k, 0);
        BookSpec.RunStep(book.View(), k);
        var id := activating.value;
        var next := book.NextOrder(k, id);
        if book.Node(k, id).typ == Stop {
          result := ActivateStopOrder(book, k, id);
        } else {
          result := ActivateStopLimitOrder(book, k, id);
        }
        KeptTransitive(old(orders), m, orders, book.symbol);
        activating := next;
      }
    }

    // The node leaves its book but stays in the map while the order is matched.
    method DetachNode(book: OrderBook, k: Kind, id: nat)
      requires Ok(book) && Listed(book, k, id) && Has(book.View().Get(k), id)
      modifies this`orders, book
      ensures Ok(book) && orders == old(orders)[id := Ref(book.symbol, None)]
      ensures book.View() == BookSpec.Unlink(old(book.View()), k, IndexOf(old(book.View()).Get(k), id))
    {
      hide Indexed, Good, Kept, OrderBook.Valid, OrderBook.View, Sorted, OfKind, Distinct, Resting;
      ghost var b, i := book.View(), IndexOf(book.View().Get(k), id);
      GoodUnlink(b, ModeOf(matching), k, i);
      book.ViewOk(k);
      IndexedUnlink(orders, book.symbol, b, k, i);
      book.DeleteOrder(k, id);
      orders := orders[id := Ref(book.symbol, None)];
    }

    method EraseNode(book: OrderBook, id: nat)
      requires Ok(book) && Loose(book, id)
      modifies this`orders, book
      ensures Ok(book) && orders == old(orders) - {id}
      ensures book.View() == old(book.View()).Say(Deleted(id))
    {
      hide Indexed, Good, Kept, OrderBook.Valid, OrderBook.View;
      ghost var b := book.View();
      book.Report(Deleted(id));
      SameBook(book, b);
      IndexedErase(orders, book.symbol, book.View(), id);
      orders := orders - {id};
    }

    // Links the order into its book; its node may be new or outside of the book.
    method LinkNode(book: OrderBook, o: Order)
      requires Ok(book) && (Loose(book, o.id) || o.id !in orders)
      requires Resting(KindOf(o), o)
      requires matching ==> !o.IsAON() && (o.typ == Limit ==> NoMatch(book.View(), o))
      modifies this`orders, book
      ensures Ok(book) && orders == old(orders)[o.id := Ref(book.symbol, Some(KindOf(o)))]
      ensures book.View() == BookSpec.Link(old(book.View()), o)
    {
      hide Indexed, Good, Kept, OrderBook.Valid, OrderBook.View;
      GoodLink(book.View(), ModeOf(matching), o);
      book.ViewOk(KindOf(o));
      IndexedLink(orders, book.symbol, book.View(), o);
      book.AddOrder(o);
      orders := orders[o.id := Ref(book.symbol, Some(KindOf(o)))];
    }

    // A loose node is linked into its book again, or erased.
    method SettleNode(book: OrderBook, o: Order, waits: bool)
      requires Ok(book) && Loose(book, o.id)
      requires waits ==> Resting(KindOf(o), o)
      requires waits && matching ==> !o.IsAON() && (o.typ == Limit ==> NoMatch(book.View(), o))
      modifies this`orders, book
      ensures Ok(book)
      ensures orders == if waits then old(orders)[o.id := Ref(book.symbol, Some(KindOf(o)))] else old(orders) - {o.id}
      ensures book.View() == if waits then BookSpec.Link(old(book.View()), o) else old(book.View()).Say(Deleted(o.id))
    {
      hide Indexed, Good, OrderBook.Valid, OrderBook.View;
      if waits {
        LinkNode(book, o);
      } else {
        EraseNode(book, o.id);
      }
    }

    method ActivateStopOrder(book: OrderBook, k: Kind, id: nat) returns (result: bool)
      requires Ok(book) && (k == BuyStops || k == SellStops) && Listed(book, k, id)
      requires book.View().Get(k) != [] && book.View().Get(k)[0].id == id && book.View().Get(k)[0].typ == Stop
      requires Has(book.View().Get(k), id)
      modifies this`orders, book
      ensures Ok(book) && Kept(old(orders), orders, book.symbol) && result
      ensures book.View() == BookSpec.ActivateFirst(old(book.View()), k)
      decreases 6, 0
    {
      hide Indexed, Good, Kept, OrderBook.Valid, OrderBook.View, BookSpec.MatchMarket;
      GoodUnlink(book.View(), ModeOf(matching), k, 0);
      var o := book.Node(k, id);
      DetachNode(book, k, id);
      o := o.(typ := Market, price := 0, stopPrice := 0, tif := if o.tif == FOK then FOK else IOC);
      o := MatchMarket(book, o);
      KeptErase(old(orders), orders, book.symbol, id);
      EraseNode(book, id);
      BookSpec.StopActivation(old(book.View()), k);
      result := true;
    }

    method ActivateStopLimitOrder(book: OrderBook, k: Kind, id: nat) returns (result: bool)
      requires Ok(book) && (k == BuyStops || k == SellStops) && Listed(book, k, id)
      requires book.View().Get(k) != [] && book.View().Get(k)[0].id == id && book.View().Get(k)[0].typ != Stop
      requires Has(book.View().Get(k), id)
      modifies this`orders, book
      ensures Ok(book) && Kept(old(orders), orders, book.symbol) && result
      ensures book.View() == BookSpec.ActivateFirst(old(book.View()), k)
      decreases 6, 0
    {
      hide Indexed, Good, Kept, OrderBook.Valid, OrderBook.View, BookSpec.MatchOrder;
      GoodUnlink(book.View(), ModeOf(matching), k, 0);
      var o := book.Node(k, id);
      DetachNode(book, k, id);
      o := o.(typ := Limit, stopPrice := 0);
      GoodMatchOrder(book.View(), ModeOf(matching), o);
      o := MatchOrder(book, o);
      KeptErase(old(orders), orders, book.symbol, id);
      SettleNode(book, o, o.Rests());
      result := true;
    }

    // Stop orders of both sides until a pass activates nothing.
    method ActivateStopOrders(book: OrderBook) returns (result: bool)
      requires Ok(book)
      modifies this`orders, book
      ensures Ok(book) && Kept(old(orders), orders, book.symbol)
      ensures book.View() == BookSpec.ActivateAll(old(book.View()))
      ensures result == BookSpec.Active(old(book.View()))
      decreases 7, 1
    {
      hide Indexed, Good, Kept, OrderBook.Valid, OrderBook.View, BookSpec.ActivateBest, BookSpec.Triggered;
      KeptSelf(orders, book.symbol);
      ghost var b0 := book.View();
      result := false;
      var stop := false;
      while !stop
        invariant Ok(book) && Kept(old(orders), orders, book.symbol)
        invariant BookSpec.ActivateAll(b0) == BookSpec.ActivateAll(book.View())
        invariant stop ==> book.View() == BookSpec.ActivateAll(b0) && result == BookSpec.Active(b0)
        invariant !stop ==> result == (book.View() != b0) && (result ==> BookSpec.Active(b0))
        decreases book.View().Stops(), if stop then 0 else 1
      {
        ghost var b, m := book.View(), orders;
        stop := true;
        var buys := ActivateBestLevel(book, BuyStops, book.BestLevel(BuyStops), book.GetMarketPriceAsk());
        KeptTransitive(old(orders), m, orders, book.symbol);
        m := orders;
        if buys {
          result, stop := true, false;
        }
        var sells := ActivateBestLevel(book, SellStops, book.BestLevel(SellStops), book.GetMarketPriceBid());
        KeptTransitive(old(orders), m, orders, book.symbol);
        if sells {
          result, stop := true, false;
        }
      }
    }

    // ---------- crossed books

    method CalculateTwoSidedChain(book: OrderBook, bidLevel: nat, askLevel: nat) returns (chain: nat)
      requires Ok(book) && book.BestLevel(Bids) == Some(bidLevel) && book.BestLevel(Asks) == Some(askLevel)
      ensures chain == BookSpec.TwoSidedChain(book.View())
    {
      hide Indexed, Good, Kept, OrderBook.Valid, OrderBook.View, NextPrice, Queue, BookSpec.TwoSidedWalk, Sorted,
           ListOk, HasPrice, BookSpec.Ahead;
      ghost var b := book.View();
      book.ViewOk(Bids);
      book.ViewOk(Asks);
      FirstOfList(Bids, b.bids);
      FirstOfList(Asks, b.asks);
      var lk, lp, sk, sp := Bids, bidLevel, Asks, askLevel;
      var longest, shortest := book.OrderList(Bids, bidLevel), book.OrderList(Asks, askLevel);
      if shortest[0].IsAON() && (!longest[0].IsAON() || shortest[0].leaves > longest[0].leaves) {
        lk, lp, sk, sp := Asks, askLevel, Bids, bidLevel;
        longest, shortest := shortest, longest;
      }
      var required, available: nat := longest[0].leaves, 0;
      while true
        invariant available <= required
        invariant lk in {Bids, Asks} && sk in {Bids, Asks}
        invariant HasPrice(lk, b.Get(lk), lp) && HasPrice(sk, b.Get(sk), sp)
        invariant BookSpec.TwoSidedChain(b) ==
                  BookSpec.TwoSidedWalk(b, lk, lp, sk, sp, longest, shortest, required, available)
        decreases BookSpec.Ahead(lk, b.Get(lk), lp) + BookSpec.Ahead(sk, b.Get(sk), sp)
      {
        while longest != [] && shortest != []
          invariant available <= required
          invariant BookSpec.TwoSidedChain(b) ==
                    BookSpec.TwoSidedWalk(b, lk, lp, sk, sp, longest, shortest, required, available)
          decreases |longest| + |shortest|
        {
          BookSpec.WalkOrder(b, lk, lp, sk, sp, longest, shortest, required, available);
          var need := required - available;
          var e := shortest[0];
          var quantity := if e.IsAON() then e.leaves else Min(e.leaves, need);
          available := available + quantity;
          if required == available {
            return required;
          }
          if required < available {
            longest, shortest := shortest, longest[1..];
            required, available := available, required;
          } else {
            shortest := shortest[1..];
          }
        }
        BookSpec.WalkLevel(b, lk, lp, sk, sp, longest, shortest, required, available);
        BookSpec.NextPriceAhead(lk, b.Get(lk), lp);
        BookSpec.NextPriceAhead(sk, b.Get(sk), sp);
        var next := if longest == [] then book.NextLevel(lk, lp) else Some(lp);
        var next' := if shortest == [] then book.NextLevel(sk, sp) else Some(sp);
        if next == None || next' == None {
          return 0;
        }
        lp, sp := next.value, next'.value;
        if longest == [] {
          longest := book.OrderList(lk, lp);
        }
        if shortest == [] {
          shortest := book.OrderList(sk, sp);
        }
      }
    }

    // Two crossing orders trade: the smaller one is executed and deleted, the other one reduced.
    // What follows either in its queue stays as it was.
    method MatchPair(book: OrderBook, bid: nat, ask: nat, ghost i: nat, ghost j: nat)
      requires Ok(book) && i < |book.View().bids| && j < |book.View().asks|
      requires book.View().bids[i].id == bid && book.View().asks[j].id == ask
      modifies this`orders, book
      ensures Ok(book) && Kept(old(orders), orders, book.symbol)
      ensures book.View() == BookSpec.TradePair(old(book.View()), i, j)
      ensures var b, c := old(book.View()), book.View();
              var i' := if b.bids[i].leaves <= b.asks[j].leaves then i else i + 1;
              var j' := if b.asks[j].leaves <= b.bids[i].leaves then j else j + 1;
              (i + 1 < |b.bids| ==> i' < |c.bids| && c.bids[i'] == b.bids[i + 1]) &&
              (j + 1 < |b.asks| ==> j' < |c.asks| && c.asks[j'] == b.asks[j + 1])
      decreases 3, 1
    {
      hide *;
      BookSpec.TradePairLists(book.View(), i, j);
      ExecutePair(book, bid, ask, i, j);
    }

    method ExecutePair(book: OrderBook, bid: nat, ask: nat, ghost i: nat, ghost j: nat)
      requires Ok(book) && i < |book.View().bids| && j < |book.View().asks|
      requires book.View().bids[i].id == bid && book.View().asks[j].id == ask
      modifies this`orders, book
      ensures Ok(book) && Kept(old(orders), orders, book.symbol)
      ensures book.View() == BookSpec.TradePair(old(book.View()), i, j)
      decreases 3, 0
    {
      hide Indexed, Good, Kept, OrderBook.Valid, OrderBook.View;
      NodeOf(book, Bids, i);
      NodeOf(book, Asks, j);
      var executing, reducing := Bids, Asks;
      if book.Node(Bids, bid).leaves > book.Node(Asks, ask).leaves {
        executing, reducing := Asks, Bids;
      }
      var e := book.Node(executing, if executing == Bids then bid else ask);
      var r := book.Node(reducing, if reducing == Bids then bid else ask);
      TakeNode(book, executing, e.id, e.price);
      ghost var m := orders;
      NodeOf(book, reducing, if reducing == Bids then i else j);
      HitNode(book, reducing, r.id, e.price, e.leaves);
      KeptTransitive(old(orders), m, orders, book.symbol);
    }

    // The special case of 'All-Or-None' orders.
    method MatchChains(book: OrderBook, bidLevel: nat, bidPrice: nat, askLevel: nat, askPrice: nat)
      returns (blocked: bool)
      requires Ok(book) && book.BestLevel(Bids) == Some(bidLevel) && book.BestLevel(Asks) == Some(askLevel)
      modifies this`orders, book
      ensures Ok(book) && Kept(old(orders), orders, book.symbol)
      ensures var b := old(book.View());
              var chain := BookSpec.TwoSidedChain(b);
              (book.View(), blocked) ==
              if chain == 0 then (b, true)
              else (BookSpec.ExecuteChain(BookSpec.ExecuteChain(b, Bids, bidPrice, chain), Asks, askPrice, chain),
                    false)
      decreases 4
    {
      hide Indexed, Good, Kept, OrderBook.Valid, OrderBook.View, BookSpec.ExecuteChain, BookSpec.TwoSidedChain;
      KeptSelf(orders, book.symbol);
      var chain := CalculateTwoSidedChain(book, bidLevel, askLevel);
      if chain == 0 {
        return true;
      }
      ghost var b := book.View();
      ExecuteMatchingChain(book, Bids, bidLevel, bidPrice, chain);
      assert book.View().Get(Asks) == b.Get(Asks);
      ghost var m := orders;
      ExecuteMatchingChain(book, Asks, askLevel, askPrice, chain);
      KeptTransitive(old(orders), m, orders, book.symbol);
      blocked := false;
    }

    // Pairs up the orders of the two best levels, first with first, second with second.
    method MatchLevels(book: OrderBook, bidLevel: nat, askLevel: nat) returns (blocked: bool)
      requires Ok(book) && book.BestLevel(Bids) == Some(bidLevel) && book.BestLevel(Asks) == Some(askLevel)
      modifies this`orders, book
      ensures Ok(book) && Kept(old(orders), orders, book.symbol)
      ensures (book.View(), blocked) == BookSpec.PairLevels(old(book.View()), 0, 0)
      decreases 7, 0
    {
      hide Indexed, Good, Kept, OrderBook.Valid, OrderBook.View, BookSpec.PairLevels, BookSpec.TradePair, Queue;
      hide BookSpec.TwoSidedChain, BookSpec.ExecuteChain;
      KeptSelf(orders, book.symbol);
      ghost var b0 := book.View();
      book.ViewOk(Bids);
      book.ViewOk(Asks);
      LevelStart(Bids, b0.bids, 0);
      LevelStart(Asks, b0.asks, 0);
      var bid := Some(book.OrderList(Bids, bidLevel)[0].id);
      var ask := Some(book.OrderList(Asks, askLevel)[0].id);
      ghost var i: nat, j: nat := 0, 0;
      hide Sorted, ListOk, NextInLevel;
      while bid.Some? && ask.Some?
        invariant Ok(book) && Kept(old(orders), orders, book.symbol)
        invariant bid.Some? && ask.Some? ==>
            var b := book.View();
            i < |b.bids| && j < |b.asks| && b.bids[i].id == bid.value && b.asks[j].id == ask.value &&
            b.bids[0].price == b.bids[i].price == bidLevel && b.asks[0].price == b.asks[j].price == askLevel &&
            BookSpec.PairLevels(b0, 0, 0) == BookSpec.PairLevels(b, i, j)
        invariant bid.None? || ask.None? ==> (book.View(), false) == BookSpec.PairLevels(b0, 0, 0)
        decreases |book.View().bids| - i, if bid.Some? && ask.Some? then 1 else 0
      {
        ghost var b, m := book.View(), orders;
        NodeOf(book, Bids, i);
        NodeOf(book, Asks, j);
        var bidOrder, askOrder := book.Node(Bids, bid.value), book.Node(Asks, ask.value);
        var nextBid, nextAsk := book.NextOrder(Bids, bid.value), book.NextOrder(Asks, ask.value);
        if bidOrder.IsAON() || askOrder.IsAON() {
          BookSpec.PairBlocks(b, i, j);
          blocked := MatchChains(book, bidLevel, bidOrder.price, askLevel, askOrder.price);
          KeptTransitive(old(orders), m, orders, book.symbol);
          return;
        }
        BookSpec.PairStep(b, i, j);
        MatchPair(book, bid.value, ask.value, i, j);
        KeptTransitive(old(orders), m, orders, book.symbol);
        i := if bidOrder.leaves <= askOrder.leaves then i else i + 1;
        j := if askOrder.leaves <= bidOrder.leaves then j else j + 1;
        bid, ask := nextBid, nextAsk;
      }
      blocked := false;
    }

    // Matches level by level while the book is crossed.
    method MatchCrossed(book: OrderBook, internal: bool) returns (blocked: bool)
      requires Ok(book) && (internal ==> matching)
      modifies this`orders, book
      ensures Ok(book) && Kept(old(orders), orders, book.symbol)
      ensures (book.View(), blocked) == BookSpec.CrossLoop(old(book.View()))
      decreases if internal then 0 else 7, 2
    {
      hide Indexed, Kept, OrderBook.Valid, OrderBook.View, BookSpec.PairLevels, BookSpec.ActivateBest, ListsOk, AONFree;
      KeptSelf(orders, book.symbol);
      ghost var b0 := book.View();
      while book.BestLevel(Bids).Some? && book.BestLevel(Asks).Some? &&
            book.BestLevel(Bids).value >= book.BestLevel(Asks).value
        invariant Ok(book) && Kept(old(orders), orders, book.symbol)
        invariant BookSpec.CrossLoop(b0) == BookSpec.CrossLoop(book.View())
        decreases book.View().Stops(), book.View().Size()
      {
        ghost var b, m := book.View(), orders;
        BookSpec.PairLevelsSize(b, 0, 0);
        blocked := MatchLevels(book, book.BestLevel(Bids).value, book.BestLevel(Asks).value);
        KeptTransitive(old(orders), m, orders, book.symbol);
        if blocked {
          return;
        }
        if !internal {
          m := orders;
          var _ := ActivateBestLevel(book, BuyStops, book.BestLevel(BuyStops), book.GetMarketPriceAsk());
          KeptTransitive(old(orders), m, orders, book.symbol);
          m := orders;
          var _ := ActivateBestLevel(book, SellStops, book.BestLevel(SellStops), book.GetMarketPriceBid());
          KeptTransitive(old(orders), m, orders, book.symbol);
        }
      }
      blocked := false;
    }

    /** Matches crossed orders and activates stop orders until there is nothing to do. A call from
        inside of the matching (`internal`) does neither. */
    method Match(book: OrderBook, internal: bool)
      requires Ok(book) && (internal ==> matching)
      modifies this`orders, book
      ensures Ok(book) && Kept(old(orders), orders, book.symbol)
      ensures book.View() == if internal then old(book.View()) else BookSpec.Match(old(book.View()))
      decreases if internal then 0 else 8, 3
    {
      hide Indexed, Good, Kept, OrderBook.Valid, OrderBook.View, BookSpec.CrossLoop, BookSpec.ActivateAll,
           BookSpec.Active;
      KeptSelf(orders, book.symbol);
      ghost var b0 := book.View();
      GoodCrossLoop(b0, ModeOf(matching));
      while true
        invariant Ok(book) && Kept(old(orders), orders, book.symbol)
        invariant if internal then book.View() == b0 else BookSpec.Match(b0) == BookSpec.Match(book.View())
        decreases book.View().Stops()
      {
        ghost var m := orders;
        var blocked := MatchCrossed(book, internal);
        KeptTransitive(old(orders), m, orders, book.symbol);
        if blocked {
          return;
        }
        if internal {
          break;
        }
        m := orders;
        var active := ActivateStopOrders(book);
        KeptTransitive(old(orders), m, orders, book.symbol);
        if !active {
          break;
        }
      }
    }

    // ---------- adding orders

    // The node of an order that has been matched and goes on to wait.
    method InsertOrder(book: OrderBook, o: Order) returns (code: ErrorCode)
      requires Ok(book) && Resting(KindOf(o), o) && forall id :: id in orders ==> orders[id].place.Some?
      requires matching ==> !o.IsAON() && (o.typ == Limit ==> NoMatch(book.View(), o))
      modifies this`orders, book
      ensures Ok(book) && Kept(old(orders), orders, book.symbol)
      ensures (book.View(), code) ==
              BookSpec.Insertion(old(book.View()), o, matching, Foreign(old(orders), book.symbol))
      decreases 9
    {
      hide Indexed, Good, Kept, OrderBook.Valid, OrderBook.View, BookSpec.Match;
      KeptSelf(orders, book.symbol);
      ghost var b := book.View();
      TakenIds(orders, book.symbol, b, o.id);
      if o.id in orders {
        book.Report(Deleted(o.id));
        SameBook(book, b);
        return OrderDuplicate;
      }
      KeptAdd(orders, orders, book.symbol, o.id, KindOf(o));
      LinkNode(book, o);
      ghost var m := orders;
      Rematch(book, false);
      KeptTransitive(old(orders), m, orders, book.symbol);
      code := OK;
    }

    // An order that does not wait: it is reported as deleted and the book is matched again.
    method DropOrder(book: OrderBook, id: nat)
      requires Ok(book)
      modifies this`orders, book
      ensures Ok(book) && Kept(old(orders), orders, book.symbol)
      ensures book.View() == BookSpec.Settle(old(book.View()).Say(Deleted(id)), matching)
      decreases 9
    {
      hide Indexed, Good, Kept, OrderBook.Valid, OrderBook.View, BookSpec.Match;
      ghost var b := book.View();
      book.Report(Deleted(id));
      SameBook(book, b);
      Rematch(book, false);
    }

    method PlaceOrder(book: OrderBook, o: Order) returns (code: ErrorCode)
      requires Ok(book) && (o.typ == Limit || o.typ == StopLimit) &&
               forall id :: id in orders ==> orders[id].place.Some?
      requires matching && o.Rests() ==> !o.IsAON() && (o.typ == Limit ==> NoMatch(book.View(), o))
      modifies this`orders, book
      ensures Ok(book) && Kept(old(orders), orders, book.symbol)
      ensures (book.View(), code) == BookSpec.Place(old(book.View()), o, matching, Foreign(old(orders), book.symbol))
      decreases 10
    {
      hide Indexed, Good, Kept, OrderBook.Valid, OrderBook.View, BookSpec.Match, BookSpec.Insertion;
      if o.Rests() {
        code := InsertOrder(book, o);
      } else {
        DropOrder(book, o.id);
        code := OK;
      }
    }

    method ReportAdded(book: OrderBook, id: nat)
      requires Ok(book)
      modifies book
      ensures Ok(book) && book.View() == old(book.View()).Say(Added(id))
    {
      ghost var b := book.View();
      book.Report(Added(id));
      SameBook(book, b);
    }

    method AddMarketOrder(book: OrderBook, o: Order)
      requires Ok(book) && o.leaves > 0 && (matching ==> !o.IsAON())
      modifies this`orders, book
      ensures Ok(book) && Kept(old(orders), orders, book.symbol)
      ensures book.View() == BookSpec.AddMarket(old(book.View()), o, matching)
      decreases 11
    {
      hide Indexed, Good, Kept, OrderBook.Valid, OrderBook.View, BookSpec.Match, BookSpec.MatchMarket;
      KeptSelf(orders, book.symbol);
      ReportAdded(book, o.id);
      if matching {
        var _ := MatchMarket(book, o);
      }
      ghost var m := orders;
      DropOrder(book, o.id);
      KeptTransitive(old(orders), m, orders, book.symbol);
    }

    // Automatic matching of an order that is not in its book.
    method MatchIfEnabled(book: OrderBook, o: Order) returns (r: Order)
      requires Ok(book) && o.leaves > 0 && (matching ==> !o.IsAON())
      modifies this`orders, book
      ensures Ok(book) && Kept(old(orders), orders, book.symbol)
      ensures (book.View(), r) == if matching then BookSpec.MatchOrder(old(book.View()), o) else (old(book.View()), o)
      ensures r == o.(executed := r.executed, leaves := r.leaves)
      ensures matching && r.leaves > 0 && !o.IsWhole() ==> NoMatch(book.View(), r)
      decreases 5
    {
      hide Indexed, Good, Kept, OrderBook.Valid, OrderBook.View, BookSpec.MatchOrder, NoMatch;
      KeptSelf(orders, book.symbol);
      r := o;
      if matching {
        GoodMatchOrder(book.View(), ModeOf(matching), o);
        r := MatchOrder(book, o);
      }
    }

    method AddLimitOrder(book: OrderBook, o: Order) returns (code: ErrorCode)
      requires Ok(book) && o.typ == Limit && o.leaves > 0 && (matching ==> !o.IsAON())
      requires forall id :: id in orders ==> orders[id].place.Some?
      modifies this`orders, book
      ensures Ok(book) && Kept(old(orders), orders, book.symbol)
      ensures (book.View(), code) == BookSpec.AddLimit(old(book.View()), o, matching, Foreign(old(orders), book.symbol))
      decreases 11
    {
      hide Indexed, Good, OrderBook.Valid, OrderBook.View, BookSpec.Match, BookSpec.MatchOrder, BookSpec.Place;
      ReportAdded(book, o.id);
      var r := MatchIfEnabled(book, o);
      ghost var m := orders;
      SameForeign(old(orders), m, book.symbol);
      code := PlaceOrder(book, r);
      KeptTransitive(old(orders), m, orders, book.symbol);
    }

    // Stop and stop-limit orders.
    method AddStopOrder(book: OrderBook, o: Order) returns (code: ErrorCode)
      requires Ok(book) && (o.typ == Stop || o.typ == StopLimit) && o.leaves > 0 && (matching ==> !o.IsAON())
      requires forall id :: id in orders ==> orders[id].place.Some?
      modifies this`orders, book
      ensures Ok(book) && Kept(old(orders), orders, book.symbol)
      ensures (book.View(), code) == BookSpec.AddStop(old(book.View()), o, matching, Foreign(old(orders), book.symbol))
      decreases 11
    {
      hide Indexed, Good, OrderBook.Valid, OrderBook.View, BookSpec.Match, BookSpec.MatchOrder, BookSpec.MatchMarket;
      hide BookSpec.Place, BookSpec.Insertion;
      ReportAdded(book, o.id);
      if matching {
        var stopPrice := if o.side == Buy then book.GetMarketPriceAsk() else book.GetMarketPriceBid();
        if if o.side == Buy then o.stopPrice <= stopPrice else o.stopPrice >= stopPrice {
          if o.typ == Stop {
            var _ := MatchMarket(book, o.(typ := Market, price := 0, stopPrice := 0,
                                          tif := if o.tif == FOK then FOK else IOC));
            ghost var m := orders;
            DropOrder(book, o.id);
            KeptTransitive(old(orders), m, orders, book.symbol);
            return OK;
          }
          var r := o.(typ := Limit, stopPrice := 0);
          GoodMatchOrder(book.View(), ModeOf(matching), r);
          r := MatchOrder(book, r);
          ghost var m := orders;
          SameForeign(old(orders), m, book.symbol);
          code := PlaceOrder(book, r);
          KeptTransitive(old(orders), m, orders, book.symbol);
          return;
        }
      }
      code := InsertOrder(book, o);
    }

    method AddToBook(book: OrderBook, o: Order) returns (code: ErrorCode)
      requires Ok(book) && o.leaves > 0 && (matching ==> !o.IsAON())
      requires forall id :: id in orders ==> orders[id].place.Some?
      modifies this`orders, book
      ensures Ok(book) && Kept(old(orders), orders, book.symbol)
      ensures (book.View(), code) == BookSpec.AddOrder(old(book.View()), o, matching, Foreign(old(orders), book.symbol))
      decreases 12
    {
      hide BookSpec.AddMarket, BookSpec.AddLimit, BookSpec.AddStop;
      match o.typ {
        case Market =>
          AddMarketOrder(book, o);
          code := OK;
        case Limit =>
          code := AddLimitOrder(book, o);
        case _ =>
          code := AddStopOrder(book, o);
      }
    }

    // ---------- changing orders

    method ModifyNode(book: OrderBook, k: Kind, id: nat, price: nat, quantity: nat, mitigate: bool)
      requires Ok(book) && Listed(book, k, id)
      requires Has(book.View().Get(k), id)
      modifies this`orders, book
      ensures Ok(book) && Kept(old(orders), orders, book.symbol)
      ensures var b := old(book.View());
              book.View() == BookSpec.ModifyOrder(b, k, IndexOf(b.Get(k), id), price, quantity, mitigate, matching)
      decreases 12
    {
      hide Indexed, Good, Kept, OrderBook.Valid, OrderBook.View, BookSpec.Settle, BookSpec.MatchOrder, BookSpec.Unlink;
      ghost var b, i := book.View(), IndexOf(book.View().Get(k), id);
      GoodUnlink(b, ModeOf(matching), k, i);
      var o := book.Node(k, id);
      DetachNode(book, k, id);
      o := o.(price := price, quantity := quantity, leaves := quantity);
      if mitigate {
        o := o.(leaves := if quantity > o.executed then quantity - o.executed else 0);
      }
      KeptSelf(orders, book.symbol);
      ReturnNode(book, o, old(orders));
    }

    // A modified order is matched and goes back to its book if anything of it is left.
    method ReturnNode(book: OrderBook, o: Order, ghost m: map<nat, Ref>)
      requires Ok(book) && Loose(book, o.id)
      requires o.leaves > 0 ==> Resting(KindOf(o), o) && (matching ==> !o.IsAON())
      requires o.id in m && m[o.id].symbol == book.symbol && m[o.id].place.Some?
      requires Kept(m[o.id := Ref(book.symbol, None)], orders, book.symbol)
      modifies this`orders, book
      ensures Ok(book) && Kept(m, orders, book.symbol)
      ensures book.View() ==
              var (b2, o2) := if o.leaves > 0 && matching then BookSpec.MatchOrder(old(book.View()), o)
                              else (old(book.View()), o);
              BookSpec.Settle(if o2.leaves > 0 then BookSpec.Link(b2, o2) else b2.Say(Deleted(o2.id)), matching)
      decreases 11
    {
      hide Indexed, Good, Kept, OrderBook.Valid, OrderBook.View, BookSpec.Match, BookSpec.MatchOrder, NoMatch;
      var r := o;
      if o.leaves > 0 {
        ghost var m1 := orders;
        r := MatchIfEnabled(book, o);
        KeptTransitive(m[o.id := Ref(book.symbol, None)], m1, orders, book.symbol);
      }
      KeptErase(m, orders, book.symbol, o.id);
      SettleNode(book, r, r.leaves > 0);
      ghost var m2 := orders;
      Rematch(book, false);
      KeptTransitive(m, m2, orders, book.symbol);
    }

    method ReplaceNode(book: OrderBook, k: Kind, id: nat, newId: nat, price: nat, quantity: nat)
      returns (code: ErrorCode)
      requires Ok(book) && Listed(book, k, id) && (k == Bids || k == Asks) && quantity > 0
      requires Has(book.View().Get(k), id)
      requires forall id :: id in orders ==> orders[id].place.Some?
      modifies this`orders, book
      ensures Ok(book) && Kept(old(orders), orders, book.symbol)
      ensures var b := old(book.View());
              (book.View(), code) ==
              BookSpec.ReplaceOrder(b, k, IndexOf(b.Get(k), id), newId, price, quantity, matching,
                                    Foreign(old(orders), book.symbol))
      decreases 12
    {
      hide Indexed, Good, Kept, OrderBook.Valid, OrderBook.View, BookSpec.Settle, BookSpec.MatchOrder,
           BookSpec.Insertion;
      hide BookSpec.Unlink;
      ghost var b, i := book.View(), IndexOf(book.View().Get(k), id);
      GoodUnlink(b, ModeOf(matching), k, i);
      var o := book.Node(k, id);
      DetachNode(book, k, id);
      KeptSelf(orders, book.symbol);
      KeptErase(old(orders), orders, book.symbol, id);
      EraseNode(book, id);
      o := o.(id := newId, price := price, quantity := quantity, executed := 0, leaves := quantity);
      ReportAdded(book, newId);
      ghost var m := orders;
      o := MatchIfEnabled(book, o);
      KeptTransitive(old(orders), m, orders, book.symbol);
      m := orders;
      SameForeign(old(orders), m, book.symbol);
      StillLinked(old(orders), m, book.symbol);
      if o.leaves > 0 {
        code := InsertOrder(book, o);
      } else {
        DropOrder(book, newId);
        code := OK;
      }
      KeptTransitive(old(orders), m, orders, book.symbol);
    }

    method ExecuteNode(book: OrderBook, k: Kind, id: nat, price: nat, quantity: nat)
      requires Ok(book) && Listed(book, k, id)
      requires Has(book.View().Get(k), id)
      modifies this`orders, book
      ensures Ok(book) && Kept(old(orders), orders, book.symbol)
      ensures var b := old(book.View());
              book.View() == BookSpec.ExecuteOrder(b, k, IndexOf(b.Get(k), id), price, quantity, matching)
      decreases 12
    {
      hide Indexed, Good, Kept, OrderBook.Valid, OrderBook.View, BookSpec.Match, BookSpec.Settle, BookSpec.Reduce,
           Distinct, Sorted, OfKind;
      ghost var i := IndexOf(book.View().Get(k), id);
      var q := Min(quantity, book.Node(k, id).leaves);
      ReportAndCredit(book, k, id, price, q);
      NodeOf(book, k, i);
      ReduceNode(book, k, id, q, false);
    }

    // ---------- the public interface

    // The book an operation works on.
    ghost function BookOf(symbol: nat): set<OrderBook>
      reads this
    {
      if symbol in books then {books[symbol]} else {}
    }

    ghost function BookOfOrder(id: nat): set<OrderBook>
      reads this
    {
      if id in orders then BookOf(orders[id].symbol) else {}
    }

    constructor ()
      ensures Valid() && orders == map[] && books == map[] && symbols == {} && !matching
    {
      orders, books, symbols, matching := map[], map[], {}, false;
    }

    method AddSymbol(symbol: nat) returns (code: ErrorCode)
      requires Valid()
      modifies this`symbols
      ensures Valid() && symbols == old(symbols) + {symbol}
      ensures code == if symbol in old(symbols) then SymbolDuplicate else OK
    {
      hide Indexed, Good, OrderBook.Valid, OrderBook.View;
      code := if symbol in symbols then SymbolDuplicate else OK;
      symbols := symbols + {symbol};
      forall s | s in books ensures Ok(books[s]) { assert old(Ok(books[s])); }
    }

    // Order books stay when their symbol goes.
    method DeleteSymbol(symbol: nat) returns (code: ErrorCode)
      requires Valid()
      modifies this`symbols
      ensures Valid() && symbols == old(symbols) - {symbol}
      ensures code == if symbol in old(symbols) then OK else SymbolNotFound
    {
      hide Indexed, Good, OrderBook.Valid, OrderBook.View;
      code := if symbol in symbols then OK else SymbolNotFound;
      symbols := symbols - {symbol};
      forall s | s in books ensures Ok(books[s]) { assert old(Ok(books[s])); }
    }

    method AddOrderBook(symbol: nat) returns (code: ErrorCode)
      requires Valid()
      modifies this`books
      ensures Valid()
      ensures code == if symbol !in symbols then SymbolNotFound
                      else if symbol in old(books) then OrderBookDuplicate
                      else OK
      ensures code != OK ==> books == old(books)
      ensures code == OK ==> books.Keys == old(books).Keys + {symbol} && books[symbol].View() == BookSpec.EMPTY
      ensures forall s :: s in old(books) ==> s in books && books[s] == old(books)[s]
    {
      hide Indexed, Good, OrderBook.Valid, OrderBook.View;
      if symbol !in symbols {
        return SymbolNotFound;
      }
      if symbol in books {
        return OrderBookDuplicate;
      }
      var book := new OrderBook(symbol);
      assert Good(BookSpec.EMPTY, ModeOf(matching)) by { EmptyGood(ModeOf(matching)); }
      assert Indexed(orders, symbol, BookSpec.EMPTY) by { EmptyIndexed(orders, symbol); }
      books := books[symbol := book];
      forall s | s in old(books) ensures books[s] == old(books)[s] && Ok(books[s]) {
        assert old(Ok(books[s]));
      }
      code := OK;
    }

    method AddOrder(o: Order) returns (code: ErrorCode)
      requires Valid() && (matching ==> !o.IsAON())
      modifies this`orders, BookOf(o.symbol)
      ensures Valid()
      ensures if o.Validate() != OK then code == o.Validate() && orders == old(orders)
              else if o.symbol !in books then code == OrderBookNotFound && orders == old(orders)
              else (books[o.symbol].View(), code) ==
                   BookSpec.AddOrder(old(books[o.symbol].View()), o, matching, Foreign(old(orders), o.symbol))
      ensures o.Validate() != OK ==> forall s :: s in books ==> books[s].View() == old(books[s].View())
    {
      hide BookSpec.AddOrder, Indexed, Kept;
      code := o.Validate();
      if code != OK {
        return;
      }
      if o.symbol !in books {
        return OrderBookNotFound;
      }
      var book := books[o.symbol];
      code := AddToBook(book, o);
      Restore(book);
    }

    // The node of an order, its book and its tree.
    method Locate(id: nat) returns (book: OrderBook, k: Kind)
      requires Valid() && id in orders
      ensures book.symbol == orders[id].symbol && books[book.symbol] == book && Ok(book)
      ensures Listed(book, k, id) && Has(book.View().Get(k), id)
    {
      hide Indexed, Good, OrderBook.Valid, OrderBook.View;
      book, k := books[orders[id].symbol], orders[id].place.value;
      ListedIn(book, k, id);
    }

    method ReduceOrder(id: nat, quantity: nat) returns (code: ErrorCode)
      requires Valid()
      modifies this`orders, BookOfOrder(id)
      ensures Valid()
      ensures code == if id == 0 then OrderIdInvalid else if quantity == 0 then OrderQuantityInvalid
                      else if id !in old(orders) then OrderNotFound else OK
      ensures code != OK ==> orders == old(orders) && forall s :: s in books ==> books[s].View() == old(books[s].View())
      ensures code == OK ==>
              var r := old(orders)[id];
              var b, k := old(books[r.symbol].View()), r.place.value;
              Has(b.Get(k), id) &&
              books[r.symbol].View() == BookSpec.ReduceOrder(b, k, IndexOf(b.Get(k), id), quantity, matching)
    {
      hide Indexed, Kept, Good, OrderBook.Valid, OrderBook.View, BookSpec.ReduceOrder;
      if id == 0 {
        return OrderIdInvalid;
      }
      if quantity == 0 {
        return OrderQuantityInvalid;
      }
      if id !in orders {
        return OrderNotFound;
      }
      var book, k := Locate(id);
      ReduceNode(book, k, id, quantity, false);
      Restore(book);
      code := OK;
    }

    method DeleteOrder(id: nat) returns (code: ErrorCode)
      requires Valid()
      modifies this`orders, BookOfOrder(id)
      ensures Valid()
      ensures code == if id == 0 then OrderIdInvalid else if id !in old(orders) then OrderNotFound else OK
      ensures code != OK ==> orders == old(orders) && forall s :: s in books ==> books[s].View() == old(books[s].View())
      ensures code == OK ==>
              var r := old(orders)[id];
              var b, k := old(books[r.symbol].View()), r.place.value;
              Has(b.Get(k), id) &&
              books[r.symbol].View() == BookSpec.DeleteOrder(b, k, IndexOf(b.Get(k), id), matching)
    {
      hide Indexed, Kept, Good, OrderBook.Valid, OrderBook.View, BookSpec.DeleteOrder;
      if id == 0 {
        return OrderIdInvalid;
      }
      if id !in orders {
        return OrderNotFound;
      }
      var book, k := Locate(id);
      DeleteNode(book, k, id, false);
      Restore(book);
      code := OK;
    }

    // ModifyOrder, or MitigateOrder when `mitigate` holds.
    method ModifyOrder(id: nat, price: nat, quantity: nat, mitigate: bool) returns (code: ErrorCode)
      requires Valid()
      modifies this`orders, BookOfOrder(id)
      ensures Valid()
      ensures code == if id == 0 then OrderIdInvalid else if quantity == 0 then OrderQuantityInvalid
                      else if id !in old(orders) then OrderNotFound else OK
      ensures code != OK ==> orders == old(orders) && forall s :: s in books ==> books[s].View() == old(books[s].View())
      ensures code == OK ==>
              var r := old(orders)[id];
              var b, k := old(books[r.symbol].View()), r.place.value;
              Has(b.Get(k), id) &&
              books[r.symbol].View() ==
              BookSpec.ModifyOrder(b, k, IndexOf(b.Get(k), id), price, quantity, mitigate, matching)
    {
      hide Indexed, Kept, Good, OrderBook.Valid, OrderBook.View, BookSpec.ModifyOrder;
      if id == 0 {
        return OrderIdInvalid;
      }
      if quantity == 0 {
        return OrderQuantityInvalid;
      }
      if id !in orders {
        return OrderNotFound;
      }
      var book, k := Locate(id);
      ModifyNode(book, k, id, price, quantity, mitigate);
      Restore(book);
      code := OK;
    }

    method ReplaceOrder(id: nat, newId: nat, price: nat, quantity: nat) returns (code: ErrorCode)
      requires Valid()
      modifies this`orders, BookOfOrder(id)
      ensures Valid()
      ensures id == 0 || newId == 0 ==> code == OrderIdInvalid
      ensures id != 0 && newId != 0 && quantity == 0 ==> code == OrderQuantityInvalid
      ensures id != 0 && newId != 0 && quantity != 0 && id !in old(orders) ==> code == OrderNotFound
      ensures code !in {OK, OrderDuplicate} ==>
              orders == old(orders) && forall s :: s in books ==> books[s].View() == old(books[s].View())
      ensures id != 0 && newId != 0 && quantity != 0 && id in old(orders) ==>
              var r := old(orders)[id];
              var b, k := old(books[r.symbol].View()), r.place.value;
              Has(b.Get(k), id) &&
              if Find(b.Get(k), id).typ != Limit then code == OrderTypeInvalid
              else (books[r.symbol].View(), code) ==
                   BookSpec.ReplaceOrder(b, k, IndexOf(b.Get(k), id), newId, price, quantity, matching,
                                         Foreign(old(orders), r.symbol))
    {
      hide Indexed, Kept, Good, OrderBook.Valid, OrderBook.View, BookSpec.ReplaceOrder;
      if id == 0 || newId == 0 {
        return OrderIdInvalid;
      }
      if quantity == 0 {
        return OrderQuantityInvalid;
      }
      if id !in orders {
        return OrderNotFound;
      }
      var book, k := Locate(id);
      var o := book.Node(k, id);
      book.ViewOk(k);
      if o.typ != Limit {
        return OrderTypeInvalid;
      }
      ReplaceCodes(book, k, id, newId, price, quantity);
      code := ReplaceNode(book, k, id, newId, price, quantity);
      Restore(book);
    }

    lemma ReplaceCodes(book: OrderBook, k: Kind, id: nat, newId: nat, price: nat, quantity: nat)
      requires Ok(book) && Has(book.View().Get(k), id)
      ensures BookSpec.ReplaceOrder(book.View(), k, IndexOf(book.View().Get(k), id), newId, price, quantity, matching,
                                    Foreign(orders, book.symbol)).1 in {OK, OrderDuplicate}
    {
    }

    // Executing at the price of the order is the case `price == None`.
    method ExecuteOrder(id: nat, price: Option<nat>, quantity: nat) returns (code: ErrorCode)
      requires Valid()
      modifies this`orders, BookOfOrder(id)
      ensures Valid()
      ensures code == if id == 0 then OrderIdInvalid else if quantity == 0 then OrderQuantityInvalid
                      else if id !in old(orders) then OrderNotFound else OK
      ensures code != OK ==> orders == old(orders) && forall s :: s in books ==> books[s].View() == old(books[s].View())
      ensures code == OK ==>
              var r := old(orders)[id];
              var b, k := old(books[r.symbol].View()), r.place.value;
              Has(b.Get(k), id) &&
              books[r.symbol].View() ==
              BookSpec.ExecuteOrder(b, k, IndexOf(b.Get(k), id),
                                    if price.Some? then price.value else Find(b.Get(k), id).price, quantity, matching)
    {
      hide Indexed, Kept, Good, OrderBook.Valid, OrderBook.View, BookSpec.ExecuteOrder;
      if id == 0 {
        return OrderIdInvalid;
      }
      if quantity == 0 {
        return OrderQuantityInvalid;
      }
      if id !in orders {
        return OrderNotFound;
      }
      var book, k := Locate(id);
      ExecuteNode(book, k, id, if price.Some? then price.value else book.Node(k, id).price, quantity);
      Restore(book);
      code := OK;
    }

    // Match() on every order book.
    method MatchAll()
      requires Valid()
      modifies this`orders, books.Values
      ensures Valid()
      ensures forall s :: s in books ==> books[s].View() == BookSpec.Match(old(books[s].View()))
    {
      hide Indexed, Kept, Good, OrderBook.Valid, OrderBook.View, BookSpec.Match;
      var todo := books.Keys;
      while todo != {}
        invariant Valid() && todo <= books.Keys
        invariant forall s :: s in todo ==> books[s].View() == old(books[s].View())
        invariant forall s :: s in books && s !in todo ==> books[s].View() == BookSpec.Match(old(books[s].View()))
        decreases |todo|
      {
        var s :| s in todo;
        label before:
        var book := books[s];
        assert forall t :: t in books && t != s ==> books[t] != book;
        Match(book, false);
        Restore@before(book);
        todo := todo - {s};
      }
    }

    // Matching is switched on for books that are not crossed and hold no 'All-Or-None' order.
    method EnableMatching()
      requires Valid() && forall s :: s in books ==> Quotable(books[s].View())
      modifies this`matching, this`orders, books.Values
      ensures Valid() && matching
      ensures forall s :: s in books ==> books[s].View() == BookSpec.Match(old(books[s].View()))
    {
      hide Indexed, Kept, Good, OrderBook.Valid, OrderBook.View, BookSpec.Match, Quotable;
      matching := true;
      forall s | s in books ensures Ok(books[s]) {
        assert old(Ok(books[s]));
        SwitchMatching(books[s].View(), ModeOf(old(matching)));
      }
      MatchAll();
    }

    method DisableMatching()
      requires Valid()
      modifies this`matching
      ensures Valid() && !matching
    {
      hide Indexed, Good, OrderBook.Valid, OrderBook.View, Quotable;
      matching := false;
      forall s | s in books ensures Ok(books[s]) {
        assert old(Ok(books[s]));
        SwitchMatching(books[s].View(), ModeOf(old(matching)));
      }
    }
  }
}
