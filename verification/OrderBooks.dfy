/** The order book of one symbol: level trees with cached sums, and market prices. */
module OrderBooks {
  import opened Options
  import opened Orders
  import opened PriorityList
  import opened Ladder
  import BookSpec

  class OrderBook {
    const symbol: nat

    // Each tree in priority order, so that its cached best level is the first one.
    var bids: seq<Level>
    var asks: seq<Level>
    var buyStops: seq<Level>
    var sellStops: seq<Level>

    var lastBidPrice: nat
    var lastAskPrice: nat
    var matchingBidPrice: nat
    var matchingAskPrice: nat

    // What the market handler has been told about this symbol.
    var log: seq<Event>

    function Levels(k: Kind): seq<Level>
      reads this
    {
      match k case Bids => bids case Asks => asks case BuyStops => buyStops case SellStops => sellStops
    }

    ghost predicate Valid()
      reads this
    {
      LadderOk(Bids, bids) && LadderOk(Asks, asks) && LadderOk(BuyStops, buyStops) && LadderOk(SellStops, sellStops)
    }

    // The book without its levels and sums.
    ghost function View(): BookSpec.Book
      reads this
    {
      BookSpec.Book(Flat(bids), Flat(asks), Flat(buyStops), Flat(sellStops),
                    BookSpec.Tape(lastBidPrice, lastAskPrice, matchingBidPrice, matchingAskPrice, log))
    }

    constructor (symbol: nat)
      ensures Valid() && View() == BookSpec.EMPTY && this.symbol == symbol
    {
      this.symbol := symbol;
      bids, asks, buyStops, sellStops := [], [], [], [];
      lastBidPrice, lastAskPrice, matchingBidPrice, matchingAskPrice := 0, ORDER_INT_MAX, 0, ORDER_INT_MAX;
      log := [];
    }

    lemma ViewOk(k: Kind)
      requires Valid()
      ensures ListOk(k, View().Get(k))
    {
      LevelsOk(k);
    }

    lemma LevelsOk(k: Kind)
      requires Valid()
      ensures LadderOk(k, Levels(k)) && View().Get(k) == Flat(Levels(k))
      ensures ListOk(k, View().Get(k))
      ensures View().Get(k) == [] <==> Levels(k) == []
    {
      FlatOk(k, Levels(k));
    }

    method SetLevels(k: Kind, ls: seq<Level>)
      requires Valid() && LadderOk(k, ls)
      modifies this
      ensures Valid() && Levels(k) == ls && View() == old(View()).Set(k, Flat(ls))
    {
      match k {
        case Bids => bids := ls;
        case Asks => asks := ls;
        case BuyStops => buyStops := ls;
        case SellStops => sellStops := ls;
      }
    }

    // ---------- orders

    // AddOrder and AddStopOrder: find or create the level, add to its sums, link the order at its end.
    method AddOrder(o: Order)
      requires Valid() && Resting(KindOf(o), o)
      modifies this
      ensures Valid() && View() == BookSpec.Link(old(View()), o)
    {
      var k := KindOf(o);
      var ls := Levels(k);
      LevelsOk(k);
      var i := Slot(k, ls, Key(k, o));
      if i < |ls| && ls[i].price == Key(k, o) {
        LinkRefines(k, ls, i, o);
        SetLevels(k, ls[i := Linked(ls[i], o)]);
      } else {
        LinkNewRefines(k, ls, i, o);
        SetLevels(k, ls[..i] + [Linked(NewLevel(Key(k, o)), o)] + ls[i..]);
      }
    }

    /** `o` is the order as it is now, its fields written in place; the level sums still count what
        it was before. The node is unlinked when nothing of it is left, the level is deleted when its
        total volume is zero. ReduceOrder and ReduceStopOrder. */
    method ReduceOrder(k: Kind, o: Order, quantity: nat, hidden: nat, visible: nat)
      requires Valid() && Has(View().Get(k), o.id)
      requires var e := Find(View().Get(k), o.id);
               o == e.(leaves := o.leaves, executed := o.executed) && o.leaves + quantity == e.leaves &&
               o.Hidden() + hidden == e.Hidden() && o.Visible() + visible == e.Visible()
      modifies this
      ensures Valid()
      ensures var s := old(View().Get(k));
              View() == old(View()).Set(k, Put(s, IndexOf(s, o.id), o))
    {
      var ls := Levels(k);
      LevelsOk(k);
      ChangeRefines(k, ls, o);
      NodeAt(ls, o.id);
      var i := LevelOf(ls, o.id);
      var l := ls[i];
      var q := IndexOf(l.queue, o.id);
      l := l.(total := l.total - quantity, hidden := l.hidden - hidden, visible := l.visible - visible,
              queue := Put(l.queue, q, o));
      if o.leaves == 0 { l := l.(orders := l.orders - 1); }
      assert l == LevelAfter(ls[i], q, o);
      SetLevels(k, Changed(ls, i, l));
    }

    // DeleteOrder and DeleteStopOrder take all volume of the order out of its level.
    method DeleteOrder(k: Kind, id: nat)
      requires Valid() && Has(View().Get(k), id)
      modifies this
      ensures Valid()
      ensures View() == BookSpec.Unlink(old(View()), k, IndexOf(old(View().Get(k)), id))
    {
      var o := Node(k, id);
      ReduceOrder(k, o.(leaves := 0), o.leaves, o.Hidden(), o.Visible());
    }

    // The executed quantity of an order is not part of any sum.
    method IncreaseExecuted(k: Kind, id: nat, quantity: nat)
      requires Valid() && Has(View().Get(k), id)
      modifies this
      ensures Valid()
      ensures View() == BookSpec.Credit(old(View()), k, IndexOf(old(View().Get(k)), id), quantity)
    {
      var o := Node(k, id);
      LevelsOk(k);
      ReduceOrder(k, o.(executed := o.executed + quantity), 0, 0, 0);
    }

    // ---------- following pointers; an order pointer is an id, a level pointer a price

    function Node(k: Kind, id: nat): (o: Order)
      requires Valid() && Has(View().Get(k), id)
      reads this
      ensures o == Find(View().Get(k), id)
    {
      Find(Flat(Levels(k)), id)
    }

    function BestLevel(k: Kind): (p: Option<nat>)
      requires Valid()
      reads this
      ensures var s := View().Get(k); p == if s == [] then None else Some(Key(k, s[0]))
    {
      LevelsOk(k);
      if Levels(k) == [] then None
      else
        assert LevelOk(k, Levels(k)[0]);
        assert View().Get(k)[0] == Levels(k)[0].queue[0];
        Some(Levels(k)[0].price)
    }

    lemma LevelAt(k: Kind, price: nat)
      requires Valid() && HasPrice(k, View().Get(k), price)
      ensures var i := Slot(k, Levels(k), price);
              i < |Levels(k)| && Levels(k)[i].price == price && LevelOk(k, Levels(k)[i])
      ensures Queue(k, View().Get(k), price) == Levels(k)[Slot(k, Levels(k), price)].queue
    {
      LevelsOk(k);
      SlotFinds(k, Levels(k), price);
      QueueRefines(k, Levels(k), Slot(k, Levels(k), price));
    }

    // The queue of a level.
    function OrderList(k: Kind, price: nat): (q: seq<Order>)
      requires Valid() && HasPrice(k, View().Get(k), price)
      reads this
      ensures q == Queue(k, View().Get(k), price) && q != []
    {
      LevelAt(k, price);
      Levels(k)[Slot(k, Levels(k), price)].queue
    }

    function NextLevel(k: Kind, price: nat): (p: Option<nat>)
      requires Valid() && HasPrice(k, View().Get(k), price)
      reads this
      ensures p == NextPrice(k, View().Get(k), price)
    {
      LevelAt(k, price);
      LevelsOk(k);
      var i := Slot(k, Levels(k), price);
      NextLevelRefines(k, Levels(k), i);
      if i + 1 < |Levels(k)| then Some(Levels(k)[i + 1].price) else None
    }

    function NextOrder(k: Kind, id: nat): (n: Option<nat>)
      requires Valid() && Has(View().Get(k), id)
      reads this
      ensures n == NextInLevel(k, View().Get(k), IndexOf(View().Get(k), id))
    {
      NextNodeRefines(k, Levels(k), id);
      NextNode(Levels(k), id)
    }

    // ---------- market prices

    function GetMarketPriceBid(): (p: nat)
      requires Valid()
      reads this
      ensures p == View().MarketBid()
    {
      match BestLevel(Bids) case None => matchingBidPrice case Some(best) => Max(matchingBidPrice, best)
    }

    function GetMarketPriceAsk(): (p: nat)
      requires Valid()
      reads this
      ensures p == View().MarketAsk()
    {
      match BestLevel(Asks)
      case None => Min(matchingAskPrice, ORDER_INT_MAX)
      case Some(best) => Min(matchingAskPrice, best)
    }

    // The execution report, UpdateLastPrice and UpdateMatchingPrice.
    method ReportTrade(o: Order, price: nat, quantity: nat)
      requires Valid()
      modifies this
      ensures Valid() && View() == old(View()).Trade(o, price, quantity)
    {
      log := log + [Executed(o.id, o.side, o.price, price, quantity)];
      if o.side == Buy {
        lastBidPrice, matchingBidPrice := price, price;
      } else {
        lastAskPrice, matchingAskPrice := price, price;
      }
    }

    method ResetMatchingPrice()
      requires Valid()
      modifies this
      ensures Valid() && View() == old(View()).Reset()
    {
      matchingBidPrice, matchingAskPrice := 0, ORDER_INT_MAX;
    }

    method Report(e: Event)
      requires Valid()
      modifies this
      ensures Valid() && View() == old(View()).Say(e)
    {
      log := log + [e];
    }
  }
}
