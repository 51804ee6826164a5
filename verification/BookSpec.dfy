/** The matching engine as a function on flat price-time lists: no levels, no cached sums, no
    node pointers and no re-entrant calls. `MarketManager` is proved to compute exactly this. */
module BookSpec {
  import opened Options
  import opened Orders
  import opened PriorityList

  /** Last and matching prices of a book, and what its handler has been told. */
  datatype Tape = Tape(lastBid: nat, lastAsk: nat, matchBid: nat, matchAsk: nat, log: seq<Event>)
  {
    function Say(e: Event): Tape { this.(log := log + [e]) }

    function Reset(): Tape { this.(matchBid := 0, matchAsk := ORDER_INT_MAX) }

    // An execution report, followed by both price updates of the order's side.
    function Trade(o: Order, price: nat, quantity: nat): Tape {
      var t := Say(Executed(o.id, o.side, o.price, price, quantity));
      if o.side == Buy then t.(lastBid := price, matchBid := price) else t.(lastAsk := price, matchAsk := price)
    }
  }

  datatype Book = Book(bids: seq<Order>, asks: seq<Order>, buyStops: seq<Order>, sellStops: seq<Order>, tape: Tape)
  {
    function Get(k: Kind): seq<Order> {
      match k case Bids => bids case Asks => asks case BuyStops => buyStops case SellStops => sellStops
    }

    function Set(k: Kind, s: seq<Order>): Book {
      match k
      case Bids => this.(bids := s)
      case Asks => this.(asks := s)
      case BuyStops => this.(buyStops := s)
      case SellStops => this.(sellStops := s)
    }

    function Say(e: Event): Book { this.(tape := tape.Say(e)) }

    function Reset(): Book { this.(tape := tape.Reset()) }

    function Trade(o: Order, price: nat, quantity: nat): Book { this.(tape := tape.Trade(o, price, quantity)) }

    function MarketAsk(): nat { Min(tape.matchAsk, if asks == [] then ORDER_INT_MAX else asks[0].price) }

    function MarketBid(): nat { Max(tape.matchBid, if bids == [] then 0 else bids[0].price) }

    predicate Crossed() { bids != [] && asks != [] && bids[0].price >= asks[0].price }

    function Stops(): nat { |buyStops| + |sellStops| }

    // Falls with every execution.
    function Size(): nat { |bids| + |asks| + Leaves(bids) + Leaves(asks) }
  }

  const EMPTY := Book([], [], [], [], Tape(0, ORDER_INT_MAX, 0, ORDER_INT_MAX, []))

  // ---------- changes to one order of the book

  function Link(b: Book, o: Order): Book {
    b.Set(KindOf(o), Insert(KindOf(o), b.Get(KindOf(o)), o))
  }

  function Unlink(b: Book, k: Kind, i: nat): Book
    requires i < |b.Get(k)|
  {
    b.Set(k, RemoveAt(b.Get(k), i))
  }

  function Delete(b: Book, k: Kind, i: nat): Book
    requires i < |b.Get(k)|
  {
    Unlink(b, k, i).Say(Deleted(b.Get(k)[i].id))
  }

  // An order reduced to nothing is deleted.
  function Reduce(b: Book, k: Kind, i: nat, q: nat): Book
    requires i < |b.Get(k)| && q <= b.Get(k)[i].leaves
  {
    var o := b.Get(k)[i];
    var b1 := b.Set(k, Put(b.Get(k), i, o.(leaves := o.leaves - q)));
    if q == o.leaves then b1.Say(Deleted(o.id)) else b1
  }

  function Credit(b: Book, k: Kind, i: nat, q: nat): Book
    requires i < |b.Get(k)|
  {
    var o := b.Get(k)[i];
    b.Set(k, b.Get(k)[i := o.(executed := o.executed + q)])
  }

  // One resting order trades q at the given price. Reducing it ends with the matching prices reset.
  function Hit(b: Book, k: Kind, i: nat, price: nat, q: nat): Book
    requires i < |b.Get(k)| && q <= b.Get(k)[i].leaves
  {
    Reduce(Credit(b.Trade(b.Get(k)[i], price, q), k, i, q), k, i, q).Reset()
  }

  // A hit changes one order of one list.
  lemma HitLists(b: Book, k: Kind, i: nat, price: nat, q: nat)
    requires i < |b.Get(k)| && q <= b.Get(k)[i].leaves
    ensures var o := b.Get(k)[i];
            var s := Put(b.Get(k), i, o.(executed := o.executed + q, leaves := o.leaves - q));
            Hit(b, k, i, price, q) == b.Set(k, s).(tape := Hit(b, k, i, price, q).tape)
  {
    var o := b.Get(k)[i];
    var o1 := o.(executed := o.executed + q);
    assert Put(b.Get(k)[i := o1], i, o1.(leaves := o.leaves - q)) == Put(b.Get(k), i, o1.(leaves := o.leaves - q));
  }

  lemma HitShortens(b: Book, k: Kind, price: nat, q: nat)
    requires b.Get(k) != [] && q <= b.Get(k)[0].leaves
    ensures q == b.Get(k)[0].leaves ==> |Hit(b, k, 0, price, q).Get(k)| < |b.Get(k)|
    ensures forall j :: j != k ==> Hit(b, k, 0, price, q).Get(j) == b.Get(j)
  {
    hide Hit;
    HitLists(b, k, 0, price, q);
  }

  // ---------- an incoming order against the opposite side

  function HitBest(b: Book, o: Order): (Book, Order)
    requires b.Get(Opposite(o.side)) != []
  {
    var k := Opposite(o.side);
    var e := b.Get(k)[0];
    var q := Min(e.leaves, o.leaves);
    (Hit(b, k, 0, e.price, q).Trade(o, e.price, q), o.(executed := o.executed + q, leaves := o.leaves - q))
  }

  function Fill(b: Book, o: Order): (r: (Book, Order))
    ensures r.0.buyStops == b.buyStops && r.0.sellStops == b.sellStops
    ensures r.1 == o.(executed := r.1.executed, leaves := r.1.leaves)
    decreases |b.Get(Opposite(o.side))|
  {
    var s := b.Get(Opposite(o.side));
    if s == [] || !Accepts(o.side, o.price, s[0].price) || (s[0].IsAON() && s[0].leaves > o.leaves) then (b, o)
    else
      var (b', o') := HitBest(b, o);
      if o'.leaves == 0 then (b', o') else Fill(b', o')
  }

  /** The volume that a walk over `s` from position n collects: `volume` when it is met exactly, otherwise 0. */
  function Chain(k: Kind, s: seq<Order>, n: nat, price: nat, volume: nat, available: nat): nat
    requires n <= |s| && available <= volume
    decreases |s| - n
  {
    if n == |s| || (if IsBidLevel(k) then price > s[n].price else price < s[n].price) then 0
    else
      var q := if s[n].IsAON() then s[n].leaves else Min(s[n].leaves, volume - available);
      if volume == available + q then volume
      else if volume < available + q then 0
      else Chain(k, s, n + 1, price, volume, available + q)
  }

  // One step of the walk along an accepted price.
  lemma ChainWalk(k: Kind, s: seq<Order>, n: nat, price: nat, volume: nat, available: nat)
    requires n < |s| && available <= volume
    requires if IsBidLevel(k) then price <= s[n].price else price >= s[n].price
    ensures var q := if s[n].IsAON() then s[n].leaves else Min(s[n].leaves, volume - available);
            Chain(k, s, n, price, volume, available) ==
            if volume == available + q then volume
            else if volume < available + q then 0
            else Chain(k, s, n + 1, price, volume, available + q)
  {
  }

  // The remaining volume is a machine word: an 'All-Or-None' order larger than it wraps it around.
  function ExecuteChain(b: Book, k: Kind, price: nat, volume: nat): (r: Book)
    ensures forall j :: j != k ==> r.Get(j) == b.Get(j)
    decreases |b.Get(k)|
  {
    var s := b.Get(k);
    if s == [] || volume == 0 then b
    else
      var q := if s[0].IsAON() then s[0].leaves else Min(s[0].leaves, volume);
      var b' := Hit(b, k, 0, price, q);
      HitShortens(b, k, price, q);
      if q < s[0].leaves then b' else ExecuteChain(b', k, price, Sub64(volume, q))
  }

  function MatchWhole(b: Book, o: Order): (r: (Book, Order))
    ensures r.0.buyStops == b.buyStops && r.0.sellStops == b.sellStops
    ensures r.1 == o.(executed := r.1.executed, leaves := r.1.leaves)
  {
    var k := Opposite(o.side);
    var chain := Chain(k, b.Get(k), 0, o.price, o.leaves, 0);
    if chain == 0 then (b, o)
    else
      var b' := ExecuteChain(b, k, o.price, chain);
      assert b'.Get(BuyStops) == b.Get(BuyStops) && b'.Get(SellStops) == b.Get(SellStops);
      (b'.Trade(o, o.price, o.leaves), o.(executed := o.executed + o.leaves, leaves := 0))
  }

  function MatchOrder(b: Book, o: Order): (r: (Book, Order))
    ensures r.0.buyStops == b.buyStops && r.0.sellStops == b.sellStops
    ensures r.1 == o.(executed := r.1.executed, leaves := r.1.leaves)
  {
    if o.IsWhole() then MatchWhole(b, o) else Fill(b, o)
  }

  // One order of the opposite side has traded with `o`, which is asked to trade on if it can.
  lemma MatchStep(b: Book, o: Order)
    requires !o.IsWhole() && o.leaves > 0 && b.Get(Opposite(o.side)) != []
    requires var e := b.Get(Opposite(o.side))[0];
             Accepts(o.side, o.price, e.price) && !(e.IsAON() && e.leaves > o.leaves)
    ensures var k := Opposite(o.side);
            var e := b.Get(k)[0];
            var q := Min(e.leaves, o.leaves);
            var b' := Hit(b, k, 0, e.price, q).Trade(o, e.price, q);
            var o' := o.(executed := o.executed + q, leaves := o.leaves - q);
            MatchOrder(b, o) == (if o'.leaves == 0 then (b', o') else MatchOrder(b', o')) &&
            (o'.leaves > 0 ==> b'.Get(k) == b.Get(k)[1..])
  {
  }

  lemma MatchStops(b: Book, o: Order)
    requires var s := b.Get(Opposite(o.side));
             s == [] || !Accepts(o.side, o.price, s[0].price) ||
             (!o.IsWhole() && s[0].IsAON() && s[0].leaves > o.leaves)
    ensures MatchOrder(b, o) == (b, o)
  {
  }

  lemma ChainStep(b: Book, k: Kind, price: nat, volume: nat)
    requires b.Get(k) != [] && volume > 0
    ensures var e := b.Get(k)[0];
            var q := if e.IsAON() then e.leaves else Min(e.leaves, volume);
            var b' := Hit(b, k, 0, price, q);
            ExecuteChain(b, k, price, volume) == ExecuteChain(b', k, price, Sub64(volume, q)) &&
            (q == e.leaves ==> b'.Get(k) == b.Get(k)[1..]) &&
            (q < e.leaves ==> Sub64(volume, q) == 0 && |b'.Get(k)| == |b.Get(k)|)
  {
  }

  // The limit of a market order. The sell side compares and assigns with ORDER_INT_MAX, as the source does.
  function MarketLimit(side: Side, best: nat, slippage: nat): nat {
    if side == Buy then
      if best > Sub64(ORDER_INT_MAX, slippage) then ORDER_INT_MAX else Add64(best, slippage)
    else
      if best < Add64(ORDER_INT_MAX, slippage) then ORDER_INT_MAX else Sub64(best, slippage)
  }

  function MatchMarket(b: Book, o: Order): (r: (Book, Order))
    ensures r.0.buyStops == b.buyStops && r.0.sellStops == b.sellStops
  {
    var s := b.Get(Opposite(o.side));
    if s == [] then (b, o)
    else MatchOrder(b, o.(price := MarketLimit(o.side, s[0].price, o.slippage)))
  }

  // ---------- stop orders

  function AsMarket(o: Order): Order {
    o.(typ := Market, price := 0, stopPrice := 0, tif := if o.tif == FOK then FOK else IOC)
  }

  function AsLimit(o: Order): Order { o.(typ := Limit, stopPrice := 0) }

  // The order has already left the stop list.
  function Activate(b: Book, o: Order): (r: Book)
    ensures r.buyStops == b.buyStops && r.sellStops == b.sellStops
  {
    if o.typ == Stop then
      var (b', o') := MatchMarket(b, AsMarket(o));
      b'.Say(Deleted(o'.id))
    else
      var (b', o') := MatchOrder(b, AsLimit(o));
      if o'.Rests() then Link(b', o') else b'.Say(Deleted(o'.id))
  }

  // A buy stop is triggered when the market ask reaches it, a sell stop when the market bid does.
  predicate Triggers(b: Book, k: Kind, stopPrice: nat) {
    if k == SellStops then b.MarketBid() <= stopPrice else b.MarketAsk() >= stopPrice
  }

  predicate Triggered(b: Book, k: Kind) {
    b.Get(k) != [] && Triggers(b, k, b.Get(k)[0].stopPrice)
  }

  function ActivateFirst(b: Book, k: Kind): (r: Book)
    requires k == BuyStops || k == SellStops
    requires b.Get(k) != []
    ensures |r.Get(k)| == |b.Get(k)| - 1
    ensures forall j :: j != k && (j == BuyStops || j == SellStops) ==> r.Get(j) == b.Get(j)
  {
    Activate(Unlink(b, k, 0), b.Get(k)[0])
  }

  function ActivateRun(b: Book, k: Kind, n: nat): (r: Book)
    requires k == BuyStops || k == SellStops
    requires n <= |b.Get(k)|
    ensures |r.Get(k)| == |b.Get(k)| - n
    ensures forall j :: j != k && (j == BuyStops || j == SellStops) ==> r.Get(j) == b.Get(j)
    decreases n
  {
    if n == 0 then b else ActivateRun(ActivateFirst(b, k), k, n - 1)
  }

  // Matching never touches a stop list: an activation only takes the first order out of its own.
  lemma ActivateTakesFirst(b: Book, k: Kind)
    requires (k == BuyStops || k == SellStops) && b.Get(k) != []
    ensures ActivateFirst(b, k).Get(k) == b.Get(k)[1..]
  {
  }

  lemma StopActivation(b: Book, k: Kind)
    requires (k == BuyStops || k == SellStops) && b.Get(k) != [] && b.Get(k)[0].typ == Stop
    ensures ActivateFirst(b, k) == MatchMarket(Unlink(b, k, 0), AsMarket(b.Get(k)[0])).0.Say(Deleted(b.Get(k)[0].id))
  {
  }

  // The orders of a level follow each other in the list.
  lemma RunStep(b: Book, k: Kind)
    requires (k == BuyStops || k == SellStops) && b.Get(k) != []
    ensures var s, b' := b.Get(k), ActivateFirst(b, k);
            match NextInLevel(k, s, 0)
            case Some(id) =>
              b'.Get(k) != [] && b'.Get(k)[0].id == id &&
              ActivateRun(b, k, RunLength(k, s)) == ActivateRun(b', k, RunLength(k, b'.Get(k)))
            case None => ActivateRun(b, k, RunLength(k, s)) == b'
  {
    ActivateTakesFirst(b, k);
    hide ActivateFirst;
    if NextInLevel(k, b.Get(k), 0) == None {
      assert RunLength(k, b.Get(k)) == 1;
      assert ActivateRun(ActivateFirst(b, k), k, 0) == ActivateFirst(b, k);
    }
  }

  // All orders of the best stop level, once its price has been reached.
  function ActivateBest(b: Book, k: Kind): (r: Book)
    requires k == BuyStops || k == SellStops
    ensures if Triggered(b, k) then r.Stops() < b.Stops() else r == b
    ensures r.Stops() <= b.Stops()
  {
    if Triggered(b, k) then
      assert k == BuyStops || k == SellStops;
      var r := ActivateRun(b, k, RunLength(k, b.Get(k)));
      assert |r.Get(k)| < |b.Get(k)|;
      assert r.Get(BuyStops) == r.buyStops && r.Get(SellStops) == r.sellStops;
      r
    else b
  }

  // Buy stops first, then sell stops.
  function ActivatePass(b: Book): (r: Book)
    ensures r.Stops() <= b.Stops()
    ensures Active(b) ==> r.Stops() < b.Stops()
    ensures !Active(b) ==> r == b
  {
    ActivateBest(ActivateBest(b, BuyStops), SellStops)
  }

  predicate Active(b: Book) { Triggered(b, BuyStops) || Triggered(ActivateBest(b, BuyStops), SellStops) }

  function ActivateAll(b: Book): (r: Book)
    ensures if Active(b) then r.Stops() < b.Stops() else r == b
    ensures !Active(r)
    decreases b.Stops()
  {
    if Active(b) then ActivateAll(ActivatePass(b)) else b
  }

  // ---------- crossed books

  /** A walk over two queues. `lp` and `sp` are level pointers, `longest` and `shortest` order
      pointers together with what follows them in their queue. A swap exchanges the order pointers
      and leaves the level pointers where they are. */
  function TwoSidedWalk(b: Book, lk: Kind, lp: nat, sk: Kind, sp: nat, longest: seq<Order>, shortest: seq<Order>,
                        required: nat, available: nat): nat
    requires available <= required
    decreases Ahead(lk, b.Get(lk), lp) + Ahead(sk, b.Get(sk), sp), |longest| + |shortest|
  {
    if longest != [] && shortest != [] then
      var e := shortest[0];
      var total := available + if e.IsAON() then e.leaves else Min(e.leaves, required - available);
      if required == total then required
      else if required < total then TwoSidedWalk(b, lk, lp, sk, sp, shortest, longest[1..], total, required)
      else TwoSidedWalk(b, lk, lp, sk, sp, longest, shortest[1..], required, total)
    else
      var lp' := if longest == [] then NextPrice(lk, b.Get(lk), lp) else Some(lp);
      var sp' := if shortest == [] then NextPrice(sk, b.Get(sk), sp) else Some(sp);
      if lp' == None || sp' == None then 0
      else
        NextPriceAhead(lk, b.Get(lk), lp);
        NextPriceAhead(sk, b.Get(sk), sp);
        TwoSidedWalk(b, lk, lp'.value, sk, sp'.value,
                     if longest == [] then Queue(lk, b.Get(lk), lp'.value) else longest,
                     if shortest == [] then Queue(sk, b.Get(sk), sp'.value) else shortest,
                     required, available)
  }

  function Ahead(k: Kind, s: seq<Order>, price: nat): nat {
    if s == [] then 0 else (if Better(k, price, Key(k, s[0])) then 1 else 0) + Ahead(k, s[1..], price)
  }

  // One step of the walk inside the two queues, and one that moves to the next levels.
  lemma WalkOrder(b: Book, lk: Kind, lp: nat, sk: Kind, sp: nat, longest: seq<Order>, shortest: seq<Order>,
                  required: nat, available: nat)
    requires available <= required && longest != [] && shortest != []
    ensures var e := shortest[0];
            var total := available + if e.IsAON() then e.leaves else Min(e.leaves, required - available);
            TwoSidedWalk(b, lk, lp, sk, sp, longest, shortest, required, available) ==
            if required == total then required
            else if required < total then TwoSidedWalk(b, lk, lp, sk, sp, shortest, longest[1..], total, required)
            else TwoSidedWalk(b, lk, lp, sk, sp, longest, shortest[1..], required, total)
  {
  }

  lemma WalkLevel(b: Book, lk: Kind, lp: nat, sk: Kind, sp: nat, longest: seq<Order>, shortest: seq<Order>,
                  required: nat, available: nat)
    requires available <= required && (longest == [] || shortest == [])
    ensures var lp' := if longest == [] then NextPrice(lk, b.Get(lk), lp) else Some(lp);
            var sp' := if shortest == [] then NextPrice(sk, b.Get(sk), sp) else Some(sp);
            TwoSidedWalk(b, lk, lp, sk, sp, longest, shortest, required, available) ==
            if lp' == None || sp' == None then 0
            else TwoSidedWalk(b, lk, lp'.value, sk, sp'.value,
                              if longest == [] then Queue(lk, b.Get(lk), lp'.value) else longest,
                              if shortest == [] then Queue(sk, b.Get(sk), sp'.value) else shortest,
                              required, available)
  {
  }

  lemma {:induction false} NextPriceAhead(k: Kind, s: seq<Order>, price: nat)
    ensures var p := NextPrice(k, s, price);
            p.Some? ==> Better(k, price, p.value) && Ahead(k, s, p.value) < Ahead(k, s, price) &&
                        HasPrice(k, s, p.value)
  {
    if s != [] {
      if Better(k, price, Key(k, s[0])) {
        assert HasPrice(k, s, Key(k, s[0]));
        AheadMonotone(k, s[1..], price, Key(k, s[0]));
      } else {
        NextPriceAhead(k, s[1..], price);
        var p := NextPrice(k, s, price);
        if p.Some? {
          var i :| 0 <= i < |s[1..]| && Key(k, s[1..][i]) == p.value;
          assert Key(k, s[i + 1]) == p.value;
        }
      }
    }
  }

  lemma {:induction false} AheadMonotone(k: Kind, s: seq<Order>, p: nat, q: nat)
    requires Better(k, p, q)
    ensures Ahead(k, s, q) <= Ahead(k, s, p)
  {
    if s != [] { AheadMonotone(k, s[1..], p, q); }
  }

  function TwoSidedChain(b: Book): nat
    requires b.bids != [] && b.asks != []
  {
    var qb, qa := Queue(Bids, b.bids, b.bids[0].price), Queue(Asks, b.asks, b.asks[0].price);
    if qa[0].IsAON() && (!qb[0].IsAON() || qa[0].leaves > qb[0].leaves) then
      TwoSidedWalk(b, Asks, b.asks[0].price, Bids, b.bids[0].price, qa, qb, qa[0].leaves, 0)
    else
      TwoSidedWalk(b, Bids, b.bids[0].price, Asks, b.asks[0].price, qb, qa, qb[0].leaves, 0)
  }

  /** The two orders at i and j trade at the price of the smaller one, which leaves the book. */
  function TradePair(b: Book, i: nat, j: nat): (r: Book)
    requires i < |b.bids| && j < |b.asks|
    ensures r.buyStops == b.buyStops && r.sellStops == b.sellStops
    ensures |r.bids| == |b.bids| - (if b.bids[i].leaves <= b.asks[j].leaves then 1 else 0)
    ensures |r.asks| == |b.asks| - (if b.asks[j].leaves <= b.bids[i].leaves then 1 else 0)
  {
    var bid, ask := b.bids[i], b.asks[j];
    if bid.leaves > ask.leaves then
      Hit(Hit(b, Asks, j, ask.price, ask.leaves), Bids, i, ask.price, ask.leaves)
    else
      Hit(Hit(b, Bids, i, bid.price, bid.leaves), Asks, j, bid.price, bid.leaves)
  }

  /** One walk over the queues of the two best levels, pairing them up position by position. The
      flag tells that an 'All-Or-None' order cannot be matched, which ends the matching. */
  function PairLevels(b: Book, i: nat, j: nat): (r: (Book, bool))
    requires i < |b.bids| && j < |b.asks|
    ensures r.0.buyStops == b.buyStops && r.0.sellStops == b.sellStops
    decreases |b.bids| - i
  {
    var bid, ask := b.bids[i], b.asks[j];
    if bid.IsAON() || ask.IsAON() then
      var chain := TwoSidedChain(b);
      if chain == 0 then (b, true)
      else
        var b1 := ExecuteChain(b, Bids, bid.price, chain);
        var b2 := ExecuteChain(b1, Asks, ask.price, chain);
        assert b1.Get(BuyStops) == b.Get(BuyStops) && b1.Get(SellStops) == b.Get(SellStops);
        assert b2.Get(BuyStops) == b1.Get(BuyStops) && b2.Get(SellStops) == b1.Get(SellStops);
        (b2, false)
    else
      var b' := TradePair(b, i, j);
      if NextInLevel(Bids, b.bids, i) == None || NextInLevel(Asks, b.asks, j) == None then (b', false)
      else PairLevels(b', if bid.leaves <= ask.leaves then i else i + 1, if ask.leaves <= bid.leaves then j else j + 1)
  }

  // After a pair has traded, the orders behind it are where the walk looks for them.
  lemma TradePairLists(b: Book, i: nat, j: nat)
    requires i < |b.bids| && j < |b.asks|
    ensures var i' := if b.bids[i].leaves <= b.asks[j].leaves then i else i + 1;
            var j' := if b.asks[j].leaves <= b.bids[i].leaves then j else j + 1;
            var b' := TradePair(b, i, j);
            (i + 1 < |b.bids| ==> i' < |b'.bids| && b'.bids[i'] == b.bids[i + 1]) &&
            (j + 1 < |b.asks| ==> j' < |b'.asks| && b'.asks[j'] == b.asks[j + 1]) &&
            (0 < i' < |b'.bids| ==> b'.bids[0].price == b.bids[0].price) &&
            (0 < j' < |b'.asks| ==> b'.asks[0].price == b.asks[0].price)
  {
    hide Hit;
    var bid, ask := b.bids[i], b.asks[j];
    if bid.leaves > ask.leaves {
      HitLists(b, Asks, j, ask.price, ask.leaves);
      HitLists(Hit(b, Asks, j, ask.price, ask.leaves), Bids, i, ask.price, ask.leaves);
    } else {
      HitLists(b, Bids, i, bid.price, bid.leaves);
      HitLists(Hit(b, Bids, i, bid.price, bid.leaves), Asks, j, bid.price, bid.leaves);
    }
  }

  // What the walk does next, by the nodes that follow in the two queues.
  lemma PairStep(b: Book, i: nat, j: nat)
    requires i < |b.bids| && j < |b.asks| && !b.bids[i].IsAON() && !b.asks[j].IsAON()
    ensures var bid, ask := b.bids[i], b.asks[j];
            var b' := TradePair(b, i, j);
            var i' := if bid.leaves <= ask.leaves then i else i + 1;
            var j' := if ask.leaves <= bid.leaves then j else j + 1;
            match (NextInLevel(Bids, b.bids, i), NextInLevel(Asks, b.asks, j))
            case (Some(x), Some(y)) =>
              i' < |b'.bids| && b'.bids[i'].id == x && b'.bids[i'].price == bid.price &&
              j' < |b'.asks| && b'.asks[j'].id == y && b'.asks[j'].price == ask.price &&
              (b.bids[0].price == bid.price ==> b'.bids[0].price == bid.price) &&
              (b.asks[0].price == ask.price ==> b'.asks[0].price == ask.price) &&
              |b'.bids| - i' < |b.bids| - i &&
              PairLevels(b, i, j) == PairLevels(b', i', j')
            case _ => PairLevels(b, i, j) == (b', false)
  {
    hide TradePair;
    TradePairLists(b, i, j);
  }

  lemma PairBlocks(b: Book, i: nat, j: nat)
    requires i < |b.bids| && j < |b.asks| && (b.bids[i].IsAON() || b.asks[j].IsAON())
    ensures var chain := TwoSidedChain(b);
            PairLevels(b, i, j) ==
            if chain == 0 then (b, true)
            else (ExecuteChain(ExecuteChain(b, Bids, b.bids[i].price, chain), Asks, b.asks[j].price, chain), false)
  {
  }

  /** Matching the best levels while they cross. Stop orders are activated after each pair of levels. */
  function CrossLoop(b: Book): (r: (Book, bool))
    ensures r.0.Stops() <= b.Stops()
    ensures !r.1 ==> !r.0.Crossed()
    decreases b.Stops(), b.Size()
  {
    if !b.Crossed() then (b, false)
    else
      var (b1, blocked) := PairLevels(b, 0, 0);
      if blocked then (b1, true)
      else
        PairLevelsSize(b, 0, 0);
        var b2 := ActivateBest(b1, BuyStops);
        CrossLoop(ActivateBest(b2, SellStops))
  }

  function Match(b: Book): (r: Book)
    ensures r.Stops() <= b.Stops()
    decreases b.Stops()
  {
    var (b1, blocked) := CrossLoop(b);
    if blocked || !Active(b1) then b1 else Match(ActivateAll(b1))
  }

  // ---------- public operations on one book

  // Automatic matching closes every operation.
  function Settle(b: Book, matching: bool): Book { (if matching then Match(b) else b).Reset() }

  predicate Lists(b: Book, id: nat) {
    Has(b.bids, id) || Has(b.asks, id) || Has(b.buyStops, id) || Has(b.sellStops, id)
  }

  /** Adding an order to the book fails when its id is in use, here or in another book (`foreign`).
      The failure is found only after the order has been matched, and leaves the book unsettled. */
  function Insertion(b: Book, o: Order, matching: bool, foreign: set<nat>): (Book, ErrorCode) {
    if Lists(b, o.id) || o.id in foreign then (b.Say(Deleted(o.id)), OrderDuplicate)
    else (Settle(Link(b, o), matching), OK)
  }

  function Place(b: Book, o: Order, matching: bool, foreign: set<nat>): (Book, ErrorCode) {
    if o.Rests() then Insertion(b, o, matching, foreign) else (Settle(b.Say(Deleted(o.id)), matching), OK)
  }

  function AddMarket(b: Book, o: Order, matching: bool): Book {
    var b1 := b.Say(Added(o.id));
    Settle((if matching then MatchMarket(b1, o).0 else b1).Say(Deleted(o.id)), matching)
  }

  function AddLimit(b: Book, o: Order, matching: bool, foreign: set<nat>): (Book, ErrorCode) {
    var b1 := b.Say(Added(o.id));
    var (b2, o2) := if matching then MatchOrder(b1, o) else (b1, o);
    Place(b2, o2, matching, foreign)
  }

  // Stop and stop-limit orders that are triggered already never reach the stop lists.
  function AddStop(b: Book, o: Order, matching: bool, foreign: set<nat>): (Book, ErrorCode) {
    var b1 := b.Say(Added(o.id));
    if matching && Triggers(b1, KindOf(o), o.stopPrice) then
      if o.typ == Stop then
        (Settle(MatchMarket(b1, AsMarket(o)).0.Say(Deleted(o.id)), matching), OK)
      else
        var (b2, o2) := MatchOrder(b1, AsLimit(o));
        Place(b2, o2, matching, foreign)
    else if o.leaves > 0 then Insertion(b1, o, matching, foreign)
    else (Settle(b1.Say(Deleted(o.id)), matching), OK)
  }

  function AddOrder(b: Book, o: Order, matching: bool, foreign: set<nat>): (Book, ErrorCode) {
    match o.typ
    case Market => (AddMarket(b, o, matching), OK)
    case Limit => AddLimit(b, o, matching, foreign)
    case _ => AddStop(b, o, matching, foreign)
  }

  function ReduceOrder(b: Book, k: Kind, i: nat, quantity: nat, matching: bool): Book
    requires i < |b.Get(k)|
  {
    Settle(Reduce(b, k, i, Min(quantity, b.Get(k)[i].leaves)), matching)
  }

  function DeleteOrder(b: Book, k: Kind, i: nat, matching: bool): Book
    requires i < |b.Get(k)|
  {
    Settle(Delete(b, k, i), matching)
  }

  function ExecuteOrder(b: Book, k: Kind, i: nat, price: nat, quantity: nat, matching: bool): Book
    requires i < |b.Get(k)|
  {
    var q := Min(quantity, b.Get(k)[i].leaves);
    Settle(Reduce(Credit(b.Trade(b.Get(k)[i], price, q), k, i, q), k, i, q), matching)
  }

  // In-flight mitigation keeps what was executed out of the new quantity.
  function Modified(o: Order, price: nat, quantity: nat, mitigate: bool): Order {
    o.(price := price, quantity := quantity,
       leaves := if !mitigate then quantity else if quantity > o.executed then quantity - o.executed else 0)
  }

  // The modified order once it has been matched, outside of its book.
  function AfterModify(b: Book, k: Kind, i: nat, price: nat, quantity: nat, mitigate: bool, matching: bool)
    : (Book, Order)
    requires i < |b.Get(k)|
  {
    var b1, o1 := Unlink(b, k, i), Modified(b.Get(k)[i], price, quantity, mitigate);
    if o1.leaves > 0 && matching then MatchOrder(b1, o1) else (b1, o1)
  }

  function ModifyOrder(b: Book, k: Kind, i: nat, price: nat, quantity: nat, mitigate: bool, matching: bool): Book
    requires i < |b.Get(k)|
  {
    var (b2, o2) := AfterModify(b, k, i, price, quantity, mitigate, matching);
    Settle(if o2.leaves > 0 then Link(b2, o2) else b2.Say(Deleted(o2.id)), matching)
  }

  function ReplaceOrder(b: Book, k: Kind, i: nat, newId: nat, price: nat, quantity: nat, matching: bool,
                        foreign: set<nat>): (Book, ErrorCode)
    requires i < |b.Get(k)|
  {
    var b1 := Delete(b, k, i).Say(Added(newId));
    var o1 := b.Get(k)[i].(id := newId, price := price, quantity := quantity, executed := 0, leaves := quantity);
    var (b2, o2) := if matching then MatchOrder(b1, o1) else (b1, o1);
    if o2.leaves > 0 then Insertion(b2, o2, matching, foreign)
    else (Settle(b2.Say(Deleted(newId)), matching), OK)
  }

  // ---------- every execution makes the book smaller

  lemma HitSize(b: Book, k: Kind, i: nat, price: nat, q: nat)
    requires (k == Bids || k == Asks) && i < |b.Get(k)| && q <= b.Get(k)[i].leaves
    ensures Hit(b, k, i, price, q).Size() == b.Size() - q - (if q == b.Get(k)[i].leaves then 1 else 0)
  {
    hide Hit, Leaves;
    var o := b.Get(k)[i];
    HitLists(b, k, i, price, q);
    LeavesPut(b.Get(k), i, o.(executed := o.executed + q, leaves := o.leaves - q));
  }

  // Deleting an order that has just traded all it had is the same as reducing it to nothing.
  lemma DeleteIsHit(b: Book, k: Kind, i: nat, price: nat)
    requires i < |b.Get(k)|
    ensures var o := b.Get(k)[i];
            Delete(Credit(b.Trade(o, price, o.leaves), k, i, o.leaves), k, i).Reset() == Hit(b, k, i, price, o.leaves)
  {
  }

  lemma {:induction false} ExecuteChainSize(b: Book, k: Kind, price: nat, volume: nat)
    requires k == Bids || k == Asks
    ensures ExecuteChain(b, k, price, volume).Size() <= b.Size()
    ensures volume > 0 && b.Get(k) != [] ==> ExecuteChain(b, k, price, volume).Size() < b.Size()
    decreases |b.Get(k)|
  {
    var s := b.Get(k);
    if s != [] && volume > 0 {
      var q := if s[0].IsAON() then s[0].leaves else Min(s[0].leaves, volume);
      HitSize(b, k, 0, price, q);
      if q == s[0].leaves {
        ExecuteChainSize(Hit(b, k, 0, price, q), k, price, Sub64(volume, q));
      }
    }
  }

  lemma {:induction false} PairLevelsSize(b: Book, i: nat, j: nat)
    requires i < |b.bids| && j < |b.asks|
    ensures var r := PairLevels(b, i, j); r.0.Size() <= b.Size() && (!r.1 ==> r.0.Size() < b.Size())
    decreases |b.bids| - i
  {
    var bid, ask := b.bids[i], b.asks[j];
    if bid.IsAON() || ask.IsAON() {
      var chain := TwoSidedChain(b);
      var b1 := ExecuteChain(b, Bids, bid.price, chain);
      assert b1.Get(Asks) == b.Get(Asks);
      ExecuteChainSize(b, Bids, bid.price, chain);
      ExecuteChainSize(b1, Asks, ask.price, chain);
    } else {
      TradePairSize(b, i, j);
      if NextInLevel(Bids, b.bids, i) != None && NextInLevel(Asks, b.asks, j) != None {
        PairLevelsSize(TradePair(b, i, j), if bid.leaves <= ask.leaves then i else i + 1,
                       if ask.leaves <= bid.leaves then j else j + 1);
      }
    }
  }

  lemma TradePairSize(b: Book, i: nat, j: nat)
    requires i < |b.bids| && j < |b.asks|
    ensures TradePair(b, i, j).Size() < b.Size()
  {
    var bid, ask := b.bids[i], b.asks[j];
    if bid.leaves > ask.leaves {
      HitSize(b, Asks, j, ask.price, ask.leaves);
      HitSize(Hit(b, Asks, j, ask.price, ask.leaves), Bids, i, ask.price, ask.leaves);
    } else {
      HitSize(b, Bids, i, bid.price, bid.leaves);
      HitSize(Hit(b, Bids, i, bid.price, bid.leaves), Asks, j, bid.price, bid.leaves);
    }
  }
}
