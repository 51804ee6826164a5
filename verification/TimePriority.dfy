/** Time priority when a crossed book is worked off: the queues of the two best levels are paired
    position by position, and exactly when these pairs match does each side trade from its front. */
module TimePriority {
  import opened Options
  import opened Orders
  import opened PriorityList
  import opened BookSpec
  import opened Invariants
  import opened Fills
  import opened Trades
  import opened Crossing

  // Every pair that the walk goes past has the same quantity on both sides.
  predicate InTurn(s: seq<Order>, t: seq<Order>)
    requires s != [] && t != []
  {
    if NextInLevel(Bids, s, 0) == None || NextInLevel(Asks, t, 0) == None then true
    else s[0].leaves == t[0].leaves && InTurn(s[1..], t[1..])
  }

  // Both sides have traded the same volume, each from its front.
  predicate FromFront(b: Book, r: Book) {
    var q := Leaves(b.bids) - Leaves(r.bids);
    q >= 0 && r.bids == Take(b.bids, q) && r.asks == Take(b.asks, q)
  }

  ghost predicate Ready(b: Book) { Good(b, Plain) && Distinct(b.bids) && Distinct(b.asks) }

  lemma PairTakes(b: Book)
    requires b.bids != [] && b.asks != [] && HaveLeaves(b.bids) && HaveLeaves(b.asks)
    ensures var q := Min(b.bids[0].leaves, b.asks[0].leaves);
            var r := TradePair(b, 0, 0);
            r.bids == Take(b.bids, q) && r.asks == Take(b.asks, q) && q > 0
  {
    hide Hit;
    var bid, ask := b.bids[0], b.asks[0];
    if bid.leaves > ask.leaves {
      PairOrders(b, Asks, ask.price, ask.leaves);
      PairOrders(Hit(b, Asks, 0, ask.price, ask.leaves), Bids, ask.price, ask.leaves);
    } else {
      PairOrders(b, Bids, bid.price, bid.leaves);
      PairOrders(Hit(b, Bids, 0, bid.price, bid.leaves), Asks, bid.price, bid.leaves);
    }
  }

  lemma PairOrders(b: Book, k: Kind, price: nat, q: nat)
    requires (k == Bids || k == Asks) && b.Get(k) != [] && 0 < q <= b.Get(k)[0].leaves
    ensures Hit(b, k, 0, price, q).Get(k) == Take(b.Get(k), q)
    ensures k == Bids ==> Hit(b, k, 0, price, q).asks == b.asks
    ensures k == Asks ==> Hit(b, k, 0, price, q).bids == b.bids
  {
    HitAtFront(b, k, price, q);
    HitLeaves(b, k, 0, price, q);
    hide Hit;
    assert Take(b.Get(k)[1..], 0) == b.Get(k)[1..];
  }

  // What was taken can be added up.
  lemma {:induction false} TakeMore(s: seq<Order>, q: nat)
    requires s != [] && q >= s[0].leaves > 0
    ensures Take(s, q) == Take(s[1..], q - s[0].leaves)
  {
  }

  lemma {:induction false} TakeHas(s: seq<Order>, q: nat)
    ensures forall i :: 0 <= i < |Take(s, q)| ==> Has(s, Take(s, q)[i].id)
  {
    if s != [] && q > 0 {
      var t := Take(s, q);
      if s[0].leaves <= q {
        TakeHas(s[1..], q - s[0].leaves);
        forall i | 0 <= i < |t| ensures Has(s, t[i].id) {
          var j :| 0 <= j < |s[1..]| && s[1..][j].id == t[i].id;
          assert s[j + 1].id == t[i].id;
        }
      } else {
        forall i | 0 <= i < |t| ensures Has(s, t[i].id) { assert s[i].id == t[i].id; }
      }
    } else {
      forall i | 0 <= i < |s| ensures Has(s, s[i].id) { assert s[i].id == s[i].id; }
    }
  }

  // A list that still begins with its first order, and has lost more than that order, is no front cut off.
  lemma NotFromFront(s: seq<Order>, r: seq<Order>, q: nat)
    requires Distinct(s) && s != [] && r != [] && r[0].id == s[0].id && Leaves(r[1..]) < Leaves(s[1..])
    requires HaveLeaves(s)
    ensures r != Take(s, q)
  {
    OthersLack(s);
    if q > 0 && q >= s[0].leaves {
      TakeMore(s, q);
      TakeHas(s[1..], q - s[0].leaves);
    }
  }

  lemma OthersLack(s: seq<Order>)
    requires Distinct(s) && s != []
    ensures !Has(s[1..], s[0].id) && Distinct(s[1..])
  {
    forall i | 0 <= i < |s[1..]| ensures s[1..][i].id != s[0].id { assert s[1..][i] == s[i + 1]; }
    forall i, j | 0 <= i < j < |s[1..]| ensures s[1..][i].id != s[1..][j].id {
      assert s[1..][i] == s[i + 1] && s[1..][j] == s[j + 1];
    }
  }

  // The walk leaves alone what is before its places.
  lemma {:induction false} WalkLeavesFront(b: Book, i: nat, j: nat)
    requires Good(b, Plain) && i < |b.bids| && j < |b.asks|
    ensures var r := PairLevels(b, i, j).0;
            i <= |r.bids| && r.bids[..i] == b.bids[..i] && j <= |r.asks| && r.asks[..j] == b.asks[..j]
    decreases |b.bids| - i
  {
    hide TradePair, PairLevels;
    assert !b.bids[i].IsAON() && !b.asks[j].IsAON();
    PairStep(b, i, j);
    PairFront(b, i, j);
    GoodTradePair(b, Plain, i, j);
    if NextInLevel(Bids, b.bids, i) != None && NextInLevel(Asks, b.asks, j) != None {
      var i' := if b.bids[i].leaves <= b.asks[j].leaves then i else i + 1;
      var j' := if b.asks[j].leaves <= b.bids[i].leaves then j else j + 1;
      var b', r := TradePair(b, i, j), PairLevels(b, i, j).0;
      WalkLeavesFront(b', i', j');
      assert r.bids[..i] == r.bids[..i'][..i] && b'.bids[..i] == b'.bids[..i'][..i];
      assert r.asks[..j] == r.asks[..j'][..j] && b'.asks[..j] == b'.asks[..j'][..j];
    }
  }

  lemma PairFront(b: Book, i: nat, j: nat)
    requires i < |b.bids| && j < |b.asks|
    ensures var r := TradePair(b, i, j);
            i <= |r.bids| && r.bids[..i] == b.bids[..i] && j <= |r.asks| && r.asks[..j] == b.asks[..j]
  {
    hide Hit;
    var bid, ask := b.bids[i], b.asks[j];
    if bid.leaves > ask.leaves {
      HitLists(b, Asks, j, ask.price, ask.leaves);
      HitLists(Hit(b, Asks, j, ask.price, ask.leaves), Bids, i, ask.price, ask.leaves);
    } else {
      HitLists(b, Bids, i, bid.price, bid.leaves);
      HitLists(Hit(b, Bids, i, bid.price, bid.leaves), Asks, j, bid.price, bid.leaves);
    }
  }

  lemma {:induction false} WalkTrades(b: Book, i: nat, j: nat)
    requires Good(b, Plain) && i < |b.bids| && j < |b.asks|
    ensures var r := PairLevels(b, i, j).0; Leaves(r.bids) < Leaves(b.bids) && Leaves(r.asks) < Leaves(b.asks)
    decreases |b.bids| - i
  {
    hide TradePair, PairLevels;
    assert !b.bids[i].IsAON() && !b.asks[j].IsAON() && b.bids[i].leaves > 0 && b.asks[j].leaves > 0;
    PairStep(b, i, j);
    TradePairLeaves(b, i, j);
    GoodTradePair(b, Plain, i, j);
    if NextInLevel(Bids, b.bids, i) != None && NextInLevel(Asks, b.asks, j) != None {
      WalkTrades(TradePair(b, i, j), if b.bids[i].leaves <= b.asks[j].leaves then i else i + 1,
                 if b.asks[j].leaves <= b.bids[i].leaves then j else j + 1);
    }
  }

  // The order left over at the front, and the one behind it that has traded nevertheless.
  lemma LeftBehind(s: seq<Order>, q: nat, t: seq<Order>, r: seq<Order>, n: nat)
    requires Distinct(s) && HaveLeaves(s) && s != [] && 0 < q < s[0].leaves && t == Take(s, q)
    requires r != [] && r[..1] == t[..1] && Leaves(r) < Leaves(t)
    ensures r != Take(s, n)
  {
    assert t[0] == r[0] by { assert t[..1][0] == t[0] && r[..1][0] == r[0]; }
    assert t[1..] == s[1..];
    NotFromFront(s, r, n);
  }

  lemma PairLeftOver(b: Book)
    requires Ready(b) && b.bids != [] && b.asks != [] && b.bids[0].leaves != b.asks[0].leaves
    requires NextInLevel(Bids, b.bids, 0) != None && NextInLevel(Asks, b.asks, 0) != None
    ensures !FromFront(b, PairLevels(b, 0, 0).0)
  {
    hide TradePair, PairLevels, Good, Take;
    ReadyLists(b);
    var bid, ask := b.bids[0], b.asks[0];
    var b', r := TradePair(b, 0, 0), PairLevels(b, 0, 0).0;
    var i', j' := if bid.leaves <= ask.leaves then 0 else 1, if ask.leaves <= bid.leaves then 0 else 1;
    PairStep(b, 0, 0);
    PairTakes(b);
    GoodTradePair(b, Plain, 0, 0);
    WalkLeavesFront(b', i', j');
    WalkTrades(b', i', j');
    var q := Min(bid.leaves, ask.leaves);
    if FromFront(b, r) {
      var n := Leaves(b.bids) - Leaves(r.bids);
      if i' == 1 { LeftBehind(b.bids, q, b'.bids, r.bids, n); } else { LeftBehind(b.asks, q, b'.asks, r.asks, n); }
    }
  }

  lemma ReadyLists(b: Book)
    requires Ready(b)
    ensures HaveLeaves(b.bids) && HaveLeaves(b.asks) && NoAON(b.bids) && NoAON(b.asks)
  {
  }

  lemma TakeMoreIff(b: Book, b': Book, r: Book, l: nat)
    requires b.bids != [] && b.asks != [] && b.bids[0].leaves == b.asks[0].leaves == l > 0
    requires b'.bids == b.bids[1..] && b'.asks == b.asks[1..] && Leaves(r.bids) < Leaves(b'.bids)
    ensures FromFront(b, r) <==> FromFront(b', r)
  {
    var q := Leaves(b.bids) - Leaves(r.bids);
    TakeMore(b.bids, q);
    TakeMore(b.asks, q);
  }

  /** One pass over the best levels, without 'All-Or-None' orders: both sides trade the same volume from
      their front, in time priority, exactly when all pairs but the last have equal quantities. */
  lemma {:induction false} FromFrontIff(b: Book)
    requires Ready(b) && b.bids != [] && b.asks != []
    ensures FromFront(b, PairLevels(b, 0, 0).0) <==> InTurn(b.bids, b.asks)
    decreases |b.bids|
  {
    hide TradePair, PairLevels, Good, Take;
    ReadyLists(b);
    var b', r := TradePair(b, 0, 0), PairLevels(b, 0, 0).0;
    PairStep(b, 0, 0);
    PairTakes(b);
    GoodTradePair(b, Plain, 0, 0);
    var q := Min(b.bids[0].leaves, b.asks[0].leaves);
    if NextInLevel(Bids, b.bids, 0) == None || NextInLevel(Asks, b.asks, 0) == None {
      FirstLeaves(b.bids, q);
      FirstLeaves(b.asks, q);
      TakeLeaves(b.bids, q);
    } else if b.bids[0].leaves != b.asks[0].leaves {
      PairLeftOver(b);
    } else {
      WholeFirst(b.bids);
      WholeFirst(b.asks);
      OthersLack(b.bids);
      OthersLack(b.asks);
      WalkTrades(b', 0, 0);
      TakeMoreIff(b, b', r, q);
      FromFrontIff(b');
    }
  }

  lemma FirstLeaves(s: seq<Order>, q: nat)
    requires s != [] && q <= s[0].leaves
    ensures q <= Leaves(s)
  {
  }

  lemma WholeFirst(s: seq<Order>)
    requires s != []
    ensures Take(s, s[0].leaves) == if s[0].leaves == 0 then s else s[1..]
  {
    assert s[0].leaves > 0 ==> Take(s[1..], 0) == s[1..];
  }

  // ---------- a pass over two levels in every case

  // What is left of an order that has met another one.
  function LeftOf(x: Order, y: Order): seq<Order> { if x.leaves <= y.leaves then [] else [Traded(x, y.leaves)] }

  // What is left of a queue whose orders have met those of another one, first with first, second with second.
  function LeftOver(s: seq<Order>, t: seq<Order>): seq<Order> {
    if s == [] || t == [] then s else LeftOf(s[0], t[0]) + LeftOver(s[1..], t[1..])
  }

  // The smaller order of a pair is reported first, and both at its price.
  function MeetReports(bid: Order, ask: Order): seq<Event> {
    if bid.leaves > ask.leaves then TradeReports(ask, ask.price, ask.leaves) + TradeReports(bid, ask.price, ask.leaves)
    else TradeReports(bid, bid.price, bid.leaves) + TradeReports(ask, bid.price, bid.leaves)
  }

  function PassReports(s: seq<Order>, t: seq<Order>): seq<Event> {
    if s == [] || t == [] then [] else MeetReports(s[0], t[0]) + PassReports(s[1..], t[1..])
  }

  // The orders that follow at the price of the first one, and those behind them.
  function Run(k: Kind, s: seq<Order>): seq<Order> { s[..RunLength(k, s)] }

  function Behind(k: Kind, s: seq<Order>): seq<Order> { s[RunLength(k, s)..] }

  lemma PairIs(b: Book, i: nat, j: nat)
    requires i < |b.bids| && j < |b.asks| && b.bids[i].leaves > 0 && b.asks[j].leaves > 0
    ensures var r, bid, ask := TradePair(b, i, j), b.bids[i], b.asks[j];
            r.bids == b.bids[..i] + (LeftOf(bid, ask) + b.bids[i + 1..]) &&
            r.asks == b.asks[..j] + (LeftOf(ask, bid) + b.asks[j + 1..]) &&
            r.tape.log == b.tape.log + MeetReports(bid, ask)
  {
    hide Hit, TradeReports, LeftOf, Put;
    PairReported(b, i, j);
    var bid, ask := b.bids[i], b.asks[j];
    if bid.leaves > ask.leaves {
      HitIs(b, Asks, j, ask.price, bid);
      HitIs(Hit(b, Asks, j, ask.price, ask.leaves), Bids, i, ask.price, ask);
    } else {
      HitIs(b, Bids, i, bid.price, ask);
      HitIs(Hit(b, Bids, i, bid.price, bid.leaves), Asks, j, bid.price, bid);
    }
  }

  // One order of a pair in its list.
  lemma HitIs(b: Book, k: Kind, i: nat, price: nat, y: Order)
    requires (k == Bids || k == Asks) && i < |b.Get(k)| && b.Get(k)[i].leaves > 0 && y.leaves > 0
    ensures var s := b.Get(k);
            var r := Hit(b, k, i, price, Min(s[i].leaves, y.leaves));
            r.Get(k) == s[..i] + (LeftOf(s[i], y) + s[i + 1..]) &&
            (k == Bids ==> r.asks == b.asks) && (k == Asks ==> r.bids == b.bids)
  {
    hide Hit;
    var s := b.Get(k);
    HitLists(b, k, i, price, Min(s[i].leaves, y.leaves));
    if s[i].leaves > y.leaves {
      PutSplits(s, i, Traded(s[i], y.leaves));
    } else {
      assert [] + s[i + 1..] == s[i + 1..];
    }
  }

  lemma PutSplits(s: seq<Order>, i: nat, o: Order)
    requires i < |s|
    ensures s[i := o] == s[..i] + ([o] + s[i + 1..])
  {
  }

  // The first order of a run, and what follows it.
  lemma RunOf(k: Kind, s: seq<Order>, i: nat)
    requires i < |s|
    ensures var t, u := s[i..], s[i + 1..];
            if NextInLevel(k, s, i) == None then Run(k, t) == [s[i]] && Behind(k, t) == u
            else Run(k, t) == [s[i]] + Run(k, u) && Behind(k, t) == Behind(k, u) && Run(k, u) != []
  {
    var t, u := s[i..], s[i + 1..];
    assert t[1..] == u && t[0] == s[i];
    if NextInLevel(k, s, i) != None { assert RunLength(k, t) == 1 + RunLength(k, u); }
  }

  // One side of the book: what stays in front, the walk behind it, and what lies behind the level.
  lemma SideStep(k: Kind, s: seq<Order>, i: nat, p: seq<Order>, y: Order, t: seq<Order>)
    requires i < |s| && NextInLevel(k, s, i) != None && t != [] && t[0] == y
    requires p == s[..i] + LeftOf(s[i], y)
    ensures p + (LeftOver(Run(k, s[i + 1..]), t[1..]) + Behind(k, s[i + 1..])) ==
            s[..i] + (LeftOver(Run(k, s[i..]), t) + Behind(k, s[i..]))
  {
    RunOf(k, s, i);
    var q := Run(k, s[i..]);
    assert q[0] == s[i] && q[1..] == Run(k, s[i + 1..]);
    Append4(s[..i], LeftOf(s[i], y), LeftOver(q[1..], t[1..]), Behind(k, s[i..]));
  }

  lemma Append4<T>(a: seq<T>, b: seq<T>, c: seq<T>, d: seq<T>)
    ensures a + b + (c + d) == a + ((b + c) + d)
  {
  }

  // The walk ends with the shorter of the two runs.
  lemma SideEnds(k: Kind, s: seq<Order>, i: nat, y: Order, t: seq<Order>)
    requires i < |s| && t != [] && t[0] == y && (NextInLevel(k, s, i) == None || |t| == 1)
    ensures s[..i] + (LeftOf(s[i], y) + s[i + 1..]) == s[..i] + (LeftOver(Run(k, s[i..]), t) + Behind(k, s[i..]))
  {
    RunOf(k, s, i);
    var q := Run(k, s[i..]);
    assert q[0] == s[i] && LeftOver(q[1..], t[1..]) == q[1..];
    assert q[1..] + Behind(k, s[i..]) == s[i + 1..] by {
      if NextInLevel(k, s, i) != None {
        assert q[1..] == Run(k, s[i + 1..]);
      }
    }
    assert LeftOf(s[i], y) + s[i + 1..] == LeftOver(q, t) + Behind(k, s[i..]) by {
      assert LeftOver(q, t) == LeftOf(s[i], y) + q[1..];
      Append3(LeftOf(s[i], y), q[1..], Behind(k, s[i..]));
    }
  }

  lemma Append3<T>(a: seq<T>, b: seq<T>, c: seq<T>)
    ensures a + (b + c) == (a + b) + c
  {
  }

  lemma {:induction false} WalkPairs(b: Book, i: nat, j: nat)
    requires Good(b, Plain) && i < |b.bids| && j < |b.asks|
    ensures var r := PairLevels(b, i, j).0;
            var s, t := Run(Bids, b.bids[i..]), Run(Asks, b.asks[j..]);
            r.bids == b.bids[..i] + (LeftOver(s, t) + Behind(Bids, b.bids[i..])) &&
            r.asks == b.asks[..j] + (LeftOver(t, s) + Behind(Asks, b.asks[j..])) &&
            r.tape.log == b.tape.log + PassReports(s, t)
    decreases |b.bids| - i
  {
    hide TradePair, PairLevels, Run, Behind, LeftOf, MeetReports, Good, NextInLevel;
    PlainPair(b, i, j);
    PairStep(b, i, j);
    PairIs(b, i, j);
    GoodTradePair(b, Plain, i, j);
    RunOf(Bids, b.bids, i);
    RunOf(Asks, b.asks, j);
    var bid, ask, c := b.bids[i], b.asks[j], TradePair(b, i, j);
    var s, t := Run(Bids, b.bids[i..]), Run(Asks, b.asks[j..]);
    assert s[0] == bid && t[0] == ask;
    if NextInLevel(Bids, b.bids, i) != None && NextInLevel(Asks, b.asks, j) != None {
      var i' := if bid.leaves <= ask.leaves then i else i + 1;
      var j' := if ask.leaves <= bid.leaves then j else j + 1;
      WalkPairs(c, i', j');
      NextPlaces(b.bids, i, bid, ask, c.bids, i');
      NextPlaces(b.asks, j, ask, bid, c.asks, j');
      assert s[1..] == Run(Bids, b.bids[i + 1..]) && t[1..] == Run(Asks, b.asks[j + 1..]);
      SideStep(Bids, b.bids, i, c.bids[..i'], ask, t);
      SideStep(Asks, b.asks, j, c.asks[..j'], bid, s);
      Append3(b.tape.log, MeetReports(bid, ask), PassReports(s[1..], t[1..]));
    } else {
      SideEnds(Bids, b.bids, i, ask, t);
      SideEnds(Asks, b.asks, j, bid, s);
      assert PassReports(s[1..], t[1..]) == [];
    }
  }

  lemma PlainPair(b: Book, i: nat, j: nat)
    requires Good(b, Plain) && i < |b.bids| && j < |b.asks|
    ensures !b.bids[i].IsAON() && !b.asks[j].IsAON() && b.bids[i].leaves > 0 && b.asks[j].leaves > 0
  {
  }

  lemma NextPlaces(s: seq<Order>, i: nat, x: Order, y: Order, t: seq<Order>, i': nat)
    requires i < |s| && s[i] == x && t == s[..i] + (LeftOf(x, y) + s[i + 1..])
    requires i' == if x.leaves <= y.leaves then i else i + 1
    ensures t[i'..] == s[i + 1..] && t[..i'] == s[..i] + LeftOf(x, y)
  {
  }

  /** A pass over the two best levels pairs the first bid with the first ask, the second with the second, and so
      on to the end of the shorter queue. Each pair trades what its smaller order has, at that one's price. */
  lemma PassPairs(b: Book)
    requires Good(b, Plain) && b.bids != [] && b.asks != []
    ensures var r := PairLevels(b, 0, 0).0;
            var s, t := Run(Bids, b.bids), Run(Asks, b.asks);
            r.bids == LeftOver(s, t) + Behind(Bids, b.bids) && r.asks == LeftOver(t, s) + Behind(Asks, b.asks) &&
            r.tape.log == b.tape.log + PassReports(s, t)
  {
    hide PairLevels, Run, Behind, LeftOver, PassReports, Good;
    WalkPairs(b, 0, 0);
    assert b.bids[0..] == b.bids && b.asks[0..] == b.asks;
  }
}
