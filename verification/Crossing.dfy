/** Matching a crossed book: what it achieves on books without 'All-Or-None' orders, and the two-sided
    chain of 'All-Or-None' orders within the two best levels. */
module Crossing {
  import opened Options
  import opened Orders
  import opened PriorityList
  import opened BookSpec
  import opened Invariants
  import opened Fills

  /** After matching, best bid is below best ask and no stop level is still triggered. */
  lemma {:induction false} MatchUncrosses(b: Book, m: Mode)
    requires Good(b, m) && m != Any
    ensures var r := Match(b);
            Good(r, m) && !r.Crossed() && !Triggered(r, BuyStops) && !Triggered(r, SellStops)
    decreases b.Stops()
  {
    hide Good, CrossLoop, ActivateAll;
    GoodCrossLoop(b, m);
    var (b1, blocked) := CrossLoop(b);
    if Active(b1) {
      GoodActivateAll(b1, m);
      MatchUncrosses(ActivateAll(b1), m);
    }
  }

  // ---------- 'All-Or-None' orders that cannot be matched

  /** With an 'All-Or-None' order at the head of a best queue, matching is stuck exactly when the
      two-sided chain is empty, and then it changes nothing. */
  lemma StuckIff(b: Book)
    requires b.Crossed() && (b.bids[0].IsAON() || b.asks[0].IsAON())
    ensures CrossLoop(b) == (b, true) <==> TwoSidedChain(b) == 0
    ensures TwoSidedChain(b) == 0 ==> Match(b) == b
  {
    hide TwoSidedChain, ExecuteChain;
    PairLevelsSize(b, 0, 0);
    if TwoSidedChain(b) != 0 { SmallerAfterCross(b); }
  }

  lemma SmallerAfterCross(b: Book)
    requires b.Crossed() && !PairLevels(b, 0, 0).1
    ensures CrossLoop(b).0.Stops() < b.Stops() || CrossLoop(b).0.Size() < b.Size()
  {
    hide PairLevels, ActivateBest;
    PairLevelsSize(b, 0, 0);
    var b2 := ActivateBest(PairLevels(b, 0, 0).0, BuyStops);
    var b3 := ActivateBest(b2, SellStops);
    CrossLoopSize(b3);
  }

  lemma {:induction false} CrossLoopSize(b: Book)
    ensures CrossLoop(b).0.Stops() < b.Stops() || CrossLoop(b).0.Size() <= b.Size()
    decreases b.Stops(), b.Size()
  {
    hide PairLevels, ActivateBest;
    if b.Crossed() {
      PairLevelsSize(b, 0, 0);
      var (b1, blocked) := PairLevels(b, 0, 0);
      if !blocked { CrossLoopSize(ActivateBest(ActivateBest(b1, BuyStops), SellStops)); }
    }
  }

  // ---------- conservation

  lemma TradePairLeaves(b: Book, i: nat, j: nat)
    requires i < |b.bids| && j < |b.asks|
    ensures var r := TradePair(b, i, j);
            var q := Min(b.bids[i].leaves, b.asks[j].leaves);
            Leaves(r.bids) == Leaves(b.bids) - q && Leaves(r.asks) == Leaves(b.asks) - q
  {
    hide Hit;
    var bid, ask := b.bids[i], b.asks[j];
    if bid.leaves > ask.leaves {
      HitLeaves(b, Asks, j, ask.price, ask.leaves);
      HitLeaves(Hit(b, Asks, j, ask.price, ask.leaves), Bids, i, ask.price, ask.leaves);
    } else {
      HitLeaves(b, Bids, i, bid.price, bid.leaves);
      HitLeaves(Hit(b, Bids, i, bid.price, bid.leaves), Asks, j, bid.price, bid.leaves);
    }
  }

  lemma HitLeaves(b: Book, k: Kind, i: nat, price: nat, q: nat)
    requires i < |b.Get(k)| && q <= b.Get(k)[i].leaves
    ensures Leaves(Hit(b, k, i, price, q).Get(k)) == Leaves(b.Get(k)) - q
    ensures forall j :: j != k ==> Hit(b, k, i, price, q).Get(j) == b.Get(j)
    ensures k == Bids || k == Asks ==>
            var o := if k == Bids then Asks else Bids; Hit(b, k, i, price, q).Get(o) == b.Get(o)
  {
    hide Hit;
    HitLists(b, k, i, price, q);
    var o := b.Get(k)[i];
    LeavesPut(b.Get(k), i, o.(executed := o.executed + q, leaves := o.leaves - q));
  }

  lemma {:induction false} PairLevelsLeaves(b: Book, m: Mode, i: nat, j: nat)
    requires Good(b, m) && m != Any && i < |b.bids| && j < |b.asks|
    ensures var r := PairLevels(b, i, j).0;
            Leaves(b.bids) - Leaves(r.bids) == Leaves(b.asks) - Leaves(r.asks)
    decreases |b.bids| - i
  {
    hide TradePair, PairLevels;
    assert !b.bids[i].IsAON() && !b.asks[j].IsAON();
    PairStep(b, i, j);
    TradePairLeaves(b, i, j);
    GoodTradePair(b, m, i, j);
    if NextInLevel(Bids, b.bids, i) != None && NextInLevel(Asks, b.asks, j) != None {
      PairLevelsLeaves(TradePair(b, i, j), m, if b.bids[i].leaves <= b.asks[j].leaves then i else i + 1,
                       if b.asks[j].leaves <= b.bids[i].leaves then j else j + 1);
    }
  }

  lemma {:induction false} CrossLoopLeaves(b: Book, m: Mode)
    requires Good(b, m) && m != Any && b.buyStops == b.sellStops == []
    ensures var r := CrossLoop(b).0;
            Leaves(b.bids) - Leaves(r.bids) == Leaves(b.asks) - Leaves(r.asks) && r.buyStops == r.sellStops == []
    decreases b.Size()
  {
    hide Good, PairLevels;
    if b.Crossed() {
      GoodPairLevels(b, m, 0, 0);
      PairLevelsSize(b, 0, 0);
      PairLevelsLeaves(b, m, 0, 0);
      CrossLoopLeaves(PairLevels(b, 0, 0).0, m);
    }
  }

  /** Without stop orders, matching takes the same volume from both sides. */
  lemma MatchConserves(b: Book, m: Mode)
    requires Good(b, m) && m != Any && b.buyStops == b.sellStops == []
    ensures Leaves(b.bids) - Leaves(Match(b).bids) == Leaves(b.asks) - Leaves(Match(b).asks)
  {
    CrossLoopLeaves(b, m);
  }

  // ---------- the two-sided chain of 'All-Or-None' orders

  /** The two-sided walk while it stays in the two queues it starts with. */
  function QueueWalk(longest: seq<Order>, shortest: seq<Order>, required: nat, available: nat): Option<nat>
    requires available <= required
    decreases |longest| + |shortest|
  {
    if longest == [] || shortest == [] then None
    else
      var e := shortest[0];
      var total := available + if e.IsAON() then e.leaves else Min(e.leaves, required - available);
      if required == total then Some(required)
      else if required < total then QueueWalk(shortest, longest[1..], total, required)
      else QueueWalk(longest, shortest[1..], required, total)
  }

  lemma {:induction false} WalkInQueues(b: Book, lk: Kind, lp: nat, sk: Kind, sp: nat, longest: seq<Order>,
                                        shortest: seq<Order>, required: nat, available: nat)
    requires available <= required && QueueWalk(longest, shortest, required, available).Some?
    ensures TwoSidedWalk(b, lk, lp, sk, sp, longest, shortest, required, available) ==
            QueueWalk(longest, shortest, required, available).value
    decreases |longest| + |shortest|
  {
    hide TwoSidedWalk;
    WalkOrder(b, lk, lp, sk, sp, longest, shortest, required, available);
    var e := shortest[0];
    var total := available + if e.IsAON() then e.leaves else Min(e.leaves, required - available);
    if required < total {
      WalkInQueues(b, lk, lp, sk, sp, shortest, longest[1..], total, required);
    } else if total < required {
      WalkInQueues(b, lk, lp, sk, sp, longest, shortest[1..], required, total);
    }
  }

  /** Through all swaps: the orders up to and including the current longest one, an 'All-Or-None'
      order, add up to what is required, and the orders before the current shortest one to what is
      available. So the result can be cut off both queues. */
  lemma {:induction false} QueueWalkCuts(pl: seq<Order>, longest: seq<Order>, ps: seq<Order>, shortest: seq<Order>,
                                         required: nat, available: nat)
    requires HaveLeaves(pl + longest) && HaveLeaves(ps + shortest)
    requires longest != [] ==> required == Leaves(pl) + longest[0].leaves
    requires available == Leaves(ps) && available <= required
    ensures var r := QueueWalk(longest, shortest, required, available);
            r.Some? ==> CutsAt(pl + longest, r.value) && r.value <= Leaves(pl + longest) &&
                        CutsAt(ps + shortest, r.value) && r.value <= Leaves(ps + shortest)
    decreases |longest| + |shortest|
  {
    hide HaveLeaves, Leaves, CutsAt;
    if longest != [] && shortest != [] {
      var e := shortest[0];
      var total := available + if e.IsAON() then e.leaves else Min(e.leaves, required - available);
      WalkMoves(pl, longest);
      WalkMoves(ps, shortest);
      if required == total {
        WalkEnds(pl, longest, required);
        WalkEnds(ps, shortest, required);
      } else if required < total {
        QueueWalkCuts(ps, shortest, pl + [longest[0]], longest[1..], total, required);
      } else {
        QueueWalkCuts(pl, longest, ps + [e], shortest[1..], required, total);
      }
    }
  }

  // The first order of the rest of a queue goes over to the part walked past.
  lemma WalkMoves(p: seq<Order>, t: seq<Order>)
    requires HaveLeaves(p + t) && t != []
    ensures p + t == (p + [t[0]]) + t[1..] && Leaves(p + [t[0]]) == Leaves(p) + t[0].leaves && t[0].leaves > 0
  {
    LeavesConcat(p, [t[0]]);
    assert (p + t)[|p|] == t[0];
  }

  lemma WalkEnds(p: seq<Order>, t: seq<Order>, q: nat)
    requires HaveLeaves(p + t) && t != [] && Leaves(p) <= q <= Leaves(p) + t[0].leaves
    requires t[0].IsAON() ==> q == Leaves(p) + t[0].leaves
    ensures CutsAt(p + t, q) && q <= Leaves(p + t)
  {
    assert HaveLeaves(t) by { assert (p + t)[|p|..] == t; }
    assert CutsAt(t, q - Leaves(p));
    CutsPast(p, t, q);
    LeavesConcat(p, t);
  }

  // A cut behind a prefix.
  lemma {:induction false} CutsPast(p: seq<Order>, t: seq<Order>, q: nat)
    requires HaveLeaves(p + t) && q >= Leaves(p) && CutsAt(t, q - Leaves(p))
    ensures CutsAt(p + t, q)
  {
    if p == [] {
      assert p + t == t;
    } else {
      assert (p + t)[1..] == p[1..] + t;
      assert HaveLeaves(p[1..] + t) by {
        assert forall i :: 0 <= i < |p[1..] + t| ==> (p[1..] + t)[i] == (p + t)[i + 1];
      }
      CutsPast(p[1..], t, q - p[0].leaves);
    }
  }

  lemma {:induction false} CutsPrefix(p: seq<Order>, t: seq<Order>, q: nat)
    requires CutsAt(p, q) && q <= Leaves(p)
    ensures CutsAt(p + t, q)
  {
    if q > 0 {
      assert (p + t)[1..] == p[1..] + t;
      if p[0].leaves <= q { CutsPrefix(p[1..], t, q - p[0].leaves); }
    }
  }

  // The queues of the two best levels, the one with the larger 'All-Or-None' order first.
  function BidIsLongest(b: Book): bool
    requires b.bids != [] && b.asks != []
  {
    !(b.asks[0].IsAON() && (!b.bids[0].IsAON() || b.asks[0].leaves > b.bids[0].leaves))
  }

  function BestWalk(b: Book): Option<nat>
    requires b.bids != [] && b.asks != []
  {
    var qb, qa := Queue(Bids, b.bids, b.bids[0].price), Queue(Asks, b.asks, b.asks[0].price);
    if BidIsLongest(b) then QueueWalk(qb, qa, b.bids[0].leaves, 0) else QueueWalk(qa, qb, b.asks[0].leaves, 0)
  }

  /** When the walk finds its result within the two best levels, both sides have a front of exactly
      that volume with every 'All-Or-None' order whole, and matching removes exactly that front from
      both. */
  lemma TwoSidedExact(b: Book, bidPrice: nat, askPrice: nat)
    requires Good(b, Any) && b.bids != [] && b.asks != [] && BestWalk(b).Some?
    ensures var r := TwoSidedChain(b);
            r == BestWalk(b).value && CutsAt(b.bids, r) && CutsAt(b.asks, r) &&
            r <= Leaves(b.bids) && r <= Leaves(b.asks) &&
            var b' := ExecuteChain(ExecuteChain(b, Bids, bidPrice, r), Asks, askPrice, r);
            b'.bids == Take(b.bids, r) && b'.asks == Take(b.asks, r)
  {
    var qb, qa := Queue(Bids, b.bids, b.bids[0].price), Queue(Asks, b.asks, b.asks[0].price);
    assert Key(Bids, b.bids[0]) == b.bids[0].price && Key(Asks, b.asks[0]) == b.asks[0].price;
    BestQueue(Bids, b.bids);
    BestQueue(Asks, b.asks);
    assert HaveLeaves(b.bids) && HaveLeaves(b.asks);
    assert b.bids == qb + b.bids[|qb|..] && b.asks == qa + b.asks[|qa|..];
    var r := BestWalk(b).value;
    assert TwoSidedChain(b) == r && CutsAt(qb, r) && CutsAt(qa, r) && r <= Leaves(qb) && r <= Leaves(qa) by {
      BestWalkCuts(b, qb, qa);
    }
    CutsPrefix(qb, b.bids[|qb|..], r);
    CutsPrefix(qa, b.asks[|qa|..], r);
    LeavesConcat(qb, b.bids[|qb|..]);
    LeavesConcat(qa, b.asks[|qa|..]);
    var b1 := ExecuteChain(b, Bids, bidPrice, r);
    assert b1.Get(Asks) == b.Get(Asks);
    ExecuteChainTakes(b, Bids, bidPrice, r);
    ExecuteChainTakes(b1, Asks, askPrice, r);
    assert ExecuteChain(b1, Asks, askPrice, r).Get(Bids) == b1.Get(Bids);
  }

  lemma BestWalkCuts(b: Book, qb: seq<Order>, qa: seq<Order>)
    requires b.bids != [] && b.asks != [] && BestWalk(b).Some?
    requires qb == Queue(Bids, b.bids, b.bids[0].price) && qa == Queue(Asks, b.asks, b.asks[0].price)
    requires HaveLeaves(qb) && HaveLeaves(qa)
    ensures var r := BestWalk(b).value;
            TwoSidedChain(b) == r && CutsAt(qb, r) && CutsAt(qa, r) && r <= Leaves(qb) && r <= Leaves(qa)
  {
    hide TwoSidedWalk;
    assert qb[0] == b.bids[0] && qa[0] == b.asks[0];
    assert [] + qb == qb && [] + qa == qa;
    if BidIsLongest(b) {
      WalkInQueues(b, Bids, b.bids[0].price, Asks, b.asks[0].price, qb, qa, qb[0].leaves, 0);
      QueueWalkCuts([], qb, [], qa, qb[0].leaves, 0);
    } else {
      WalkInQueues(b, Asks, b.asks[0].price, Bids, b.bids[0].price, qa, qb, qa[0].leaves, 0);
      QueueWalkCuts([], qa, [], qb, qa[0].leaves, 0);
    }
  }
}
