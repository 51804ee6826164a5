/** When matching ends uncrossed although 'All-Or-None' orders are in the book. */
module Uncrossing {
  import opened Orders
  import opened PriorityList
  import opened BookSpec
  import opened Invariants
  import opened Fills
  import opened Chains

  ghost predicate AllAON(s: seq<Order>) { forall i :: 0 <= i < |s| ==> s[i].IsAON() }

  /** Crossing orders at one price on either side, all of one side 'All-Or-None', and no stop orders. */
  ghost predicate Deadlocking(b: Book) {
    Good(b, Any) && OneLevel(b) && b.buyStops == b.sellStops == [] && (AllAON(b.bids) || AllAON(b.asks)) &&
    (b.bids != [] && b.asks != [] ==> b.Crossed())
  }

  // What is cut off first does not change where the list can be cut further on.
  lemma {:induction false} CutsAfterTake(s: seq<Order>, v: nat, w: nat)
    requires CutsAt(s, v) && HaveLeaves(s)
    ensures CutsAt(Take(s, v), w) <==> CutsAt(s, v + w)
  {
    if v > 0 {
      LeavesOfTail(s);
      if s[0].leaves <= v {
        CutsAfterTake(s[1..], v - s[0].leaves, w);
      } else {
        var t := [Traded(s[0], v)] + s[1..];
        assert Take(s, v) == t && t[1..] == s[1..];
      }
    }
  }

  // The rest of a list of 'All-Or-None' orders at one price is such a list.
  lemma {:induction false} TakeKeepsPrices(s: seq<Order>, v: nat, price: nat)
    requires CutsAt(s, v) && HaveLeaves(s) && forall i :: 0 <= i < |s| ==> s[i].price == price
    ensures var t := Take(s, v); forall i :: 0 <= i < |t| ==> t[i].price == price
    ensures AllAON(s) ==> AllAON(Take(s, v))
  {
    hide Take;
    if v > 0 {
      LeavesOfTail(s);
      TakeStep(s, v);
      if s[0].leaves <= v { TakeKeepsPrices(s[1..], v - s[0].leaves, price); }
    } else {
      assert Take(s, 0) == s by { TakeStep(s, 0); }
    }
  }

  lemma TakeStep(s: seq<Order>, v: nat)
    requires HaveLeaves(s) && (v > 0 ==> s != [])
    ensures Take(s, v) == if v == 0 then s else if s[0].leaves <= v then Take(s[1..], v - s[0].leaves)
                          else [Traded(s[0], v)] + s[1..]
  {
  }

  lemma {:induction false} WholeQueue(k: Kind, s: seq<Order>, price: nat)
    requires forall i :: 0 <= i < |s| ==> Key(k, s[i]) == price
    ensures Queue(k, s, price) == s
  {
    if s != [] {
      WholeQueue(k, s[1..], price);
      assert [s[0]] + s[1..] == s;
    }
  }

  lemma Heads(b: Book)
    requires Deadlocking(b) && b.bids != [] && b.asks != []
    ensures Queue(Bids, b.bids, b.bids[0].price) == b.bids && Queue(Asks, b.asks, b.asks[0].price) == b.asks
    ensures HaveLeaves(b.bids) && HaveLeaves(b.asks) && (b.bids[0].IsAON() || b.asks[0].IsAON()) && b.Crossed()
    ensures forall v :: CommonCut(b, v) <==> v > 0 && Cuttable(b.bids, v) && Cuttable(b.asks, v)
  {
    hide Queue;
    WholeQueue(Bids, b.bids, b.bids[0].price);
    WholeQueue(Asks, b.asks, b.asks[0].price);
    BothSides(b);
  }

  // A pass that finds a volume takes it from both sides.
  lemma Pass(b: Book)
    requires Deadlocking(b) && b.bids != [] && b.asks != [] && TwoSidedChain(b) > 0
    ensures var v, (c, blocked) := TwoSidedChain(b), PairLevels(b, 0, 0);
            !blocked && Cuttable(b.bids, v) && Cuttable(b.asks, v) && c.bids == Take(b.bids, v) &&
            c.asks == Take(b.asks, v) && Deadlocking(c)
  {
    hide ExecuteChain, PairLevels, TwoSidedChain, Queue, CommonCut, Good, Take, CutsAt, OneLevel, Match, CrossLoop;
    var v := TwoSidedChain(b);
    OneLevelMeans(b);
    Heads(b);
    StuckWithoutCut(b);
    assert CommonCut(b, v);
    PairBlocks(b, 0, 0);
    var b1 := ExecuteChain(b, Bids, b.bids[0].price, v);
    var c := ExecuteChain(b1, Asks, b.asks[0].price, v);
    assert b1.Get(Asks) == b.Get(Asks) && c.Get(Bids) == b1.Get(Bids);
    assert c.Get(BuyStops) == b.Get(BuyStops) && c.Get(SellStops) == b.Get(SellStops);
    ExecuteChainTakes(b, Bids, b.bids[0].price, v);
    ExecuteChainTakes(b1, Asks, b.asks[0].price, v);
    TakeKeepsPrices(b.bids, v, b.bids[0].price);
    TakeKeepsPrices(b.asks, v, b.asks[0].price);
    GoodPairLevels(b, Any, 0, 0);
    SamePrices(c, b.bids[0].price, b.asks[0].price);
  }

  lemma OneLevelMeans(b: Book)
    requires OneLevel(b)
    ensures forall i :: 0 <= i < |b.bids| ==> b.bids[i].price == b.bids[0].price
    ensures forall i :: 0 <= i < |b.asks| ==> b.asks[i].price == b.asks[0].price
  {
  }

  lemma SamePrices(b: Book, bid: nat, ask: nat)
    requires forall i :: 0 <= i < |b.bids| ==> b.bids[i].price == bid
    requires forall i :: 0 <= i < |b.asks| ==> b.asks[i].price == ask
    ensures OneLevel(b) && (bid >= ask && b.bids != [] && b.asks != [] ==> b.Crossed())
  {
  }

  // Without stop orders matching is the loop over crossing levels.
  lemma LoopStep(b: Book)
    requires b.Crossed() && b.buyStops == b.sellStops == [] && !PairLevels(b, 0, 0).1
    ensures PairLevels(b, 0, 0).0.Size() < b.Size() && CrossLoop(b) == CrossLoop(PairLevels(b, 0, 0).0)
  {
    hide PairLevels;
    PairLevelsSize(b, 0, 0);
  }

  lemma NoStops(b: Book)
    requires b.buyStops == b.sellStops == []
    ensures Match(b) == CrossLoop(b).0
  {
    hide PairLevels;
    assert CrossLoop(b).0.Stops() == 0;
  }

  // All that the smaller side has.
  function Smaller(b: Book): nat { Min(Leaves(b.bids), Leaves(b.asks)) }

  lemma {:induction false} LoopUncrossesIff(b: Book)
    requires Deadlocking(b)
    ensures !CrossLoop(b).0.Crossed() <==> CutsAt(b.bids, Smaller(b)) && CutsAt(b.asks, Smaller(b))
    decreases b.Size()
  {
    hide PairLevels, TwoSidedChain, Deadlocking, CommonCut, Take, CutsAt, Leaves;
    DeadlockingMeans(b);
    if b.bids == [] || b.asks == [] {
      EmptySide(b);
    } else {
      Heads(b);
      StuckWithoutCut(b);
      var m := Smaller(b);
      SomeLeaves(b.bids);
      SomeLeaves(b.asks);
      if TwoSidedChain(b) == 0 {
        assert CommonCut(b, m) <==> CutsAt(b.bids, m) && CutsAt(b.asks, m);
      } else {
        var v, c := TwoSidedChain(b), PairLevels(b, 0, 0).0;
        Pass(b);
        LoopStep(b);
        LoopUncrossesIff(c);
        TakeLeaves(b.bids, v);
        TakeLeaves(b.asks, v);
        CutsAfterTake(b.bids, v, Smaller(c));
        CutsAfterTake(b.asks, v, Smaller(c));
        assert m == v + Smaller(c);
      }
    }
  }

  lemma DeadlockingMeans(b: Book)
    requires Deadlocking(b)
    ensures Good(b, Any) && OneLevel(b) && b.buyStops == b.sellStops == []
    ensures b.bids != [] && b.asks != [] ==> b.Crossed()
  {
  }

  lemma EmptySide(b: Book)
    requires b.bids == [] || b.asks == []
    ensures Smaller(b) == 0 && CutsAt(b.bids, 0) && CutsAt(b.asks, 0) && CrossLoop(b) == (b, false)
  {
  }

  lemma SomeLeaves(s: seq<Order>)
    requires s != [] && HaveLeaves(s)
    ensures Leaves(s) > 0
  {
  }

  /** With one price on either side and one side all 'All-Or-None', matching ends uncrossed exactly when all
      that the smaller side has can be cut off the front of both. */
  lemma UncrossesIff(b: Book)
    requires Deadlocking(b)
    ensures !Match(b).Crossed() <==> CutsAt(b.bids, Smaller(b)) && CutsAt(b.asks, Smaller(b))
  {
    hide Match, CrossLoop;
    DeadlockingMeans(b);
    NoStops(b);
    LoopUncrossesIff(b);
  }

  // ---------- whatever the book

  // The walk gives up where it has met an 'All-Or-None' order and found no volume.
  lemma {:induction false} BlockedPass(b: Book, i: nat, j: nat)
    requires i < |b.bids| && j < |b.asks| && PairLevels(b, i, j).1
    ensures Stuck(PairLevels(b, i, j).0)
    decreases |b.bids| - i
  {
    hide TradePair, PairLevels, TwoSidedChain, ExecuteChain;
    if b.bids[i].IsAON() || b.asks[j].IsAON() {
      PairBlocks(b, i, j);
    } else {
      PairStep(b, i, j);
      BlockedPass(TradePair(b, i, j), if b.bids[i].leaves <= b.asks[j].leaves then i else i + 1,
                  if b.asks[j].leaves <= b.bids[i].leaves then j else j + 1);
    }
  }

  // An 'All-Or-None' order waits, and the calculator finds no volume for the best levels.
  ghost predicate Stuck(b: Book) {
    b.bids != [] && b.asks != [] && TwoSidedChain(b) == 0 && !(NoAON(b.bids) && NoAON(b.asks))
  }

  lemma {:induction false} BlockedLoop(b: Book)
    requires CrossLoop(b).1
    ensures Stuck(CrossLoop(b).0)
    decreases b.Stops(), b.Size()
  {
    hide PairLevels, ActivateBest, Stuck;
    var (b1, blocked) := PairLevels(b, 0, 0);
    PairLevelsSize(b, 0, 0);
    if blocked {
      BlockedPass(b, 0, 0);
    } else {
      BlockedLoop(ActivateBest(ActivateBest(b1, BuyStops), SellStops));
    }
  }

  lemma {:induction false} BlockedMatch(b: Book)
    requires Match(b).Crossed()
    ensures Stuck(Match(b))
    decreases b.Stops()
  {
    hide CrossLoop, ActivateAll, Active, Stuck;
    var (b1, blocked) := CrossLoop(b);
    if blocked {
      BlockedLoop(b);
    } else if Active(b1) {
      BlockedMatch(ActivateAll(b1));
    }
  }

  /** Whatever the prices and stop orders, matching ends crossed only with an 'All-Or-None' order in the book
      for which the calculator finds nothing; when one is first in its queue, the best levels of that book
      then have no volume in common. */
  lemma CrossedMeansStuck(b: Book)
    requires Good(b, Any) && Match(b).Crossed()
    ensures Stuck(Match(b))
    ensures var r := Match(b); r.bids[0].IsAON() || r.asks[0].IsAON() ==> forall v :: !CommonCut(r, v)
  {
    hide Match, CommonCut, TwoSidedChain;
    BlockedMatch(b);
    GoodMatch(b, Any);
    var r := Match(b);
    if r.bids[0].IsAON() || r.asks[0].IsAON() { StuckWithoutCut(r); }
  }

  // ---------- a book that gets stuck

  function WholeLimit(id: nat, side: Side, quantity: nat): Order {
    Order(id, 0, Limit, side, 10, 0, quantity, 0, quantity, AON, ORDER_INT_MAX, ORDER_INT_MAX, 0, 0)
  }

  /** 'All-Or-None' bids for 5 and 7 against 'All-Or-None' asks for 5 and 100: matching begins, trades 5, and
      gets stuck on the rest. */
  lemma StuckOnTheWay()
    ensures var bids := [WholeLimit(1, Buy, 5), WholeLimit(2, Buy, 7)];
            var asks := [WholeLimit(3, Sell, 5), WholeLimit(4, Sell, 100)];
            var b := EMPTY.(bids := bids, asks := asks);
            Deadlocking(b) && CommonCut(b, 5) && Match(b).Crossed()
  {
    hide Match, Queue;
    var b2, a2 := WholeLimit(2, Buy, 7), WholeLimit(4, Sell, 100);
    var bids, asks := [WholeLimit(1, Buy, 5), b2], [WholeLimit(3, Sell, 5), a2];
    var b := EMPTY.(bids := bids, asks := asks);
    assert bids[1..] == [b2] && asks[1..] == [a2] && [b2][1..] == [] && [a2][1..] == [];
    assert Leaves([b2]) == 7 && Leaves([a2]) == 100;
    Heads(b);
    UncrossesIff(b);
    assert !CutsAt([a2], 7);
  }
}
